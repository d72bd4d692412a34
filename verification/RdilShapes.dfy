/** Format strings are unambiguous: two statements that are printed the same differ at most in their values. */
module RdilShapes {
  import opened Rdil

  /** Values, the binary operators that are printed, not and mem. */
  predicate IsOperand(e: Expr) {
    match e
    case Value(_, _) => true
    case Binary(op, l, r) => Printed(op) && IsOperand(l) && IsOperand(r)
    case Unary(operation, u) => operation in {Not, Mem} && IsOperand(u)
    case _ => false
  }

  /** Operands, the other expressions over operands, and branches between statements. */
  predicate IsStatement(e: Expr) {
    match e
    case Value(_, _) => true
    case Unknown => true
    case Nop => true
    case Binary(_, _, _) => IsOperand(e)
    case Unary(_, u) => IsOperand(u)
    case Copy(d, s) => IsOperand(d) && IsOperand(s)
    case If(c, t, f) => IsOperand(c) && IsStatement(t) && IsStatement(f)
    case Other => false
  }

  lemma {:induction false} OperandsAreAccepted(e: Expr)
    requires IsOperand(e)
    ensures Accepted(e)
  {
    match e
    case Binary(_, l, r) => OperandsAreAccepted(l); OperandsAreAccepted(r);
    case Unary(_, u) => OperandsAreAccepted(u);
    case _ =>
  }

  lemma {:induction false} StatementsAreAccepted(e: Expr)
    requires IsStatement(e)
    ensures Accepted(e)
  {
    match e
    case Binary(_, _, _) => OperandsAreAccepted(e);
    case Unary(_, u) => OperandsAreAccepted(u);
    case Copy(d, s) => OperandsAreAccepted(d); OperandsAreAccepted(s);
    case If(c, t, f) => OperandsAreAccepted(c); StatementsAreAccepted(t); StatementsAreAccepted(f);
    case _ =>
  }

  /** Equal but for the values. */
  predicate SameShape(a: Expr, b: Expr) {
    match a
    case Value(kind, _) => b.Value? && b.kind == kind
    case Unknown => b.Unknown?
    case Nop => b.Nop?
    case Binary(op, l, r) => b.Binary? && b.op == op && SameShape(l, b.left) && SameShape(r, b.right)
    case Unary(operation, u) => b.Unary? && b.operation == operation && SameShape(u, b.u)
    case Copy(d, s) => b.Copy? && SameShape(d, b.dst) && SameShape(s, b.src)
    case If(c, t, f) => b.If? && SameShape(c, b.cond) && SameShape(t, b.t) && SameShape(f, b.f)
    case Other => b.Other?
  }

  function Size(e: Expr): nat {
    match e
    case Binary(_, l, r) => 1 + Size(l) + Size(r)
    case Unary(_, u) => 1 + Size(u)
    case Copy(d, s) => 1 + Size(d) + Size(s)
    case If(c, t, f) => 1 + Size(c) + Size(t) + Size(f)
    case _ => 1
  }

  // ---- Texts

  lemma SameHead(a: string, b: string, x: string, y: string)
    requires a != "" && b != "" && a + x == b + y
    ensures a[0] == b[0]
  {
    assert (a + x)[0] == a[0] && (b + y)[0] == b[0];
  }

  lemma SameRest(a: string, x: string, y: string)
    requires a + x == a + y
    ensures x == y
  {
    assert (a + x)[|a|..] == x && (a + y)[|a|..] == y;
  }

  // ---- Operators

  predicate OperatorChar(c: char) {
    c in {'+', '-', '*', '/', '&', '|', '^', '=', '!', '<', '>'}
  }

  function OperatorOf(text: string): Operator {
    if text == "+" then Add else if text == "-" then Sub else if text == "*" then Mul else if text == "/" then Div
    else if text == "&" then And else if text == "|" then Or else if text == "^" then Xor
    else if text == "==" then Eq else if text == "!=" then Ne
    else if text == "<" then Lt else if text == "<=" then Le else if text == ">" then Gt else Ge
  }

  lemma OperatorIsItsText(op: Operator)
    requires Printed(op)
    ensures OperatorOf(TextOp(op)) == op
    ensures 1 <= |TextOp(op)| <= 2 && forall c <- TextOp(op) :: OperatorChar(c)
  {
    match op
    case Add => case Sub => case Mul => case Div => case And => case Or => case Xor =>
    case Eq => case Ne => case Lt => case Le => case Gt => case Ge =>
    case _ =>
  }

  /** An operator ends where the next operand starts. */
  lemma OperatorIsRead(op: Operator, op': Operator, x: string, y: string)
    requires Printed(op) && Printed(op') && TextOp(op) + x == TextOp(op') + y
    requires x != "" && !OperatorChar(x[0]) && y != "" && !OperatorChar(y[0])
    ensures op == op' && x == y
  {
    hide TextOp, OperatorChar, OperatorOf;
    OperatorIsItsText(op);
    OperatorIsItsText(op');
    var t, t' := TextOp(op), TextOp(op');
    NotLonger(t, t', x, y);
    NotLonger(t', t, y, x);
    assert (t + x)[..|t|] == t && (t' + y)[..|t|] == t';
    SameRest(t, x, y);
  }

  lemma NotLonger(t: string, t': string, x: string, y: string)
    requires (forall c <- t' :: OperatorChar(c)) && x != "" && !OperatorChar(x[0]) && t + x == t' + y
    ensures |t'| <= |t|
  {
    assert (t + x)[|t|] == x[0];
  }

  // ---- Operands

  /** What may follow an operand without becoming a part of it. */
  predicate Stops(x: string) {
    x == "" || !OperatorChar(x[0])
  }

  predicate Atom(e: Expr) {
    HasValue(e) || IsMem(e)
  }

  lemma WrapStart(e: Expr)
    requires IsOperand(e) && Accepted(e)
    ensures WrapFormat(e) != "" && WrapFormat(e)[0] in {'r', 'c', 'v', '[', '('} && !OperatorChar(WrapFormat(e)[0])
    ensures WrapFormat(e)[0] == '(' <==> !Atom(e)
  {
  }

  lemma FormatStart(e: Expr)
    requires IsOperand(e) && Accepted(e)
    ensures Format(e) != "" && Format(e)[0] in {'r', 'c', 'v', '[', '(', '~'}
    ensures Format(e)[0] == '~' <==> e.Unary? && e.operation.Not?
  {
    if e.Binary? {
      WrapStart(e.left);
      OperandsAreAccepted(e.left);
    }
  }

  lemma JoinedRight(a: string, b: string, c: string, x: string)
    ensures a + b + c + x == a + (b + (c + x))
  {
  }

  lemma ValuesAreRead(k: Kind, k': Kind, x: string, y: string)
    requires Word(k) + x == Word(k') + y
    ensures k == k' && x == y
  {
    SameHead(Word(k), Word(k'), x, y);
    SameRest(Word(k), x, y);
  }

  /** Values and memory references are read whatever follows. */
  lemma {:induction false} AtomIsRead(a: Expr, b: Expr, x: string, y: string)
    requires IsOperand(a) && IsOperand(b) && Accepted(a) && Accepted(b) && Atom(a) && Atom(b)
    requires Format(a) + x == Format(b) + y
    ensures SameShape(a, b) && x == y
    decreases Size(a) + Size(b), 0
  {
    hide Word;
    if a.Value? && b.Value? {
      ValuesAreRead(a.kind, b.kind, x, y);
    } else if a.Unary? && b.Unary? {
      var s, t := Format(a.u) + ("]" + x), Format(b.u) + ("]" + y);
      MemText(a.u, x);
      MemText(b.u, y);
      SameRest("[", s, t);
      FormatIsRead(a.u, b.u, "]" + x, "]" + y);
      SameRest("]", x, y);
    } else {
      AtomStarts(a);
      AtomStarts(b);
      SameHead(Format(a), Format(b), x, y);
      assert false;
    }
  }

  lemma AtomStarts(e: Expr)
    requires Accepted(e) && Atom(e)
    ensures Format(e) != "" && (Format(e)[0] == '[' <==> e.Unary?)
  {
  }

  lemma MemText(u: Expr, x: string)
    requires Accepted(u)
    ensures Format(Unary(Mem, u)) + x == "[" + (Format(u) + ("]" + x))
  {
    FormatOfUnary(Mem, u);
    JoinedRight("[", Format(u), "]", x);
  }

  lemma NotText(u: Expr, x: string)
    requires Accepted(u)
    ensures Format(Unary(Not, u)) + x == "~" + (WrapFormat(u) + x)
  {
    FormatOfUnary(Not, u);
    assert "~" + WrapFormat(u) + "" == "~" + WrapFormat(u);
    Joined("~", WrapFormat(u), x);
  }

  lemma BinaryText(op: Operator, l: Expr, r: Expr, x: string)
    requires Accepted(Binary(op, l, r))
    ensures Format(Binary(op, l, r)) + x == WrapFormat(l) + (TextOp(op) + (WrapFormat(r) + x))
  {
    JoinedRight(WrapFormat(l), TextOp(op), WrapFormat(r), x);
  }

  /** An operand is read up to something that is no operator. */
  lemma {:induction false} FormatIsRead(a: Expr, b: Expr, x: string, y: string)
    requires IsOperand(a) && IsOperand(b) && Accepted(a) && Accepted(b) && Stops(x) && Stops(y)
    requires Format(a) + x == Format(b) + y
    ensures SameShape(a, b) && x == y
    decreases Size(a) + Size(b), 1
  {
    hide Format, WrapFormat, TextOp, OperatorChar;
    FormatStart(a);
    FormatStart(b);
    SameHead(Format(a), Format(b), x, y);
    if Atom(a) && Atom(b) {
      AtomIsRead(a, b, x, y);
    } else if a.Unary? && a.operation.Not? {
      NotText(a.u, x);
      NotText(b.u, y);
      SameRest("~", WrapFormat(a.u) + x, WrapFormat(b.u) + y);
      WrapIsRead(a.u, b.u, x, y);
    } else if a.Binary? && b.Binary? {
      BinaryText(a.op, a.left, a.right, x);
      BinaryText(b.op, b.left, b.right, y);
      var s, t := WrapFormat(a.right) + x, WrapFormat(b.right) + y;
      WrapIsRead(a.left, b.left, TextOp(a.op) + s, TextOp(b.op) + t);
      WrapStart(a.right);
      WrapStart(b.right);
      OperatorIsRead(a.op, b.op, s, t);
      WrapIsRead(a.right, b.right, x, y);
    } else if a.Binary? {
      AtomBeforeOperator(b, a, y, x);
      assert false;
    } else {
      AtomBeforeOperator(a, b, x, y);
      assert false;
    }
  }

  /** What is read as an atom and then something can only be a binary expression if an operator comes next. */
  lemma {:induction false} AtomBeforeOperator(a: Expr, b: Expr, x: string, y: string)
    requires IsOperand(a) && IsOperand(b) && Accepted(a) && Accepted(b) && Atom(a) && b.Binary?
    requires Format(a) + x == Format(b) + y
    ensures !Stops(x)
    decreases Size(a) + Size(b), 0
  {
    hide TextOp, OperatorChar;
    BinaryText(b.op, b.left, b.right, y);
    var t := TextOp(b.op) + (WrapFormat(b.right) + y);
    OperatorIsItsText(b.op);
    assert TextOp(b.op)[0] in TextOp(b.op);
    assert t[0] == TextOp(b.op)[0];
    WrapIsRead(a, b.left, x, t);
  }

  /** Wrapped operands form a prefix-free set: one is read whatever follows. */
  lemma {:induction false} WrapIsRead(a: Expr, b: Expr, x: string, y: string)
    requires IsOperand(a) && IsOperand(b) && Accepted(a) && Accepted(b)
    requires WrapFormat(a) + x == WrapFormat(b) + y
    ensures SameShape(a, b) && x == y
    decreases Size(a) + Size(b), 2
  {
    WrapStart(a);
    WrapStart(b);
    SameHead(WrapFormat(a), WrapFormat(b), x, y);
    if Atom(a) {
      AtomIsRead(a, b, x, y);
    } else {
      JoinedRight("(", Format(a), ")", x);
      JoinedRight("(", Format(b), ")", y);
      SameRest("(", Format(a) + (")" + x), Format(b) + (")" + y));
      FormatIsRead(a, b, ")" + x, ")" + y);
      SameRest(")", x, y);
    }
  }

  // ---- Statements

  /** How a statement starts: with one of the words, or with an operand. */
  datatype Start = AnOperand | StartUnknown | StartNop | StartInt | StartGoto | StartPush | StartRet | StartIf

  function StartOf(e: Expr): Start {
    match e
    case Unknown => StartUnknown
    case Nop => StartNop
    case Unary(Int, _) => StartInt
    case Unary(Goto, _) => StartGoto
    case Unary(Push, _) => StartPush
    case Unary(Ret, _) => StartRet
    case If(_, _, _) => StartIf
    case _ => AnOperand
  }

  function Key(start: Start): string {
    match start
    case AnOperand => ""
    case StartUnknown => "unknown "
    case StartNop => "nop "
    case StartInt => "int "
    case StartGoto => "goto "
    case StartPush => "push("
    case StartRet => "ret("
    case StartIf => "if("
  }

  /** The start that the first letters of a text tell. */
  function StartRead(text: string): Start
    requires |text| >= 3
  {
    if text[0] == 'u' then StartUnknown
    else if text[0] == 'n' then StartNop
    else if text[0] == 'g' then StartGoto
    else if text[0] == 'p' then StartPush
    else if text[0] == 'i' then if text[1] == 'n' then StartInt else StartIf
    else if text[0] == 'r' && text[2] == 't' then StartRet
    else AnOperand
  }

  /** The operand that a statement has first, and what comes behind it. */
  function FirstOperand(e: Expr): Expr
    requires IsStatement(e) && !e.Unknown? && !e.Nop?
  {
    if IsOperand(e) then e else if e.Unary? then e.u else if e.Copy? then e.dst else e.cond
  }

  function Behind(e: Expr): string
    requires IsStatement(e) && Accepted(e) && !e.Unknown? && !e.Nop?
  {
    if IsOperand(e) then ""
    else match e
      case Unary(operation, _) => After(operation)
      case Copy(_, s) => " = " + Format(s)
      case If(_, t, f) => ")" + (Format(t) + (" else " + Format(f)))
      case _ => ""
  }

  lemma StatementText(e: Expr, x: string)
    requires IsStatement(e) && Accepted(e) && !e.Unknown? && !e.Nop?
    ensures IsOperand(FirstOperand(e)) && Accepted(FirstOperand(e))
    ensures Format(e) + x == Key(StartOf(e)) + (Format(FirstOperand(e)) + (Behind(e) + x))
  {
    hide Format, After, Before;
    if IsOperand(e) {
      assert "" + x == x && Format(e) + x == "" + (Format(e) + x);
    } else {
      match e
      case Unary(operation, u) =>
        OperandsAreAccepted(u);
        BeforeIsKey(operation, u);
        FormatOfUnary(operation, u);
        JoinedRight(Before(operation), Format(u), After(operation), x);
      case Copy(d, s) =>
        CopyText(d, s, x);
      case If(c, t, f) =>
        IfText(c, t, f, x);
      case _ =>
    }
  }

  lemma BeforeIsKey(operation: Operation, u: Expr)
    requires operation !in {Not, Mem}
    ensures Before(operation) == Key(StartOf(Unary(operation, u)))
  {
  }

  lemma CopyText(d: Expr, s: Expr, x: string)
    requires Accepted(d) && Accepted(s)
    ensures Format(Copy(d, s)) + x == "" + (Format(d) + (" = " + Format(s) + x))
  {
    hide Format;
    FormatOfCopy(d, s);
    JoinedRight(Format(d), " = ", Format(s), x);
    Joined(" = ", Format(s), x);
  }

  lemma IfText(c: Expr, t: Expr, f: Expr, x: string)
    requires Accepted(c) && Accepted(t) && Accepted(f)
    ensures Format(If(c, t, f)) + x == "if(" + (Format(c) + (")" + (Format(t) + (" else " + Format(f))) + x))
    ensures ")" + (Format(t) + (" else " + Format(f))) + x == ")" + (Format(t) + (" else " + (Format(f) + x)))
  {
    hide Format;
    FormatOfIf(c, t, f);
    var p, q, r := Format(c), Format(t), Format(f);
    JoinedRight("if(" + p + ")" + q, " else ", r, x);
    JoinedRight("if(" + p, ")", q, " else " + (r + x));
    Joined("if(", p, ")" + (q + (" else " + (r + x))));
    Joined(")", q + (" else " + r), x);
    Joined(q, " else " + r, x);
    Joined(" else ", r, x);
  }

  /** What may follow a statement: the end, or the other branch. */
  predicate Ends(x: string) {
    x == "" || (|x| >= 2 && x[0] == ' ' && x[1] == 'e')
  }

  lemma {:induction false} OperandStart(e: Expr)
    requires IsOperand(e) && Accepted(e)
    ensures |Format(e)| >= 3 && Format(e)[0] in {'r', 'c', 'v', '[', '(', '~'} && (Format(e)[0] == 'r' ==> Format(e)[2] == 'g')
    decreases Size(e)
  {
    match e
    case Value(_, _) =>
    case Binary(op, l, r) =>
      OperandStart(l);
    case Unary(operation, u) =>
      OperandStart(u);
    case _ =>
  }

  lemma StartIsRead(e: Expr, x: string)
    requires IsStatement(e) && Accepted(e)
    ensures |Format(e) + x| >= 3 && StartRead(Format(e) + x) == StartOf(e)
  {
    hide Format;
    if e.Unknown? || e.Nop? {
      LoneWord(e);
    } else {
      StatementText(e, x);
      var f := FirstOperand(e);
      OperandStart(f);
      var rest := Format(f) + (Behind(e) + x);
      assert rest[0] == Format(f)[0] && rest[2] == Format(f)[2];
      KeyIsRead(StartOf(e), rest);
    }
  }

  lemma LoneWord(e: Expr)
    requires e.Unknown? || e.Nop?
    ensures Format(e) == Key(StartOf(e))
  {
  }

  lemma KeyIsRead(start: Start, rest: string)
    requires |rest| >= 3 && (start.AnOperand? ==> StartRead(rest).AnOperand?)
    ensures StartRead(Key(start) + rest) == start
  {
    if start.AnOperand? {
      assert "" + rest == rest;
    } else {
      var text := Key(start) + rest;
      assert text[0] == Key(start)[0] && text[1] == Key(start)[1] && text[2] == Key(start)[2];
    }
  }

  /** How a statement that starts with an operand goes on. */
  datatype Form = Alone | Called | Popped | Copied

  function FormOf(e: Expr): Form
    requires IsStatement(e) && StartOf(e).AnOperand?
  {
    if IsOperand(e) then Alone else if e.Copy? then Copied else if e.operation.Call? then Called else Popped
  }

  function FormRead(text: string): Form {
    if text == "" || (|text| >= 2 && text[1] == 'e') then Alone
    else if text[0] == '(' then Called
    else if |text| >= 4 && text[3] == 'p' then Popped
    else Copied
  }

  lemma FormIsRead(e: Expr, x: string)
    requires IsStatement(e) && Accepted(e) && StartOf(e).AnOperand? && Ends(x)
    ensures FormRead(Behind(e) + x) == FormOf(e)
  {
    hide Format;
    var text := Behind(e) + x;
    if IsOperand(e) {
      assert text == x;
    } else if e.Copy? {
      OperandStart(e.src);
      assert text[0] == ' ' && text[1] == '=' && text[3] == Format(e.src)[0];
    } else {
      assert text[..|Behind(e)|] == Behind(e);
      assert text[0] == Behind(e)[0] && text[1] == Behind(e)[1];
    }
  }

  lemma BehindStops(e: Expr, x: string)
    requires IsStatement(e) && Accepted(e) && !e.Unknown? && !e.Nop? && Ends(x)
    ensures Stops(Behind(e) + x)
  {
    hide Format;
    if Behind(e) == "" {
      assert Behind(e) + x == x;
    } else {
      assert (Behind(e) + x)[0] == Behind(e)[0];
    }
  }

  /** Statements are read up to their end. */
  lemma {:induction false} StatementIsRead(a: Expr, b: Expr, x: string, y: string)
    requires IsStatement(a) && IsStatement(b) && Accepted(a) && Accepted(b) && Ends(x) && Ends(y)
    requires Format(a) + x == Format(b) + y
    ensures SameShape(a, b) && x == y
    decreases Size(a)
  {
    hide Format, StartRead, Behind, Key;
    StartIsRead(a, x);
    StartIsRead(b, y);
    var start := StartOf(a);
    if start.StartUnknown? || start.StartNop? {
      LoneWord(a);
      LoneWord(b);
      SameRest(Key(start), x, y);
    } else {
      StatementText(a, x);
      StatementText(b, y);
      var f, g, s, t := FirstOperand(a), FirstOperand(b), Behind(a) + x, Behind(b) + y;
      SameRest(Key(start), Format(f) + s, Format(g) + t);
      BehindStops(a, x);
      BehindStops(b, y);
      FormatIsRead(f, g, s, t);
      if start.StartIf? {
        BranchesAreRead(a, b, x, y);
      } else {
        RestIsRead(a, b, x, y);
      }
    }
  }

  lemma RestIsRead(a: Expr, b: Expr, x: string, y: string)
    requires IsStatement(a) && IsStatement(b) && Accepted(a) && Accepted(b) && Ends(x) && Ends(y)
    requires StartOf(a) == StartOf(b) && StartOf(a) !in {StartUnknown, StartNop, StartIf}
    requires SameShape(FirstOperand(a), FirstOperand(b)) && Behind(a) + x == Behind(b) + y
    ensures SameShape(a, b) && x == y
  {
    hide Format, After;
    if StartOf(a).AnOperand? {
      FormIsRead(a, x);
      FormIsRead(b, y);
      if IsOperand(a) {
        assert "" + x == x && "" + y == y;
      } else if a.Copy? {
        Joined(" = ", Format(a.src), x);
        Joined(" = ", Format(b.src), y);
        SameRest(" = ", Format(a.src) + x, Format(b.src) + y);
        FormatIsRead(a.src, b.src, x, y);
      } else {
        SameRest(Behind(a), x, y);
      }
    } else {
      SameRest(Behind(a), x, y);
    }
  }

  lemma {:induction false} BranchesAreRead(a: Expr, b: Expr, x: string, y: string)
    requires IsStatement(a) && IsStatement(b) && Accepted(a) && Accepted(b) && Ends(x) && Ends(y)
    requires a.If? && b.If? && SameShape(a.cond, b.cond) && Behind(a) + x == Behind(b) + y
    ensures SameShape(a, b) && x == y
    decreases Size(a), 0
  {
    hide Format;
    IfText(a.cond, a.t, a.f, x);
    IfText(b.cond, b.t, b.f, y);
    var s, t := Format(a.f) + x, Format(b.f) + y;
    SameRest(")", Format(a.t) + (" else " + s), Format(b.t) + (" else " + t));
    StatementIsRead(a.t, b.t, " else " + s, " else " + t);
    SameRest(" else ", s, t);
    StatementIsRead(a.f, b.f, x, y);
  }

  /** Two statements with the same format string differ at most in their values. */
  lemma FormatIsUnambiguous(a: Expr, b: Expr)
    requires IsStatement(a) && IsStatement(b)
    ensures Accepted(a) && Accepted(b)
    ensures Format(a) == Format(b) <==> SameShape(a, b)
  {
    StatementsAreAccepted(a);
    StatementsAreAccepted(b);
    if Format(a) == Format(b) {
      assert Format(a) + "" == Format(b) + "";
      StatementIsRead(a, b, "", "");
    }
    if SameShape(a, b) {
      SameShapeSameFormat(a, b);
    }
  }

  /** The values are all that a format string leaves out. */
  lemma {:induction false} SameShapeSameFormat(a: Expr, b: Expr)
    requires SameShape(a, b) && Accepted(a) && Accepted(b)
    ensures Format(a) == Format(b) && WrapFormat(a) == WrapFormat(b)
    decreases Size(a)
  {
    hide TextOp, Before, After, Word;
    match a
    case Binary(_, l, r) =>
      SameShapeSameFormat(l, b.left);
      SameShapeSameFormat(r, b.right);
    case Unary(_, u) =>
      SameShapeSameFormat(u, b.u);
    case Copy(d, s) =>
      SameShapeSameFormat(d, b.dst);
      SameShapeSameFormat(s, b.src);
    case If(c, t, f) =>
      SameShapeSameFormat(c, b.cond);
      SameShapeSameFormat(t, b.t);
      SameShapeSameFormat(f, b.f);
    case _ =>
  }

  /** A copy in a copy is printed without parentheses, so its nesting is lost. */
  lemma NestedCopiesAreAmbiguous()
    ensures var r := Value(KReg, 0);
            var a, b := Copy(Copy(r, r), r), Copy(r, Copy(r, r));
            Accepted(a) && Accepted(b) && Format(a) == Format(b) && !SameShape(a, b)
  {
    var r := Value(KReg, 0);
    assert Format(Copy(r, r)) == "reg = reg";
    assert Format(Copy(Copy(r, r), r)) == "reg = reg" + " = " + "reg";
    assert Format(Copy(r, Copy(r, r))) == "reg" + " = " + "reg = reg";
  }
}
