/** Expressions of the intermediate language: their format strings, their walk and the values that they hold. */
module Rdil {

  datatype Operator =
    | Add | Sub | Mul | Div | Mod
    | And | Or | Xor
    | Lsl | Lsr | Asl | Asr | Rol | Ror
    | Eq | Ne | Lt | Le | Gt | Ge

  datatype Kind = KReg | KCnst | KVar

  datatype Operation = Not | Mem | Call | Int | Goto | Push | Pop | Ret

  datatype Expr =
    | Value(kind: Kind, value: nat)
    | Unknown
    | Nop
    | Binary(op: Operator, left: Expr, right: Expr)
    | Unary(operation: Operation, u: Expr)
    | Copy(dst: Expr, src: Expr)
    | If(cond: Expr, t: Expr, f: Expr)
    | Other  // a type number that is none of the above

  // ---- The format string

  /** The operators that format knows; the others, and unknown types, throw. */
  predicate Printed(op: Operator) {
    op !in {Mod, Lsl, Lsr, Asl, Asr, Rol, Ror}
  }

  predicate Accepted(e: Expr) {
    match e
    case Value(_, _) => true
    case Unknown => true
    case Nop => true
    case Binary(op, l, r) => Printed(op) && Accepted(l) && Accepted(r)
    case Copy(d, s) => Accepted(d) && Accepted(s)
    case If(c, t, f) => Accepted(c) && Accepted(t) && Accepted(f)
    case Unary(_, u) => Accepted(u)
    case Other => false
  }

  function TextOp(op: Operator): string {
    match op
    case Add => "+"
    case Sub => "-"
    case Mul => "*"
    case Div => "/"
    case Mod => "%"
    case And => "&"
    case Or => "|"
    case Xor => "^"
    case Lsl => "<<"
    case Lsr => ">>"
    case Asl => "<<<"
    case Asr => ">>>"
    case Rol => "???"
    case Ror => "???"
    case Eq => "=="
    case Ne => "!="
    case Lt => "<"
    case Le => "<="
    case Gt => ">"
    case Ge => ">="
  }

  function Word(kind: Kind): string {
    match kind
    case KReg => "reg"
    case KCnst => "cnst"
    case KVar => "var"
  }

  function Before(operation: Operation): string {
    match operation
    case Not => "~"
    case Mem => "["
    case Int => "int "
    case Goto => "goto "
    case Push => "push("
    case Ret => "ret("
    case Call => ""
    case Pop => ""
  }

  function After(operation: Operation): string {
    match operation
    case Mem => "]"
    case Push => ")"
    case Ret => ")"
    case Call => "()"
    case Pop => " = pop()"
    case _ => ""
  }

  function Format(e: Expr): string
    requires Accepted(e)
    decreases e, 0
  {
    match e
    case Value(kind, _) => Word(kind)
    case Unknown => "unknown "
    case Nop => "nop "
    case Binary(op, l, r) => WrapFormat(l) + TextOp(op) + WrapFormat(r)
    case Unary(operation, u) =>
      Before(operation) + (if operation.Not? then WrapFormat(u) else Format(u)) + After(operation)
    case Copy(d, s) => Format(d) + " = " + Format(s)
    case If(c, t, f) => "if(" + Format(c) + ")" + Format(t) + " else " + Format(f)
  }

  predicate HasValue(e: Expr) {
    e.Value?
  }

  predicate IsMem(e: Expr) {
    e.Unary? && e.operation.Mem?
  }

  function WrapFormat(e: Expr): string
    requires Accepted(e)
    decreases e, 1
  {
    if HasValue(e) || IsMem(e) then Format(e) else "(" + Format(e) + ")"
  }

  // ---- Walking

  /** The expressions that a walk visits, in order. */
  function Walked(e: Expr): seq<Expr> {
    match e
    case Value(_, _) => [e]
    case Unknown => [e]
    case Nop => [e]
    case Binary(op, l, r) =>
      if op.Rol? || op.Ror? then [e] + Walked(l) + Walked(r) else Walked(l) + [e] + Walked(r)
    case Copy(d, s) => Walked(d) + [e] + Walked(s)
    case If(c, t, f) => [e] + Walked(c) + Walked(t) + Walked(f)
    case Unary(operation, u) =>
      if operation in {Int, Call, Pop} then Walked(u) + [e] else [e] + Walked(u)
    case Other => []
  }

  /** An unknown type somewhere makes the walk throw. */
  predicate Walkable(e: Expr) {
    match e
    case Value(_, _) => true
    case Unknown => true
    case Nop => true
    case Binary(_, l, r) => Walkable(l) && Walkable(r)
    case Copy(d, s) => Walkable(d) && Walkable(s)
    case If(c, t, f) => Walkable(c) && Walkable(t) && Walkable(f)
    case Unary(_, u) => Walkable(u)
    case Other => false
  }

  /** The values among some expressions, with their kinds. */
  function ValuesOf(es: seq<Expr>): seq<Expr> {
    if es == [] then [] else (if HasValue(es[0]) then [es[0]] else []) + ValuesOf(es[1..])
  }

  lemma {:induction false} ValuesOfJoined(a: seq<Expr>, b: seq<Expr>)
    ensures ValuesOf(a + b) == ValuesOf(a) + ValuesOf(b)
  {
    if a == [] {
      assert a + b == b;
    } else {
      assert (a + b)[1..] == a[1..] + b;
      ValuesOfJoined(a[1..], b);
      var first := if HasValue(a[0]) then [a[0]] else [];
      assert first + ValuesOf(a[1..]) + ValuesOf(b) == first + (ValuesOf(a[1..]) + ValuesOf(b));
    }
  }

  // ---- The code, which appends to a string or a vector

  method FormatTo(e: Expr, res: string) returns (res': string, thrown: bool)
    ensures thrown <==> !Accepted(e)
    ensures !thrown ==> res' == res + Format(e)
    decreases e, 1
  {
    thrown := false;
    match e
    case Value(kind, _) =>
      res' := res + match kind case KReg => "reg" case KCnst => "cnst" case KVar => "var";
    case Unknown =>
      res' := res + "unknown ";
    case Nop =>
      res' := res + "nop ";
    case Binary(op, l, r) =>
      if op in {Mod, Lsl, Lsr, Asl, Asr, Rol, Ror} { return res, true; }
      res', thrown := FormatBinaryTo(op, l, r, res);
    case Copy(d, s) =>
      res', thrown := FormatCopyTo(d, s, res);
    case Unary(operation, u) =>
      res', thrown := FormatUnaryTo(operation, u, res);
    case If(c, t, f) =>
      res', thrown := FormatIfTo(c, t, f, res);
    case Other =>
      res', thrown := res, true;
  }

  method FormatBinaryTo(op: Operator, l: Expr, r: Expr, res: string) returns (res': string, thrown: bool)
    requires Printed(op)
    ensures thrown <==> !(Accepted(l) && Accepted(r))
    ensures !thrown ==> res' == res + Format(Binary(op, l, r))
    decreases Binary(op, l, r), 0
  {
    hide TextOp, Format, WrapFormat;
    res', thrown := WrapFormatTo(l, res);
    if thrown { return; }
    Joined(res, WrapFormat(l), TextOp(op));
    res', thrown := WrapFormatTo(r, res' + TextOp(op));
    if thrown { return; }
    Joined(res, WrapFormat(l) + TextOp(op), WrapFormat(r));
    FormatOfBinary(op, l, r);
  }

  lemma FormatOfBinary(op: Operator, l: Expr, r: Expr)
    requires Printed(op) && Accepted(l) && Accepted(r)
    ensures Format(Binary(op, l, r)) == WrapFormat(l) + TextOp(op) + WrapFormat(r)
  {
    hide TextOp, WrapFormat;
  }

  method FormatIfTo(c: Expr, t: Expr, f: Expr, res: string) returns (res': string, thrown: bool)
    ensures thrown <==> !(Accepted(c) && Accepted(t) && Accepted(f))
    ensures !thrown ==> res' == res + Format(If(c, t, f))
    decreases If(c, t, f), 0
  {
    hide Format;
    res', thrown := FormatTo(c, res + "if(");
    if thrown { return; }
    ghost var head := "if(" + Format(c) + ")";
    Joined(res, "if(", Format(c));
    Joined(res, "if(" + Format(c), ")");
    res', thrown := FormatTo(t, res' + ")");
    if thrown { return; }
    Joined(res, head, Format(t));
    Joined(res, head + Format(t), " else ");
    res', thrown := FormatTo(f, res' + " else ");
    if thrown { return; }
    Joined(res, head + Format(t) + " else ", Format(f));
    FormatOfIf(c, t, f);
  }

  lemma FormatOfIf(c: Expr, t: Expr, f: Expr)
    requires Accepted(c) && Accepted(t) && Accepted(f)
    ensures Format(If(c, t, f)) == "if(" + Format(c) + ")" + Format(t) + " else " + Format(f)
  {
  }

  lemma Joined(a: string, b: string, c: string)
    ensures a + b + c == a + (b + c)
  {
  }

  method FormatCopyTo(d: Expr, s: Expr, res: string) returns (res': string, thrown: bool)
    ensures thrown <==> !(Accepted(d) && Accepted(s))
    ensures !thrown ==> res' == res + Format(Copy(d, s))
    decreases Copy(d, s), 0
  {
    hide Format;
    res', thrown := FormatTo(d, res);
    if thrown { return; }
    Joined(res, Format(d), " = ");
    res', thrown := FormatTo(s, res' + " = ");
    if thrown { return; }
    Joined(res, Format(d) + " = ", Format(s));
    FormatOfCopy(d, s);
  }

  lemma FormatOfCopy(d: Expr, s: Expr)
    requires Accepted(d) && Accepted(s)
    ensures Format(Copy(d, s)) == Format(d) + " = " + Format(s)
  {
  }

  method FormatUnaryTo(operation: Operation, u: Expr, res: string) returns (res': string, thrown: bool)
    ensures thrown <==> !Accepted(u)
    ensures !thrown ==> res' == res + Format(Unary(operation, u))
    decreases Unary(operation, u), 0
  {
    hide Before, After, Format, WrapFormat;
    if operation.Not? {
      res', thrown := WrapFormatTo(u, res + Before(operation));
    } else {
      res', thrown := FormatTo(u, res + Before(operation));
    }
    if thrown { return; }
    ghost var text := if operation.Not? then WrapFormat(u) else Format(u);
    Joined(res, Before(operation), text);
    Joined(res, Before(operation) + text, After(operation));
    FormatOfUnary(operation, u);
    res' := res' + After(operation);
  }

  lemma FormatOfUnary(operation: Operation, u: Expr)
    requires Accepted(u)
    ensures Format(Unary(operation, u)) ==
            Before(operation) + (if operation.Not? then WrapFormat(u) else Format(u)) + After(operation)
  {
  }

  method WrapFormatTo(e: Expr, res: string) returns (res': string, thrown: bool)
    ensures thrown <==> !Accepted(e)
    ensures !thrown ==> res' == res + WrapFormat(e)
    decreases e, 2
  {
    if HasValue(e) || IsMem(e) {
      res', thrown := FormatTo(e, res);
    } else {
      res', thrown := FormatTo(e, res + "(");
      res' := res' + ")";
    }
  }

  /** Appends the values of an expression, in the order of the walk. */
  method ExtractTo(e: Expr, values: seq<Expr>) returns (values': seq<Expr>, thrown: bool)
    ensures thrown <==> !Walkable(e)
    ensures !thrown ==> values' == values + ValuesOf(Walked(e))
  {
    hide ValuesOf, Walked;
    thrown := false;
    WalkedValues(e);
    match e
    case Value(_, _) =>
      values' := values + [e];
    case Unknown =>
      values' := values;
    case Nop =>
      values' := values;
    case Binary(_, l, r) =>
      values', thrown := ExtractTo(l, values);
      if thrown { return; }
      values', thrown := ExtractTo(r, values');
    case Copy(d, s) =>
      values', thrown := ExtractTo(d, values);
      if thrown { return; }
      values', thrown := ExtractTo(s, values');
    case If(c, t, f) =>
      values', thrown := ExtractTo(c, values);
      if thrown { return; }
      values', thrown := ExtractTo(t, values');
      if thrown { return; }
      values', thrown := ExtractTo(f, values');
    case Unary(_, u) =>
      values', thrown := ExtractTo(u, values);
    case Other =>
      values', thrown := values, true;
  }

  /** The values of the direct parts of an expression, from left to right. */
  function ValuesOfParts(e: Expr): seq<Expr> {
    match e
    case Value(_, _) => [e]
    case Binary(_, l, r) => ValuesOf(Walked(l)) + ValuesOf(Walked(r))
    case Copy(d, s) => ValuesOf(Walked(d)) + ValuesOf(Walked(s))
    case If(c, t, f) => ValuesOf(Walked(c)) + ValuesOf(Walked(t)) + ValuesOf(Walked(f))
    case Unary(_, u) => ValuesOf(Walked(u))
    case _ => []
  }

  /** Only leaves hold values, so it does not matter when a walk visits what is not a leaf. */
  lemma WalkedValues(e: Expr)
    ensures ValuesOf(Walked(e)) == ValuesOfParts(e)
  {
    hide ValuesOf;
    OneValue(e);
    NoValues();
    match e
    case Binary(op, l, r) =>
      ValuesBetween(e, Walked(l), Walked(r));
    case Copy(d, s) =>
      ValuesBetween(e, Walked(d), Walked(s));
    case If(c, t, f) =>
      ValuesBetween(e, Walked(c), Walked(t));
      ValuesOfJoined([e] + Walked(c) + Walked(t), Walked(f));
    case Unary(_, u) =>
      ValuesBetween(e, Walked(u), []);
      assert Walked(u) + [e] + [] == Walked(u) + [e] && [e] + Walked(u) + [] == [e] + Walked(u);
      assert ValuesOf(Walked(u)) + [] == ValuesOf(Walked(u));
    case _ =>
  }

  lemma ValuesBetween(e: Expr, a: seq<Expr>, b: seq<Expr>)
    requires !HasValue(e)
    ensures ValuesOf(a + [e] + b) == ValuesOf(a) + ValuesOf(b)
    ensures ValuesOf([e] + a + b) == ValuesOf(a) + ValuesOf(b)
  {
    hide ValuesOf;
    OneValue(e);
    ValuesOfJoined(a + [e], b);
    ValuesOfJoined(a, [e]);
    assert ValuesOf(a) + [] == ValuesOf(a);
    ValuesOfJoined([e] + a, b);
    ValuesOfJoined([e], a);
    assert [] + ValuesOf(a) == ValuesOf(a);
  }

  lemma NoValues()
    ensures ValuesOf([]) == []
  {
  }

  lemma OneValue(e: Expr)
    ensures ValuesOf([e]) == if HasValue(e) then [e] else []
  {
    assert ValuesOf([e][1..]) == [];
  }

  // ---- Statements and their format strings

  lemma SampleFormats(r: Expr, n: Expr, v: Expr)
    requires r.Value? && r.kind.KReg? && n.Value? && n.kind.KCnst? && v.Value? && v.kind.KVar?
    ensures Accepted(r) && Format(r) == "reg" && Accepted(n) && Format(n) == "cnst" && Accepted(v) && Format(v) == "var"
    ensures Format(Unary(Mem, r)) == "[reg]" && Format(Unary(Int, n)) == "int cnst" && Format(Unary(Call, n)) == "cnst()"
    ensures Format(Unary(Goto, n)) == "goto cnst" && Format(Unary(Ret, r)) == "ret(reg)"
    ensures Format(Unary(Push, r)) == "push(reg)" && Format(Unary(Pop, r)) == "reg = pop()"
    ensures Format(Unknown) == "unknown " && Format(Nop) == "nop "
  {
  }

  /** Operands of operators stand in parentheses unless they are values or memory references. */
  lemma OperandFormats(r: Expr, n: Expr, op: Operator)
    requires r.Value? && n.Value? && Printed(op)
    ensures WrapFormat(r) == Format(r) && WrapFormat(Unary(Mem, r)) == "[" + Format(r) + "]"
    ensures Accepted(Binary(op, r, n)) && WrapFormat(Binary(op, r, n)) == "(" + Format(Binary(op, r, n)) + ")"
    ensures WrapFormat(Unary(Not, r)) == "(~" + Format(r) + ")"
  {
    ValueFormat(r);
    NotFormat(r);
    JoinedParts(Format(r));
  }

  lemma NotFormat(e: Expr)
    requires Accepted(e)
    ensures Format(Unary(Not, e)) == "~" + WrapFormat(e)
  {
    FormatOfUnary(Not, e);
    assert Before(Not) == "~" && After(Not) == "";
    hide Format, WrapFormat, Before, After;
    assert "~" + WrapFormat(e) + "" == "~" + WrapFormat(e);
  }

  lemma JoinedParts(text: string)
    ensures "(" + ("~" + text) + ")" == "(~" + text + ")"
  {
    assert "(" + "~" == "(~";
  }

  /** The operators that are printed, between two values. */
  lemma OperatorTexts(l: Expr, r: Expr, op: Operator)
    requires l.Value? && r.Value? && Printed(op)
    ensures Accepted(l) && Accepted(r) && Accepted(Binary(op, l, r))
    ensures Format(Binary(op, l, r)) == Word(l.kind) + (
              match op
              case Add => "+" case Sub => "-" case Mul => "*" case Div => "/" case And => "&" case Or => "|" case Xor => "^"
              case Eq => "==" case Ne => "!=" case Lt => "<" case Le => "<=" case Gt => ">" case Ge => ">="
              case _ => "") + Word(r.kind)
  {
    hide Word, Format, WrapFormat;
    ValueFormat(l);
    ValueFormat(r);
    FormatOfBinary(op, l, r);
  }

  lemma ValueFormat(e: Expr)
    requires e.Value?
    ensures Accepted(e) && Format(e) == Word(e.kind) && WrapFormat(e) == Word(e.kind)
  {
  }
}
