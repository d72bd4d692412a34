/** What a format string tells about the expression that it was made from. */
module RdilFormat {
  import opened Rdil

  // ---- The placeholders in a format string

  predicate Letter(c: char) {
    'a' <= c <= 'z'
  }

  /** The number of letters that a text starts with. */
  function Run(text: string): (n: nat)
    ensures n <= |text| && (n < |text| ==> !Letter(text[n])) && forall i :: 0 <= i < n ==> Letter(text[i])
  {
    if text == [] || !Letter(text[0]) then 0 else 1 + Run(text[1..])
  }

  /** The words of a text: its longest runs of letters. */
  function Words(text: string): seq<string> {
    if text == [] then []
    else if !Letter(text[0]) then Words(text[1..])
    else [text[..Run(text)]] + Words(text[Run(text)..])
  }

  /** The kinds that the words of a text name, words that name none left out. */
  function KindsOf(words: seq<string>): seq<Kind> {
    if words == [] then []
    else
      (if words[0] == "reg" then [KReg] else if words[0] == "cnst" then [KCnst] else if words[0] == "var" then [KVar] else [])
      + KindsOf(words[1..])
  }

  /** The placeholders of a format string, from left to right. */
  function Placeholders(text: string): seq<Kind> {
    KindsOf(Words(text))
  }

  /** No word goes on from one text to the other. */
  predicate Apart(a: string, b: string) {
    a == "" || b == "" || !Letter(a[|a| - 1]) || !Letter(b[0])
  }

  lemma {:induction false} RunOfJoined(a: string, b: string)
    requires Apart(a, b)
    ensures Run(a + b) == if a == "" then Run(b) else Run(a)
  {
    if a == "" {
      assert a + b == b;
    } else {
      var n, m := Run(a), Run(a + b);
      assert forall i :: 0 <= i < |a| ==> (a + b)[i] == a[i];
      assert b != "" ==> (a + b)[|a|] == b[0];
    }
  }

  lemma {:induction false} WordsOfJoined(a: string, b: string)
    requires Apart(a, b)
    ensures Words(a + b) == Words(a) + Words(b)
    decreases |a|
  {
    if a == "" {
      assert a + b == b;
    } else if !Letter(a[0]) {
      assert (a + b)[1..] == a[1..] + b;
      WordsOfJoined(a[1..], b);
    } else {
      RunOfJoined(a, b);
      var n := Run(a);
      assert n > 0;
      assert (a + b)[n..] == a[n..] + b && (a + b)[..n] == a[..n];
      WordsOfJoined(a[n..], b);
      assert [a[..n]] + Words(a[n..]) + Words(b) == [a[..n]] + (Words(a[n..]) + Words(b));
    }
  }

  lemma {:induction false} KindsOfJoined(a: seq<string>, b: seq<string>)
    ensures KindsOf(a + b) == KindsOf(a) + KindsOf(b)
  {
    if a == [] {
      assert a + b == b;
    } else {
      assert (a + b)[1..] == a[1..] + b && (a + b)[0] == a[0];
      KindsOfJoined(a[1..], b);
      var first := if a[0] == "reg" then [KReg] else if a[0] == "cnst" then [KCnst] else if a[0] == "var" then [KVar] else [];
      assert first + KindsOf(a[1..]) + KindsOf(b) == first + (KindsOf(a[1..]) + KindsOf(b));
    }
  }

  lemma PlaceholdersJoin(a: string, b: string)
    requires Apart(a, b)
    ensures Placeholders(a + b) == Placeholders(a) + Placeholders(b)
  {
    WordsOfJoined(a, b);
    KindsOfJoined(Words(a), Words(b));
  }

  /** A text of letters only is one word. */
  lemma OneWord(text: string)
    requires text != "" && forall c <- text :: Letter(c)
    ensures Words(text) == [text]
  {
    var n := Run(text);
    assert n == |text|;
    assert text[n..] == "" && text[..n] == text;
  }

  lemma WordIsPlaceholder(kind: Kind)
    ensures Placeholders(Word(kind)) == [kind]
  {
    OneWord(Word(kind));
    assert [Word(kind)][1..] == [];
    assert KindsOf([Word(kind)][1..]) == [];
  }

  /** A text without letters has no placeholders. */
  lemma {:induction false} NoWords(text: string)
    requires forall c <- text :: !Letter(c)
    ensures Placeholders(text) == []
  {
    if text != "" {
      NoWords(text[1..]);
    }
  }

  /** Neither has one other word between texts without letters. */
  lemma OtherWord(a: string, word: string, b: string)
    requires word != "" && word !in {"reg", "cnst", "var"} && forall c <- word :: Letter(c)
    requires (forall c <- a :: !Letter(c)) && forall c <- b :: !Letter(c)
    ensures Placeholders(a + word + b) == []
  {
    OneWord(word);
    assert [word][1..] == [];
    assert KindsOf([word]) == KindsOf([word][1..]);
    NoWords(a);
    NoWords(b);
    PlaceholdersJoin(a + word, b);
    PlaceholdersJoin(a, word);
  }

  lemma OperatorHasNoLetters(op: Operator)
    ensures TextOp(op) != "" && forall c <- TextOp(op) :: !Letter(c)
  {
    match op
    case Add => case Sub => case Mul => case Div => case Mod => case And => case Or => case Xor =>
    case Lsl => case Lsr => case Asl => case Asr => case Rol => case Ror =>
    case Eq => case Ne => case Lt => case Le => case Gt => case Ge =>
  }

  lemma AroundHasNoPlaceholders(operation: Operation)
    ensures Placeholders(Before(operation)) == [] && Placeholders(After(operation)) == []
  {
    match operation
    case Not => NoWords("~"); NoWords("");
    case Mem => NoWords("["); NoWords("]");
    case Int => OtherWord("", "int", " "); assert "" + "int" + " " == "int "; NoWords("");
    case Goto => OtherWord("", "goto", " "); assert "" + "goto" + " " == "goto "; NoWords("");
    case Push => OtherWord("", "push", "("); assert "" + "push" + "(" == "push("; NoWords(")");
    case Ret => OtherWord("", "ret", "("); assert "" + "ret" + "(" == "ret("; NoWords(")");
    case Call => NoWords(""); NoWords("()");
    case Pop => NoWords(""); OtherWord(" = ", "pop", "()"); assert " = " + "pop" + "()" == " = pop()";
  }

  /** Two texts with something in between that neither holds a placeholder nor touches a word on its sides. */
  lemma PlaceholdersAround(a: string, b: string, c: string)
    requires Apart(a, b) && Apart(a + b, c)
    ensures Placeholders(b) == [] ==> Placeholders(a + b + c) == Placeholders(a) + Placeholders(c)
    ensures Placeholders(a) == [] && Placeholders(c) == [] ==> Placeholders(a + b + c) == Placeholders(b)
  {
    hide Placeholders;
    PlaceholdersJoin(a + b, c);
    PlaceholdersJoin(a, b);
    assert Placeholders(a) + [] == Placeholders(a);
  }

  /** The kinds that values are of. */
  predicate OfKinds(values: seq<Expr>, kinds: seq<Kind>) {
    |values| == |kinds| && forall i :: 0 <= i < |values| ==> values[i].Value? && values[i].kind == kinds[i]
  }

  lemma JoinOfKinds()
    ensures OfKinds([], [])
    ensures forall kind, n :: OfKinds([Value(kind, n)], [kind])
    ensures forall a, j, b, k :: OfKinds(a, j) && OfKinds(b, k) ==> OfKinds(a + b, j + k)
  {
  }

  /**
   The placeholders of a format string are, in order and number, of the kinds of the values that extract returns.
   */
  lemma {:induction false} PlaceholdersAreValues(e: Expr)
    requires Accepted(e)
    ensures OfKinds(ValuesOf(Walked(e)), Placeholders(Format(e)))
    decreases e, 0
  {
    hide Placeholders, Before, After, TextOp, ValuesOf, Walked, WrapFormat, Word;
    WalkedValues(e);
    hide OfKinds;
    JoinOfKinds();
    match e
    case Value(kind, _) =>
      WordIsPlaceholder(kind);
    case Unknown =>
      OtherWord("", "unknown", " ");
      assert "" + "unknown" + " " == "unknown ";
    case Nop =>
      OtherWord("", "nop", " ");
      assert "" + "nop" + " " == "nop ";
    case Binary(op, l, r) =>
      WrapHasPlaceholders(l);
      WrapHasPlaceholders(r);
      PlaceholdersOfBinary(op, WrapFormat(l), WrapFormat(r));
    case Unary(operation, u) =>
      WrapHasPlaceholders(u);
      PlaceholdersOfUnary(operation, if operation.Not? then WrapFormat(u) else Format(u));
    case Copy(d, s) =>
      PlaceholdersAreValues(d);
      PlaceholdersAreValues(s);
      NoWords(" = ");
      PlaceholdersAround(Format(d), " = ", Format(s));
    case If(c, t, f) =>
      PlaceholdersAreValues(c);
      PlaceholdersAreValues(t);
      PlaceholdersAreValues(f);
      PlaceholdersOfIf(Format(c), Format(t), Format(f));
  }

  lemma AroundTouchesNoWord(operation: Operation)
    ensures Before(operation) != "" ==> !Letter(Before(operation)[|Before(operation)| - 1])
    ensures After(operation) != "" ==> !Letter(After(operation)[0])
  {
  }

  lemma PlaceholdersOfUnary(operation: Operation, text: string)
    ensures Placeholders(Before(operation) + text + After(operation)) == Placeholders(text)
  {
    hide Placeholders;
    AroundHasNoPlaceholders(operation);
    AroundTouchesNoWord(operation);
    hide Before, After;
    PlaceholdersAround(Before(operation), text, After(operation));
  }

  lemma PlaceholdersOfBinary(op: Operator, a: string, b: string)
    ensures Placeholders(a + TextOp(op) + b) == Placeholders(a) + Placeholders(b)
  {
    hide Placeholders, TextOp;
    OperatorHasNoLetters(op);
    NoWords(TextOp(op));
    PlaceholdersAround(a, TextOp(op), b);
  }

  lemma PlaceholdersOfIf(c: string, t: string, f: string)
    ensures Placeholders("if(" + c + ")" + t + " else " + f) == Placeholders(c) + Placeholders(t) + Placeholders(f)
  {
    hide Placeholders;
    OtherWord("", "if", "(");
    assert "" + "if" + "(" == "if(";
    NoWords(")");
    OtherWord(" ", "else", " ");
    assert " " + "else" + " " == " else ";
    PlaceholdersAround("if(", c, ")");
    var head := "if(" + c + ")";
    PlaceholdersJoin(head, t);
    PlaceholdersAround(head + t, " else ", f);
  }

  lemma {:induction false} WrapHasPlaceholders(e: Expr)
    requires Accepted(e)
    ensures OfKinds(ValuesOf(Walked(e)), Placeholders(WrapFormat(e)))
    ensures OfKinds(ValuesOf(Walked(e)), Placeholders(Format(e)))
    decreases e, 1
  {
    PlaceholdersAreValues(e);
    if !(HasValue(e) || IsMem(e)) {
      NoWords("(");
      NoWords(")");
      PlaceholdersAround("(", Format(e), ")");
    }
  }
}
