/**
 The Itanium demangler's output buffer: 255 characters that are flushed into a growable string when they are full,
 and the printing of argument lists, which takes a separator back when nothing followed it.
 */
module PrintBuffer {
  import opened GrowableString
  import opened Rendering

  const BUFFER_LENGTH := 256

  // Components that are nested deeper are not printed
  const MAX_RECURSION_COUNT := 1024

  // ---- Where the buffer gets in the way

  /** The number of separators that are open at once. */
  function Depth(c: Component): nat {
    match c
    case Text(_) => 0
    case Both(a, b) => Max(Depth(a), Depth(b))
    case Template(n, a) => Max(Depth(n), Depth(a))
    case ArgList(l, r) =>
      Max(if l.Null? then 0 else Depth(l.component), if r.Null? then 0 else 1 + Depth(r.component))
    case Missing => 0
  }

  function Max(a: nat, b: nat): nat {
    if a < b then b else a
  }

  /** The position in the buffer after n more characters. */
  function Moved(len: nat, n: nat): (p: nat)
    requires len < BUFFER_LENGTH
    ensures p < BUFFER_LENGTH
  {
    if n == 0 then len else if Moved(len, n - 1) == BUFFER_LENGTH - 1 then 1 else Moved(len, n - 1) + 1
  }

  /** The position at which a separator starts. */
  function Separator(len: nat): nat {
    if len >= BUFFER_LENGTH - 2 then 0 else len
  }

  /** The position after a component that prints what it should. */
  function Landing(c: Component, last: char, len: nat): (p: nat)
    requires len < BUFFER_LENGTH
    ensures p < BUFFER_LENGTH
  {
    match c
    case Text(s) => Moved(len, |s|)
    case Both(a, b) => Landing(b, Render(a, last).last, Landing(a, last, len))
    case Template(n, a) =>
      Moved(Landing(a, '<', Opened(Landing(n, last, len), Render(n, last).last)), |Closing(Render(a, '<').last)|)
    case ArgList(l, r) =>
      var p := if l.Null? then len else Landing(l.component, last, len);
      if r.Null? then p
      else if Empty(r.component) then Separator(p)
      else Landing(r.component, ' ', Separator(p) + 2)
    case Missing => len
  }

  /** The position of the arguments of a template, behind its name. */
  function Opened(landed: nat, last: char): (p: nat)
    requires landed < BUFFER_LENGTH
    ensures p < BUFFER_LENGTH
  {
    Moved(landed, |Opening(last)|)
  }

  /** An empty component at this position opens no separator that makes the buffer flush. */
  predicate Calm(c: Component, len: nat) {
    Depth(c) == 0 || len + 2 * Depth(c) < BUFFER_LENGTH
  }

  /** From this position every separator with nothing behind it is taken back. */
  predicate Fine(c: Component, last: char, len: nat)
    requires len < BUFFER_LENGTH
  {
    match c
    case Text(_) => true
    case Both(a, b) => Fine(a, last, len) && Fine(b, Render(a, last).last, Landing(a, last, len))
    case Template(n, a) => Fine(n, last, len) && Fine(a, '<', Opened(Landing(n, last, len), Render(n, last).last))
    case ArgList(l, r) =>
      var p := if l.Null? then len else Landing(l.component, last, len);
      && (l.Some? ==> Fine(l.component, last, len))
      && (r.Some? ==>
            if Empty(r.component) then Calm(r.component, Separator(p) + 2)
            else Fine(r.component, ' ', Separator(p) + 2))
    case Missing => true
  }

  /** A calm empty component leaves everything as it was. */
  lemma {:induction false} CalmIsFine(c: Component, last: char, len: nat)
    requires len < BUFFER_LENGTH && Empty(c) && Calm(c, len)
    ensures Fine(c, last, len) && Landing(c, last, len) == len
  {
    match c
    case Text(_) =>
    case Both(a, b) =>
      CalmIsFine(a, last, len);
      CalmIsFine(b, Render(a, last).last, len);
    case Template(_, _) =>
    case Missing =>
    case ArgList(l, r) =>
      if l.Some? { CalmIsFine(l.component, last, len); }
  }

  /** No separator is left in short names. */
  lemma {:induction false} ShortIsFine(c: Component, last: char, len: nat)
    requires len + |Render(c, last).text| + 2 * Depth(c) < BUFFER_LENGTH
    ensures Fine(c, last, len) && Landing(c, last, len) == len + |Render(c, last).text|
    decreases c, 2
  {
    match c
    case Text(s) =>
      MovedShort(len, |s|);
    case Both(a, b) =>
      ShortBoth(a, b, last, len);
    case Template(n, a) =>
      ShortTemplate(n, a, last, len);
    case ArgList(l, r) =>
      ShortList(l, r, last, len);
    case Missing =>
  }

  lemma {:induction false} ShortBoth(a: Component, b: Component, last: char, len: nat)
    requires len + |Render(Both(a, b), last).text| + 2 * Depth(Both(a, b)) < BUFFER_LENGTH
    ensures Fine(Both(a, b), last, len)
    ensures Landing(Both(a, b), last, len) == len + |Render(Both(a, b), last).text|
    decreases Both(a, b), 0
  {
    var p := Render(a, last);
    assert |Render(Both(a, b), last).text| == |p.text| + |Render(b, p.last).text|;
    ShortIsFine(a, last, len);
    ShortIsFine(b, p.last, len + |p.text|);
  }

  lemma {:induction false} ShortList(l: Operand, r: Operand, last: char, len: nat)
    requires len + |Render(ArgList(l, r), last).text| + 2 * Depth(ArgList(l, r)) < BUFFER_LENGTH
    ensures Fine(ArgList(l, r), last, len)
    ensures Landing(ArgList(l, r), last, len) == len + |Render(ArgList(l, r), last).text|
    decreases ArgList(l, r), 1
  {
    if l.Some? { ShortIsFine(l.component, last, len); }
    if r.Some? { ShortRight(l, r.component, last, len); }
  }

  lemma {:induction false} ShortTemplate(n: Component, a: Component, last: char, len: nat)
    requires len + |Render(Template(n, a), last).text| + 2 * Depth(Template(n, a)) < BUFFER_LENGTH
    ensures Fine(Template(n, a), last, len)
    ensures Landing(Template(n, a), last, len) == len + |Render(Template(n, a), last).text|
    decreases Template(n, a), 0
  {
    hide Opening, Closing, Moved;
    var p, q := Render(n, last), Render(a, '<');
    assert |Render(Template(n, a), last).text| == |p.text| + |Opening(p.last)| + |q.text| + |Closing(q.last)|;
    ShortIsFine(n, last, len);
    MovedShort(len + |p.text|, |Opening(p.last)|);
    ShortIsFine(a, '<', len + |p.text| + |Opening(p.last)|);
    MovedShort(len + |p.text| + |Opening(p.last)| + |q.text|, |Closing(q.last)|);
  }

  lemma {:induction false} ShortRight(l: Operand, c: Component, last: char, len: nat)
    requires len + |Render(ArgList(l, Some(c)), last).text| + 2 * Depth(ArgList(l, Some(c))) < BUFFER_LENGTH
    ensures !Empty(c) ==> var p := len + |RenderOperand(l, last).text| + 2;
              p < BUFFER_LENGTH && Separator(p - 2) == p - 2 && Fine(c, ' ', p) && Landing(c, ' ', p) == p + |Render(c, ' ').text|
    ensures |Render(ArgList(l, Some(c)), last).text| ==
              |RenderOperand(l, last).text| + if Empty(c) then 0 else 2 + |Render(c, ' ').text|
    decreases ArgList(l, Some(c)), 0
  {
    EmptyPrintsNothing(c, ' ');
    if !Empty(c) {
      ShortIsFine(c, ' ', len + |RenderOperand(l, last).text| + 2);
    }
  }

  lemma {:induction false} MovedShort(len: nat, n: nat)
    requires len + n < BUFFER_LENGTH
    ensures Moved(len, n) == len + n
  {
    if n > 0 { MovedShort(len, n - 1); }
  }

  /** No part behind a separator is empty in a roundabout way. */
  predicate Plain(c: Component) {
    match c
    case Text(_) => true
    case Both(a, b) => Plain(a) && Plain(b)
    case Template(n, a) => Plain(n) && Plain(a)
    case ArgList(l, r) =>
      && (l.Some? ==> Plain(l.component))
      && (r.Some? ==> Plain(r.component) && (Empty(r.component) ==> Depth(r.component) == 0))
    case Missing => true
  }

  lemma {:induction false} PlainIsFine(c: Component, last: char, len: nat)
    requires len < BUFFER_LENGTH && Plain(c)
    ensures Fine(c, last, len)
  {
    match c
    case Text(_) =>
    case Both(a, b) =>
      PlainIsFine(a, last, len);
      PlainIsFine(b, Render(a, last).last, Landing(a, last, len));
    case Template(n, a) =>
      PlainIsFine(n, last, len);
      PlainIsFine(a, '<', Opened(Landing(n, last, len), Render(n, last).last));
    case ArgList(l, r) =>
      var p := if l.Null? then len else Landing(l.component, last, len);
      if l.Some? { PlainIsFine(l.component, last, len); }
      if r.Some? && !Empty(r.component) { PlainIsFine(r.component, ' ', Separator(p) + 2); }
    case Missing =>
  }

  /** From the last place where a separator can start, an empty right part with separators of its own flushes it. */
  lemma WorstPosition(c: Component, last: char)
    requires Empty(c) && Depth(c) > 0
    ensures !Fine(ArgList(Null, Some(c)), last, BUFFER_LENGTH - 3)
  {
  }

  /** A list with an empty right part comes out right wherever it starts exactly when that part opens no separator. */
  lemma EmptyRightPart(c: Component, last: char)
    requires Empty(c)
    ensures (forall len: nat | len < BUFFER_LENGTH :: Fine(ArgList(Null, Some(c)), last, len)) <==> Depth(c) == 0
  {
    hide Fine;
    if Depth(c) > 0 {
      WorstPosition(c, last);
    } else {
      forall len: nat | len < BUFFER_LENGTH ensures Fine(ArgList(Null, Some(c)), last, len) {
        SilentRightPart(c, last, len);
      }
    }
  }

  lemma SilentRightPart(c: Component, last: char, len: nat)
    requires Empty(c) && Depth(c) == 0 && len < BUFFER_LENGTH
    ensures Fine(ArgList(Null, Some(c)), last, len)
  {
  }

  /**
   A name of 252 characters in a list whose other elements are two empty argument packs: the first of its separators is
   left in.
   */
  lemma SeparatorLeftIn(name: string)
    requires |name| == BUFFER_LENGTH - 4
    ensures var pack := ArgList(Null, Null);
            var list := ArgList(Some(Text(name)), Some(ArgList(Some(pack), Some(ArgList(Some(pack), Null)))));
            !Fine(list, NUL, 0) && Ideal(list, NUL) == name
  {
    MovedShort(0, |name|);
    var pack := ArgList(Null, Null);
    var tail := ArgList(Some(pack), Some(ArgList(Some(pack), Null)));
    var last := ArgList(Some(pack), Null);
    assert Empty(last) && Depth(last) == 0 && Ideal(last, ' ') == "";
    assert Empty(tail) && Depth(tail) == 1 && Ideal(tail, ' ') == "";
    assert Landing(Text(name), NUL, 0) == |name|;
    assert IdealOperand(Some(tail), ' ') == "" && IdealOperand(Some(Text(name)), NUL) == Ideal(Text(name), NUL) == name;
    assert Ideal(ArgList(Some(Text(name)), Some(tail)), NUL) == name + "";
  }

  // ---- One step of printing

  datatype Snapshot = Snapshot(text: string, last: char, len: nat, flushes: nat)

  /**
   Printing c only adds to the text: what it should add when c is fine at this position, and more otherwise. An empty
   component leaves text and buffer alone, without a flush, exactly when it is calm.
   */
  ghost predicate Lays(c: Component, s: Snapshot, t: Snapshot) {
    && s.len < BUFFER_LENGTH && t.len < BUFFER_LENGTH
    && s.text <= t.text && s.flushes <= t.flushes
    && t.last == Render(c, s.last).last
    && (Fine(c, s.last, s.len) ==> t.text == s.text + Render(c, s.last).text && t.len == Landing(c, s.last, s.len))
    && (!Fine(c, s.last, s.len) ==> |t.text| > |s.text| + |Render(c, s.last).text|)
    && (t.flushes == s.flushes ==> t.len == s.len + |t.text| - |s.text|)
    && (Empty(c) ==> (Calm(c, s.len) <==> t.flushes == s.flushes && t.text == s.text))
  }

  /** More comes out of a component that is not fine, and not only spaces: a separator is left in. */
  ghost predicate Weighs(c: Component, s: Snapshot, t: Snapshot) {
    && s.len < BUFFER_LENGTH
    && (!Fine(c, s.last, s.len) ==> Visible(t.text) > Visible(s.text) + Visible(Render(c, s.last).text))
  }

  ghost predicate Prints(c: Component, s: Snapshot, t: Snapshot) {
    Lays(c, s, t) && Weighs(c, s, t)
  }

  ghost predicate Appends(piece: string, s: Snapshot, t: Snapshot) {
    && s.len < BUFFER_LENGTH && t.len == Moved(s.len, |piece|)
    && t.text == s.text + piece && t.last == LastOf(piece, s.last)
    && s.flushes <= t.flushes
    && (s.len + |piece| < BUFFER_LENGTH ==> t.flushes == s.flushes)
    && (t.flushes == s.flushes ==> t.len == s.len + |piece|)
  }

  lemma NothingAppended(s: Snapshot)
    requires s.len < BUFFER_LENGTH
    ensures Appends("", s, s)
  {
  }

  lemma AppendsNext(piece: string, c: char, s: Snapshot, t: Snapshot, u: Snapshot)
    requires Appends(piece, s, t) && t.len < BUFFER_LENGTH && u.text == t.text + [c] && u.last == c
    requires t.len < BUFFER_LENGTH - 1 ==> u.len == t.len + 1 && u.flushes == t.flushes
    requires t.len == BUFFER_LENGTH - 1 ==> u.len == 1 && u.flushes == t.flushes + 1
    ensures Appends(piece + [c], s, u)
  {
  }

  lemma LaysText(piece: string, s: Snapshot, t: Snapshot)
    requires Appends(piece, s, t)
    ensures Lays(Text(piece), s, t)
  {
  }

  lemma LaysBoth(a: Component, b: Component, s: Snapshot, t: Snapshot, u: Snapshot)
    requires Lays(a, s, t) && Lays(b, t, u)
    ensures Lays(Both(a, b), s, u)
  {
    hide Render, Landing, Fine, Empty, Depth;
    BothFacts(a, b, s.last, s.len);
  }

  lemma BothFacts(a: Component, b: Component, last: char, len: nat)
    requires len < BUFFER_LENGTH
    ensures var p := Render(a, last);
            var q := Render(b, p.last);
            && Render(Both(a, b), last) == Printed(p.text + q.text, q.last)
            && (Fine(Both(a, b), last, len) <==> Fine(a, last, len) && Fine(b, p.last, Landing(a, last, len)))
            && Landing(Both(a, b), last, len) == Landing(b, p.last, Landing(a, last, len))
    ensures Empty(Both(a, b)) <==> Empty(a) && Empty(b)
    ensures Depth(Both(a, b)) == Max(Depth(a), Depth(b))
    ensures Empty(a) && Calm(a, len) ==> Fine(a, last, len) && Landing(a, last, len) == len
  {
    if Empty(a) && Calm(a, len) { CalmIsFine(a, last, len); }
  }

  lemma LaysTemplate(n: Component, a: Component, s: Snapshot, t: Snapshot, t': Snapshot, u: Snapshot, u': Snapshot)
    requires Lays(n, s, t) && Appends(Opening(t.last), t, t') && Lays(a, t', u) && Appends(Closing(u.last), u, u')
    ensures Lays(Template(n, a), s, u')
  {
    hide Render, Landing, Fine, Empty, Depth;
    RenderTemplate(n, a, s.last);
  }

  lemma RenderTemplate(n: Component, a: Component, last: char)
    ensures var p, q := Render(n, last), Render(a, '<');
            Render(Template(n, a), last) == Printed(p.text + Opening(p.last) + q.text + Closing(q.last), '>')
    ensures !Empty(Template(n, a))
    ensures forall len: nat | len < BUFFER_LENGTH ::
              var p := Opened(Landing(n, last, len), Render(n, last).last);
              && (Fine(Template(n, a), last, len) <==> Fine(n, last, len) && Fine(a, '<', p))
              && Landing(Template(n, a), last, len) == Moved(Landing(a, '<', p), |Closing(Render(a, '<').last)|)
  {
  }

  ghost predicate LaysOperand(o: Operand, s: Snapshot, t: Snapshot) {
    if o.Null? then s == t && s.len < BUFFER_LENGTH else Lays(o.component, s, t)
  }

  /** The buffer after a possible flush and the separator. */
  ghost predicate Separates(s: Snapshot, t: Snapshot) {
    && s.len < BUFFER_LENGTH && t.len == Separator(s.len) + 2
    && t.text == s.text + ", " && t.last == ' '
    && t.flushes == s.flushes + if s.len >= BUFFER_LENGTH - 2 then 1 else 0
  }

  lemma LaysLeft(l: Operand, s: Snapshot, t: Snapshot)
    requires LaysOperand(l, s, t)
    ensures Lays(ArgList(l, Null), s, t)
  {
  }

  /** The separator stays when something follows it or the buffer was flushed since. */
  lemma LaysRight(l: Operand, c: Component, s: Snapshot, t: Snapshot, t': Snapshot, u: Snapshot)
    requires LaysOperand(l, s, t) && Separates(t, t') && Lays(c, t', u)
    requires !(u.flushes == t'.flushes && u.len == t'.len)
    ensures Lays(ArgList(l, Some(c)), s, u)
  {
    hide Render, Landing, Fine, Empty, Depth;
    ListFacts(l, c, s.last, s.len);
  }

  /** Otherwise it is taken back. */
  lemma LaysNothingRight(l: Operand, c: Component, s: Snapshot, t: Snapshot, t': Snapshot, u: Snapshot)
    requires LaysOperand(l, s, t) && Separates(t, t') && Lays(c, t', u)
    requires u.flushes == t'.flushes && u.len == t'.len
    ensures u.text == t'.text
    ensures Lays(ArgList(l, Some(c)), s, u.(text := t.text, len := u.len - 2))
  {
    hide Render, Landing, Fine, Empty, Depth;
    ListFacts(l, c, s.last, s.len);
  }

  /** What is said of a list in terms of its two parts. */
  lemma ListFacts(l: Operand, c: Component, last: char, len: nat)
    requires len < BUFFER_LENGTH
    ensures var list, p, q := ArgList(l, Some(c)), RenderOperand(l, last), Render(c, ' ');
            && Render(list, last) == Printed(p.text + (if q.text == "" then "" else ", " + q.text), q.last)
            && (Empty(c) <==> q.text == "")
            && (Empty(list) <==> Empty(c) && (l.Some? ==> Empty(l.component)))
    ensures var list, at := ArgList(l, Some(c)), if l.Null? then len else Landing(l.component, last, len);
            && Landing(list, last, len) == (if Empty(c) then Separator(at) else Landing(c, ' ', Separator(at) + 2))
            && (Fine(list, last, len) <==>
                  && (l.Some? ==> Fine(l.component, last, len))
                  && (if Empty(c) then Calm(c, Separator(at) + 2) else Fine(c, ' ', Separator(at) + 2)))
    ensures Depth(ArgList(l, Some(c))) == Max(if l.Null? then 0 else Depth(l.component), 1 + Depth(c))
    ensures l.Some? && Empty(l.component) ==> Render(l.component, last).text == ""
    ensures l.Some? && Empty(l.component) && Calm(l.component, len) ==>
              Fine(l.component, last, len) && Landing(l.component, last, len) == len
  {
    hide Render, Landing, Fine, Empty, Depth;
    ListRenders(l, c, last);
    ListLands(l, c, last, len);
    if l.Some? {
      EmptyPrintsNothing(l.component, last);
      if Empty(l.component) && Calm(l.component, len) { CalmIsFine(l.component, last, len); }
    }
  }

  lemma ListRenders(l: Operand, c: Component, last: char)
    ensures var list, p, q := ArgList(l, Some(c)), RenderOperand(l, last), Render(c, ' ');
            && Render(list, last) == Printed(p.text + (if q.text == "" then "" else ", " + q.text), q.last)
            && (Empty(c) <==> q.text == "")
            && (Empty(list) <==> Empty(c) && (l.Some? ==> Empty(l.component)))
  {
    hide Ideal;
    EmptyPrintsNothing(c, ' ');
  }

  lemma ListLands(l: Operand, c: Component, last: char, len: nat)
    requires len < BUFFER_LENGTH
    ensures var list, at := ArgList(l, Some(c)), if l.Null? then len else Landing(l.component, last, len);
            && Landing(list, last, len) == (if Empty(c) then Separator(at) else Landing(c, ' ', Separator(at) + 2))
            && (Fine(list, last, len) <==>
                  && (l.Some? ==> Fine(l.component, last, len))
                  && (if Empty(c) then Calm(c, Separator(at) + 2) else Fine(c, ' ', Separator(at) + 2)))
    ensures Depth(ArgList(l, Some(c))) == Max(if l.Null? then 0 else Depth(l.component), 1 + Depth(c))
  {
    hide Render, Empty, Ideal;
  }

  /** The characters that are no spaces, counted. */
  lemma AtLeast(c: Component, s: Snapshot, t: Snapshot)
    requires Prints(c, s, t)
    ensures s.len < BUFFER_LENGTH && t.last == Render(c, s.last).last
    ensures var w := Visible(s.text) + Visible(Render(c, s.last).text);
            if Fine(c, s.last, s.len) then Visible(t.text) == w && t.len == Landing(c, s.last, s.len) else Visible(t.text) > w
  {
    VisibleJoined(s.text, Render(c, s.last).text);
  }

  lemma PrintsText(piece: string, s: Snapshot, t: Snapshot)
    requires Appends(piece, s, t)
    ensures Prints(Text(piece), s, t)
  {
    LaysText(piece, s, t);
  }

  lemma PrintsBoth(a: Component, b: Component, s: Snapshot, t: Snapshot, u: Snapshot)
    requires Prints(a, s, t) && Prints(b, t, u)
    ensures Prints(Both(a, b), s, u)
  {
    hide Lays, Render, Fine, Visible, Landing;
    LaysBoth(a, b, s, t, u);
    AtLeast(a, s, t);
    AtLeast(b, t, u);
    BothFacts(a, b, s.last, s.len);
    VisibleJoined(Render(a, s.last).text, Render(b, t.last).text);
  }

  lemma PrintsTemplate(n: Component, a: Component, s: Snapshot, t: Snapshot, t': Snapshot, u: Snapshot, u': Snapshot)
    requires Prints(n, s, t) && Appends(Opening(t.last), t, t') && Prints(a, t', u) && Appends(Closing(u.last), u, u')
    ensures Prints(Template(n, a), s, u')
  {
    hide Lays, Render, Fine, Visible, Landing, Opening, Closing, Moved;
    LaysTemplate(n, a, s, t, t', u, u');
    AtLeast(n, s, t);
    AtLeast(a, t', u);
    RenderTemplate(n, a, s.last);
    OpenedBy(t.last);
    VisibleFour(Render(n, s.last).text, Opening(t.last), Render(a, '<').text, Closing(u.last));
    VisibleJoined(t.text, Opening(t.last));
    VisibleJoined(u.text, Closing(u.last));
  }

  lemma OpenedBy(last: char)
    ensures forall before :: LastOf(Opening(last), before) == '<'
  {
  }

  lemma PrintsLeft(l: Operand, s: Snapshot, t: Snapshot)
    requires PrintsOperand(l, s, t)
    ensures Prints(ArgList(l, Null), s, t)
  {
    LaysLeft(l, s, t);
  }

  ghost predicate PrintsOperand(o: Operand, s: Snapshot, t: Snapshot) {
    if o.Null? then s == t && s.len < BUFFER_LENGTH else Prints(o.component, s, t)
  }

  lemma OperandAtLeast(o: Operand, s: Snapshot, t: Snapshot)
    requires PrintsOperand(o, s, t)
    ensures LaysOperand(o, s, t) && s.len < BUFFER_LENGTH
    ensures var w := Visible(s.text) + Visible(RenderOperand(o, s.last).text);
            if o.Some? ==> Fine(o.component, s.last, s.len)
            then Visible(t.text) == w && t.len == if o.Null? then s.len else Landing(o.component, s.last, s.len)
            else Visible(t.text) > w
  {
    if o.Some? { AtLeast(o.component, s, t); }
  }

  /** The separator stays when something follows it or the buffer was flushed since. */
  lemma PrintsRight(l: Operand, c: Component, s: Snapshot, t: Snapshot, t': Snapshot, u: Snapshot)
    requires PrintsOperand(l, s, t) && Separates(t, t') && Prints(c, t', u)
    requires !(u.flushes == t'.flushes && u.len == t'.len)
    ensures Prints(ArgList(l, Some(c)), s, u)
  {
    hide Lays, Render, Fine, Visible, Landing, Empty, PrintsOperand;
    OperandAtLeast(l, s, t);
    LaysRight(l, c, s, t, t', u);
    AtLeast(c, t', u);
    ListFacts(l, c, s.last, s.len);
    SeparatorWeighs(t.text, RenderOperand(l, s.last).text, Render(c, ' ').text);
  }

  lemma SeparatorWeighs(before: string, p: string, q: string)
    ensures Visible(before + ", ") == Visible(before) + 1
    ensures Visible(p + (if q == "" then "" else ", " + q)) == Visible(p) + Visible(q) + if q == "" then 0 else 1
    ensures Visible("") == 0
  {
    hide Visible;
    OneComma();
    VisibleJoined(before, ", ");
    if q == "" {
      assert p + "" == p;
    } else {
      VisibleJoined(p, ", " + q);
      VisibleJoined(", ", q);
    }
  }

  lemma OneComma()
    ensures Visible(", ") == 1 && Visible("") == 0
  {
    assert ", "[..1] == "," && ","[..0] == "";
  }

  /** Otherwise it is taken back. */
  lemma PrintsNothingRight(l: Operand, c: Component, s: Snapshot, t: Snapshot, t': Snapshot, u: Snapshot)
    requires PrintsOperand(l, s, t) && Separates(t, t') && Prints(c, t', u)
    requires u.flushes == t'.flushes && u.len == t'.len
    ensures u.text == t'.text
    ensures Prints(ArgList(l, Some(c)), s, u.(text := t.text, len := u.len - 2))
  {
    hide Lays, Render, Fine, Visible, Landing, Empty, PrintsOperand;
    OperandAtLeast(l, s, t);
    LaysNothingRight(l, c, s, t, t', u);
    NothingPrinted(c, t', u);
    ListFacts(l, c, s.last, s.len);
    SeparatorWeighs(t.text, RenderOperand(l, s.last).text, Render(c, ' ').text);
  }

  lemma NothingPrinted(c: Component, s: Snapshot, t: Snapshot)
    requires Lays(c, s, t) && t.flushes == s.flushes && t.len == s.len
    ensures Empty(c) && Calm(c, s.len)
  {
    EmptyPrintsNothing(c, s.last);
  }

  // ---- What fails

  /** Something in the component, at this depth of recursion, is missing or nested too deeply. */
  predicate Fails(c: Component, depth: nat)
    decreases c, 1
  {
    c.Missing? || depth > MAX_RECURSION_COUNT || PartFails(c, depth + 1)
  }

  predicate PartFails(c: Component, depth: nat)
    decreases c, 0
  {
    match c
    case Text(_) => false
    case Both(a, b) => Fails(a, depth) || Fails(b, depth)
    case Template(n, a) => Fails(n, depth) || Fails(a, depth)
    case ArgList(l, r) => (l.Some? && Fails(l.component, depth)) || (r.Some? && Fails(r.component, depth))
    case Missing => true
  }

  function Height(c: Component): nat {
    match c
    case Text(_) => 0
    case Both(a, b) => 1 + Max(Height(a), Height(b))
    case Template(n, a) => 1 + Max(Height(n), Height(a))
    case ArgList(l, r) =>
      Max(if l.Null? then 0 else 1 + Height(l.component), if r.Null? then 0 else 1 + Height(r.component))
    case Missing => 0
  }

  predicate Complete(c: Component) {
    match c
    case Text(_) => true
    case Both(a, b) => Complete(a) && Complete(b)
    case Template(n, a) => Complete(n) && Complete(a)
    case ArgList(l, r) => (l.Some? ==> Complete(l.component)) && (r.Some? ==> Complete(r.component))
    case Missing => false
  }

  /** A name fails exactly when it is not complete or nested too deeply. */
  lemma {:induction false} FailsWhenDeep(c: Component, depth: nat)
    requires depth <= MAX_RECURSION_COUNT
    ensures Fails(c, depth) <==> !Complete(c) || depth + Height(c) > MAX_RECURSION_COUNT
    decreases c, 0
  {
    match c
    case Text(_) =>
    case Both(a, b) =>
      FailsBelow(a, depth + 1);
      FailsBelow(b, depth + 1);
    case Template(n, a) =>
      FailsBelow(n, depth + 1);
      FailsBelow(a, depth + 1);
    case ArgList(l, r) =>
      if l.Some? { FailsBelow(l.component, depth + 1); }
      if r.Some? { FailsBelow(r.component, depth + 1); }
    case Missing =>
  }

  lemma {:induction false} FailsBelow(c: Component, depth: nat)
    ensures Fails(c, depth) <==> !Complete(c) || depth + Height(c) > MAX_RECURSION_COUNT
    decreases c, 1
  {
    if depth <= MAX_RECURSION_COUNT { FailsWhenDeep(c, depth); }
  }

  // ---- The buffer

  class PrintInfo {
    const buf: array<char>
    var len: nat
    var lastChar: char
    var flushCount: nat
    var demangleFailure: bool
    var recursion: nat
    const dgs: Growable
    // The characters appended, less the separators taken back
    ghost var text: string

    /** What was passed on and what is in the buffer make up the text. */
    ghost predicate Valid()
      reads this, buf, dgs.Repr()
    {
      && buf.Length == BUFFER_LENGTH && len < BUFFER_LENGTH
      && dgs.Valid() && buf !in dgs.Repr() && this !in dgs.Repr()
      && text == dgs.received + buf[..len]
    }

    ghost function Repr(): set<object>
      reads this, dgs
    {
      {this, buf} + dgs.Repr()
    }

    constructor (dgs: Growable)
      requires dgs.Valid()
      ensures Valid() && fresh(Repr() - dgs.Repr()) && this.dgs == dgs
      ensures len == 0 && lastChar == NUL && flushCount == 0 && text == dgs.received
      ensures !demangleFailure && recursion == 0
    {
      this.dgs := dgs;
      buf := new char[BUFFER_LENGTH];
      len, lastChar, flushCount, demangleFailure, recursion := 0, NUL, 0, false, 0;
      text := dgs.received;
    }

    method Flush()
      requires Valid()
      modifies Repr()
      ensures Valid() && fresh(Repr() - old(Repr())) && text == old(text)
      ensures len == 0 && flushCount == old(flushCount) + 1 && lastChar == old(lastChar)
      ensures !dgs.allocationFailure ==> dgs.buf != null && dgs.buf[dgs.len] == NUL
      ensures demangleFailure == old(demangleFailure) && recursion == old(recursion)
      ensures old(dgs.allocationFailure) ==> dgs.allocationFailure
    {
      buf[len] := NUL;
      dgs.AppendBuffer(buf, len);
      len := 0;
      flushCount := flushCount + 1;
    }

    method AppendChar(c: char)
      requires Valid()
      modifies Repr()
      ensures Valid() && fresh(Repr() - old(Repr())) && text == old(text) + [c] && lastChar == c
      ensures old(len) < BUFFER_LENGTH - 1 ==> len == old(len) + 1 && flushCount == old(flushCount)
      ensures old(len) == BUFFER_LENGTH - 1 ==> len == 1 && flushCount == old(flushCount) + 1
      ensures demangleFailure == old(demangleFailure) && recursion == old(recursion)
      ensures old(dgs.allocationFailure) ==> dgs.allocationFailure
    {
      if len == BUFFER_LENGTH - 1 {
        Flush();
      }
      buf[len] := c;
      len := len + 1;
      lastChar := c;
      text := text + [c];
    }

    method AppendString(s: string)
      requires Valid()
      modifies Repr()
      ensures Valid() && fresh(Repr() - old(Repr())) && Appends(s, old(Now()), Now())
      ensures demangleFailure == old(demangleFailure) && recursion == old(recursion)
      ensures old(dgs.allocationFailure) ==> dgs.allocationFailure
    {
      hide Appends;
      ghost var start := Now();
      NothingAppended(start);
      for i := 0 to |s|
        invariant Valid() && fresh(Repr() - old(Repr())) && Appends(s[..i], start, Now())
        invariant old(dgs.allocationFailure) ==> dgs.allocationFailure
        invariant demangleFailure == old(demangleFailure) && recursion == old(recursion)
      {
        ghost var before := Now();
        AppendChar(s[i]);
        AppendsNext(s[..i], s[i], start, before, Now());
        assert s[..i + 1] == s[..i] + [s[i]];
      }
      assert s[..|s|] == s;
    }

    ghost function Now(): Snapshot
      reads this
    {
      Snapshot(text, lastChar, len, flushCount)
    }

    /**
     Prints a component; what comes out is told by Prints. What is missing or nested too deeply is not printed, and the
     whole fails.
     */
    method PrintComp(c: Component)
      requires Valid()
      modifies Repr()
      ensures Valid() && fresh(Repr() - old(Repr())) && recursion == old(recursion)
      ensures demangleFailure == (old(demangleFailure) || Fails(c, old(recursion)))
      ensures !Fails(c, old(recursion)) ==> Prints(c, old(Now()), Now())
      ensures old(dgs.allocationFailure) ==> dgs.allocationFailure
      decreases c, 2
    {
      if c.Missing? || recursion > MAX_RECURSION_COUNT {
        demangleFailure := true;
        return;
      }
      recursion := recursion + 1;
      PrintInner(c);
      recursion := recursion - 1;
    }

    method PrintInner(c: Component)
      requires Valid() && recursion > 0 && !c.Missing?
      modifies Repr()
      ensures Valid() && fresh(Repr() - old(Repr())) && recursion == old(recursion)
      ensures demangleFailure == (old(demangleFailure) || PartFails(c, old(recursion)))
      ensures !PartFails(c, old(recursion)) ==> Prints(c, old(Now()), Now())
      ensures old(dgs.allocationFailure) ==> dgs.allocationFailure
      decreases c, 1
    {
      hide Prints, Render, Fails, Appends;
      ghost var s := Now();
      match c
      case Text(piece) =>
        AppendString(piece);
        PrintsText(piece, s, Now());
      case Both(a, b) =>
        PrintComp(a);
        ghost var t := Now();
        PrintComp(b);
        if !PartFails(c, recursion) { PrintsBoth(a, b, s, t, Now()); }
      case Template(n, a) =>
        PrintTemplate(n, a);
      case ArgList(l, r) =>
        PrintList(l, r);
    }

    method PrintTemplate(n: Component, a: Component)
      requires Valid() && recursion > 0
      modifies Repr()
      ensures Valid() && fresh(Repr() - old(Repr())) && recursion == old(recursion)
      ensures demangleFailure == (old(demangleFailure) || PartFails(Template(n, a), old(recursion)))
      ensures !PartFails(Template(n, a), old(recursion)) ==> Prints(Template(n, a), old(Now()), Now())
      ensures old(dgs.allocationFailure) ==> dgs.allocationFailure
      decreases Template(n, a), 0
    {
      hide Prints, Render, Fails, Appends, Opening, Closing;
      ghost var s := Now();
      PrintComp(n);
      ghost var t := Now();
      AppendString(Opening(lastChar));
      ghost var t' := Now();
      PrintComp(a);
      ghost var u := Now();
      AppendString(Closing(lastChar));
      if !PartFails(Template(n, a), recursion) { PrintsTemplate(n, a, s, t, t', u, Now()); }
    }

    method PrintList(l: Operand, r: Operand)
      requires Valid() && recursion > 0
      modifies Repr()
      ensures Valid() && fresh(Repr() - old(Repr())) && recursion == old(recursion)
      ensures demangleFailure == (old(demangleFailure) || PartFails(ArgList(l, r), old(recursion)))
      ensures !PartFails(ArgList(l, r), old(recursion)) ==> Prints(ArgList(l, r), old(Now()), Now())
      ensures old(dgs.allocationFailure) ==> dgs.allocationFailure
      decreases ArgList(l, r), 0
    {
      hide Prints, Render, Fails;
      ghost var s := Now();
      if l.Some? {
        PrintComp(l.component);
      }
      ghost var t := Now();
      if r.Null? {
        if !PartFails(ArgList(l, r), recursion) { PrintsLeft(l, s, t); }
        return;
      }
      Separate();
      ghost var t' := Now();
      var mark, flushes := len, flushCount;
      PrintComp(r.component);
      ghost var u := Now();
      // Nothing came after the separator, as with an empty argument pack.
      if flushCount == flushes && len == mark {
        TakeBack();
        if !PartFails(ArgList(l, r), recursion) {
          PrintsNothingRight(l, r.component, s, t, t', u);
          assert Now() == u.(text := t.text, len := u.len - 2);
        }
      } else if !PartFails(ArgList(l, r), recursion) {
        PrintsRight(l, r.component, s, t, t', u);
      }
    }

    /** Appends a separator, which stays in the buffer for now. */
    method Separate()
      requires Valid()
      modifies Repr()
      ensures Valid() && fresh(Repr() - old(Repr())) && Separates(old(Now()), Now())
      ensures demangleFailure == old(demangleFailure) && recursion == old(recursion)
      ensures old(dgs.allocationFailure) ==> dgs.allocationFailure
    {
      if len >= BUFFER_LENGTH - 2 {
        Flush();
      }
      AppendChar(',');
      AppendChar(' ');
    }

    method TakeBack()
      requires Valid() && len >= 2
      modifies this
      ensures Valid() && len == old(len) - 2 && text == old(text)[..|old(text)| - 2]
      ensures lastChar == old(lastChar) && flushCount == old(flushCount)
      ensures demangleFailure == old(demangleFailure) && recursion == old(recursion)
      ensures dgs.allocationFailure == old(dgs.allocationFailure)
    {
      len := len - 2;
      text := text[..|text| - 2];
    }
  }

  /**
   The whole of the printing: the capacity is 0 when something in it was missing or nested too deeply, 1 when memory
   ran out, and otherwise that of a buffer which holds the text and a closing NUL. The text is the one that should be
   printed exactly when the component is fine from the start of the buffer and no end is hidden.
   */
  method PrintToString(c: Component, estimate: nat) returns (result: array?<char>, capacity: nat, n: nat)
    ensures capacity == 0 <==> Fails(c, 0)
    ensures result == null <==> capacity <= 1
    ensures result != null ==> capacity == result.Length && n < capacity && result[n] == NUL
    ensures result != null ==> (result[..n] == Ideal(c, NUL) <==> Fine(c, NUL, 0) && Clear(c, false, NUL))
    ensures result != null && Fine(c, NUL, 0) ==> result[..n] == Render(c, NUL).text
  {
    hide Fine, Render, Fails, Prints, Ideal, Clear;
    var dgs := new Growable(estimate);
    var dpi := new PrintInfo(dgs);
    ghost var s := dpi.Now();
    dpi.PrintComp(c);
    ghost var t := dpi.Now();
    dpi.Flush();
    if dpi.demangleFailure {
      return null, 0, 0;
    }
    PrintedFromStart(c, s, t);
    assert dpi.text == dgs.received + dpi.buf[..0];
    capacity := if dgs.allocationFailure then 1 else dgs.alc;
    result, n := dgs.buf, dgs.len;
  }

  lemma PrintedFromStart(c: Component, s: Snapshot, t: Snapshot)
    requires Prints(c, s, t) && s.text == "" && s.last == NUL && s.len == 0
    ensures t.text == Ideal(c, NUL) <==> Fine(c, NUL, 0) && Clear(c, false, NUL)
    ensures Fine(c, NUL, 0) ==> t.text == Render(c, NUL).text
  {
    hide Fine, Render, Ideal, Clear, Visible;
    RendersIdeal(c);
    AtLeast(c, s, t);
    OneComma();
    assert "" + Render(c, NUL).text == Render(c, NUL).text;
  }
}
