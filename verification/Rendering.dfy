/**
 What the components of a demangled name should print, and what the code prints of them when its buffer does not get in
 the way. The two differ in the spaces that keep angle brackets apart.
 */
module Rendering {

  /**
   Components as far as they matter for the output: texts, things printed one after another, templates, lists, and
   the missing component whose printing is an error.
   */
  datatype Component =
    | Text(text: string)
    | Both(first: Component, second: Component)
    | Template(name: Component, args: Component)
    | ArgList(left: Operand, right: Operand)
    | Missing

  datatype Operand = Null | Some(component: Component)

  function LastOf(s: string, last: char): char {
    if s == "" then last else s[|s| - 1]
  }

  function Opening(last: char): string {
    if last == '<' then " <" else "<"
  }

  function Closing(last: char): string {
    if last == '>' then " >" else ">"
  }

  // ---- What should be printed

  /**
   The text of a component behind a text that ends with the given character. Two opening or closing brackets are kept
   apart by a space, and a separator stands only before something.
   */
  function Ideal(c: Component, last: char): string {
    match c
    case Text(s) => s
    case Both(a, b) =>
      var p := Ideal(a, last);
      p + Ideal(b, LastOf(p, last))
    case Template(n, a) =>
      var p, q := Ideal(n, last), Ideal(a, '<');
      p + Opening(LastOf(p, last)) + q + Closing(LastOf(q, '<'))
    case ArgList(l, r) =>
      var q := IdealOperand(r, ' ');
      IdealOperand(l, last) + if q == "" then "" else ", " + q
    case Missing => ""
  }

  function IdealOperand(o: Operand, last: char): string {
    if o.Null? then "" else Ideal(o.component, last)
  }

  // ---- What the code prints

  datatype Printed = Printed(text: string, last: char)

  /**
   The text that the code prints when no separator is left in, given the character that it counts as the last one.
   That character is the space of the last separator when this was taken back.
   */
  function Render(c: Component, last: char): Printed {
    match c
    case Text(s) => Printed(s, LastOf(s, last))
    case Both(a, b) =>
      var p := Render(a, last);
      var q := Render(b, p.last);
      Printed(p.text + q.text, q.last)
    case Template(n, a) =>
      var p := Render(n, last);
      var q := Render(a, '<');
      Printed(p.text + Opening(p.last) + q.text + Closing(q.last), '>')
    case ArgList(l, r) =>
      var p := RenderOperand(l, last);
      if r.Null? then p
      else
        var q := Render(r.component, ' ');
        Printed(p.text + (if q.text == "" then "" else ", " + q.text), q.last)
    case Missing => Printed("", last)
  }

  function RenderOperand(o: Operand, last: char): Printed {
    if o.Null? then Printed("", last) else Render(o.component, last)
  }

  /** Components that print nothing. */
  predicate Empty(c: Component) {
    match c
    case Text(s) => s == ""
    case Both(a, b) => Empty(a) && Empty(b)
    case Template(_, _) => false
    case ArgList(l, r) => (l.Some? ==> Empty(l.component)) && (r.Some? ==> Empty(r.component))
    case Missing => true
  }

  lemma {:induction false} EmptyPrintsNothing(c: Component, last: char)
    ensures Empty(c) <==> Render(c, last).text == ""
    ensures Empty(c) <==> Ideal(c, last) == ""
    ensures Empty(c) ==> Render(c, last).last == last || Render(c, last).last == ' '
  {
    match c
    case Text(_) =>
    case Both(a, b) =>
      EmptyPrintsNothing(a, last);
      EmptyPrintsNothing(b, Render(a, last).last);
      EmptyPrintsNothing(b, LastOf(Ideal(a, last), last));
    case Template(_, _) =>
    case ArgList(l, r) =>
      if l.Some? { EmptyPrintsNothing(l.component, last); }
      if r.Some? { EmptyPrintsNothing(r.component, ' '); }
    case Missing =>
  }

  // ---- Where they differ

  /**
   After the component the character counted as the last one is the space of a separator taken back; hidden says
   whether it was one before.
   */
  predicate Hidden(c: Component, hidden: bool) {
    match c
    case Text(s) => s == "" && hidden
    case Both(a, b) => Hidden(b, Hidden(a, hidden))
    case Template(_, _) => false
    case ArgList(l, r) =>
      if r.Some? then Empty(r.component) || Hidden(r.component, false)
      else if l.Some? then Hidden(l.component, hidden)
      else hidden
    case Missing => hidden
  }

  /** No name of a template ends with '<', and no arguments with '>', that a separator taken back hides. */
  predicate Clear(c: Component, hidden: bool, last: char) {
    match c
    case Text(_) => true
    case Both(a, b) => Clear(a, hidden, last) && Clear(b, Hidden(a, hidden), LastOf(Ideal(a, last), last))
    case Template(n, a) =>
      && Clear(n, hidden, last) && !(Hidden(n, hidden) && LastOf(Ideal(n, last), last) == '<')
      && Clear(a, false, '<') && !(Hidden(a, false) && LastOf(Ideal(a, '<'), '<') == '>')
    case ArgList(l, r) =>
      && (l.Some? ==> Clear(l.component, hidden, last))
      && (r.Some? && !Empty(r.component) ==> Clear(r.component, false, ' '))
    case Missing => true
  }

  /** The character that the code counts as the last one. */
  function Counted(hidden: bool, last: char): char {
    if hidden then ' ' else last
  }

  /** The number of characters that are not spaces. */
  function Visible(text: string): nat {
    if text == "" then 0 else Visible(text[..|text| - 1]) + if text[|text| - 1] == ' ' then 0 else 1
  }

  lemma {:induction false} VisibleJoined(a: string, b: string)
    ensures Visible(a + b) == Visible(a) + Visible(b)
  {
    if b == "" {
      assert a + b == a;
    } else {
      assert (a + b)[..|a + b| - 1] == a + b[..|b| - 1];
      VisibleJoined(a, b[..|b| - 1]);
    }
  }

  lemma VisibleFour(a: string, b: string, c: string, d: string)
    ensures Visible(a + b + c + d) == Visible(a) + Visible(b) + Visible(c) + Visible(d)
  {
    hide Visible;
    VisibleJoined(a + b + c, d);
    VisibleJoined(a + b, c);
    VisibleJoined(a, b);
  }

  lemma VisibleAngles(last: char)
    ensures Visible(Opening(last)) == 1 && Visible(Closing(last)) == 1
  {
    assert "<"[..0] == "" && ">"[..0] == "" && " "[..0] == "";
    assert " <"[..1] == " " && " >"[..1] == " ";
  }

  /**
   How the text that the code prints compares with the one that it should print: some of the spaces are missing when
   an end is hidden, and nothing else.
   */
  ghost predicate Compares(printed: Printed, ideal: string, hidden: bool, clear: bool, last: char) {
    && printed.last == Counted(hidden, LastOf(printed.text, last))
    && LastOf(ideal, last) == LastOf(printed.text, last)
    && Visible(ideal) == Visible(printed.text)
    && (clear ==> printed.text == ideal)
    && (!clear ==> |printed.text| < |ideal|)
  }

  lemma SameText(s: string, hidden: bool, last: char)
    ensures Compares(Printed(s, LastOf(s, Counted(hidden, last))), s, s == "" && hidden, true, last)
  {
  }

  /** One text after another. */
  lemma JoinCompares(p: Printed, i: string, h: bool, c: bool, q: Printed, j: string, h': bool, c': bool, last: char)
    requires Compares(p, i, h, c, last) && Compares(q, j, h', c', LastOf(i, last))
    ensures Compares(Printed(p.text + q.text, q.last), i + j, h', c && c', last)
  {
    VisibleJoined(p.text, q.text);
    VisibleJoined(i, j);
    LastOfJoined(p.text, q.text, last);
    LastOfJoined(i, j, last);
  }

  lemma LastOfJoined(a: string, b: string, last: char)
    ensures LastOf(a + b, last) == LastOf(b, LastOf(a, last))
  {
  }

  lemma AngleCompares(hidden: bool, last: char)
    ensures Compares(Printed(Opening(Counted(hidden, last)), '<'), Opening(last), false, !(hidden && last == '<'), last)
    ensures Compares(Printed(Closing(Counted(hidden, last)), '>'), Closing(last), false, !(hidden && last == '>'), last)
  {
    VisibleAngles(last);
    VisibleAngles(Counted(hidden, last));
  }

  lemma LastComes(p: Printed, i: string, hidden: bool, clear: bool, last: char)
    requires Compares(p, i, hidden, clear, last)
    ensures p.last == Counted(hidden, LastOf(i, last))
  {
  }

  ghost predicate AgainstIdeal(c: Component, hidden: bool, last: char) {
    Compares(Render(c, Counted(hidden, last)), Ideal(c, last), Hidden(c, hidden), Clear(c, hidden, last), last)
  }

  lemma {:induction false} RenderAgainstIdeal(c: Component, hidden: bool, last: char)
    ensures AgainstIdeal(c, hidden, last)
    decreases c, 1
  {
    hide Compares;
    match c
    case Text(s) =>
      SameText(s, hidden, last);
    case Both(a, b) =>
      RenderAgainstIdeal(a, hidden, last);
      var i := Ideal(a, last);
      LastComes(Render(a, Counted(hidden, last)), i, Hidden(a, hidden), Clear(a, hidden, last), last);
      RenderAgainstIdeal(b, Hidden(a, hidden), LastOf(i, last));
      BothCompares(a, b, hidden, last);
    case Template(n, a) =>
      RenderAgainstIdeal(n, hidden, last);
      RenderAgainstIdeal(a, false, '<');
      TemplateCompares(n, a, hidden, last);
    case ArgList(l, r) =>
      if l.Some? { RenderAgainstIdeal(l.component, hidden, last); }
      if r.Some? { RenderAgainstIdeal(r.component, false, ' '); }
      ListCompares(l, r, hidden, last);
    case Missing =>
      SameText("", hidden, last);
  }

  lemma BothCompares(a: Component, b: Component, hidden: bool, last: char)
    requires AgainstIdeal(a, hidden, last) && AgainstIdeal(b, Hidden(a, hidden), LastOf(Ideal(a, last), last))
    requires Render(a, Counted(hidden, last)).last == Counted(Hidden(a, hidden), LastOf(Ideal(a, last), last))
    ensures AgainstIdeal(Both(a, b), hidden, last)
  {
    hide Compares;
    var p, i := Render(a, Counted(hidden, last)), Ideal(a, last);
    JoinCompares(p, i, Hidden(a, hidden), Clear(a, hidden, last),
                 Render(b, p.last), Ideal(b, LastOf(i, last)),
                 Hidden(b, Hidden(a, hidden)), Clear(b, Hidden(a, hidden), LastOf(i, last)), last);
  }

  lemma TemplateCompares(n: Component, a: Component, hidden: bool, last: char)
    requires AgainstIdeal(n, hidden, last) && AgainstIdeal(a, false, '<')
    ensures AgainstIdeal(Template(n, a), hidden, last)
  {
    hide Compares, Opening, Closing;
    var p, i, h, c := Render(n, Counted(hidden, last)), Ideal(n, last), Hidden(n, hidden), Clear(n, hidden, last);
    LastComes(p, i, h, c, last);
    AngleCompares(h, LastOf(i, last));
    var o, o' := Opening(p.last), Opening(LastOf(i, last));
    var c1 := !(h && LastOf(i, last) == '<');
    JoinCompares(p, i, h, c, Printed(o, '<'), o', false, c1, last);
    AngleEnds(LastOf(i, last));
    LastOfJoined(i, o', last);
    var q, j, h', c' := Render(a, '<'), Ideal(a, '<'), Hidden(a, false), Clear(a, false, '<');
    JoinCompares(Printed(p.text + o, '<'), i + o', false, c && c1, q, j, h', c', last);
    LastComes(q, j, h', c', '<');
    AngleCompares(h', LastOf(j, '<'));
    LastOfJoined(i + o', j, last);
    JoinCompares(Printed(p.text + o + q.text, q.last), i + o' + j, h', c && c1 && c',
                 Printed(Closing(q.last), '>'), Closing(LastOf(j, '<')), false, !(h' && LastOf(j, '<') == '>'), last);
  }

  lemma AngleEnds(last: char)
    ensures Opening(last) != "" && forall before :: LastOf(Opening(last), before) == '<'
  {
  }

  lemma ListCompares(l: Operand, r: Operand, hidden: bool, last: char)
    requires l.Some? ==> AgainstIdeal(l.component, hidden, last)
    requires r.Some? ==> AgainstIdeal(r.component, false, ' ')
    ensures AgainstIdeal(ArgList(l, r), hidden, last)
  {
    hide Compares;
    if l.Null? { SameText("", hidden, last); }
    var p, i := RenderOperand(l, Counted(hidden, last)), IdealOperand(l, last);
    var h := if l.Some? then Hidden(l.component, hidden) else hidden;
    var c := l.Some? ==> Clear(l.component, hidden, last);
    assert i + "" == i;
    if r.Some? {
      var q, j, c' := Render(r.component, ' '), Ideal(r.component, ' '), Clear(r.component, false, ' ');
      EmptyPrintsNothing(r.component, ' ');
      if Empty(r.component) {
        NothingBehind(p, i, h, c, last);
        assert p.text + "" == p.text && Ideal(ArgList(l, r), last) == i;
      } else {
        SameText(", ", h, LastOf(i, last));
        LastComes(p, i, h, c, last);
        JoinCompares(p, i, h, c, Printed(", ", ' '), ", ", false, true, last);
        LastOfJoined(i, ", ", last);
        JoinCompares(Printed(p.text + ", ", ' '), i + ", ", false, c, q, j, Hidden(r.component, false), c', last);
        assert p.text + ", " + q.text == p.text + (", " + q.text) && i + ", " + j == i + (", " + j);
      }
    } else {
      assert Ideal(ArgList(l, r), last) == i;
    }
  }

  /** A separator that was taken back leaves the text as it is and hides its end. */
  lemma NothingBehind(p: Printed, i: string, h: bool, c: bool, last: char)
    requires Compares(p, i, h, c, last)
    ensures Compares(Printed(p.text, ' '), i, true, c, last)
  {
  }

  /** The code prints what it should exactly when no separator taken back hides a bracket from the next one. */
  lemma RendersIdeal(c: Component)
    ensures Render(c, '\0').text == Ideal(c, '\0') <==> Clear(c, false, '\0')
    ensures |Render(c, '\0').text| <= |Ideal(c, '\0')| && Visible(Render(c, '\0').text) == Visible(Ideal(c, '\0'))
  {
    RenderAgainstIdeal(c, false, '\0');
  }

  /** The last character counted is that of the text, unless a separator was taken back at the end of a longer text. */
  lemma LastIsVisible(c: Component, last: char)
    ensures Render(c, last).last == LastOf(Render(c, last).text, last) <==>
            !Hidden(c, false) || LastOf(Render(c, last).text, last) == ' '
  {
    RenderAgainstIdeal(c, false, last);
  }

  /** Behind an empty argument pack the space between two '>' is left out, and behind an operator that between two '<'. */
  lemma LastCharIsStale()
    ensures var packed := ArgList(Some(Template(Text("a"), Text("int"))), Some(Text("")));
            var c := Template(Text("f"), packed);
            && !Clear(c, false, '\0')
            && Render(c, '\0').text == "f<a<int>>" && Ideal(c, '\0') == "f<a<int> >"
  {
    var inner := Template(Text("a"), Text("int"));
    assert Render(inner, '<') == Printed("a<int>", '>') && Ideal(inner, '<') == "a<int>";
    assert Render(ArgList(Some(inner), Some(Text(""))), '<') == Printed("a<int>", ' ');
    assert Ideal(ArgList(Some(inner), Some(Text(""))), '<') == "a<int>";
  }

  // ---- Lists and brackets

  /** The list of some texts, as the parser nests it: each with the rest of the list on its right. */
  function Listed(texts: seq<string>): Component
    requires texts != []
  {
    ArgList(Some(Text(texts[0])), if |texts| == 1 then Null else Some(Listed(texts[1..])))
  }

  function JoinedWith(separator: string, texts: seq<string>): string
    requires texts != []
  {
    if |texts| == 1 then texts[0] else JoinedWith(separator, texts[..|texts| - 1]) + separator + texts[|texts| - 1]
  }

  lemma {:induction false} JoinedFromLeft(separator: string, texts: seq<string>)
    requires |texts| > 1
    ensures JoinedWith(separator, texts) == texts[0] + separator + JoinedWith(separator, texts[1..])
  {
    var init, rest, last := texts[..|texts| - 1], texts[1..], texts[|texts| - 1];
    if |texts| > 2 {
      JoinedFromLeft(separator, init);
      assert init[1..] == rest[..|rest| - 1];
      var mid := JoinedWith(separator, init[1..]);
      assert texts[0] + separator + mid + separator + last == texts[0] + separator + (mid + separator + last);
    } else {
      assert init == [texts[0]] && rest == [last];
    }
  }

  lemma IdealOfList(l: Operand, r: Operand, last: char)
    ensures Ideal(ArgList(l, r), last) ==
            IdealOperand(l, last) + (if IdealOperand(r, ' ') == "" then "" else ", " + IdealOperand(r, ' '))
  {
  }

  lemma IdealOfText(text: string, last: char)
    ensures Ideal(Text(text), last) == text && IdealOperand(Some(Text(text)), last) == text && IdealOperand(Null, last) == ""
  {
  }

  lemma IdealOfSome(c: Component, last: char)
    ensures IdealOperand(Some(c), last) == Ideal(c, last)
  {
  }

  /** A list of texts that are not empty prints them with ", " between one and the next. */
  lemma {:induction false} ListPrintsJoined(texts: seq<string>, last: char)
    requires texts != [] && forall t <- texts :: t != ""
    ensures Ideal(Listed(texts), last) == JoinedWith(", ", texts) && JoinedWith(", ", texts) != ""
  {
    hide Ideal, IdealOperand;
    assert texts[0] in texts;
    IdealOfText(texts[0], last);
    IdealOfText("", ' ');
    if |texts| > 1 {
      assert forall t <- texts[1..] :: t in texts;
      ListPrintsJoined(texts[1..], ' ');
      JoinedFromLeft(", ", texts);
      IdealOfSome(Listed(texts[1..]), ' ');
      IdealOfList(Some(Text(texts[0])), Some(Listed(texts[1..])), last);
      var rest := JoinedWith(", ", texts[1..]);
      assert texts[0] + (", " + rest) == texts[0] + ", " + rest;
    } else {
      IdealOfList(Some(Text(texts[0])), Null, last);
      assert texts[0] + "" == texts[0];
    }
  }

  /** A template prints its name and, in angle brackets, its arguments; the brackets stand apart from others. */
  lemma TemplatePrints(name: string, texts: seq<string>, last: char)
    requires name != "" && texts != [] && forall t <- texts :: t != ""
    ensures JoinedWith(", ", texts) != ""
    ensures var args := JoinedWith(", ", texts);
            Ideal(Template(Text(name), Listed(texts)), last) ==
            name + (if name[|name| - 1] == '<' then " <" else "<") + args + (if args[|args| - 1] == '>' then " >" else ">")
  {
    ListPrintsJoined(texts, '<');
    IdealOfTemplate(Text(name), Listed(texts), last);
    IdealOfText(name, last);
    hide Ideal;
  }

  /** Things printed one after another come out in that order. */
  lemma BothPrint(a: string, b: string, last: char)
    ensures Ideal(Both(Text(a), Text(b)), last) == a + b
  {
    IdealOfText(a, last);
    IdealOfText(b, LastOf(a, last));
  }

  lemma IdealOfTemplate(n: Component, a: Component, last: char)
    ensures var p, q := Ideal(n, last), Ideal(a, '<');
            Ideal(Template(n, a), last) == p + Opening(LastOf(p, last)) + q + Closing(LastOf(q, '<'))
  {
  }
}
