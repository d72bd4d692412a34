/** The texts that the MSVC demangler's string builders produce. */
module UndnameText {

  /** An argument of str_printf: a string pointer, maybe NULL, or a character. */
  datatype Argument = Text(text: string) | Null | Character(c: char)

  /** What the directive at the head of a format is: "%s", "%c" or "%%"; any other character stands for itself. */
  datatype Directive = PrintText | PrintCharacter | PrintPercent | Plain

  function Head(format: string): Directive
    requires format != []
  {
    if format[0] != '%' || |format| == 1 then Plain
    else if format[1] == 's' then PrintText
    else if format[1] == 'c' then PrintCharacter
    else if format[1] == '%' then PrintPercent
    else Plain
  }

  /** The characters of the format that the directive at its head takes up, and the arguments that it uses. */
  function Width(format: string): (n: nat)
    requires format != []
    ensures 1 <= n <= |format|
  {
    if Head(format).Plain? then 1 else 2
  }

  function Takes(format: string): nat
    requires format != []
  {
    if Head(format).PrintText? || Head(format).PrintCharacter? then 1 else 0
  }

  /** The directive at the head of the format finds an argument of the kind that it asks for. */
  predicate Fed(format: string, args: seq<Argument>)
    requires format != []
  {
    && Takes(format) <= |args|
    && (Head(format).PrintText? ==> !args[0].Character?)
    && (Head(format).PrintCharacter? ==> args[0].Character?)
  }

  function Piece(format: string, args: seq<Argument>): string
    requires format != [] && Fed(format, args)
  {
    match Head(format)
    case PrintText => if args[0].Null? then "" else args[0].text
    case PrintCharacter => [args[0].c]
    case PrintPercent => "%"
    case Plain => [format[0]]
  }

  /** The arguments are there and of the kinds that the format asks for; surplus ones do no harm. */
  predicate Fits(format: string, args: seq<Argument>) {
    format == [] || (Fed(format, args) && Fits(format[Width(format)..], args[Takes(format)..]))
  }

  /** The text that a format stands for; a '%' before an unknown character or at the end stands for itself. */
  function Expand(format: string, args: seq<Argument>): string
    requires Fits(format, args)
  {
    if format == [] then [] else Piece(format, args) + Expand(format[Width(format)..], args[Takes(format)..])
  }

  /** The number of arguments that a format uses. */
  function Used(format: string): nat {
    if format == [] then 0 else Takes(format) + Used(format[Width(format)..])
  }

  /** The format ends with a '%' that starts no directive. */
  predicate Dangling(format: string) {
    format == "%" || (format != [] && Dangling(format[Width(format)..]))
  }

  lemma HeadOfJoined(f: string, g: string, a: seq<Argument>, b: seq<Argument>)
    requires f != [] && !Dangling(f) && Fed(f, a)
    ensures Width(f + g) == Width(f) && Takes(f + g) == Takes(f)
    ensures (f + g)[Width(f)..] == f[Width(f)..] + g && (a + b)[Takes(f)..] == a[Takes(f)..] + b
    ensures Fed(f + g, a + b) && Piece(f + g, a + b) == Piece(f, a)
  {
    assert (f + g)[0] == f[0];
    if |f| == 1 {
      assert f == [f[0]];
    } else {
      assert (f + g)[1] == f[1];
    }
    assert Head(f + g) == Head(f);
    assert a != [] ==> (a + b)[0] == a[0];
  }

  /** Formats compose, unless the first one ends with a '%' that the second would turn into something else. */
  lemma {:induction false} ExpandJoins(f: string, g: string, a: seq<Argument>, b: seq<Argument>)
    requires Fits(f, a) && Fits(g, b) && Used(f) == |a|
    requires !Dangling(f)
    ensures Fits(f + g, a + b) && Expand(f + g, a + b) == Expand(f, a) + Expand(g, b)
    decreases |f|
  {
    hide Head, Width, Takes, Fed, Piece;
    if f == [] {
      assert f + g == g && a + b == b;
    } else {
      HeadOfJoined(f, g, a, b);
      ExpandJoins(f[Width(f)..], g, a[Takes(f)..], b);
    }
  }

  /** A dangling '%' can turn the next format's first character into a directive. */
  lemma DanglingMatters()
    ensures Dangling("%") && Fits("%", []) && Fits("%", []) && Expand("%", []) + Expand("%", []) == "%%"
    ensures Fits("%" + "%", []) && Expand("%" + "%", []) == "%"
  {
    assert "%"[1..] == [] && "%%"[2..] == [];
    assert "%" + "%" == "%%";
  }

  /** The format that prints a text as it is. */
  function Escaped(text: string): string {
    if text == [] then [] else (if text[0] == '%' then "%%" else [text[0]]) + Escaped(text[1..])
  }

  lemma {:induction false} EscapedPrintsItself(text: string, args: seq<Argument>)
    ensures Fits(Escaped(text), args) && Expand(Escaped(text), args) == text
  {
    if text != [] {
      EscapedPrintsItself(text[1..], args);
      var f := Escaped(text);
      if text[0] == '%' {
        assert f[0] == '%' && f[1] == '%' && f[2..] == Escaped(text[1..]);
      } else {
        assert f[0] == text[0] && f[1..] == Escaped(text[1..]);
      }
      assert text == [text[0]] + text[1..];
    }
  }

  // ---- Scoped names

  /** The names from the last to the first, with "::" between them. */
  function Scoped(names: seq<string>): string {
    if names == [] then ""
    else if |names| == 1 then names[0]
    else names[|names| - 1] + "::" + Scoped(names[..|names| - 1])
  }

  lemma {:induction false} ScopedJoins(a: seq<string>, b: seq<string>)
    requires a != [] && b != []
    ensures Scoped(a + b) == Scoped(b) + "::" + Scoped(a)
  {
    var n := |b| - 1;
    assert (a + b)[..|a + b| - 1] == a + b[..n];
    if n == 0 {
      assert a + b[..n] == a;
    } else {
      ScopedJoins(a, b[..n]);
      assert b[n] + "::" + (Scoped(b[..n]) + "::" + Scoped(a)) == (b[n] + "::" + Scoped(b[..n])) + "::" + Scoped(a);
    }
  }

  function Reversed<T>(s: seq<T>): seq<T> {
    if s == [] then [] else [s[|s| - 1]] + Reversed(s[..|s| - 1])
  }

  /** The parts of a text between one "::" and the next. */
  function Parts(text: string): (parts: seq<string>)
    ensures parts != []
  {
    if text == [] then [""]
    else if |text| >= 2 && text[..2] == "::" then [""] + Parts(text[2..])
    else
      var rest := Parts(text[1..]);
      [[text[0]] + rest[0]] + rest[1..]
  }

  lemma {:induction false} OnlyPart(name: string)
    requires ':' !in name
    ensures Parts(name) == [name]
  {
    if name != [] {
      OnlyPart(name[1..]);
      assert name == [name[0]] + name[1..];
    }
  }

  lemma {:induction false} FirstPart(name: string, text: string)
    requires ':' !in name
    ensures Parts(name + "::" + text) == [name] + Parts(text)
  {
    var whole := name + "::" + text;
    if name == [] {
      assert whole[..2] == "::" && whole[2..] == text;
    } else {
      FirstPart(name[1..], text);
      assert whole[0] == name[0] && whole[1..] == name[1..] + "::" + text;
      assert whole[..2][0] == name[0];
      assert name == [name[0]] + name[1..];
    }
  }

  /** The scoped name tells the names on the stack, if they hold no colon. */
  lemma {:induction false} PartsOfScoped(names: seq<string>)
    requires names != [] && forall name <- names :: ':' !in name
    ensures Parts(Scoped(names)) == Reversed(names)
  {
    var n := |names| - 1;
    if n == 0 {
      OnlyPart(names[0]);
      assert names[..0] == [];
    } else {
      PartsOfScoped(names[..n]);
      FirstPart(names[n], Scoped(names[..n]));
    }
  }

  /** What get_class_string adds up: two more than the length of each name. */
  function Lengths(names: seq<string>): nat {
    if names == [] then 0 else Lengths(names[..|names| - 1]) + 2 + |names[|names| - 1]|
  }

  lemma {:induction false} ScopedLength(names: seq<string>)
    requires names != []
    ensures Lengths(names) - 2 == |Scoped(names)|
  {
    var n := |names| - 1;
    if n > 0 {
      ScopedLength(names[..n]);
    } else {
      assert names[..0] == [];
    }
  }

  /** Each directive by itself. */
  lemma TextPrints(text: string)
    ensures Fits("%s", [Text(text)]) && Expand("%s", [Text(text)]) == text
    ensures Fits("%s", [Null]) && Expand("%s", [Null]) == ""
    ensures !Fits("%s", []) && !Fits("%c", [Text(text)])
  {
    assert "%s"[2..] == "" && [Text(text)][1..] == [] && [Argument.Null][1..] == [];
    assert text + "" == text;
  }

  lemma CharacterPrints(c: char)
    ensures Fits("%c", [Character(c)]) && Expand("%c", [Character(c)]) == [c]
    ensures !Fits("%c", []) && !Fits("%s", [Character(c)])
  {
    assert "%c"[2..] == "" && [Character(c)][1..] == [];
  }

  /** Two percent signs print one; one before any other character prints itself and that character. */
  lemma PercentPrints(x: char)
    requires x !in ['s', 'c', '%']
    ensures Fits("%%", []) && Expand("%%", []) == "%"
    ensures Fits(['%', x], []) && Expand(['%', x], []) == ['%', x]
  {
    assert "%%"[2..] == "" && ['%', x][1..] == [x] && [x][1..] == "";
  }
}
