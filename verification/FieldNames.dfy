/** Names that a structure gives its fields: the first of name, name_0, name_1, ... that no field has yet. */
module FieldNames {

  /** std::to_string of an index. */
  function Digits(i: nat): (text: string)
    ensures text != ""
  {
    if i < 10 then [Digit(i)] else Digits(i / 10) + [Digit(i % 10)]
  }

  function Digit(d: nat): char
    requires d < 10
  {
    '0' + d as char
  }

  lemma {:induction false} DigitsDiffer(i: nat, j: nat)
    requires Digits(i) == Digits(j)
    ensures i == j
  {
    var s, t := Digits(i), Digits(j);
    assert s[|s| - 1] == Digit(i % 10) && t[|t| - 1] == Digit(j % 10);
    DigitIsInjective(i % 10, j % 10);
    if i < 10 && j < 10 {
    } else if i >= 10 && j >= 10 {
      assert s[..|s| - 1] == Digits(i / 10) && t[..|t| - 1] == Digits(j / 10);
      DigitsDiffer(i / 10, j / 10);
    } else {
      assert false;
    }
  }

  lemma DigitIsInjective(d: nat, e: nat)
    requires d < 10 && e < 10 && Digit(d) == Digit(e)
    ensures d == e
  {
    assert ('0' + d as char) as int == 48 + d && ('0' + e as char) as int == 48 + e;
  }

  /** The number that a decimal numeral stands for. */
  function Decimal(text: string): int {
    if text == "" then 0 else 10 * Decimal(text[..|text| - 1]) + (text[|text| - 1] as int - 48)
  }

  /** The numeral stands for the index, has no other characters than digits and no leading zero. */
  lemma {:induction false} DigitsAreDecimal(i: nat)
    ensures Decimal(Digits(i)) == i && (forall c <- Digits(i) :: '0' <= c <= '9')
    ensures |Digits(i)| > 1 ==> Digits(i)[0] != '0'
  {
    var s := Digits(i);
    assert ('0' + (i % 10) as char) as int == 48 + i % 10;
    if i < 10 {
      assert s[..0] == "";
    } else {
      assert s[..|s| - 1] == Digits(i / 10);
      DigitsAreDecimal(i / 10);
      FirstDigit(i);
    }
  }

  lemma {:induction false} FirstDigit(i: nat)
    requires i >= 10
    ensures Digits(i)[0] != '0'
  {
    var s := Digits(i / 10);
    assert Digits(i)[0] == s[0];
    if i / 10 < 10 {
      assert s == [Digit(i / 10)];
      assert ('0' + (i / 10) as char) as int == 48 + i / 10;
    } else {
      FirstDigit(i / 10);
    }
  }

  /** The i-th name that is tried. */
  function Candidate(name: string, i: nat): string {
    if i == 0 then name else name + "_" + Digits(i - 1)
  }

  lemma CandidatesDiffer(name: string, i: nat, j: nat)
    requires i != j
    ensures Candidate(name, i) != Candidate(name, j)
  {
    var s, t := Candidate(name, i), Candidate(name, j);
    if s == t && i > 0 && j > 0 {
      assert s[|name| + 1..] == Digits(i - 1) && t[|name| + 1..] == Digits(j - 1);
      DigitsDiffer(i - 1, j - 1);
    }
  }

  ghost predicate AllTaken(names: set<string>, name: string, i: nat) {
    forall j: nat :: j < i ==> Candidate(name, j) in names
  }

  /** Only as many candidates can be taken as there are names. */
  lemma {:induction false} Pigeonhole(names: set<string>, name: string, i: nat)
    requires AllTaken(names, name, i)
    ensures i <= |names|
  {
    if i > 0 {
      var last := Candidate(name, i - 1);
      forall j: nat | j < i - 1 ensures Candidate(name, j) in names - {last} {
        CandidatesDiffer(name, j, i - 1);
      }
      Pigeonhole(names - {last}, name, i - 1);
    }
  }

  /** The first candidate from the i-th on that is not taken. */
  function FirstFree(names: set<string>, name: string, i: nat): string
    requires AllTaken(names, name, i)
    decreases |names| - i
  {
    Pigeonhole(names, name, i);
    if Candidate(name, i) in names then
      Pigeonhole(names, name, i + 1);
      FirstFree(names, name, i + 1)
    else Candidate(name, i)
  }

  function Uncollided(names: set<string>, name: string): string {
    FirstFree(names, name, 0)
  }

  lemma {:induction false} FirstFreeIsFirst(names: set<string>, name: string, i: nat) returns (k: nat)
    requires AllTaken(names, name, i)
    ensures k >= i && FirstFree(names, name, i) == Candidate(name, k) && Candidate(name, k) !in names
    ensures AllTaken(names, name, k)
    decreases |names| - i
  {
    Pigeonhole(names, name, i);
    if Candidate(name, i) in names {
      Pigeonhole(names, name, i + 1);
      k := FirstFreeIsFirst(names, name, i + 1);
    } else {
      k := i;
    }
  }

  /** When the name is taken, the one given ends with the lowest number, counted from 0, that makes it unused. */
  lemma UncollidedSuffix(names: set<string>, name: string) returns (i: nat)
    requires name in names
    ensures Uncollided(names, name) == name + "_" + Digits(i) && name + "_" + Digits(i) !in names
    ensures forall j: nat :: j < i ==> name + "_" + Digits(j) in names
  {
    var k := UncollidedIsFree(names, name);
    assert k > 0;
    i := k - 1;
    forall j: nat | j < i ensures name + "_" + Digits(j) in names {
      assert Candidate(name, j + 1) in names;
    }
  }

  /** The name given is unused; it is the one asked for if that is unused, and otherwise has the lowest free suffix. */
  lemma UncollidedIsFree(names: set<string>, name: string) returns (k: nat)
    ensures Uncollided(names, name) == Candidate(name, k) && Candidate(name, k) !in names && AllTaken(names, name, k)
    ensures name !in names <==> Uncollided(names, name) == name
    ensures name != "" ==> Uncollided(names, name) != ""
    ensures k <= |names|
  {
    k := FirstFreeIsFirst(names, name, 0);
    Pigeonhole(names, name, k);
    assert Candidate(name, 0) == name;
    if k > 0 { CandidatesDiffer(name, 0, k); }
  }
}
