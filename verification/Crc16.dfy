/** The 16-bit CRC over whole messages: byte by byte, and as the remainder of a polynomial division. */
module Crc16 {
  import opened CrcWords

  method Crc(data: seq<bv8>) returns (crc: bv16)
    ensures crc == ByteSteps(START, data)
    ensures List(Register(crc)) == Remainder(Added(BitsOf(data) + Zeros(16), List(Register(START))))
  {
    hide BitsOf, Register, Remainder, Added, Zeros, BitStep, List;
    crc := START;
    for i := 0 to |data|
      invariant crc == ByteSteps(START, data[..i])
    {
      assert data[..i + 1][..i] == data[..i];
      var x: bv8 := ((crc >> 8) as bv8) ^ data[i];
      x := x ^ (x >> 4);
      crc := (crc << 8) ^ ((x as bv16) << 12) ^ ((x as bv16) << 5) ^ (x as bv16);
    }
    assert data[..|data|] == data;
    CrcIsRemainder(START, data);
  }

  /** The CRC of a part of the data; a part that reaches past the end gives 0, and no size means all of it. */
  method CrcOfPart(data: seq<bv8>, offset: nat, size: nat) returns (crc: bv16)
    requires |data| < NO_SIZE && offset < NO_SIZE && size <= NO_SIZE
    requires offset + (if size == NO_SIZE then |data| else size) <= NO_SIZE
    ensures var n := if size == NO_SIZE then |data| else size;
            if offset + n > |data| then crc == 0
            else
              List(Register(crc)) == Remainder(Added(BitsOf(data[offset..offset + n]) + Zeros(16), List(Register(START))))
  {
    var n := if size == NO_SIZE then |data| else size;
    if offset + n > |data| { return 0; }
    crc := Crc(data[offset..offset + n]);
  }

  // The source's RD_NVAL, the largest 64-bit size
  const NO_SIZE := 0xFFFF_FFFF_FFFF_FFFF

  function ByteSteps(crc: bv16, data: seq<bv8>): bv16 {
    if data == [] then crc else ByteStep(ByteSteps(crc, data[..|data| - 1]), data[|data| - 1])
  }

  /** Over a concatenation the CRC of the second part continues from that of the first. */
  lemma {:induction false} CrcContinues(c: bv16, a: seq<bv8>, b: seq<bv8>)
    ensures ByteSteps(c, a + b) == ByteSteps(ByteSteps(c, a), b)
  {
    hide ByteStep;
    if b == [] {
      assert a + b == a;
    } else {
      assert (a + b)[..|a + b| - 1] == a + b[..|b| - 1];
      CrcContinues(c, a, b[..|b| - 1]);
    }
  }

  // ---- Bit by bit

  function BitSteps(r: Coefficients, bits: seq<bool>): Coefficients
    decreases bits
  {
    if bits == [] then r else BitSteps(BitStep(r, bits[0]), bits[1..])
  }

  /** The bits of a byte, most significant first. */
  function OctetList(d: Octet): seq<bool> {
    [d.d7, d.d6, d.d5, d.d4, d.d3, d.d2, d.d1, d.d0]
  }

  function BitsOf(data: seq<bv8>): seq<bool> {
    if data == [] then [] else BitsOf(data[..|data| - 1]) + OctetList(Bits(data[|data| - 1]))
  }

  lemma {:induction false} BitStepsJoin(r: Coefficients, a: seq<bool>, b: seq<bool>)
    ensures BitSteps(r, a + b) == BitSteps(BitSteps(r, a), b)
    decreases a
  {
    hide BitStep;
    if a == [] {
      assert a + b == b;
    } else {
      assert (a + b)[1..] == a[1..] + b;
      BitStepsJoin(BitStep(r, a[0]), a[1..], b);
    }
  }

  lemma OneBit(r: Coefficients, bit: bool)
    ensures BitSteps(r, [bit]) == BitStep(r, bit)
  {
    hide BitStep;
    assert [bit][1..] == [];
    assert BitSteps(BitStep(r, bit), []) == BitStep(r, bit);
  }

  lemma FourSteps(r: Coefficients, a: bool, b: bool, c: bool, d: bool)
    ensures BitSteps(r, [a, b, c, d]) == BitStep(BitStep(BitStep(BitStep(r, a), b), c), d)
  {
    hide BitStep, BitSteps;
    assert [a, b, c, d] == [a, b] + [c, d] && [a, b] == [a] + [b] && [c, d] == [c] + [d];
    var r2 := BitStep(BitStep(r, a), b);
    BitStepsJoin(r, [a, b], [c, d]);
    FirstBit(r, a, [b]);
    OneBit(BitStep(r, a), b);
    FirstBit(r2, c, [d]);
    OneBit(BitStep(r2, c), d);
  }

  lemma OctetSteps(r: Coefficients, d: Octet)
    ensures BitSteps(r, OctetList(d)) == EightSteps(r, d)
  {
    hide BitStep, BitSteps;
    assert OctetList(d) == [d.d7, d.d6, d.d5, d.d4] + [d.d3, d.d2, d.d1, d.d0];
    FourSteps(r, d.d7, d.d6, d.d5, d.d4);
    var r4 := BitSteps(r, [d.d7, d.d6, d.d5, d.d4]);
    FourSteps(r4, d.d3, d.d2, d.d1, d.d0);
    BitStepsJoin(r, [d.d7, d.d6, d.d5, d.d4], [d.d3, d.d2, d.d1, d.d0]);
  }

  lemma FirstBit(r: Coefficients, bit: bool, rest: seq<bool>)
    ensures BitSteps(r, [bit] + rest) == BitSteps(BitStep(r, bit), rest)
  {
    hide BitStep;
    BitStepsJoin(r, [bit], rest);
    OneBit(r, bit);
  }

  /** The byte-at-a-time form computes what dividing bit by bit computes. */
  lemma {:induction false} BytesAreBits(crc: bv16, data: seq<bv8>)
    ensures Register(ByteSteps(crc, data)) == BitSteps(Register(crc), BitsOf(data))
  {
    hide ByteStep, BitStep, OctetList, EightSteps, Register, Bits, BitSteps;
    if data == [] {
      NoBits(Register(crc));
    } else {
      var init, last := data[..|data| - 1], data[|data| - 1];
      BytesAreBits(crc, init);
      BitStepsJoin(Register(crc), BitsOf(init), OctetList(Bits(last)));
      ByteStepIsEightSteps(ByteSteps(crc, init), last);
      OctetSteps(Register(ByteSteps(crc, init)), Bits(last));
    }
  }

  lemma NoBits(r: Coefficients)
    ensures BitSteps(r, []) == r
  {
  }

  // ---- Polynomial division, over polynomials as lists of coefficients, highest power first

  function List(r: Coefficients): (l: seq<bool>)
    ensures |l| == 16
  {
    seq(16, i requires 0 <= i < 16 => CoefficientAt(r, i))
  }

  function CoefficientAt(r: Coefficients, i: nat): bool
    requires i < 16
  {
    if i < 8 then
      if i == 0 then r.c15 else if i == 1 then r.c14 else if i == 2 then r.c13 else if i == 3 then r.c12
      else if i == 4 then r.c11 else if i == 5 then r.c10 else if i == 6 then r.c9 else r.c8
    else
      if i == 8 then r.c7 else if i == 9 then r.c6 else if i == 10 then r.c5 else if i == 11 then r.c4
      else if i == 12 then r.c3 else if i == 13 then r.c2 else if i == 14 then r.c1 else r.c0
  }

  /** x^16 + x^12 + x^5 + 1, the generator of section 2 of ITU-T V.41. */
  function Generator(): (g: seq<bool>)
    ensures |g| == 17 && g[0]
  {
    seq(17, i => GeneratorAt(i))
  }

  predicate GeneratorAt(i: int) {
    i == 0 || i == 4 || i == 11 || i == 16
  }

  function Zeros(n: nat): seq<bool> {
    seq(n, _ => false)
  }

  /** p with q added to its first coefficients; adding and subtracting are the same. */
  function Added(p: seq<bool>, q: seq<bool>): (s: seq<bool>)
    requires |q| <= |p|
    ensures |s| == |p|
  {
    seq(|p|, i requires 0 <= i < |p| => if i < |q| then p[i] != q[i] else p[i])
  }

  /**
   Long division: as long as the dividend is too long, subtract the generator if it starts with 1, then drop the
   lead.
   */
  function Remainder(p: seq<bool>): (r: seq<bool>)
    requires |p| >= 16
    ensures |r| == 16
    decreases |p|
  {
    if |p| == 16 then p
    else Remainder((if p[0] then Added(p, Generator()) else p)[1..])
  }

  lemma HighStepAt(r: Coefficients, bit: bool, i: nat)
    requires i < 8
    ensures CoefficientAt(BitStep(r, bit), i) == (CoefficientAt(r, i + 1) != ((r.c15 != bit) && GeneratorAt(i + 1)))
  {
  }

  lemma LowStepAt(r: Coefficients, bit: bool, i: nat)
    requires 8 <= i < 16
    ensures CoefficientAt(BitStep(r, bit), i) ==
            ((i < 15 && CoefficientAt(r, i + 1)) != ((r.c15 != bit) && GeneratorAt(i + 1)))
  {
  }

  lemma LeadIs(r: Coefficients)
    ensures List(r)[0] == r.c15
  {
  }

  lemma StepAt(r: Coefficients, bit: bool, i: nat)
    requires i < 16
    ensures List(BitStep(r, bit))[i] == ((i < 15 && List(r)[i + 1]) != ((List(r)[0] != bit) && Generator()[i + 1]))
  {
    hide CoefficientAt, BitStep, GeneratorAt;
    LeadIs(r);
    if i < 8 {
      HighStepAt(r, bit, i);
    } else {
      LowStepAt(r, bit, i);
    }
  }

  lemma DivisionStep(r: Coefficients, bits: seq<bool>)
    requires bits != []
    ensures var p := Added(bits + Zeros(16), List(r));
            (if p[0] then Added(p, Generator()) else p)[1..] ==
            Added(bits[1..] + Zeros(16), List(BitStep(r, bits[0])))
  {
    hide List, BitStep, Generator;
    var p := Added(bits + Zeros(16), List(r));
    var q := (if p[0] then Added(p, Generator()) else p)[1..];
    var s := Added(bits[1..] + Zeros(16), List(BitStep(r, bits[0])));
    forall i | 0 <= i < |q| ensures q[i] == s[i] {
      if i < 16 {
        StepAt(r, bits[0], i);
      }
    }
  }

  /**
   Stepping through the bits leaves the remainder of the bits times x^16, the starting register added at their
   head.
   */
  lemma {:induction false} BitsDivide(r: Coefficients, bits: seq<bool>)
    ensures List(BitSteps(r, bits)) == Remainder(Added(bits + Zeros(16), List(r)))
    decreases bits
  {
    hide List, BitStep;
    var p := Added(bits + Zeros(16), List(r));
    if bits == [] {
      assert p == List(r);
    } else {
      DivisionStep(r, bits);
      BitsDivide(BitStep(r, bits[0]), bits[1..]);
    }
  }

  /** The CRC register holds the remainder of the message times x^16, the starting value added at its head. */
  lemma CrcIsRemainder(crc: bv16, data: seq<bv8>)
    ensures List(Register(ByteSteps(crc, data))) == Remainder(Added(BitsOf(data) + Zeros(16), List(Register(crc))))
  {
    hide *;
    BytesAreBits(crc, data);
    BitsDivide(Register(crc), BitsOf(data));
  }

  // ---- What the CRC detects

  /** Two registers differ in one of the k + 1 lowest coefficients. */
  ghost predicate DifferLow(r: Coefficients, r': Coefficients, k: nat) {
    exists i :: 15 - k <= i < 16 && i >= 0 && List(r)[i] != List(r')[i]
  }

  /** A step moves a difference up by one place, or makes one in the lowest place. */
  lemma StepKeepsDifference(r: Coefficients, r': Coefficients, bit: bool, bit': bool, k: nat)
    requires DifferLow(r, r', k) && k < 15
    ensures DifferLow(BitStep(r, bit), BitStep(r', bit'), k + 1)
  {
    hide List, BitStep, Generator;
    var i :| 15 - k <= i < 16 && i >= 0 && List(r)[i] != List(r')[i];
    StepAt(r, bit, i - 1);
    StepAt(r', bit', i - 1);
    LowestIs(r, bit);
    LowestIs(r', bit');
    assert List(BitStep(r, bit))[15] != List(BitStep(r', bit'))[15]
           || List(BitStep(r, bit))[i - 1] != List(BitStep(r', bit'))[i - 1];
  }

  lemma LowestIs(r: Coefficients, bit: bool)
    ensures List(BitStep(r, bit))[15] == (List(r)[0] != bit)
  {
    StepAt(r, bit, 15);
  }

  lemma {:induction false} StepsKeepDifference(r: Coefficients, r': Coefficients, m: seq<bool>, m': seq<bool>, k: nat)
    requires DifferLow(r, r', k) && |m| == |m'| && k + |m| <= 15
    ensures BitSteps(r, m) != BitSteps(r', m')
    decreases m
  {
    hide BitStep, List;
    if m != [] {
      StepKeepsDifference(r, r', m[0], m'[0], k);
      StepsKeepDifference(BitStep(r, m[0]), BitStep(r', m'[0]), m[1..], m'[1..], k + 1);
    }
  }

  /** Up to 16 bits can be read back from the register that they lead to. */
  lemma {:induction false} FewBitsAreInjective(r: Coefficients, m: seq<bool>, m': seq<bool>)
    requires |m| == |m'| <= 16 && BitSteps(r, m) == BitSteps(r, m')
    ensures m == m'
    decreases m
  {
    hide BitStep, List;
    if m != [] {
      if m[0] == m'[0] {
        FewBitsAreInjective(BitStep(r, m[0]), m[1..], m'[1..]);
        assert m == [m[0]] + m[1..] && m' == [m'[0]] + m'[1..];
      } else {
        LowestIs(r, m[0]);
        LowestIs(r, m'[0]);
        assert DifferLow(BitStep(r, m[0]), BitStep(r, m'[0]), 0);
        StepsKeepDifference(BitStep(r, m[0]), BitStep(r, m'[0]), m[1..], m'[1..], 0);
      }
    }
  }

  lemma {:induction false} BitStepsAreInjective(r: Coefficients, r': Coefficients, bits: seq<bool>)
    requires BitSteps(r, bits) == BitSteps(r', bits)
    ensures r == r'
    decreases bits
  {
    if bits != [] {
      BitStepsAreInjective(BitStep(r, bits[0]), BitStep(r', bits[0]), bits[1..]);
    }
  }

  lemma {:induction false} BitsOfIsInjective(x: seq<bv8>, y: seq<bv8>)
    requires BitsOf(x) == BitsOf(y)
    ensures x == y
  {
    hide Bits;
    if x != [] && y != [] {
      var p, q := OctetList(Bits(x[|x| - 1])), OctetList(Bits(y[|y| - 1]));
      var n := |BitsOf(x)| - 8;
      assert BitsOf(x)[..n] == BitsOf(x[..|x| - 1]) && BitsOf(x)[n..] == p;
      assert BitsOf(y)[..n] == BitsOf(y[..|y| - 1]) && BitsOf(y)[n..] == q;
      SameOctet(x[|x| - 1], y[|y| - 1]);
      BitsOfIsInjective(x[..|x| - 1], y[..|y| - 1]);
      assert x == x[..|x| - 1] + [x[|x| - 1]] && y == y[..|y| - 1] + [y[|y| - 1]];
    }
  }

  lemma SameOctet(a: bv8, b: bv8)
    requires OctetList(Bits(a)) == OctetList(Bits(b))
    ensures a == b
  {
    hide Bits;
    var d, e := Bits(a), Bits(b);
    assert forall i :: 0 <= i < 8 ==> OctetList(d)[i] == OctetList(e)[i];
    assert OctetList(d)[0] == d.d7 && OctetList(e)[0] == e.d7;
    assert d == e;
    BitsAreInjective(a, b);
  }

  /**
   Two messages that differ only within 16 neighbouring bits, at whatever bit those begin, have the same CRC only if
   they are the same.
   */
  lemma BurstIsDetected(
    c: bv16, x: seq<bv8>, y: seq<bv8>, before: seq<bool>, m: seq<bool>, m': seq<bool>, after: seq<bool>)
    requires BitsOf(x) == before + m + after && BitsOf(y) == before + m' + after && |m| == |m'| <= 16
    ensures ByteSteps(c, x) == ByteSteps(c, y) <==> x == y
  {
    hide *;
    if ByteSteps(c, x) == ByteSteps(c, y) {
      var r := Register(c);
      BytesAreBits(c, x);
      BytesAreBits(c, y);
      BitStepsJoin(r, before + m, after);
      BitStepsJoin(r, before + m', after);
      BitStepsAreInjective(BitSteps(r, before + m), BitSteps(r, before + m'), after);
      BitStepsJoin(r, before, m);
      BitStepsJoin(r, before, m');
      FewBitsAreInjective(BitSteps(r, before), m, m');
      BitsOfIsInjective(x, y);
    }
  }

  lemma ThreeSteps(c: bv16, x: bv8, y: bv8, z: bv8)
    ensures ByteSteps(c, [x, y, z]) == ByteStep(ByteStep(ByteStep(c, x), y), z)
  {
    hide ByteStep;
    assert [x, y, z][..2] == [x, y] && [x, y][..1] == [x] && [x][..0] == [];
    assert ByteSteps(c, []) == c;
    assert ByteSteps(c, [x]) == ByteStep(c, x);
  }

  /** Seventeen bits are too many: a change by the generator itself goes unnoticed. */
  lemma GeneratorIsMissed()
    ensures ByteSteps(START, [0x88, 0x10, 0x80]) == ByteSteps(START, [0, 0, 0])
  {
    ThreeSteps(START, 0x88, 0x10, 0x80);
    ThreeSteps(START, 0, 0, 0);
  }

  // ---- A value known from elsewhere

  /** "123456789" in ASCII. */
  const CHECK: seq<bv8> := [0x31, 0x32, 0x33, 0x34, 0x35, 0x36, 0x37, 0x38, 0x39]

  lemma {:induction false} NextByte(data: seq<bv8>, i: nat, crc: bv16, next: bv16)
    requires i < |data| && ByteSteps(START, data[..i]) == crc && ByteStep(crc, data[i]) == next
    ensures ByteSteps(START, data[..i + 1]) == next
  {
    hide ByteStep;
    assert data[..i + 1][..i] == data[..i];
  }

  /** The register after each byte. */
  lemma CheckSteps()
    ensures ByteStep(START, 0x31) == 0xC782 && ByteStep(0xC782, 0x32) == 0x3DBA && ByteStep(0x3DBA, 0x33) == 0x5BCE
    ensures ByteStep(0x5BCE, 0x34) == 0x5349 && ByteStep(0x5349, 0x35) == 0x4560 && ByteStep(0x4560, 0x36) == 0x2EF4
    ensures ByteStep(0x2EF4, 0x37) == 0x7718 && ByteStep(0x7718, 0x38) == 0xA12B && ByteStep(0xA12B, 0x39) == 0x29B1
  {
  }

  /** The check value by which catalogues of CRCs tell this one, with its start value, from its relatives. */
  lemma CheckValue()
    ensures ByteSteps(START, CHECK) == 0x29B1 && ByteSteps(START, []) == 0xFFFF
  {
    CheckSteps();
    hide ByteStep;
    NextByte(CHECK, 0, START, 0xC782);
    NextByte(CHECK, 1, 0xC782, 0x3DBA);
    NextByte(CHECK, 2, 0x3DBA, 0x5BCE);
    NextByte(CHECK, 3, 0x5BCE, 0x5349);
    NextByte(CHECK, 4, 0x5349, 0x4560);
    NextByte(CHECK, 5, 0x4560, 0x2EF4);
    NextByte(CHECK, 6, 0x2EF4, 0x7718);
    NextByte(CHECK, 7, 0x7718, 0xA12B);
    NextByte(CHECK, 8, 0xA12B, 0x29B1);
    assert CHECK[..9] == CHECK;
  }
}
