/** The CRC register as a machine word, as the source steps it, and as the sixteen coefficients it holds. */
module CrcWords {

  const START: bv16 := 0xFFFF

  // ---- The source's step for one byte

  function Sum(crc: bv16, data: bv8): bv8 {
    ((crc >> 8) as bv8) ^ data
  }

  /** The 8-bit variable x of the source's loop body. */
  function Mixed(crc: bv16, data: bv8): bv8 {
    Sum(crc, data) ^ (Sum(crc, data) >> 4)
  }

  function Spread(crc: bv16, x: bv8): bv16 {
    (crc << 8) ^ ((x as bv16) << 12) ^ ((x as bv16) << 5) ^ (x as bv16)
  }

  function ByteStep(crc: bv16, data: bv8): bv16 {
    Spread(crc, Mixed(crc, data))
  }

  // ---- Coefficients

  /** A polynomial of degree below 16 over two elements; c15 belongs to x^15. */
  datatype Coefficients = Coefficients(
    c15: bool, c14: bool, c13: bool, c12: bool, c11: bool, c10: bool, c9: bool, c8: bool,
    c7: bool, c6: bool, c5: bool, c4: bool, c3: bool, c2: bool, c1: bool, c0: bool)

  datatype Octet = Octet(d7: bool, d6: bool, d5: bool, d4: bool, d3: bool, d2: bool, d1: bool, d0: bool)

  function Register(r: bv16): Coefficients {
    Coefficients(
      r & 0x8000 != 0, r & 0x4000 != 0, r & 0x2000 != 0, r & 0x1000 != 0,
      r & 0x0800 != 0, r & 0x0400 != 0, r & 0x0200 != 0, r & 0x0100 != 0,
      r & 0x0080 != 0, r & 0x0040 != 0, r & 0x0020 != 0, r & 0x0010 != 0,
      r & 0x0008 != 0, r & 0x0004 != 0, r & 0x0002 != 0, r & 0x0001 != 0)
  }

  function Bits(b: bv8): Octet {
    Octet(
      b & 0x80 != 0, b & 0x40 != 0, b & 0x20 != 0, b & 0x10 != 0,
      b & 0x08 != 0, b & 0x04 != 0, b & 0x02 != 0, b & 0x01 != 0)
  }

  /**
   One bit of division by x^16 + x^12 + x^5 + 1: shift, and subtract when the leading coefficient and the bit
   differ.
   */
  function BitStep(r: Coefficients, bit: bool): Coefficients {
    var f := r.c15 != bit;
    Coefficients(r.c14, r.c13, r.c12, r.c11 != f, r.c10, r.c9, r.c8, r.c7, r.c6, r.c5, r.c4 != f, r.c3, r.c2, r.c1, r.c0, f)
  }

  function EightSteps(r: Coefficients, d: Octet): Coefficients {
    BitStep(BitStep(BitStep(BitStep(BitStep(BitStep(BitStep(BitStep(r, d.d7), d.d6), d.d5), d.d4), d.d3), d.d2), d.d1), d.d0)
  }

  // ---- The byte step, coefficient by coefficient

  function SumBits(r: Coefficients, d: Octet): Octet {
    Octet(
      r.c15 != d.d7, r.c14 != d.d6, r.c13 != d.d5, r.c12 != d.d4,
      r.c11 != d.d3, r.c10 != d.d2, r.c9 != d.d1, r.c8 != d.d0)
  }

  function MixBits(s: Octet): Octet {
    Octet(s.d7, s.d6, s.d5, s.d4, s.d3 != s.d7, s.d2 != s.d6, s.d1 != s.d5, s.d0 != s.d4)
  }

  function SpreadBits(r: Coefficients, x: Octet): Coefficients {
    Coefficients(
      r.c7 != x.d3, r.c6 != x.d2, r.c5 != x.d1, (r.c4 != x.d0) != x.d7,
      r.c3 != x.d6, r.c2 != x.d5, r.c1 != x.d4, r.c0 != x.d3,
      x.d2 != x.d7, x.d1 != x.d6, x.d0 != x.d5, x.d4,
      x.d3, x.d2, x.d1, x.d0)
  }

  lemma SumHasBits(r: bv16, d: bv8)
    ensures Bits(Sum(r, d)) == SumBits(Register(r), Bits(d))
  {
    SumBitByBit(r, d);
  }

  lemma SumBitByBit(r: bv16, d: bv8)
    ensures (Sum(r, d) & 0x80 != 0) == ((r & 0x8000 != 0) != (d & 0x80 != 0))
    ensures (Sum(r, d) & 0x40 != 0) == ((r & 0x4000 != 0) != (d & 0x40 != 0))
    ensures (Sum(r, d) & 0x20 != 0) == ((r & 0x2000 != 0) != (d & 0x20 != 0))
    ensures (Sum(r, d) & 0x10 != 0) == ((r & 0x1000 != 0) != (d & 0x10 != 0))
    ensures (Sum(r, d) & 0x08 != 0) == ((r & 0x0800 != 0) != (d & 0x08 != 0))
    ensures (Sum(r, d) & 0x04 != 0) == ((r & 0x0400 != 0) != (d & 0x04 != 0))
    ensures (Sum(r, d) & 0x02 != 0) == ((r & 0x0200 != 0) != (d & 0x02 != 0))
    ensures (Sum(r, d) & 0x01 != 0) == ((r & 0x0100 != 0) != (d & 0x01 != 0))
  {
  }

  lemma MixHasBits(s: bv8)
    ensures Bits(s ^ (s >> 4)) == MixBits(Bits(s))
  {
    MixBitByBit(s);
  }

  lemma MixBitByBit(s: bv8)
    ensures ((s ^ (s >> 4)) & 0x80 != 0) == (s & 0x80 != 0)
    ensures ((s ^ (s >> 4)) & 0x40 != 0) == (s & 0x40 != 0)
    ensures ((s ^ (s >> 4)) & 0x20 != 0) == (s & 0x20 != 0)
    ensures ((s ^ (s >> 4)) & 0x10 != 0) == (s & 0x10 != 0)
    ensures ((s ^ (s >> 4)) & 0x08 != 0) == ((s & 0x08 != 0) != (s & 0x80 != 0))
    ensures ((s ^ (s >> 4)) & 0x04 != 0) == ((s & 0x04 != 0) != (s & 0x40 != 0))
    ensures ((s ^ (s >> 4)) & 0x02 != 0) == ((s & 0x02 != 0) != (s & 0x20 != 0))
    ensures ((s ^ (s >> 4)) & 0x01 != 0) == ((s & 0x01 != 0) != (s & 0x10 != 0))
  {
  }

  lemma SpreadHasBits(r: bv16, x: bv8)
    ensures Register(Spread(r, x)) == SpreadBits(Register(r), Bits(x))
  {
    SpreadHighBits(r, x);
    SpreadLowBits(r, x);
  }

  lemma SpreadHighBits(r: bv16, x: bv8)
    ensures (Spread(r, x) & 0x8000 != 0) == ((r & 0x0080 != 0) != (x & 0x08 != 0))
    ensures (Spread(r, x) & 0x4000 != 0) == ((r & 0x0040 != 0) != (x & 0x04 != 0))
    ensures (Spread(r, x) & 0x2000 != 0) == ((r & 0x0020 != 0) != (x & 0x02 != 0))
    ensures (Spread(r, x) & 0x1000 != 0) == (((r & 0x0010 != 0) != (x & 0x01 != 0)) != (x & 0x80 != 0))
    ensures (Spread(r, x) & 0x0800 != 0) == ((r & 0x0008 != 0) != (x & 0x40 != 0))
    ensures (Spread(r, x) & 0x0400 != 0) == ((r & 0x0004 != 0) != (x & 0x20 != 0))
    ensures (Spread(r, x) & 0x0200 != 0) == ((r & 0x0002 != 0) != (x & 0x10 != 0))
    ensures (Spread(r, x) & 0x0100 != 0) == ((r & 0x0001 != 0) != (x & 0x08 != 0))
  {
  }

  lemma SpreadLowBits(r: bv16, x: bv8)
    ensures (Spread(r, x) & 0x0080 != 0) == ((x & 0x04 != 0) != (x & 0x80 != 0))
    ensures (Spread(r, x) & 0x0040 != 0) == ((x & 0x02 != 0) != (x & 0x40 != 0))
    ensures (Spread(r, x) & 0x0020 != 0) == ((x & 0x01 != 0) != (x & 0x20 != 0))
    ensures (Spread(r, x) & 0x0010 != 0) == (x & 0x10 != 0)
    ensures (Spread(r, x) & 0x0008 != 0) == (x & 0x08 != 0)
    ensures (Spread(r, x) & 0x0004 != 0) == (x & 0x04 != 0)
    ensures (Spread(r, x) & 0x0002 != 0) == (x & 0x02 != 0)
    ensures (Spread(r, x) & 0x0001 != 0) == (x & 0x01 != 0)
  {
  }

  lemma ByteStepHasBits(r: bv16, d: bv8)
    ensures Register(ByteStep(r, d)) == SpreadBits(Register(r), MixBits(SumBits(Register(r), Bits(d))))
  {
    hide Register, Bits, Sum, Spread, SumBits, MixBits, SpreadBits;
    SumHasBits(r, d);
    MixHasBits(Sum(r, d));
    SpreadHasBits(r, Mixed(r, d));
  }

  lemma EightStepsSpread(r: Coefficients, d: Octet)
    ensures EightSteps(r, d) == SpreadBits(r, MixBits(SumBits(r, d)))
  {
  }

  /** The byte step of the source divides by eight bits at once. */
  lemma ByteStepIsEightSteps(r: bv16, d: bv8)
    ensures Register(ByteStep(r, d)) == EightSteps(Register(r), Bits(d))
  {
    hide *;
    ByteStepHasBits(r, d);
    EightStepsSpread(Register(r), Bits(d));
  }

  lemma BitsAreInjective(b: bv8, b': bv8)
    requires Bits(b) == Bits(b')
    ensures b == b'
  {
  }
}
