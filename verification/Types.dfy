/** The type tree: its sizes, its JSON form and its copies. */
module Types {
  import opened FieldNames

  const SIZE_LIMIT := 0x1_0000_0000_0000_0000
  const INT_LIMIT := 0x1_0000_0000

  // size_t
  type U64 = n: nat | n < SIZE_LIMIT

  const RD_NVAL: U64 := SIZE_LIMIT - 1

  datatype TypeId =
    | TNone | TVoid | TBool | TChar | TInt | TFloat | TAsciiString | TWideString
    | TArray | TFunction | TAlias | TStructure | TUnion | TEnum

  /** An object of one of the type classes; the tag is stored apart from the class. */
  datatype Type = Type(tag: TypeId, name: string, body: Body)

  datatype Body =
    | IntBody(size: U64, signed: bool)
    | FloatBody(size: U64, signed: bool)
    | AsciiBody(size: U64)
    | WideBody(size: U64)
    | ArrayBody(count: U64, item: Item)
    | StructBody(fields: seq<Field>)

  datatype Item = NoItem | Item(t: Type)

  datatype Field = Field(name: string, t: Type)

  // ---- Sizes

  /** A sum that is kept in a signed 32-bit integer and read as a size_t in the end. */
  function Truncated(n: nat): U64 {
    var low := n % INT_LIMIT;
    if low < INT_LIMIT / 2 then low else SIZE_LIMIT - INT_LIMIT + low
  }

  /** The size of a type: a product of 64 bits for an array, a sum cut down to 32 bits for a structure. */
  function SizeOf(t: Type): U64
    decreases t, 0
  {
    match t.body
    case IntBody(size, _) => size
    case FloatBody(size, _) => size
    case AsciiBody(size) => size
    case WideBody(size) => size
    case ArrayBody(count, item) => if item.NoItem? then 0 else (count * SizeOf(item.t)) % SIZE_LIMIT
    case StructBody(fields) => Truncated(SumOf(fields))
  }

  /** An array is as large as its items together, as long as 64 bits can say so; else whole turns of 2^64 are lost. */
  lemma ArraySize(t: Type)
    requires t.body.ArrayBody? && t.body.item.Item?
    ensures var product := t.body.count * SizeOf(t.body.item.t);
            && (SizeOf(t) == product <==> product < SIZE_LIMIT)
            && exists k: nat :: SizeOf(t) + k * SIZE_LIMIT == product
  {
    var product := t.body.count * SizeOf(t.body.item.t);
    var k: nat := product / SIZE_LIMIT;
    assert SizeOf(t) + k * SIZE_LIMIT == product;
  }

  function SumOf(fields: seq<Field>): nat
    decreases fields
  {
    if fields == [] then 0 else SumOf(fields[..|fields| - 1]) + SizeOf(fields[|fields| - 1].t)
  }

  /** A value of the signed 32-bit sum, as a size_t. */
  function Extended(n: int): U64
    requires -(INT_LIMIT / 2) <= n < INT_LIMIT / 2
  {
    if n < 0 then SIZE_LIMIT + n else n
  }

  function Narrowed(n: nat): (m: int)
    ensures -(INT_LIMIT / 2) <= m < INT_LIMIT / 2
  {
    var low := n % INT_LIMIT;
    if low < INT_LIMIT / 2 then low else low - INT_LIMIT
  }

  lemma SumStep(p: nat, size: U64)
    ensures Narrowed((Extended(Narrowed(p)) + size) % SIZE_LIMIT) == Narrowed(p + size)
  {
    var e := Extended(Narrowed(p));
    var k := if p % INT_LIMIT < INT_LIMIT / 2 then 0 else INT_LIMIT - 1;
    assert e == p % INT_LIMIT + k * INT_LIMIT;
    WholeTurns(e + size, (e + size) / SIZE_LIMIT * INT_LIMIT);
    WholeTurns(p + size, p / INT_LIMIT - k);
  }

  lemma WholeTurns(n: int, k: int)
    ensures (n - k * INT_LIMIT) % INT_LIMIT == n % INT_LIMIT
  {
    var q := n / INT_LIMIT;
    assert n - k * INT_LIMIT == (q - k) * INT_LIMIT + n % INT_LIMIT;
  }

  /** What a signed 32-bit integer holds, read as a size_t: small numbers, and those next to the largest size_t. */
  predicate Narrow(n: nat) {
    n < INT_LIMIT / 2 || SIZE_LIMIT - INT_LIMIT / 2 <= n < SIZE_LIMIT
  }

  /** The sum survives being cut down exactly when it is narrow. */
  lemma NarrowIsKept(n: nat)
    ensures Truncated(n) == n <==> Narrow(n)
  {
  }

  /** What is left is narrow and differs by whole turns of 2^32, which leaves no choice. */
  lemma TruncatedIsCongruent(n: nat)
    ensures Narrow(Truncated(n)) && Truncated(n) % INT_LIMIT == n % INT_LIMIT
    ensures forall m: U64 :: Narrow(m) && m % INT_LIMIT == n % INT_LIMIT ==> m == Truncated(n)
  {
  }

  /** A structure with a single field, a string of the given size. */
  function OneField(size: U64): Type {
    Type(TStructure, "s", StructBody([Field("f", Type(TAsciiString, "a", AsciiBody(size)))]))
  }

  /** A field of 2^32 bytes leaves a structure of no size at all, one of 2^31 a structure of nearly 2^64 bytes. */
  lemma SizeOfOneField(size: U64)
    ensures SizeOf(OneField(size)) == size <==> Narrow(size)
    ensures SizeOf(OneField(INT_LIMIT)) == 0 && SizeOf(OneField(INT_LIMIT / 2)) == SIZE_LIMIT - INT_LIMIT / 2
  {
    hide OneField, SizeOf;
    OneFieldSum(size);
    OneFieldSum(INT_LIMIT);
    OneFieldSum(INT_LIMIT / 2);
    NarrowIsKept(size);
  }

  lemma OneFieldSum(size: U64)
    ensures SizeOf(OneField(size)) == Truncated(size)
  {
    hide Truncated;
    var fields := OneField(size).body.fields;
    assert fields[..0] == [] && SumOf([]) == 0;
    assert SizeOf(fields[0].t) == size;
    assert SumOf(fields) == size;
  }

  /** Cutting the sum down after each step is the same as doing it once in the end. */
  method StructureSize(fields: seq<Field>) returns (size: U64)
    ensures size == Truncated(SumOf(fields))
    ensures size == SumOf(fields) <==> Narrow(SumOf(fields))
  {
    hide Narrowed, Narrow, Truncated;
    NarrowedNothing();
    var sum: int := 0;
    for i := 0 to |fields|
      invariant sum == Narrowed(SumOf(fields[..i]))
    {
      assert fields[..i + 1][..i] == fields[..i];
      SumStep(SumOf(fields[..i]), SizeOf(fields[i].t));
      sum := Narrowed((Extended(sum) + SizeOf(fields[i].t)) % SIZE_LIMIT);
    }
    assert fields[..|fields|] == fields;
    NarrowedIsTruncated(SumOf(fields));
    NarrowIsKept(SumOf(fields));
    return Extended(sum);
  }

  lemma NarrowedNothing()
    ensures Narrowed(0) == 0
  {
  }

  lemma NarrowedIsTruncated(n: nat)
    ensures Extended(Narrowed(n)) == Truncated(n)
  {
  }
}
