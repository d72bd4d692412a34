/**
 The interval store: an ordered set of half-open blocks [start, end) that stands for a map from
 addresses to (type, info) pairs.
 */
module BlockContainer {

  datatype BlockType = Unknown | Data | String | Code

  datatype Block = Block(start: nat, end: nat, kind: BlockType, info: nat) {
    predicate Contains(address: nat) {
      start <= address < end
    }

    predicate IsEmpty() {
      start >= end
    }
  }

  datatype Option<T> = None | Some(value: T)

  datatype Pair = Pair(kind: BlockType, info: nat)

  // Addresses are 64 bits wide.
  const ADDRESS_LIMIT := 0x1_0000_0000_0000_0000

  const DEMOTED := Pair(Unknown, 0)

  // ---- What a container means

  /** Non-empty blocks in address order that do not overlap: what the set's ordering keeps. */
  ghost predicate Ordered(s: seq<Block>) {
    && (forall i :: 0 <= i < |s| ==> s[i].start < s[i].end)
    && (forall i, j :: 0 <= i < j < |s| ==> s[i].end <= s[j].start)
  }

  /** The pair that the container gives an address, if one of its blocks holds it. */
  function At(s: seq<Block>, address: nat): Option<Pair> {
    if s == [] then None
    else if s[0].Contains(address) then Some(Pair(s[0].kind, s[0].info))
    else At(s[1..], address)
  }

  lemma {:induction false} AtConcat(s: seq<Block>, t: seq<Block>, address: nat)
    ensures At(s + t, address) == if At(s, address).Some? then At(s, address) else At(t, address)
  {
    if s == [] {
      assert s + t == t;
    } else {
      assert (s + t)[1..] == s[1..] + t;
      AtConcat(s[1..], t, address);
    }
  }

  lemma {:induction false} NotHeld(s: seq<Block>, address: nat)
    requires forall i :: 0 <= i < |s| ==> !s[i].Contains(address)
    ensures At(s, address) == None
  {
    if s != [] {
      NotHeld(s[1..], address);
    }
  }

  lemma {:induction false} HeldBy(s: seq<Block>, address: nat) returns (i: nat)
    requires At(s, address).Some?
    ensures i < |s| && s[i].Contains(address) && At(s, address) == Some(Pair(s[i].kind, s[i].info))
  {
    if s[0].Contains(address) {
      i := 0;
    } else {
      i := HeldBy(s[1..], address);
      i := i + 1;
    }
  }

  /** Only one block holds an address, so the container gives it that block's pair. */
  lemma HolderIsUnique(s: seq<Block>, address: nat, i: nat)
    requires Ordered(s) && i < |s| && s[i].Contains(address)
    ensures At(s, address) == Some(Pair(s[i].kind, s[i].info))
    ensures forall j :: 0 <= j < |s| && s[j].Contains(address) ==> j == i
  {
    NotHeld(s[..i], address);
    AtConcat(s[..i], s[i..], address);
    assert s == s[..i] + s[i..];
  }

  /** The addresses at which blocks start. */
  ghost function Starts(s: seq<Block>): set<nat> {
    set b <- s :: b.start
  }

  /** A container has as many blocks as there are addresses at which one starts. */
  lemma {:induction false} StartsCount(s: seq<Block>)
    requires Ordered(s)
    ensures |Starts(s)| == |s|
  {
    if s != [] {
      var init, last := s[..|s| - 1], s[|s| - 1];
      assert s == init + [last];
      StartsCount(init);
      forall b | b in init ensures b.start != last.start {
        var i :| 0 <= i < |init| && init[i] == b;
        assert s[i].end <= last.start;
      }
      assert Starts(s) == Starts(init) + {last.start};
    }
  }

  lemma {:induction false} FewStarts(s: seq<Block>, s': seq<Block>, more: set<nat>)
    requires Ordered(s) && Ordered(s') && Starts(s') <= Starts(s) + more
    ensures |s'| <= |s| + |more|
  {
    StartsCount(s);
    StartsCount(s');
    SubsetSize(Starts(s'), Starts(s) + more);
  }

  lemma {:induction false} SubsetSize(a: set<nat>, b: set<nat>)
    requires a <= b
    ensures |a| <= |b|
  {
    assert b == a + (b - a);
  }

  /** Exactly the addresses of [lo, hi) are held. */
  ghost predicate Covers(s: seq<Block>, lo: nat, hi: nat) {
    forall a: nat :: At(s, a).Some? <==> lo <= a < hi
  }

  /** A container that covers a range has no gap between its blocks and reaches from end to end. */
  lemma CoversIsGapFree(s: seq<Block>, lo: nat, hi: nat)
    requires Ordered(s) && Covers(s, lo, hi) && lo < hi
    ensures |s| > 0 && s[0].start == lo && s[|s| - 1].end == hi
    ensures forall i :: 0 <= i < |s| - 1 ==> s[i].end == s[i + 1].start
  {
    var first := HeldBy(s, lo);
    var last := HeldBy(s, hi - 1);
    forall i | 0 <= i < |s| ensures lo <= s[i].start && s[i].end <= hi {
      HolderIsUnique(s, s[i].start, i);
      HolderIsUnique(s, s[i].end - 1, i);
    }
    forall i | 0 <= i < |s| - 1 ensures s[i].end == s[i + 1].start {
      if s[i].end < s[i + 1].start {
        assert lo <= s[i].end < hi;
        var k := HeldBy(s, s[i].end);
        assert false;
      }
    }
  }

  // ---- Sets of blocks under the ordering

  /** The first block that does not end at or before the address. */
  function LowerBound(s: seq<Block>, address: nat): (i: nat)
    ensures i <= |s|
    ensures forall k :: 0 <= k < i ==> s[k].end <= address
    ensures i < |s| ==> address < s[i].end
  {
    if s == [] || address < s[0].end then 0 else 1 + LowerBound(s[1..], address)
  }

  /** The block equivalent to the address in the set's ordering, |s| when there is none. */
  function Find(s: seq<Block>, address: nat): (i: nat)
    ensures i <= |s|
    ensures i < |s| ==> s[i].Contains(address)
    ensures i == |s| && Ordered(s) ==> forall k :: 0 <= k < |s| ==> !s[k].Contains(address)
  {
    var i := LowerBound(s, address);
    if i < |s| && s[i].start <= address then i else |s|
  }

  function Erase(s: seq<Block>, first: nat, last: nat): seq<Block>
    requires first <= last <= |s|
  {
    s[..first] + s[last..]
  }

  /** std::set::insert: nothing happens when an equivalent block, that is an overlapping one, is there. */
  function Insert(s: seq<Block>, b: Block): seq<Block> {
    var i := LowerBound(s, b.start);
    if i < |s| && s[i].start < b.end then s else s[..i] + [b] + s[i..]
  }

  /** No block of the container shares an address with b. */
  ghost predicate Clear(s: seq<Block>, b: Block) {
    forall i :: 0 <= i < |s| ==> s[i].end <= b.start || b.end <= s[i].start
  }

  function PairOf(b: Block): Pair {
    Pair(b.kind, b.info)
  }

  /** s' holds what s holds and b besides. */
  ghost predicate Adds(s: seq<Block>, s': seq<Block>, b: Block) {
    && Ordered(s')
    && forall a: nat :: At(s', a) == if b.Contains(a) then Some(PairOf(b)) else At(s, a)
  }

  lemma InsertKeepsOrder(s: seq<Block>, b: Block)
    requires Ordered(s) && !b.IsEmpty() && Clear(s, b)
    ensures Ordered(Insert(s, b)) && |Insert(s, b)| == |s| + 1
    ensures var i := LowerBound(s, b.start); Insert(s, b) == s[..i] + ([b] + s[i..])
    ensures var i := LowerBound(s, b.start); forall k :: 0 <= k < i ==> s[k].end <= b.start
  {
    var i := LowerBound(s, b.start);
    BlocksBehind(s, b);
    hide Ordered, Clear;
    assert i < |s| ==> b.end <= s[i].start;
    assert Insert(s, b) == s[..i] + ([b] + s[i..]);
    OrderedParts(s, i);
    OrderedAround(s[..i], b, s[i..]);
  }

  /** From the place of b on, all blocks of the container lie behind it. */
  lemma BlocksBehind(s: seq<Block>, b: Block)
    requires Ordered(s) && !b.IsEmpty() && Clear(s, b)
    ensures forall k :: LowerBound(s, b.start) <= k < |s| ==> b.end <= s[k].start
  {
    var i := LowerBound(s, b.start);
    if i < |s| {
      assert b.end <= s[i].start < s[i].end;
    }
  }

  lemma OrderedParts(s: seq<Block>, i: nat)
    requires Ordered(s) && i <= |s|
    ensures Ordered(s[..i]) && Ordered(s[i..])
    ensures forall j, k :: 0 <= j < i && i <= k < |s| ==> s[j].end <= s[k].start
  {
  }

  lemma OrderedAround(left: seq<Block>, b: Block, right: seq<Block>)
    requires Ordered(left) && Ordered(right) && b.start < b.end
    requires forall i :: 0 <= i < |left| ==> left[i].end <= b.start
    requires forall i :: 0 <= i < |right| ==> b.end <= right[i].start
    ensures Ordered(left + ([b] + right))
  {
    OrderedJoin([b], right);
    OrderedJoin(left, [b] + right);
  }

  lemma OrderedJoin(s: seq<Block>, t: seq<Block>)
    requires Ordered(s) && Ordered(t)
    requires forall i, j :: 0 <= i < |s| && 0 <= j < |t| ==> s[i].end <= t[j].start
    ensures Ordered(s + t)
  {
  }

  lemma InsertAt(left: seq<Block>, right: seq<Block>, b: Block, a: nat)
    requires forall k :: 0 <= k < |left| ==> left[k].end <= b.start
    ensures At(left + ([b] + right), a) == if b.Contains(a) then Some(PairOf(b)) else At(left + right, a)
  {
    AtConcat(left, [b] + right, a);
    AtConcat([b], right, a);
    AtConcat(left, right, a);
    if b.Contains(a) {
      NotHeld(left, a);
    }
  }

  lemma InsertAdds(s: seq<Block>, b: Block)
    requires Ordered(s) && !b.IsEmpty() && Clear(s, b)
    ensures Adds(s, Insert(s, b), b) && |Insert(s, b)| == |s| + 1
  {
    hide Ordered, Clear, Insert;
    InsertKeepsOrder(s, b);
    var i := LowerBound(s, b.start);
    var left, right, t := s[..i], s[i..], Insert(s, b);
    assert s == left + right;
    forall a: nat ensures At(t, a) == if b.Contains(a) then Some(PairOf(b)) else At(s, a) {
      InsertAt(left, right, b, a);
    }
  }

  lemma EraseKeepsOrder(s: seq<Block>, first: nat, last: nat)
    requires Ordered(s) && first <= last <= |s|
    ensures Ordered(Erase(s, first, last)) && |Erase(s, first, last)| == |s| - (last - first)
  {
    var e := Erase(s, first, last);
    forall i | 0 <= i < |e| ensures e[i] == s[if i < first then i else i + (last - first)] {
    }
  }

  lemma StartsJoin(s: seq<Block>, t: seq<Block>)
    ensures Starts(s + t) == Starts(s) + Starts(t)
  {
    assert forall b :: b in s + t <==> b in s || b in t;
  }

  /** What starts in a stretch of the container that is erased no longer does. */
  lemma StartsOfErased(s: seq<Block>, first: nat, last: nat)
    requires Ordered(s) && first < last <= |s|
    ensures forall x: nat :: x in Starts(Erase(s, first, last)) <==>
              x in Starts(s) && !(s[first].start <= x < s[last - 1].end)
    ensures s[first].start in Starts(s)
  {
    var left, mid, right := s[..first], s[first..last], s[last..];
    var lo, hi := s[first].start, s[last - 1].end;
    ErasedSides(s, first, last);
    hide Ordered;
    assert s == left + (mid + right);
    StartsJoin(left, mid + right);
    StartsJoin(mid, right);
    StartsJoin(left, right);
    assert s[first] in s;
    hide Starts;
    assert Starts(s) == Starts(left) + (Starts(mid) + Starts(right));
    assert Starts(Erase(s, first, last)) == Starts(left) + Starts(right);
    forall x: nat ensures x in Starts(Erase(s, first, last)) <==> x in Starts(s) && !(lo <= x < hi) {
      assert x in Starts(s) <==> x in Starts(left) || x in Starts(mid) || x in Starts(right);
      assert x in Starts(Erase(s, first, last)) <==> x in Starts(left) || x in Starts(right);
    }
  }

  lemma ErasedSides(s: seq<Block>, first: nat, last: nat)
    requires Ordered(s) && first < last <= |s|
    ensures forall x <- Starts(s[..first]) :: x < s[first].start
    ensures forall x <- Starts(s[first..last]) :: s[first].start <= x < s[last - 1].end
    ensures forall x <- Starts(s[last..]) :: s[last - 1].end <= x
  {
    forall b | b in s[..first] ensures b.start < s[first].start {
      var i :| 0 <= i < first && s[i] == b;
      assert s[i].end <= s[first].start;
    }
    forall b | b in s[first..last] ensures s[first].start <= b.start < s[last - 1].end {
      var i :| first <= i < last && s[i] == b;
      assert first < i ==> s[first].end <= s[i].start;
      assert i < last - 1 ==> s[i].end <= s[last - 1].start;
    }
    forall b | b in s[last..] ensures s[last - 1].end <= b.start {
      var i :| last <= i < |s| && s[i] == b;
    }
  }

  lemma StartsOfInserted(s: seq<Block>, b: Block)
    requires Ordered(s) && !b.IsEmpty() && Clear(s, b)
    ensures Starts(Insert(s, b)) == Starts(s) + {b.start}
  {
    assert b in [b] && Starts([b]) == {b.start};
    hide Clear, Ordered, Insert, Starts;
    InsertKeepsOrder(s, b);
    var i := LowerBound(s, b.start);
    assert s == s[..i] + s[i..];
    StartsJoin(s[..i], s[i..]);
    StartsJoin(s[..i], [b] + s[i..]);
    StartsJoin([b], s[i..]);
  }

  /**
   Blocks that start at x are swallowed by an unknown block that ends at the given address: everything from there up
   to x has the same pair.
   */
  ghost predicate Swallows(s: seq<Block>, end: nat, pair: Pair, x: nat) {
    pair.kind == Unknown && end <= x && forall y: nat :: end <= y <= x ==> At(s, y) == Some(pair)
  }

  lemma SwallowsFrom(s: seq<Block>, k: nat, b: Block, x: nat)
    requires Ordered(s) && k < |s| && b.end == s[k].start && CanMerge(s[k], b) && s[k].end <= x
    ensures Swallows(Erase(s, k, k + 1), s[k].end, PairOf(s[k]), x) <==> Swallows(s, b.end, PairOf(b), x)
  {
    hide At, Ordered;
    var e := Erase(s, k, k + 1);
    BlockIsNotEmpty(s, k);
    if Swallows(e, s[k].end, PairOf(s[k]), x) {
      forall y: nat | b.end <= y <= x ensures At(s, y) == Some(PairOf(b)) {
        if s[k].Contains(y) {
          HolderIsUnique(s, y, k);
        } else {
          EraseAt(s, k, k + 1, y);
        }
      }
    }
    if Swallows(s, b.end, PairOf(b), x) {
      forall y: nat | s[k].end <= y <= x ensures At(e, y) == Some(PairOf(s[k])) {
        EraseAt(s, k, k + 1, y);
      }
    }
  }

  lemma BlockIsNotEmpty(s: seq<Block>, i: nat)
    requires Ordered(s) && i < |s|
    ensures s[i].start < s[i].end
  {
  }

  /** Where absorbing the right-hand neighbour leaves the starts. */
  lemma MergeStarts(s: seq<Block>, k: nat, b: Block, s': seq<Block>)
    requires Ordered(s) && k < |s| && !b.IsEmpty() && b.end == s[k].start && CanMerge(s[k], b) && Clear(s, b)
    requires forall x: nat :: x in Starts(s') <==>
               x == b.start
               || (x in Starts(Erase(s, k, k + 1)) && !Swallows(Erase(s, k, k + 1), s[k].end, PairOf(s[k]), x))
    ensures forall x: nat :: x in Starts(s') <==> x == b.start || (x in Starts(s) && !Swallows(s, b.end, PairOf(b), x))
  {
    hide At, Starts;
    StartsOfErased(s, k, k + 1);
    forall x: nat ensures x in Starts(s') <==> x == b.start || (x in Starts(s) && !Swallows(s, b.end, PairOf(b), x)) {
      if s[k].Contains(x) {
        MergedIsSwallowed(s, k, b, x);
      } else if s[k].end <= x {
        SwallowsFrom(s, k, b, x);
      }
    }
  }

  lemma MergedIsSwallowed(s: seq<Block>, k: nat, b: Block, x: nat)
    requires Ordered(s) && k < |s| && b.end == s[k].start && CanMerge(s[k], b) && s[k].Contains(x)
    ensures Swallows(s, b.end, PairOf(b), x)
  {
    forall y: nat | b.end <= y <= x ensures At(s, y) == Some(PairOf(b)) {
      HolderIsUnique(s, y, k);
    }
  }

  /** Where the block at its end cannot be merged with b, nothing is swallowed. */
  lemma NothingSwallowed(s: seq<Block>, b: Block, x: nat)
    requires Ordered(s) && !b.IsEmpty() && Clear(s, b)
    requires var k := Find(s, b.end); k < |s| ==> !CanMerge(s[k], b)
    ensures Find(s, b.end) < |s| ==> s[Find(s, b.end)].start == b.end
    ensures !Swallows(s, b.end, PairOf(b), x)
  {
    hide At;
    var k := Find(s, b.end);
    if k < |s| {
      HolderIsUnique(s, b.end, k);
    } else {
      NotHeld(s, b.end);
    }
  }

  /** An address is held by the blocks of a stretch only from its start to its end, and there by no others. */
  lemma StretchHolds(s: seq<Block>, first: nat, last: nat, a: nat)
    requires Ordered(s) && first < last <= |s|
    ensures if s[first].start <= a < s[last - 1].end then At(s[..first], a) == None && At(s[last..], a) == None
            else At(s[first..last], a) == None
  {
    if s[first].start <= a < s[last - 1].end {
      NotHeld(s[..first], a);
      NotHeld(s[last..], a);
    } else {
      var mid := s[first..last];
      forall i | 0 <= i < |mid| ensures !mid[i].Contains(a) {
        assert mid[i] == s[first + i];
        assert first < first + i ==> s[first].end <= s[first + i].start;
        assert first + i < last - 1 ==> s[first + i].end <= s[last - 1].start;
      }
      NotHeld(mid, a);
    }
  }

  /** The blocks of a stretch of the container are gone, and only they. */
  lemma EraseAt(s: seq<Block>, first: nat, last: nat, a: nat)
    requires Ordered(s) && first < last <= |s|
    ensures At(Erase(s, first, last), a) == if s[first].start <= a < s[last - 1].end then None else At(s, a)
  {
    hide Ordered, At;
    var left, mid, right := s[..first], s[first..last], s[last..];
    assert s == left + (mid + right);
    AtConcat(left, mid + right, a);
    AtConcat(mid, right, a);
    AtConcat(left, right, a);
    StretchHolds(s, first, last, a);
  }

  /** The blocks tile [lo, hi): each begins where the one before it ends. */
  ghost predicate Tiles(s: seq<Block>, lo: nat, hi: nat) {
    && Ordered(s) && |s| > 0 && s[0].start == lo && s[|s| - 1].end == hi
    && forall i :: 0 <= i < |s| - 1 ==> s[i].end == s[i + 1].start
  }

  lemma {:induction false} TilesCovers(s: seq<Block>, lo: nat, hi: nat)
    requires Tiles(s, lo, hi)
    ensures Covers(s, lo, hi) && lo < hi
  {
    if |s| > 1 {
      assert Tiles(s[1..], s[0].end, hi);
      TilesCovers(s[1..], s[0].end, hi);
    } else {
      assert s[1..] == [];
    }
  }

  lemma CoversTiles(s: seq<Block>, lo: nat, hi: nat)
    requires Ordered(s) && Covers(s, lo, hi) && lo < hi
    ensures Tiles(s, lo, hi)
  {
    CoversIsGapFree(s, lo, hi);
  }

  /** In a tiling every address of the range is found in its block. */
  lemma FindInTiles(s: seq<Block>, lo: nat, hi: nat, address: nat)
    requires Tiles(s, lo, hi) && lo <= address < hi
    ensures Find(s, address) < |s| && At(s, address) == Some(PairOf(s[Find(s, address)]))
    ensures forall j :: 0 <= j < |s| && s[j].Contains(address) ==> j == Find(s, address)
  {
    TilesCovers(s, lo, hi);
    var i := HeldBy(s, address);
    HolderIsUnique(s, address, Find(s, address));
  }

  /** Where none of its addresses is held, a block is clear of the container. */
  lemma ClearIfFree(s: seq<Block>, b: Block)
    requires Ordered(s) && !b.IsEmpty() && forall a: nat :: b.Contains(a) ==> At(s, a) == None
    ensures Clear(s, b)
  {
    forall i | 0 <= i < |s| ensures s[i].end <= b.start || b.end <= s[i].start {
      var a := if s[i].start < b.start then b.start else s[i].start;
      if s[i].Contains(a) {
        HolderIsUnique(s, a, i);
        assert !b.Contains(a);
      }
    }
  }

  lemma NextStartsThere(s: seq<Block>, b: Block)
    requires Ordered(s) && !b.IsEmpty() && Clear(s, b)
    ensures Find(s, b.end) < |s| ==> s[Find(s, b.end)].start == b.end
  {
  }

  predicate CanMerge(b1: Block, b2: Block) {
    b1.kind == Unknown && b1.kind == b2.kind && b1.info == b2.info
  }

  /** Absorbing the right-hand neighbour n into b and inserting the whole is inserting b. */
  lemma MergeAdds(s: seq<Block>, k: nat, b: Block, s': seq<Block>)
    requires Ordered(s) && k < |s| && !b.IsEmpty() && b.end == s[k].start && CanMerge(s[k], b)
    requires Adds(Erase(s, k, k + 1), s', s[k].(start := b.start))
    ensures Adds(s, s', b)
  {
    forall a: nat ensures At(s', a) == if b.Contains(a) then Some(PairOf(b)) else At(s, a) {
      EraseAt(s, k, k + 1, a);
      if s[k].Contains(a) {
        HolderIsUnique(s, a, k);
      }
    }
  }

  lemma MergeIsClear(s: seq<Block>, k: nat, b: Block)
    requires Ordered(s) && k < |s| && !b.IsEmpty() && b.end == s[k].start && Clear(s, b)
    ensures Clear(Erase(s, k, k + 1), s[k].(start := b.start))
  {
    var e := Erase(s, k, k + 1);
    forall i | 0 <= i < |e| ensures e[i].end <= b.start || s[k].end <= e[i].start {
      var j := if i < k then i else i + 1;
      assert e[i] == s[j];
      assert j < k ==> s[j].end <= s[k].start;
      assert k < j ==> s[k].end <= s[j].start;
    }
  }

  // ---- What the operations do

  /** The pair of an address after a mark, s being the container before it. */
  ghost function MarkedAt(s: seq<Block>, start: nat, end: nat, kind: BlockType, info: nat, a: nat): Option<Pair>
    requires start < end
  {
    if start <= a < end then Some(Pair(kind, info))
    else if Find(s, start) < |s| && s[Find(s, start)].start <= a < start then Some(DEMOTED)
    else if Find(s, end - 1) < |s| && end <= a < s[Find(s, end - 1)].end then Some(DEMOTED)
    else At(s, a)
  }

  /**
   Where blocks start after a mark. What lies before the range is as it was. The marked block starts at the range, or
   where the demoted rest before it does when it is as unknown as that rest. A demoted rest after the range starts a
   block unless the marked block takes it in. The last block of these, if it is unknown, swallows the blocks after it
   that have its pair.
   */
  ghost predicate StartsMarked(s: seq<Block>, start: nat, end: nat, kind: BlockType, info: nat, x: nat)
    requires start < end
  {
    && Find(s, start) < |s| && Find(s, end - 1) < |s|
    && var first, last, pair := s[Find(s, start)], s[Find(s, end - 1)], Pair(kind, info);
       || (x in Starts(s) && x <= first.start)
       || (x == start && !(first.start < start && pair == DEMOTED))
       || (x == end && end < last.end && pair != DEMOTED)
       || (x in Starts(s) && last.end <= x && !Swallows(s, last.end, if end < last.end then DEMOTED else pair, x))
  }

  /**
   Marking [start, end): its addresses get the pair, what is left of the blocks at its two ends is demoted,
   all other addresses keep their pairs, and the blocks start exactly where they should.
   */
  ghost predicate MarkStep(s: seq<Block>, s': seq<Block>, start: nat, end: nat, kind: BlockType, info: nat)
    requires start < end
  {
    && (forall a: nat :: At(s', a) == MarkedAt(s, start, end, kind, info, a))
    && forall x: nat :: x in Starts(s') <==> StartsMarked(s, start, end, kind, info, x)
  }

  /** The pair of an address after info, b being the block that holds the address given to info. */
  ghost function InformedAt(s: seq<Block>, b: Block, address: nat, kind: BlockType, info: nat, a: nat): Option<Pair> {
    if address > b.start then
      if address <= a < b.end then Some(Pair(kind, info)) else At(s, a)
    else
      if b.Contains(a) then Some(Pair(b.kind, info)) else At(s, a)
  }

  /**
   Where blocks start after info: the rest of the block from the argument on is a block of its own, unless both parts
   are unknown with info 0; the whole block remains one when the argument is its start. The blocks after it are
   swallowed where they have the new unknown pair, and where they are unknown with info 0 they become one.
   */
  ghost predicate StartsInformed(s: seq<Block>, b: Block, address: nat, kind: BlockType, info: nat, x: nat) {
    if address > b.start then
      || (x in Starts(s) && x <= b.start)
      || (x == address && !(PairOf(b) == DEMOTED && Pair(kind, info) == DEMOTED))
      || (x in Starts(s) && b.end <= x && !Swallows(s, b.end, Pair(kind, info), x)
          && (x == b.end || !Swallows(s, b.end, DEMOTED, x)))
    else
      x in Starts(s) && (x <= b.start || (b.end <= x && !Swallows(s, b.end, Pair(b.kind, info), x)))
  }

  /**
   Info changes the addresses from its argument to the end of the block, or the info of a whole block; nothing
   else. Blocks start exactly where they should.
   */
  ghost predicate InfoStep(s: seq<Block>, s': seq<Block>, address: nat, kind: BlockType, info: nat) {
    && Find(s, address) < |s|
    && (forall a: nat :: At(s', a) == InformedAt(s, s[Find(s, address)], address, kind, info, a))
    && forall x: nat :: x in Starts(s') <==> StartsInformed(s, s[Find(s, address)], address, kind, info, x)
  }

  datatype InfoOutcome = NoBlock | Informed | InvalidBlock

  class Container {
    var container: seq<Block>

    constructor ()
      ensures container == []
    {
      container := [];
    }

    /** The block holding the address; in a gap the first block, and past the last block none. */
    method Get(address: nat) returns (it: nat)
      requires Ordered(container)
      ensures it <= |container|
      ensures Find(container, address) < |container| ==> it == Find(container, address)
      ensures Find(container, address) == |container| ==>
                it == if LowerBound(container, address) == |container| then |container| else 0
    {
      it := LowerBound(container, address);
      while it < |container|
        invariant it <= LowerBound(container, address)
        invariant it == |container| <==> LowerBound(container, address) == |container|
        invariant Find(container, address) < |container| ==> it == Find(container, address)
        decreases it
      {
        if container[it].Contains(address) { break; }
        if it == 0 { break; }
        it := it - 1;
      }
    }

    /** Inserts a block, absorbing the right-hand neighbours it can be merged with. */
    method DoInsert(b: Block)
      requires Ordered(container) && !b.IsEmpty() && Clear(container, b)
      modifies this
      ensures Adds(old(container), container, b) && |container| <= |old(container)| + 1
      ensures forall x: nat :: x in Starts(container) <==>
                x == b.start || (x in Starts(old(container)) && !Swallows(old(container), b.end, PairOf(b), x))
      ensures old(container) == [] ==> container == [b]
      decreases |container|
    {
      hide Starts, Swallows, Ordered, At, Adds, Clear;
      var it := Find(container, b.end);
      NextStartsThere(container, b);
      if it < |container| && CanMerge(container[it], b) {
        var mb := container[it].(start := b.start);
        MergeIsClear(container, it, b);
        EraseKeepsOrder(container, it, it + 1);
        ghost var before := container;
        container := Erase(container, it, it + 1);
        DoInsert(mb);
        MergeAdds(before, it, b, container);
        MergeStarts(before, it, b, container);
        return;
      }
      forall x: nat ensures !Swallows(container, b.end, PairOf(b), x) {
        NothingSwallowed(container, b, x);
      }
      InsertAdds(container, b);
      StartsOfInserted(container, b);
      container := Insert(container, b);
    }

    /** Marks a range. The error of the source for start > end is ok == false. */
    method Mark(start: nat, end: nat, kind: BlockType, info: nat, ghost lo: nat, ghost hi: nat) returns (ok: bool)
      requires start <= end ==> start < end && lo <= start && end <= hi
      requires container == [] || Tiles(container, lo, hi)
      modifies this
      ensures ok <==> start <= end
      ensures !ok ==> container == old(container)
      ensures ok && old(container) == [] ==> container == [Block(start, end, kind, info)]
      ensures ok && old(container) != [] ==>
                && Tiles(container, lo, hi) && MarkStep(old(container), container, start, end, kind, info)
                && |container| <= |old(container)| + 2
    {
      hide Ordered, Clear, Tiles, Covers, At, Find, LowerBound, Starts, StartsFilled, StartsMarked;
      if start > end { return false; }
      ok := true;
      ghost var before := container;
      StartMark(before, start, end, lo, hi);
      CutStarts(before, start, end);
      var begit := Get(start);
      var endit := Get(end - 1);

      var begbl, endbl: Option<Block> := None, None;
      if begit < |container| {
        var b := container[begit].(kind := Unknown, info := 0, end := start);
        if !b.IsEmpty() { begbl := Some(b); }
      }
      if endit < |container| {
        var b := container[endit].(kind := Unknown, info := 0, start := end);
        if !b.IsEmpty() { endbl := Some(b); }
      }

      if begit < |container| && endit < |container| {
        container := Erase(container, begit, endit + 1);
      } else {
        // For a range inside the tiling either both blocks are found or, in an empty container, none.
        assert begit == |container| && endit == |container|;
      }
      forall a: nat | InGap(begbl, endbl, Block(start, end, kind, info), a) ensures At(container, a) == None {
        if before != [] {
          assert container == Cut(before, Find(before, start), Find(before, end - 1));
          assert before[Find(before, start)].start <= a < before[Find(before, end - 1)].end;
        }
      }
      Refill(begbl, endbl, Block(start, end, kind, info));
      if before != [] {
        MarkedEverywhere(before, container, start, end, kind, info, lo, hi);
        MarkedStarts(before, start, end, kind, info, begbl, endbl);
      }
    }

    /**
     Marks a range given by its size; addresses are 64-bit, so a range past their end is an error, not a wrapped
     one.
     */
    method MarkSize(start: nat, size: nat, kind: BlockType, info: nat, ghost lo: nat, ghost hi: nat) returns (ok: bool)
      requires start < ADDRESS_LIMIT && 0 < size < ADDRESS_LIMIT && hi < ADDRESS_LIMIT
      requires start + size < ADDRESS_LIMIT ==> lo <= start && start + size <= hi
      requires container == [] || Tiles(container, lo, hi)
      modifies this
      ensures ok <==> start + size < ADDRESS_LIMIT
      ensures !ok ==> container == old(container)
      ensures ok && old(container) == [] ==> container == [Block(start, start + size, kind, info)]
      ensures ok && old(container) != [] ==>
                && Tiles(container, lo, hi) && MarkStep(old(container), container, start, start + size, kind, info)
                && |container| <= |old(container)| + 2
    {
      hide Starts, At, Find, Tiles, LowerBound;
      ok := Mark(start, (start + size) % ADDRESS_LIMIT, kind, info, lo, hi);
    }

    /** Sets the info of an address: of a whole block when it starts there, else of the rest of its block. */
    method Info(address: nat, kind: BlockType, info: nat, ghost lo: nat, ghost hi: nat) returns (outcome: InfoOutcome)
      requires container == [] || Tiles(container, lo, hi)
      modifies this
      ensures outcome == (if old(container) == [] || address >= hi then NoBlock
                          else if address < lo then InvalidBlock else Informed)
      ensures old(container) != [] ==> Tiles(container, lo, hi)
      ensures outcome != Informed ==> container == old(container)
      ensures outcome == Informed ==>
                InfoStep(old(container), container, address, kind, info) && |container| <= |old(container)| + 1
    {
      hide Ordered, Clear, Tiles, Covers, Starts, InfoStep, MarkStep;
      TilesAreOrdered(container, lo, hi);
      GetInTiles(container, lo, hi, address);
      ghost var before := container;
      var begit := Get(address);
      if begit == |container| { return NoBlock; }
      var b := container[begit];
      if address > b.start {
        BlockInRange(before, lo, hi, begit);
        var ok := Mark(b.start, address, b.kind, b.info, lo, hi);
        ghost var middle := container;
        TilesAreOrdered(middle, lo, hi);
        ok := Mark(address, b.end, kind, info, lo, hi);
        TilesAreOrdered(container, lo, hi);
        InfoSplits(before, middle, container, lo, hi, begit, address, kind, info);
        outcome := Informed;
      } else if address == b.start {
        BlockInRange(before, lo, hi, begit);
        var ok := Mark(b.start, b.end, b.kind, info, lo, hi);
        TilesAreOrdered(container, lo, hi);
        InfoOfWhole(before, container, lo, hi, begit, kind, info);
        outcome := Informed;
      } else {
        outcome := InvalidBlock;
      }
    }

    /** Fills the gap left by the erased blocks: demoted remains at both ends, the new block in between. */
    method Refill(begbl: Option<Block>, endbl: Option<Block>, b: Block)
      requires Ordered(container) && !b.IsEmpty()
      requires begbl.Some? ==> !begbl.value.IsEmpty() && begbl.value.end == b.start && PairOf(begbl.value) == DEMOTED
      requires endbl.Some? ==> !endbl.value.IsEmpty() && endbl.value.start == b.end && PairOf(endbl.value) == DEMOTED
      requires forall a: nat :: InGap(begbl, endbl, b, a) ==> At(container, a) == None
      modifies this
      ensures Ordered(container) && |container| <= |old(container)| + 3
      ensures forall x: nat :: x in Starts(container) <==> StartsFilled(old(container), begbl, endbl, b, x)
      ensures forall a: nat :: At(container, a) ==
                if begbl.Some? && begbl.value.Contains(a) then Some(DEMOTED)
                else if endbl.Some? && endbl.value.Contains(a) then Some(DEMOTED)
                else if b.Contains(a) then Some(PairOf(b))
                else At(old(container), a)
      ensures old(container) == [] && begbl == None && endbl == None ==> container == [b]
    {
      hide Ordered, Clear, Starts, At, Swallows, StartsFilled;
      var newblock := b;
      ghost var c0 := container;
      if begbl.Some? {
        if CanMerge(begbl.value, newblock) {
          newblock := newblock.(start := begbl.value.start);
        } else {
          ClearIfFree(container, begbl.value);
          DoInsert(begbl.value);
        }
      }
      ghost var c1 := container;
      if endbl.Some? {
        if CanMerge(endbl.value, newblock) {
          newblock := newblock.(end := endbl.value.end);
        } else {
          ClearIfFree(container, endbl.value);
          DoInsert(endbl.value);
        }
      }
      ghost var c2 := container;
      ClearIfFree(container, newblock);
      DoInsert(newblock);
      FilledStarts(c0, c1, c2, container, begbl, endbl, b, newblock);
    }
  }

  /** Where blocks start once the gap is filled. */
  ghost predicate StartsFilled(s: seq<Block>, begbl: Option<Block>, endbl: Option<Block>, b: Block, x: nat) {
    || (begbl.Some? && x == begbl.value.start)
    || (x == b.start && !(begbl.Some? && PairOf(b) == DEMOTED))
    || (endbl.Some? && x == b.end && PairOf(b) != DEMOTED)
    || (x in Starts(s) && if endbl.Some? then !Swallows(s, endbl.value.end, DEMOTED, x)
                          else !Swallows(s, b.end, PairOf(b), x))
  }

  ghost predicate InsertedStarts(s: seq<Block>, s': seq<Block>, b: Block) {
    forall x: nat :: x in Starts(s') <==> x == b.start || (x in Starts(s) && !Swallows(s, b.end, PairOf(b), x))
  }

  lemma SwallowsAlike(s: seq<Block>, s': seq<Block>, end: nat, pair: Pair)
    requires forall a: nat :: end <= a ==> At(s', a) == At(s, a)
    ensures forall x: nat :: Swallows(s', end, pair, x) <==> Swallows(s, end, pair, x)
  {
    hide At;
  }

  lemma SwallowsNone(s: seq<Block>, end: nat, pair: Pair)
    requires At(s, end) != Some(pair)
    ensures forall x: nat :: !Swallows(s, end, pair, x)
  {
    hide At;
  }

  /** The blocks put into the gap one after the other, newblock being the one put in last. */
  lemma FilledStarts(c0: seq<Block>, c1: seq<Block>, c2: seq<Block>, c3: seq<Block>, begbl: Option<Block>,
                     endbl: Option<Block>, b: Block, newblock: Block)
    requires !b.IsEmpty() && forall a: nat :: InGap(begbl, endbl, b, a) ==> At(c0, a) == None
    requires begbl.Some? ==> !begbl.value.IsEmpty() && begbl.value.end == b.start && PairOf(begbl.value) == DEMOTED
    requires endbl.Some? ==> !endbl.value.IsEmpty() && endbl.value.start == b.end && PairOf(endbl.value) == DEMOTED
    requires if begbl.Some? && PairOf(b) != DEMOTED then Adds(c0, c1, begbl.value) && InsertedStarts(c0, c1, begbl.value)
             else c1 == c0
    requires if endbl.Some? && PairOf(b) != DEMOTED then Adds(c1, c2, endbl.value) && InsertedStarts(c1, c2, endbl.value)
             else c2 == c1
    requires InsertedStarts(c2, c3, newblock) && PairOf(newblock) == PairOf(b)
    requires newblock.start == if begbl.Some? && PairOf(b) == DEMOTED then begbl.value.start else b.start
    requires newblock.end == if endbl.Some? && PairOf(b) == DEMOTED then endbl.value.end else b.end
    ensures forall x: nat :: x in Starts(c3) <==> StartsFilled(c0, begbl, endbl, b, x)
  {
    hide At, Starts, Ordered, Swallows;
    assert b.Contains(b.start);
    if begbl.Some? && PairOf(b) != DEMOTED {
      SwallowsNone(c0, b.start, DEMOTED);
    }
    if endbl.Some? {
      SwallowsAlike(c0, c1, endbl.value.end, DEMOTED);
      if PairOf(b) != DEMOTED {
        assert endbl.value.Contains(b.end);
        SwallowsNone(c2, b.end, PairOf(b));
      }
    } else {
      SwallowsAlike(c0, c1, b.end, PairOf(b));
    }
    StartsLieBefore(c0);
  }

  lemma StartsLieBefore(s: seq<Block>)
    ensures forall end: nat, pair, x: nat :: x < end ==> !Swallows(s, end, pair, x)
  {
  }

  ghost predicate InGap(begbl: Option<Block>, endbl: Option<Block>, b: Block, a: nat) {
    b.Contains(a) || (begbl.Some? && begbl.value.Contains(a)) || (endbl.Some? && endbl.value.Contains(a))
  }

  lemma TilesAreOrdered(s: seq<Block>, lo: nat, hi: nat)
    requires s == [] || Tiles(s, lo, hi)
    ensures Ordered(s) && (s == [] ==> forall a: nat :: At(s, a) == None)
    ensures Tiles(s, lo, hi) ==> s != []
  {
  }

  lemma InOrder(s: seq<Block>, i: nat, j: nat, a: nat, b: nat)
    requires Ordered(s) && i < |s| && j < |s| && s[i].Contains(a) && s[j].Contains(b) && a <= b
    ensures i <= j
  {
  }

  /** The container without its blocks from first to last, both included. */
  function Cut(s: seq<Block>, first: nat, last: nat): seq<Block>
    requires first <= last < |s|
  {
    Erase(s, first, last + 1)
  }

  /** The blocks at the two ends of a range, and the container once they and those between them are erased. */
  lemma StartMark(s: seq<Block>, start: nat, end: nat, lo: nat, hi: nat)
    requires start < end && lo <= start && end <= hi && (s == [] || Tiles(s, lo, hi))
    ensures Ordered(s)
    ensures s == [] ==> forall a: nat :: At(s, a) == None
    ensures s != [] ==>
              var b, e := Find(s, start), Find(s, end - 1);
              && b <= e < |s| && s[b].Contains(start) && s[e].Contains(end - 1)
              && Cut(s, b, e) == Erase(s, b, e + 1)
              && Ordered(Cut(s, b, e)) && |Cut(s, b, e)| == |s| - (e + 1 - b)
              && forall a: nat :: At(Cut(s, b, e), a) == if s[b].start <= a < s[e].end then None else At(s, a)
  {
    hide Tiles, Ordered;
    TilesAreOrdered(s, lo, hi);
    if s != [] {
      FindInTiles(s, lo, hi, start);
      FindInTiles(s, lo, hi, end - 1);
      var b, e := Find(s, start), Find(s, end - 1);
      InOrder(s, b, e, start, end - 1);
      EraseKeepsOrder(s, b, e + 1);
      forall a: nat ensures At(Cut(s, b, e), a) == if s[b].start <= a < s[e].end then None else At(s, a) {
        CutAt(s, b, e, a);
      }
    }
  }

  lemma {:induction false} CutStarts(s: seq<Block>, start: nat, end: nat)
    requires start < end && Ordered(s)
    ensures s != [] && Find(s, start) <= Find(s, end - 1) < |s| ==>
              var first, last := s[Find(s, start)], s[Find(s, end - 1)];
              && (forall x: nat :: x in Starts(Cut(s, Find(s, start), Find(s, end - 1))) <==>
                    x in Starts(s) && !(first.start <= x < last.end))
              && first.start in Starts(s)
  {
    hide Starts, Find;
    if Find(s, start) <= Find(s, end - 1) < |s| {
      StartsOfErased(s, Find(s, start), Find(s, end - 1) + 1);
    }
  }

  /** Where blocks start in the filled gap, told by the container before the mark. */
  lemma {:induction false} MarkedStarts(
    s: seq<Block>, start: nat, end: nat, kind: BlockType, info: nat, begbl: Option<Block>, endbl: Option<Block>)
    requires start < end && Ordered(s) && Find(s, start) <= Find(s, end - 1) < |s|
    requires s[Find(s, start)].Contains(start) && s[Find(s, end - 1)].Contains(end - 1)
    requires forall a: nat :: At(Cut(s, Find(s, start), Find(s, end - 1)), a) ==
               if s[Find(s, start)].start <= a < s[Find(s, end - 1)].end then None else At(s, a)
    requires begbl == (var b := s[Find(s, start)];
                       if b.start < start then Some(b.(kind := Unknown, info := 0, end := start)) else None)
    requires endbl == (var b := s[Find(s, end - 1)];
                       if end < b.end then Some(b.(kind := Unknown, info := 0, start := end)) else None)
    ensures forall x: nat :: StartsMarked(s, start, end, kind, info, x) <==>
              StartsFilled(Cut(s, Find(s, start), Find(s, end - 1)), begbl, endbl, Block(start, end, kind, info), x)
  {
    hide At, Starts, Ordered, Find, Swallows, Cut;
    var cut := Cut(s, Find(s, start), Find(s, end - 1));
    var last := s[Find(s, end - 1)];
    CutStarts(s, start, end);
    SwallowsAlike(s, cut, last.end, DEMOTED);
    SwallowsAlike(s, cut, last.end, Pair(kind, info));
    StartsLieBefore(cut);
    var b := Block(start, end, kind, info);
    forall x: nat | StartsMarked(s, start, end, kind, info, x) ensures StartsFilled(cut, begbl, endbl, b, x) {
    }
    forall x: nat | StartsFilled(cut, begbl, endbl, b, x) ensures StartsMarked(s, start, end, kind, info, x) {
      assert x in Starts(cut) ==> x in Starts(s) && (x < s[Find(s, start)].start || last.end <= x);
    }
  }

  lemma CutAt(s: seq<Block>, first: nat, last: nat, a: nat)
    requires Ordered(s) && first <= last < |s|
    ensures At(Cut(s, first, last), a) == if s[first].start <= a < s[last].end then None else At(s, a)
  {
    EraseAt(s, first, last + 1, a);
  }

  lemma MarkedEverywhere(
    s: seq<Block>, s': seq<Block>, start: nat, end: nat, kind: BlockType, info: nat, lo: nat, hi: nat)
    requires start < end && lo <= start && end <= hi && Tiles(s, lo, hi) && Ordered(s')
    requires forall a: nat :: At(s', a) == MarkedAt(s, start, end, kind, info, a)
    ensures Tiles(s', lo, hi)
  {
    hide Tiles, Ordered, MarkedAt;
    TilesCovers(s, lo, hi);
    forall a: nat ensures At(s', a).Some? <==> lo <= a < hi {
      MarkedInside(s, start, end, kind, info, lo, hi, a);
    }
    CoversTiles(s', lo, hi);
  }

  lemma MarkedInside(s: seq<Block>, start: nat, end: nat, kind: BlockType, info: nat, lo: nat, hi: nat, a: nat)
    requires start < end && lo <= start && end <= hi && Tiles(s, lo, hi)
    ensures MarkedAt(s, start, end, kind, info, a).Some? <==> At(s, a).Some?
  {
    hide Tiles;
    TilesCovers(s, lo, hi);
    SamePair(s, lo, hi, start, a);
    SamePair(s, lo, hi, end - 1, a);
    FindInTiles(s, lo, hi, start);
    FindInTiles(s, lo, hi, end - 1);
  }

  lemma GetInTiles(s: seq<Block>, lo: nat, hi: nat, address: nat)
    requires s == [] || Tiles(s, lo, hi)
    ensures s != [] && lo <= address < hi ==> Find(s, address) < |s|
    ensures s != [] && address < lo ==> Find(s, address) == |s| && LowerBound(s, address) == 0 && address < s[0].start
    ensures s == [] || address >= hi ==> Find(s, address) == |s| && LowerBound(s, address) == |s|
  {
    if s != [] {
      if lo <= address < hi {
        FindInTiles(s, lo, hi, address);
      } else if address < lo {
        assert s[0].start < s[0].end;
      } else {
        TilesCovers(s, lo, hi);
        var i := LowerBound(s, address);
        if i < |s| {
          HolderIsUnique(s, s[i].end - 1, i);
        }
      }
    }
  }

  lemma BlockInRange(s: seq<Block>, lo: nat, hi: nat, i: nat)
    requires Tiles(s, lo, hi) && i < |s|
    ensures lo <= s[i].start < s[i].end <= hi
    ensures Find(s, s[i].start) == i && Find(s, s[i].end - 1) == i
  {
    TilesCovers(s, lo, hi);
    HolderIsUnique(s, s[i].start, i);
    HolderIsUnique(s, s[i].end - 1, i);
    FindInTiles(s, lo, hi, s[i].start);
    FindInTiles(s, lo, hi, s[i].end - 1);
  }

  /** Where a block ends the next one starts, or the range ends. */
  lemma EndIsStart(s: seq<Block>, lo: nat, hi: nat, i: nat)
    requires Tiles(s, lo, hi) && i < |s|
    ensures s[i].start in Starts(s) && (s[i].end in Starts(s) || s[i].end == hi)
    ensures forall x: nat :: s[i].start < x < s[i].end ==> x !in Starts(s)
    ensures forall x: nat :: x in Starts(s) ==> x < hi
  {
    assert s[i] in s;
    if i + 1 < |s| {
      assert s[i + 1] in s && s[i + 1].start == s[i].end;
    }
    forall x: nat | x in Starts(s) ensures x < hi && !(s[i].start < x < s[i].end) {
      var j :| 0 <= j < |s| && s[j].start == x;
      assert j < |s| - 1 ==> s[j].end <= s[|s| - 1].start;
      assert s[|s| - 1].start < hi;
    }
  }

  lemma FoundHolds(s: seq<Block>, address: nat)
    requires Find(s, address) < |s|
    ensures s[Find(s, address)].Contains(address)
  {
  }

  /** The block that holds an address starts at the last start up to it. */
  lemma FoundStart(s: seq<Block>, lo: nat, hi: nat, address: nat, x: nat)
    requires Tiles(s, lo, hi) && lo <= address < hi && x in Starts(s) && x <= address
    requires forall y: nat :: x < y <= address ==> y !in Starts(s)
    ensures Find(s, address) < |s| && s[Find(s, address)].start == x
  {
    FindInTiles(s, lo, hi, address);
    hide Find, At, Tiles;
    var i := Find(s, address);
    EndIsStart(s, lo, hi, i);
    FoundHolds(s, address);
  }

  /** Adding at most one start adds at most one block. */
  lemma {:induction false} InfoGrows(
    s: seq<Block>, s': seq<Block>, lo: nat, hi: nat, address: nat, kind: BlockType, info: nat)
    requires Tiles(s, lo, hi) && Ordered(s') && InfoStep(s, s', address, kind, info)
    ensures |s'| <= |s| + 1
  {
    hide Starts, At, Find, Swallows;
    assert forall x: nat :: x in Starts(s') ==> x in Starts(s) + {address};
    FewStarts(s, s', {address});
  }

  lemma {:induction false} MarkGrows(s: seq<Block>, s': seq<Block>, start: nat, end: nat, kind: BlockType, info: nat)
    requires start < end && Ordered(s) && Ordered(s') && MarkStep(s, s', start, end, kind, info)
    ensures |s'| <= |s| + 2
  {
    hide Starts, At, Find, Swallows;
    assert forall x: nat :: x in Starts(s') ==> x in Starts(s) + {start, end};
    FewStarts(s, s', {start, end});
  }

  /** Marking a whole block demotes nothing. */
  lemma WholeBlock(s: seq<Block>, lo: nat, hi: nat, b: Block, kind: BlockType, info: nat, a: nat)
    requires Tiles(s, lo, hi) && b in s
    ensures b.start < b.end
    ensures MarkedAt(s, b.start, b.end, b.kind, info, a) == InformedAt(s, b, b.start, kind, info, a)
  {
    var i :| 0 <= i < |s| && s[i] == b;
    BlockInRange(s, lo, hi, i);
  }

  /**
   Marking the first part of a block with its own pair and then the second part with a new one: the first mark
   demotes the second part, and what the second mark demotes had already been demoted.
   */
  lemma SplitInTwo(
    s: seq<Block>, middle: seq<Block>, lo: nat, hi: nat, b: Block, address: nat, kind: BlockType, info: nat, a: nat)
    requires Tiles(s, lo, hi) && Tiles(middle, lo, hi) && b in s && b.start < address < b.end
    requires forall x: nat :: At(middle, x) == MarkedAt(s, b.start, address, b.kind, b.info, x)
    ensures MarkedAt(middle, address, b.end, kind, info, a) == InformedAt(s, b, address, kind, info, a)
  {
    hide Tiles, Ordered, At, Find, LowerBound;
    var i :| 0 <= i < |s| && s[i] == b;
    BlockInRange(s, lo, hi, i);
    FirstPart(s, lo, hi, i, address, a);
    FirstPart(s, lo, hi, i, address, address);
    FirstPart(s, lo, hi, i, address, b.end - 1);
    SamePair(middle, lo, hi, address, a);
    SamePair(middle, lo, hi, b.end - 1, a);
  }

  /** Where blocks start once the first part of a block has been marked with its own pair. */
  lemma FirstPartStarts(s: seq<Block>, lo: nat, hi: nat, i: nat, address: nat, x: nat)
    requires Tiles(s, lo, hi) && i < |s| && s[i].start < address < s[i].end
    ensures StartsMarked(s, s[i].start, address, s[i].kind, s[i].info, x) <==>
            || (x in Starts(s) && x <= s[i].start)
            || (x == address && PairOf(s[i]) != DEMOTED)
            || (x in Starts(s) && s[i].end <= x && !Swallows(s, s[i].end, DEMOTED, x))
  {
    BlockInRange(s, lo, hi, i);
    FindInTiles(s, lo, hi, address - 1);
    EndIsStart(s, lo, hi, i);
    hide Find, At, Tiles, Starts, Swallows;
  }

  /** Info of a whole block is a mark of the block. */
  lemma InfoOfWhole(s: seq<Block>, s': seq<Block>, lo: nat, hi: nat, i: nat, kind: BlockType, info: nat)
    requires Tiles(s, lo, hi) && i < |s| && s[i].start < s[i].end
    requires MarkStep(s, s', s[i].start, s[i].end, s[i].kind, info) && Ordered(s')
    ensures InfoStep(s, s', s[i].start, kind, info) && |s'| <= |s| + 1
  {
    hide Find, At, Tiles, Starts, Swallows, InformedAt, MarkedAt;
    var b := s[i];
    BlockInRange(s, lo, hi, i);
    EndIsStart(s, lo, hi, i);
    assert b in s;
    forall a: nat ensures At(s', a) == InformedAt(s, b, b.start, kind, info, a) {
      WholeBlock(s, lo, hi, b, kind, info, a);
    }
    InfoGrows(s, s', lo, hi, b.start, kind, info);
  }

  /** The two blocks at the ends of the second part of a block, once the first part has been marked. */
  lemma SecondPartEnds(s: seq<Block>, middle: seq<Block>, lo: nat, hi: nat, i: nat, address: nat)
    requires Tiles(s, lo, hi) && Tiles(middle, lo, hi) && i < |s| && s[i].start < address < s[i].end
    requires MarkStep(s, middle, s[i].start, address, s[i].kind, s[i].info)
    ensures Find(middle, address) < |middle| && Find(middle, s[i].end - 1) < |middle|
    ensures middle[Find(middle, address)].start == if PairOf(s[i]) == DEMOTED then s[i].start else address
    ensures var end := middle[Find(middle, s[i].end - 1)].end;
            && s[i].end <= end && (s[i].end in Starts(middle) || s[i].end == hi ==> end == s[i].end)
            && (s[i].end !in Starts(middle) && s[i].end < hi ==> s[i].end < end)
            && (end in Starts(middle) || end == hi)
            && (forall x: nat :: s[i].end <= x < end ==> x !in Starts(middle) && At(middle, x) == At(middle, s[i].end))
  {
    hide At, Starts, Swallows, StartsMarked, MarkedAt, Tiles, Find, LowerBound;
    var b := s[i];
    BlockInRange(s, lo, hi, i);
    EndIsStart(s, lo, hi, i);
    forall x: nat
      ensures x in Starts(middle) && x < b.end ==>
                (x in Starts(s) && x <= b.start) || (x == address && PairOf(b) != DEMOTED)
    {
      FirstPartStarts(s, lo, hi, i, address, x);
    }
    FirstPartStarts(s, lo, hi, i, address, b.start);
    FirstPartStarts(s, lo, hi, i, address, address);
    FoundStart(middle, lo, hi, address, if PairOf(b) == DEMOTED then b.start else address);
    FindInTiles(middle, lo, hi, b.end - 1);
    var j := Find(middle, b.end - 1);
    FoundHolds(middle, b.end - 1);
    EndIsStart(middle, lo, hi, j);
    forall x: nat | b.end <= x < middle[j].end ensures x !in Starts(middle) && At(middle, x) == At(middle, b.end) {
      SamePair(middle, lo, hi, b.end - 1, x);
      SamePair(middle, lo, hi, b.end - 1, b.end);
    }
    BlockInRange(middle, lo, hi, j);
  }

  lemma SplitStarts(s: seq<Block>, middle: seq<Block>, lo: nat, hi: nat, i: nat, address: nat, kind: BlockType, info: nat,
                    x: nat)
    requires Tiles(s, lo, hi) && Tiles(middle, lo, hi) && i < |s| && s[i].start < address < s[i].end
    requires MarkStep(s, middle, s[i].start, address, s[i].kind, s[i].info)
    ensures StartsMarked(middle, address, s[i].end, kind, info, x) <==> StartsInformed(s, s[i], address, kind, info, x)
  {
    hide At, Starts, MarkedAt, Tiles, Find, LowerBound, Swallows;
    var b, pair := s[i], Pair(kind, info);
    SecondPartEnds(s, middle, lo, hi, i, address);
    EndIsStart(s, lo, hi, i);
    FirstPartStarts(s, lo, hi, i, address, x);
    if b.end <= x {
      RestStarts(s, middle, lo, hi, i, address, pair, x);
    }
  }

  /** The starts behind the block, when its second part is marked. */
  lemma RestStarts(s: seq<Block>, middle: seq<Block>, lo: nat, hi: nat, i: nat, address: nat, pair: Pair, x: nat)
    requires Tiles(s, lo, hi) && Tiles(middle, lo, hi) && i < |s| && s[i].start < address < s[i].end <= x
    requires MarkStep(s, middle, s[i].start, address, s[i].kind, s[i].info)
    ensures Find(middle, s[i].end - 1) < |middle|
    ensures var end := middle[Find(middle, s[i].end - 1)].end;
            (|| (x == s[i].end && s[i].end < end && pair != DEMOTED)
             || (x in Starts(middle) && end <= x && !Swallows(middle, end, if s[i].end < end then DEMOTED else pair, x)))
            <==> x in Starts(s) && !Swallows(s, s[i].end, pair, x)
                 && (x == s[i].end || !Swallows(s, s[i].end, DEMOTED, x))
  {
    hide At, Starts, MarkedAt, Tiles, Find, LowerBound, StartsMarked, Swallows;
    var b := s[i];
    SecondPartEnds(s, middle, lo, hi, i, address);
    EndIsStart(s, lo, hi, i);
    SameBehind(s, middle, lo, hi, i, address);
    var end := middle[Find(middle, b.end - 1)].end;
    FirstPartStarts(s, lo, hi, i, address, x);
    FirstPartStarts(s, lo, hi, i, address, b.end);
    FirstPartStarts(s, lo, hi, i, address, end);
    if end == b.end {
      SwallowsAlike(s, middle, b.end, pair);
      NotAtStart(s, b.end, DEMOTED, x);
    } else {
      SwallowedAtStart(s, b.end, x);
      NotAtStart(s, b.end, pair, x);
      NotAtEnd(s, middle, b.end, end, x);
    }
  }

  lemma SameBehind(s: seq<Block>, middle: seq<Block>, lo: nat, hi: nat, i: nat, address: nat)
    requires Tiles(s, lo, hi) && i < |s| && s[i].start < address < s[i].end
    requires MarkStep(s, middle, s[i].start, address, s[i].kind, s[i].info)
    ensures forall a: nat :: s[i].end <= a ==> At(middle, a) == At(s, a)
  {
    hide At, Starts, MarkedAt, Tiles, Find, LowerBound, StartsMarked, Swallows;
    forall a: nat | s[i].end <= a ensures At(middle, a) == At(s, a) {
      FirstPart(s, lo, hi, i, address, a);
    }
  }

  /** What does not swallow the first address swallows nothing. */
  lemma NotAtStart(s: seq<Block>, end: nat, pair: Pair, x: nat)
    ensures !Swallows(s, end, pair, end) ==> !Swallows(s, end, pair, x)
    ensures At(s, end) != Some(pair) ==> !Swallows(s, end, pair, x)
  {
    hide At;
  }

  lemma SwallowedAtStart(s: seq<Block>, end: nat, x: nat)
    ensures Swallows(s, end, DEMOTED, end) <==> At(s, end) == Some(DEMOTED)
  {
    hide At;
  }

  /** With the same pair up to end and another swallowed no further, nothing is swallowed from there. */
  lemma NotAtEnd(s: seq<Block>, middle: seq<Block>, start: nat, end: nat, x: nat)
    requires start <= end && forall a: nat :: start <= a ==> At(middle, a) == At(s, a)
    requires forall a: nat :: start <= a < end ==> At(s, a) == Some(DEMOTED)
    ensures !Swallows(s, start, DEMOTED, end) ==> !Swallows(middle, end, DEMOTED, x)
    ensures start <= x < end ==> Swallows(s, start, DEMOTED, x)
  {
    hide At;
  }

  lemma InfoSplits(s: seq<Block>, middle: seq<Block>, s': seq<Block>, lo: nat, hi: nat, i: nat, address: nat,
                   kind: BlockType, info: nat)
    requires Tiles(s, lo, hi) && Tiles(middle, lo, hi) && Ordered(s') && i < |s| && s[i].start < address < s[i].end
    requires Find(s, address) == i
    requires MarkStep(s, middle, s[i].start, address, s[i].kind, s[i].info)
    requires MarkStep(middle, s', address, s[i].end, kind, info)
    ensures InfoStep(s, s', address, kind, info) && |s'| <= |s| + 1
  {
    hide At, Find, Tiles, Starts, Ordered, StartsMarked, StartsInformed, MarkedAt, InformedAt, Swallows;
    var b := s[i];
    assert b in s;
    forall a: nat ensures At(s', a) == InformedAt(s, b, address, kind, info, a) {
      SplitInTwo(s, middle, lo, hi, b, address, kind, info, a);
    }
    forall x: nat ensures x in Starts(s') <==> StartsInformed(s, b, address, kind, info, x) {
      SplitStarts(s, middle, lo, hi, i, address, kind, info, x);
    }
    InfoGrows(s, s', lo, hi, address, kind, info);
  }

  lemma SamePair(s: seq<Block>, lo: nat, hi: nat, x: nat, a: nat)
    requires Tiles(s, lo, hi) && lo <= x < hi
    ensures Find(s, x) < |s| && (s[Find(s, x)].Contains(a) ==> At(s, a) == At(s, x))
  {
    FindInTiles(s, lo, hi, x);
    if s[Find(s, x)].Contains(a) {
      HolderIsUnique(s, a, Find(s, x));
    }
  }

  lemma FirstPart(s: seq<Block>, lo: nat, hi: nat, i: nat, address: nat, a: nat)
    requires Tiles(s, lo, hi) && i < |s| && s[i].start < address < s[i].end
    ensures MarkedAt(s, s[i].start, address, s[i].kind, s[i].info, a) ==
            if address <= a < s[i].end then Some(DEMOTED) else At(s, a)
  {
    BlockInRange(s, lo, hi, i);
    FindInTiles(s, lo, hi, address - 1);
    if s[i].Contains(a) {
      HolderIsUnique(s, a, i);
    }
  }
}
