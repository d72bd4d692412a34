/** Runs of operations on the interval store, and what becomes of the blocks in them. */
module BlockRuns {
  import opened BlockContainer

  // ---- Runs

  datatype Op = MarkOp(start: nat, end: nat, kind: BlockType, info: nat) | InfoOp(address: nat, kind: BlockType, info: nat)

  predicate InRange(op: Op, lo: nat, hi: nat) {
    match op
    case MarkOp(start, end, _, _) => lo <= start < end <= hi
    case InfoOp(address, _, _) => lo <= address < hi
  }

  /** One in-range operation: non-empty blocks in order again, which give every address the pair it should have. */
  ghost predicate Step(s: seq<Block>, s': seq<Block>, op: Op, lo: nat, hi: nat) {
    && Ordered(s') && InRange(op, lo, hi)
    && match op
       case MarkOp(start, end, kind, info) => MarkStep(s, s', start, end, kind, info)
       case InfoOp(address, kind, info) => InfoStep(s, s', address, kind, info)
  }

  function Growth(ops: seq<Op>): nat {
    if ops == [] then 0 else Growth(ops[..|ops| - 1]) + if ops[|ops| - 1].MarkOp? then 2 else 1
  }

  /** A run that starts from one unknown block over the whole range. */
  ghost predicate Run(states: seq<seq<Block>>, ops: seq<Op>, lo: nat, hi: nat) {
    && lo < hi && |states| == |ops| + 1 && states[0] == [Block(lo, hi, Unknown, 0)]
    && forall k :: 0 <= k < |ops| ==> Step(states[k], states[k + 1], ops[k], lo, hi)
  }

  /** The addresses that are held stay the same, so the blocks tile the range again. */
  lemma StepKeepsTiling(s: seq<Block>, s': seq<Block>, op: Op, lo: nat, hi: nat)
    requires Tiles(s, lo, hi) && Step(s, s', op, lo, hi)
    ensures Tiles(s', lo, hi)
  {
    hide Tiles, Ordered, At, Find, LowerBound;
    match op
    case MarkOp(start, end, kind, info) =>
      MarkedEverywhere(s, s', start, end, kind, info, lo, hi);
    case InfoOp(address, kind, info) =>
      TilesCovers(s, lo, hi);
      FindInTiles(s, lo, hi, address);
      TilesAreOrdered(s, lo, hi);
      var b := s[Find(s, address)];
      forall a: nat ensures At(s', a).Some? <==> lo <= a < hi {
        if b.Contains(a) {
          HolderIsUnique(s, a, Find(s, address));
        }
        assert At(s', a) == InformedAt(s, b, address, kind, info, a);
        FoundHolds(s, address);
      }
      CoversTiles(s', lo, hi);
  }

  /** Through every run the blocks tile the range, stay few, and every address is found in the only block that holds it. */
  lemma {:induction false} RunKeepsTiling(states: seq<seq<Block>>, ops: seq<Op>, lo: nat, hi: nat, k: nat)
    requires Run(states, ops, lo, hi) && k < |states|
    ensures Tiles(states[k], lo, hi) && |states[k]| <= 1 + Growth(ops[..k])
    ensures forall a: nat :: lo <= a < hi ==>
              && Find(states[k], a) < |states[k]| && states[k][Find(states[k], a)].Contains(a)
              && forall j :: 0 <= j < |states[k]| && states[k][j].Contains(a) ==> j == Find(states[k], a)
  {
    hide Find, LowerBound, MarkStep, InfoStep, At;
    if k > 0 {
      RunKeepsTiling(states, ops, lo, hi, k - 1);
      assert Step(states[k - 1], states[k - 1 + 1], ops[k - 1], lo, hi);
      assert ops[..k][..k - 1] == ops[..k - 1];
      StepKeepsTiling(states[k - 1], states[k], ops[k - 1], lo, hi);
      StepGrows(states[k - 1], states[k], ops[k - 1], lo, hi);
    }
    forall a: nat | lo <= a < hi
      ensures && Find(states[k], a) < |states[k]| && states[k][Find(states[k], a)].Contains(a)
              && forall j :: 0 <= j < |states[k]| && states[k][j].Contains(a) ==> j == Find(states[k], a)
    {
      FindInTiles(states[k], lo, hi, a);
      FoundHolds(states[k], a);
    }
  }

  /** Blocks start where others started before, or at the ends of what was marked. */
  lemma {:induction false} StepGrows(s: seq<Block>, s': seq<Block>, op: Op, lo: nat, hi: nat)
    requires Tiles(s, lo, hi) && Step(s, s', op, lo, hi)
    ensures |s'| <= |s| + if op.MarkOp? then 2 else 1
  {
    hide At, Find, Starts;
    match op
    case MarkOp(start, end, kind, info) =>
      MarkGrows(s, s', start, end, kind, info);
    case InfoOp(address, kind, info) =>
      InfoGrows(s, s', lo, hi, address, kind, info);
  }

  /** What a container does with a list of operations is a run, so all that holds of runs holds of it. */
  method Replay(lo: nat, hi: nat, ops: seq<Op>) returns (c: Container, ghost states: seq<seq<Block>>)
    requires lo < hi < ADDRESS_LIMIT && forall op <- ops :: InRange(op, lo, hi)
    ensures Run(states, ops, lo, hi) && c.container == states[|ops|]
    ensures Tiles(c.container, lo, hi) && |c.container| <= 1 + Growth(ops)
  {
    hide Tiles, Ordered, MarkStep, InfoStep;
    c := new Container();
    var ok := c.MarkSize(lo, hi - lo, Unknown, 0, lo, hi);
    OneBlockTiles(lo, hi);
    states := [c.container];
    for k := 0 to |ops|
      invariant Tiles(c.container, lo, hi) && c.container != [] && Run(states, ops[..k], lo, hi)
      invariant c.container == states[k]
    {
      assert ops[k] in ops && InRange(ops[k], lo, hi);
      ghost var before := c.container;
      match ops[k] {
        case MarkOp(start, end, kind, info) =>
          ok := c.Mark(start, end, kind, info, lo, hi);
        case InfoOp(address, kind, info) =>
          var outcome := c.Info(address, kind, info, lo, hi);
      }
      TilesAreOrdered(c.container, lo, hi);
      RunGoesOn(states, ops, lo, hi, k, c.container);
      states := states + [c.container];
    }
    assert ops[..|ops|] == ops;
    RunKeepsTiling(states, ops, lo, hi, |ops|);
  }

  lemma OneBlockTiles(lo: nat, hi: nat)
    requires lo < hi
    ensures Tiles([Block(lo, hi, Unknown, 0)], lo, hi)
  {
  }

  lemma RunGoesOn(states: seq<seq<Block>>, ops: seq<Op>, lo: nat, hi: nat, k: nat, s: seq<Block>)
    requires k < |ops| && Run(states, ops[..k], lo, hi) && Step(states[k], s, ops[k], lo, hi)
    ensures Run(states + [s], ops[..k + 1], lo, hi)
  {
    hide Step;
    var states', ops' := states + [s], ops[..k + 1];
    forall i | 0 <= i < |ops'| ensures Step(states'[i], states'[i + 1], ops'[i], lo, hi) {
      if i < k {
        assert ops[..k][i] == ops'[i];
        assert Step(states[i], states[i + 1], ops[..k][i], lo, hi);
      }
    }
  }

  /** The addresses that an operation can change: its range and the rest of the blocks at the two ends of it. */
  ghost predicate Touches(s: seq<Block>, op: Op, a: nat) {
    match op
    case MarkOp(start, end, _, _) =>
      || start <= a < end
      || (Find(s, start) < |s| && s[Find(s, start)].Contains(a))
      || (end > 0 && Find(s, end - 1) < |s| && s[Find(s, end - 1)].Contains(a))
    case InfoOp(address, _, _) => Find(s, address) < |s| && s[Find(s, address)].Contains(a)
  }

  /** An address that no operation of a stretch of a run touches keeps its pair through all of it. */
  lemma {:induction false} UntouchedKeepsPair(
    states: seq<seq<Block>>, ops: seq<Op>, lo: nat, hi: nat, i: nat, j: nat, a: nat)
    requires Run(states, ops, lo, hi) && i <= j < |states|
    requires forall k :: i <= k < j ==> !Touches(states[k], ops[k], a)
    ensures At(states[j], a) == At(states[i], a)
  {
    hide Step, Touches;
    if i < j {
      UntouchedKeepsPair(states, ops, lo, hi, i, j - 1, a);
      UntouchedByOne(states[j - 1], states[j - 1 + 1], ops[j - 1], lo, hi, a);
    }
  }

  lemma UntouchedByOne(s: seq<Block>, s': seq<Block>, op: Op, lo: nat, hi: nat, a: nat)
    requires Step(s, s', op, lo, hi) && !Touches(s, op, a)
    ensures At(s', a) == At(s, a)
  {
    hide Tiles, At, Find, LowerBound;
    match op
    case MarkOp(start, end, kind, info) =>
      assert At(s', a) == MarkedAt(s, start, end, kind, info, a);
    case InfoOp(address, kind, info) =>
      assert At(s', a) == InformedAt(s, s[Find(s, address)], address, kind, info, a);
  }

  /** The last mark over an address decides its pair, if nothing touches the address afterwards. */
  lemma LastMarkDecides(states: seq<seq<Block>>, ops: seq<Op>, lo: nat, hi: nat, i: nat, j: nat, a: nat)
    requires Run(states, ops, lo, hi) && i < j < |states|
    requires ops[i].MarkOp? && ops[i].start <= a < ops[i].end
    requires forall k :: i < k < j ==> !Touches(states[k], ops[k], a)
    ensures At(states[j], a) == Some(Pair(ops[i].kind, ops[i].info))
  {
    hide At, Find, Touches, Ordered;
    UntouchedKeepsPair(states, ops, lo, hi, i + 1, j, a);
    var s, s' := states[i], states[i + 1];
    assert Step(s, s', ops[i], lo, hi);
    assert At(s', a) == MarkedAt(s, ops[i].start, ops[i].end, ops[i].kind, ops[i].info, a);
  }

  // ---- The blocks themselves

  /** From one start to the next there is one block. */
  lemma IsBlock(s: seq<Block>, lo: nat, hi: nat, b: Block)
    requires Tiles(s, lo, hi) && b.start in Starts(s) && b.start < b.end && (b.end in Starts(s) || b.end == hi)
    requires forall x: nat :: b.start < x < b.end ==> x !in Starts(s)
    requires At(s, b.start) == Some(PairOf(b))
    ensures b in s
  {
    hide At, Tiles;
    var i := StartsAt(s, b.start);
    EndIsStart(s, lo, hi, i);
    BlockInRange(s, lo, hi, i);
    TilesAreOrdered(s, lo, hi);
    HolderIsUnique(s, b.start, i);
    assert s[i].end == b.end;
    assert s[i] in s;
  }

  lemma StartsAt(s: seq<Block>, x: nat) returns (i: nat)
    requires x in Starts(s)
    ensures i < |s| && s[i].start == x
  {
    i :| 0 <= i < |s| && s[i].start == x;
  }

  lemma BlockOf(s: seq<Block>, lo: nat, hi: nat, b: Block)
    requires Tiles(s, lo, hi) && b in s
    ensures lo <= b.start < b.end <= hi && b.start in Starts(s) && (b.end in Starts(s) || b.end == hi)
    ensures forall x: nat :: b.start < x < b.end ==> x !in Starts(s)
    ensures forall a: nat :: b.Contains(a) ==> At(s, a) == Some(PairOf(b))
    ensures forall a: nat :: b.Contains(a) ==> Find(s, a) < |s| && s[Find(s, a)] == b
  {
    var i :| 0 <= i < |s| && s[i] == b;
    EndIsStart(s, lo, hi, i);
    BlockInRange(s, lo, hi, i);
    hide Tiles, At, Find;
    TilesAreOrdered(s, lo, hi);
    forall a: nat | b.Contains(a)
      ensures At(s, a) == Some(PairOf(b)) && Find(s, a) < |s| && s[Find(s, a)] == b
    {
      HolderIsUnique(s, a, i);
      FindInTiles(s, lo, hi, a);
      FoundHolds(s, a);
    }
  }

  /** Both blocks at the ends of a range. */
  lemma RangeEnds(s: seq<Block>, lo: nat, hi: nat, start: nat, end: nat)
    requires Tiles(s, lo, hi) && lo <= start < end <= hi
    ensures Find(s, start) < |s| && Find(s, end - 1) < |s|
    ensures s[Find(s, start)] in s && s[Find(s, start)].Contains(start)
    ensures s[Find(s, end - 1)] in s && s[Find(s, end - 1)].Contains(end - 1)
  {
    FindInTiles(s, lo, hi, start);
    FindInTiles(s, lo, hi, end - 1);
  }

  /** A mark with a known type makes one block of exactly its range: it is not merged with anything. */
  lemma MarkedBlock(s: seq<Block>, s': seq<Block>, lo: nat, hi: nat, start: nat, end: nat, kind: BlockType, info: nat)
    requires Tiles(s, lo, hi) && Tiles(s', lo, hi) && lo <= start < end <= hi
    requires MarkStep(s, s', start, end, kind, info) && kind != Unknown
    ensures Block(start, end, kind, info) in s'
  {
    hide At, Tiles, Find, Starts;
    RangeEnds(s, lo, hi, start, end);
    BlockOf(s, lo, hi, s[Find(s, start)]);
    BlockOf(s, lo, hi, s[Find(s, end - 1)]);
    IsBlock(s', lo, hi, Block(start, end, kind, info));
  }

  lemma BlocksApart(s: seq<Block>, b: Block, c: Block)
    requires Ordered(s) && b in s && c in s && b != c
    ensures b.end <= c.start || c.end <= b.start
  {
    var i :| 0 <= i < |s| && s[i] == b;
    var j :| 0 <= j < |s| && s[j] == c;
  }

  /** A known type is not swallowed, nor is what starts behind it. */
  lemma KnownIsNotSwallowed(s: seq<Block>, end: nat, pair: Pair, b: Block, x: nat)
    requires At(s, b.start) == Some(PairOf(b)) && b.kind != Unknown && end <= b.start <= x
    ensures !Swallows(s, end, pair, x)
  {
    hide At;
  }

  /** A block outside of what is marked stays as it is when its type is known, or when it lies before the range. */
  lemma BlockStays(s: seq<Block>, s': seq<Block>, lo: nat, hi: nat, start: nat, end: nat, kind: BlockType, info: nat,
                   b: Block)
    requires Tiles(s, lo, hi) && Tiles(s', lo, hi) && lo <= start < end <= hi
    requires MarkStep(s, s', start, end, kind, info)
    requires b in s && (b.end <= start || (end <= b.start && b.kind != Unknown))
    ensures b in s'
  {
    hide At, Tiles, Find, Starts, Swallows, Ordered;
    TilesAreOrdered(s, lo, hi);
    RangeEnds(s, lo, hi, start, end);
    var first, last := s[Find(s, start)], s[Find(s, end - 1)];
    BlockOf(s, lo, hi, first);
    BlockOf(s, lo, hi, last);
    BlockOf(s, lo, hi, b);
    BlocksApart(s, b, first);
    BlocksApart(s, b, last);
    if end <= b.start {
      var pair := if end < last.end then DEMOTED else Pair(kind, info);
      KnownIsNotSwallowed(s, last.end, pair, b, b.start);
      KnownIsNotSwallowed(s, last.end, pair, b, b.end);
    }
    IsBlock(s', lo, hi, b);
  }

  /** What has been marked lies in one block, be it merged with others or not. */
  lemma MarkedIsWhole(s: seq<Block>, s': seq<Block>, lo: nat, hi: nat, start: nat, end: nat, kind: BlockType, info: nat)
    returns (b: Block)
    requires Tiles(s, lo, hi) && Tiles(s', lo, hi) && lo <= start < end <= hi
    requires MarkStep(s, s', start, end, kind, info)
    ensures b in s' && b.start <= start && end <= b.end && PairOf(b) == Pair(kind, info)
  {
    hide At, Tiles, Find, Starts, Swallows;
    RangeEnds(s, lo, hi, start, end);
    BlockOf(s, lo, hi, s[Find(s, start)]);
    BlockOf(s, lo, hi, s[Find(s, end - 1)]);
    RangeEnds(s', lo, hi, start, end);
    b := s'[Find(s', start)];
    BlockOf(s', lo, hi, b);
    assert At(s', start) == Some(Pair(kind, info));
  }

  /** Info splits a block in two: each part is a block of its own when its type is known. */
  lemma InformedBlocks(s: seq<Block>, s': seq<Block>, lo: nat, hi: nat, b: Block, address: nat, kind: BlockType, info: nat)
    requires Tiles(s, lo, hi) && Tiles(s', lo, hi) && b in s && b.Contains(address)
    requires InfoStep(s, s', address, kind, info)
    ensures address > b.start && kind != Unknown ==> Block(address, b.end, kind, info) in s'
    ensures address > b.start && b.kind != Unknown ==> Block(b.start, address, b.kind, b.info) in s'
    ensures address == b.start && b.kind != Unknown ==> b.(info := info) in s'
  {
    hide At, Tiles, Find, Starts, Swallows;
    BlockOf(s, lo, hi, b);
    StartsLieBefore(s);
    if address > b.start {
      if kind != Unknown {
        UnknownSwallows(s, b.end, Pair(kind, info));
        IsBlock(s', lo, hi, Block(address, b.end, kind, info));
      }
      if b.kind != Unknown {
        IsBlock(s', lo, hi, Block(b.start, address, b.kind, b.info));
      }
    } else if b.kind != Unknown {
      UnknownSwallows(s, b.end, Pair(b.kind, info));
      IsBlock(s', lo, hi, b.(info := info));
    }
  }

  lemma UnknownSwallows(s: seq<Block>, end: nat, pair: Pair)
    requires pair.kind != Unknown
    ensures forall x: nat :: !Swallows(s, end, pair, x)
  {
  }

  /** Blocks beside the one that info is for stay as they are when their type is known, or when they lie before it. */
  lemma InfoKeeps(s: seq<Block>, s': seq<Block>, lo: nat, hi: nat, b: Block, address: nat, kind: BlockType, info: nat,
                  c: Block)
    requires Tiles(s, lo, hi) && Tiles(s', lo, hi) && b in s && b.Contains(address)
    requires InfoStep(s, s', address, kind, info)
    requires c in s && c != b && (c.kind != Unknown || c.end <= b.start)
    ensures c in s'
  {
    hide At, Tiles, Find, Starts, Swallows, Ordered;
    TilesAreOrdered(s, lo, hi);
    BlockOf(s, lo, hi, b);
    BlockOf(s, lo, hi, c);
    BlocksApart(s, b, c);
    if b.end <= c.start {
      var pair := if address > b.start then Pair(kind, info) else Pair(b.kind, info);
      KnownIsNotSwallowed(s, b.end, pair, c, c.start);
      KnownIsNotSwallowed(s, b.end, pair, c, c.end);
      KnownIsNotSwallowed(s, b.end, DEMOTED, c, c.start);
      KnownIsNotSwallowed(s, b.end, DEMOTED, c, c.end);
    }
    IsBlock(s', lo, hi, c);
  }

  // ---- Operations leave nothing open

  /** Tilings with the same pairs and the same starts are the same container. */
  lemma {:induction false} SameTiling(s: seq<Block>, s': seq<Block>, lo: nat, hi: nat)
    requires Tiles(s, lo, hi) && Tiles(s', lo, hi)
    requires (forall x: nat :: x in Starts(s') <==> x in Starts(s)) && forall a: nat :: At(s', a) == At(s, a)
    ensures s' == s
  {
    hide At, Starts, Tiles;
    forall b | b in s ensures b in s' {
      BlockOf(s, lo, hi, b);
      IsBlock(s', lo, hi, b);
    }
    forall b | b in s' ensures b in s {
      BlockOf(s', lo, hi, b);
      IsBlock(s, lo, hi, b);
    }
    TilesAreOrdered(s, lo, hi);
    TilesAreOrdered(s', lo, hi);
    assert BlockSet(s) == BlockSet(s');
    SameBlocks(s, s');
  }

  ghost function BlockSet(s: seq<Block>): set<Block> {
    set b <- s
  }

  lemma {:induction false} SameBlocks(s: seq<Block>, s': seq<Block>)
    requires Ordered(s) && Ordered(s') && BlockSet(s) == BlockSet(s')
    ensures s == s'
  {
    hide Ordered, BlockSet;
    LastBlock(s);
    LastBlock(s');
    if s != [] {
      var n, m := |s| - 1, |s'| - 1;
      SameBlocks(s[..n], s'[..m]);
      assert s == s[..n] + [s[n]] && s' == s'[..m] + [s'[m]];
    }
  }

  lemma LastBlock(s: seq<Block>)
    requires Ordered(s)
    ensures s == [] <==> BlockSet(s) == {}
    ensures s != [] ==>
              var last := s[|s| - 1];
              && last in BlockSet(s) && (forall b <- BlockSet(s) :: b.start < b.end && (b == last || b.end <= last.start))
              && Ordered(s[..|s| - 1]) && BlockSet(s[..|s| - 1]) == BlockSet(s) - {last}
  {
    if s != [] {
      var init, last := s[..|s| - 1], s[|s| - 1];
      assert s == init + [last];
      forall b | b in init ensures b.start < b.end <= last.start {
        var i :| 0 <= i < |init| && init[i] == b;
        assert s[i] == b;
      }
      InitOrdered(s);
      BlockSetOf(init, last);
    }
  }

  lemma InitOrdered(s: seq<Block>)
    requires Ordered(s) && s != []
    ensures Ordered(s[..|s| - 1]) && s[|s| - 1].start < s[|s| - 1].end
  {
  }

  lemma BlockSetOf(init: seq<Block>, last: Block)
    ensures BlockSet(init + [last]) == BlockSet(init) + {last}
    ensures (forall b <- init :: b != last) ==> BlockSet(init) == BlockSet(init + [last]) - {last}
  {
    assert forall b :: b in init + [last] <==> b in init || b == last;
  }

  /** One operation leads from a tiling to one container only. */
  lemma StepIsDetermined(s: seq<Block>, s': seq<Block>, other: seq<Block>, op: Op, lo: nat, hi: nat)
    requires Tiles(s, lo, hi) && Step(s, s', op, lo, hi) && Step(s, other, op, lo, hi)
    ensures other == s'
  {
    hide At, Starts, Tiles, Find, MarkedAt, InformedAt, StartsMarked, StartsInformed, Ordered;
    StepKeepsTiling(s, s', op, lo, hi);
    StepKeepsTiling(s, other, op, lo, hi);
    SameTiling(s', other, lo, hi);
  }

  /** So the operations alone decide every container of a run. */
  lemma {:induction false} RunIsDetermined(
    states: seq<seq<Block>>, others: seq<seq<Block>>, ops: seq<Op>, lo: nat, hi: nat, k: nat)
    requires Run(states, ops, lo, hi) && Run(others, ops, lo, hi) && k < |states|
    ensures others[k] == states[k]
  {
    hide Step, Tiles;
    if k > 0 {
      RunIsDetermined(states, others, ops, lo, hi, k - 1);
      RunKeepsTiling(states, ops, lo, hi, k - 1);
      var j := k - 1;
      assert Step(states[j], states[j + 1], ops[j], lo, hi) && Step(others[j], others[j + 1], ops[j], lo, hi);
      StepIsDetermined(states[j], states[k], others[k], ops[j], lo, hi);
    }
  }

  /** An operation that has nothing to do with a block. */
  predicate Avoids(op: Op, b: Block) {
    match op
    case MarkOp(start, end, _, _) => end <= b.start || b.end <= start
    case InfoOp(address, _, _) => !b.Contains(address)
  }

  lemma StepKeeps(s: seq<Block>, s': seq<Block>, op: Op, lo: nat, hi: nat, b: Block)
    requires Tiles(s, lo, hi) && Step(s, s', op, lo, hi) && b in s && b.kind != Unknown && Avoids(op, b)
    ensures b in s'
  {
    hide At, Starts, Tiles, Find, MarkStep, InfoStep, Ordered;
    StepKeepsTiling(s, s', op, lo, hi);
    match op
    case MarkOp(start, end, kind, info) => BlockStays(s, s', lo, hi, start, end, kind, info, b);
    case InfoOp(address, kind, info) =>
      FindInTiles(s, lo, hi, address);
      FoundHolds(s, address);
      assert s[Find(s, address)] in s;
      InfoKeeps(s, s', lo, hi, s[Find(s, address)], address, kind, info, b);
  }

  /** A block of a known type stays in the container, as it is, until an operation has to do with it. */
  lemma {:induction false} BlockStaysInRun(
    states: seq<seq<Block>>, ops: seq<Op>, lo: nat, hi: nat, i: nat, j: nat, b: Block)
    requires Run(states, ops, lo, hi) && i <= j < |states| && b in states[i] && b.kind != Unknown
    requires forall k :: i <= k < j ==> Avoids(ops[k], b)
    ensures b in states[j]
  {
    hide Step, Tiles;
    if i < j {
      var k := j - 1;
      BlockStaysInRun(states, ops, lo, hi, i, k, b);
      RunKeepsTiling(states, ops, lo, hi, k);
      assert Step(states[k], states[k + 1], ops[k], lo, hi);
      StepKeeps(states[k], states[j], ops[k], lo, hi, b);
    }
  }

  /** A mark with a known type makes a block that stays until another operation has to do with it. */
  lemma MarkedStaysInRun(states: seq<seq<Block>>, ops: seq<Op>, lo: nat, hi: nat, i: nat, j: nat)
    requires Run(states, ops, lo, hi) && i < j < |states| && ops[i].MarkOp? && ops[i].kind != Unknown
    requires forall k :: i < k < j ==> Avoids(ops[k], Block(ops[i].start, ops[i].end, ops[i].kind, ops[i].info))
    ensures Block(ops[i].start, ops[i].end, ops[i].kind, ops[i].info) in states[j]
  {
    hide Tiles, MarkStep, InfoStep, Ordered;
    RunKeepsTiling(states, ops, lo, hi, i);
    RunKeepsTiling(states, ops, lo, hi, i + 1);
    assert Step(states[i], states[i + 1], ops[i], lo, hi);
    MarkedBlock(states[i], states[i + 1], lo, hi, ops[i].start, ops[i].end, ops[i].kind, ops[i].info);
    BlockStaysInRun(states, ops, lo, hi, i + 1, j, Block(ops[i].start, ops[i].end, ops[i].kind, ops[i].info));
  }
}
