/** The nodes of the control-flow net and what their links must agree on. */
module NetNodes {
  import opened SortedContainer

  /** 64-bit addresses; RD_NVAL stands for none. */
  type Address = n: nat | n <= RD_NVAL witness 0

  datatype Flow =
    | NoFlow
    | Branch | BranchTrue | BranchFalse | BranchIndirect | BranchUnresolved
    | Call | CallIndirect | CallUnresolved

  /** One field holds the type of a branch or of a call. */
  datatype NetNode = NetNode(
    next: Address, prev: seq<Address>, flow: Flow,
    from: seq<Address>, branchesTrue: seq<Address>, branchesFalse: seq<Address>, calls: seq<Address>)

  type Nodes = map<Address, NetNode>

  const BLANK := NetNode(RD_NVAL, [], NoFlow, [], [], [], [])

  /** A node that is not there yet is made blank when it is asked for. */
  function At(nodes: Nodes, a: Address): NetNode {
    if a in nodes then nodes[a] else BLANK
  }

  // ---- Sorted addresses

  function Itself(a: Address): nat { a }

  function Plus(s: seq<Address>, a: Address): seq<Address> {
    Inserted(Itself, s, a)
  }

  function Minus(s: seq<Address>, a: Address): seq<Address> {
    Removed(Itself, s, a)
  }

  ghost predicate Ordered(s: seq<Address>) {
    Increasing(Itself, s)
  }

  lemma PlusHas(s: seq<Address>, a: Address)
    requires Ordered(s)
    ensures Ordered(Plus(s, a)) && forall x :: x in Plus(s, a) <==> x in s || x == a
  {
    InsertedElements(Itself, s, a);
    assert HasKey(Itself, s, a) <==> a in s;
  }

  lemma MinusHas(s: seq<Address>, a: Address)
    requires Ordered(s)
    ensures Ordered(Minus(s, a)) && forall x :: x in Minus(s, a) <==> x in s && x != a
    ensures a in s ==> |Minus(s, a)| == |s| - 1
    ensures a !in s ==> Minus(s, a) == s
  {
    RemovedElements(Itself, s, a);
    assert HasKey(Itself, s, a) <==> a in s;
    if a !in s { RemovedNowhere(Itself, s, a); }
  }

  /** Elements in front of a removed one stay where they are. */
  lemma MinusKeepsFront(s: seq<Address>, i: nat)
    requires Ordered(s) && i < |s|
    ensures |Minus(s, s[i])| == |s| - 1 && Minus(s, s[i])[..i] == s[..i]
  {
    RemovedAt(Itself, s, s[i], i);
  }

  // ---- Agreement

  ghost predicate AllOrdered(nodes: Nodes) {
    forall a <- nodes :: NodeOrdered(nodes[a])
  }

  ghost predicate NodeOrdered(n: NetNode) {
    Ordered(n.prev) && Ordered(n.from) && Ordered(n.branchesTrue) && Ordered(n.branchesFalse) && Ordered(n.calls)
  }

  /** What falls through to a node is among its predecessors. */
  ghost predicate NextLinked(nodes: Nodes) {
    forall a :: a in nodes && nodes[a].next != RD_NVAL ==> nodes[a].next in nodes && a in nodes[nodes[a].next].prev
  }

  /** Code is linked forward. */
  ghost predicate Forward(nodes: Nodes) {
    forall a :: a in nodes ==> nodes[a].next == RD_NVAL || a < nodes[a].next
  }

  ghost predicate Enters(nodes: Nodes, b: Address) {
    exists a :: a in nodes && nodes[a].next == b
  }

  // ---- Changing links

  function SetNext(nodes: Nodes, a: Address, next: Address): Nodes {
    nodes[a := At(nodes, a).(next := next)]
  }

  function SetPrev(nodes: Nodes, a: Address, prev: seq<Address>): Nodes {
    nodes[a := At(nodes, a).(prev := prev)]
  }

  lemma BlankIsOrdered()
    ensures NodeOrdered(BLANK)
  {
  }

  lemma SetNextKeepsOrder(nodes: Nodes, a: Address, next: Address)
    requires AllOrdered(nodes)
    ensures AllOrdered(SetNext(nodes, a, next))
  {
    hide Ordered;
    BlankIsOrdered();
  }

  lemma SetPrevKeepsOrder(nodes: Nodes, a: Address, prev: seq<Address>)
    requires AllOrdered(nodes) && Ordered(prev)
    ensures AllOrdered(SetPrev(nodes, a, prev))
  {
    hide Ordered;
    BlankIsOrdered();
  }

  lemma AtIsOrdered(nodes: Nodes, a: Address)
    requires AllOrdered(nodes)
    ensures NodeOrdered(At(nodes, a))
  {
    hide Ordered;
    BlankIsOrdered();
  }

  /** Both ends of a new link know of it; the old target keeps a predecessor that is none any more. */
  lemma LinkedNext(nodes: Nodes, from: Address, to: Address)
    requires AllOrdered(nodes) && NextLinked(nodes)
    ensures var middle := SetNext(nodes, from, to);
            var nodes' := SetPrev(middle, to, Plus(At(middle, to).prev, from));
            && AllOrdered(nodes') && NextLinked(nodes')
            && (forall a <- nodes' :: nodes'[a] == At(nodes, a).(
                  next := if a == from then to else At(nodes, a).next,
                  prev := if a == to then Plus(At(nodes, a).prev, from) else At(nodes, a).prev))
  {
    hide Ordered, Plus, NodeOrdered, AllOrdered;
    var middle := SetNext(nodes, from, to);
    SetNextKeepsOrder(nodes, from, to);
    AtIsOrdered(middle, to);
    PrevIsOrdered(At(middle, to));
    PlusHas(At(middle, to).prev, from);
    SetPrevKeepsOrder(middle, to, Plus(At(middle, to).prev, from));
  }

  lemma PrevIsOrdered(n: NetNode)
    requires NodeOrdered(n)
    ensures Ordered(n.prev)
  {
  }

  ghost predicate FallsTo(nodes: Nodes, x: Address, b: Address) {
    x in nodes && nodes[x].next == b
  }

  /** Some of those that fall through to b were unlinked; b has lost exactly those predecessors. */
  ghost predicate Unlinking(before: Nodes, nodes: Nodes, b: Address) {
    && before.Keys == nodes.Keys && b in nodes
    && (forall a <- nodes ::
          nodes[a] == before[a].(next := nodes[a].next, prev := if a == b then nodes[a].prev else before[a].prev))
    && (forall a <- nodes :: nodes[a].next == before[a].next || (before[a].next == b && nodes[a].next == RD_NVAL))
    && (forall x :: x in nodes[b].prev ==> x in before[b].prev && (x in nodes ==> nodes[x].next == before[x].next))
    && (forall x :: x in before[b].prev && x !in nodes[b].prev ==> FallsTo(before, x, b) && nodes[x].next == RD_NVAL)
  }

  /** The nodes after p, which falls through to b, was unlinked from it. */
  function WithoutOne(nodes: Nodes, b: Address, p: Address): Nodes {
    var middle := SetNext(nodes, p, RD_NVAL);
    SetPrev(middle, b, Minus(At(middle, b).prev, p))
  }

  lemma WithoutOneAt(nodes: Nodes, b: Address, p: Address)
    requires p in nodes && b in nodes
    ensures WithoutOne(nodes, b, p).Keys == nodes.Keys
    ensures forall a <- nodes :: WithoutOne(nodes, b, p)[a] == nodes[a].(
              next := if a == p then RD_NVAL else nodes[a].next,
              prev := if a == b then Minus(nodes[b].prev, p) else nodes[a].prev)
  {
    hide Minus;
  }

  lemma WithoutOneLinked(nodes: Nodes, b: Address, p: Address)
    requires b in nodes && NextLinked(nodes) && Ordered(nodes[b].prev) && FallsTo(nodes, p, b)
    ensures NextLinked(WithoutOne(nodes, b, p))
  {
    hide Ordered, Minus, WithoutOne;
    WithoutOneAt(nodes, b, p);
    MinusHas(nodes[b].prev, p);
  }

  lemma WithoutOneUnlinking(before: Nodes, nodes: Nodes, b: Address, p: Address)
    requires Unlinking(before, nodes, b) && Ordered(nodes[b].prev) && p in nodes[b].prev && FallsTo(nodes, p, b)
    ensures Unlinking(before, WithoutOne(nodes, b, p), b)
  {
    hide Ordered, Minus, WithoutOne;
    WithoutOneAt(nodes, b, p);
    MinusHas(nodes[b].prev, p);
  }

  lemma WithoutOneOrdered(nodes: Nodes, b: Address, p: Address)
    requires b in nodes && AllOrdered(nodes)
    ensures AllOrdered(WithoutOne(nodes, b, p)) && Ordered(nodes[b].prev)
  {
    hide Ordered, Minus, NodeOrdered, AllOrdered;
    var middle := SetNext(nodes, p, RD_NVAL);
    SetNextKeepsOrder(nodes, p, RD_NVAL);
    AtIsOrdered(nodes, b);
    AtIsOrdered(middle, b);
    PrevIsOrdered(At(nodes, b));
    PrevIsOrdered(At(middle, b));
    MinusHas(At(middle, b).prev, p);
    SetPrevKeepsOrder(middle, b, Minus(At(middle, b).prev, p));
  }

  /** When no predecessor is left that falls through to b, all who did have been unlinked. */
  lemma UnlinkedAll(before: Nodes, nodes: Nodes, b: Address)
    requires Unlinking(before, nodes, b) && NextLinked(before)
    requires forall x <- nodes[b].prev :: !FallsTo(before, x, b)
    ensures forall a <- nodes ::
              nodes[a] == before[a].(
                next := if before[a].next == b then RD_NVAL else before[a].next,
                prev := if a == b then nodes[a].prev else before[a].prev)
    ensures forall x :: x in nodes[b].prev <==> x in before[b].prev && !FallsTo(before, x, b)
    ensures b != RD_NVAL ==> !Enters(nodes, b)
    ensures Forward(before) ==> Forward(nodes)
  {
    forall a | a in nodes
      ensures nodes[a].next == if before[a].next == b then RD_NVAL else before[a].next
    {
      if before[a].next == b && b != RD_NVAL {
        assert a in before[b].prev;
        assert FallsTo(before, a, b);
      }
    }
  }

  // ---- The fall-through walk

  /** The address that a walk from a has come to after k steps. */
  function Walked(nodes: Nodes, a: Address, k: nat): Address {
    if k == 0 then a else At(nodes, Walked(nodes, a, k - 1)).next
  }

  /** A walk comes to the addresses of the trace, one after the other. */
  ghost predicate Visits(nodes: Nodes, a: Address, trace: seq<Address>) {
    forall i :: 0 <= i < |trace| ==> trace[i] in nodes && trace[i] == Walked(nodes, a, i)
  }

  /** It comes to all of them and stops where there is no node. */
  ghost predicate Traces(nodes: Nodes, a: Address, trace: seq<Address>) {
    Visits(nodes, a, trace) && Walked(nodes, a, |trace|) !in nodes
  }

  /** The walk from a comes to x, where there is a node. */
  ghost predicate OnWalk(nodes: Nodes, a: Address, x: Address) {
    x in nodes && exists k: nat :: Walked(nodes, a, k) == x
  }

  lemma {:induction false} NothingBehindEnd(nodes: Nodes, a: Address, n: nat, k: nat)
    requires Walked(nodes, a, n) !in nodes && RD_NVAL !in nodes && n <= k
    ensures Walked(nodes, a, k) !in nodes
  {
    if n < k {
      NothingBehindEnd(nodes, a, n, k - 1);
    }
  }

  /** The trace of a finished walk has all that the walk comes to. */
  lemma TraceIsWalk(nodes: Nodes, a: Address, trace: seq<Address>, x: Address)
    requires Traces(nodes, a, trace) && RD_NVAL !in nodes
    ensures x in trace <==> OnWalk(nodes, a, x)
  {
    hide Walked;
    if OnWalk(nodes, a, x) {
      var k: nat :| Walked(nodes, a, k) == x;
      if k >= |trace| {
        NothingBehindEnd(nodes, a, |trace|, k);
        assert false;
      }
      assert trace[k] == x;
    }
  }

  lemma WalkStarts(nodes: Nodes, a: Address)
    ensures Visits(nodes, a, []) && Walked(nodes, a, 0) == a
  {
  }

  lemma VisitsNext(nodes: Nodes, a: Address, trace: seq<Address>, b: Address)
    requires Visits(nodes, a, trace) && b in nodes && b == Walked(nodes, a, |trace|)
    ensures Visits(nodes, a, trace + [b]) && Walked(nodes, a, |trace + [b]|) == nodes[b].next
  {
    hide Walked;
    assert forall i :: 0 <= i < |trace| ==> (trace + [b])[i] == trace[i];
    WalkedNext(nodes, a, |trace|);
  }

  lemma WalkedNext(nodes: Nodes, a: Address, k: nat)
    ensures Walked(nodes, a, k + 1) == At(nodes, Walked(nodes, a, k)).next
  {
  }

  lemma {:induction false} WalkEnds(nodes: Nodes, a: Address, k: nat) returns (n: nat)
    requires Forward(nodes) && RD_NVAL !in nodes
    ensures n >= k && Walked(nodes, a, n) !in nodes
    decreases RD_NVAL - Walked(nodes, a, k)
  {
    if Walked(nodes, a, k) in nodes {
      n := WalkEnds(nodes, a, k + 1);
    } else {
      n := k;
    }
  }

  lemma {:induction false} WalkGoesOn(nodes: Nodes, a: Address, k: nat)
    requires NextLinked(nodes) && RD_NVAL in nodes && a in nodes
    ensures Walked(nodes, a, k) in nodes
  {
    if k > 0 {
      WalkGoesOn(nodes, a, k - 1);
    }
  }

  /** The walk from a node ends exactly when there is no node at RD_NVAL: it does not look for the end mark itself. */
  lemma WalkEndsUnlessMarked(nodes: Nodes, a: Address)
    requires NextLinked(nodes) && Forward(nodes) && a in nodes
    ensures (exists n: nat :: Walked(nodes, a, n) !in nodes) <==> RD_NVAL !in nodes
  {
    if RD_NVAL in nodes {
      forall n: nat ensures Walked(nodes, a, n) in nodes {
        WalkGoesOn(nodes, a, n);
      }
    } else {
      var n := WalkEnds(nodes, a, 0);
    }
  }

  /** The addresses of a walk increase. */
  lemma {:induction false} TraceIncreases(nodes: Nodes, a: Address, trace: seq<Address>, i: nat, j: nat)
    requires Forward(nodes) && RD_NVAL !in nodes && Traces(nodes, a, trace) && i < j < |trace|
    ensures trace[i] < trace[j]
    decreases j
  {
    assert trace[j] == At(nodes, trace[j - 1]).next;
    if i < j - 1 {
      TraceIncreases(nodes, a, trace, i, j - 1);
    }
  }

  /** A walk comes only to addresses that something falls through to, except for its start. */
  lemma LaterIsEntered(nodes: Nodes, a: Address, trace: seq<Address>, i: nat)
    requires Traces(nodes, a, trace) && 0 < i < |trace|
    ensures Enters(nodes, trace[i])
  {
    assert trace[i] == nodes[trace[i - 1]].next;
  }
}
