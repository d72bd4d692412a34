/** The control-flow net: linking and unlinking of addresses, and the fall-through walk over it. */
module DocumentNet {
  import opened SortedContainer
  import opened NetNodes
  import opened NetBranches

  class DocumentNet {
    var nodes: Nodes
    var refs: References

    ghost predicate Valid()
      reads this
    {
      AllOrdered(nodes) && NextLinked(nodes) && RefsOrdered(refs)
    }

    constructor ()
      ensures Valid() && nodes == map[] && refs == map[]
      ensures Forward(nodes) && FromLinked(nodes) && Referred(nodes, refs)
    {
      nodes, refs := map[], map[];
    }

    method LinkNext(from: Address, to: Address)
      requires Valid()
      modifies `nodes
      ensures Valid() && nodes.Keys == old(nodes.Keys) + {from, to}
      ensures forall a <- nodes :: nodes[a] == At(old(nodes), a).(
                next := if a == from then to else At(old(nodes), a).next,
                prev := if a == to then Plus(At(old(nodes), a).prev, from) else At(old(nodes), a).prev)
      ensures from < to && Forward(old(nodes)) ==> Forward(nodes)
    {
      hide Plus, AllOrdered, NextLinked;
      ghost var before := nodes;
      LinkedNext(nodes, from, to);
      nodes := SetNext(nodes, from, to);
      nodes := SetPrev(nodes, to, Plus(At(nodes, to).prev, from));
    }

    /**
     Nothing falls through to the address any more. The other links stay, and so do those predecessors that had been
     linked elsewhere in the meantime.
     */
    method UnlinkPrev(address: Address) returns (ok: bool)
      requires Valid()
      modifies `nodes
      ensures Valid() && nodes.Keys == old(nodes.Keys) && (ok <==> address in nodes)
      ensures forall a <- nodes ::
                nodes[a] == old(nodes)[a].(
                  next := if old(nodes)[a].next == address then RD_NVAL else old(nodes)[a].next,
                  prev := if a == address then nodes[a].prev else old(nodes)[a].prev)
      ensures ok ==> forall x :: x in nodes[address].prev <==>
                x in old(nodes)[address].prev && !(x in old(nodes) && old(nodes)[x].next == address)
      ensures address != RD_NVAL ==> !Enters(nodes, address)
      ensures Forward(old(nodes)) ==> Forward(nodes)
    {
      hide Minus, AllOrdered, NextLinked, Unlinking;
      ghost var before := nodes;
      if address !in nodes { NothingEnters(nodes, address); return false; }
      NothingUnlinked(nodes, address);
      var i := 0;
      while i < |nodes[address].prev|
        invariant AllOrdered(nodes) && NextLinked(nodes) && Unlinking(before, nodes, address)
        invariant address in nodes && i <= |nodes[address].prev|
        invariant forall k :: 0 <= k < i ==> !FallsTo(before, nodes[address].prev[k], address)
        decreases if address in nodes then |nodes[address].prev| - i else 0
      {
        var p := nodes[address].prev[i];
        StillFalls(before, nodes, address, i);
        if p in nodes && nodes[p].next == address {
          WithoutOneOrdered(nodes, address, p);
          WithoutOneLinked(nodes, address, p);
          WithoutOneUnlinking(before, nodes, address, p);
          PrevShrinks(nodes, address, i);
          ghost var prev := nodes[address].prev;
          nodes := SetNext(nodes, p, RD_NVAL);
          nodes := SetPrev(nodes, address, Minus(nodes[address].prev, p));
          assert nodes[address].prev == Minus(prev, p) && nodes[address].prev[..i] == prev[..i];
          assert forall k :: 0 <= k < i ==> nodes[address].prev[k] == nodes[address].prev[..i][k];
        } else {
          i := i + 1;
        }
      }
      UnlinkedAll(before, nodes, address);
      UnlinkingSameKeys(before, nodes, address);
      return true;
    }

    /** Nothing falls through from the address any more, and its successor forgets it. */
    method UnlinkNext(address: Address) returns (ok: bool)
      requires Valid()
      modifies `nodes
      ensures Valid() && nodes.Keys == old(nodes.Keys) && (ok <==> address in nodes)
      ensures forall a <- nodes ::
                var before := old(nodes)[a];
                var successor := At(old(nodes), address).next;
                nodes[a] == before.(
                  next := if a == address then RD_NVAL else before.next,
                  prev := if successor != RD_NVAL && a == successor then Minus(before.prev, address) else before.prev)
      ensures Forward(old(nodes)) ==> Forward(nodes)
    {
      hide Minus, AllOrdered, NextLinked;
      if address !in nodes { return false; }
      var successor := nodes[address].next;
      if successor == RD_NVAL { return true; }
      SuccessorIsThere(nodes, address);
      WithoutOneOrdered(nodes, successor, address);
      WithoutOneLinked(nodes, successor, address);
      WithoutOneAt(nodes, successor, address);
      nodes := SetNext(nodes, address, RD_NVAL);
      if successor !in nodes { return false; }
      nodes := SetPrev(nodes, successor, Minus(nodes[successor].prev, address));
      return true;
    }

    // ---- Branches and calls

    /** Links a branch; one that is not resolved has no target, and one that is not taken is no reference. */
    method LinkBranch(from: Address, to: Address, flow: Flow)
      requires Valid()
      modifies this
      ensures Valid() && (Forward(old(nodes)) ==> Forward(nodes))
      ensures FromLinked(old(nodes)) ==> FromLinked(nodes)
      ensures Referred(old(nodes), old(refs)) ==> Referred(nodes, refs)
      ensures flow in {Branch, BranchTrue, BranchIndirect} ==>
                && BranchLinked(old(nodes), nodes, from, to, true)
                && RefLinked(old(refs), refs, from, to, !flow.BranchIndirect?)
      ensures flow.BranchFalse? ==> BranchLinked(old(nodes), nodes, from, to, false)
      ensures if flow in {Branch, BranchTrue, BranchFalse, BranchIndirect} then
                && nodes == Linked(old(nodes), from, to, Branched(At(old(nodes), from), to, flow))
                && refs == (if flow.BranchFalse? then old(refs) else WithRef(old(refs), from, to, !flow.BranchIndirect?))
              else
                && nodes == (if flow.BranchUnresolved? then old(nodes)[from := At(old(nodes), from).(flow := flow)]
                             else old(nodes))
                && refs == old(refs)
    {
      hide AllOrdered, NextLinked, RefsOrdered, WithRef, Inserted, FromLinked, Referred, Forward, Ordered, Plus,
           BranchLinked, CallLinked, RefLinked;
      ghost var before, refsBefore := nodes, refs;
      BranchedIsOrdered(nodes, from, to, flow);
      match flow {
        case Branch =>
          nodes := nodes[from := At(nodes, from).(flow := Branch, branchesTrue := Plus(At(nodes, from).branchesTrue, to))];
          refs := WithRef(refs, from, to, true);
        case BranchTrue =>
          nodes := nodes[from := At(nodes, from).(flow := Branch, branchesTrue := Plus(At(nodes, from).branchesTrue, to))];
          refs := WithRef(refs, from, to, true);
        case BranchFalse =>
          nodes := nodes[from := At(nodes, from).(flow := Branch, branchesFalse := Plus(At(nodes, from).branchesFalse, to))];
        case BranchIndirect =>
          nodes := nodes[from := At(nodes, from).(flow := Branch, branchesTrue := Plus(At(nodes, from).branchesTrue, to))];
          refs := WithRef(refs, from, to, false);
        case BranchUnresolved =>
          UnresolvedKeeps(nodes, refs, from, flow);
          nodes := nodes[from := At(nodes, from).(flow := flow)];
          return;
        case _ =>
          return;
      }
      nodes := nodes[to := At(nodes, to).(from := Plus(At(nodes, to).from, from))];
      BranchKeeps(before, refsBefore, from, to, flow);
      BranchIsLinked(before, from, to, flow);
    }

    /** Links a call; one that is not resolved has no target. */
    method LinkCall(from: Address, to: Address, flow: Flow)
      requires Valid()
      modifies this
      ensures Valid() && (Forward(old(nodes)) ==> Forward(nodes))
      ensures FromLinked(old(nodes)) ==> FromLinked(nodes)
      ensures Referred(old(nodes), old(refs)) ==> Referred(nodes, refs)
      ensures flow in {Call, CallIndirect} ==>
                CallLinked(old(nodes), nodes, from, to) && RefLinked(old(refs), refs, from, to, flow.Call?)
      ensures if flow in {Call, CallIndirect} then
                && nodes == Linked(old(nodes), from, to, Calling(At(old(nodes), from), to))
                && refs == WithRef(old(refs), from, to, flow.Call?)
              else
                && nodes == (if flow.CallUnresolved? then old(nodes)[from := At(old(nodes), from).(flow := flow)]
                             else old(nodes))
                && refs == old(refs)
    {
      hide AllOrdered, NextLinked, RefsOrdered, WithRef, Inserted, FromLinked, Referred, Forward, Ordered, Plus,
           BranchLinked, CallLinked, RefLinked;
      ghost var before, refsBefore := nodes, refs;
      match flow {
        case CallIndirect =>
          refs := WithRef(refs, from, to, false);
        case Call =>
          refs := WithRef(refs, from, to, true);
        case CallUnresolved =>
          UnresolvedKeeps(nodes, refs, from, flow);
          nodes := nodes[from := At(nodes, from).(flow := flow)];
          return;
        case _ =>
          return;
      }
      nodes := nodes[from := At(nodes, from).(calls := Plus(At(nodes, from).calls, to))];
      nodes := nodes[to := At(nodes, to).(from := Plus(At(nodes, to).from, from))];
      CallKeeps(before, refsBefore, from, to, flow);
      CallIsLinked(before, from, to);
    }

    /** Nothing is removed when one of the addresses is the end mark. */
    method RemoveRef(from: Address, to: Address)
      requires RefsOrdered(refs)
      modifies `refs
      ensures RefsOrdered(refs)
      ensures refs == if from == RD_NVAL || to == RD_NVAL then old(refs) else WithoutRef(old(refs), from, to)
      ensures forall x, y :: IsReferred(refs, x, y) <==>
                IsReferred(old(refs), x, y) && (x != from || y != to || from == RD_NVAL || to == RD_NVAL)
    {
      hide RefsOrdered, IsReferred, WithoutRef;
      if from == RD_NVAL || to == RD_NVAL { return; }
      RefTakenOut(refs, from, to);
      refs := WithoutRef(refs, from, to);
    }

    /**
     Takes a branch out. The sources still agree with the targets exactly when the address is not called from there
     as well; so do the references, which do not lose one to or from the end mark.
     */
    method UnlinkBranch(from: Address, to: Address)
      requires Valid()
      modifies this
      ensures Valid() && (Forward(old(nodes)) ==> Forward(nodes))
      ensures var n := At(old(nodes), from);
              nodes == Unlinked(old(nodes), from, to,
                                n.(branchesTrue := Minus(n.branchesTrue, to), branchesFalse := Minus(n.branchesFalse, to)))
      ensures BranchUnlinked(old(nodes), nodes, from, to)
      ensures refs == if from == RD_NVAL || to == RD_NVAL then old(refs) else WithoutRef(old(refs), from, to)
      ensures FromLinked(old(nodes)) ==> (FromLinked(nodes) <==> to !in At(old(nodes), from).calls)
      ensures Referred(old(nodes), old(refs)) ==>
                (Referred(nodes, refs) <==> from == RD_NVAL || to == RD_NVAL || to !in At(old(nodes), from).calls)
    {
      hide AllOrdered, NextLinked, RefsOrdered, WithoutRef, FromLinked, Referred, Forward, Ordered, Minus,
           BranchUnlinked, CallUnlinked;
      ghost var before, refsBefore := nodes, refs;
      nodes := nodes[from := At(nodes, from).(branchesTrue := Minus(At(nodes, from).branchesTrue, to))];
      nodes := nodes[from := At(nodes, from).(branchesFalse := Minus(At(nodes, from).branchesFalse, to))];
      nodes := nodes[to := At(nodes, to).(from := Minus(At(nodes, to).from, from))];
      RemoveRef(from, to);
      ghost var n := At(before, from);
      ghost var n' := n.(branchesTrue := Minus(n.branchesTrue, to), branchesFalse := Minus(n.branchesFalse, to));
      assert nodes == Unlinked(before, from, to, n');
      BranchTakenOut(before, refsBefore, from, to);
      BranchIsUnlinked(before, from, to);
    }

    /** Takes a call out, likewise exactly right when there is no branch to the address as well. */
    method UnlinkCall(from: Address, to: Address)
      requires Valid()
      modifies this
      ensures Valid() && (Forward(old(nodes)) ==> Forward(nodes))
      ensures var n := At(old(nodes), from);
              nodes == Unlinked(old(nodes), from, to, n.(calls := Minus(n.calls, to)))
      ensures CallUnlinked(old(nodes), nodes, from, to)
      ensures refs == if from == RD_NVAL || to == RD_NVAL then old(refs) else WithoutRef(old(refs), from, to)
      ensures FromLinked(old(nodes)) ==>
                var n := At(old(nodes), from);
                (FromLinked(nodes) <==> to !in n.branchesTrue && to !in n.branchesFalse)
      ensures Referred(old(nodes), old(refs)) ==>
                (Referred(nodes, refs) <==> from == RD_NVAL || to == RD_NVAL || to !in At(old(nodes), from).branchesTrue)
    {
      hide AllOrdered, NextLinked, RefsOrdered, WithoutRef, FromLinked, Referred, Forward, Ordered, Minus,
           BranchUnlinked, CallUnlinked;
      ghost var before, refsBefore := nodes, refs;
      nodes := nodes[from := At(nodes, from).(calls := Minus(At(nodes, from).calls, to))];
      nodes := nodes[to := At(nodes, to).(from := Minus(At(nodes, to).from, from))];
      RemoveRef(from, to);
      ghost var n := At(before, from);
      assert nodes == Unlinked(before, from, to, n.(calls := Minus(n.calls, to)));
      CallTakenOut(before, refsBefore, from, to);
      CallIsUnlinked(before, from, to);
    }

    // ---- The fall-through walk

    /**
     Follows the fall-through links from an address and adds the addresses on the way to the path. This ends because
     code is linked forward and no node stands at the end mark.
     */
    method GenerateBasicBlock(address: Address, path: set<Address>) returns (path': set<Address>,
        ghost trace: seq<Address>)
      requires Valid() && Forward(nodes) && RD_NVAL !in nodes
      ensures forall x :: x in path' <==> x in path || OnWalk(nodes, address, x)
      ensures Traces(nodes, address, trace)
    {
      hide AllOrdered, NextLinked, RefsOrdered, Visits, Walked, OnWalk;
      WalkStarts(nodes, address);
      var a := address;
      path' := path;
      trace := [];
      while a in nodes
        invariant a == Walked(nodes, address, |trace|) && Visits(nodes, address, trace)
        invariant path' == path + set x <- trace
        decreases RD_NVAL - a
      {
        VisitsNext(nodes, address, trace, a);
        path' := path' + {a};
        trace := trace + [a];
        a := nodes[a].next;
      }
      forall x: Address ensures x in trace <==> OnWalk(nodes, address, x) {
        TraceIsWalk(nodes, address, trace, x);
      }
    }

    /** The start of each function is no fall-through any more, so a later walk comes to it only by starting there. */
    method ProcessFunctionBounds(functions: seq<Address>)
      requires Valid()
      modifies `nodes
      ensures Valid() && nodes.Keys == old(nodes.Keys)
      ensures Forward(old(nodes)) ==> Forward(nodes)
      ensures forall f <- functions :: f != RD_NVAL ==> !Enters(nodes, f)
      ensures forall f <- functions, a: Address, trace: seq<Address>, i | 0 <= i < |trace| && Traces(nodes, a, trace) ::
                f != RD_NVAL && trace[i] == f ==> i == 0
    {
      hide AllOrdered, NextLinked, Traces;
      for k := 0 to |functions|
        invariant Valid() && nodes.Keys == old(nodes.Keys)
        invariant Forward(old(nodes)) ==> Forward(nodes)
        invariant forall j :: 0 <= j < k ==> functions[j] != RD_NVAL ==> !Enters(nodes, functions[j])
      {
        var _ := UnlinkPrev(functions[k]);
      }
      forall f, a: Address, trace: seq<Address>, i: int |
        f in functions && 0 <= i < |trace| && Traces(nodes, a, trace) && f != RD_NVAL && trace[i] == f ensures i == 0 {
        if i > 0 {
          LaterIsEntered(nodes, a, trace, i);
          assert false;
        }
      }
    }
  }

  function Calling(n: NetNode, to: Address): NetNode {
    n.(calls := Plus(n.calls, to))
  }

  /** Node f replaced, and f no longer among the sources of t. */
  function Unlinked(nodes: Nodes, f: Address, t: Address, n: NetNode): Nodes {
    WithSources(WithTargets(nodes, f, n), t, Minus(At(WithTargets(nodes, f, n), t).from, f))
  }

  lemma CallKeeps(nodes: Nodes, refs: References, f: Address, t: Address, flow: Flow)
    requires AllOrdered(nodes) && NextLinked(nodes) && RefsOrdered(refs)
    ensures RefLinked(refs, WithRef(refs, f, t, flow.Call?), f, t, flow.Call?)
    ensures var nodes' := Linked(nodes, f, t, Calling(At(nodes, f), t));
            var refs' := WithRef(refs, f, t, flow.Call?);
            && AllOrdered(nodes') && NextLinked(nodes') && RefsOrdered(refs')
            && (Forward(nodes) ==> Forward(nodes'))
            && (FromLinked(nodes) ==> FromLinked(nodes'))
            && (Referred(nodes, refs) ==> Referred(nodes', refs'))
  {
    hide Ordered, NodeOrdered, Plus, AllOrdered, NextLinked, Forward, FromLinked, Referred, RefsOrdered, IsReferred,
        WithRef;
    var n := Calling(At(nodes, f), t);
    AtIsOrdered(nodes, f);
    NodeParts(At(nodes, f));
    PlusHas(At(nodes, f).calls, t);
    NodeWith(At(nodes, f), n);
    RefAdded(refs, f, t, flow.Call?);
    LinkedKeeps(nodes, refs, WithRef(refs, f, t, flow.Call?), f, t, n);
  }

  lemma BranchIsLinked(nodes: Nodes, f: Address, t: Address, flow: Flow)
    requires AllOrdered(nodes)
    ensures BranchLinked(nodes, Linked(nodes, f, t, Branched(At(nodes, f), t, flow)), f, t, !flow.BranchFalse?)
  {
    hide Plus, AllOrdered, Ordered, NodeOrdered, Linked, At;
    BranchedIsOrdered(nodes, f, t, flow);
    var n := Branched(At(nodes, f), t, flow);
    LinkedNodes(nodes, f, t, n);
    PlusHas(At(nodes, f).branchesTrue, t);
    PlusHas(At(nodes, f).branchesFalse, t);
    PlusHas(At(nodes, t).from, f);
  }

  lemma LinkedNodes(nodes: Nodes, f: Address, t: Address, n: NetNode)
    requires SameLinks(At(nodes, f), n)
    ensures Linked(nodes, f, t, n).Keys == nodes.Keys + {f, t}
    ensures forall a <- Linked(nodes, f, t, n) ::
              var m := if a == f then n else At(nodes, a);
              Linked(nodes, f, t, n)[a] == if a == t then m.(from := Plus(At(nodes, t).from, f)) else m
  {
    hide Plus;
  }

  lemma CallIsLinked(nodes: Nodes, f: Address, t: Address)
    requires AllOrdered(nodes)
    ensures CallLinked(nodes, Linked(nodes, f, t, Calling(At(nodes, f), t)), f, t)
  {
    hide Plus, AllOrdered, Ordered;
    AtIsOrdered(nodes, f);
    AtIsOrdered(nodes, t);
    PlusHas(At(nodes, f).calls, t);
    PlusHas(At(nodes, t).from, f);
  }

  lemma BranchIsUnlinked(nodes: Nodes, f: Address, t: Address)
    requires AllOrdered(nodes)
    ensures var m := At(nodes, f);
            var n := m.(branchesTrue := Minus(m.branchesTrue, t), branchesFalse := Minus(m.branchesFalse, t));
            BranchUnlinked(nodes, Unlinked(nodes, f, t, n), f, t)
  {
    hide Minus, AllOrdered, Ordered;
    AtIsOrdered(nodes, f);
    AtIsOrdered(nodes, t);
    MinusHas(At(nodes, f).branchesTrue, t);
    MinusHas(At(nodes, f).branchesFalse, t);
    MinusHas(At(nodes, t).from, f);
  }

  lemma CallIsUnlinked(nodes: Nodes, f: Address, t: Address)
    requires AllOrdered(nodes)
    ensures CallUnlinked(nodes, Unlinked(nodes, f, t, At(nodes, f).(calls := Minus(At(nodes, f).calls, t))), f, t)
  {
    hide Minus, AllOrdered, Ordered;
    AtIsOrdered(nodes, f);
    AtIsOrdered(nodes, t);
    MinusHas(At(nodes, f).calls, t);
    MinusHas(At(nodes, t).from, f);
  }

  /** Unlinking keeps what holds of the links; of the targets, what their other kinds of links allow. */
  lemma UnlinkedKeeps(nodes: Nodes, refs: References, f: Address, t: Address, n: NetNode)
    requires AllOrdered(nodes) && NextLinked(nodes) && RefsOrdered(refs) && NodeOrdered(n) && SameLinks(At(nodes, f), n)
    requires forall x :: x != t ==> (Targets(n, x) ==> Targets(At(nodes, f), x))
    requires forall x :: x in n.branchesTrue || x in n.calls ==> x in At(nodes, f).branchesTrue || x in At(nodes, f).calls
    ensures var nodes' := Unlinked(nodes, f, t, n);
            && AllOrdered(nodes') && NextLinked(nodes')
            && (Forward(nodes) ==> Forward(nodes'))
            && (FromLinked(nodes) ==> (FromLinked(nodes') <==> !Targets(n, t)))
            && (Referred(nodes, refs) ==> Referred(nodes', refs))
            && (Referred(nodes, refs) ==>
                  (Referred(nodes', WithoutRef(refs, f, t)) <==> t !in n.branchesTrue && t !in n.calls))
  {
    hide Ordered, NodeOrdered, Minus, AllOrdered, NextLinked, Forward, FromLinked, Referred, RefsOrdered, IsReferred,
        Targets, WithoutRef;
    var middle := WithTargets(nodes, f, n);
    TargetsKeepValid(nodes, f, n);
    AtIsOrdered(middle, t);
    NodeParts(At(middle, t));
    var from := Minus(At(middle, t).from, f);
    MinusHas(At(middle, t).from, f);
    SourcesKeepValid(middle, t, from);
    assert At(middle, t).from == At(nodes, t).from;
    RefTakenOut(refs, f, t);
    if FromLinked(nodes) { UnlinkKeepsSources(nodes, f, t, n, from); }
    if Referred(nodes, refs) {
      LinkKeepsReferred(nodes, refs, refs, f, t, n, from);
      UnlinkKeepsReferred(nodes, refs, WithoutRef(refs, f, t), f, t, n, from);
    }
  }

  lemma BranchTakenOut(nodes: Nodes, refs: References, f: Address, t: Address)
    requires AllOrdered(nodes) && NextLinked(nodes) && RefsOrdered(refs)
    ensures var m := At(nodes, f);
            var n := m.(branchesTrue := Minus(m.branchesTrue, t), branchesFalse := Minus(m.branchesFalse, t));
            var nodes' := Unlinked(nodes, f, t, n);
            && AllOrdered(nodes') && NextLinked(nodes')
            && (Forward(nodes) ==> Forward(nodes'))
            && (FromLinked(nodes) ==> (FromLinked(nodes') <==> t !in m.calls))
            && (Referred(nodes, refs) ==> Referred(nodes', refs))
            && (Referred(nodes, refs) ==> (Referred(nodes', WithoutRef(refs, f, t)) <==> t !in m.calls))
  {
    hide Ordered, NodeOrdered, Minus, AllOrdered, NextLinked, Forward, FromLinked, Referred, RefsOrdered, IsReferred,
        WithoutRef, Unlinked;
    var m := At(nodes, f);
    var n := m.(branchesTrue := Minus(m.branchesTrue, t), branchesFalse := Minus(m.branchesFalse, t));
    AtIsOrdered(nodes, f);
    NodeParts(m);
    MinusHas(m.branchesTrue, t);
    MinusHas(m.branchesFalse, t);
    NodeWith(m, n);
    UnlinkedKeeps(nodes, refs, f, t, n);
  }

  lemma CallTakenOut(nodes: Nodes, refs: References, f: Address, t: Address)
    requires AllOrdered(nodes) && NextLinked(nodes) && RefsOrdered(refs)
    ensures var m := At(nodes, f);
            var nodes' := Unlinked(nodes, f, t, m.(calls := Minus(m.calls, t)));
            && AllOrdered(nodes') && NextLinked(nodes')
            && (Forward(nodes) ==> Forward(nodes'))
            && (FromLinked(nodes) ==> (FromLinked(nodes') <==> t !in m.branchesTrue && t !in m.branchesFalse))
            && (Referred(nodes, refs) ==> Referred(nodes', refs))
            && (Referred(nodes, refs) ==> (Referred(nodes', WithoutRef(refs, f, t)) <==> t !in m.branchesTrue))
  {
    hide Ordered, NodeOrdered, Minus, AllOrdered, NextLinked, Forward, FromLinked, Referred, RefsOrdered, IsReferred,
        WithoutRef, Unlinked;
    var m := At(nodes, f);
    var n := m.(calls := Minus(m.calls, t));
    AtIsOrdered(nodes, f);
    NodeParts(m);
    MinusHas(m.calls, t);
    NodeWith(m, n);
    UnlinkedKeeps(nodes, refs, f, t, n);
  }

  // ---- An address that is both called and branched to

  /** The net after LinkBranch(1, 2, BranchTrue) and LinkCall(1, 2, Call), in either order. */
  const BOTH: Nodes := map[
    1 := BLANK.(flow := Branch, branchesTrue := [2], calls := [2]),
    2 := BLANK.(from := [1])]

  const BOTH_REFS: References := map[2 := [Reference(1, true)]]

  lemma BothAgree()
    ensures AllOrdered(BOTH) && NextLinked(BOTH) && RefsOrdered(BOTH_REFS)
    ensures FromLinked(BOTH) && Referred(BOTH, BOTH_REFS)
  {
    OneIsOrdered();
    hide Ordered, IsReferred;
  }

  lemma OneIsOrdered()
    ensures Ordered([]) && Ordered([1]) && Ordered([2])
    ensures IsReferred(BOTH_REFS, 1, 2)
  {
    assert RefsAt(BOTH_REFS, 2)[0].address == 1;
  }

  /** The net is what the two links make of an empty one. */
  method LinkBoth(branchFirst: bool) returns (net: DocumentNet)
    ensures net.Valid() && net.nodes == BOTH && net.refs == BOTH_REFS
  {
    hide AllOrdered, NextLinked, RefsOrdered, FromLinked, Referred, Forward, BranchLinked, CallLinked, RefLinked, Linked,
         Branched, Calling, WithRef;
    net := new DocumentNet();
    if branchFirst {
      net.LinkBranch(1, 2, BranchTrue);
      net.LinkCall(1, 2, Call);
    } else {
      net.LinkCall(1, 2, Call);
      net.LinkBranch(1, 2, BranchTrue);
    }
    BothAreLinked();
  }

  lemma BothAreLinked()
    ensures var first := Linked(map[], 1, 2, Branched(At(map[], 1), 2, BranchTrue));
            Linked(first, 1, 2, Calling(At(first, 1), 2)) == BOTH
    ensures var first := Linked(map[], 1, 2, Calling(At(map[], 1), 2));
            Linked(first, 1, 2, Branched(At(first, 1), 2, BranchTrue)) == BOTH
    ensures WithRef(WithRef(map[], 1, 2, true), 1, 2, true) == BOTH_REFS
  {
    assert Plus([], 2) == [2] && Plus([], 1) == [1] && Plus([1], 1) == [1];
    hide Plus;
    var empty: Nodes := map[];
    assert Linked(empty, 1, 2, Branched(At(empty, 1), 2, BranchTrue)) ==
           map[1 := BLANK.(flow := Branch, branchesTrue := [2]), 2 := BLANK.(from := [1])];
    assert Linked(empty, 1, 2, Calling(At(empty, 1), 2)) ==
           map[1 := BLANK.(calls := [2]), 2 := BLANK.(from := [1])];
  }

  /** Unlinking either one leaves the other without its source and without its reference. */
  lemma UnlinkingOneLosesBoth()
    ensures var m := BOTH[1];
            var n := m.(branchesTrue := Minus(m.branchesTrue, 2), branchesFalse := Minus(m.branchesFalse, 2));
            !FromLinked(Unlinked(BOTH, 1, 2, n)) && !Referred(Unlinked(BOTH, 1, 2, n), WithoutRef(BOTH_REFS, 1, 2))
    ensures var n := BOTH[1].(calls := Minus(BOTH[1].calls, 2));
            !FromLinked(Unlinked(BOTH, 1, 2, n)) && !Referred(Unlinked(BOTH, 1, 2, n), WithoutRef(BOTH_REFS, 1, 2))
  {
    hide AllOrdered, NextLinked, FromLinked, Referred, RefsOrdered, Unlinked, WithoutRef, Minus;
    BothAgree();
    BranchTakenOut(BOTH, BOTH_REFS, 1, 2);
    CallTakenOut(BOTH, BOTH_REFS, 1, 2);
  }

  /** A branch instruction that got one more target. */
  function Branched(n: NetNode, to: Address, flow: Flow): NetNode {
    if flow.BranchFalse? then n.(flow := Branch, branchesFalse := Plus(n.branchesFalse, to))
    else n.(flow := Branch, branchesTrue := Plus(n.branchesTrue, to))
  }

  /** Node f replaced, and f among the sources of t. */
  function Linked(nodes: Nodes, f: Address, t: Address, n: NetNode): Nodes {
    WithSources(WithTargets(nodes, f, n), t, Plus(At(WithTargets(nodes, f, n), t).from, f))
  }

  lemma BranchedIsOrdered(nodes: Nodes, f: Address, t: Address, flow: Flow)
    requires AllOrdered(nodes)
    ensures NodeOrdered(Branched(At(nodes, f), t, flow)) && SameLinks(At(nodes, f), Branched(At(nodes, f), t, flow))
    ensures Ordered(At(nodes, f).branchesTrue) && Ordered(At(nodes, f).branchesFalse) && Ordered(At(nodes, t).from)
  {
    hide Ordered, Plus, AllOrdered, NodeOrdered;
    var n := At(nodes, f);
    AtIsOrdered(nodes, f);
    AtIsOrdered(nodes, t);
    NodeParts(n);
    NodeParts(At(nodes, t));
    PlusHas(n.branchesTrue, t);
    PlusHas(n.branchesFalse, t);
    NodeWith(n, Branched(n, t, flow));
  }

  lemma UnresolvedKeeps(nodes: Nodes, refs: References, f: Address, flow: Flow)
    requires AllOrdered(nodes) && NextLinked(nodes)
    ensures var nodes' := nodes[f := At(nodes, f).(flow := flow)];
            && AllOrdered(nodes') && NextLinked(nodes')
            && (Forward(nodes) ==> Forward(nodes'))
            && (FromLinked(nodes) ==> FromLinked(nodes'))
            && (Referred(nodes, refs) ==> Referred(nodes', refs))
  {
    hide Ordered, NodeOrdered, IsReferred;
    var n := At(nodes, f).(flow := flow);
    AtIsOrdered(nodes, f);
    FlowKeepsOrder(At(nodes, f), n);
    TargetsKeepValid(nodes, f, n);
    var nodes' := nodes[f := n];
    if FromLinked(nodes) {
      forall a, x | a in nodes' && Targets(nodes'[a], x) ensures x in nodes' && a in nodes'[x].from {
        assert a in nodes && Targets(nodes[a], x);
      }
    }
  }

  lemma FlowKeepsOrder(n: NetNode, m: NetNode)
    requires NodeOrdered(n) && m == n.(flow := m.flow)
    ensures NodeOrdered(m)
  {
  }

  lemma BranchKeeps(nodes: Nodes, refs: References, f: Address, t: Address, flow: Flow)
    requires AllOrdered(nodes) && NextLinked(nodes) && RefsOrdered(refs)
    ensures RefLinked(refs, WithRef(refs, f, t, !flow.BranchIndirect?), f, t, !flow.BranchIndirect?)
    ensures var nodes' := Linked(nodes, f, t, Branched(At(nodes, f), t, flow));
            var refs' := if flow.BranchFalse? then refs else WithRef(refs, f, t, !flow.BranchIndirect?);
            && AllOrdered(nodes') && NextLinked(nodes') && RefsOrdered(refs')
            && (Forward(nodes) ==> Forward(nodes'))
            && (FromLinked(nodes) ==> FromLinked(nodes'))
            && (Referred(nodes, refs) ==> Referred(nodes', refs'))
  {
    var n := Branched(At(nodes, f), t, flow);
    BranchedIsOrdered(nodes, f, t, flow);
    PlusHas(At(nodes, f).branchesTrue, t);
    PlusHas(At(nodes, f).branchesFalse, t);
    RefAdded(refs, f, t, !flow.BranchIndirect?);
    LinkedKeeps(nodes, refs, if flow.BranchFalse? then refs else WithRef(refs, f, t, !flow.BranchIndirect?), f, t, n);
  }

  /** Linking keeps what holds of the net. */
  lemma LinkedKeeps(nodes: Nodes, refs: References, refs': References, f: Address, t: Address, n: NetNode)
    requires AllOrdered(nodes) && NextLinked(nodes) && NodeOrdered(n) && SameLinks(At(nodes, f), n)
    requires forall x :: Targets(n, x) ==> x == t || Targets(At(nodes, f), x)
    requires forall x, y :: IsReferred(refs, x, y) ==> IsReferred(refs', x, y)
    requires forall x :: x in n.branchesTrue || x in n.calls ==>
               (x == t && IsReferred(refs', f, t)) || x in At(nodes, f).branchesTrue || x in At(nodes, f).calls
    ensures var nodes' := Linked(nodes, f, t, n);
            && AllOrdered(nodes') && NextLinked(nodes')
            && (Forward(nodes) ==> Forward(nodes'))
            && (FromLinked(nodes) ==> FromLinked(nodes'))
            && (Referred(nodes, refs) ==> Referred(nodes', refs'))
  {
    hide Ordered, NodeOrdered, Plus, AllOrdered, NextLinked, Forward, FromLinked, Referred, IsReferred, Targets;
    var middle := WithTargets(nodes, f, n);
    TargetsKeepValid(nodes, f, n);
    AtIsOrdered(middle, t);
    NodeParts(At(middle, t));
    var from := Plus(At(middle, t).from, f);
    PlusHas(At(middle, t).from, f);
    SourcesKeepValid(middle, t, from);
    assert At(middle, t).from == At(nodes, t).from;
    if FromLinked(nodes) { LinkKeepsSources(nodes, f, t, n, from); }
    if Referred(nodes, refs) { LinkKeepsReferred(nodes, refs, refs', f, t, n, from); }
  }

  lemma SuccessorIsThere(nodes: Nodes, a: Address)
    requires NextLinked(nodes) && a in nodes && nodes[a].next != RD_NVAL
    ensures nodes[a].next in nodes && FallsTo(nodes, a, nodes[a].next)
  {
  }

  lemma NothingEnters(nodes: Nodes, b: Address)
    requires NextLinked(nodes) && b !in nodes
    ensures b != RD_NVAL ==> !Enters(nodes, b)
    ensures forall a <- nodes :: nodes[a].next == b ==> b == RD_NVAL
  {
  }

  lemma NothingUnlinked(nodes: Nodes, b: Address)
    requires b in nodes
    ensures Unlinking(nodes, nodes, b)
  {
  }

  lemma UnlinkingSameKeys(before: Nodes, nodes: Nodes, b: Address)
    requires Unlinking(before, nodes, b)
    ensures before.Keys == nodes.Keys
  {
  }

  lemma StillFalls(before: Nodes, nodes: Nodes, b: Address, i: nat)
    requires b in nodes && Unlinking(before, nodes, b) && i < |nodes[b].prev|
    ensures FallsTo(before, nodes[b].prev[i], b) <==> FallsTo(nodes, nodes[b].prev[i], b)
  {
    assert nodes[b].prev[i] in nodes[b].prev;
  }

  lemma PrevShrinks(nodes: Nodes, b: Address, i: nat)
    requires AllOrdered(nodes) && b in nodes && i < |nodes[b].prev|
    ensures var prev := nodes[b].prev;
            |Minus(prev, prev[i])| == |prev| - 1 && Minus(prev, prev[i])[..i] == prev[..i]
  {
    hide Minus;
    MinusKeepsFront(nodes[b].prev, i);
  }
}
