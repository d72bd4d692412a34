/** Branches and calls of the control-flow net: their targets, the sources that the targets know of, and references. */
module NetBranches {
  import opened SortedContainer
  import opened NetNodes

  // ---- Sources of branches and calls

  predicate Targets(n: NetNode, t: Address) {
    t in n.branchesTrue || t in n.branchesFalse || t in n.calls
  }

  /** A target of a branch or call knows where it comes from. */
  ghost predicate FromLinked(nodes: Nodes) {
    forall a, t :: a in nodes && Targets(nodes[a], t) ==> t in nodes && a in nodes[t].from
  }

  datatype Reference = Reference(address: Address, direct: bool)

  function AddressOf(r: Reference): nat { r.address }

  type References = map<Address, seq<Reference>>

  function RefsAt(refs: References, t: Address): seq<Reference> {
    if t in refs then refs[t] else []
  }

  ghost predicate IsReferred(refs: References, a: Address, t: Address) {
    exists i :: 0 <= i < |RefsAt(refs, t)| && RefsAt(refs, t)[i].address == a
  }

  predicate IsDirect(refs: References, a: Address, t: Address) {
    Reference(a, true) in RefsAt(refs, t)
  }

  /** Branches that are taken and calls are references. */
  ghost predicate Referred(nodes: Nodes, refs: References) {
    forall a, t :: a in nodes && (t in nodes[a].branchesTrue || t in nodes[a].calls) ==> IsReferred(refs, a, t)
  }

  ghost predicate RefsOrdered(refs: References) {
    forall t <- refs :: Increasing(AddressOf, refs[t])
  }

  // ---- What linking and unlinking do, told by what is in the lists

  /** Only the branch lists of f gain t, the one for branches that are taken or the other one, and the sources of t f. */
  ghost predicate BranchLinked(before: Nodes, after: Nodes, f: Address, t: Address, taken: bool) {
    && after.Keys == before.Keys + {f, t}
    && forall a <- after ::
         var n, m := At(before, a), after[a];
         && m.next == n.next && m.prev == n.prev && m.calls == n.calls && m.flow == (if a == f then Branch else n.flow)
         && (forall x :: x in m.branchesTrue <==> x in n.branchesTrue || (taken && a == f && x == t))
         && (forall x :: x in m.branchesFalse <==> x in n.branchesFalse || (!taken && a == f && x == t))
         && (forall x :: x in m.from <==> x in n.from || (a == t && x == f))
  }

  /** Only the calls of f gain t, and the sources of t f. */
  ghost predicate CallLinked(before: Nodes, after: Nodes, f: Address, t: Address) {
    && after.Keys == before.Keys + {f, t}
    && forall a <- after ::
         var n, m := At(before, a), after[a];
         && m.next == n.next && m.prev == n.prev && m.flow == n.flow
         && m.branchesTrue == n.branchesTrue && m.branchesFalse == n.branchesFalse
         && (forall x :: x in m.calls <==> x in n.calls || (a == f && x == t))
         && (forall x :: x in m.from <==> x in n.from || (a == t && x == f))
  }

  /** Both branch lists of f lose t, and the sources of t f. */
  ghost predicate BranchUnlinked(before: Nodes, after: Nodes, f: Address, t: Address) {
    && after.Keys == before.Keys + {f, t}
    && forall a <- after ::
         var n, m := At(before, a), after[a];
         && m.next == n.next && m.prev == n.prev && m.calls == n.calls && m.flow == n.flow
         && (forall x :: x in m.branchesTrue <==> x in n.branchesTrue && !(a == f && x == t))
         && (forall x :: x in m.branchesFalse <==> x in n.branchesFalse && !(a == f && x == t))
         && (forall x :: x in m.from <==> x in n.from && !(a == t && x == f))
  }

  /** The calls of f lose t, and the sources of t f. */
  ghost predicate CallUnlinked(before: Nodes, after: Nodes, f: Address, t: Address) {
    && after.Keys == before.Keys + {f, t}
    && forall a <- after ::
         var n, m := At(before, a), after[a];
         && m.next == n.next && m.prev == n.prev && m.flow == n.flow
         && m.branchesTrue == n.branchesTrue && m.branchesFalse == n.branchesFalse
         && (forall x :: x in m.calls <==> x in n.calls && !(a == f && x == t))
         && (forall x :: x in m.from <==> x in n.from && !(a == t && x == f))
  }

  /** One more reference, direct or not as given, unless there is one already: that one stays as it is. */
  ghost predicate RefLinked(before: References, after: References, f: Address, t: Address, direct: bool) {
    && (forall x, y :: IsReferred(after, x, y) <==> IsReferred(before, x, y) || (x == f && y == t))
    && (forall x, y :: IsDirect(after, x, y) <==>
          IsDirect(before, x, y) || (x == f && y == t && direct && !IsReferred(before, f, t)))
  }

  // ---- Changing the targets of a node

  function WithTargets(nodes: Nodes, f: Address, n: NetNode): Nodes {
    nodes[f := n]
  }

  function WithSources(nodes: Nodes, t: Address, from: seq<Address>): Nodes {
    nodes[t := At(nodes, t).(from := from)]
  }

  /** The same but for branches and calls. */
  predicate SameLinks(n: NetNode, m: NetNode) {
    n.next == m.next && n.prev == m.prev && n.from == m.from
  }

  lemma TargetsKeepValid(nodes: Nodes, f: Address, n: NetNode)
    requires AllOrdered(nodes) && NextLinked(nodes) && SameLinks(At(nodes, f), n) && NodeOrdered(n)
    ensures AllOrdered(WithTargets(nodes, f, n)) && NextLinked(WithTargets(nodes, f, n))
    ensures Forward(nodes) ==> Forward(WithTargets(nodes, f, n))
  {
    hide NodeOrdered;
  }

  lemma SourcesKeepValid(nodes: Nodes, t: Address, from: seq<Address>)
    requires AllOrdered(nodes) && NextLinked(nodes) && Ordered(from)
    ensures AllOrdered(WithSources(nodes, t, from)) && NextLinked(WithSources(nodes, t, from))
    ensures Forward(nodes) ==> Forward(WithSources(nodes, t, from))
  {
    hide Ordered;
    BlankIsOrdered();
  }

  lemma NodeParts(n: NetNode)
    requires NodeOrdered(n)
    ensures Ordered(n.from) && Ordered(n.branchesTrue) && Ordered(n.branchesFalse) && Ordered(n.calls)
  {
  }

  lemma NodeWith(n: NetNode, m: NetNode)
    requires NodeOrdered(n) && SameLinks(n, m)
    requires Ordered(m.branchesTrue) && Ordered(m.branchesFalse) && Ordered(m.calls)
    ensures NodeOrdered(m)
  {
  }

  /** The targets of the nodes after node f was replaced and t got other sources. */
  lemma TargetsAfter(nodes: Nodes, f: Address, t: Address, n: NetNode, from: seq<Address>)
    requires SameLinks(At(nodes, f), n)
    ensures var nodes' := WithSources(WithTargets(nodes, f, n), t, from);
            && nodes'.Keys == nodes.Keys + {f, t}
            && (forall a <- nodes' :: nodes'[a].from == if a == t then from else At(nodes, a).from)
            && (forall a, x :: a in nodes' ==> (Targets(nodes'[a], x) <==> Targets(if a == f then n else At(nodes, a), x)))
  {
  }

  /** A new target learns of its source. */
  lemma LinkKeepsSources(nodes: Nodes, f: Address, t: Address, n: NetNode, from: seq<Address>)
    requires FromLinked(nodes) && SameLinks(At(nodes, f), n)
    requires forall x :: Targets(n, x) ==> x == t || Targets(At(nodes, f), x)
    requires forall x :: x in from <==> x in At(nodes, t).from || x == f
    ensures FromLinked(WithSources(WithTargets(nodes, f, n), t, from))
  {
    hide Targets;
    NoTargets();
    TargetsAfter(nodes, f, t, n, from);
    var nodes' := WithSources(WithTargets(nodes, f, n), t, from);
    forall a, x | a in nodes' && Targets(nodes'[a], x) ensures x in nodes' && a in nodes'[x].from {
      assert Targets(if a == f then n else At(nodes, a), x);
      if a in nodes && Targets(nodes[a], x) {
        assert a in nodes[x].from;
      }
    }
  }

  lemma NoTargets()
    ensures forall x :: !Targets(BLANK, x)
  {
  }

  /** After f gave up t and t forgot f, the sources agree exactly when f has no other kind of link to t. */
  lemma UnlinkKeepsSources(nodes: Nodes, f: Address, t: Address, n: NetNode, from: seq<Address>)
    requires FromLinked(nodes) && SameLinks(At(nodes, f), n)
    requires forall x :: x != t ==> (Targets(n, x) ==> Targets(At(nodes, f), x))
    requires forall x :: x in from <==> x in At(nodes, t).from && x != f
    ensures FromLinked(WithSources(WithTargets(nodes, f, n), t, from)) <==> !Targets(n, t)
  {
    hide Targets;
    NoTargets();
    TargetsAfter(nodes, f, t, n, from);
    var nodes' := WithSources(WithTargets(nodes, f, n), t, from);
    assert f in nodes' && t in nodes' && f !in nodes'[t].from;
    assert Targets(nodes'[f], t) <==> Targets(n, t);
    if !Targets(n, t) {
      forall a, x | a in nodes' && Targets(nodes'[a], x) ensures x in nodes' && a in nodes'[x].from {
        assert Targets(if a == f then n else At(nodes, a), x);
        assert a in nodes && Targets(nodes[a], x);
        assert a in nodes[x].from;
      }
    }
  }

  // ---- References

  lemma RefsAtOrdered(refs: References, t: Address)
    requires RefsOrdered(refs)
    ensures Increasing(AddressOf, RefsAt(refs, t))
  {
  }

  lemma ReferredByKey(refs: References, a: Address, t: Address)
    ensures IsReferred(refs, a, t) <==> exists r :: r in RefsAt(refs, t) && r.address == a
  {
    if r :| r in RefsAt(refs, t) && r.address == a {
      var i :| 0 <= i < |RefsAt(refs, t)| && RefsAt(refs, t)[i] == r;
      assert RefsAt(refs, t)[i].address == a;
    }
    if IsReferred(refs, a, t) {
      var i :| 0 <= i < |RefsAt(refs, t)| && RefsAt(refs, t)[i].address == a;
      assert RefsAt(refs, t)[i] in RefsAt(refs, t);
    }
  }

  /** One more reference; a reference from the same address stays as it was. */
  function WithRef(refs: References, a: Address, t: Address, direct: bool): References {
    refs[t := Inserted(AddressOf, RefsAt(refs, t), Reference(a, direct))]
  }

  function WithoutRef(refs: References, a: Address, t: Address): References {
    refs[t := Removed(AddressOf, RefsAt(refs, t), Reference(a, false))]
  }

  lemma RefAdded(refs: References, a: Address, t: Address, direct: bool)
    requires RefsOrdered(refs)
    ensures RefsOrdered(WithRef(refs, a, t, direct))
    ensures RefLinked(refs, WithRef(refs, a, t, direct), a, t, direct)
    ensures forall x, y :: IsReferred(WithRef(refs, a, t, direct), x, y) <==> IsReferred(refs, x, y) || (x == a && y == t)
  {
    hide RefsOrdered, IsReferred, Increasing;
    var refs' := WithRef(refs, a, t, direct);
    RefsAtOrdered(refs, t);
    InsertedElements(AddressOf, RefsAt(refs, t), Reference(a, direct));
    StillOrdered(refs, t, refs'[t]);
    forall x, y ensures IsReferred(refs', x, y) <==> IsReferred(refs, x, y) || (x == a && y == t) {
      ReferredByKey(refs, x, y);
      ReferredByKey(refs', x, y);
      if y == t { KeyIsReferred(refs, a, t); ReferredByKey(refs, a, t); }
    }
    KeyIsReferred(refs, a, t);
  }

  lemma KeyIsReferred(refs: References, a: Address, t: Address)
    ensures HasKey(AddressOf, RefsAt(refs, t), a) <==> IsReferred(refs, a, t)
  {
  }

  lemma StillOrdered(refs: References, t: Address, s: seq<Reference>)
    requires RefsOrdered(refs) && Increasing(AddressOf, s)
    ensures RefsOrdered(refs[t := s])
  {
  }

  lemma RefTakenOut(refs: References, a: Address, t: Address)
    requires RefsOrdered(refs)
    ensures RefsOrdered(WithoutRef(refs, a, t))
    ensures forall x, y :: IsReferred(WithoutRef(refs, a, t), x, y) <==> IsReferred(refs, x, y) && !(x == a && y == t)
  {
    hide RefsOrdered, IsReferred, Increasing;
    var refs' := WithoutRef(refs, a, t);
    RefsAtOrdered(refs, t);
    RemovedElements(AddressOf, RefsAt(refs, t), Reference(a, false));
    StillOrdered(refs, t, refs'[t]);
    forall x, y ensures IsReferred(refs', x, y) <==> IsReferred(refs, x, y) && !(x == a && y == t) {
      ReferredByKey(refs, x, y);
      ReferredByKey(refs', x, y);
    }
  }

  lemma LinkKeepsReferred(nodes: Nodes, refs: References, refs': References, f: Address, t: Address, n: NetNode,
      from: seq<Address>)
    requires Referred(nodes, refs) && SameLinks(At(nodes, f), n)
    requires forall x :: x in n.branchesTrue || x in n.calls ==>
               (x == t && IsReferred(refs', f, t)) || x in At(nodes, f).branchesTrue || x in At(nodes, f).calls
    requires forall x, y :: IsReferred(refs, x, y) ==> IsReferred(refs', x, y)
    ensures Referred(WithSources(WithTargets(nodes, f, n), t, from), refs')
  {
    hide IsReferred;
  }

  /** After the reference was removed, references agree exactly when f has no other kind of link to t that is one. */
  lemma UnlinkKeepsReferred(nodes: Nodes, refs: References, refs': References, f: Address, t: Address, n: NetNode,
      from: seq<Address>)
    requires Referred(nodes, refs) && SameLinks(At(nodes, f), n)
    requires forall x :: x != t && (x in n.branchesTrue || x in n.calls) ==>
               x in At(nodes, f).branchesTrue || x in At(nodes, f).calls
    requires forall x, y :: IsReferred(refs', x, y) <==> IsReferred(refs, x, y) && !(x == f && y == t)
    ensures Referred(WithSources(WithTargets(nodes, f, n), t, from), refs') <==> t !in n.branchesTrue && t !in n.calls
  {
    hide IsReferred;
    var nodes' := WithSources(WithTargets(nodes, f, n), t, from);
    assert nodes'[f].branchesTrue == n.branchesTrue && nodes'[f].calls == n.calls;
  }
}
