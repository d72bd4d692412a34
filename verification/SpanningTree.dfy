/**
 Turning the graph into a tree: the state of the search that picks one tree parent for each node,
 and what the finished search means.
 */
module SpanningTree {
  import opened LayoutGraph

  /** The node at position j hangs, along a real edge, below a node listed before it. */
  ghost predicate HangsBefore(g: Graph, parent: map<Node, Node>, all: seq<Node>, j: nat)
    requires j < |all|
  {
    all[j] in parent && parent[all[j]] in all[..j] && g.HasEdge(parent[all[j]], all[j])
  }

  /** all lists the nodes taken into the tree so far, parents first; parent is the tree edge of each but the root. */
  ghost predicate ParentsFirst(g: Graph, parent: map<Node, Node>, all: seq<Node>) {
    && Distinct(all) && |all| > 0 && all[0] == g.root
    && (forall n :: n in parent <==> n in all && n != g.root)
    && (forall j :: 0 < j < |all| ==> HangsBefore(g, parent, all, j))
  }

  /** The newoutgoing lists say the same as parent, from the parents' side. */
  ghost predicate ListsChildren(blocks: Blocks, parent: map<Node, Node>) {
    && (forall p :: p in blocks ==> Distinct(blocks[p].newoutgoing))
    && (forall p, c :: p in blocks ==> (c in blocks[p].newoutgoing <==> c in parent && parent[c] == p))
  }

  /** The children of a node are listed in the order in which they were taken into the tree. */
  ghost predicate ChildrenInOrder(blocks: Blocks, all: seq<Node>) {
    forall p, i, j :: p in blocks && 0 <= i < j < |blocks[p].newoutgoing| ==>
      Before(all, blocks[p].newoutgoing[i], blocks[p].newoutgoing[j])
  }

  ghost predicate Grown(g: Graph, blocks: Blocks, parent: map<Node, Node>, all: seq<Node>) {
    && (forall n <- all :: n in blocks)
    && ParentsFirst(g, parent, all)
    && ListsChildren(blocks, parent) && ChildrenInOrder(blocks, all)
  }

  ghost predicate SameTree(before: Blocks, after: Blocks) {
    && before.Keys == after.Keys
    && forall n :: n in before ==> after[n].newoutgoing == before[n].newoutgoing
  }

  /** The nodes in the list are exactly the nodes that can be reached from the root. */
  ghost predicate ListsReachable(g: Graph, all: seq<Node>) {
    forall n :: n in all <==> g.Reachable(n)
  }

  lemma RootTree(g: Graph, blocks: Blocks)
    requires g.root in blocks
    requires forall n :: n in blocks ==> blocks[n].newoutgoing == []
    ensures Grown(g, blocks, map[], [g.root])
  {
  }

  function AddChild(blocks: Blocks, p: Node, c: Node): Blocks
    requires p in blocks
  {
    blocks[p := blocks[p].(newoutgoing := blocks[p].newoutgoing + [c])]
  }

  lemma GrowList(g: Graph, parent: map<Node, Node>, all: seq<Node>, p: Node, c: Node)
    requires ParentsFirst(g, parent, all)
    requires p in all && c !in all && g.HasEdge(p, c)
    ensures ParentsFirst(g, parent[c := p], all + [c])
  {
    var all', parent' := all + [c], parent[c := p];
    assert all[0] in all;
    forall j | 0 < j < |all'| ensures HangsBefore(g, parent', all', j) {
      assert all'[..j] == all[..j];
      if j < |all| {
        assert all[j] in all;
        assert HangsBefore(g, parent, all, j);
      } else {
        assert all[..j] == all;
      }
    }
  }

  lemma GrowInOrder(blocks: Blocks, all: seq<Node>, p: Node, c: Node)
    requires ChildrenInOrder(blocks, all) && p in blocks
    requires forall n <- blocks[p].newoutgoing :: n in all
    ensures ChildrenInOrder(AddChild(blocks, p, c), all + [c])
  {
    hide Before;
    BeforeStays(all, [c]);
    BeforeLast(all, c);
  }

  lemma Grow(g: Graph, blocks: Blocks, parent: map<Node, Node>, all: seq<Node>, p: Node, c: Node)
    requires Grown(g, blocks, parent, all)
    requires p in all && c !in all && c in blocks && g.HasEdge(p, c)
    ensures Grown(g, AddChild(blocks, p, c), parent[c := p], all + [c])
  {
    hide Before;
    GrowList(g, parent, all, p, c);
    assert c !in blocks[p].newoutgoing;
    GrowInOrder(blocks, all, p, c);
  }

  lemma KeepTree(g: Graph, blocks: Blocks, blocks': Blocks, parent: map<Node, Node>, all: seq<Node>)
    requires Grown(g, blocks, parent, all) && SameTree(blocks, blocks')
    ensures Grown(g, blocks', parent, all)
  {
  }

  lemma ExtendPath(g: Graph, p: seq<Node>, n: Node)
    requires g.RootPath(p) && g.HasEdge(p[|p| - 1], n)
    ensures g.Reachable(n)
  {
    var q := p + [n];
    assert g.RootPath(q) && q[|q| - 1] == n;
  }

  lemma {:induction false} GrownIsReachable(
    g: Graph, blocks: Blocks, parent: map<Node, Node>, all: seq<Node>, j: nat)
    requires Grown(g, blocks, parent, all) && j < |all|
    ensures g.Reachable(all[j])
  {
    if j == 0 {
      assert g.RootPath([g.root]);
    } else {
      assert HangsBefore(g, parent, all, j);
      var i :| 0 <= i < j && all[i] == parent[all[j]];
      GrownIsReachable(g, blocks, parent, all, i);
      var p :| g.RootPath(p) && p[|p| - 1] == all[i];
      ExtendPath(g, p, all[j]);
    }
  }

  lemma {:induction false} PathStaysInside(g: Graph, p: seq<Node>, inside: seq<Node>)
    requires g.RootPath(p) && g.root in inside
    requires forall e <- g.edges :: e.source in inside ==> e.target in inside
    ensures p[|p| - 1] in inside
  {
    if |p| > 1 {
      var q := p[..|p| - 1];
      PathStaysInside(g, q, inside);
      assert g.HasEdge(p[|p| - 2], p[|p| - 1]);
    }
  }

  lemma ClosedTreeListsReachable(g: Graph, blocks: Blocks, parent: map<Node, Node>, all: seq<Node>)
    requires Grown(g, blocks, parent, all)
    requires forall e <- g.edges :: e.source in all ==> e.target in all
    ensures ListsReachable(g, all)
  {
    forall n | n in all ensures g.Reachable(n) {
      var j :| 0 <= j < |all| && all[j] == n;
      GrownIsReachable(g, blocks, parent, all, j);
    }
    forall n | g.Reachable(n) ensures n in all {
      var p :| g.RootPath(p) && p[|p| - 1] == n;
      assert all[0] in all;
      PathStaysInside(g, p, all);
    }
  }

  // ---- The incoming lists

  function Remove(s: seq<Node>, item: Node): (r: seq<Node>)
    ensures forall n :: n in r <==> n in s && n != item
    ensures item !in s ==> r == s
    ensures Distinct(s) ==> Distinct(r)
  {
    if s == [] then [] else
      assert s == [s[0]] + s[1..];
      assert Distinct(s) ==> Distinct(s[1..]) && s[0] !in s[1..];
      if s[0] == item then Remove(s[1..], item) else [s[0]] + Remove(s[1..], item)
  }

  lemma {:induction false} RemoveOneOf(s: seq<Node>, item: Node)
    requires Distinct(s) && item in s
    ensures |Remove(s, item)| == |s| - 1
  {
    assert s == [s[0]] + s[1..];
    if s[0] == item {
      assert item !in s[1..];
    } else {
      RemoveOneOf(s[1..], item);
    }
  }

  /** For a node not yet taken, incoming holds the sources of those edges into it not dealt with yet. */
  ghost predicate Pending(g: Graph, blocks: Blocks, all: seq<Node>, dealt: set<Edge>) {
    && (forall v, u :: v in blocks && v !in all ==>
          (u in blocks[v].incoming <==> g.HasEdge(u, v) && Edge(u, v) !in dealt))
    && (forall v :: v in blocks && v !in all ==> Distinct(blocks[v].incoming))
    && (forall v, u :: v in blocks && v !in all && blocks[v].incoming == [] ==> !g.HasEdge(u, v))
  }

  function DropIncoming(blocks: Blocks, u: Node, v: Node): Blocks
    requires v in blocks
  {
    blocks[v := blocks[v].(incoming := Remove(blocks[v].incoming, u))]
  }

  /** Dealing with an edge that is not the last one into its target. */
  lemma DealWith(g: Graph, blocks: Blocks, all: seq<Node>, dealt: set<Edge>, u: Node, v: Node)
    requires Pending(g, blocks, all, dealt)
    requires v in blocks && v !in all && g.HasEdge(u, v) && Edge(u, v) !in dealt
    requires |blocks[v].incoming| != 1
    ensures Pending(g, DropIncoming(blocks, u, v), all, dealt + {Edge(u, v)})
  {
    RemoveOneOf(blocks[v].incoming, u);
  }

  /** All predecessors of the node are among those listed. */
  ghost predicate AllListed(g: Graph, done: seq<Node>, v: Node) {
    forall u :: g.HasEdge(u, v) ==> u in done
  }

  /** The search deals with the edges of the nodes in the order of the list, and with those of one node as pushed. */
  ghost predicate DealtBefore(g: Graph, done: seq<Node>, d: Edge, e: Edge) {
    Before(done, d.source, e.source) || (d.source == e.source && Before(g.edges, d, e))
  }

  /**
   v is next in the queue: it hangs below the last one of its predecessors, and its tree edge comes after the tree
   edges of all nodes that are listed.
   */
  ghost predicate QueuedNext(g: Graph, parent: map<Node, Node>, done: seq<Node>, v: Node) {
    && v in parent && parent[v] in done && g.HasEdge(parent[v], v)
    && (forall u :: g.HasEdge(u, v) ==> u == parent[v] || Before(done, u, parent[v]))
    && (forall c <- done :: c != g.root ==> c in parent && DealtBefore(g, done, Edge(parent[c], c), Edge(parent[v], v)))
  }

  /** Every listed node outside forced was the next one in the queue. */
  ghost predicate Settled(g: Graph, parent: map<Node, Node>, all: seq<Node>, forced: set<Node>) {
    forall j :: 0 < j < |all| && all[j] !in forced ==> QueuedNext(g, parent, all[..j], all[j])
  }

  lemma SettledNext(g: Graph, parent: map<Node, Node>, all: seq<Node>, forced: set<Node>, forced': set<Node>, u: Node,
                    c: Node)
    requires Settled(g, parent, all, forced) && forced <= forced' && c !in all
    requires c in forced' || QueuedNext(g, parent[c := u], all, c)
    ensures Settled(g, parent[c := u], all + [c], forced')
  {
    var all', parent' := all + [c], parent[c := u];
    forall j | 0 < j < |all'| && all'[j] !in forced' ensures QueuedNext(g, parent', all'[..j], all'[j]) {
      if j == |all| {
        assert all'[..j] == all;
      } else {
        assert all'[..j] == all[..j] && all[j] !in forced && all[j] in all;
        assert forall n <- all[..j] :: n in all;
      }
    }
  }

  /** The tree edges have been dealt with. */
  ghost predicate TreeDealt(g: Graph, parent: map<Node, Node>, all: seq<Node>, dealt: set<Edge>) {
    forall c <- all :: c != g.root ==> c in parent && Edge(parent[c], c) in dealt
  }

  /** The single last predecessor of a node is being dealt with: all the others are already listed. */
  lemma LastPredecessor(g: Graph, blocks: Blocks, all: seq<Node>, dealt: set<Edge>, u: Node, v: Node)
    requires Pending(g, blocks, all, dealt)
    requires v in blocks && v !in all && g.HasEdge(u, v) && Edge(u, v) !in dealt
    requires |blocks[v].incoming| == 1
    requires forall e <- dealt :: e.source in all
    requires u in all
    ensures forall w :: g.HasEdge(w, v) ==> w in all && (w == u || Edge(w, v) in dealt)
  {
    forall w | g.HasEdge(w, v) ensures w in all && (w == u || Edge(w, v) in dealt) {
      if Edge(w, v) !in dealt {
        assert w in blocks[v].incoming && u in blocks[v].incoming;
        assert w == blocks[v].incoming[0] == u;
      }
    }
  }

  lemma TreeDealtNext(g: Graph, parent: map<Node, Node>, all: seq<Node>, dealt: set<Edge>, u: Node, v: Node)
    requires TreeDealt(g, parent, all, dealt) && v !in all
    ensures TreeDealt(g, parent[v := u], all + [v], dealt + {Edge(u, v)})
  {
  }

  lemma IsQueuedNext(g: Graph, parent: map<Node, Node>, all: seq<Node>, dealt: set<Edge>, u: Node, v: Node)
    requires TreeDealt(g, parent, all, dealt) && u in all && v !in all && g.HasEdge(u, v)
    requires forall d <- dealt :: DealtBefore(g, all, d, Edge(u, v))
    requires forall w :: g.HasEdge(w, v) ==> w in all && (w == u || Edge(w, v) in dealt)
    ensures QueuedNext(g, parent[v := u], all, v)
  {
    hide Before;
    forall w | g.HasEdge(w, v) && w != u ensures Before(all, w, u) {
      assert DealtBefore(g, all, Edge(w, v), Edge(u, v));
    }
  }

  // ---- The next node

  /** An edge leads from a listed node to one that is not listed yet. */
  ghost predicate Succeeds(g: Graph, done: seq<Node>, v: Node) {
    v !in done && exists e :: e in g.edges && e.source in done && e.target == v
  }

  /** The predecessors of a node that are not listed, be it because they cannot be reached at all. */
  ghost function OpenInto(g: Graph, done: seq<Node>, v: Node): set<Node> {
    set u | u in g.NodeSet() && g.HasEdge(u, v) && u !in done
  }

  /** Of the successors of the listed nodes, the one with the fewest open edges, and of those the one with the lowest id. */
  ghost predicate Best(g: Graph, done: seq<Node>, v: Node) {
    && Succeeds(g, done, v)
    && forall w :: Succeeds(g, done, w) && w != v ==>
         || |OpenInto(g, done, v)| < |OpenInto(g, done, w)|
         || (|OpenInto(g, done, v)| == |OpenInto(g, done, w)| && v < w)
  }

  /** Nodes that were forced in had a predecessor missing and were the best ones when they were listed. */
  ghost predicate Chosen(g: Graph, all: seq<Node>, forced: set<Node>) {
    forall j :: 0 < j < |all| && all[j] in forced ==> !AllListed(g, all[..j], all[j]) && Best(g, all[..j], all[j])
  }

  lemma ChosenNext(g: Graph, all: seq<Node>, forced: set<Node>, forced': set<Node>, c: Node)
    requires Chosen(g, all, forced) && c !in all
    requires (forced' == forced && c !in forced) || (forced' == forced + {c} && !AllListed(g, all, c) && Best(g, all, c))
    ensures Chosen(g, all + [c], forced')
  {
    hide Best, AllListed;
    var all' := all + [c];
    forall j | 0 < j < |all'| && all'[j] in forced'
      ensures !AllListed(g, all'[..j], all'[j]) && Best(g, all'[..j], all'[j])
    {
      assert all'[..j] == if j < |all| then all[..j] else all;
    }
  }

  /**
   Each node after the root stands behind all its predecessors and was the next one in the queue, or else was the best
   one that could follow.
   */
  ghost predicate WellChosen(g: Graph, parent: map<Node, Node>, order: seq<Node>) {
    forall j :: 0 < j < |order| ==>
      if AllListed(g, order[..j], order[j]) then QueuedNext(g, parent, order[..j], order[j])
      else Best(g, order[..j], order[j])
  }

  // ---- Topological order

  /** A rank that grows strictly along every edge between reachable nodes. */
  ghost predicate Ranks(g: Graph, rank: map<Node, nat>) {
    && (forall n <- g.nodes :: n in rank)
    && (forall e <- g.edges :: e.source in rank && e.target in rank &&
          (g.Reachable(e.source) && g.Reachable(e.target) ==> rank[e.source] < rank[e.target]))
  }

  /** The reachable part has a ranking, that is, no cycle. */
  ghost predicate HasRank(g: Graph) {
    exists rank :: Ranks(g, rank)
  }

  /** No edge enters the reachable part from outside. */
  ghost predicate NoneEnters(g: Graph) {
    forall e <- g.edges :: g.Reachable(e.target) ==> g.Reachable(e.source)
  }

  /** Each edge between listed nodes leads from an earlier to a later one. */
  ghost predicate Topological(g: Graph, order: seq<Node>) {
    forall j, u :: 0 <= j < |order| && u in order && g.HasEdge(u, order[j]) ==> u in order[..j]
  }

  /** When nothing is queued and a successor is still missing, there is a cycle or an edge that enters from outside. */
  lemma {:induction false} StuckMeansNoRank(
    g: Graph, blocks: Blocks, parent: map<Node, Node>, all: seq<Node>, dealt: set<Edge>, v: Node, rank: map<Node, nat>)
    requires g.Valid() && (forall n :: n in blocks <==> n in g.nodes)
    requires Grown(g, blocks, parent, all) && Pending(g, blocks, all, dealt)
    requires forall e <- g.edges :: e.source in all ==> e in dealt
    requires forall e <- dealt :: e.source in all
    requires v in blocks && v !in all && g.Reachable(v)
    requires Ranks(g, rank) && NoneEnters(g)
    ensures false
    decreases rank[v]
  {
    var p :| g.RootPath(p) && p[|p| - 1] == v;
    assert all[0] in all;
    assert |p| > 1;
    assert g.HasEdge(p[|p| - 2], v);
    var u := blocks[v].incoming[0];
    assert u in blocks[v].incoming;
    assert Edge(u, v) in g.edges;
    StuckMeansNoRank(g, blocks, parent, all, dealt, u, rank);
  }

  lemma {:induction false} RankGrowsAlong(g: Graph, rank: map<Node, nat>, p: seq<Node>)
    requires g.Valid() && g.root != 0 && Ranks(g, rank) && g.RootPath(p)
    ensures p[|p| - 1] in rank && rank[g.root] <= rank[p[|p| - 1]]
  {
    if |p| > 1 {
      var q := p[..|p| - 1];
      RankGrowsAlong(g, rank, q);
      assert g.HasEdge(p[|p| - 2], p[|p| - 1]);
      assert g.RootPath(q) && g.Reachable(q[|q| - 1]);
      assert g.Reachable(p[|p| - 1]);
      assert Edge(p[|p| - 2], p[|p| - 1]) in g.edges;
    }
  }

  /** A list of the reachable nodes can be topological only when the reachable part has no cycle. */
  lemma TopologicalGivesRank(g: Graph, order: seq<Node>)
    requires g.Valid() && Distinct(order) && ListsReachable(g, order) && Topological(g, order)
    ensures HasRank(g)
  {
    var rank: map<Node, nat> :=
      map n | n in g.NodeSet() :: if n in order then IndexOf(order, n) else 0;
    forall e | e in g.edges && g.Reachable(e.source) && g.Reachable(e.target)
      ensures rank[e.source] < rank[e.target]
    {
      var j := IndexOf(order, e.target);
      assert g.HasEdge(e.source, order[j]);
      var i :| 0 <= i < j && order[..j][i] == e.source;
      assert order[i] == e.source;
      assert IndexOf(order, e.source) == i;
    }
    assert Ranks(g, rank);
  }

  ghost function IndexOf(s: seq<Node>, n: Node): (i: nat)
    requires n in s
    ensures i < |s| && s[i] == n
  {
    var i :| 0 <= i < |s| && s[i] == n;
    i
  }

  // ---- The search

  /** Only the incoming and newoutgoing lists differ. */
  ghost predicate SameButTree(before: Blocks, after: Blocks) {
    && before.Keys == after.Keys
    && forall n :: n in before ==>
         after[n] == before[n].(incoming := after[n].incoming, newoutgoing := after[n].newoutgoing)
  }

  /** What the search has done: tree edges, nodes taken, edges dealt with, and nodes forced in. */
  datatype Progress = Progress(parent: map<Node, Node>, all: seq<Node>, dealt: set<Edge>, forced: set<Node>) {
    function Take(u: Node, v: Node): Progress {
      this.(parent := parent[v := u], all := all + [v])
    }

    function Deal(e: Edge): Progress {
      this.(dealt := dealt + {e})
    }

    function Force(v: Node): Progress {
      this.(forced := forced + {v})
    }
  }

  /** What every step of the search keeps, forced being the nodes picked without having all predecessors listed. */
  ghost predicate Search(g: Graph, before: Blocks, blocks: Blocks, s: Progress) {
    && (forall n :: n in blocks <==> n in g.nodes)
    && Grown(g, blocks, s.parent, s.all)
    && Pending(g, blocks, s.all, s.dealt)
    && Settled(g, s.parent, s.all, s.forced) && Chosen(g, s.all, s.forced)
    && (forall n <- s.forced :: n in s.all)
    && SameButTree(before, blocks)
    && (forall e <- s.dealt :: e.source in s.all)
    && TreeDealt(g, s.parent, s.all, s.dealt)
  }

  ghost predicate Closed(g: Graph, visited: set<Node>) {
    forall e <- g.edges :: e.source in visited ==> e.target in visited
  }

  lemma StartSearch(g: Graph, blocks: Blocks)
    requires g.Valid() && g.root != 0
    requires forall n :: n in blocks <==> n in g.nodes
    requires forall n :: n in blocks ==> blocks[n].newoutgoing == []
    requires forall v :: v in blocks ==> Distinct(blocks[v].incoming)
    requires forall v, u :: v in blocks ==> (u in blocks[v].incoming <==> g.HasEdge(u, v))
    ensures Search(g, blocks, blocks, Progress(map[], [g.root], {}, {}))
  {
    RootTree(g, blocks);
    forall v, u | v in blocks && v !in [g.root] && blocks[v].incoming == [] ensures !g.HasEdge(u, v) {
      assert u !in blocks[v].incoming;
    }
  }

  lemma SearchIsFinite(g: Graph, before: Blocks, blocks: Blocks, s: Progress)
    requires Search(g, before, blocks, s)
    ensures |s.all| <= |g.nodes|
  {
    DistinctFits(s.all, g.nodes);
  }

  lemma {:induction false} DistinctFits(s: seq<Node>, t: seq<Node>)
    requires Distinct(s) && forall n <- s :: n in t
    ensures |s| <= |t|
  {
    if s != [] {
      var last := s[|s| - 1];
      var i := IndexOf(t, last);
      var init, rest := s[..|s| - 1], t[..i] + t[i + 1..];
      forall n | n in init ensures n in rest {
        var k := IndexOf(t, n);
        assert n != last;
        assert n == if k < i then rest[k] else rest[k - 1];
      }
      DistinctFits(init, rest);
    }
  }

  lemma PendingWithout(g: Graph, blocks: Blocks, all: seq<Node>, dealt: set<Edge>, u: Node, v: Node)
    requires Pending(g, blocks, all, dealt) && v in blocks && u in blocks
    ensures Pending(g, AddChild(DropIncoming(blocks, u, v), u, v), all + [v], dealt)
    ensures Pending(g, AddChild(DropIncoming(blocks, u, v), u, v), all + [v], dealt + {Edge(u, v)})
  {
    var after := AddChild(DropIncoming(blocks, u, v), u, v);
    assert forall w :: w in blocks && w != v ==> after[w].incoming == blocks[w].incoming;
    assert forall w :: w !in all + [v] ==> w !in all && w != v;
  }

  lemma OnlyTreeChanged(before: Blocks, blocks: Blocks, u: Node, v: Node)
    requires SameButTree(before, blocks) && v in blocks && u in blocks
    ensures SameButTree(before, DropIncoming(blocks, u, v))
    ensures SameButTree(before, AddChild(DropIncoming(blocks, u, v), u, v))
    ensures DropIncoming(blocks, u, v).Keys == AddChild(DropIncoming(blocks, u, v), u, v).Keys == blocks.Keys
    ensures SameTree(blocks, DropIncoming(blocks, u, v))
  {
  }

  lemma TakeIntoTree(g: Graph, blocks: Blocks, parent: map<Node, Node>, all: seq<Node>, u: Node, v: Node)
    requires Grown(g, blocks, parent, all)
    requires u in all && v !in all && v in blocks && g.HasEdge(u, v)
    ensures Grown(g, AddChild(DropIncoming(blocks, u, v), u, v), parent[v := u], all + [v])
  {
    var dropped := DropIncoming(blocks, u, v);
    KeepTree(g, blocks, dropped, parent, all);
    Grow(g, dropped, parent, all, u, v);
  }

  lemma NotDoneTwice(g: Graph, before: Blocks, blocks: Blocks, s: Progress, n: Node, done: seq<Node>, queue: seq<Node>)
    requires Search(g, before, blocks, s) && s.all == done + [n] + queue
    ensures n !in done
  {
    assert s.all[|done|] == n;
    assert forall i :: 0 <= i < |done| ==> s.all[i] == done[i];
  }

  lemma GrownIsDistinct(g: Graph, blocks: Blocks, parent: map<Node, Node>, all: seq<Node>)
    requires Grown(g, blocks, parent, all)
    ensures Distinct(all) && |all| > 0 && all[0] == g.root
  {
  }

  lemma ListedAreBlocks(g: Graph, blocks: Blocks, parent: map<Node, Node>, all: seq<Node>)
    requires Grown(g, blocks, parent, all)
    ensures forall n <- all :: n in blocks
  {
  }

  lemma LastIsQueued(g: Graph, before: Blocks, blocks: Blocks, s: Progress, u: Node, v: Node)
    requires Search(g, before, blocks, s)
    requires u in s.all && v !in s.all && v in blocks && g.HasEdge(u, v) && Edge(u, v) !in s.dealt
    requires |blocks[v].incoming| == 1 && forall d <- s.dealt :: DealtBefore(g, s.all, d, Edge(u, v))
    ensures QueuedNext(g, s.parent[v := u], s.all, v)
  {
    hide Best, Grown, Pending, Settled, Chosen, SameButTree, DealtBefore, QueuedNext, TreeDealt;
    LastPredecessor(g, blocks, s.all, s.dealt, u, v);
    IsQueuedNext(g, s.parent, s.all, s.dealt, u, v);
  }

  /** The last open edge into v is dealt with: v becomes a child of its source. */
  lemma TakeLast(g: Graph, before: Blocks, blocks: Blocks, s: Progress, u: Node, v: Node)
    requires Search(g, before, blocks, s)
    requires u in s.all && v !in s.all && v in blocks && g.HasEdge(u, v) && Edge(u, v) !in s.dealt
    requires |blocks[v].incoming| == 1 && forall d <- s.dealt :: DealtBefore(g, s.all, d, Edge(u, v))
    ensures Search(g, before, AddChild(DropIncoming(blocks, u, v), u, v), s.Take(u, v).Deal(Edge(u, v)))
  {
    hide Best, Grown, Pending, Settled, Chosen, SameButTree, DropIncoming, AddChild, QueuedNext, DealtBefore,
         AllListed, TreeDealt;
    ListedAreBlocks(g, blocks, s.parent, s.all);
    LastIsQueued(g, before, blocks, s, u, v);
    TreeDealtNext(g, s.parent, s.all, s.dealt, u, v);
    SettledNext(g, s.parent, s.all, s.forced, s.forced, u, v);
    ChosenNext(g, s.all, s.forced, s.forced, v);
    TakeIntoTree(g, blocks, s.parent, s.all, u, v);
    PendingWithout(g, blocks, s.all, s.dealt, u, v);
    OnlyTreeChanged(before, blocks, u, v);
  }

  lemma DealInside(g: Graph, before: Blocks, blocks: Blocks, s: Progress, e: Edge)
    requires Search(g, before, blocks, s) && e.source in s.all && e.target in s.all
    ensures Search(g, before, blocks, s.Deal(e))
  {
  }

  lemma Deal(g: Graph, before: Blocks, blocks: Blocks, s: Progress, u: Node, v: Node)
    requires Search(g, before, blocks, s)
    requires u in s.all && v !in s.all && v in blocks && g.HasEdge(u, v) && Edge(u, v) !in s.dealt
    requires |blocks[v].incoming| != 1
    ensures Search(g, before, DropIncoming(blocks, u, v), s.Deal(Edge(u, v)))
  {
    hide Best, Grown, Pending, Settled, Chosen, SameButTree, SameTree, DropIncoming, AddChild;
    ListedAreBlocks(g, blocks, s.parent, s.all);
    DealWith(g, blocks, s.all, s.dealt, u, v);
    OnlyTreeChanged(before, blocks, u, v);
    KeepTree(g, blocks, DropIncoming(blocks, u, v), s.parent, s.all);
  }

  /** With nothing queued, the best successor v is taken below u although other predecessors of it are not listed. */
  lemma TakeBest(g: Graph, before: Blocks, blocks: Blocks, s: Progress, u: Node, v: Node)
    requires g.Valid() && Search(g, before, blocks, s)
    requires u in s.all && v !in s.all && v in blocks && g.HasEdge(u, v) && Best(g, s.all, v)
    requires forall e :: e in s.dealt <==> e in g.edges && e.source in s.all
    ensures Search(g, before, AddChild(DropIncoming(blocks, u, v), u, v), s.Take(u, v).Force(v))
    ensures !(HasRank(g) && NoneEnters(g))
  {
    hide Best, NoneEnters, HasRank, Grown, Pending, Settled, Chosen, SameButTree, DropIncoming, AddChild,
         AllListed, TreeDealt;
    ListedAreBlocks(g, blocks, s.parent, s.all);
    StuckHere(g, before, blocks, s, u, v);
    SomeUnlisted(g, before, blocks, s, u, v);
    TreeDealtNext(g, s.parent, s.all, s.dealt, u, v);
    assert s.dealt + {Edge(u, v)} == s.dealt;
    SettledNext(g, s.parent, s.all, s.forced, s.forced + {v}, u, v);
    ChosenNext(g, s.all, s.forced, s.forced + {v}, v);
    TakeIntoTree(g, blocks, s.parent, s.all, u, v);
    PendingWithout(g, blocks, s.all, s.dealt, u, v);
    OnlyTreeChanged(before, blocks, u, v);
  }

  /** With all edges of the listed nodes dealt with, a node that is still open has a predecessor not listed. */
  lemma SomeUnlisted(g: Graph, before: Blocks, blocks: Blocks, s: Progress, u: Node, v: Node)
    requires Search(g, before, blocks, s)
    requires v !in s.all && v in blocks && g.HasEdge(u, v)
    requires forall e :: e in s.dealt <==> e in g.edges && e.source in s.all
    ensures !AllListed(g, s.all, v)
  {
    hide Best, Grown, Settled, Chosen;
    var w := blocks[v].incoming[0];
    assert w in blocks[v].incoming && Edge(w, v) !in s.dealt;
    assert Edge(w, v).source == w && g.HasEdge(w, v);
  }

  lemma StuckHere(g: Graph, before: Blocks, blocks: Blocks, s: Progress, u: Node, v: Node)
    requires g.Valid() && Search(g, before, blocks, s)
    requires u in s.all && v !in s.all && v in blocks && g.HasEdge(u, v)
    requires forall e :: e in s.dealt <==> e in g.edges && e.source in s.all
    ensures !(HasRank(g) && NoneEnters(g))
  {
    hide Best, NoneEnters, Chosen;
    if HasRank(g) && NoneEnters(g) {
      var rank :| Ranks(g, rank);
      var j := IndexOf(s.all, u);
      GrownIsReachable(g, blocks, s.parent, s.all, j);
      var p :| g.RootPath(p) && p[|p| - 1] == u;
      ExtendPath(g, p, v);
      StuckMeansNoRank(g, blocks, s.parent, s.all, s.dealt, v, rank);
    }
  }

  /** The open incoming edges that are counted are those from nodes not listed. */
  lemma OpenIsIncoming(g: Graph, before: Blocks, blocks: Blocks, s: Progress, v: Node)
    requires g.Valid() && Search(g, before, blocks, s) && v in blocks && v !in s.all
    requires forall e :: e in s.dealt <==> e in g.edges && e.source in s.all
    ensures |OpenInto(g, s.all, v)| == |blocks[v].incoming|
  {
    hide Best;
    var incoming := blocks[v].incoming;
    forall u ensures u in incoming <==> u in OpenInto(g, s.all, v) {
      if g.HasEdge(u, v) { assert Edge(u, v) in g.edges && Edge(u, v).source in g.nodes; }
    }
    AsMany(incoming, OpenInto(g, s.all, v));
  }

  lemma {:induction false} AsMany(s: seq<Node>, some: set<Node>)
    requires Distinct(s) && forall n :: n in s <==> n in some
    ensures |some| == |s|
  {
    if s == [] {
      assert some == {};
    } else {
      var last := s[|s| - 1];
      AsMany(s[..|s| - 1], some - {last});
    }
  }

  lemma EachIsWellChosen(g: Graph, parent: map<Node, Node>, all: seq<Node>, forced: set<Node>)
    requires Settled(g, parent, all, forced) && Chosen(g, all, forced)
    ensures WellChosen(g, parent, all)
  {
    hide Best, QueuedNext, AllListed;
    forall j | 0 < j < |all| && all[j] !in forced ensures AllListed(g, all[..j], all[j]) {
      QueuedIsListed(g, parent, all[..j], all[j]);
    }
  }

  lemma FinishSearch(g: Graph, before: Blocks, blocks: Blocks, s: Progress)
    requires g.Valid() && g.root != 0 && Search(g, before, blocks, s)
    requires Closed(g, set n <- s.all)
    requires s.forced != {} ==> !(HasRank(g) && NoneEnters(g))
    ensures Grown(g, blocks, s.parent, s.all) && SameButTree(before, blocks)
    ensures ListsReachable(g, s.all) && WellChosen(g, s.parent, s.all)
    ensures Topological(g, s.all) ==> HasRank(g)
    ensures NoneEnters(g) ==> (HasRank(g) <==> Topological(g, s.all))
  {
    hide Best, NoneEnters, HasRank, Topological, WellChosen, QueuedNext, Settled, Chosen, Pending, SameButTree, Grown,
         AllListed, ListsReachable, TreeDealt;
    EachIsWellChosen(g, s.parent, s.all, s.forced);
    ClosedTreeListsReachable(g, blocks, s.parent, s.all);
    GrownIsDistinct(g, blocks, s.parent, s.all);
    if Topological(g, s.all) {
      TopologicalGivesRank(g, s.all);
    }
    if HasRank(g) && NoneEnters(g) {
      RankedIsTopological(g, s.parent, s.all);
    }
  }

  /** With nothing forced in, every node stands behind its predecessors; the root of a ranked graph has none. */
  lemma RankedIsTopological(g: Graph, parent: map<Node, Node>, order: seq<Node>)
    requires g.Valid() && g.root != 0 && HasRank(g) && |order| > 0 && order[0] == g.root
    requires ListsReachable(g, order) && Settled(g, parent, order, {})
    ensures Topological(g, order)
  {
    hide Best, QueuedNext;
    var rank :| Ranks(g, rank);
    RootHasNoPredecessor(g, rank);
    forall j, u | 0 <= j < |order| && u in order && g.HasEdge(u, order[j]) ensures u in order[..j] {
      assert j > 0;
      QueuedIsListed(g, parent, order[..j], order[j]);
    }
  }

  lemma QueuedIsListed(g: Graph, parent: map<Node, Node>, done: seq<Node>, v: Node)
    requires QueuedNext(g, parent, done, v)
    ensures AllListed(g, done, v)
  {
    hide DealtBefore;
  }

  lemma RootHasNoPredecessor(g: Graph, rank: map<Node, nat>)
    requires g.Valid() && g.root != 0 && Ranks(g, rank)
    ensures forall u :: g.Reachable(u) ==> !g.HasEdge(u, g.root)
  {
    assert g.RootPath([g.root]) && g.Reachable(g.root);
    forall u | g.Reachable(u) ensures !g.HasEdge(u, g.root) {
      var p :| g.RootPath(p) && p[|p| - 1] == u;
      RankGrowsAlong(g, rank, p);
    }
  }

  // ---- There is one order

  lemma NotBothBefore<T(!new)>(s: seq<T>, a: T, b: T)
    requires Distinct(s) && Before(s, a, b)
    ensures a != b && !Before(s, b, a)
  {
  }

  lemma BeforeInPrefix<T(!new)>(s: seq<T>, j: nat, k: nat, a: T, b: T)
    requires Distinct(s) && j <= k <= |s| && b in s[..j] && Before(s[..k], a, b)
    ensures Before(s[..j], a, b)
  {
    var x, y :| 0 <= x < y < k && s[..k][x] == a && s[..k][y] == b;
    var i :| 0 <= i < j && s[..j][i] == b;
    assert s[y] == s[i];
    assert s[..j][x] == a && s[..j][y] == b;
  }

  /** In whichever of the two orders a queued node is listed, its parent is the last of its predecessors. */
  lemma SameParent(g: Graph, parent: map<Node, Node>, done: seq<Node>, other: map<Node, Node>, order: seq<Node>, k: nat,
                   v: Node)
    requires QueuedNext(g, parent, done, v) && Distinct(order) && |done| <= k <= |order| && order[..|done|] == done
    requires QueuedNext(g, other, order[..k], v)
    ensures other[v] == parent[v]
  {
    hide Before, DealtBefore;
    var a, b := parent[v], other[v];
    if a != b {
      assert Before(done, b, a) && Before(order[..k], a, b);
      assert AllListed(g, done, v) by { QueuedIsListed(g, parent, done, v); }
      BeforeInPrefix(order, |done|, k, a, b);
      NotBothBefore(done, a, b);
    }
  }

  /** Two nodes that could both come next from the queue: their tree edges say which one does. */
  lemma QueueDecides(g: Graph, done: seq<Node>, v: Node, w: Node, p: map<Node, Node>, a: seq<Node>, k: nat,
                     q: map<Node, Node>, b: seq<Node>, l: nat)
    requires Distinct(g.edges) && Distinct(a) && Distinct(b) && v != w && g.root !in [v, w]
    requires |done| < k <= |a| && |done| < l <= |b| && a[..|done|] == done == b[..|done|]
    requires a[|done|] == v && b[|done|] == w
    requires QueuedNext(g, p, done, v) && QueuedNext(g, q, done, w)
    ensures !(QueuedNext(g, p, a[..k], w) && QueuedNext(g, q, b[..l], v))
  {
    hide Before;
    if QueuedNext(g, p, a[..k], w) && QueuedNext(g, q, b[..l], v) {
      SameParent(g, p, done, q, b, l, v);
      SameParent(g, q, done, p, a, k, w);
      var x, y := p[v], q[w];
      assert a[..k][|done|] == v && b[..l][|done|] == w;
      assert DealtBefore(g, a[..k], Edge(x, v), Edge(y, w)) && DealtBefore(g, b[..l], Edge(y, w), Edge(x, v));
      if x == y {
        if Before(a[..k], x, y) { NotBothBefore(a[..k], x, y); }
        if Before(b[..l], y, x) { NotBothBefore(b[..l], y, x); }
        NotBothBefore(g.edges, Edge(x, v), Edge(y, w));
      } else {
        BeforeInPrefix(a, |done|, k, x, y);
        BeforeInPrefix(b, |done|, l, y, x);
        NotBothBefore(done, x, y);
      }
    }
  }

  /** A node that lacks a predecessor cannot be the best successor beside one that lacks none. */
  lemma ListedIsBetter(g: Graph, done: seq<Node>, v: Node, w: Node)
    requires g.Valid() && AllListed(g, done, v) && v !in done && Succeeds(g, done, v) && v != w
    requires !AllListed(g, done, w)
    ensures !Best(g, done, w)
  {
    var u :| g.HasEdge(u, w) && u !in done;
    assert Edge(u, w).source in g.nodes;
    assert u in OpenInto(g, done, w) && OpenInto(g, done, v) == {};
  }

  lemma NextSucceeds(g: Graph, p: map<Node, Node>, a: seq<Node>, j: nat)
    requires WellChosen(g, p, a) && Distinct(a) && 0 < j < |a|
    ensures Succeeds(g, a[..j], a[j])
  {
    hide Before, DealtBefore;
    if AllListed(g, a[..j], a[j]) {
      assert Edge(p[a[j]], a[j]) in g.edges;
    }
  }

  lemma {:induction false} SameNext(g: Graph, p: map<Node, Node>, a: seq<Node>, q: map<Node, Node>, b: seq<Node>, j: nat)
    requires g.Valid() && Distinct(a) && Distinct(b) && 0 < j < |a| && j < |b|
    requires a[0] == b[0] == g.root && WellChosen(g, p, a) && WellChosen(g, q, b)
    requires a[..j] == b[..j] && a[j] in b && b[j] in a
    ensures a[j] == b[j]
  {
    hide QueuedNext, Best, Succeeds, AllListed;
    var done, v, w := a[..j], a[j], b[j];
    if v != w {
      var k, l := IndexOf(a, w), IndexOf(b, v);
      BehindPrefix(a, b, j);
      BehindPrefix(b, a, j);
      NextSucceeds(g, p, a, j);
      NextSucceeds(g, q, b, j);
      StaysListed(g, a, j, k, w);
      StaysListed(g, b, j, l, v);
      if AllListed(g, done, v) {
        if AllListed(g, done, w) {
          QueueDecides(g, done, v, w, p, a, k, q, b, l);
        } else {
          ListedIsBetter(g, done, v, w);
        }
      } else if AllListed(g, done, w) {
        ListedIsBetter(g, done, w, v);
      } else {
        BestIsOne(g, done, v, w);
      }
    }
  }

  lemma IndexInPrefix(s: seq<Node>, j: nat, n: Node)
    requires n in s && j <= |s|
    ensures IndexOf(s, n) < j ==> n in s[..j]
  {
    var k := IndexOf(s, n);
    if k < j { assert s[..j][k] == n; }
  }

  lemma BehindPrefix(a: seq<Node>, b: seq<Node>, j: nat)
    requires j < |a| && j < |b| && a[..j] == b[..j] && Distinct(b) && b[j] in a && a[j] != b[j]
    ensures IndexOf(a, b[j]) > j
  {
    assert b[j] !in b[..j];
    IndexInPrefix(a, j, b[j]);
  }

  lemma BestIsOne(g: Graph, done: seq<Node>, v: Node, w: Node)
    requires Best(g, done, v) && Best(g, done, w)
    ensures v == w
  {
  }

  lemma StaysListed(g: Graph, order: seq<Node>, j: nat, k: nat, v: Node)
    requires j <= k <= |order|
    ensures AllListed(g, order[..j], v) ==> AllListed(g, order[..k], v)
  {
    assert forall n <- order[..j] :: n in order[..k];
  }

  /**
   The search lists the nodes in one order only, whatever the order in which the map gives the blocks, and every node
   that waited in the queue hangs below the same parent.
   */
  lemma OrderIsUnique(g: Graph, p: map<Node, Node>, a: seq<Node>, q: map<Node, Node>, b: seq<Node>)
    requires g.Valid() && Distinct(a) && Distinct(b) && |a| > 0 && |b| > 0 && a[0] == b[0] == g.root
    requires ListsReachable(g, a) && WellChosen(g, p, a) && ListsReachable(g, b) && WellChosen(g, q, b)
    ensures a == b
    ensures forall j :: 0 < j < |a| && AllListed(g, a[..j], a[j]) ==>
              a[j] in p && a[j] in q && p[a[j]] == q[a[j]] && p[a[j]] in a[..j]
  {
    hide WellChosen, Graph.Reachable, AllListed;
    DistinctFits(a, b);
    DistinctFits(b, a);
    SameUpTo(g, p, a, q, b, |a|);
    assert a[..|a|] == a && b[..|a|] == b;
    forall j | 0 < j < |a| && AllListed(g, a[..j], a[j])
      ensures a[j] in p && a[j] in q && p[a[j]] == q[a[j]] && p[a[j]] in a[..j]
    {
      ParentsAgree(g, p, q, a, j);
    }
  }

  lemma ParentsAgree(g: Graph, p: map<Node, Node>, q: map<Node, Node>, a: seq<Node>, j: nat)
    requires Distinct(a) && WellChosen(g, p, a) && WellChosen(g, q, a)
    requires 0 < j < |a| && AllListed(g, a[..j], a[j])
    ensures a[j] in p && a[j] in q && p[a[j]] == q[a[j]] && p[a[j]] in a[..j]
  {
    hide Before, DealtBefore;
    assert QueuedNext(g, p, a[..j], a[j]) && QueuedNext(g, q, a[..j], a[j]);
    SameParent(g, p, a[..j], q, a, j, a[j]);
  }

  lemma {:induction false} SameUpTo(g: Graph, p: map<Node, Node>, a: seq<Node>, q: map<Node, Node>, b: seq<Node>, j: nat)
    requires g.Valid() && Distinct(a) && Distinct(b) && |a| == |b| && 0 < j <= |a| && a[0] == b[0] == g.root
    requires ListsReachable(g, a) && WellChosen(g, p, a) && ListsReachable(g, b) && WellChosen(g, q, b)
    ensures a[..j] == b[..j]
  {
    hide WellChosen, Graph.Reachable;
    if j > 1 {
      SameUpTo(g, p, a, q, b, j - 1);
      assert a[j - 1] in a && b[j - 1] in b;
      SameNext(g, p, a, q, b, j - 1);
    }
  }

  // ---- An edge from outside

  const ENTERED := Graph([1, 2, 3, 4], [Edge(1, 3), Edge(1, 2), Edge(3, 2), Edge(4, 3)], 1)

  lemma EnteredReaches(n: Node)
    ensures ENTERED.Reachable(n) <==> n in {1, 2, 3}
  {
    var g := ENTERED;
    assert Edge(1, 2) in g.edges && Edge(1, 3) in g.edges;
    assert g.RootPath([1]) && g.RootPath([1, 2]) && g.RootPath([1, 3]);
    assert [1][0] == 1 && [1, 2][1] == 2 && [1, 3][1] == 3;
    if g.Reachable(n) {
      var p :| g.RootPath(p) && p[|p| - 1] == n;
      PathStaysInside(g, p, [1, 2, 3]);
    }
  }

  /** Both successors of the root have one open edge, one of them from outside. */
  lemma EnteredOpen(done: seq<Node>)
    requires done == [1]
    ensures OpenInto(ENTERED, done, 2) == {3} && OpenInto(ENTERED, done, 3) == {4}
  {
    assert ENTERED.HasEdge(3, 2) && ENTERED.HasEdge(4, 3);
  }

  lemma SecondIsTwo(parent: map<Node, Node>, order: seq<Node>)
    requires |order| > 1 && order[0] == 1 && order[1] in {2, 3} && WellChosen(ENTERED, parent, order)
    ensures order[1] == 2
  {
    var g, done := ENTERED, order[..1];
    assert done == [1];
    assert Edge(1, 2) in g.edges && g.HasEdge(4, 3);
    assert Edge(1, 2) in g.edges && Succeeds(g, done, 2);
    assert g.HasEdge(3, 2) && 3 !in done;
    EnteredOpen(done);
    assert !Best(g, done, 3);
  }

  lemma OnlyThree(order: seq<Node>)
    requires Distinct(order) && |order| > 1 && order[0] == 1 && order[1] == 2
    requires forall n :: n in order <==> n in {1, 2, 3}
    ensures order == [1, 2, 3]
  {
    DistinctFits(order, [1, 2, 3]);
    assert 3 in order;
  }

  lemma EnteredOrder(parent: map<Node, Node>, order: seq<Node>)
    requires Distinct(order) && |order| > 0 && order[0] == 1
    requires ListsReachable(ENTERED, order) && WellChosen(ENTERED, parent, order)
    ensures order == [1, 2, 3]
  {
    hide WellChosen, Distinct;
    forall n ensures n in order <==> n in {1, 2, 3} {
      EnteredReaches(n);
    }
    assert 2 in order && |order| > 1;
    assert order[1] in order && order[1] in {2, 3} by { SecondIsOther(order); }
    SecondIsTwo(parent, order);
    OnlyThree(order);
  }

  lemma SecondIsOther(order: seq<Node>)
    requires Distinct(order) && |order| > 1 && order[0] == 1 && forall n <- order :: n in {1, 2, 3}
    ensures order[1] in {2, 3}
  {
    assert order[1] in order;
  }

  lemma EnteredHasRank()
    ensures HasRank(ENTERED)
  {
    hide Graph.Reachable;
    EnteredReaches(4);
    var rank: map<Node, nat> := map[1 := 0, 3 := 1, 2 := 2, 4 := 0];
    forall e | e in ENTERED.edges && ENTERED.Reachable(e.source) && ENTERED.Reachable(e.target)
      ensures rank[e.source] < rank[e.target]
    {
      assert e != Edge(4, 3);
    }
    assert Ranks(ENTERED, rank);
  }

  /**
   An edge from outside can keep the order from being topological although the reachable part has no cycle: the
   unreachable predecessor counts as open, so a node is taken before a reachable predecessor of it.
   */
  lemma OutsideEdgeMatters(parent: map<Node, Node>, order: seq<Node>)
    requires Distinct(order) && |order| > 0 && order[0] == 1
    requires ListsReachable(ENTERED, order) && WellChosen(ENTERED, parent, order)
    ensures order == [1, 2, 3] && HasRank(ENTERED) && !Topological(ENTERED, order)
  {
    EnteredOrder(parent, order);
    EnteredHasRank();
    assert ENTERED.HasEdge(3, order[1]);
    assert order[..1] == [1];
  }
}
