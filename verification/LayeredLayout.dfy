/** The layered graph layout: the phases of LayeredLayout::execute, in place on the layout's own fields. */
module LayeredLayout {
  import opened LayoutGraph
  import opened SpanningTree
  import opened TreeLayout
  import opened BlockTree
  import opened EdgeLanes
  import opened EdgeRoute
  import opened PixelGrid
  import opened LayoutResult
  import opened EdgeLines
  import opened LineEnds

  const NODE_PADDING := 2 * PADDING

  class LayeredLayout {
    const graph: Graph
    const kind: LayoutType
    // Attributes the layout reads from and writes to the styled graph.
    var nodeWidth: map<Node, int>
    var nodeHeight: map<Node, int>

    var blocks: Blocks
    var blockorder: seq<Node>
    var horizedges: EdgeMatrix
    var vertedges: EdgeMatrix
    var edgevalid: seq<seq<bool>>
    var coledgecount: seq<int>
    var rowedgecount: seq<int>
    var colwidth: seq<int>
    var rowheight: seq<int>
    var colx: seq<int>
    var rowy: seq<int>
    var coledgex: seq<int>
    var rowedgey: seq<int>
    var nodeX: map<Node, int>
    var nodeY: map<Node, int>
    var edgeRoutes: map<Edge, seq<Pixel>>
    var edgeArrows: map<Edge, seq<Pixel>>
    var areaWidth: int
    var areaHeight: int

    constructor (graph: Graph, kind: LayoutType, width: map<Node, int>, height: map<Node, int>)
      ensures this.graph == graph && this.kind == kind && nodeWidth == width && nodeHeight == height
    {
      this.graph, this.kind, nodeWidth, nodeHeight := graph, kind, width, height;
      blocks, blockorder, edgevalid := map[], [], [];
      coledgecount, rowedgecount, colwidth, rowheight := [], [], [], [];
      colx, rowy, coledgex, rowedgey := [], [], [], [];
      nodeX, nodeY, edgeRoutes, edgeArrows, areaWidth, areaHeight := map[], map[], map[], map[], 0, 0;
      horizedges := new EdgeMatrix(0, 0);
      vertedges := new EdgeMatrix(0, 0);
    }

    /** Pads every node and makes one empty block per node. */
    method PadNodes()
      requires graph.Valid()
      requires forall n <- graph.nodes :: n in nodeWidth && n in nodeHeight
      modifies `nodeHeight, `blocks
      ensures forall n :: n in blocks <==> n in graph.nodes
      ensures nodeHeight.Keys == old(nodeHeight).Keys
      ensures forall n <- graph.nodes :: nodeHeight[n] == old(nodeHeight[n]) + NODE_PADDING
      ensures forall n <- graph.nodes :: blocks[n] == Unplaced(n, [], nodeWidth[n], nodeHeight[n])
    {
      hide Distinct, Padded;
      blocks := map[];
      ghost var before := nodeHeight;
      NothingPadded(nodeWidth, before);
      for i := 0 to |graph.nodes|
        invariant Padded(nodeWidth, before, graph.nodes[..i], nodeHeight, blocks)
      {
        var n := graph.nodes[i];
        NextItem(graph.nodes, i);
        PadNext(nodeWidth, before, graph.nodes[..i], nodeHeight, blocks, n);
        nodeHeight := nodeHeight[n := nodeHeight[n] + NODE_PADDING];
        blocks := blocks[n := Unplaced(n, [], nodeWidth[n], nodeHeight[n])];
      }
      assert graph.nodes[..|graph.nodes|] == graph.nodes;
      AllPadded(nodeWidth, before, graph.nodes, nodeHeight, blocks);
    }

    /** Populates the incoming lists; the order in which the blocks come is left open. */
    method CollectIncoming()
      requires graph.Valid()
      requires forall n :: n in blocks <==> n in graph.nodes
      requires forall n :: n in blocks ==> blocks[n].incoming == []
      modifies `blocks
      ensures Collected(old(blocks), blocks, set e <- graph.edges)
    {
      ghost var bare := blocks;
      var todo := blocks.Keys;
      ghost var dealt: set<Edge> := {};
      while todo != {}
        invariant todo <= blocks.Keys
        invariant Collected(bare, blocks, dealt)
        invariant forall e :: e in dealt <==> e in graph.edges && e.source !in todo
      {
        hide Collected;
        var n :| n in todo;
        var out := graph.Outgoing(n);
        OutgoingEdges(graph.edges, n);
        for i := 0 to |out|
          invariant todo <= blocks.Keys == bare.Keys
          invariant Collected(bare, blocks, dealt)
          invariant forall e :: e in dealt <==> e in graph.edges && (e.source !in todo || e in out[..i])
        {
          var e := out[i];
          NextItem(out, i);
          CollectNext(bare, blocks, dealt, e);
          blocks := blocks[e.target := blocks[e.target].(incoming := blocks[e.target].incoming + [n])];
          dealt := dealt + {e};
        }
        todo := todo - {n};
      }
      assert dealt == set e <- graph.edges;
    }

    method CreateBlocks()
      requires graph.Valid()
      requires forall n <- graph.nodes :: n in nodeWidth && n in nodeHeight
      modifies `nodeHeight, `blocks
      ensures forall n :: n in blocks <==> n in graph.nodes
      ensures nodeHeight.Keys == old(nodeHeight).Keys
      ensures forall n <- graph.nodes :: nodeHeight[n] == old(nodeHeight[n]) + NODE_PADDING
      ensures forall n <- graph.nodes :: blocks[n] == Unplaced(n, blocks[n].incoming, nodeWidth[n], nodeHeight[n])
      ensures forall v <- graph.nodes :: Distinct(blocks[v].incoming)
      ensures forall v, u :: v in blocks ==> (u in blocks[v].incoming <==> graph.HasEdge(u, v))
    {
      hide Distinct;
      PadNodes();
      CollectIncoming();
    }

    /** A node of the tree and a successor outside of it that has the fewest open incoming edges, lowest id first. */
    method PickBest(visited: set<Node>) returns (best: Node, bestparent: Node)
      requires graph.Valid() && (forall n :: n in blocks <==> n in graph.nodes)
      ensures best == 0 <==> forall e <- graph.edges :: e.source in visited ==> e.target in visited
      ensures best != 0 ==> bestparent in visited && best !in visited && graph.HasEdge(bestparent, best)
      ensures best != 0 ==> forall e <- graph.edges :: e.source in visited && e.target !in visited ==>
                e.target == best || Better(blocks, best, e.target)
    {
      hide BestOf, Distinct, Leaving, Seen;
      best, bestparent := 0, 0;
      BestOfNone(graph, blocks, visited);
      var bestedges := 0;
      var todo := blocks.Keys;
      while todo != {}
        invariant todo <= blocks.Keys
        invariant BestOf(blocks, visited, Leaving(graph, blocks.Keys - todo), best, bestparent)
        invariant bestedges == Incoming(blocks, best)
      {
        var n :| n in todo;
        var out := graph.Outgoing(n);
        ghost var seen := Leaving(graph, blocks.Keys - todo);
        OutgoingEdges(graph.edges, n);
        LeavingNext(graph, blocks.Keys - todo, n, out);
        assert blocks.Keys - (todo - {n}) == blocks.Keys - todo + {n};
        todo := todo - {n};
        if n in visited {
          SeenFirst(seen, out);
          for i := 0 to |out|
            invariant BestOf(blocks, visited, Seen(seen, out, i), best, bestparent)
            invariant bestedges == Incoming(blocks, best)
          {
            var e := out[i];
            SeenNext(seen, out, i);
            BestNext(blocks, visited, Seen(seen, out, i), best, bestparent, e);
            if e.target in visited { continue; }
            if best == 0
               || |blocks[e.target].incoming| < bestedges
               || (|blocks[e.target].incoming| == bestedges && e.target < best) {
              best, bestedges, bestparent := e.target, |blocks[e.target].incoming|, n;
            }
          }
        } else {
          BestSkips(blocks, visited, seen, best, bestparent, set e <- out);
        }
      }
      assert blocks.Keys - {} == blocks.Keys;
      BestOfAll(graph, blocks, visited, best, bestparent);
    }

    /** The nodes of the search so far are those done and those queued. */
    ghost predicate Searching(before: Blocks, s: Progress, visited: set<Node>, done: seq<Node>, queue: seq<Node>)
      reads `blocks
    {
      && s.all == done + queue
      && (forall n :: n in visited <==> n in s.all)
      && (forall n :: n in blocks <==> n in graph.nodes)
      && Search(graph, before, blocks, s)
    }

    /** Deals with an edge to a node outside of the tree: the node becomes a child when it is its last open edge. */
    method VisitEdge(e: Edge, visited: set<Node>, queue: seq<Node>, ghost before: Blocks, ghost s: Progress,
                     ghost done: seq<Node>)
      returns (visited': set<Node>, queue': seq<Node>, added: bool, ghost s': Progress)
      requires graph.Valid() && e in graph.edges && e !in s.dealt && e.source in s.all
      requires Searching(before, s, visited, done, queue) && forall d <- s.dealt :: DealtBefore(graph, s.all, d, e)
      modifies `blocks
      ensures Searching(before, s', visited', done, queue')
      ensures s'.dealt == s.dealt + {e} && s'.forced == s.forced
      ensures added == (e.target !in visited && |old(blocks)[e.target].incoming| == 1)
      ensures s'.all == if added then s.all + [e.target] else s.all
    {
      hide Grown, Pending, Settled, SameButTree, DealtBefore, TreeDealt, Chosen;
      visited', queue', added, s' := visited, queue, false, s;
      assert e == Edge(e.source, e.target);
      if e.target in visited {
        DealInside(graph, before, blocks, s, e);
        s' := s.Deal(e);
      } else if |blocks[e.target].incoming| == 1 {
        // All other edges into the node have been dealt with
        TakeLast(graph, before, blocks, s, e.source, e.target);
        blocks := DropIncoming(blocks, e.source, e.target);
        blocks := AddChild(blocks, e.source, e.target);
        queue' := queue + [e.target];
        visited' := visited + {e.target};
        added := true;
        s' := s.Take(e.source, e.target).Deal(e);
        assert s'.all == done + queue';
      } else {
        Deal(graph, before, blocks, s, e.source, e.target);
        blocks := DropIncoming(blocks, e.source, e.target);
        s' := s.Deal(e);
      }
    }

    lemma NewlyDone(n: Node, visited: set<Node>, queue: seq<Node>, before: Blocks, s: Progress, done: seq<Node>)
      requires Searching(before, s, visited, done + [n], queue)
      ensures n in s.all && n !in done
    {
      NotDoneTwice(graph, before, blocks, s, n, done, queue);
      assert s.all[|done|] == n;
    }

    /** The edges dealt with so far all come before the next one that leaves n. */
    lemma InTurn(before: Blocks, s: Progress, visited: set<Node>, done: seq<Node>, n: Node, queue: seq<Node>,
                 out: seq<Edge>, i: nat)
      requires Searching(before, s, visited, done + [n], queue) && i < |out| && out == OutgoingOf(graph.edges, n)
      requires forall e :: e in s.dealt <==> e in graph.edges && (e.source in done || e in out[..i])
      ensures forall d <- s.dealt :: DealtBefore(graph, s.all, d, out[i])
    {
      hide Search, Before;
      OutgoingEdges(graph.edges, n);
      OutgoingInOrder(graph.edges, n);
      assert out[i] in out && s.all == (done + [n]) + queue;
      BeforeLast(done, n);
      BeforeStays(done + [n], queue);
    }

    /** Deals with all the edges that leave one node. */
    method Expand(n: Node, visited: set<Node>, queue: seq<Node>, ghost before: Blocks, ghost s: Progress,
                  ghost done: seq<Node>)
      returns (visited': set<Node>, queue': seq<Node>, changed: bool, ghost s': Progress)
      requires graph.Valid()
      requires Searching(before, s, visited, done + [n], queue)
      requires forall e :: e in s.dealt <==> e in graph.edges && e.source in done
      modifies `blocks
      ensures Searching(before, s', visited', done + [n], queue')
      ensures forall e :: e in s'.dealt <==> e in graph.edges && e.source in done + [n]
      ensures s'.forced == s.forced
      ensures |s.all| <= |s'.all| && (changed <==> |s.all| < |s'.all|)
    {
      hide Searching, Distinct;
      NewlyDone(n, visited, queue, before, s, done);
      visited', queue', changed, s' := visited, queue, false, s;
      var out := graph.Outgoing(n);
      OutgoingEdges(graph.edges, n);
      for i := 0 to |out|
        invariant Searching(before, s', visited', done + [n], queue')
        invariant forall e :: e in s'.dealt <==> e in graph.edges && (e.source in done || e in out[..i])
        invariant s'.forced == s.forced
        invariant |s.all| <= |s'.all| && (changed <==> |s.all| < |s'.all|)
        invariant n in s'.all && n !in done
      {
        NextItem(out, i);
        InTurn(before, s', visited', done, n, queue', out, i);
        var added;
        visited', queue', added, s' := VisitEdge(out[i], visited', queue', before, s', done + [n]);
        changed := changed || added;
      }
    }

    /** With nothing queued, takes the best successor into the tree, if there is any. */
    method ForceBest(visited: set<Node>, ghost before: Blocks, ghost s: Progress)
      returns (visited': set<Node>, queue': seq<Node>, forced: bool, ghost s': Progress)
      requires graph.Valid() && Searching(before, s, visited, blockorder, [])
      requires forall e :: e in s.dealt <==> e in graph.edges && e.source in blockorder
      modifies `blocks
      ensures Searching(before, s', visited', blockorder, queue') && s'.dealt == s.dealt
      ensures forced ==> |s'.all| == |s.all| + 1 && !(HasRank(graph) && NoneEnters(graph))
      ensures !forced ==> s' == s && queue' == [] && Closed(graph, visited')
    {
      hide Search, HasRank, NoneEnters, Best, Better;
      visited', queue', s' := visited, [], s;
      assert s.all == blockorder;
      var best, bestparent := PickBest(visited);
      forced := best != 0;
      if forced {
        IsBest(graph, before, blocks, s, visited, best);
        TakeBest(graph, before, blocks, s, bestparent, best);
        blocks := DropIncoming(blocks, bestparent, best);
        blocks := AddChild(blocks, bestparent, best);
        visited' := visited + {best};
        queue' := [best];
        s' := s.Take(bestparent, best).Force(best);
      }
    }

    /** Builds the spanning tree in the newoutgoing lists and lists its nodes in blockorder. */
    method MakeAcyclic() returns (ghost parent: map<Node, Node>)
      requires graph.Valid() && graph.root != 0
      requires forall n :: n in blocks <==> n in graph.nodes
      requires forall n :: n in blocks ==> blocks[n].newoutgoing == []
      requires forall v :: v in blocks ==> Distinct(blocks[v].incoming)
      requires forall v, u :: v in blocks ==> (u in blocks[v].incoming <==> graph.HasEdge(u, v))
      requires blockorder == []
      modifies `blocks, `blockorder
      ensures Grown(graph, blocks, parent, blockorder)
      ensures ListsReachable(graph, blockorder)
      ensures WellChosen(graph, parent, blockorder)
      ensures Topological(graph, blockorder) ==> HasRank(graph)
      ensures NoneEnters(graph) ==> (HasRank(graph) <==> Topological(graph, blockorder))
      ensures SameButTree(old(blocks), blocks)
    {
      hide Search, Grown, Distinct, HasRank, NoneEnters, Topological, WellChosen, Best, ListsReachable, SameButTree;
      ghost var before := blocks;
      var visited := {graph.root};
      var queue := [graph.root];
      var changed := true;
      ghost var s := Progress(map[], [graph.root], {}, {});
      StartSearch(graph, blocks);

      while changed
        invariant Searching(before, s, visited, blockorder, queue)
        invariant forall e :: e in s.dealt <==> e in graph.edges && e.source in blockorder
        invariant s.forced != {} ==> !(HasRank(graph) && NoneEnters(graph))
        invariant !changed ==> queue == [] && Closed(graph, visited)
        decreases |graph.nodes| - |s.all|, changed
      {
        changed := false;
        ghost var known := |s.all|;
        SearchIsFinite(graph, before, blocks, s);

        // Nodes whose predecessors are all listed go first
        while queue != []
          invariant Searching(before, s, visited, blockorder, queue)
          invariant forall e :: e in s.dealt <==> e in graph.edges && e.source in blockorder
          invariant s.forced != {} ==> !(HasRank(graph) && NoneEnters(graph))
          invariant known <= |s.all| && (changed <==> known < |s.all|)
          decreases |graph.nodes| - |blockorder|
        {
          var n := queue[0];
          queue := queue[1..];
          ghost var done := blockorder;
          blockorder := blockorder + [n];
          SearchIsFinite(graph, before, blocks, s);
          assert s.all == done + [n] + queue;
          var grew;
          visited, queue, grew, s := Expand(n, visited, queue, before, s, done);
          changed := changed || grew;
        }

        // The queue has run dry: the best successor is forced in
        var forced;
        visited, queue, forced, s := ForceBest(visited, before, s);
        changed := changed || forced;
        SearchIsFinite(graph, before, blocks, s);
      }
      assert s.all == blockorder;
      FinishSearch(graph, before, blocks, s);
      parent := s.parent;
    }

    // ---- Rows and columns

    /** Moves a whole subtree. */
    method AdjustGraphLayout(n: Node, col: int, row: int, ghost t: Tree)
      requires Matches(blocks, t) && Unrepeated(t) && n == t.id
      modifies `blocks
      ensures blocks == MoveIds(old(blocks), Ids(t), col, row)
      decreases t
    {
      hide Matches, Unrepeated, Ids, IdsUpTo, MoveIds;
      MatchesKids(blocks, t);
      MoveStart(blocks, t, col, row);
      ghost var before := blocks;
      blocks := blocks[n := blocks[n].(col := blocks[n].col + col)];
      blocks := blocks[n := blocks[n].(row := blocks[n].row + row)];
      var kids := blocks[n].newoutgoing;
      for i := 0 to |kids|
        invariant blocks == MoveIds(before, IdsUpTo(t, i), col, row)
      {
        MoveNext(before, t, i, col, row);
        AdjustGraphLayout(kids[i], col, row, t.kids[i]);
      }
    }

    /** Lays out a subtree, bottom up. */
    method ComputeLayout(n: Node, ghost t: Tree)
      requires Matches(blocks, t) && Unrepeated(t) && n == t.id
      modifies `blocks
      ensures blocks == Placed(kind, old(blocks), t)
      decreases t, 1
    {
      hide Matches, Unrepeated, Ids, KidIds, Placed, KidsPlaced, KidsMoved, RootCells, RootCell;
      MatchesKids(blocks, t);
      ghost var before := blocks;
      var kids := blocks[n].newoutgoing;
      var rowcount, childcolumn := 1, 0;
      StartKids(kind, before, t);
      for i := 0 to |kids|
        invariant blocks == KidsPlaced(kind, before, t, i)
        invariant rowcount == 1 + MaxRows(RootCells(kind, t.kids), i)
        invariant i > 0 ==> childcolumn == RootCells(kind, t.kids)[i - 1].col
      {
        KidsKeepMatch(kind, before, t, i, i);
        KidsPlacedNext(kind, before, t, i);
        KidBlock(kind, before, t, i, i + 1);
        ComputeLayout(kids[i], t.kids[i]);
        if blocks[kids[i]].rowcount + 1 > rowcount {
          rowcount := blocks[kids[i]].rowcount + 1;
        }
        childcolumn := blocks[kids[i]].col;
      }

      var col, colcount;
      if kind != Wide && |kids| == 2 {
        col, colcount := ArrangePair(kids[0], kids[1], before, t);
      } else {
        col, colcount := ArrangeInRow(kids, childcolumn, before, t);
      }
      PlaceRoot(kind, before, t);
      blocks := blocks[n := blocks[n].(col := col, colcount := colcount)];
      blocks := blocks[n := blocks[n].(row := 0, rowcount := rowcount)];
    }

    /** Puts two children side by side, a child without children tucked in beside the other one. */
    method ArrangePair(l: Node, r: Node, ghost before: Blocks, ghost t: Tree)
      returns (blockcol: int, blockcolcount: int)
      requires Matches(before, t) && Unrepeated(t) && |t.kids| == 2 && kind != Wide
      requires l == t.kids[0].id && r == t.kids[1].id
      requires blocks == KidsMoved(kind, before, t, 0)
      modifies `blocks
      ensures blocks == KidsMoved(kind, before, t, 2)
      ensures blockcol == RootCell(kind, t).col && blockcolcount == RootCell(kind, t).colcount
    {
      hide Matches, Unrepeated, KidsMoved, MoveIds, RootCells, RootCell, KidOffset;
      MatchesKids(before, t);
      ParentOfPair(kind, t);
      KidBlock(kind, before, t, 0, 0);
      KidBlock(kind, before, t, 1, 0);
      var col;
      if blocks[l].newoutgoing == [] {
        col := TuckLeft(l, r, before, t);
      } else {
        col := PlaceLeftFirst(l, r, before, t);
      }
      KidBlock(kind, before, t, 0, 2);
      KidBlock(kind, before, t, 1, 2);
      blockcolcount := Max(2, col);
      if kind == Medium {
        blockcol := (blocks[l].col + blocks[r].col) / 2;
      } else {
        blockcol := (col - 2) / 2;
      }
    }

    /** The pair whose left child has children: a childless right child is tucked in beside the left one. */
    method PlaceLeftFirst(l: Node, r: Node, ghost before: Blocks, ghost t: Tree) returns (col: int)
      requires Matches(before, t) && Unrepeated(t) && |t.kids| == 2 && kind != Wide && t.kids[0].kids != []
      requires l == t.kids[0].id && r == t.kids[1].id
      requires blocks == KidsMoved(kind, before, t, 0)
      modifies `blocks
      ensures blocks == KidsMoved(kind, before, t, 2)
      ensures col == PairColumns(RootCells(kind, t.kids), Leaves(t.kids))
    {
      hide Matches, Unrepeated, KidsMoved, MoveIds, RootCells, RootCell, KidOffset, Leaves, Ids, PairColumns;
      MatchesKids(before, t);
      PairLeftFirst(kind, t);
      KidsKeepMatch(kind, before, t, 0, 0);
      KidsMovedNext(kind, before, t, 0);
      KidBlock(kind, before, t, 0, 1);
      KidBlock(kind, before, t, 1, 1);
      KidsKeepMatch(kind, before, t, 1, 1);
      KidsMovedNext(kind, before, t, 1);
      KidBlock(kind, before, t, 0, 2);
      KidBlock(kind, before, t, 1, 2);
      assert KidOffset(kind, t, 0) == 0;
      AdjustGraphLayout(l, 0, 1, t.kids[0]);
      assert blocks == KidsMoved(kind, before, t, 1);
      if blocks[r].newoutgoing == [] {
        assert KidOffset(kind, t, 1) == blocks[l].col + 2;
        AdjustGraphLayout(r, blocks[l].col + 2, 1, t.kids[1]);
        assert blocks == KidsMoved(kind, before, t, 2);
        col := Max(blocks[l].colcount, blocks[r].col + 2);
      } else {
        assert KidOffset(kind, t, 1) == blocks[l].colcount;
        AdjustGraphLayout(r, blocks[l].colcount, 1, t.kids[1]);
        assert blocks == KidsMoved(kind, before, t, 2);
        col := blocks[l].colcount + blocks[r].colcount;
      }
    }

    /** The pair whose left child has no children. */
    method TuckLeft(l: Node, r: Node, ghost before: Blocks, ghost t: Tree) returns (col: int)
      requires Matches(before, t) && Unrepeated(t) && |t.kids| == 2 && kind != Wide && t.kids[0].kids == []
      requires l == t.kids[0].id && r == t.kids[1].id
      requires blocks == KidsMoved(kind, before, t, 0)
      modifies `blocks
      ensures blocks == KidsMoved(kind, before, t, 2)
      ensures col == PairColumns(RootCells(kind, t.kids), Leaves(t.kids))
    {
      hide Matches, Unrepeated, KidsMoved, MoveIds, RootCells, RootCell, KidOffset, Ids;
      MatchesKids(before, t);
      ParentOfPair(kind, t);
      KidBlock(kind, before, t, 0, 0);
      KidBlock(kind, before, t, 1, 0);
      ghost var b0 := blocks;
      blocks := blocks[l := blocks[l].(col := blocks[r].col - 2)];
      var add := if blocks[l].col < 0 then -blocks[l].col else 0;
      MovePairWithLeaf(kind, before, t, blocks[l].col, add);
      TuckedMatch(kind, before, t, blocks[l].col, add);
      AdjustGraphLayout(r, add, 1, t.kids[1]);
      AdjustGraphLayout(l, add, 1, t.kids[0]);
      KidBlock(kind, before, t, 1, 2);
      col := blocks[r].colcount + add;
    }

    /** Puts the children side by side. */
    method ArrangeInRow(kids: seq<Node>, childcolumn: int, ghost before: Blocks, ghost t: Tree)
      returns (blockcol: int, blockcolcount: int)
      requires Matches(before, t) && Unrepeated(t) && (kind == Wide || |t.kids| != 2)
      requires kids == before[t.id].newoutgoing
      requires |kids| == 1 ==> childcolumn == RootCells(kind, t.kids)[0].col
      requires blocks == KidsMoved(kind, before, t, 0)
      modifies `blocks
      ensures blocks == KidsMoved(kind, before, t, |t.kids|)
      ensures blockcol == RootCell(kind, t).col && blockcolcount == RootCell(kind, t).colcount
    {
      hide Matches, Unrepeated, KidsMoved, RootCells, RootCell, KidOffset, MoveIds, Ids;
      MatchesKids(before, t);
      ParentOfRow(kind, t);
      var col := 0;
      for i := 0 to |kids|
        invariant blocks == KidsMoved(kind, before, t, i)
        invariant col == TotalColumns(RootCells(kind, t.kids), i)
      {
        KidsKeepMatch(kind, before, t, i, i);
        KidsMovedNext(kind, before, t, i);
        KidBlock(kind, before, t, i, i + 1);
        AdjustGraphLayout(kids[i], col, 1, t.kids[i]);
        col := col + blocks[kids[i]].colcount;
      }
      if col >= 2 {
        blockcol := if |kids| == 1 then childcolumn else (col - 2) / 2;
        blockcolcount := col;
      } else {
        // A leaf
        blockcol := 0;
        blockcolcount := 2;
      }
    }

    // ---- Edge routing

    /** The column in which an edge between two blocks moves vertically. */
    method PickColumn(start: LLBlock, end: LLBlock, ghost rows: nat, ghost cols: nat) returns (col: int)
      requires InGrid(start, rows, cols) && InGrid(end, rows, cols)
      requires |edgevalid| == rows && (forall r :: 0 <= r < rows ==> |edgevalid[r]| == cols)
      requires OuterColumnsFree(edgevalid)
      ensures ChosenColumn(edgevalid, start, end, col)
      ensures 0 <= col < cols
    {
      var minrow, maxrow := MinRow(start, end), MaxRow(start, end);
      col := start.col + 1;
      if minrow != maxrow {
        if !ColumnFree(edgevalid, col, minrow, maxrow) {
          if !ColumnFree(edgevalid, end.col + 1, minrow, maxrow) {
            assert ColumnFree(edgevalid, 0, minrow, maxrow);
            var ofs := 0;
            while true
              invariant 0 <= ofs <= start.col + 1
              invariant forall c :: ColumnFree(edgevalid, c, minrow, maxrow) ==> Distance(start.col + 1, c) >= ofs
              decreases start.col + 1 - ofs
            {
              col := start.col + 1 - ofs;
              if ColumnFree(edgevalid, col, minrow, maxrow) { break; }

              col := start.col + 1 + ofs;
              if ColumnFree(edgevalid, col, minrow, maxrow) { break; }
              ofs := ofs + 1;
            }
          } else {
            col := end.col + 1;
          }
        }
      }
    }

    ghost predicate MatricesSized(rows: nat, cols: nat)
      reads this, horizedges, vertedges
    {
      && horizedges != vertedges
      && Sized(horizedges.cells, rows, cols) && Sized(vertedges.cells, rows, cols)
      && Tight(horizedges.cells) && Tight(vertedges.cells)
      && |edgevalid| == rows && (forall r :: 0 <= r < rows ==> |edgevalid[r]| == cols)
      && OuterColumnsFree(edgevalid)
    }

    /** The route so far: its lanes were free among h0 and v0 and are all that has been marked since. */
    ghost predicate OnRoute(h0: set<Lane>, v0: set<Lane>, points: seq<Point>, stub: set<Lane>)
      reads this, horizedges, vertedges
    {
      Laid(h0, v0, Marks(horizedges.cells), Marks(vertedges.cells), points, stub)
    }

    /** The first line: out of the start block, in the least lane free there. */
    method LeaveStart(row: int, col: int, ghost rows: nat, ghost cols: nat)
      returns (points: seq<Point>, i: int)
      requires MatricesSized(rows, cols) && 0 <= row < rows && 0 <= col < cols
      modifies vertedges
      ensures MatricesSized(rows, cols)
      ensures points == [Point(row, col, 0)] && 0 <= i
      ensures LeastFree(old(Marks(vertedges.cells)), Vert(col, row, row), i)
      ensures OnRoute(old(Marks(horizedges.cells)), old(Marks(vertedges.cells)), points, {Lane(row, col, i)})
    {
      hide Marks, Sized, OuterColumnsFree, Tight, TightBut;
      i := vertedges.FirstFree(row, col, rows, cols);
      SizedAt(vertedges.cells, rows, cols, row, col);
      vertedges.MarkEdge(row, col, i, true);
      points := AddPoint([], row, col, 0);
      FirstPoint(row, col);
      assert Vert(col, row, row).Lanes(i) == {Lane(row, col, i)};
    }

    /** The second line: across to the column in which the edge will run. */
    method CrossToColumn(row: int, startcol: int, c: int, points: seq<Point>, ghost h0: set<Lane>, ghost v0: set<Lane>,
                         ghost stub: set<Lane>, ghost rows: nat, ghost cols: nat)
      returns (points': seq<Point>)
      requires MatricesSized(rows, cols) && 0 <= row < rows && 0 <= startcol < cols && 0 <= c < cols
      requires OnRoute(h0, v0, points, stub) && points == [Point(row, startcol, 0)]
      modifies horizedges
      ensures MatricesSized(rows, cols) && OnRoute(h0, v0, points', stub)
      ensures Spots(points') == [Spot(row, startcol)] + if c != startcol then [Spot(row, c)] else []
      ensures points'[|points'| - 1] == Point(row, c, 0)
      ensures (c == startcol ==> points' == points) && !StartsVertically(points')
      ensures EndsHorizontally(points') <==> c != startcol
      ensures LanesIn(points', row, c) && VertOf(points') == {} && (c == startcol ==> HorizOf(points') == {})
      ensures points'[0].row == row && points'[0].col == startcol
    {
      hide HorizOf, VertOf, Marks, LeastFree, Laid, LanesIn, Sized, OuterColumnsFree, Between, StartsVertically,
          EndsHorizontally, Tight, TightBut;
      StartLanes(points, row, c);
      points' := points;
      if c != startcol {
        BetweenRow(points[0], c);
        ghost var h := Marks(horizedges.cells);
        var index := horizedges.FindHorizEdgeIndex(row, MinOf(c, startcol), MaxOf(c, startcol), rows, cols);
        LayHoriz(h0, v0, h, Marks(vertedges.cells), points, stub, row, c, index);
        AcrossLanes(points, c, index);
        NextPoint(points, row, c, index);
        points' := AddPoint(points, row, c, index);
      }
    }

    /** The third line: along the column. In the edge's own column it takes the place of the first line. */
    method MoveAlong(startrow: int, row: int, startcol: int, c: int, i: int, points: seq<Point>,
                     ghost h0: set<Lane>, ghost v0: set<Lane>, ghost rows: nat, ghost cols: nat)
      returns (points': seq<Point>, startindex: int)
      requires MatricesSized(rows, cols)
      requires 0 <= startrow < rows && 0 <= row < rows && 0 <= startcol < cols && 0 <= c < cols && row != startrow
      requires 0 <= i && OnRoute(h0, v0, points, {Lane(startrow, startcol, i)})
      requires points != [] && points[|points| - 1] == Point(startrow, c, 0)
      requires points[0].row == startrow && points[0].col == startcol
      requires LeastFree(v0, Vert(startcol, startrow, startrow), i)
      requires if c == startcol then |points| == 1 else !StartsVertically(points) && |points| > 1
      requires LanesIn(points, startrow, c) && VertOf(points) == {}
      modifies vertedges
      ensures MatricesSized(rows, cols) && OnRoute(h0, v0, points', {Lane(startrow, startcol, startindex)})
      ensures Spots(points') == Spots(points) + [Spot(row, c)]
      ensures points'[|points'| - 1] == Point(row, c, 0)
      ensures points'[0].row == startrow && points'[0].col == startcol
      ensures LanesIn(points', startrow, c) && HorizOf(points') == HorizOf(points)
      ensures !EndsHorizontally(points') && |points'| > 1
      ensures StartsVertically(points') <==> c == startcol
      ensures startindex == if c == startcol then points'[0].index else i
    {
      hide HorizOf, VertOf, Marks, LeastFree, Laid, LanesIn, Sized, OuterColumnsFree, Between, StartsVertically,
          EndsHorizontally, Tight, TightBut;
      BetweenColumn(points[|points| - 1], row);
      startindex := i;
      if c == startcol {
        SizedAt(vertedges.cells, rows, cols, startrow, startcol);
        ghost var v := Marks(vertedges.cells);
        vertedges.MarkEdge(startrow, startcol, i, false);
        assert TightBut(vertedges.cells, startrow, startcol, i);
        var index := vertedges.FindVertEdgeIndex(c, MinOf(startrow, row), MaxOf(startrow, row), rows, cols);
        startindex := index;
        LayVertFromStub(h0, v0, Marks(horizedges.cells), v, points, row, c, i, index);
        points' := AddPoint(points, row, c, index);
        AlongLanes(points, row, c, index, startrow);
        NextPoint(points, row, c, index);
      } else {
        ghost var v := Marks(vertedges.cells);
        var index := vertedges.FindVertEdgeIndex(c, MinOf(startrow, row), MaxOf(startrow, row), rows, cols);
        LayVert(h0, v0, Marks(horizedges.cells), v, points, {Lane(startrow, startcol, i)}, row, c, index);
        points' := AddPoint(points, row, c, index);
        AlongLanes(points, row, c, index, startrow);
        NextPoint(points, row, c, index);
      }
    }

    /** The last lines: across to the end column, and into the end block. */
    method EnterEnd(row: int, endcol: int, c: int, points: seq<Point>, ghost h0: set<Lane>, ghost v0: set<Lane>,
                    ghost stub: set<Lane>, ghost rows: nat, ghost cols: nat)
      returns (points': seq<Point>)
      requires MatricesSized(rows, cols) && 0 <= row < rows && 0 <= endcol < cols && 0 <= c < cols && c != endcol
      requires OnRoute(h0, v0, points, stub)
      requires points != [] && points[|points| - 1] == Point(row, c, 0)
      requires forall l <- HorizOf(points) :: l.row != row
      requires forall l <- VertOf(points) + stub :: l.row != row || l.col != endcol
      modifies horizedges, vertedges
      ensures MatricesSized(rows, cols)
      ensures EndsHorizontally(points') && |points'| > 1
      ensures OnRoute(h0, v0, points', stub + {Lane(row, endcol, points'[|points'| - 1].index)})
      ensures Spots(points') == Spots(points) + [Spot(row, endcol)]
      ensures points'[|points'| - 1].row == row && points'[|points'| - 1].col == endcol
      ensures LeastFree(v0, Vert(endcol, row, row), points'[|points'| - 1].index)
      ensures StartsVertically(points') <==> |points| > 1 && StartsVertically(points)
      ensures points'[0].row == points[0].row && points'[0].col == points[0].col
      ensures |points| > 1 ==> points'[0] == points[0]
    {
      hide HorizOf, VertOf, Marks, LeastFree, Laid, LanesIn, Sized, OuterColumnsFree, Between, StartsVertically,
          EndsHorizontally, Tight, TightBut;
      BetweenRow(points[|points| - 1], endcol);
      ghost var h := Marks(horizedges.cells);
      var index := horizedges.FindHorizEdgeIndex(row, MinOf(c, endcol), MaxOf(c, endcol), rows, cols);
      LayHoriz(h0, v0, h, Marks(vertedges.cells), points, stub, row, endcol, index);
      ghost var run := Between(points[|points| - 1], Point(row, endcol, 0));
      assert VertOf(AddPoint(points, row, endcol, index)) == VertOf(points) by {
        AddPointLanes(points, row, endcol, index);
      }
      NextPoint(points, row, endcol, index);
      points' := AddPoint(points, row, endcol, index);

      // The stub into the target
      ghost var v := Marks(vertedges.cells);
      index := vertedges.FindVertEdgeIndex(endcol, row, row, rows, cols);
      LayEnd(h0, v0, Marks(horizedges.cells), v, points', stub, index);
      points' := points'[|points'| - 1 := points'[|points'| - 1].(index := index)];
    }

    /** Routes one edge: out of the start block, across to a free column, along it, and across to the end block. */
    method RouteEdge(start: LLBlock, end: LLBlock, ghost rows: nat, ghost cols: nat)
      returns (edge: LLEdge, ghost col: int)
      requires MatricesSized(rows, cols) && InGrid(start, rows, cols) && InGrid(end, rows, cols)
      modifies horizedges, vertedges
      ensures MatricesSized(rows, cols)
      ensures edge.source == start.node && edge.target == end.node
      ensures ChosenColumn(edgevalid, start, end, col) && Spots(edge.points) == Corners(start, end, col)
      ensures Took(old(Marks(horizedges.cells)), Marks(horizedges.cells), HorizLanes(edge))
      ensures Took(old(Marks(vertedges.cells)), Marks(vertedges.cells), VertLanes(edge))
      ensures Greedy(old(Marks(horizedges.cells)), old(Marks(vertedges.cells)), edge)
    {
      hide HorizOf, VertOf, Marks, LeastFree, GreedyRuns, Took, Sized, OuterColumnsFree, ColumnFree,
           StartsVertically, EndsHorizontally, Spots, Between, Tight;
      ghost var h0, v0 := Marks(horizedges.cells), Marks(vertedges.cells);
      var points, i := LeaveStart(start.row + 1, start.col + 1, rows, cols);
      var c := PickColumn(start, end, rows, cols);
      col := c;
      points := CrossToColumn(start.row + 1, start.col + 1, c, points, h0, v0,
                              {Lane(start.row + 1, start.col + 1, i)}, rows, cols);
      var startindex := i;
      assert end.row == start.row + 1 ==> c == start.col + 1;
      if end.row != start.row + 1 {
        points, startindex := MoveAlong(start.row + 1, end.row, start.col + 1, c, i, points, h0, v0, rows, cols);
      }
      ghost var stub := {Lane(start.row + 1, start.col + 1, startindex)};
      if c != end.col + 1 {
        points := EnterEnd(end.row, end.col + 1, c, points, h0, v0, stub, rows, cols);
      } else {
        assert !EndsHorizontally(points) && stub + {} == stub;
      }
      edge := LLEdge(start.node, end.node, points, startindex);
      FinishRoute(h0, v0, Marks(horizedges.cells), Marks(vertedges.cells), edge);
    }

    function Rows(): int
      reads this
      requires graph.root in blocks
    {
      blocks[graph.root].rowcount
    }

    function Cols(): int
      reads this
      requires graph.root in blocks
    {
      blocks[graph.root].colcount
    }

    /** Every block, laid out or not, lies on the grid of the root. */
    ghost predicate OnGrid()
      reads this
    {
      graph.root in blocks && AllInGrid(blocks, Rows(), Cols())
    }

    /** Empty lane matrices, and a mark on the middle of every node. */
    method PrepareEdgeRouting()
      requires OnGrid()
      modifies `horizedges, `vertedges, `edgevalid
      ensures fresh(horizedges) && fresh(vertedges)
      ensures MatricesSized(Rows() + 1, Cols() + 1)
      ensures Marks(horizedges.cells) == {} && Marks(vertedges.cells) == {}
      ensures MarksNodes(edgevalid, blocks)
    {
      var rows, cols := Rows() + 1, Cols() + 1;
      horizedges := new EdgeMatrix(rows, cols);
      vertedges := new EdgeMatrix(rows, cols);
      var allValid: seq<bool> := seq(cols, _ => true);
      edgevalid := seq(rows, _ => allValid);
      var todo := blocks.Keys;
      while todo != {}
        modifies `edgevalid
        invariant todo <= blocks.Keys
        invariant |edgevalid| == rows && forall r :: 0 <= r < rows ==> |edgevalid[r]| == cols
        invariant MarksSome(edgevalid, blocks, blocks.Keys - todo)
      {
        hide MarksSome;
        var n :| n in todo;
        var row, col := blocks[n].row, blocks[n].col;
        MarkNext(edgevalid, blocks, blocks.Keys - todo, n);
        assert blocks.Keys - (todo - {n}) == blocks.Keys - todo + {n};
        edgevalid := edgevalid[row := edgevalid[row][col + 1 := false]];
        todo := todo - {n};
      }
      assert blocks.Keys - {} == blocks.Keys;
      GridLeavesOuterColumns(edgevalid, blocks, rows, cols);
    }

    /** The routes laid so far are kept by the blocks they leave, and hold all the lanes that are marked. */
    ghost predicate Routing(before: Blocks, routes: seq<LLEdge>, rows: nat, cols: nat)
      reads this, horizedges, vertedges
    {
      && MatricesSized(rows, cols)
      && KeepsRoutes(before, blocks, routes)
      && AllWellRouted(edgevalid, before, routes)
      && Marks(horizedges.cells) == AllHoriz(routes)
      && Marks(vertedges.cells) == AllVert(routes)
    }

    method RouteNext(e: Edge, ghost before: Blocks, ghost routes: seq<LLEdge>, ghost rows: nat, ghost cols: nat)
      returns (ghost routes': seq<LLEdge>)
      requires Routing(before, routes, rows, cols) && e.source in blocks && e.target in blocks
      requires forall n :: n in before ==> before[n].node == n && InGrid(before[n], rows, cols)
      modifies `blocks, horizedges, vertedges
      ensures Routing(before, routes', rows, cols)
      ensures EndsOf(routes') == EndsOf(routes) + [e]
    {
      hide Marks, Sized, AllHoriz, AllVert, AllWellRouted, Greedy, ChosenColumn, Spots, Corners, EndsOf, RoutesFrom,
           HorizLanes, VertLanes, OuterColumnsFree, Tight;
      var start, end := blocks[e.source], blocks[e.target];
      assert blocks[e.source] == before[e.source].(edges := RoutesFrom(routes, e.source));
      assert blocks[e.target] == before[e.target].(edges := RoutesFrom(routes, e.target));
      SameCourse(edgevalid, before[e.source], before[e.target], start, end);
      var edge, col := RouteEdge(start, end, rows, cols);
      AddRoute(edgevalid, before, routes, edge, col);
      KeepNext(before, blocks, routes, edge);
      blocks := blocks[e.source := start.(edges := start.edges + [edge])];
      routes' := routes + [edge];
    }

    /** Routes the edges of every block of the tree, in block order. */
    method PerformEdgeRouting() returns (ghost routes: seq<LLEdge>)
      requires graph.Valid() && OnGrid()
      requires MatricesSized(Rows() + 1, Cols() + 1)
      requires Marks(horizedges.cells) == {} && Marks(vertedges.cells) == {}
      requires forall n :: n in blocks <==> n in graph.nodes
      requires forall n :: n in blocks ==> blocks[n].node == n && blocks[n].edges == []
      requires forall n <- blockorder :: n in blocks
      modifies `blocks, horizedges, vertedges
      ensures Routing(old(blocks), routes, old(Rows()) + 1, old(Cols()) + 1)
      ensures EndsOf(routes) == EdgesInOrder(graph, blockorder)
    {
      hide Routing, EndsOf, MatricesSized, Marks, Distinct, InGrid;
      ghost var before, rows, cols := blocks, Rows() + 1, Cols() + 1;
      StartRouting();
      routes := [];
      for k := 0 to |blockorder|
        invariant Routing(before, routes, rows, cols)
        invariant EndsOf(routes) == EdgesInOrder(graph, blockorder[..k])
      {
        var n := blockorder[k];
        var out := graph.Outgoing(n);
        OutgoingEdges(graph.edges, n);
        NextNode(graph, blockorder, k);
        for i := 0 to |out|
          invariant Routing(before, routes, rows, cols)
          invariant EndsOf(routes) == EdgesInOrder(graph, blockorder[..k]) + out[..i]
        {
          NextItem(out, i);
          RoutingKeys(before, routes, rows, cols);
          routes := RouteNext(out[i], before, routes, rows, cols);
        }
      }
      assert blockorder[..|blockorder|] == blockorder;
    }

    lemma StartRouting()
      requires OnGrid() && MatricesSized(Rows() + 1, Cols() + 1)
      requires Marks(horizedges.cells) == {} && Marks(vertedges.cells) == {}
      requires forall n :: n in blocks ==> blocks[n].edges == []
      ensures Routing(blocks, [], Rows() + 1, Cols() + 1) && EndsOf([]) == []
    {
    }

    lemma RoutingKeys(before: Blocks, routes: seq<LLEdge>, rows: nat, cols: nat)
      requires Routing(before, routes, rows, cols)
      ensures blocks.Keys == before.Keys
    {
    }

    // ---- Pixels

    /** The number of lanes each row and each column has to make room for. */
    method ComputeEdgeCount()
      requires OnGrid() && MatricesSized(Rows() + 1, Cols() + 1)
      modifies `coledgecount, `rowedgecount
      ensures |rowedgecount| == Rows() + 1 && |coledgecount| == Cols() + 1
      ensures forall r :: 0 <= r <= Rows() ==> rowedgecount[r] == RowLanes(horizedges.cells, r, Cols() + 1)
      ensures forall c :: 0 <= c <= Cols() ==> coledgecount[c] == ColumnLanes(vertedges.cells, c, Rows() + 1)
    {
      hide OuterColumnsFree, InGrid, Tight, RowLanes, ColumnLanes;
      var rows, cols := Rows() + 1, Cols() + 1;
      var h, v := horizedges.cells, vertedges.cells;
      LanesNone(h, v, rows, cols);
      coledgecount := seq(cols, _ => 0);
      rowedgecount := seq(rows, _ => 0);
      for row := 0 to rows
        invariant |rowedgecount| == rows && |coledgecount| == cols
        invariant forall r :: 0 <= r < row ==> rowedgecount[r] == RowLanes(h, r, cols)
        invariant forall r :: row <= r < rows ==> rowedgecount[r] == 0
        invariant forall c :: 0 <= c < cols ==> coledgecount[c] == ColumnLanes(v, c, row)
      {
        for col := 0 to cols
          invariant |rowedgecount| == rows && |coledgecount| == cols
          invariant forall r :: 0 <= r < row ==> rowedgecount[r] == RowLanes(h, r, cols)
          invariant rowedgecount[row] == RowLanes(h, row, col)
          invariant forall r :: row < r < rows ==> rowedgecount[r] == 0
          invariant forall c :: 0 <= c < col ==> coledgecount[c] == ColumnLanes(v, c, row + 1)
          invariant forall c :: col <= c < cols ==> coledgecount[c] == ColumnLanes(v, c, row)
        {
          LanesNext(h, v, row, col);
          if |h[row][col]| > rowedgecount[row] {
            rowedgecount := rowedgecount[row := |h[row][col]|];
          }
          if |v[row][col]| > coledgecount[col] {
            coledgecount := coledgecount[col := |v[row][col]|];
          }
        }
      }
    }

    /** Room for every block: half of its width in each of its two columns, its height in its row. */
    method ComputeRowColumnSizes()
      requires OnGrid() && forall n :: n in blocks ==> 0 <= blocks[n].width
      modifies `colwidth, `rowheight
      ensures |colwidth| == Cols() + 1 && |rowheight| == Rows() + 1
      ensures forall c :: 0 <= c <= Cols() ==> ColumnFits(blocks, blocks.Keys, c, colwidth[c])
      ensures forall r :: 0 <= r <= Rows() ==> RowFits(blocks, blocks.Keys, r, rowheight[r])
    {
      hide ColumnFits, RowFits, ColumnsFit, RowsFit, InGrid;
      colwidth := seq(Cols() + 1, _ => 0);
      rowheight := seq(Rows() + 1, _ => 0);
      NothingFits(blocks, colwidth, rowheight);
      var todo := blocks.Keys;
      ghost var done: set<Node> := {};
      while todo != {}
        invariant todo <= blocks.Keys && done == blocks.Keys - todo
        invariant |colwidth| == Cols() + 1 && |rowheight| == Rows() + 1
        invariant ColumnsFit(blocks, done, colwidth) && RowsFit(blocks, done, rowheight)
      {
        var n :| n in todo;
        var block := blocks[n];
        WithinGrid(block, Rows(), Cols());
        ghost var widths, heights := colwidth, rowheight;
        WidenFor(blocks, done, n, colwidth);
        HeightenFor(blocks, done, n, rowheight);
        if block.width / 2 > colwidth[block.col] {
          colwidth := colwidth[block.col := block.width / 2];
        }
        if block.width / 2 > colwidth[block.col + 1] {
          colwidth := colwidth[block.col + 1 := block.width / 2];
        }
        if block.height > rowheight[block.row] {
          rowheight := rowheight[block.row := block.height];
        }
        assert colwidth == Raise(Raise(widths, block.col, block.width / 2), block.col + 1, block.width / 2);
        assert rowheight == Raise(heights, block.row, block.height);
        todo, done := todo - {n}, done + {n};
      }
      assert done == blocks.Keys;
      AllFit(blocks, done, colwidth, rowheight);
    }

    /** The cumulative positions of columns and rows, and the size of the whole area. */
    method ComputeRowColumnPositions()
      requires OnGrid()
      requires |coledgecount| == |colwidth| == Cols() + 1 && |rowedgecount| == |rowheight| == Rows() + 1
      requires forall c :: 0 <= c <= Cols() ==> 0 <= coledgecount[c] && 0 <= colwidth[c]
      requires forall r :: 0 <= r <= Rows() ==> 0 <= rowedgecount[r] && 0 <= rowheight[r]
      modifies `colx, `rowy, `coledgex, `rowedgey, `areaWidth, `areaHeight
      ensures Ladder(coledgex, colx, coledgecount, colwidth, Cols())
      ensures Ladder(rowedgey, rowy, rowedgecount, rowheight, Rows())
      ensures areaWidth == coledgex[Cols()] + PADDING + LANE_WIDTH * coledgecount[Cols()]
      ensures areaHeight == rowedgey[Rows()] + PADDING + LANE_WIDTH * rowedgecount[Rows()]
    {
      hide InGrid;
      var cols, rows := Cols(), Rows();
      var x: int;
      colx, coledgex, x := Climb(coledgecount, colwidth, cols);
      var y: int;
      rowy, rowedgey, y := Climb(rowedgecount, rowheight, rows);
      areaWidth := x + PADDING + LANE_WIDTH * coledgecount[cols];
      areaHeight := y + PADDING + LANE_WIDTH * rowedgecount[rows];
    }

    method Climb(lanes: seq<int>, size: seq<int>, n: nat) returns (pos: seq<int>, band: seq<int>, x: int)
      requires |lanes| == |size| == n + 1 && forall i :: 0 <= i <= n ==> 0 <= lanes[i] && 0 <= size[i]
      ensures Ladder(band, pos, lanes, size, n) && x == band[n]
    {
      pos := seq(n, _ => 0);
      band := seq(n + 1, _ => 0);
      x := PADDING;
      for i := 0 to n
        invariant |pos| == n && |band| == n + 1
        invariant i == 0 ==> x == PADDING
        invariant i > 0 ==> band[0] == PADDING
        invariant forall k :: 0 <= k < i ==> pos[k] == band[k] + LANE_WIDTH * lanes[k]
        invariant forall k :: 0 <= k < i - 1 ==> band[k + 1] == pos[k] + size[k]
        invariant i > 0 ==> x == pos[i - 1] + size[i - 1]
      {
        band := band[i := x];
        x := x + LANE_WIDTH * lanes[i];
        pos := pos[i := x];
        x := x + size[i];
      }
      band := band[n := x];
    }

    ghost predicate HasGrid(grid: Grid)
      reads `colx, `rowy, `coledgex, `rowedgey, `colwidth, `coledgecount, `rowedgecount
    {
      && colx == grid.colx && rowy == grid.rowy && coledgex == grid.coledgex && rowedgey == grid.rowedgey
      && colwidth == grid.colwidth && coledgecount == grid.coledgecount && rowedgecount == grid.rowedgecount
    }

    method PlaceNode(n: Node, ghost grid: Grid)
      requires HasGrid(grid) && n in blocks && grid.Holds(blocks[n])
      modifies `blocks, `nodeX, `nodeY
      ensures HasGrid(grid)
      ensures blocks == old(blocks)[n := Pixels(grid, old(blocks)[n])]
      ensures nodeX == old(nodeX)[n := blocks[n].x] && nodeY == old(nodeY)[n := blocks[n].y]
    {
      var block := blocks[n];
      var limit := colx[block.col] + colwidth[block.col] + colwidth[block.col + 1]
                   + LANE_WIDTH * coledgecount[block.col + 1];
      var x := colx[block.col] + colwidth[block.col] + (LANE_WIDTH / 2) * coledgecount[block.col + 1] - block.width / 2;
      if x + block.width > limit {
        x := limit - block.width;
      }
      blocks := blocks[n := block.(x := x, y := rowy[block.row] + PADDING)];
      nodeX := nodeX[n := blocks[n].x];
      nodeY := nodeY[n := blocks[n].y];
    }

    /** The position of every node, in the blocks and in the graph. */
    method ComputeNodePositions(ghost grid: Grid)
      requires HasGrid(grid) && forall n :: n in blocks ==> grid.Holds(blocks[n])
      modifies `blocks, `nodeX, `nodeY
      ensures blocks.Keys == old(blocks.Keys)
      ensures forall n :: n in blocks ==> blocks[n] == Pixels(grid, old(blocks)[n])
      ensures forall n :: n in blocks ==> n in nodeX && n in nodeY && nodeX[n] == blocks[n].x && nodeY[n] == blocks[n].y
    {
      hide Pixels, Grid.Holds, HasGrid;
      ghost var before := blocks;
      var todo := blocks.Keys;
      while todo != {}
        invariant HasGrid(grid)
        invariant todo <= blocks.Keys == before.Keys
        invariant forall n :: n in todo ==> blocks[n] == before[n]
        invariant forall n :: n in blocks && n !in todo ==> blocks[n] == Pixels(grid, before[n])
        invariant forall n :: n in blocks && n !in todo ==>
                    n in nodeX && n in nodeY && nodeX[n] == blocks[n].x && nodeY[n] == blocks[n].y
      {
        var n :| n in todo;
        assert grid.Holds(before[n]);
        PlaceNode(n, grid);
        todo := todo - {n};
      }
    }

    // ---- The lines of the edges

    /** The corners of one edge's line, between the bottom of its source and the top of its target. */
    method DrawEdge(edge: LLEdge, bottom: int, top: int) returns (pts: seq<Pixel>)
      requires edge.points != [] && OnBands(coledgex, rowedgey, edge.points)
      ensures pts == Polyline(coledgex, rowedgey, edge, bottom, top)
    {
      hide LineAt;
      var startcol := edge.points[0].col;
      var lastpt := Pixel(LineAt(coledgex, startcol, edge.startindex), bottom + 4 - NODE_PADDING);
      ghost var start := lastpt;
      pts := [lastpt];
      TraceStart(coledgex, rowedgey, start, edge.points);
      for i := 0 to |edge.points|
        invariant startcol == edge.points[if i == 0 then 0 else i - 1].col
        invariant pts == Trace(coledgex, rowedgey, start, edge.points)[..i + 1] && lastpt == pts[i]
      {
        var end := edge.points[i];
        TraceAt(coledgex, rowedgey, start, edge.points, i);
        var newpt;
        if startcol == end.col {
          newpt := Pixel(lastpt.x, LineAt(rowedgey, end.row, end.index));
        } else {
          newpt := Pixel(LineAt(coledgex, end.col, end.index), lastpt.y);
        }
        pts := pts + [newpt];
        lastpt := newpt;
        startcol := end.col;
      }
      pts := pts + [Pixel(lastpt.x, top - 1)];
    }

    /** The lines and arrows of the edges that leave one block. */
    method DrawFrom(n: Node, ghost routes: seq<LLEdge>, ghost done: set<LLEdge>)
      requires n in blocks && blocks[n].edges == RoutesFrom(routes, n) && Drawable(coledgex, rowedgey, blocks, routes)
      requires AtPixels()
      requires SomeDrawn(coledgex, rowedgey, blocks, done, edgeRoutes, edgeArrows) && forall e <- done :: e.source != n
      modifies `edgeRoutes, `edgeArrows
      ensures SomeDrawn(coledgex, rowedgey, blocks, done + FromNode(routes, n), edgeRoutes, edgeArrows)
    {
      hide SomeDrawn, Distinct, RoutesFrom, FromNode;
      var edges := blocks[n].edges;
      BlockRoutes(coledgex, rowedgey, blocks, routes, n);
      ghost var some := done;
      for i := 0 to |edges|
        invariant some == done + set e <- edges[..i]
        invariant SomeDrawn(coledgex, rowedgey, blocks, some, edgeRoutes, edgeArrows)
      {
        var edge := edges[i];
        var pts := DrawEdge(edge, nodeY[n] + nodeHeight[n], nodeY[edge.target]);
        var tip := pts[|pts| - 1];
        DrawnNext(coledgex, rowedgey, blocks, some, edge, edgeRoutes, edgeArrows, pts);
        edgeRoutes := edgeRoutes[Edge(n, edge.target) := pts];
        edgeArrows := edgeArrows[Edge(n, edge.target) := ArrowAt(tip)];
        assert edges[..i + 1] == edges[..i] + [edge];
        some := some + {edge};
      }
      assert edges[..|edges|] == edges;
    }

    ghost predicate SizesKnown()
      reads `blocks, `nodeWidth, `nodeHeight
    {
      AtSizes(blocks, nodeWidth, nodeHeight)
    }

    /** The graph's attributes agree with the blocks. */
    ghost predicate AtPixels()
      reads `blocks, `nodeX, `nodeY, `nodeWidth, `nodeHeight
    {
      && SizesKnown()
      && forall n :: n in blocks ==> n in nodeX && n in nodeY && nodeX[n] == blocks[n].x && nodeY[n] == blocks[n].y
    }

    /** Lines and arrows for all edges; the order in which the blocks come is left open. */
    method PrecomputeEdgeCoordinates(ghost routes: seq<LLEdge>)
      requires Drawable(coledgex, rowedgey, blocks, routes) && AtPixels()
      requires forall n :: n in blocks ==> blocks[n].edges == RoutesFrom(routes, n)
      modifies `edgeRoutes, `edgeArrows
      ensures AllDrawn(coledgex, rowedgey, blocks, routes, edgeRoutes, edgeArrows)
    {
      hide SomeDrawn, Distinct, RoutesFrom, Drawable, FromNode;
      var todo := blocks.Keys;
      ghost var done: set<LLEdge> := {};
      NoneDrawn(coledgex, rowedgey, blocks, edgeRoutes, edgeArrows);
      while todo != {}
        invariant todo <= blocks.Keys
        invariant forall e <- done :: e.source !in todo
        invariant forall n :: n in blocks && n !in todo ==> FromNode(routes, n) <= done
        invariant SomeDrawn(coledgex, rowedgey, blocks, done, edgeRoutes, edgeArrows)
      {
        var n :| n in todo;
        DrawFrom(n, routes, done);
        SourceOfAll(routes, n);
        done := done + FromNode(routes, n);
        todo := todo - {n};
      }
      DrawnIsAll(coledgex, rowedgey, blocks, routes, done, edgeRoutes, edgeArrows);
    }

    // ---- The whole layout

    /** Creates the blocks and the spanning tree; t is the tree in the newoutgoing lists. */
    method BuildTree() returns (ghost t: Tree, ghost parent: map<Node, Node>)
      requires graph.Valid() && graph.root != 0
      requires forall n <- graph.nodes :: n in nodeWidth && n in nodeHeight && 0 <= nodeWidth[n] && 0 <= nodeHeight[n]
      modifies `nodeHeight, `blocks, `blockorder
      ensures Spans(graph, blocks, blockorder, t, parent)
      ensures forall n :: n in blocks <==> n in graph.nodes
      ensures forall n :: n in blocks ==> Bare(blocks[n], n)
      ensures forall n <- blockorder :: n in blocks
      ensures Heightened(graph.nodes, old(nodeHeight), nodeHeight)
      ensures SizesKnown()
    {
      hide RealEdges, Grown, ListsReachable, HasRank, NoneEnters, Topological, WellChosen, Matches, Unrepeated, Ids,
           Distinct;
      blocks, blockorder := map[], [];
      CreateBlocks();
      ghost var before := blocks;
      parent := MakeAcyclic();
      t := TreeOfBlocks(graph, blocks, parent, blockorder);
      OrderIsInBlocks(graph, blocks, parent, blockorder);
      ChildrenByEdges(graph, blocks, parent, blockorder);
      forall n | n in blocks
        ensures Bare(blocks[n], n) && nodeWidth[n] == blocks[n].width && nodeHeight[n] == blocks[n].height
      {
        assert before[n] == Unplaced(n, before[n].incoming, nodeWidth[n], nodeHeight[n]);
      }
    }

    /** Grid sizes to pixels: after it the grid holds every block. */
    method SizeGrid() returns (ghost grid: Grid)
      requires OnGrid() && MatricesSized(Rows() + 1, Cols() + 1)
      requires forall n :: n in blocks ==> 0 <= blocks[n].width && 0 <= blocks[n].height
      modifies `coledgecount, `rowedgecount, `colwidth, `rowheight, `colx, `rowy, `coledgex, `rowedgey,
               `areaWidth, `areaHeight
      ensures grid.Valid() && HasGrid(grid) && forall n :: n in blocks ==> grid.Holds(blocks[n])
      ensures grid.cols == Cols() && grid.rows == Rows()
      ensures Counted(grid, horizedges.cells, vertedges.cells)
      ensures areaWidth == grid.RightEdge() && areaHeight == grid.BottomEdge()
    {
      hide OuterColumnsFree, Ladder, ColumnFits, RowFits, InGrid, Sized, ColumnLanes, RowLanes, Grid.Holds;
      ComputeEdgeCount();
      ComputeRowColumnSizes();
      CountsAreNat(horizedges.cells, vertedges.cells, Rows() + 1, Cols() + 1);
      SizesAreNat(blocks, colwidth, rowheight);
      ComputeRowColumnPositions();
      grid := Grid(coledgex, colx, coledgecount, colwidth, Cols(), rowedgey, rowy, rowedgecount, rowheight, Rows());
      GridHolds(blocks, grid);
    }

    /** The rows and columns of the tree, and the routes over them. */
    method PlaceAndRoute(ghost t: Tree, ghost parent: map<Node, Node>) returns (ghost routes: seq<LLEdge>)
      requires graph.Valid() && Spans(graph, blocks, blockorder, t, parent)
      requires forall n :: n in blocks <==> n in graph.nodes
      requires forall n :: n in blocks ==> Bare(blocks[n], n)
      requires graph.root in blocks && (forall n <- blockorder :: n in blocks) && SizesKnown()
      modifies `blocks, `horizedges, `vertedges, `edgevalid
      ensures OnGrid() && MatricesSized(Rows() + 1, Cols() + 1)
      ensures Routed(kind, old(blocks), t, blocks, edgevalid, routes, Rows(), Cols())
      ensures EndsOf(routes) == EdgesInOrder(graph, blockorder)
      ensures Marks(horizedges.cells) == AllHoriz(routes) && Marks(vertedges.cells) == AllVert(routes)
      ensures fresh(horizedges) && fresh(vertedges) && SizesKnown()
    {
      hide Matches, Unrepeated, Ids, CellOf, Placed, Marks, AllHoriz, AllVert, AllWellRouted, EndsOf, EdgesInOrder,
           RoutesFrom, Sized, OuterColumnsFree, MarksNodes, InGrid, CellsApart, Distinct, AtSizes,
           Spans;
      ghost var tree := blocks;
      SpannedTree(graph, blocks, blockorder, t, parent);
      ComputeLayout(graph.root, t);
      ghost var placed := blocks;
      PlacedInGrid(kind, tree, t);
      PlacedApart(kind, tree, t);
      PlacedIsBare(kind, tree, t);
      PrepareEdgeRouting();
      routes := PerformEdgeRouting();
      RoutedPlaces(placed, blocks, routes, placed[graph.root].rowcount, placed[graph.root].colcount, Ids(t));
      SizesStay(kind, tree, t, blocks, nodeWidth, nodeHeight);
    }

    /** The tree is laid out and all edges out of its nodes are routed. */
    ghost predicate TreeRouted(tree: Blocks, parent: map<Node, Node>, t: Tree, routes: seq<LLEdge>)
      reads this, horizedges, vertedges
    {
      && graph.Valid() && SizesKnown()
      && OnGrid() && MatricesSized(Rows() + 1, Cols() + 1)
      && Routed(kind, tree, t, blocks, edgevalid, routes, Rows(), Cols())
      && EndsOf(routes) == EdgesInOrder(graph, blockorder)
      && Marks(horizedges.cells) == AllHoriz(routes) && Marks(vertedges.cells) == AllVert(routes)
      && Spans(graph, tree, blockorder, t, parent)
    }

    /** The blocks have the pixels of a grid with room for them and for their routes. */
    ghost predicate NodesDrawn(before: Blocks, nodes: set<Node>, routes: seq<LLEdge>, grid: Grid)
      reads this, horizedges, vertedges
    {
      && grid.Valid() && HasGrid(grid) && areaWidth == grid.RightEdge() && areaHeight == grid.BottomEdge()
      && Ready(edgevalid, before, nodes, graph.root, routes, grid, horizedges.cells, vertedges.cells)
      && Pixelled(grid, before, blocks) && AtPixels()
    }

    /** The grid in pixels, on which the blocks are ready to be drawn. */
    method ReadyGrid(ghost tree: Blocks, ghost parent: map<Node, Node>, ghost t: Tree, ghost routes: seq<LLEdge>)
      returns (ghost grid: Grid)
      requires TreeRouted(tree, parent, t, routes)
      modifies `coledgecount, `rowedgecount, `colwidth, `rowheight, `colx, `rowy, `coledgex, `rowedgey,
               `areaWidth, `areaHeight
      ensures grid.Valid() && HasGrid(grid) && areaWidth == grid.RightEdge() && areaHeight == grid.BottomEdge()
      ensures Ready(edgevalid, blocks, Ids(t), graph.root, routes, grid, horizedges.cells, vertedges.cells)
      ensures SizesKnown()
    {
      hide Grown, ListsReachable, Ids, CellOf, Placed, Marks, AllHoriz, AllVert, AllWellRouted, EndsOf, EdgesInOrder,
           OuterColumnsFree, MarksNodes, Grid.Holds, AllInGrid, CellsApart, SamePlaces, SameTree, Ladder, Sized, HasGrid,
           Counted, Routed, RoutesFrom, Ready, Distinct, AtSizes, Grid.RightEdge, Grid.BottomEdge, Grid.Valid;
      RoutedSizes(kind, tree, t, blocks, edgevalid, routes, Rows(), Cols());
      grid := SizeGrid();
      IsReady(graph, kind, tree, parent, blockorder, t, blocks, edgevalid, routes, horizedges.cells, vertedges.cells, grid);
    }

    /** The grid in pixels, and the nodes on it. */
    method DrawNodes(ghost tree: Blocks, ghost parent: map<Node, Node>, ghost t: Tree, ghost routes: seq<LLEdge>)
      returns (ghost grid: Grid)
      requires TreeRouted(tree, parent, t, routes)
      modifies `coledgecount, `rowedgecount, `colwidth, `rowheight, `colx, `rowy, `coledgex, `rowedgey,
               `areaWidth, `areaHeight, `blocks, `nodeX, `nodeY
      ensures NodesDrawn(old(blocks), Ids(t), routes, grid)
    {
      hide Ids, Grid.Holds, Pixels, Ready, Grid.RightEdge, Grid.BottomEdge, Grid.Valid, TreeRouted, SamePlaces, SameTree,
           HasGrid, AtSizes;
      ghost var before := blocks;
      grid := ReadyGrid(tree, parent, t, routes);
      ReadyHolds(edgevalid, blocks, Ids(t), graph.root, routes, grid, horizedges.cells, vertedges.cells);
      ComputeNodePositions(grid);
      PixelledPlaces(grid, before, blocks);
      SizesStayKnown(before, blocks, nodeWidth, nodeHeight);
    }

    /**
     Rectangles apart and inside of the area; every route drawn as one line with an arrow, runs and stubs that pass
     each other apart, and no line on a node. The nodes are centred on the lanes between their columns, and the lines
     begin and end at the middles of their nodes. There is room for the lanes that are held and for no more.
     */
    ghost predicate WellDrawn(nodes: set<Node>, routes: seq<LLEdge>)
      reads this
    {
      && RectanglesApart(blocks, nodes)
      && (forall n :: n in blocks ==> InArea(RectOf(blocks[n]), areaWidth, areaHeight))
      && RoutesClearNodes(coledgex, rowedgey, blocks, nodes, routes)
      && RoutesDrawnApart(coledgex, rowedgey, routes) && LanesDrawnApart(coledgex, rowedgey, routes)
      && AllDrawn(coledgex, rowedgey, blocks, routes, edgeRoutes, edgeArrows)
      && LinesClear(coledgex, rowedgey, blocks, nodes, routes)
      && AllStand(coledgex, colx, rowedgey, rowy, blocks)
      && LinesMeetEnds(coledgex, rowedgey, coledgecount, blocks, routes)
      && LanesCounted(coledgecount, rowedgecount, routes)
      && ArrowsPointDown(routes, edgeRoutes, edgeArrows)
    }

    lemma MatricesAreTight()
      requires OnGrid() && MatricesSized(Rows() + 1, Cols() + 1)
      ensures Tight(horizedges.cells) && Tight(vertedges.cells)
    {
    }

    /** Pixels for the routed blocks and their routes. */
    method Draw(ghost tree: Blocks, ghost parent: map<Node, Node>, ghost t: Tree, ghost routes: seq<LLEdge>)
      requires TreeRouted(tree, parent, t, routes)
      modifies `coledgecount, `rowedgecount, `colwidth, `rowheight, `colx, `rowy, `coledgex, `rowedgey,
               `areaWidth, `areaHeight, `blocks, `nodeX, `nodeY, `edgeRoutes, `edgeArrows
      ensures SamePlaces(old(blocks), blocks) && SameTree(old(blocks), blocks)
      ensures forall n :: n in blocks ==> blocks[n].edges == old(blocks)[n].edges
      ensures WellDrawn(Ids(t), routes) && AtPixels()
    {
      hide Grown, ListsReachable, Ids, Marks, AllHoriz, AllVert, EndsOf, EdgesInOrder, MatricesSized, AllInGrid,
           RectanglesApart, SamePlaces, SameTree, InArea, RoutesClearNodes, RoutesDrawnApart, LanesDrawnApart, Routed,
           RoutesFrom, LinesClear, AllDrawn, AllStand, LinesMeetEnds, LanesCounted, ArrowsPointDown, Tight, Ready,
           Drawable, Distinct, Pixelled, AtSizes, Grid.RightEdge, Grid.BottomEdge, Grid.Valid;
      ghost var routed := blocks;
      MatricesAreTight();
      RoutedSizes(kind, tree, t, blocks, edgevalid, routes, Rows(), Cols());
      ghost var grid := DrawNodes(tree, parent, t, routes);
      ghost var h, v, nodes := horizedges.cells, vertedges.cells, Ids(t);
      PixelledPlaces(grid, routed, blocks);
      CanBeDrawn(edgevalid, routed, blocks, nodes, graph.root, routes, grid, h, v);
      PrecomputeEdgeCoordinates(routes);
      DrawnWell(edgevalid, routed, blocks, nodes, graph.root, routes, grid, h, v);
      NodesStand(grid, routed, blocks);
      AllMeetEnds(edgevalid, routed, blocks, nodes, graph.root, routes, grid, h, v);
      AllPointDown(coledgex, rowedgey, blocks, routes, edgeRoutes, edgeArrows);
      CountsAreExact(edgevalid, routed, nodes, graph.root, routes, grid, h, v);
    }

    /** The layout of a graph with a root. */
    method LayOut() returns (ghost t: Tree, ghost parent: map<Node, Node>, ghost routes: seq<LLEdge>)
      requires graph.Valid() && graph.root != 0
      requires forall n <- graph.nodes :: n in nodeWidth && n in nodeHeight && 0 <= nodeWidth[n] && 0 <= nodeHeight[n]
      modifies this
      ensures nodeWidth == old(nodeWidth) && Heightened(graph.nodes, old(nodeHeight), nodeHeight)
      ensures Spans(graph, blocks, blockorder, t, parent)
      ensures OnCells(kind, graph, blocks, blockorder, t, edgevalid, routes)
      ensures WellDrawn(Ids(t), routes) && AtPixels()
    {
      hide Matches, Unrepeated, Ids, CellOf, Marks, AllHoriz, AllVert, AllWellRouted, EndsOf, EdgesInOrder, RoutesFrom,
           OuterColumnsFree, MarksNodes, Bare, SamePlaces, SameTree, Sized, WellDrawn, AtPixels, AtSizes, Routed, Heightened,
           Spans, OnCells;
      t, parent := BuildTree();
      ghost var tree := blocks;
      SpannedTree(graph, blocks, blockorder, t, parent);
      routes := PlaceAndRoute(t, parent);
      ghost var routed, rows, cols := blocks, Rows(), Cols();
      Draw(tree, parent, t, routes);
      CellsStay(graph, kind, tree, blockorder, t, parent, routed, blocks, edgevalid, routes, rows, cols);
    }

    /**
     The layout of the part of the graph that can be reached from the root: a spanning tree of exactly that part,
     every node in the row of its depth and apart from the others, every edge routed in lanes of its own.
     */
    method Execute() returns (done: bool, ghost t: Tree, ghost parent: map<Node, Node>, ghost routes: seq<LLEdge>)
      requires graph.Valid()
      requires forall n <- graph.nodes :: n in nodeWidth && n in nodeHeight && 0 <= nodeWidth[n] && 0 <= nodeHeight[n]
      modifies this
      ensures done <==> graph.root != 0
      ensures !done ==> unchanged(this)
      ensures done ==> nodeWidth == old(nodeWidth) && Heightened(graph.nodes, old(nodeHeight), nodeHeight)
      ensures done ==> Spans(graph, blocks, blockorder, t, parent)
      ensures done ==> OnCells(kind, graph, blocks, blockorder, t, edgevalid, routes)
      ensures done ==> WellDrawn(Ids(t), routes) && AtPixels()
    {
      hide Spans, OnCells, WellDrawn, AtPixels, Ids, Heightened;
      t, parent, routes := Tree(0, []), map[], [];
      if graph.root == 0 { return false, t, parent, routes; }
      t, parent, routes := LayOut();
      done := true;
    }
  }

  /** The spanning tree of exactly the part of the graph that can be reached from the root, in the one order. */
  ghost predicate Spans(g: Graph, blocks: Blocks, order: seq<Node>, t: Tree, parent: map<Node, Node>) {
    && t.id == g.root && Unrepeated(t) && Matches(blocks, t) && (forall n :: n in Ids(t) <==> n in order)
    && Grown(g, blocks, parent, order) && RealEdges(g, blocks)
    && ListsReachable(g, order) && WellChosen(g, parent, order)
    && (Topological(g, order) ==> HasRank(g))
    && (NoneEnters(g) ==> (HasRank(g) <==> Topological(g, order)))
  }

  lemma SpansStill(g: Graph, before: Blocks, after: Blocks, order: seq<Node>, t: Tree, parent: map<Node, Node>)
    requires Spans(g, before, order, t, parent) && SameTree(before, after) && Matches(after, t)
    ensures Spans(g, after, order, t, parent)
  {
    hide Grown, ListsReachable, WellChosen, Topological, HasRank, NoneEnters, Unrepeated, Matches, Ids, RealEdges, SameTree;
    RealEdgesStay(g, before, after);
    KeepTree(g, before, after, parent, order);
  }

  lemma SpannedTree(g: Graph, blocks: Blocks, order: seq<Node>, t: Tree, parent: map<Node, Node>)
    requires Spans(g, blocks, order, t, parent)
    ensures t.id == g.root && Unrepeated(t) && Matches(blocks, t)
    ensures forall n :: n in Ids(t) ==> n in blocks
  {
    hide ListsReachable, WellChosen, Topological, HasRank, NoneEnters, Unrepeated, Matches, Ids, RealEdges;
    OrderIsInBlocks(g, blocks, parent, order);
  }

  /** Every node of the tree in its cell, and every edge out of one routed and kept by its source. */
  ghost predicate OnCells(kind: LayoutType, g: Graph, blocks: Blocks, order: seq<Node>, t: Tree, valid: seq<seq<bool>>,
                          routes: seq<LLEdge>) {
    && (forall n :: n in Ids(t) ==>
          n in blocks && blocks[n].row == CellOf(kind, t, n).row && blocks[n].col == CellOf(kind, t, n).col)
    && |valid| > 0 && (forall r :: 0 <= r < |valid| ==> |valid[r]| == |valid[0]|)
    && MarksNodes(valid, blocks) && AllWellRouted(valid, blocks, routes)
    && EndsOf(routes) == EdgesInOrder(g, order)
    && (forall n :: n in blocks ==> blocks[n].edges == RoutesFrom(routes, n))
  }

  /** Drawing changes nothing about the tree, the cells and the routes. */
  lemma CellsStay(
    g: Graph, kind: LayoutType, tree: Blocks, order: seq<Node>, t: Tree, parent: map<Node, Node>, routed: Blocks,
    drawn: Blocks, valid: seq<seq<bool>>, routes: seq<LLEdge>, rows: int, cols: int)
    requires Spans(g, tree, order, t, parent) && EndsOf(routes) == EdgesInOrder(g, order)
    requires Routed(kind, tree, t, routed, valid, routes, rows, cols)
    requires SamePlaces(routed, drawn) && SameTree(routed, drawn)
    requires forall n :: n in drawn ==> drawn[n].edges == routed[n].edges
    ensures Spans(g, drawn, order, t, parent) && OnCells(kind, g, drawn, order, t, valid, routes)
  {
    hide Matches, Unrepeated, Ids, CellOf, AllWellRouted, EndsOf, EdgesInOrder, RoutesFrom, MarksNodes, SamePlaces,
         SameTree, Routed, Spans;
    SpannedTree(g, tree, order, t, parent);
    PlacesStay(kind, tree, t, routed, drawn, valid, routes);
    SpansStill(g, tree, drawn, order, t, parent);
  }

  /** The blocks have the widths and heights of their nodes. */
  ghost predicate AtSizes(blocks: Blocks, width: map<Node, int>, height: map<Node, int>) {
    forall n :: n in blocks ==>
      && n in width && width[n] == blocks[n].width
      && n in height && height[n] == blocks[n].height
  }

  lemma SizesStayKnown(before: Blocks, after: Blocks, width: map<Node, int>, height: map<Node, int>)
    requires AtSizes(before, width, height) && SamePlaces(before, after)
    ensures AtSizes(after, width, height)
  {
  }

  lemma SizesStay(kind: LayoutType, tree: Blocks, t: Tree, routed: Blocks, width: map<Node, int>, height: map<Node, int>)
    requires AtSizes(tree, width, height) && SamePlaces(Placed(kind, tree, t), routed)
    ensures AtSizes(routed, width, height)
  {
    hide Ids, CellOf;
  }

  /** The given nodes have grown by their padding. */
  ghost predicate Heightened(nodes: seq<Node>, before: map<Node, int>, after: map<Node, int>) {
    after.Keys == before.Keys && forall n <- nodes :: n in before && after[n] == before[n] + NODE_PADDING
  }

  /** A freshly made block: not placed, no edges routed, no tree children. */
  function Unplaced(n: Node, incoming: seq<Node>, width: int, height: int): LLBlock {
    LLBlock(n, [], incoming, [], 0, 0, width, height, 0, 0, 0, 0)
  }

  /** The listed nodes have been padded and have bare blocks. */
  ghost predicate Padded(width: map<Node, int>, before: map<Node, int>, nodes: seq<Node>, height: map<Node, int>,
      blocks: Blocks) {
    && (forall n :: n in blocks <==> n in nodes)
    && height.Keys == before.Keys
    && (forall n :: n in height ==> height[n] == before[n] + if n in nodes then NODE_PADDING else 0)
    && (forall n :: n in blocks ==> n in width && n in height && blocks[n] == Unplaced(n, [], width[n], height[n]))
  }

  lemma NothingPadded(width: map<Node, int>, before: map<Node, int>)
    ensures Padded(width, before, [], before, map[])
  {
  }

  lemma PadNext(width: map<Node, int>, before: map<Node, int>, nodes: seq<Node>, height: map<Node, int>,
      blocks: Blocks, n: Node)
    requires Padded(width, before, nodes, height, blocks) && n !in nodes && n in width && n in before
    ensures n in height
    ensures var h := height[n] + NODE_PADDING;
            Padded(width, before, nodes + [n], height[n := h], blocks[n := Unplaced(n, [], width[n], h)])
  {
  }

  lemma AllPadded(width: map<Node, int>, before: map<Node, int>, nodes: seq<Node>, height: map<Node, int>,
      blocks: Blocks)
    requires Padded(width, before, nodes, height, blocks) && forall n <- nodes :: n in before
    ensures (forall n :: n in blocks <==> n in nodes) && height.Keys == before.Keys
    ensures forall n <- nodes :: height[n] == before[n] + NODE_PADDING
    ensures forall n <- nodes :: n in width && blocks[n] == Unplaced(n, [], width[n], height[n])
  {
  }

  /** The blocks of bare, with the sources of the edges in dealt collected as incoming nodes. */
  ghost predicate Collected(bare: Blocks, blocks: Blocks, dealt: set<Edge>) {
    && blocks.Keys == bare.Keys
    && (forall n :: n in blocks ==> blocks[n].(incoming := []) == bare[n].(incoming := []))
    && (forall n :: n in blocks ==> Distinct(blocks[n].incoming))
    && (forall n, u :: n in blocks ==> (u in blocks[n].incoming <==> Edge(u, n) in dealt))
  }

  lemma CollectNext(bare: Blocks, blocks: Blocks, dealt: set<Edge>, e: Edge)
    requires Collected(bare, blocks, dealt) && e !in dealt && e.target in blocks
    ensures Collected(
              bare, blocks[e.target := blocks[e.target].(incoming := blocks[e.target].incoming + [e.source])], dealt + {e})
  {
    assert Edge(e.source, e.target) == e;
    assert e.source !in blocks[e.target].incoming;
  }

  /** Fewer open incoming edges, or as many and a lower id. */
  ghost predicate Better(blocks: Blocks, a: Node, b: Node) {
    Incoming(blocks, a) < Incoming(blocks, b) || (Incoming(blocks, a) == Incoming(blocks, b) && a < b)
  }

  function Incoming(blocks: Blocks, n: Node): nat {
    if n in blocks then |blocks[n].incoming| else 0
  }

  /**
   best is the best successor outside of visited among the edges seen, reached from bestparent; 0 if there is
   none.
   */
  ghost predicate BestOf(blocks: Blocks, visited: set<Node>, seen: set<Edge>, best: Node, bestparent: Node) {
    && (best == 0 ==> forall e <- seen :: e.source in visited ==> e.target in visited)
    && (best != 0 ==>
          && bestparent in visited && best !in visited && Edge(bestparent, best) in seen
          && forall e <- seen :: e.source in visited && e.target !in visited ==>
               e.target == best || Better(blocks, best, e.target))
  }

  /** What is best by the incoming lists is best by the edges that are open. */
  lemma IsBest(g: Graph, before: Blocks, blocks: Blocks, s: Progress, visited: set<Node>, best: Node)
    requires g.Valid() && Search(g, before, blocks, s) && forall n :: n in visited <==> n in s.all
    requires forall e :: e in s.dealt <==> e in g.edges && e.source in s.all
    requires best !in visited && exists p :: p in visited && g.HasEdge(p, best)
    requires forall e <- g.edges :: e.source in visited && e.target !in visited ==>
               e.target == best || Better(blocks, best, e.target)
    ensures Best(g, s.all, best)
  {
    hide Grown, Pending, Settled, Chosen, SameButTree, OpenInto;
    var p :| p in visited && g.HasEdge(p, best);
    assert Edge(p, best) in g.edges;
    assert Succeeds(g, s.all, best);
    assert best in g.nodes && best in blocks;
    OpenIsIncoming(g, before, blocks, s, best);
    forall w | Succeeds(g, s.all, w) && w != best
      ensures || |OpenInto(g, s.all, best)| < |OpenInto(g, s.all, w)|
              || (|OpenInto(g, s.all, best)| == |OpenInto(g, s.all, w)| && best < w)
    {
      var e :| e in g.edges && e.source in s.all && e.target == w;
      assert Better(blocks, best, e.target) && w in blocks;
      OpenIsIncoming(g, before, blocks, s, w);
    }
  }

  /** The edges that leave the given nodes. */
  ghost function Leaving(g: Graph, some: set<Node>): set<Edge> {
    set e <- g.edges | e.source in some
  }

  /** The first i edges of a list besides those seen before. */
  ghost function Seen(seen: set<Edge>, out: seq<Edge>, i: nat): set<Edge>
    requires i <= |out|
  {
    seen + set e <- out[..i]
  }

  lemma SeenFirst(seen: set<Edge>, out: seq<Edge>)
    ensures Seen(seen, out, 0) == seen && Seen(seen, out, |out|) == seen + set e <- out
  {
    assert out[..|out|] == out;
  }

  lemma SeenNext(seen: set<Edge>, out: seq<Edge>, i: nat)
    requires i < |out|
    ensures out[i] in out && Seen(seen, out, i + 1) == Seen(seen, out, i) + {out[i]}
  {
    assert out[..i + 1] == out[..i] + [out[i]];
  }

  lemma LeavingNext(g: Graph, some: set<Node>, n: Node, out: seq<Edge>)
    requires forall e :: e in out <==> e in g.edges && e.source == n
    ensures Leaving(g, some + {n}) == Leaving(g, some) + set e <- out
  {
  }

  lemma BestOfNone(g: Graph, blocks: Blocks, visited: set<Node>)
    ensures BestOf(blocks, visited, Leaving(g, blocks.Keys - blocks.Keys), 0, 0)
  {
  }

  lemma BestSkips(blocks: Blocks, visited: set<Node>, seen: set<Edge>, best: Node, bestparent: Node, out: set<Edge>)
    requires BestOf(blocks, visited, seen, best, bestparent) && forall e <- out :: e.source !in visited
    ensures BestOf(blocks, visited, seen + out, best, bestparent)
  {
  }

  lemma BestOfAll(g: Graph, blocks: Blocks, visited: set<Node>, best: Node, bestparent: Node)
    requires g.Valid() && forall n :: n in blocks <==> n in g.nodes
    requires BestOf(blocks, visited, Leaving(g, blocks.Keys), best, bestparent)
    ensures best == 0 <==> forall e <- g.edges :: e.source in visited ==> e.target in visited
    ensures best != 0 ==> bestparent in visited && best !in visited && g.HasEdge(bestparent, best)
    ensures best != 0 ==> forall e <- g.edges :: e.source in visited && e.target !in visited ==>
              e.target == best || Better(blocks, best, e.target)
  {
  }

  /** One more edge out of the tree: it replaces the best so far when there is none or when it is better. */
  lemma BestNext(blocks: Blocks, visited: set<Node>, seen: set<Edge>, best: Node, bestparent: Node, e: Edge)
    requires BestOf(blocks, visited, seen, best, bestparent) && e.source in visited && e.target != 0
    ensures e.target in visited ==> BestOf(blocks, visited, seen + {e}, best, bestparent)
    ensures e.target !in visited && (best == 0 || Better(blocks, e.target, best)) ==>
              BestOf(blocks, visited, seen + {e}, e.target, e.source)
    ensures best != 0 && !Better(blocks, e.target, best) ==> BestOf(blocks, visited, seen + {e}, best, bestparent)
  {
  }
}
