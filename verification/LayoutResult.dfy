/** What the phases of the layout achieve together. */
module LayoutResult {
  import opened LayoutGraph
  import opened SpanningTree
  import opened TreeLayout
  import opened BlockTree
  import opened EdgeLanes
  import opened EdgeRoute
  import opened PixelGrid

  /** Every block, laid out or not, lies on a grid of the given size. */
  ghost predicate AllInGrid(blocks: Blocks, rows: int, cols: int) {
    1 <= rows && 2 <= cols && forall n :: n in blocks ==> InGrid(blocks[n], rows + 1, cols + 1)
  }

  lemma WithinGrid(b: LLBlock, rows: int, cols: int)
    requires 1 <= rows && 2 <= cols && InGrid(b, rows + 1, cols + 1)
    ensures 0 <= b.row < rows && 0 <= b.col && b.col + 1 < cols
  {
  }

  /** Laying out the tree puts all its nodes on the grid of its root; the other blocks stay in the first cell. */
  lemma PlacedInGrid(kind: LayoutType, blocks: Blocks, t: Tree)
    requires t.id in blocks && forall n :: n in blocks ==> Bare(blocks[n], n)
    ensures var placed := Placed(kind, blocks, t);
            placed.Keys == blocks.Keys && AllInGrid(placed, placed[t.id].rowcount, placed[t.id].colcount)
  {
    hide CellOf, RootCell, Ids;
    OwnCell(kind, t);
    RootFits(kind, t);
    var placed := Placed(kind, blocks, t);
    forall n | n in blocks
      ensures InGrid(placed[n], placed[t.id].rowcount + 1, placed[t.id].colcount + 1)
    {
      if n in Ids(t) {
        CellInGrid(kind, t, n);
      }
    }
  }

  /** Nodes of the tree never share grid cells. */
  ghost predicate CellsApart(blocks: Blocks, nodes: set<Node>) {
    forall n, m :: n in nodes && m in nodes && n in blocks && m in blocks && n != m && blocks[n].row == blocks[m].row ==>
      blocks[n].col + 2 <= blocks[m].col || blocks[m].col + 2 <= blocks[n].col
  }

  lemma PlacedApart(kind: LayoutType, blocks: Blocks, t: Tree)
    requires Unrepeated(t)
    ensures CellsApart(Placed(kind, blocks, t), Ids(t))
  {
    hide CellOf, RootCell, Ids, Unrepeated;
    var placed := Placed(kind, blocks, t);
    forall n, m | n in Ids(t) && m in Ids(t) && n in blocks && m in blocks && n != m && placed[n].row == placed[m].row
      ensures placed[n].col + 2 <= placed[m].col || placed[m].col + 2 <= placed[n].col
    {
      Separated(kind, t, n, m);
    }
  }

  /** Only the root of the tree is in row 0. */
  lemma RootAlone(kind: LayoutType, t: Tree, n: Node)
    requires n in Ids(t) && n != t.id
    ensures CellOf(kind, t, n).row > 0
  {
    CellInGrid(kind, t, n);
  }

  // ---- Every node but the root is entered by a lane

  lemma {:induction false} EdgeIsListed(g: Graph, order: seq<Node>, e: Edge)
    requires e in g.edges && e.source in order
    ensures e in EdgesInOrder(g, order)
  {
    var last := order[|order| - 1];
    if e.source == last {
      OutgoingEdges(g.edges, last);
    } else {
      EdgeIsListed(g, order[..|order| - 1], e);
    }
  }

  lemma {:induction false} ListedIsEdge(g: Graph, order: seq<Node>, e: Edge)
    requires e in EdgesInOrder(g, order)
    ensures e in g.edges && e.source in order
  {
    var init, last := order[..|order| - 1], order[|order| - 1];
    if e in EdgesInOrder(g, init) {
      ListedIsEdge(g, init, e);
    } else {
      OutgoingEdges(g.edges, last);
    }
  }

  /** The edges are listed by their sources as these are, and as pushed where they have one source. */
  lemma {:induction false} EdgesAreInOrder(g: Graph, order: seq<Node>)
    ensures forall i, j :: 0 <= i < j < |EdgesInOrder(g, order)| ==>
              DealtBefore(g, order, EdgesInOrder(g, order)[i], EdgesInOrder(g, order)[j])
  {
    hide Before;
    if order != [] {
      var init, last := order[..|order| - 1], order[|order| - 1];
      var a, b := EdgesInOrder(g, init), OutgoingOf(g.edges, last);
      assert order == init + [last];
      EdgesAreInOrder(g, init);
      OutgoingEdges(g.edges, last);
      OutgoingInOrder(g.edges, last);
      BeforeStays(init, [last]);
      BeforeLast(init, last);
      forall i | 0 <= i < |a| ensures a[i].source in init {
        ListedIsEdge(g, init, a[i]);
      }
      assert forall j :: 0 <= j < |b| ==> b[j] in b;
    }
  }

  /** A block keeps its routes in the order in which they were laid. */
  lemma {:induction false} RoutesKeepOrder(routes: seq<LLEdge>, n: Node)
    ensures forall e <- RoutesFrom(routes, n) :: e in routes
    ensures forall i, j :: 0 <= i < j < |RoutesFrom(routes, n)| ==>
              Before(routes, RoutesFrom(routes, n)[i], RoutesFrom(routes, n)[j])
  {
    hide Before;
    if routes != [] {
      var init, last := routes[..|routes| - 1], routes[|routes| - 1];
      assert routes == init + [last];
      RoutesKeepOrder(init, n);
      BeforeStays(init, [last]);
      BeforeLast(init, last);
    }
  }

  /** Edges out of reachable nodes lead to reachable nodes. */
  lemma EndsAreListed(g: Graph, order: seq<Node>, routes: seq<LLEdge>)
    requires ListsReachable(g, order) && EndsOf(routes) == EdgesInOrder(g, order)
    ensures forall k :: 0 <= k < |routes| ==> routes[k].source in order && routes[k].target in order
  {
    forall k | 0 <= k < |routes| ensures routes[k].source in order && routes[k].target in order {
      var e := Edge(routes[k].source, routes[k].target);
      assert EndsOf(routes)[k] == e;
      ListedIsEdge(g, order, e);
      var p :| g.RootPath(p) && p[|p| - 1] == e.source;
      ExtendPath(g, p, e.target);
    }
  }

  lemma TreeEdgeIsRouted(
    g: Graph, tree: Blocks, parent: map<Node, Node>, order: seq<Node>, routes: seq<LLEdge>, n: Node)
    returns (k: nat)
    requires Grown(g, tree, parent, order) && EndsOf(routes) == EdgesInOrder(g, order)
    requires n in order && n != g.root
    ensures k < |routes| && routes[k].target == n
  {
    ChildComesLater(g, tree, parent, order, n);
    EdgeIsListed(g, order, Edge(parent[n], n));
    k :| 0 <= k < |EndsOf(routes)| && EndsOf(routes)[k] == Edge(parent[n], n);
  }

  /** A lane is counted in the column in the middle of every routed edge's target. */
  lemma TargetHasLane(
    valid: seq<seq<bool>>, blocks: Blocks, routes: seq<LLEdge>, v: Cells, rows: nat, cols: nat, k: nat)
    requires |valid| == rows && forall r :: 0 <= r < |valid| ==> |valid[r]| == |valid[0]|
    requires AllWellRouted(valid, blocks, routes) && k < |routes|
    requires Marks(v) == AllVert(routes) && Sized(v, rows, cols)
    requires routes[k].target in blocks && InGrid(blocks[routes[k].target], rows, cols)
    ensures ColumnLanes(v, blocks[routes[k].target].col + 1, rows) >= 1
  {
    hide Greedy, ChosenColumn, Spots, Corners, HorizLanes, AllHoriz, VertLanes, AllVert;
    var e := routes[k];
    assert WellRouted(valid, blocks, routes, k);
    var end := blocks[e.target];
    var index := EntersByLane(valid, blocks[e.source], end, e);
    LanesOfOne(routes, k);
    assert Lane(end.row, end.col + 1, index) in Marks(v);
    ColumnLanesCover(v, end.col + 1, rows, end.row, index);
  }

  // ---- Pixels

  lemma GridHolds(blocks: Blocks, grid: Grid)
    requires grid.Valid() && AllInGrid(blocks, grid.rows, grid.cols)
    requires forall n :: n in blocks ==> 0 <= blocks[n].width && 0 <= blocks[n].height
    requires forall c :: 0 <= c <= grid.cols ==> ColumnFits(blocks, blocks.Keys, c, grid.colwidth[c])
    requires forall r :: 0 <= r <= grid.rows ==> RowFits(blocks, blocks.Keys, r, grid.rowheight[r])
    ensures forall n :: n in blocks ==> grid.Holds(blocks[n])
  {
    forall n | n in blocks ensures grid.Holds(blocks[n]) {
      var b := blocks[n];
      assert InGrid(b, grid.rows + 1, grid.cols + 1);
      assert ColumnFits(blocks, blocks.Keys, b.col, grid.colwidth[b.col]);
      assert ColumnFits(blocks, blocks.Keys, b.col + 1, grid.colwidth[b.col + 1]);
      assert RowFits(blocks, blocks.Keys, b.row, grid.rowheight[b.row]);
    }
  }

  function RectOf(b: LLBlock): Rect {
    Rect(b.x, b.y, b.width, b.height)
  }

  /** The drawn rectangles of different nodes do not overlap. */
  ghost predicate RectanglesApart(blocks: Blocks, nodes: set<Node>) {
    forall n, m :: n in nodes && m in nodes && n in blocks && m in blocks && n != m ==>
      RectOf(blocks[n]).Apart(RectOf(blocks[m]))
  }

  predicate InArea(r: Rect, width: int, height: int) {
    0 <= r.x && r.x + r.width <= width && 0 <= r.y && r.y + r.height <= height
  }

  /** The blocks have been given the pixels of the grid and are otherwise as before. */
  ghost predicate Pixelled(grid: Grid, before: Blocks, after: Blocks) {
    && after.Keys == before.Keys
    && forall n :: n in before ==> grid.Holds(before[n]) && after[n] == Pixels(grid, before[n])
  }

  /** The block placed at the pixels that the grid gives it. */
  ghost function Pixels(grid: Grid, b: LLBlock): LLBlock
    requires grid.Holds(b)
  {
    b.(x := grid.NodeX(b), y := grid.NodeY(b))
  }

  /**
   The rectangles of the nodes of the tree are apart, whatever their widths: in any row but the first, which the
   root has to itself, a lane enters every node, and a node with a lane in its middle is never clamped.
   */
  lemma DrawnApart(grid: Grid, before: Blocks, after: Blocks, nodes: set<Node>, root: Node)
    requires Pixelled(grid, before, after) && CellsApart(before, nodes)
    requires forall n :: n in nodes && n in before && n != root ==>
               before[n].row > 0 && grid.coledgecount[before[n].col + 1] >= 1
    requires root in before && before[root].row == 0
    ensures RectanglesApart(after, nodes)
  {
    hide Grid.Holds, Grid.Overfull, Grid.NodeX, Grid.NodeY, Rect.Apart;
    forall n, m | n in nodes && m in nodes && n in after && m in after && n != m
      ensures RectOf(after[n]).Apart(RectOf(after[m]))
    {
      var a, b := before[n], before[m];
      if a.row == b.row {
        assert n != root && m != root;
        grid.LaneMakesRoom(a);
        grid.LaneMakesRoom(b);
      }
      grid.RectsApart(a, b);
      assert RectOf(after[n]) == grid.NodeRect(a) && RectOf(after[m]) == grid.NodeRect(b);
    }
  }

  lemma DrawnInArea(grid: Grid, before: Blocks, after: Blocks)
    requires grid.Valid() && Pixelled(grid, before, after)
    ensures forall n :: n in after ==> InArea(RectOf(after[n]), grid.RightEdge(), grid.BottomEdge())
  {
    hide Ladder;
    forall n | n in after ensures InArea(RectOf(after[n]), grid.RightEdge(), grid.BottomEdge()) {
      grid.NodeInArea(before[n]);
    }
  }

  // ---- Lines

  /** The pixel on which the run from p to q is drawn: an x for a vertical run, a y for a horizontal one. */
  function LineOf(coledgex: seq<int>, rowedgey: seq<int>, p: Point, q: Point): int
    requires HasLine(coledgex, rowedgey, p, q)
  {
    var run := Between(p, q);
    if run.Vert? then LineAt(coledgex, run.col, p.index) else LineAt(rowedgey, run.row, p.index)
  }

  predicate HasLine(coledgex: seq<int>, rowedgey: seq<int>, p: Point, q: Point) {
    var run := Between(p, q);
    if run.Vert? then 0 <= run.col < |coledgex| else 0 <= run.row < |rowedgey|
  }

  /**
   A vertical run keeps clear of a block in a row that it crosses; a horizontal one runs above the blocks in its own
   row and below, and below the blocks above it once their padding is taken off.
   */
  predicate RunClears(coledgex: seq<int>, rowedgey: seq<int>, p: Point, q: Point, b: LLBlock) {
    var run := Between(p, q);
    && HasLine(coledgex, rowedgey, p, q)
    && var line := LineOf(coledgex, rowedgey, p, q);
    && (run.Vert? && run.minrow <= b.row < run.maxrow ==> line < b.x || b.x + b.width < line)
    && (run.Horiz? && run.row <= b.row ==> line < b.y)
    && (run.Horiz? && b.row < run.row ==> b.y + b.height - 2 * PADDING < line)
  }

  /** No line of a route is drawn through a node. */
  ghost predicate RoutesClearNodes(
    coledgex: seq<int>, rowedgey: seq<int>, blocks: Blocks, nodes: set<Node>, routes: seq<LLEdge>)
  {
    forall k, i, n :: 0 <= k < |routes| && 0 <= i < |routes[k].points| - 1 && n in nodes && n in blocks ==>
      RunClears(coledgex, rowedgey, routes[k].points[i], routes[k].points[i + 1], blocks[n])
  }

  /** Runs in the same direction that lie next to each other are drawn at least the width of a lane apart. */
  predicate RunsApart(coledgex: seq<int>, rowedgey: seq<int>, p: Point, q: Point, p': Point, q': Point) {
    && HasLine(coledgex, rowedgey, p, q) && HasLine(coledgex, rowedgey, p', q')
    && (Meet(Between(p, q), Between(p', q')) ==>
          var line, line' := LineOf(coledgex, rowedgey, p, q), LineOf(coledgex, rowedgey, p', q');
          line + LANE_WIDTH <= line' || line' + LANE_WIDTH <= line)
  }

  /** Both runs are vertical and share a row, or both are horizontal and share a column. */
  predicate Meet(run: Run, run': Run) {
    if run.Vert? then run'.Vert? && run.minrow <= run'.maxrow && run'.minrow <= run.maxrow
    else run'.Horiz? && run.mincol <= run'.maxcol && run'.mincol <= run.maxcol
  }

  ghost predicate RoutesDrawnApart(coledgex: seq<int>, rowedgey: seq<int>, routes: seq<LLEdge>) {
    forall k, l, i, j ::
      0 <= k < l < |routes| && 0 <= i < |routes[k].points| - 1 && 0 <= j < |routes[l].points| - 1 ==>
        RunsApart(coledgex, rowedgey,
                  routes[k].points[i], routes[k].points[i + 1], routes[l].points[j], routes[l].points[j + 1])
  }

  predicate ColumnsDrawnApart(coledgex: seq<int>, l: Lane, l': Lane) {
    && 0 <= l.col < |coledgex| && 0 <= l'.col < |coledgex|
    && var x, x' := LineAt(coledgex, l.col, l.index), LineAt(coledgex, l'.col, l'.index);
       x + LANE_WIDTH <= x' || x' + LANE_WIDTH <= x
  }

  predicate RowsDrawnApart(rowedgey: seq<int>, l: Lane, l': Lane) {
    && 0 <= l.row < |rowedgey| && 0 <= l'.row < |rowedgey|
    && var y, y' := LineAt(rowedgey, l.row, l.index), LineAt(rowedgey, l'.row, l'.index);
       y + LANE_WIDTH <= y' || y' + LANE_WIDTH <= y
  }

  /**
   Lanes of different routes, be it of a run or of the stub at either end, are drawn at least the width of a lane apart
   where they pass through the same row or column.
   */
  ghost predicate LanesDrawnApart(coledgex: seq<int>, rowedgey: seq<int>, routes: seq<LLEdge>) {
    && (forall k, m, l, l' ::
          0 <= k < m < |routes| && l in VertLanes(routes[k]) && l' in VertLanes(routes[m]) && l.row == l'.row ==>
            ColumnsDrawnApart(coledgex, l, l'))
    && (forall k, m, l, l' ::
          0 <= k < m < |routes| && l in HorizLanes(routes[k]) && l' in HorizLanes(routes[m]) && l.col == l'.col ==>
            RowsDrawnApart(rowedgey, l, l'))
  }

  /** The grid has room for the lanes of the two matrices. */
  ghost predicate Counted(grid: Grid, h: Cells, v: Cells) {
    && grid.Valid() && Sized(h, grid.rows + 1, grid.cols + 1) && Sized(v, grid.rows + 1, grid.cols + 1)
    && (forall c :: 0 <= c <= grid.cols ==> grid.coledgecount[c] == ColumnLanes(v, c, grid.rows + 1))
    && (forall r :: 0 <= r <= grid.rows ==> grid.rowedgecount[r] == RowLanes(h, r, grid.cols + 1))
  }

  lemma RunIsCounted(grid: Grid, h: Cells, v: Cells, p: Point, q: Point)
    requires Counted(grid, h, v)
    requires var run := Between(p, q); run.Lanes(p.index) <= Marks(if run.Vert? then v else h)
    ensures var run := Between(p, q);
            && (run.Vert? ==> 0 <= run.col <= grid.cols && 0 <= p.index < grid.coledgecount[run.col])
            && (run.Horiz? ==> 0 <= run.row <= grid.rows && 0 <= p.index < grid.rowedgecount[run.row])
  {
    hide Ladder, ColumnLanes, RowLanes;
    var run := Between(p, q);
    if run.Vert? {
      assert Lane(run.minrow, run.col, p.index) in run.Lanes(p.index);
      ColumnLanesCover(v, run.col, grid.rows + 1, run.minrow, p.index);
    } else {
      assert Lane(run.row, run.mincol, p.index) in run.Lanes(p.index);
      RowLanesCover(h, run.row, grid.cols + 1, run.mincol, p.index);
    }
  }

  lemma RunIsMarked(routes: seq<LLEdge>, h: Cells, v: Cells, k: nat, i: nat)
    requires k < |routes| && i + 1 < |routes[k].points| && Marks(h) == AllHoriz(routes) && Marks(v) == AllVert(routes)
    ensures var p, q := routes[k].points[i], routes[k].points[i + 1];
            var run := Between(p, q);
            && run.Lanes(p.index) <= Marks(if run.Vert? then v else h)
            && run.Lanes(p.index) <= if run.Vert? then VertLanes(routes[k]) else HorizLanes(routes[k])
  {
    hide Marks, AllHoriz, AllVert, HorizOf, VertOf, Between;
    RunHeld(routes[k].points, i);
    LanesOfOne(routes, k);
  }

  /** No node that a vertical run passes is overfull: another row than the first has lanes, the first only the root. */
  lemma PassedIsNotOverfull(
    valid: seq<seq<bool>>, blocks: Blocks, nodes: set<Node>, root: Node, routes: seq<LLEdge>, grid: Grid, v: Cells,
    k: nat, i: nat, n: Node)
    requires grid.Valid() && |valid| == grid.rows + 1 && forall r :: 0 <= r < |valid| ==> |valid[r]| == |valid[0]|
    requires AllWellRouted(valid, blocks, routes) && k < |routes| && i + 1 < |routes[k].points|
    requires Marks(v) == AllVert(routes) && Sized(v, grid.rows + 1, grid.cols + 1)
    requires forall c :: 0 <= c <= grid.cols ==> grid.coledgecount[c] == ColumnLanes(v, c, grid.rows + 1)
    requires n in nodes && n in blocks && grid.Holds(blocks[n]) && AllInGrid(blocks, grid.rows, grid.cols)
    requires forall m :: m in nodes && m in blocks && m != root ==>
               blocks[m].row > 0 && grid.coledgecount[blocks[m].col + 1] >= 1
    requires root in blocks && blocks[root].row == 0 && routes[k].target in nodes
    requires var run := Between(routes[k].points[i], routes[k].points[i + 1]);
             run.Vert? && run.minrow <= blocks[n].row < run.maxrow
    ensures !grid.Overfull(blocks[n])
  {
    hide Ladder, ColumnLanes, Between, Greedy, Marks, AllVert, AllHoriz, VertLanes, HorizLanes, RunsBetween;
    if n == root {
      var e := routes[k];
      assert WellRouted(valid, blocks, routes, k);
      VerticalRunRows(valid, blocks[e.source], blocks[e.target], e, i);
      assert InGrid(blocks[e.target], grid.rows + 1, grid.cols + 1);
      assert InGrid(blocks[e.source], grid.rows + 1, grid.cols + 1);
      assert e.target == root;
      TargetHasLane(valid, blocks, routes, v, grid.rows + 1, grid.cols + 1, k);
    }
  }

  lemma RunStaysClear(
    valid: seq<seq<bool>>, blocks: Blocks, routes: seq<LLEdge>, grid: Grid, h: Cells, v: Cells, k: nat, i: nat, n: Node)
    requires Counted(grid, h, v)
    requires |valid| == grid.rows + 1 && forall r :: 0 <= r < |valid| ==> |valid[r]| == grid.cols + 1
    requires AllWellRouted(valid, blocks, routes) && k < |routes| && i + 1 < |routes[k].points|
    requires Marks(h) == AllHoriz(routes) && Marks(v) == AllVert(routes) && MarksNodes(valid, blocks)
    requires n in blocks && grid.Holds(blocks[n]) && InGrid(blocks[n], grid.rows + 1, grid.cols + 1)
    requires var run := Between(routes[k].points[i], routes[k].points[i + 1]);
             run.Vert? && run.minrow <= blocks[n].row < run.maxrow ==> !grid.Overfull(blocks[n])
    ensures RunClears(
              grid.coledgex, grid.rowedgey, routes[k].points[i], routes[k].points[i + 1], Pixels(grid, blocks[n]))
  {
    hide Ladder, ColumnLanes, RowLanes, Between, Greedy, Marks, AllVert, AllHoriz, VertLanes, HorizLanes, RunsBetween,
         MarksNodes, Grid.Overfull, Grid.NodeX, Sized, AllWellRouted, InGrid;
    var e, b := routes[k], blocks[n];
    var p, q := e.points[i], e.points[i + 1];
    var run := Between(p, q);
    grid.Lengths();
    RunIsMarked(routes, h, v, k, i);
    RunIsCounted(grid, h, v, p, q);
    if run.Vert? && run.minrow <= b.row < run.maxrow {
      RoutedRun(valid, blocks, routes, k);
      VerticalRunsAvoidNodes(valid, blocks, blocks[e.source], blocks[e.target], e, i, n);
      grid.LaneClearsNode(b, run.col, p.index);
    }
    if run.Horiz? {
      grid.RowLaneClearsNode(b, run.row, p.index);
    }
  }

  lemma RoutedRun(valid: seq<seq<bool>>, blocks: Blocks, routes: seq<LLEdge>, k: nat)
    requires forall r :: 0 <= r < |valid| ==> |valid[r]| == |valid[0]|
    requires AllWellRouted(valid, blocks, routes) && k < |routes|
    ensures routes[k].source in blocks && routes[k].target in blocks
    ensures RunsBetween(valid, blocks[routes[k].source], blocks[routes[k].target], routes[k])
  {
    hide Greedy, RunsBetween, AllHoriz, AllVert, HorizLanes, VertLanes;
    assert WellRouted(valid, blocks, routes, k);
  }

  lemma RoutesStayClear(
    valid: seq<seq<bool>>, before: Blocks, after: Blocks, nodes: set<Node>, root: Node, routes: seq<LLEdge>, grid: Grid,
    h: Cells, v: Cells)
    requires Counted(grid, h, v)
    requires |valid| == grid.rows + 1 && forall r :: 0 <= r < |valid| ==> |valid[r]| == grid.cols + 1
    requires AllWellRouted(valid, before, routes) && MarksNodes(valid, before)
    requires Marks(h) == AllHoriz(routes) && Marks(v) == AllVert(routes)
    requires Pixelled(grid, before, after) && AllInGrid(before, grid.rows, grid.cols)
    requires root in before && before[root].row == 0
    requires forall n :: n in nodes && n in before && n != root ==>
               before[n].row > 0 && grid.coledgecount[before[n].col + 1] >= 1
    requires forall k :: 0 <= k < |routes| ==> routes[k].target in nodes
    ensures RoutesClearNodes(grid.coledgex, grid.rowedgey, after, nodes, routes)
  {
    hide Ladder, ColumnLanes, RowLanes, Between, Marks, AllVert, AllHoriz, AllWellRouted, Grid.Holds, Pixels,
         MarksNodes, Grid.Overfull, Sized, RunClears, InGrid;
    forall k, i, n | 0 <= k < |routes| && 0 <= i < |routes[k].points| - 1 && n in nodes && n in after
      ensures RunClears(grid.coledgex, grid.rowedgey, routes[k].points[i], routes[k].points[i + 1], after[n])
    {
      var run := Between(routes[k].points[i], routes[k].points[i + 1]);
      if run.Vert? && run.minrow <= before[n].row < run.maxrow {
        PassedIsNotOverfull(valid, before, nodes, root, routes, grid, v, k, i, n);
      }
      RunStaysClear(valid, before, routes, grid, h, v, k, i, n);
    }
  }

  lemma {:induction false} VertLanesApart(grid: Grid, h: Cells, v: Cells, l: Lane, l': Lane)
    requires Counted(grid, h, v) && l in Marks(v) && l' in Marks(v) && l != l' && l.row == l'.row
    ensures ColumnsDrawnApart(grid.coledgex, l, l')
  {
    hide Ladder, ColumnLanes, RowLanes;
    grid.Lengths();
    ColumnLanesCover(v, l.col, grid.rows + 1, l.row, l.index);
    ColumnLanesCover(v, l'.col, grid.rows + 1, l'.row, l'.index);
    if l.col < l'.col || (l.col == l'.col && l.index < l'.index) {
      grid.LanesApart(l.col, l.index, l'.col, l'.index);
    } else {
      grid.LanesApart(l'.col, l'.index, l.col, l.index);
    }
  }

  lemma {:induction false} HorizLanesApart(grid: Grid, h: Cells, v: Cells, l: Lane, l': Lane)
    requires Counted(grid, h, v) && l in Marks(h) && l' in Marks(h) && l != l' && l.col == l'.col
    ensures RowsDrawnApart(grid.rowedgey, l, l')
  {
    hide Ladder, ColumnLanes, RowLanes;
    grid.Lengths();
    RowLanesCover(h, l.row, grid.cols + 1, l.col, l.index);
    RowLanesCover(h, l'.row, grid.cols + 1, l'.col, l'.index);
    if l.row < l'.row || (l.row == l'.row && l.index < l'.index) {
      grid.RowLanesApart(l.row, l.index, l'.row, l'.index);
    } else {
      grid.RowLanesApart(l'.row, l'.index, l.row, l.index);
    }
  }

  /** All lanes that different routes hold, those of their runs and those of the stubs at both ends. */
  lemma {:induction false} HeldApart(
    valid: seq<seq<bool>>, blocks: Blocks, routes: seq<LLEdge>, grid: Grid, h: Cells, v: Cells)
    requires Counted(grid, h, v) && Marks(h) == AllHoriz(routes) && Marks(v) == AllVert(routes)
    requires (forall r :: 0 <= r < |valid| ==> |valid[r]| == |valid[0]|) && AllWellRouted(valid, blocks, routes)
    ensures LanesDrawnApart(grid.coledgex, grid.rowedgey, routes)
  {
    hide Counted, ColumnsDrawnApart, RowsDrawnApart, AllWellRouted, Marks, AllHoriz, AllVert, VertLanes, HorizLanes;
    forall k, m, l, l' | 0 <= k < m < |routes| && l in VertLanes(routes[k]) && l' in VertLanes(routes[m]) && l.row == l'.row
      ensures ColumnsDrawnApart(grid.coledgex, l, l')
    {
      RoutesApart(valid, blocks, routes, k, m);
      LanesOfOne(routes, k);
      LanesOfOne(routes, m);
      VertLanesApart(grid, h, v, l, l');
    }
    forall k, m, l, l' | 0 <= k < m < |routes| && l in HorizLanes(routes[k]) && l' in HorizLanes(routes[m]) && l.col == l'.col
      ensures RowsDrawnApart(grid.rowedgey, l, l')
    {
      RoutesApart(valid, blocks, routes, k, m);
      LanesOfOne(routes, k);
      LanesOfOne(routes, m);
      HorizLanesApart(grid, h, v, l, l');
    }
  }

  /** Runs that hold no lane in common. */
  lemma {:induction false} TwoRunsApart(
    coledgex: seq<int>, rowedgey: seq<int>, hk: set<Lane>, vk: set<Lane>, hl: set<Lane>, vl: set<Lane>,
    p: Point, q: Point, p': Point, q': Point)
    requires HasLine(coledgex, rowedgey, p, q) && HasLine(coledgex, rowedgey, p', q')
    requires var run := Between(p, q); run.Lanes(p.index) <= if run.Vert? then vk else hk
    requires var run := Between(p', q'); run.Lanes(p'.index) <= if run.Vert? then vl else hl
    requires forall l, l' :: l in vk && l' in vl && l.row == l'.row ==> ColumnsDrawnApart(coledgex, l, l')
    requires forall l, l' :: l in hk && l' in hl && l.col == l'.col ==> RowsDrawnApart(rowedgey, l, l')
    ensures RunsApart(coledgex, rowedgey, p, q, p', q')
  {
    var run, run' := Between(p, q), Between(p', q');
    if Meet(run, run') {
      if run.Vert? {
        var r := MaxOf(run.minrow, run'.minrow);
        assert Lane(r, run.col, p.index) in vk && Lane(r, run'.col, p'.index) in vl;
      } else {
        var c := MaxOf(run.mincol, run'.mincol);
        assert Lane(run.row, c, p.index) in hk && Lane(run'.row, c, p'.index) in hl;
      }
    }
  }

  lemma {:induction false} LinesApart(
    valid: seq<seq<bool>>, blocks: Blocks, routes: seq<LLEdge>, grid: Grid, h: Cells, v: Cells)
    requires Counted(grid, h, v) && Marks(h) == AllHoriz(routes) && Marks(v) == AllVert(routes)
    requires (forall r :: 0 <= r < |valid| ==> |valid[r]| == |valid[0]|) && AllWellRouted(valid, blocks, routes)
    ensures RoutesDrawnApart(grid.coledgex, grid.rowedgey, routes)
    ensures LanesDrawnApart(grid.coledgex, grid.rowedgey, routes)
  {
    hide Ladder, RunsApart, AllWellRouted, Marks, AllHoriz, AllVert, VertLanes, HorizLanes, ColumnsDrawnApart,
         RowsDrawnApart, ColumnLanes, RowLanes, Between;
    HeldApart(valid, blocks, routes, grid, h, v);
    grid.Lengths();
    forall k, l, i, j | 0 <= k < l < |routes| && 0 <= i < |routes[k].points| - 1 && 0 <= j < |routes[l].points| - 1
      ensures RunsApart(grid.coledgex, grid.rowedgey,
                        routes[k].points[i], routes[k].points[i + 1], routes[l].points[j], routes[l].points[j + 1])
    {
      RunIsMarked(routes, h, v, k, i);
      RunIsMarked(routes, h, v, l, j);
      RunIsCounted(grid, h, v, routes[k].points[i], routes[k].points[i + 1]);
      RunIsCounted(grid, h, v, routes[l].points[j], routes[l].points[j + 1]);
      TwoRunsApart(grid.coledgex, grid.rowedgey,
                   HorizLanes(routes[k]), VertLanes(routes[k]), HorizLanes(routes[l]), VertLanes(routes[l]),
                   routes[k].points[i], routes[k].points[i + 1], routes[l].points[j], routes[l].points[j + 1]);
    }
  }

  // ---- The routes, seen from the finished blocks

  ghost predicate SamePlaces(before: Blocks, after: Blocks) {
    && after.Keys == before.Keys
    && forall n :: n in before ==>
         && after[n].row == before[n].row && after[n].col == before[n].col
         && after[n].width == before[n].width && after[n].height == before[n].height
  }

  lemma RoutesStayWell(valid: seq<seq<bool>>, before: Blocks, after: Blocks, routes: seq<LLEdge>)
    requires forall r :: 0 <= r < |valid| ==> |valid[r]| == |valid[0]|
    requires AllWellRouted(valid, before, routes) && SamePlaces(before, after)
    ensures AllWellRouted(valid, after, routes)
  {
    hide Greedy, ChosenColumn, Spots, Corners, HorizLanes, VertLanes, AllHoriz, AllVert;
    forall k | 0 <= k < |routes| ensures WellRouted(valid, after, routes, k) {
      var e := routes[k];
      assert WellRouted(valid, before, routes, k);
      SameCourse(valid, before[e.source], before[e.target], after[e.source], after[e.target]);
    }
  }

  lemma NodesStayMarked(valid: seq<seq<bool>>, before: Blocks, after: Blocks)
    requires MarksNodes(valid, before) && SamePlaces(before, after)
    ensures MarksNodes(valid, after)
  {
    forall r, c | 0 <= r < |valid| && 0 <= c < |valid[r]|
      ensures !valid[r][c] <==> exists n :: n in after.Keys && NodeAt(after, n, r, c)
    {
      assert forall n :: NodeAt(before, n, r, c) <==> NodeAt(after, n, r, c);
    }
  }

  // ---- Putting the phases together

  lemma PlacedIsBare(kind: LayoutType, tree: Blocks, t: Tree)
    requires forall n :: n in tree ==> Bare(tree[n], n)
    ensures forall n :: n in Placed(kind, tree, t) ==>
              var b := Placed(kind, tree, t)[n];
              && b.node == n && b.edges == [] && b.newoutgoing == tree[n].newoutgoing
              && 0 <= b.width && 2 * PADDING <= b.height
  {
    hide Ids, CellOf;
  }

  /** A block that has not been placed and has no routes. */
  ghost predicate Bare(b: LLBlock, n: Node) {
    b.node == n && b.edges == [] && b.row == 0 && b.col == 0 && 0 <= b.width && 2 * PADDING <= b.height
  }

  /** Routing changes nothing about where the blocks are. */
  lemma RoutedPlaces(placed: Blocks, routed: Blocks, routes: seq<LLEdge>, rows: int, cols: int, nodes: set<Node>)
    requires KeepsRoutes(placed, routed, routes)
    requires AllInGrid(placed, rows, cols) && CellsApart(placed, nodes)
    requires forall n :: n in placed ==> 0 <= placed[n].width && 2 * PADDING <= placed[n].height
    ensures SamePlaces(placed, routed) && SameTree(placed, routed)
    ensures AllInGrid(routed, rows, cols) && CellsApart(routed, nodes)
    ensures forall n :: n in routed ==> 0 <= routed[n].width && 2 * PADDING <= routed[n].height
    ensures forall n :: n in routed ==>
              routed[n].rowcount == placed[n].rowcount && routed[n].colcount == placed[n].colcount
              && routed[n].edges == RoutesFrom(routes, n)
  {
    hide RoutesFrom;
  }

  lemma PixelledPlaces(grid: Grid, routed: Blocks, drawn: Blocks)
    requires Pixelled(grid, routed, drawn)
    ensures SamePlaces(routed, drawn) && SameTree(routed, drawn) && drawn.Keys == routed.Keys
    ensures forall n :: n in drawn ==>
              drawn[n].edges == routed[n].edges && drawn[n].width == routed[n].width && drawn[n].height == routed[n].height
  {
    hide Grid.Holds;
  }

  lemma PlacedKeepsTree(kind: LayoutType, tree: Blocks, t: Tree)
    ensures SameTree(tree, Placed(kind, tree, t))
  {
    hide Ids, CellOf;
  }

  lemma PlacedCells(kind: LayoutType, tree: Blocks, t: Tree, drawn: Blocks)
    requires SamePlaces(Placed(kind, tree, t), drawn) && SameTree(Placed(kind, tree, t), drawn)
    requires Matches(tree, t) && forall n :: n in Ids(t) ==> n in tree
    ensures Matches(drawn, t)
    ensures forall n :: n in Ids(t) ==>
              n in drawn && drawn[n].row == CellOf(kind, t, n).row && drawn[n].col == CellOf(kind, t, n).col
  {
    hide Ids, CellOf, Matches;
    KeepsMatch(tree, drawn, t);
  }

  /** In the drawing of the routed tree every node but the root is in a row below the first and is entered by a lane. */
  lemma EntriesHaveLanes(
    g: Graph, kind: LayoutType, tree: Blocks, parent: map<Node, Node>, order: seq<Node>, t: Tree, routed: Blocks,
    valid: seq<seq<bool>>, routes: seq<LLEdge>, v: Cells, rows: nat, cols: nat, grid: Grid)
    requires Grown(g, tree, parent, order) && t.id == g.root && (forall n :: n in Ids(t) <==> n in order)
    requires var placed := Placed(kind, tree, t);
             && SamePlaces(placed, routed)
             && |valid| == rows && (forall r :: 0 <= r < |valid| ==> |valid[r]| == |valid[0]|)
             && AllWellRouted(valid, placed, routes) && AllInGrid(placed, rows - 1, cols - 1)
    requires EndsOf(routes) == EdgesInOrder(g, order)
    requires Marks(v) == AllVert(routes) && Sized(v, rows, cols)
    requires grid.cols == cols - 1 && |grid.coledgecount| == cols
    requires forall c :: 0 <= c <= grid.cols ==> grid.coledgecount[c] == ColumnLanes(v, c, rows)
    ensures g.root in routed && routed[g.root].row == 0
    ensures forall n :: n in Ids(t) && n in routed && n != g.root ==>
              && routed[n].row > 0 && 0 <= routed[n].col + 1 < |grid.coledgecount|
              && grid.coledgecount[routed[n].col + 1] >= 1
  {
    hide Ids, CellOf, RootCell, AllWellRouted, EndsOf, EdgesInOrder, Marks, AllVert, ParentsFirst, ListsChildren;
    var placed := Placed(kind, tree, t);
    OwnCell(kind, t);
    RootFits(kind, t);
    forall n | n in Ids(t) && n in routed && n != g.root
      ensures routed[n].row > 0 && 0 <= routed[n].col + 1 < |grid.coledgecount|
              && grid.coledgecount[routed[n].col + 1] >= 1
    {
      RootAlone(kind, t, n);
      var k := TreeEdgeIsRouted(g, tree, parent, order, routes, n);
      assert InGrid(placed[n], rows, cols);
      TargetHasLane(valid, placed, routes, v, rows, cols, k);
    }
  }

  /** The tree laid out on a grid of the given size, with all its routes. */
  ghost predicate Routed(
    kind: LayoutType, tree: Blocks, t: Tree, blocks: Blocks, valid: seq<seq<bool>>, routes: seq<LLEdge>, rows: int,
        cols: int)
  {
    var placed := Placed(kind, tree, t);
    && 1 <= rows && |valid| == rows + 1 && (forall r :: 0 <= r < |valid| ==> |valid[r]| == |valid[0]|)
    && AllInGrid(placed, rows, cols) && SamePlaces(placed, blocks) && SameTree(placed, blocks)
    && CellsApart(blocks, Ids(t))
    && MarksNodes(valid, placed) && AllWellRouted(valid, placed, routes)
    && (forall n :: n in blocks ==> 0 <= blocks[n].width && 2 * PADDING <= blocks[n].height)
    && (forall n :: n in blocks ==> blocks[n].edges == RoutesFrom(routes, n))
  }

  lemma RoutedSizes(
    kind: LayoutType, tree: Blocks, t: Tree, blocks: Blocks, valid: seq<seq<bool>>, routes: seq<LLEdge>, rows: int,
        cols: int)
    requires Routed(kind, tree, t, blocks, valid, routes, rows, cols)
    ensures forall n :: n in blocks ==>
              0 <= blocks[n].width && 0 <= blocks[n].height && blocks[n].edges == RoutesFrom(routes, n)
  {
    hide RoutesFrom;
  }

  lemma SameGrid(before: Blocks, after: Blocks, rows: int, cols: int)
    requires SamePlaces(before, after) && AllInGrid(before, rows, cols)
    ensures AllInGrid(after, rows, cols)
  {
  }

  lemma PlacesStay(
    kind: LayoutType, tree: Blocks, t: Tree, routed: Blocks, drawn: Blocks, valid: seq<seq<bool>>, routes: seq<LLEdge>)
    requires exists rows, cols :: Routed(kind, tree, t, routed, valid, routes, rows, cols)
    requires SamePlaces(routed, drawn) && SameTree(routed, drawn)
    requires forall n :: n in drawn ==> drawn[n].edges == routed[n].edges
    requires Matches(tree, t) && forall n :: n in Ids(t) ==> n in tree
    ensures SameTree(tree, drawn)
    ensures |valid| > 0 && forall r :: 0 <= r < |valid| ==> |valid[r]| == |valid[0]|
    ensures MarksNodes(valid, drawn) && AllWellRouted(valid, drawn, routes)
    ensures Matches(drawn, t)
    ensures forall n :: n in Ids(t) ==>
              n in drawn && drawn[n].row == CellOf(kind, t, n).row && drawn[n].col == CellOf(kind, t, n).col
    ensures forall n :: n in drawn ==> drawn[n].edges == RoutesFrom(routes, n)
  {
    hide Ids, CellOf, Placed, Matches, AllWellRouted, MarksNodes, CellsApart, InGrid, RoutesFrom;
    PlacedKeepsTree(kind, tree, t);
    PlacedCells(kind, tree, t, drawn);
    RoutesStayWell(valid, Placed(kind, tree, t), drawn, routes);
    NodesStayMarked(valid, Placed(kind, tree, t), drawn);
  }
}
