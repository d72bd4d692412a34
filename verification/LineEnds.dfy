/** Where the nodes stand between their lanes, and where the lines of the edges begin and end. */
module LineEnds {
  import opened LayoutGraph
  import opened EdgeLanes
  import opened EdgeRoute
  import opened PixelGrid
  import opened LayoutResult
  import opened EdgeLines

  /**
   A node is centred on the lanes between its two columns, up to a pixel, and keeps a padding above it in its row and
   at least one below it once its own padding is taken off.
   */
  predicate Stands(coledgex: seq<int>, colx: seq<int>, rowedgey: seq<int>, rowy: seq<int>, b: LLBlock) {
    && 0 <= b.col && b.col + 1 < |coledgex| && b.col + 1 < |colx| && 0 <= b.row < |rowy| && b.row + 1 < |rowedgey|
    && -1 <= 2 * b.x + b.width - (coledgex[b.col + 1] + colx[b.col + 1]) <= 1
    && b.y - PADDING == rowy[b.row] && BottomOf(b) + PADDING <= rowedgey[b.row + 1]
  }

  predicate AllStand(coledgex: seq<int>, colx: seq<int>, rowedgey: seq<int>, rowy: seq<int>, blocks: Blocks) {
    forall n :: n in blocks ==> Stands(coledgex, colx, rowedgey, rowy, blocks[n])
  }

  lemma NodesStand(grid: Grid, before: Blocks, drawn: Blocks)
    requires Pixelled(grid, before, drawn)
    ensures AllStand(grid.coledgex, grid.colx, grid.rowedgey, grid.rowy, drawn)
  {
    hide Ladder, Grid.NodeX, Grid.NodeY;
    forall n | n in drawn ensures Stands(grid.coledgex, grid.colx, grid.rowedgey, grid.rowy, drawn[n]) {
      grid.Lengths();
      grid.CentredOnLanes(before[n]);
      grid.NodeInRow(before[n]);
    }
  }

  // ---- Both ends of a line

  /** The pixel column of one of the lanes counted for the column. */
  predicate InLane(coledgex: seq<int>, coledgecount: seq<int>, col: int, x: int) {
    && 0 <= col < |coledgex| && col < |coledgecount|
    && exists i :: 0 <= i < coledgecount[col] && LineAt(coledgex, col, i) == x
  }

  /** A line meets a block in a lane in its middle and, where the block is wide enough for its lanes, on the block. */
  predicate Meets(coledgex: seq<int>, coledgecount: seq<int>, b: LLBlock, x: int) {
    && InLane(coledgex, coledgecount, b.col + 1, x)
    && (LANE_WIDTH * (coledgecount[b.col + 1] - 1) <= 2 * (b.width / 2) ==> b.x <= x <= b.x + b.width)
  }

  /** The line begins below the middle of its source and ends above the middle of its target. */
  predicate MeetsEnds(coledgex: seq<int>, rowedgey: seq<int>, coledgecount: seq<int>, e: LLEdge, source: LLBlock,
                      target: LLBlock) {
    && e.points != [] && OnBands(coledgex, rowedgey, e.points)
    && var line := LineOfRoute(coledgex, rowedgey, e, source, target);
       var first, last := line[0], line[|line| - 1];
    && first.y == BottomOf(source) + 4 && last.y == target.y - 1
    && Meets(coledgex, coledgecount, source, first.x) && Meets(coledgex, coledgecount, target, last.x)
  }

  ghost predicate LinesMeetEnds(coledgex: seq<int>, rowedgey: seq<int>, coledgecount: seq<int>, blocks: Blocks,
                                routes: seq<LLEdge>) {
    forall k :: 0 <= k < |routes| ==>
      && routes[k].source in blocks && routes[k].target in blocks
      && MeetsEnds(coledgex, rowedgey, coledgecount, routes[k], blocks[routes[k].source], blocks[routes[k].target])
  }

  /** The tip of an arrow is where the line ends, its two barbs are above it, as far to the left as to the right. */
  predicate PointsDown(arrow: seq<Pixel>, tip: Pixel) {
    && |arrow| == 3 && arrow[2] == tip
    && tip.y - arrow[0].y == tip.y - arrow[1].y == 6
    && tip.x - arrow[0].x == arrow[1].x - tip.x == 3
  }

  ghost predicate ArrowsPointDown(routes: seq<LLEdge>, lines: map<Edge, seq<Pixel>>, arrows: map<Edge, seq<Pixel>>) {
    forall k :: 0 <= k < |routes| ==>
      var edge := Edge(routes[k].source, routes[k].target);
      edge in lines && edge in arrows && lines[edge] != [] && PointsDown(arrows[edge], lines[edge][|lines[edge]| - 1])
  }

  lemma ArrowPointsDown(tip: Pixel)
    ensures PointsDown(ArrowAt(tip), tip)
  {
  }

  lemma AllPointDown(coledgex: seq<int>, rowedgey: seq<int>, blocks: Blocks, routes: seq<LLEdge>,
                     lines: map<Edge, seq<Pixel>>, arrows: map<Edge, seq<Pixel>>)
    requires AllDrawn(coledgex, rowedgey, blocks, routes, lines, arrows)
    ensures ArrowsPointDown(routes, lines, arrows)
  {
    hide PointsDown, ArrowAt, Polyline;
    forall k | 0 <= k < |routes|
      ensures var edge := Edge(routes[k].source, routes[k].target);
              && edge in lines && edge in arrows && lines[edge] != []
              && PointsDown(arrows[edge], lines[edge][|lines[edge]| - 1])
    {
      assert DrawnAs(coledgex, rowedgey, blocks, routes[k], lines, arrows);
      var line := lines[Edge(routes[k].source, routes[k].target)];
      ArrowPointsDown(line[|line| - 1]);
    }
  }

  /** The last corner is drawn in the column of the target: in the lane of a last vertical run or in that of the stub. */
  lemma LastCorner(coledgex: seq<int>, rowedgey: seq<int>, start: Pixel, e: LLEdge)
    requires e.points != [] && OnBands(coledgex, rowedgey, e.points) && Alternates(e.points)
    requires start.x == LineAt(coledgex, e.points[0].col, e.startindex)
    requires StartsVertically(e.points) ==> e.startindex == e.points[0].index
    ensures var t, m := Trace(coledgex, rowedgey, start, e.points), |e.points|;
            var last := e.points[m - 1];
            && (m == 1 ==> t[m].x == LineAt(coledgex, last.col, e.startindex))
            && (EndsHorizontally(e.points) ==> t[m].x == LineAt(coledgex, last.col, last.index))
            && (m > 1 && !EndsHorizontally(e.points) ==>
                  e.points[m - 2].col == last.col && t[m].x == LineAt(coledgex, last.col, e.points[m - 2].index))
  {
    hide Trace;
    var m := |e.points|;
    TraceAt(coledgex, rowedgey, start, e.points, m - 1);
    if m > 1 {
      assert (e.points[m - 2].row == e.points[m - 1].row) != (e.points[m - 2].col == e.points[m - 1].col);
      if !EndsHorizontally(e.points) {
        DrawnRun(coledgex, rowedgey, start, e, m - 2);
      }
    }
  }

  /** The lane by which a route enters its target from the side is counted in the target's middle. */
  lemma EntryIsCounted(routes: seq<LLEdge>, grid: Grid, h: Cells, v: Cells, k: nat)
    requires Counted(grid, h, v) && k < |routes| && Marks(v) == AllVert(routes)
    requires EndsHorizontally(routes[k].points)
    requires forall p <- routes[k].points :: 0 <= p.row <= grid.rows && 0 <= p.col <= grid.cols
    ensures var last := routes[k].points[|routes[k].points| - 1];
            last.col < |grid.coledgecount| && 0 <= last.index < grid.coledgecount[last.col]
  {
    hide Ladder, ColumnLanes, AllHoriz, AllVert, VertOf, HorizOf, Marks;
    var e := routes[k];
    var last := e.points[|e.points| - 1];
    assert last in e.points;
    assert Lane(last.row, last.col, last.index) in VertLanes(e);
    grid.Lengths();
    LanesOfOne(routes, k);
    MarkIsNat(v, last.row, last.col, last.index);
    ColumnLanesCover(v, last.col, grid.rows + 1, last.row, last.index);
  }

  lemma LaneMeets(grid: Grid, b: LLBlock, index: nat)
    requires grid.Holds(b) && b.col + 1 < |grid.coledgecount| && b.col + 1 < |grid.coledgex|
    requires index < grid.coledgecount[b.col + 1]
    ensures Meets(grid.coledgex, grid.coledgecount, Pixels(grid, b), LineAt(grid.coledgex, b.col + 1, index))
  {
    hide Ladder, Grid.NodeX, Grid.NodeY;
    grid.LanesHitNode(b);
    assert grid.LanesFit(b) ==> grid.Hits(b, index);
    assert InLane(grid.coledgex, grid.coledgecount, b.col + 1, LineAt(grid.coledgex, b.col + 1, index));
  }

  lemma LineMeetsEnds(grid: Grid, e: LLEdge, start: LLBlock, end: LLBlock)
    requires InLanes(grid, e) && Course(e, start, end) && grid.Holds(start) && grid.Holds(end)
    requires EndsHorizontally(e.points) ==>
               var last := e.points[|e.points| - 1];
               last.col < |grid.coledgecount| && 0 <= last.index < grid.coledgecount[last.col]
    ensures MeetsEnds(grid.coledgex, grid.rowedgey, grid.coledgecount, e, Pixels(grid, start), Pixels(grid, end))
  {
    hide Ladder, Alternates, Trace, LineAt, Grid.Holds, Meets, Grid.NodeX, Grid.NodeY;
    grid.Lengths();
    var origin := StartOf(grid.coledgex, e, Pixels(grid, start).y + start.height);
    var m, last := |e.points|, e.points[|e.points| - 1];
    LaneMeets(grid, start, e.startindex);
    LastCorner(grid.coledgex, grid.rowedgey, origin, e);
    TraceAt(grid.coledgex, grid.rowedgey, origin, e.points, 0);
    if m == 1 {
      LaneMeets(grid, end, e.startindex);
    } else if EndsHorizontally(e.points) {
      LaneMeets(grid, end, last.index);
    } else {
      LaneMeets(grid, end, e.points[m - 2].index);
    }
  }

  lemma RouteMeetsEnds(
    valid: seq<seq<bool>>, blocks: Blocks, nodes: set<Node>, root: Node, routes: seq<LLEdge>, grid: Grid, h: Cells,
    v: Cells, k: nat)
    requires Ready(valid, blocks, nodes, root, routes, grid, h, v) && k < |routes|
    ensures var e := routes[k];
            && e.source in blocks && e.target in blocks
            && grid.Holds(blocks[e.source]) && grid.Holds(blocks[e.target])
            && MeetsEnds(grid.coledgex, grid.rowedgey, grid.coledgecount, e, Pixels(grid, blocks[e.source]),
                         Pixels(grid, blocks[e.target]))
  {
    hide Ladder, ColumnLanes, RowLanes, Marks, AllHoriz, AllVert, MarksNodes, AllWellRouted, Course, Counted,
         CellsApart, Pixels, Sized, Distinct, EndsOf, MeetsEnds, Grid.Holds, AllInGrid, EndsHorizontally;
    RouteIsReady(valid, blocks, nodes, root, routes, grid, h, v, k);
    PointsInGrid(grid, routes[k]);
    if EndsHorizontally(routes[k].points) {
      EntryIsCounted(routes, grid, h, v, k);
    }
    LineMeetsEnds(grid, routes[k], blocks[routes[k].source], blocks[routes[k].target]);
  }

  lemma PointsInGrid(grid: Grid, e: LLEdge)
    requires InLanes(grid, e)
    ensures forall p <- e.points :: 0 <= p.row <= grid.rows && 0 <= p.col <= grid.cols
  {
    grid.Lengths();
  }

  lemma AllMeetEnds(
    valid: seq<seq<bool>>, blocks: Blocks, drawn: Blocks, nodes: set<Node>, root: Node, routes: seq<LLEdge>, grid: Grid,
    h: Cells, v: Cells)
    requires Ready(valid, blocks, nodes, root, routes, grid, h, v) && Pixelled(grid, blocks, drawn)
    ensures LinesMeetEnds(grid.coledgex, grid.rowedgey, grid.coledgecount, drawn, routes)
  {
    hide Ladder, ColumnLanes, RowLanes, Marks, AllHoriz, AllVert, MarksNodes, AllWellRouted, Course, InLanes, Counted,
         CellsApart, Pixels, Sized, Distinct, EndsOf, MeetsEnds, Grid.Holds, AllInGrid;
    forall k | 0 <= k < |routes|
      ensures routes[k].source in drawn && routes[k].target in drawn
      ensures MeetsEnds(grid.coledgex, grid.rowedgey, grid.coledgecount, routes[k], drawn[routes[k].source],
                        drawn[routes[k].target])
    {
      RouteMeetsEnds(valid, blocks, nodes, root, routes, grid, h, v, k);
    }
  }

  // ---- Room for the lanes

  /** Each row and column counts the lanes that routes hold in it, up to the highest one. */
  ghost predicate LanesCounted(coledgecount: seq<int>, rowedgecount: seq<int>, routes: seq<LLEdge>) {
    && (forall l <- AllVert(routes) :: 0 <= l.col < |coledgecount| && 0 <= l.index < coledgecount[l.col])
    && (forall l <- AllHoriz(routes) :: 0 <= l.row < |rowedgecount| && 0 <= l.index < rowedgecount[l.row])
    && (forall c :: 0 <= c < |coledgecount| && coledgecount[c] > 0 ==>
          exists l :: l in AllVert(routes) && l.col == c && l.index == coledgecount[c] - 1)
    && (forall r :: 0 <= r < |rowedgecount| && rowedgecount[r] > 0 ==>
          exists l :: l in AllHoriz(routes) && l.row == r && l.index == rowedgecount[r] - 1)
  }

  lemma LastIsMarked(m: Cells, row: nat, col: nat)
    requires Tight(m) && row < |m| && col < |m[row]| && m[row][col] != []
    ensures Lane(row, col, |m[row][col]| - 1) in Marks(m)
  {
  }

  lemma CountsAreExact(
    valid: seq<seq<bool>>, blocks: Blocks, nodes: set<Node>, root: Node, routes: seq<LLEdge>, grid: Grid, h: Cells,
    v: Cells)
    requires Ready(valid, blocks, nodes, root, routes, grid, h, v) && Tight(h) && Tight(v)
    ensures LanesCounted(grid.coledgecount, grid.rowedgecount, routes)
  {
    hide Ladder, ColumnLanes, RowLanes, AllHoriz, AllVert, MarksNodes, AllWellRouted, CellsApart, Distinct, EndsOf,
         Grid.Holds, AllInGrid, Marks, Tight;
    grid.Lengths();
    HorizIsCounted(valid, blocks, nodes, root, routes, grid, h, v);
    forall l | l in AllVert(routes) ensures 0 <= l.col < |grid.coledgecount| && 0 <= l.index < grid.coledgecount[l.col] {
      VertIsCounted(grid, h, v, l);
    }
    forall c | 0 <= c < |grid.coledgecount| && grid.coledgecount[c] > 0
      ensures exists l :: l in AllVert(routes) && l.col == c && l.index == grid.coledgecount[c] - 1
    {
      var row := ColumnLanesListed(v, c, grid.rows + 1);
      LastIsMarked(v, row, c);
      assert Lane(row, c, grid.coledgecount[c] - 1) in AllVert(routes);
    }
    forall r | 0 <= r < |grid.rowedgecount| && grid.rowedgecount[r] > 0
      ensures exists l :: l in AllHoriz(routes) && l.row == r && l.index == grid.rowedgecount[r] - 1
    {
      var col := RowLanesListed(h, r, grid.cols + 1);
      LastIsMarked(h, r, col);
      assert Lane(r, col, grid.rowedgecount[r] - 1) in AllHoriz(routes);
    }
  }

  lemma VertIsCounted(grid: Grid, h: Cells, v: Cells, l: Lane)
    requires Counted(grid, h, v) && l in Marks(v)
    ensures 0 <= l.col < |grid.coledgecount| && 0 <= l.index < grid.coledgecount[l.col]
  {
    hide Ladder, ColumnLanes, RowLanes;
    grid.Lengths();
    assert l == Lane(l.row, l.col, l.index);
    ColumnLanesCover(v, l.col, grid.rows + 1, l.row, l.index);
  }
}
