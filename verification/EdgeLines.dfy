/** The polylines in which the routed edges are drawn. */
module EdgeLines {
  import opened LayoutGraph
  import opened SpanningTree
  import opened TreeLayout
  import opened BlockTree
  import opened EdgeLanes
  import opened EdgeRoute
  import opened PixelGrid
  import opened LayoutResult
  import opened LaneCount

  datatype Pixel = Pixel(x: int, y: int)

  predicate OnBands(coledgex: seq<int>, rowedgey: seq<int>, points: seq<Point>) {
    forall i :: 0 <= i < |points| ==> 0 <= points[i].col < |coledgex| && 0 <= points[i].row < |rowedgey|
  }

  /** From one drawn point to the next: down or up in the same column, else across. */
  function Turn(coledgex: seq<int>, rowedgey: seq<int>, last: Pixel, col: int, p: Point): Pixel
    requires 0 <= p.col < |coledgex| && 0 <= p.row < |rowedgey|
  {
    if col == p.col then Pixel(last.x, LineAt(rowedgey, p.row, p.index))
    else Pixel(LineAt(coledgex, p.col, p.index), last.y)
  }

  /** The drawn points up to the last corner. */
  function Trace(coledgex: seq<int>, rowedgey: seq<int>, start: Pixel, points: seq<Point>): (t: seq<Pixel>)
    requires OnBands(coledgex, rowedgey, points)
    ensures |t| == |points| + 1
  {
    if points == [] then [start] else
      var init, p := points[..|points| - 1], points[|points| - 1];
      var t := Trace(coledgex, rowedgey, start, init);
      t + [Turn(coledgex, rowedgey, t[|t| - 1], if init == [] then p.col else init[|init| - 1].col, p)]
  }

  /** Where an edge leaves a source that ends at the given height, just below it when its padding is taken off. */
  function StartOf(coledgex: seq<int>, e: LLEdge, bottom: int): Pixel
    requires e.points != [] && 0 <= e.points[0].col < |coledgex|
  {
    Pixel(LineAt(coledgex, e.points[0].col, e.startindex), bottom + 4 - 2 * PADDING)
  }

  /** The whole line, down to just above the top of the target. */
  function Polyline(coledgex: seq<int>, rowedgey: seq<int>, e: LLEdge, bottom: int, top: int): (line: seq<Pixel>)
    requires e.points != [] && OnBands(coledgex, rowedgey, e.points)
    ensures |line| == |e.points| + 2
  {
    var t := Trace(coledgex, rowedgey, StartOf(coledgex, e, bottom), e.points);
    t + [Pixel(t[|t| - 1].x, top - 1)]
  }

  /** The line of a route between two blocks. */
  function LineOfRoute(coledgex: seq<int>, rowedgey: seq<int>, e: LLEdge, source: LLBlock, target: LLBlock): seq<Pixel>
    requires e.points != [] && OnBands(coledgex, rowedgey, e.points)
  {
    Polyline(coledgex, rowedgey, e, source.y + source.height, target.y)
  }

  /** The tip of an arrow and its two barbs. */
  function ArrowAt(tip: Pixel): seq<Pixel> {
    [Pixel(tip.x - 3, tip.y - 6), Pixel(tip.x + 3, tip.y - 6), tip]
  }

  lemma {:induction false} TracePrefix(
    coledgex: seq<int>, rowedgey: seq<int>, start: Pixel, points: seq<Point>, i: nat)
    requires OnBands(coledgex, rowedgey, points) && i <= |points|
    ensures OnBands(coledgex, rowedgey, points[..i])
    ensures Trace(coledgex, rowedgey, start, points[..i]) == Trace(coledgex, rowedgey, start, points)[..i + 1]
  {
    if i < |points| {
      var init := points[..|points| - 1];
      TracePrefix(coledgex, rowedgey, start, init, i);
      assert init[..i] == points[..i];
    } else {
      assert points[..i] == points;
    }
  }

  /** Each drawn point follows from the one before. */
  lemma TraceAt(coledgex: seq<int>, rowedgey: seq<int>, start: Pixel, points: seq<Point>, i: nat)
    requires OnBands(coledgex, rowedgey, points) && i < |points|
    ensures var t := Trace(coledgex, rowedgey, start, points);
            && t[0] == start
            && t[i + 1] == Turn(coledgex, rowedgey, t[i], points[if i == 0 then 0 else i - 1].col, points[i])
  {
    TracePrefix(coledgex, rowedgey, start, points, 0);
    TracePrefix(coledgex, rowedgey, start, points, i);
    TracePrefix(coledgex, rowedgey, start, points, i + 1);
    assert points[..i + 1][..i] == points[..i];
  }

  lemma TraceStart(coledgex: seq<int>, rowedgey: seq<int>, start: Pixel, points: seq<Point>)
    requires OnBands(coledgex, rowedgey, points)
    ensures Trace(coledgex, rowedgey, start, points)[..1] == [start]
  {
    TracePrefix(coledgex, rowedgey, start, points, 0);
  }

  // ---- The course of a route

  /** The direction changes at every corner. */
  predicate Alternates(points: seq<Point>) {
    && (forall k :: 0 <= k < |points| - 1 ==>
          (points[k].row == points[k + 1].row) != (points[k].col == points[k + 1].col))
    && (forall k :: 0 <= k < |points| - 2 ==>
          (points[k].row == points[k + 1].row) != (points[k + 1].row == points[k + 2].row))
  }

  /** What the drawing needs to know of a route between two blocks. */
  predicate Course(e: LLEdge, start: LLBlock, end: LLBlock) {
    && e.points != [] && Alternates(e.points)
    && e.points[0].row == start.row + 1 && e.points[0].col == start.col + 1
    && e.points[|e.points| - 1].row == end.row && e.points[|e.points| - 1].col == end.col + 1
    && (!EndsHorizontally(e.points) ==> e.points[|e.points| - 1].index == 0)
    && (StartsVertically(e.points) ==>
          e.startindex == e.points[0].index && start.row + 1 < end.row && e.points[1].row == end.row)
  }

  /** The counted lanes that a route runs in. */
  predicate InLanes(grid: Grid, e: LLEdge) {
    && grid.Valid() && OnBands(grid.coledgex, grid.rowedgey, e.points)
    && e.points != [] && 0 <= e.startindex < grid.coledgecount[e.points[0].col]
    && forall k :: 0 <= k < |e.points| - 1 ==>
         0 <= e.points[k].index
         && (e.points[k].row == e.points[k + 1].row ==> e.points[k].index < grid.rowedgecount[e.points[k].row])
         && (e.points[k].row != e.points[k + 1].row ==> e.points[k].index < grid.coledgecount[e.points[k].col])
  }

  /** The line of a route is drawn along its runs, in their lanes. */
  lemma DrawnRun(coledgex: seq<int>, rowedgey: seq<int>, start: Pixel, e: LLEdge, k: nat)
    requires OnBands(coledgex, rowedgey, e.points) && Alternates(e.points) && k + 1 < |e.points|
    requires start.x == LineAt(coledgex, e.points[0].col, e.startindex)
    requires StartsVertically(e.points) ==> e.startindex == e.points[0].index
    ensures var t := Trace(coledgex, rowedgey, start, e.points);
            var p, q := e.points[k], e.points[k + 1];
            if p.row == q.row then t[k + 1].y == t[k + 2].y == LineAt(rowedgey, p.row, p.index)
            else
              && t[k + 1].x == t[k + 2].x == LineAt(coledgex, p.col, p.index)
              && t[k + 2].y == LineAt(rowedgey, q.row, q.index)
              && t[k + 1].y == LineAt(rowedgey, p.row, e.points[if k == 0 then 0 else k - 1].index)
  {
    hide Trace;
    TraceAt(coledgex, rowedgey, start, e.points, k);
    TraceAt(coledgex, rowedgey, start, e.points, k + 1);
    if k > 0 {
      TraceAt(coledgex, rowedgey, start, e.points, k - 1);
    }
  }

  lemma CornersAlternate(start: LLBlock, end: LLBlock, col: int, points: seq<Point>)
    requires Spots(points) == Corners(start, end, col) && (end.row == start.row + 1 ==> col == start.col + 1)
    ensures points != [] && Alternates(points)
    ensures points[0].row == start.row + 1 && points[0].col == start.col + 1
    ensures points[|points| - 1].row == end.row && points[|points| - 1].col == end.col + 1
    ensures StartsVertically(points) ==> col == start.col + 1 && end.row != start.row + 1 && points[1].row == end.row
    ensures forall i :: 0 <= i < |points| ==>
              && (points[i].row == start.row + 1 || points[i].row == end.row)
              && (points[i].col == start.col + 1 || points[i].col == col || points[i].col == end.col + 1)
  {
    var spots := Spots(points);
    assert |spots| == |points| <= 4;
    assert forall i :: 0 <= i < |spots| ==> spots[i] == Spot(points[i].row, points[i].col);
  }

  /** A vertical run that starts below its own source leads down: above it there is the source in the way. */
  lemma OwnColumnLeadsDown(valid: seq<seq<bool>>, blocks: Blocks, n: Node, end: LLBlock)
    requires forall r :: 0 <= r < |valid| ==> |valid[r]| == |valid[0]|
    requires n in blocks && 0 <= MinRow(blocks[n], end) < |valid| && MaxRow(blocks[n], end) <= |valid|
    requires MarksNodes(valid, blocks) && end.row != blocks[n].row + 1
    requires ColumnFree(valid, blocks[n].col + 1, MinRow(blocks[n], end), MaxRow(blocks[n], end)) && 0 <= end.row
    ensures blocks[n].row + 1 < end.row
  {
    if end.row <= blocks[n].row {
      FreeColumnPasses(valid, blocks, n, blocks[n].col + 1, MinRow(blocks[n], end), MaxRow(blocks[n], end));
    }
  }

  lemma FreeColumnPasses(valid: seq<seq<bool>>, blocks: Blocks, n: Node, col: int, minrow: int, maxrow: int)
    requires forall r :: 0 <= r < |valid| ==> |valid[r]| == |valid[0]|
    requires n in blocks && 0 <= minrow <= blocks[n].row < maxrow <= |valid|
    requires MarksNodes(valid, blocks) && ColumnFree(valid, col, minrow, maxrow)
    ensures col != blocks[n].col + 1
  {
    var r := blocks[n].row;
    assert valid[r][col];
    assert n in blocks.Keys && !NodeAt(blocks, n, r, col);
  }

  lemma {:induction false} GreedyEnds(hmarks: set<Lane>, vmarks: set<Lane>, e: LLEdge)
    requires Greedy(hmarks, vmarks, e)
    ensures e.points != []
    ensures !EndsHorizontally(e.points) ==> e.points[|e.points| - 1].index == 0
    ensures StartsVertically(e.points) ==> e.startindex == e.points[0].index
  {
  }

  lemma RouteHasCourse(
    valid: seq<seq<bool>>, blocks: Blocks, e: LLEdge, rows: nat, cols: nat, hmarks: set<Lane>, vmarks: set<Lane>)
    requires |valid| == rows && forall r :: 0 <= r < rows ==> |valid[r]| == cols
    requires e.source in blocks && e.target in blocks && MarksNodes(valid, blocks)
    requires InGrid(blocks[e.source], rows, cols) && InGrid(blocks[e.target], rows, cols)
    requires RunsBetween(valid, blocks[e.source], blocks[e.target], e) && Greedy(hmarks, vmarks, e)
    ensures Course(e, blocks[e.source], blocks[e.target])
    ensures forall i :: 0 <= i < |e.points| ==> 0 <= e.points[i].row < rows && 0 <= e.points[i].col < cols
  {
    var start, end := blocks[e.source], blocks[e.target];
    var col :| ChosenColumn(valid, start, end, col) && Spots(e.points) == Corners(start, end, col);
    ChosenStays(valid, start, end, col);
    hide ChosenColumn, Spots, Corners, MarksNodes, Alternates, Greedy, EndsHorizontally, StartsVertically;
    GreedyEnds(hmarks, vmarks, e);
    CornersAlternate(start, end, col, e.points);
    if StartsVertically(e.points) {
      OwnColumnLeadsDown(valid, blocks, e.source, end);
    }
  }

  lemma RouteInLanes(routes: seq<LLEdge>, grid: Grid, h: Cells, v: Cells, k: nat)
    requires Counted(grid, h, v) && k < |routes| && Marks(h) == AllHoriz(routes) && Marks(v) == AllVert(routes)
    requires routes[k].points != [] && Alternates(routes[k].points)
    requires forall p <- routes[k].points :: 0 <= p.row <= grid.rows && 0 <= p.col <= grid.cols
    ensures InLanes(grid, routes[k])
  {
    hide Ladder, ColumnLanes, RowLanes, Marks, AllHoriz, AllVert, HorizOf, VertOf, Alternates, Sized;
    var e := routes[k];
    grid.Lengths();
    forall i | 0 <= i < |e.points| - 1
      ensures 0 <= e.points[i].index
      ensures e.points[i].row == e.points[i + 1].row ==> e.points[i].index < grid.rowedgecount[e.points[i].row]
      ensures e.points[i].row != e.points[i + 1].row ==> e.points[i].index < grid.coledgecount[e.points[i].col]
    {
      RunIsMarked(routes, h, v, k, i);
      RunIsCounted(grid, h, v, e.points[i], e.points[i + 1]);
    }
    StubIsCounted(routes, grid, h, v, k);
  }

  lemma MarkIsNat(m: Cells, row: int, col: int, index: int)
    requires Lane(row, col, index) in Marks(m)
    ensures 0 <= index
  {
  }

  lemma StubIsCounted(routes: seq<LLEdge>, grid: Grid, h: Cells, v: Cells, k: nat)
    requires Counted(grid, h, v) && k < |routes| && Marks(v) == AllVert(routes)
    requires routes[k].points != []
    requires forall p <- routes[k].points :: 0 <= p.row <= grid.rows && 0 <= p.col <= grid.cols
    ensures 0 <= routes[k].startindex < grid.coledgecount[routes[k].points[0].col]
  {
    hide Ladder, ColumnLanes, AllHoriz, AllVert, VertOf, HorizOf;
    hide Marks;
    var e := routes[k];
    var first := e.points[0];
    assert Lane(first.row, first.col, e.startindex) in VertLanes(e);
    LanesOfOne(routes, k);
    MarkIsNat(v, first.row, first.col, e.startindex);
    ColumnLanesCover(v, first.col, grid.rows + 1, first.row, e.startindex);
  }

  // ---- Lines and nodes

  /** The lower edge of a block without its padding. */
  function BottomOf(b: LLBlock): int {
    b.y + b.height - 2 * PADDING
  }

  /** A straight line that does not touch a block, the padding at its bottom not counted. */
  predicate SegmentClears(p: Pixel, q: Pixel, b: LLBlock) {
    || (p.x < b.x && q.x < b.x) || (b.x + b.width < p.x && b.x + b.width < q.x)
    || (p.y < b.y && q.y < b.y) || (BottomOf(b) < p.y && BottomOf(b) < q.y)
  }

  predicate LineClears(line: seq<Pixel>, b: LLBlock) {
    forall i :: 0 <= i < |line| - 1 ==> SegmentClears(line[i], line[i + 1], b)
  }

  /**
   A route and a block on the grid: what the runs pass, who stands beside the source, and how far down the first point
   of an edge that runs straight down may be drawn. That point is placed as if the lane of the run were one of the row.
   */
  ghost predicate Beside(grid: Grid, e: LLEdge, start: LLBlock, end: LLBlock, b: LLBlock) {
    && InLanes(grid, e) && Course(e, start, end)
    && grid.Holds(start) && grid.Holds(end) && grid.Holds(b)
    && 2 * PADDING <= b.height
    && (b == start || b.row < start.row || !grid.Overfull(b))
    && (b == start || b.row != start.row || b.col != start.col)
    && (forall k :: 0 <= k < |e.points| - 1 ==>
          RunClears(grid.coledgex, grid.rowedgey, e.points[k], e.points[k + 1], Pixels(grid, b)))
    && (StartsVertically(e.points) && end.row <= b.row && b.col == start.col ==>
          LineAt(grid.rowedgey, e.points[0].row, e.startindex) < Pixels(grid, b).y)
  }

  /** A lane of a row, or lane 0 where there is none, is drawn between the blocks above and those in the row. */
  lemma RowLine(grid: Grid, b: LLBlock, row: int, index: int)
    requires grid.Holds(b) && 0 <= row <= grid.rows && 0 <= index && row < |grid.rowedgey| && row < |grid.rowedgecount|
    ensures b.row < row ==> BottomOf(Pixels(grid, b)) < LineAt(grid.rowedgey, row, index)
    ensures row <= b.row && (index == 0 || index < grid.rowedgecount[row]) ==>
              LineAt(grid.rowedgey, row, index) < Pixels(grid, b).y
  {
    hide Ladder;
    grid.RowLaneClearsNode(b, row, index);
  }

  /** Where an edge leaves its source is below the source and above what is in the rows below it. */
  lemma StartLine(grid: Grid, start: LLBlock, b: LLBlock)
    requires grid.Holds(start) && grid.Holds(b)
    ensures var y := Pixels(grid, start).y + start.height + 4 - 2 * PADDING;
            && (b == start || b.row < start.row ==> BottomOf(Pixels(grid, b)) < y)
            && (start.row < b.row ==> y < Pixels(grid, b).y)
  {
    hide Ladder, Grid.NodeX;
    if b.row < start.row {
      grid.RowsApart(b, start);
    } else if start.row < b.row {
      grid.RowsApart(start, b);
    }
  }

  /** Where an edge enters its target is above the target and what is beside and below it. */
  lemma EndLine(grid: Grid, end: LLBlock, b: LLBlock)
    requires grid.Holds(end) && grid.Holds(b)
    ensures end.row <= b.row ==> Pixels(grid, end).y <= Pixels(grid, b).y
    ensures b.row < end.row ==> BottomOf(Pixels(grid, b)) < Pixels(grid, end).y - 1
  {
    hide Ladder, Grid.NodeX;
    if b.row < end.row {
      grid.RowsApart(b, end);
    } else if end.row < b.row {
      grid.RowsApart(end, b);
    }
  }

  /** The index of a point at which no horizontal run ends and no vertical one starts is that of a lane of its row or 0. */
  lemma RowIndex(grid: Grid, e: LLEdge, start: LLBlock, end: LLBlock, k: nat)
    requires InLanes(grid, e) && Course(e, start, end) && k < |e.points|
    requires k > 0 ==> e.points[k - 1].row != e.points[k].row
    requires k == 0 ==> !StartsVertically(e.points)
    ensures 0 <= e.points[k].row < |grid.rowedgecount| && 0 <= e.points[k].index
    ensures e.points[k].index == 0 || e.points[k].index < grid.rowedgecount[e.points[k].row]
  {
    hide Ladder;
    grid.Lengths();
    if 0 < k < |e.points| - 1 {
      var i := k - 1;
      assert (e.points[i].row == e.points[i + 1].row) != (e.points[i + 1].row == e.points[i + 2].row);
    }
  }

  lemma FirstSegment(grid: Grid, e: LLEdge, start: LLBlock, end: LLBlock, b: LLBlock)
    requires Beside(grid, e, start, end, b)
    ensures var p := StartOf(grid.coledgex, e, Pixels(grid, start).y + start.height);
            var q := Pixel(p.x, LineAt(grid.rowedgey, e.points[0].row, e.points[0].index));
            SegmentClears(p, q, Pixels(grid, b))
  {
    hide Ladder, Alternates, Grid.Overfull;
    grid.Lengths();
    var first := e.points[0];
    StartLine(grid, start, b);
    RowLine(grid, b, first.row, first.index);
    if b != start && start.row <= b.row {
      if b.col != start.col {
        grid.LaneClearsNode(b, first.col, e.startindex);
      } else if !StartsVertically(e.points) {
        RowIndex(grid, e, start, end, 0);
      } else if b.row < end.row {
        FirstRunClears(grid, e, start, end, b);
      }
    }
  }

  lemma FirstRunClears(grid: Grid, e: LLEdge, start: LLBlock, end: LLBlock, b: LLBlock)
    requires Beside(grid, e, start, end, b) && StartsVertically(e.points) && start.row < b.row < end.row
    ensures var x, d := LineAt(grid.coledgex, e.points[0].col, e.startindex), Pixels(grid, b);
            x < d.x || d.x + d.width < x
  {
    hide Ladder, Grid.Holds, Grid.Overfull, Alternates;
    assert RunClears(grid.coledgex, grid.rowedgey, e.points[0], e.points[1], Pixels(grid, b));
  }

  lemma RunSegment(grid: Grid, e: LLEdge, start: LLBlock, end: LLBlock, b: LLBlock, k: nat)
    requires Beside(grid, e, start, end, b) && k + 1 < |e.points|
    ensures var origin := StartOf(grid.coledgex, e, Pixels(grid, start).y + start.height);
            var t := Trace(grid.coledgex, grid.rowedgey, origin, e.points);
            SegmentClears(t[k + 1], t[k + 2], Pixels(grid, b))
  {
    hide Ladder, Trace, Grid.Overfull, Grid.Holds;
    grid.Lengths();
    var p, q, d := e.points[k], e.points[k + 1], Pixels(grid, b);
    DrawnRun(grid.coledgex, grid.rowedgey, StartOf(grid.coledgex, e, Pixels(grid, start).y + start.height), e, k);
    assert RunClears(grid.coledgex, grid.rowedgey, p, q, d);
    if p.row != q.row {
      RunEnds(grid, e, start, end, b, k);
    }
  }

  /** Where a vertical run starts and ends it does so beyond the blocks in the rows that it does not cross. */
  lemma RunEnds(grid: Grid, e: LLEdge, start: LLBlock, end: LLBlock, b: LLBlock, k: nat)
    requires Beside(grid, e, start, end, b) && k + 1 < |e.points| && e.points[k].row != e.points[k + 1].row
    ensures var p, q, d := e.points[k], e.points[k + 1], Pixels(grid, b);
            var y := LineAt(grid.rowedgey, p.row, e.points[if k == 0 then 0 else k - 1].index);
            var y' := LineAt(grid.rowedgey, q.row, q.index);
            && (b.row < p.row && b.row < q.row ==> BottomOf(d) < y && BottomOf(d) < y')
            && (p.row <= b.row && q.row <= b.row ==>
                  var x := LineAt(grid.coledgex, p.col, p.index);
                  y' < d.y && (y < d.y || x < d.x || d.x + d.width < x))
  {
    hide Ladder, Grid.Overfull, Grid.Holds, Grid.NodeX, Grid.NodeY;
    grid.Lengths();
    var p, q := e.points[k], e.points[k + 1];
    var before := e.points[if k == 0 then 0 else k - 1];
    RowIndex(grid, e, start, end, k + 1);
    RowLine(grid, b, p.row, before.index);
    RowLine(grid, b, q.row, q.index);
    if k == 0 {
      assert StartsVertically(e.points);
      if b.col != start.col && start.row < b.row {
        grid.LaneClearsNode(b, p.col, p.index);
      }
    } else {
      assert before.row == p.row;
    }
  }

  lemma LastSegment(grid: Grid, e: LLEdge, start: LLBlock, end: LLBlock, b: LLBlock)
    requires Beside(grid, e, start, end, b)
    ensures var line := LineOfRoute(grid.coledgex, grid.rowedgey, e, Pixels(grid, start), Pixels(grid, end));
            SegmentClears(line[|line| - 2], line[|line| - 1], Pixels(grid, b))
  {
    hide Ladder, Trace, Grid.Overfull, Grid.Holds, Grid.NodeX, Grid.NodeY;
    grid.Lengths();
    EndLine(grid, end, b);
    var origin := StartOf(grid.coledgex, e, Pixels(grid, start).y + start.height);
    var m := |e.points|;
    var index;
    if EndsHorizontally(e.points) {
      DrawnRun(grid.coledgex, grid.rowedgey, origin, e, m - 2);
      index := e.points[m - 2].index;
    } else {
      if m == 1 {
        TraceAt(grid.coledgex, grid.rowedgey, origin, e.points, 0);
      } else {
        DrawnRun(grid.coledgex, grid.rowedgey, origin, e, m - 2);
      }
      index := 0;
    }
    assert Trace(grid.coledgex, grid.rowedgey, origin, e.points)[m].y == LineAt(grid.rowedgey, end.row, index);
    RowLine(grid, b, end.row, index);
  }

  /** The drawn line of an edge touches no block, from the first point to the last. */
  lemma PolylineClears(grid: Grid, e: LLEdge, start: LLBlock, end: LLBlock, b: LLBlock)
    requires Beside(grid, e, start, end, b)
    ensures var line := LineOfRoute(grid.coledgex, grid.rowedgey, e, Pixels(grid, start), Pixels(grid, end));
            LineClears(line, Pixels(grid, b))
  {
    hide Ladder, Trace, Grid.Overfull, Grid.Holds, Grid.NodeX, Grid.NodeY, SegmentClears;
    var origin, d := StartOf(grid.coledgex, e, Pixels(grid, start).y + start.height), Pixels(grid, b);
    var t := Trace(grid.coledgex, grid.rowedgey, origin, e.points);
    var line := LineOfRoute(grid.coledgex, grid.rowedgey, e, Pixels(grid, start), Pixels(grid, end));
    TraceAt(grid.coledgex, grid.rowedgey, origin, e.points, 0);
    FirstSegment(grid, e, start, end, b);
    assert line[0] == t[0] && line[1] == t[1];
    forall i | 0 <= i < |line| - 1 ensures SegmentClears(line[i], line[i + 1], d) {
      if i == |line| - 2 {
        LastSegment(grid, e, start, end, b);
      } else if i > 0 {
        RunSegment(grid, e, start, end, b, i - 1);
      }
    }
  }

  // ---- The lines of all routes

  /** The route is drawn in its line, with an arrow at the end. */
  predicate DrawnAs(coledgex: seq<int>, rowedgey: seq<int>, blocks: Blocks, e: LLEdge, lines: map<Edge, seq<Pixel>>,
                    arrows: map<Edge, seq<Pixel>>) {
    var edge := Edge(e.source, e.target);
    && e.source in blocks && e.target in blocks && edge in lines && edge in arrows
    && e.points != [] && OnBands(coledgex, rowedgey, e.points)
    && var line := LineOfRoute(coledgex, rowedgey, e, blocks[e.source], blocks[e.target]);
    && lines[edge] == line && arrows[edge] == ArrowAt(line[|line| - 1])
  }

  ghost predicate AllDrawn(coledgex: seq<int>, rowedgey: seq<int>, blocks: Blocks, routes: seq<LLEdge>,
                           lines: map<Edge, seq<Pixel>>, arrows: map<Edge, seq<Pixel>>) {
    forall k :: 0 <= k < |routes| ==> DrawnAs(coledgex, rowedgey, blocks, routes[k], lines, arrows)
  }

  /** The routes can be drawn: their blocks are there and their points on the grid. */
  ghost predicate Drawable(coledgex: seq<int>, rowedgey: seq<int>, blocks: Blocks, routes: seq<LLEdge>) {
    && Distinct(EndsOf(routes))
    && forall k :: 0 <= k < |routes| ==>
         && routes[k].source in blocks && routes[k].target in blocks
         && routes[k].points != [] && OnBands(coledgex, rowedgey, routes[k].points)
  }

  lemma DistinctPrefix(routes: seq<LLEdge>)
    requires Distinct(EndsOf(routes)) && routes != []
    ensures Distinct(EndsOf(routes[..|routes| - 1]))
    ensures forall k :: 0 <= k < |routes| - 1 ==> EndsOf(routes)[k] != EndsOf(routes)[|routes| - 1]
  {
    var ends := EndsOf(routes);
    assert EndsOf(routes[..|routes| - 1]) == ends[..|routes| - 1];
  }

  /** The routes that leave a block are among all routes, all different, and none is missing. */
  lemma {:induction false} RoutesOfBlock(routes: seq<LLEdge>, n: Node)
    requires Distinct(EndsOf(routes))
    ensures forall e :: e in RoutesFrom(routes, n) <==> e in routes && e.source == n
    ensures forall i, j :: 0 <= i < j < |RoutesFrom(routes, n)| ==>
              RoutesFrom(routes, n)[i].target != RoutesFrom(routes, n)[j].target
  {
    if routes != [] {
      var init, last := routes[..|routes| - 1], routes[|routes| - 1];
      var rest, all := RoutesFrom(init, n), RoutesFrom(routes, n);
      DistinctPrefix(routes);
      RoutesOfBlock(init, n);
      assert routes == init + [last] && all == rest + if last.source == n then [last] else [];
      forall e | e in init && e.source == n ensures last.source == n ==> e.target != last.target {
        var k :| 0 <= k < |init| && init[k] == e;
        assert EndsOf(routes)[k] == Edge(e.source, e.target) && EndsOf(routes)[|init|] == Edge(last.source, last.target);
      }
      forall i, j | 0 <= i < j < |all| ensures all[i].target != all[j].target {
        assert all[i] == rest[i] && rest[i] in rest;
        assert j < |rest| ==> all[j] == rest[j];
      }
      forall e ensures e in all <==> e in routes && e.source == n {
        assert e in all <==> e in rest || (e == last && last.source == n);
      }
    }
  }

  ghost predicate SomeDrawn(coledgex: seq<int>, rowedgey: seq<int>, blocks: Blocks, some: set<LLEdge>,
                            lines: map<Edge, seq<Pixel>>, arrows: map<Edge, seq<Pixel>>) {
    forall e <- some :: DrawnAs(coledgex, rowedgey, blocks, e, lines, arrows)
  }

  ghost function FromNode(routes: seq<LLEdge>, n: Node): set<LLEdge> {
    set e <- routes | e.source == n
  }

  lemma SourceOfAll(routes: seq<LLEdge>, n: Node)
    ensures forall e <- FromNode(routes, n) :: e.source == n
  {
  }

  lemma NoneDrawn(coledgex: seq<int>, rowedgey: seq<int>, blocks: Blocks, lines: map<Edge, seq<Pixel>>,
                  arrows: map<Edge, seq<Pixel>>)
    ensures SomeDrawn(coledgex, rowedgey, blocks, {}, lines, arrows)
  {
  }

  /** Drawing one edge leaves those with other ends as they were. */
  lemma DrawnNext(coledgex: seq<int>, rowedgey: seq<int>, blocks: Blocks, some: set<LLEdge>, e: LLEdge,
                  lines: map<Edge, seq<Pixel>>, arrows: map<Edge, seq<Pixel>>, line: seq<Pixel>)
    requires e.source in blocks && e.target in blocks && e.points != [] && OnBands(coledgex, rowedgey, e.points)
    requires line == LineOfRoute(coledgex, rowedgey, e, blocks[e.source], blocks[e.target]) && line != []
    requires SomeDrawn(coledgex, rowedgey, blocks, some, lines, arrows)
    requires forall f <- some :: f.source != e.source || f.target != e.target
    ensures var edge := Edge(e.source, e.target);
            SomeDrawn(coledgex, rowedgey, blocks, some + {e}, lines[edge := line],
                      arrows[edge := ArrowAt(line[|line| - 1])])
  {
    hide LineOfRoute;
  }

  lemma DrawnIsAll(coledgex: seq<int>, rowedgey: seq<int>, blocks: Blocks, routes: seq<LLEdge>, done: set<LLEdge>,
                   lines: map<Edge, seq<Pixel>>, arrows: map<Edge, seq<Pixel>>)
    requires Drawable(coledgex, rowedgey, blocks, routes)
    requires SomeDrawn(coledgex, rowedgey, blocks, done, lines, arrows)
    requires forall n :: n in blocks ==> FromNode(routes, n) <= done
    ensures AllDrawn(coledgex, rowedgey, blocks, routes, lines, arrows)
  {
    hide DrawnAs, Distinct;
    forall k | 0 <= k < |routes| ensures DrawnAs(coledgex, rowedgey, blocks, routes[k], lines, arrows) {
      assert routes[k] in FromNode(routes, routes[k].source);
    }
  }

  /** The routes kept by a block can be drawn, one after the other. */
  lemma BlockRoutes(coledgex: seq<int>, rowedgey: seq<int>, blocks: Blocks, routes: seq<LLEdge>, n: Node)
    requires Drawable(coledgex, rowedgey, blocks, routes)
    ensures forall e <- RoutesFrom(routes, n) ::
              && e.source == n && e.target in blocks && e.points != [] && OnBands(coledgex, rowedgey, e.points)
    ensures forall i, j :: 0 <= i < j < |RoutesFrom(routes, n)| ==>
              RoutesFrom(routes, n)[i].target != RoutesFrom(routes, n)[j].target
    ensures (set e <- RoutesFrom(routes, n)) == FromNode(routes, n)
  {
    hide Distinct, RoutesFrom, OnBands;
    RoutesOfBlock(routes, n);
  }

  /** No line touches a node. */
  ghost predicate LinesClear(coledgex: seq<int>, rowedgey: seq<int>, blocks: Blocks, nodes: set<Node>,
                             routes: seq<LLEdge>) {
    forall k, n :: 0 <= k < |routes| && n in nodes && n in blocks ==>
      LineClearsNode(coledgex, rowedgey, blocks, routes[k], n)
  }

  predicate LineClearsNode(coledgex: seq<int>, rowedgey: seq<int>, blocks: Blocks, e: LLEdge, n: Node)
    requires n in blocks
  {
    && e.source in blocks && e.target in blocks && e.points != [] && OnBands(coledgex, rowedgey, e.points)
    && LineClears(LineOfRoute(coledgex, rowedgey, e, blocks[e.source], blocks[e.target]), blocks[n])
  }

  /** Everything laid out and routed on a grid that has room for it. */
  ghost predicate Ready(
    valid: seq<seq<bool>>, blocks: Blocks, nodes: set<Node>, root: Node, routes: seq<LLEdge>, grid: Grid, h: Cells,
    v: Cells)
  {
    && Counted(grid, h, v) && |valid| == grid.rows + 1 && (forall r :: 0 <= r < |valid| ==> |valid[r]| == grid.cols + 1)
    && AllWellRouted(valid, blocks, routes) && MarksNodes(valid, blocks)
    && Marks(h) == AllHoriz(routes) && Marks(v) == AllVert(routes)
    && AllInGrid(blocks, grid.rows, grid.cols) && CellsApart(blocks, nodes)
    && (forall n :: n in blocks ==> grid.Holds(blocks[n]) && 2 * PADDING <= blocks[n].height)
    && root in blocks && blocks[root].row == 0
    && (forall n :: n in nodes && n in blocks && n != root ==>
          blocks[n].row > 0 && grid.coledgecount[blocks[n].col + 1] >= 1)
    && (forall k :: 0 <= k < |routes| ==> routes[k].source in nodes && routes[k].target in nodes)
    && Distinct(EndsOf(routes))
  }

  lemma ReadyHolds(
    valid: seq<seq<bool>>, blocks: Blocks, nodes: set<Node>, root: Node, routes: seq<LLEdge>, grid: Grid, h: Cells,
    v: Cells)
    requires Ready(valid, blocks, nodes, root, routes, grid, h, v)
    ensures grid.Valid() && forall n :: n in blocks ==> grid.Holds(blocks[n])
  {
  }

  lemma RouteIsReady(
    valid: seq<seq<bool>>, blocks: Blocks, nodes: set<Node>, root: Node, routes: seq<LLEdge>, grid: Grid, h: Cells,
    v: Cells, k: nat)
    requires Ready(valid, blocks, nodes, root, routes, grid, h, v) && k < |routes|
    ensures routes[k].source in blocks && routes[k].target in blocks && InLanes(grid, routes[k])
    ensures Course(routes[k], blocks[routes[k].source], blocks[routes[k].target])
  {
    hide Ladder, ColumnLanes, RowLanes, Marks, AllHoriz, AllVert, HorizLanes, VertLanes, Greedy, RunsBetween, MarksNodes,
         CellsApart, Grid.Holds, Counted, Course, Alternates;
    var e := routes[k];
    assert WellRouted(valid, blocks, routes, k);
    assert InGrid(blocks[e.source], grid.rows + 1, grid.cols + 1) && InGrid(blocks[e.target], grid.rows + 1, grid.cols + 1);
    RouteHasCourse(valid, blocks, e, grid.rows + 1, grid.cols + 1, AllHoriz(routes[..k]), AllVert(routes[..k]));
    CourseAlternates(e, blocks[e.source], blocks[e.target]);
    RouteInLanes(routes, grid, h, v, k);
  }

  lemma CourseAlternates(e: LLEdge, start: LLBlock, end: LLBlock)
    requires Course(e, start, end)
    ensures e.points != [] && Alternates(e.points)
  {
  }

  /** The lanes of the rows in between take up room between two rows. */
  lemma {:induction false} RowsAdd(grid: Grid, lo: int, hi: int)
    requires grid.Valid() && 0 <= lo <= hi <= grid.rows && |grid.rowedgey| == |grid.rowedgecount| == grid.rows + 1
    ensures grid.rowedgey[lo] + LANE_WIDTH * RowSum(grid.rowedgecount, lo, hi) <= grid.rowedgey[hi]
    decreases hi - lo
  {
    hide Ladder;
    if lo < hi {
      RowsAdd(grid, lo, hi - 1);
      grid.RowBand(hi - 1);
    }
  }

  lemma {:induction false} AllIsLaid(
    valid: seq<seq<bool>>, blocks: Blocks, nodes: set<Node>, root: Node, routes: seq<LLEdge>, grid: Grid, h: Cells,
    v: Cells)
    requires Ready(valid, blocks, nodes, root, routes, grid, h, v)
    ensures AllLaid(valid, blocks, nodes, routes)
  {
    hide Ladder, ColumnLanes, RowLanes, Marks, AllHoriz, AllVert, MarksNodes, AllWellRouted, CellsApart, Grid.Holds, Sized,
         InGrid, Distinct, EndsOf;
  }

  lemma {:induction false} HorizIsCounted(
    valid: seq<seq<bool>>, blocks: Blocks, nodes: set<Node>, root: Node, routes: seq<LLEdge>, grid: Grid, h: Cells,
    v: Cells)
    requires Ready(valid, blocks, nodes, root, routes, grid, h, v)
    ensures |grid.rowedgecount| == |grid.rowedgey| == |valid| == grid.rows + 1
    ensures forall q :: 0 <= q < |grid.rowedgecount| ==> 0 <= grid.rowedgecount[q]
    ensures forall m <- AllHoriz(routes) ::
              0 <= m.row < |grid.rowedgecount| && 0 <= m.index < grid.rowedgecount[m.row]
  {
    hide RowLanes, ColumnLanes, AllHoriz, AllVert, MarksNodes, AllWellRouted, CellsApart, Grid.Holds, Distinct, EndsOf;
    forall m | m in AllHoriz(routes)
      ensures 0 <= m.row < |grid.rowedgecount| && 0 <= m.index < grid.rowedgecount[m.row]
    {
      assert m in Marks(h) && m == Lane(m.row, m.col, m.index);
      RowLanesCover(h, m.row, grid.cols + 1, m.col, m.index);
    }
  }

  /** The misplaced first point of an edge that runs straight down is still above the next node in its column. */
  lemma {:induction false} TurnsAbove(
    valid: seq<seq<bool>>, blocks: Blocks, nodes: set<Node>, root: Node, routes: seq<LLEdge>, grid: Grid, h: Cells,
    v: Cells, k: nat, n: Node)
    requires Ready(valid, blocks, nodes, root, routes, grid, h, v) && k < |routes| && n in blocks
    requires routes[k].source in blocks && routes[k].target in blocks
    requires Course(routes[k], blocks[routes[k].source], blocks[routes[k].target]) && InLanes(grid, routes[k])
    requires StartsVertically(routes[k].points)
    requires blocks[routes[k].target].row <= blocks[n].row && blocks[n].col == blocks[routes[k].source].col
    ensures grid.Holds(blocks[n])
    ensures LineAt(grid.rowedgey, routes[k].points[0].row, routes[k].startindex) < Pixels(grid, blocks[n]).y
  {
    hide Ladder, Ready, AllHoriz, AllLaid, Alternates, Grid.Holds, Grid.Valid, Pixels, LineAt, RowSum, StartsVertically;
    AllIsLaid(valid, blocks, nodes, root, routes, grid, h, v);
    HorizIsCounted(valid, blocks, nodes, root, routes, grid, h, v);
    StartIsLow(valid, blocks, nodes, routes, grid.rowedgecount, k, n);
    ReadyHolds(valid, blocks, nodes, root, routes, grid, h, v);
    LowEnough(grid, blocks[n], blocks[routes[k].source].row + 1, routes[k].startindex);
  }

  lemma {:induction false} LowEnough(grid: Grid, b: LLBlock, row: int, index: int)
    requires grid.Holds(b) && 0 <= row <= b.row && |grid.rowedgecount| == |grid.rowedgey| == grid.rows + 1
    requires index <= 1 + RowSum(grid.rowedgecount, row, b.row + 1)
    ensures LineAt(grid.rowedgey, row, index) < Pixels(grid, b).y
  {
    hide Ladder, Grid.NodeX;
    RowsAdd(grid, row, b.row);
    grid.RowBand(b.row);
    assert RowSum(grid.rowedgecount, row, b.row + 1) == RowSum(grid.rowedgecount, row, b.row) + grid.rowedgecount[b.row];
  }

  lemma NodeIsBeside(
    valid: seq<seq<bool>>, blocks: Blocks, drawn: Blocks, nodes: set<Node>, root: Node, routes: seq<LLEdge>, grid: Grid,
    h: Cells, v: Cells, k: nat, n: Node)
    requires Ready(valid, blocks, nodes, root, routes, grid, h, v) && Pixelled(grid, blocks, drawn)
    requires RoutesClearNodes(grid.coledgex, grid.rowedgey, drawn, nodes, routes)
    requires k < |routes| && n in nodes && n in blocks
    requires routes[k].source in blocks && routes[k].target in blocks
    ensures Beside(grid, routes[k], blocks[routes[k].source], blocks[routes[k].target], blocks[n])
  {
    hide Ladder, ColumnLanes, RowLanes, Marks, AllHoriz, AllVert, MarksNodes, AllWellRouted, Grid.Holds, Counted,
         Course, InLanes, AllInGrid, Grid.Overfull, RunClears, Pixels, Distinct, EndsOf, StartsVertically;
    var e := routes[k];
    RouteIsReady(valid, blocks, nodes, root, routes, grid, h, v, k);
    if n != e.source && blocks[n].row >= blocks[e.source].row {
      assert n != root;
      grid.LaneMakesRoom(blocks[n]);
    }
    forall i | 0 <= i < |e.points| - 1
      ensures RunClears(grid.coledgex, grid.rowedgey, e.points[i], e.points[i + 1], Pixels(grid, blocks[n]))
    {
      assert n in drawn && drawn[n] == Pixels(grid, blocks[n]);
    }
    if StartsVertically(e.points) && blocks[e.target].row <= blocks[n].row && blocks[n].col == blocks[e.source].col {
      TurnsAbove(valid, blocks, nodes, root, routes, grid, h, v, k, n);
    }
  }

  lemma LinesStayClear(
    valid: seq<seq<bool>>, blocks: Blocks, drawn: Blocks, nodes: set<Node>, root: Node, routes: seq<LLEdge>, grid: Grid,
    h: Cells, v: Cells)
    requires Ready(valid, blocks, nodes, root, routes, grid, h, v) && Pixelled(grid, blocks, drawn)
    ensures RoutesClearNodes(grid.coledgex, grid.rowedgey, drawn, nodes, routes)
    ensures LinesClear(grid.coledgex, grid.rowedgey, drawn, nodes, routes)
  {
    hide Ladder, ColumnLanes, RowLanes, Marks, AllHoriz, AllVert, MarksNodes, AllWellRouted, Grid.Holds, Course, InLanes,
         CellsApart, Grid.Overfull, RoutesClearNodes, Pixels, LineClears, LineOfRoute, Sized, OnBands, Distinct, EndsOf;
    RoutesStayClear(valid, blocks, drawn, nodes, root, routes, grid, h, v);
    forall k, n | 0 <= k < |routes| && n in nodes && n in drawn
      ensures LineClearsNode(grid.coledgex, grid.rowedgey, drawn, routes[k], n)
    {
      var e := routes[k];
      RouteIsReady(valid, blocks, nodes, root, routes, grid, h, v, k);
      NodeIsBeside(valid, blocks, drawn, nodes, root, routes, grid, h, v, k, n);
      PolylineClears(grid, e, blocks[e.source], blocks[e.target], blocks[n]);
      assert drawn[n] == Pixels(grid, blocks[n]);
      assert drawn[e.source] == Pixels(grid, blocks[e.source]) && drawn[e.target] == Pixels(grid, blocks[e.target]);
      BandsOfLanes(grid, e);
    }
  }

  lemma BandsOfLanes(grid: Grid, e: LLEdge)
    requires InLanes(grid, e)
    ensures e.points != [] && OnBands(grid.coledgex, grid.rowedgey, e.points)
  {
  }

  // ---- The whole drawing

  lemma {:induction false} EdgesAreDistinct(g: Graph, order: seq<Node>)
    requires Distinct(g.edges) && Distinct(order)
    ensures Distinct(EdgesInOrder(g, order))
  {
    if order != [] {
      var init, last := order[..|order| - 1], order[|order| - 1];
      EdgesAreDistinct(g, init);
      OutgoingEdges(g.edges, last);
      var a, b := EdgesInOrder(g, init), OutgoingOf(g.edges, last);
      forall i, j | 0 <= i < |a| && 0 <= j < |b| ensures a[i] != b[j] {
        ListedIsEdge(g, init, a[i]);
        assert b[j] in b;
      }
    }
  }

  lemma ValidIsDistinct(g: Graph)
    requires g.Valid()
    ensures Distinct(g.edges)
  {
  }

  /** The routed tree on a grid with room for it is ready to be drawn. */
  lemma IsReady(
    g: Graph, kind: LayoutType, tree: Blocks, parent: map<Node, Node>, order: seq<Node>, t: Tree, routed: Blocks,
    valid: seq<seq<bool>>, routes: seq<LLEdge>, h: Cells, v: Cells, grid: Grid)
    requires g.Valid() && Grown(g, tree, parent, order) && ListsReachable(g, order)
    requires t.id == g.root && forall n :: n in Ids(t) <==> n in order
    requires Routed(kind, tree, t, routed, valid, routes, grid.rows, grid.cols) && EndsOf(routes) == EdgesInOrder(g, order)
    requires forall r :: 0 <= r < |valid| ==> |valid[r]| == grid.cols + 1
    requires Counted(grid, h, v) && Marks(h) == AllHoriz(routes) && Marks(v) == AllVert(routes)
    requires forall n :: n in routed ==> grid.Holds(routed[n])
    ensures Ready(valid, routed, Ids(t), g.root, routes, grid, h, v)
  {
    hide Grown, ListsReachable, Ids, CellOf, Placed, Marks, AllHoriz, AllVert, AllWellRouted, EndsOf, EdgesInOrder,
         MarksNodes, Grid.Holds, ColumnLanes, RowLanes, InGrid, CellsApart, SamePlaces, SameTree, Ladder, Sized, RoutesFrom,
         AllInGrid, Distinct;
    GrownIsDistinct(g, tree, parent, order);
    ValidIsDistinct(g);
    EdgesAreDistinct(g, order);
    var placed := Placed(kind, tree, t);
    grid.Lengths();
    EntriesHaveLanes(g, kind, tree, parent, order, t, routed, valid, routes, v, grid.rows + 1, grid.cols + 1, grid);
    SameGrid(placed, routed, grid.rows, grid.cols);
    RoutesStayWell(valid, placed, routed, routes);
    NodesStayMarked(valid, placed, routed);
    EndsAreListed(g, order, routes);
  }

  lemma CanBeDrawn(
    valid: seq<seq<bool>>, routed: Blocks, drawn: Blocks, nodes: set<Node>, root: Node, routes: seq<LLEdge>, grid: Grid,
    h: Cells, v: Cells)
    requires Ready(valid, routed, nodes, root, routes, grid, h, v) && routed.Keys == drawn.Keys
    ensures Drawable(grid.coledgex, grid.rowedgey, drawn, routes)
  {
    hide EndsOf, Distinct, InLanes, Course, OnBands, Counted, AllWellRouted, MarksNodes, Marks, AllHoriz, AllVert,
         AllInGrid, CellsApart, Grid.Holds;
    forall k | 0 <= k < |routes|
      ensures routes[k].source in drawn && routes[k].target in drawn
      ensures routes[k].points != [] && OnBands(grid.coledgex, grid.rowedgey, routes[k].points)
    {
      RouteIsReady(valid, routed, nodes, root, routes, grid, h, v, k);
      BandsOfLanes(grid, routes[k]);
    }
  }

  /** The drawing: rectangles apart and inside of the area, lines clear of them and apart. */
  lemma DrawnWell(
    valid: seq<seq<bool>>, routed: Blocks, drawn: Blocks, nodes: set<Node>, root: Node, routes: seq<LLEdge>, grid: Grid,
    h: Cells, v: Cells)
    requires Ready(valid, routed, nodes, root, routes, grid, h, v) && Pixelled(grid, routed, drawn)
    ensures RectanglesApart(drawn, nodes)
    ensures forall n :: n in drawn ==> InArea(RectOf(drawn[n]), grid.RightEdge(), grid.BottomEdge())
    ensures RoutesClearNodes(grid.coledgex, grid.rowedgey, drawn, nodes, routes)
    ensures RoutesDrawnApart(grid.coledgex, grid.rowedgey, routes)
    ensures LanesDrawnApart(grid.coledgex, grid.rowedgey, routes)
    ensures LinesClear(grid.coledgex, grid.rowedgey, drawn, nodes, routes)
  {
    hide Marks, AllHoriz, AllVert, AllWellRouted, MarksNodes, Grid.Holds, Pixels, ColumnLanes, RowLanes, CellsApart,
         RectanglesApart, InArea, Ladder, Sized, RoutesClearNodes, RoutesDrawnApart, LanesDrawnApart, LinesClear, Pixelled,
         AllInGrid, Distinct, EndsOf;
    DrawnInArea(grid, routed, drawn);
    DrawnApart(grid, routed, drawn, nodes, root);
    LinesStayClear(valid, routed, drawn, nodes, root, routes, grid, h, v);
    LinesApart(valid, routed, routes, grid, h, v);
  }
}
