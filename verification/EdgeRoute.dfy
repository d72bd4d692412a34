/** The course of one routed edge over the grid. */
module EdgeRoute {
  import opened LayoutGraph
  import opened EdgeLanes

  datatype Spot = Spot(row: int, col: int)

  function Spots(points: seq<Point>): seq<Spot> {
    seq(|points|, i requires 0 <= i < |points| => Spot(points[i].row, points[i].col))
  }

  /** The corners of an edge between two blocks that moves vertically in the given column. */
  function Corners(start: LLBlock, end: LLBlock, col: int): seq<Spot> {
    [Spot(start.row + 1, start.col + 1)]
    + (if col != start.col + 1 then [Spot(start.row + 1, col)] else [])
    + (if end.row != start.row + 1 then [Spot(end.row, col)] else [])
    + (if col != end.col + 1 then [Spot(end.row, end.col + 1)] else [])
  }

  function MinRow(start: LLBlock, end: LLBlock): int {
    MinOf(start.row + 1, end.row)
  }

  function MaxRow(start: LLBlock, end: LLBlock): int {
    MaxOf(start.row + 1, end.row)
  }

  /** An edge may run down the column from minrow to maxrow without meeting a node. */
  predicate ColumnFree(valid: seq<seq<bool>>, column: int, minrow: int, maxrow: int)
    requires 0 <= minrow < |valid| && maxrow <= |valid|
    requires forall r :: 0 <= r < |valid| ==> |valid[r]| == |valid[0]|
  {
    0 <= column < |valid[minrow]| && forall r :: minrow <= r < maxrow ==> valid[r][column]
  }

  function Distance(a: int, b: int): int {
    if a < b then b - a else a - b
  }

  /**
   The column in which the edge moves: its own if that is free, else the target's, else the nearest free one,
   the left one of two that are equally near.
   */
  ghost predicate ChosenColumn(valid: seq<seq<bool>>, start: LLBlock, end: LLBlock, col: int)
    requires 0 <= MinRow(start, end) < |valid| && MaxRow(start, end) <= |valid|
    requires forall r :: 0 <= r < |valid| ==> |valid[r]| == |valid[0]|
  {
    var minrow, maxrow := MinRow(start, end), MaxRow(start, end);
    if minrow == maxrow || ColumnFree(valid, start.col + 1, minrow, maxrow) then col == start.col + 1
    else if ColumnFree(valid, end.col + 1, minrow, maxrow) then col == end.col + 1
    else
      && ColumnFree(valid, col, minrow, maxrow)
      && forall c :: ColumnFree(valid, c, minrow, maxrow) ==>
           || Distance(start.col + 1, col) < Distance(start.col + 1, c)
           || (Distance(start.col + 1, col) == Distance(start.col + 1, c) && col <= c)
  }

  /** Every lane of the edge is the least one free along its run among the lanes that were marked before. */
  ghost predicate Greedy(hmarks: set<Lane>, vmarks: set<Lane>, e: LLEdge) {
    && e.points != []
    && (forall k :: 0 <= k < |e.points| - 1 ==> GreedyRun(hmarks, vmarks, e.points[k], e.points[k + 1]))
    && (StartsVertically(e.points) ==> e.startindex == e.points[0].index)
    && (!StartsVertically(e.points) ==>
          LeastFree(vmarks, Vert(e.points[0].col, e.points[0].row, e.points[0].row), e.startindex))
    && (EndsHorizontally(e.points) ==>
          var last := e.points[|e.points| - 1];
          LeastFree(vmarks, Vert(last.col, last.row, last.row), last.index))
    && (!EndsHorizontally(e.points) ==> e.points[|e.points| - 1].index == 0)
  }

  ghost predicate GreedyRun(hmarks: set<Lane>, vmarks: set<Lane>, p: Point, q: Point) {
    var run := Between(p, q);
    LeastFree(if run.Horiz? then hmarks else vmarks, run, p.index)
  }

  predicate StartsVertically(points: seq<Point>) {
    |points| >= 2 && Between(points[0], points[1]).Vert?
  }

  /** The lanes of the edge were free before and are what has been marked since. */
  ghost predicate Took(before: set<Lane>, after: set<Lane>, lanes: set<Lane>) {
    before !! lanes && after == before + lanes
  }

  // ---- A route in the making

  ghost predicate GreedyRuns(hmarks: set<Lane>, vmarks: set<Lane>, points: seq<Point>) {
    forall k :: 0 <= k < |points| - 1 ==> GreedyRun(hmarks, vmarks, points[k], points[k + 1])
  }

  /** The lanes of the points so far, and the stub the edge leaves by, have been taken from those free at first. */
  ghost predicate Laid(
    h0: set<Lane>, v0: set<Lane>, h: set<Lane>, v: set<Lane>, points: seq<Point>, stub: set<Lane>)
  {
    && points != []
    && Took(h0, h, HorizOf(points))
    && Took(v0, v, VertOf(points) + stub)
    && GreedyRuns(h0, v0, points)
  }

  lemma GreedyNext(h0: set<Lane>, v0: set<Lane>, points: seq<Point>, row: int, col: int, index: int)
    requires points != [] && GreedyRuns(h0, v0, points)
    requires GreedyRun(h0, v0, points[|points| - 1].(index := index), Point(row, col, 0))
    ensures GreedyRuns(h0, v0, AddPoint(points, row, col, index))
  {
    var p := AddPoint(points, row, col, index);
    forall k | 0 <= k < |p| - 1 ensures GreedyRun(h0, v0, p[k], p[k + 1]) {
      if k < |points| - 1 {
        assert GreedyRun(h0, v0, points[k], points[k + 1]);
      }
    }
  }

  lemma LayHoriz(
    h0: set<Lane>, v0: set<Lane>, h: set<Lane>, v: set<Lane>, points: seq<Point>, stub: set<Lane>,
    row: int, col: int, index: int)
    requires Laid(h0, v0, h, v, points, stub)
    requires points[|points| - 1].row == row
    requires LeastFree(h, Between(points[|points| - 1], Point(row, col, 0)), index)
    requires forall l <- HorizOf(points) :: l.row != row
    ensures Laid(h0, v0, h + Between(points[|points| - 1], Point(row, col, 0)).Lanes(index), v,
                 AddPoint(points, row, col, index), stub)
  {
    var run := Between(points[|points| - 1], Point(row, col, 0));
    AddPointLanes(points, row, col, index);
    LeastFreeBeside(h0, HorizOf(points), run, index);
    GreedyNext(h0, v0, points, row, col, index);
  }

  lemma LayVert(
    h0: set<Lane>, v0: set<Lane>, h: set<Lane>, v: set<Lane>, points: seq<Point>, stub: set<Lane>,
    row: int, col: int, index: int)
    requires Laid(h0, v0, h, v, points, stub)
    requires points[|points| - 1].col == col && points[|points| - 1].row != row
    requires LeastFree(v, Between(points[|points| - 1], Point(row, col, 0)), index)
    requires forall l <- VertOf(points) + stub :: l.col != col
    ensures Laid(h0, v0, h, v + Between(points[|points| - 1], Point(row, col, 0)).Lanes(index),
                 AddPoint(points, row, col, index), stub)
  {
    var run := Between(points[|points| - 1], Point(row, col, 0));
    AddPointLanes(points, row, col, index);
    LeastFreeBeside(v0, VertOf(points) + stub, run, index);
    GreedyNext(h0, v0, points, row, col, index);
  }

  /** Lanes held by horizontal runs lie in the given row, lanes held by vertical ones in the given column. */
  ghost predicate LanesIn(points: seq<Point>, row: int, col: int) {
    (forall l <- HorizOf(points) :: l.row == row) && (forall l <- VertOf(points) :: l.col == col)
  }

  lemma FirstPoint(row: int, col: int)
    ensures var p := AddPoint([], row, col, 0);
            && p == [Point(row, col, 0)] && Spots(p) == [Spot(row, col)]
            && HorizOf(p) == {} && VertOf(p) == {}
  {
  }

  lemma NextPoint(points: seq<Point>, row: int, col: int, index: int)
    requires points != []
    ensures var p := AddPoint(points, row, col, index);
            && Spots(p) == Spots(points) + [Spot(row, col)]
            && p[|p| - 1] == Point(row, col, 0)
            && StartsVertically(p) == (if |points| > 1 then StartsVertically(points) else points[0].row != row)
            && EndsHorizontally(p) == (points[|points| - 1].row == row)
            && (|points| == 1 ==> p[0].index == index)
            && (|points| > 1 ==> p[0] == points[0])
  {
  }

  /** The vertical run that starts in the edge's own column takes the place of the stub laid at first. */
  lemma LayVertFromStub(
    h0: set<Lane>, v0: set<Lane>, h: set<Lane>, v: set<Lane>, points: seq<Point>, row: int, col: int, first: int,
        index: int)
    requires |points| == 1 && points[0].col == col && points[0].row != row
    requires Laid(h0, v0, h, v, points, {Lane(points[0].row, col, first)})
    requires LeastFree(v - {Lane(points[0].row, col, first)}, Between(points[0], Point(row, col, 0)), index)
    requires LeastFree(v0, Vert(col, points[0].row, points[0].row), first)
    ensures first <= index
    ensures Laid(h0, v0, h, v - {Lane(points[0].row, col, first)} + Between(points[0], Point(row, col, 0)).Lanes(index),
                 AddPoint(points, row, col, index), {Lane(points[0].row, col, index)})
  {
    var stub := {Lane(points[0].row, col, first)};
    assert VertOf(points) == {};
    assert v - stub == v0;
    LayVert(h0, v0, h, v - stub, points, {}, row, col, index);
    AddPointLanes(points, row, col, index);
    assert Lane(points[0].row, col, index) in Between(points[0], Point(row, col, 0)).Lanes(index);
    StubComesFirst(v0, Vert(col, points[0].row, points[0].row), Between(points[0], Point(row, col, 0)), first, index);
  }

  /** Along a longer run no lower lane is free than along a part of it. */
  lemma StubComesFirst(marks: set<Lane>, part: Run, run: Run, first: int, index: int)
    requires LeastFree(marks, part, first) && LeastFree(marks, run, index)
    requires forall j: int :: part.Lanes(j) <= run.Lanes(j)
    ensures first <= index
  {
    assert 0 <= index < first ==> !(part.Lanes(index) !! marks);
  }

  /** The stub by which the edge enters its target after a horizontal run. */
  lemma LayEnd(
    h0: set<Lane>, v0: set<Lane>, h: set<Lane>, v: set<Lane>, points: seq<Point>, stub: set<Lane>, index: int)
    requires Laid(h0, v0, h, v, points, stub) && EndsHorizontally(points)
    requires var last := points[|points| - 1];
             && LeastFree(v, Vert(last.col, last.row, last.row), index)
             && (forall l <- VertOf(points) + stub :: l.col != last.col || l.row != last.row)
    ensures var last := points[|points| - 1];
            var p := points[|points| - 1 := last.(index := index)];
            && Laid(h0, v0, h, v + {Lane(last.row, last.col, index)}, p, stub + {Lane(last.row, last.col, index)})
            && LeastFree(v0, Vert(last.col, last.row, last.row), index)
            && Vert(last.col, last.row, last.row).Lanes(index) == {Lane(last.row, last.col, index)}
            && Spots(p) == Spots(points) && EndsHorizontally(p) && StartsVertically(p) == StartsVertically(points)
            && p[0].row == points[0].row && p[0].col == points[0].col && p[0] == points[0]
  {
    var last := points[|points| - 1];
    var p := points[|points| - 1 := last.(index := index)];
    var run := Vert(last.col, last.row, last.row);
    assert run.Lanes(index) == {Lane(last.row, last.col, index)};
    LeastFreeBeside(v0, VertOf(points) + stub, run, index);
    LastIndexIsOpen(points, index);
    forall k | 0 <= k < |p| - 1 ensures GreedyRun(h0, v0, p[k], p[k + 1]) {
      assert GreedyRun(h0, v0, points[k], points[k + 1]);
    }
  }

  lemma StartLanes(points: seq<Point>, row: int, col: int)
    requires |points| == 1
    ensures LanesIn(points, row, col) && HorizOf(points) == {} && VertOf(points) == {}
    ensures !StartsVertically(points) && !EndsHorizontally(points)
    ensures Spots(points) == [Spot(points[0].row, points[0].col)]
  {
  }

  /** The lanes after a first move across a row. */
  lemma AcrossLanes(points: seq<Point>, col: int, index: int)
    requires |points| == 1 && points[0].col != col
    ensures var p := AddPoint(points, points[0].row, col, index);
            LanesIn(p, points[0].row, col) && VertOf(p) == {} && !StartsVertically(p)
  {
    AddPointLanes(points, points[0].row, col, index);
  }

  /** The lanes after a move along a column. */
  lemma AlongLanes(points: seq<Point>, row: int, col: int, index: int, hrow: int)
    requires points != [] && points[|points| - 1].row != row && points[|points| - 1].col == col
    requires LanesIn(points, hrow, col)
    ensures LanesIn(AddPoint(points, row, col, index), hrow, col)
    ensures HorizOf(AddPoint(points, row, col, index)) == HorizOf(points)
  {
    AddPointLanes(points, row, col, index);
  }

  lemma BetweenRow(p: Point, col: int)
    ensures Between(p, Point(p.row, col, 0)) == Horiz(p.row, MinOf(col, p.col), MaxOf(col, p.col))
  {
  }

  lemma BetweenColumn(p: Point, row: int)
    requires row != p.row
    ensures Between(p, Point(row, p.col, 0)) == Vert(p.col, MinOf(p.row, row), MaxOf(p.row, row))
  {
  }

  lemma FinishRoute(h0: set<Lane>, v0: set<Lane>, h: set<Lane>, v: set<Lane>, e: LLEdge)
    requires e.points != []
    requires var first, last := e.points[0], e.points[|e.points| - 1];
             && Laid(h0, v0, h, v, e.points,
                     {Lane(first.row, first.col, e.startindex)}
                     + if EndsHorizontally(e.points) then {Lane(last.row, last.col, last.index)} else {})
             && (StartsVertically(e.points) ==> e.startindex == first.index)
             && (!StartsVertically(e.points) ==> LeastFree(v0, Vert(first.col, first.row, first.row), e.startindex))
             && (EndsHorizontally(e.points) ==> LeastFree(v0, Vert(last.col, last.row, last.row), last.index))
             && (!EndsHorizontally(e.points) ==> last.index == 0)
    ensures Took(h0, h, HorizLanes(e)) && Took(v0, v, VertLanes(e)) && Greedy(h0, v0, e)
  {
    hide HorizOf, VertOf, LeastFree, GreedyRun, EndsHorizontally, StartsVertically;
  }

  // ---- What the grid guarantees

  /** The outer columns are free in every row. */
  predicate OuterColumnsFree(valid: seq<seq<bool>>) {
    forall r :: 0 <= r < |valid| ==> |valid[r]| >= 2 && valid[r][0] && valid[r][|valid[r]| - 1]
  }

  lemma GridLeavesOuterColumns(valid: seq<seq<bool>>, blocks: Blocks, rows: nat, cols: nat)
    requires |valid| == rows && (forall r :: 0 <= r < rows ==> |valid[r]| == cols) && cols >= 2
    requires MarksNodes(valid, blocks) && forall n :: n in blocks ==> InGrid(blocks[n], rows, cols)
    ensures OuterColumnsFree(valid)
  {
  }

  predicate InGrid(b: LLBlock, rows: nat, cols: nat) {
    0 <= b.row && b.row + 1 < rows && 0 <= b.col && b.col + 2 < cols
  }

  // ---- All routes together, in the order in which they are laid

  ghost function AllHoriz(routes: seq<LLEdge>): set<Lane> {
    if routes == [] then {} else AllHoriz(routes[..|routes| - 1]) + HorizLanes(routes[|routes| - 1])
  }

  ghost function AllVert(routes: seq<LLEdge>): set<Lane> {
    if routes == [] then {} else AllVert(routes[..|routes| - 1]) + VertLanes(routes[|routes| - 1])
  }

  /** The routes that leave a node, in order. */
  function RoutesFrom(routes: seq<LLEdge>, n: Node): seq<LLEdge> {
    if routes == [] then [] else
      var last := routes[|routes| - 1];
      RoutesFrom(routes[..|routes| - 1], n) + if last.source == n then [last] else []
  }

  function EndsOf(routes: seq<LLEdge>): seq<Edge> {
    seq(|routes|, i requires 0 <= i < |routes| => Edge(routes[i].source, routes[i].target))
  }

  /** The graph's edges out of the listed nodes, node by node. */
  function EdgesInOrder(g: Graph, order: seq<Node>): seq<Edge> {
    if order == [] then [] else EdgesInOrder(g, order[..|order| - 1]) + OutgoingOf(g.edges, order[|order| - 1])
  }

  /** The k-th route runs between its blocks, and took the least lanes free among those of the routes before it. */
  ghost predicate WellRouted(valid: seq<seq<bool>>, blocks: Blocks, routes: seq<LLEdge>, k: nat)
    requires k < |routes| && (forall r :: 0 <= r < |valid| ==> |valid[r]| == |valid[0]|)
  {
    var e := routes[k];
    && e.source in blocks && e.target in blocks
    && RunsBetween(valid, blocks[e.source], blocks[e.target], e)
    && HorizLanes(e) !! AllHoriz(routes[..k]) && VertLanes(e) !! AllVert(routes[..k])
    && Greedy(AllHoriz(routes[..k]), AllVert(routes[..k]), e)
  }

  ghost predicate RunsBetween(valid: seq<seq<bool>>, start: LLBlock, end: LLBlock, e: LLEdge)
    requires forall r :: 0 <= r < |valid| ==> |valid[r]| == |valid[0]|
  {
    && 0 <= MinRow(start, end) < |valid| && MaxRow(start, end) <= |valid|
    && exists col :: ChosenColumn(valid, start, end, col) && Spots(e.points) == Corners(start, end, col)
  }

  ghost predicate AllWellRouted(valid: seq<seq<bool>>, blocks: Blocks, routes: seq<LLEdge>)
    requires forall r :: 0 <= r < |valid| ==> |valid[r]| == |valid[0]|
  {
    forall k :: 0 <= k < |routes| ==> WellRouted(valid, blocks, routes, k)
  }

  lemma NextNode(g: Graph, order: seq<Node>, k: nat)
    requires k < |order|
    ensures EdgesInOrder(g, order[..k + 1]) == EdgesInOrder(g, order[..k]) + OutgoingOf(g.edges, order[k])
  {
    assert order[..k + 1][..k] == order[..k];
  }

  /** Only the rows and columns of the blocks matter. */
  lemma SameCourse(valid: seq<seq<bool>>, start: LLBlock, end: LLBlock, start': LLBlock, end': LLBlock)
    requires forall r :: 0 <= r < |valid| ==> |valid[r]| == |valid[0]|
    requires 0 <= MinRow(start, end) < |valid| && MaxRow(start, end) <= |valid|
    requires start.row == start'.row && start.col == start'.col && end.row == end'.row && end.col == end'.col
    ensures forall col :: ChosenColumn(valid, start, end, col) <==> ChosenColumn(valid, start', end', col)
    ensures forall col :: Corners(start, end, col) == Corners(start', end', col)
  {
  }

  lemma {:induction false} AddRoute(valid: seq<seq<bool>>, blocks: Blocks, routes: seq<LLEdge>, e: LLEdge, col: int)
    requires forall r :: 0 <= r < |valid| ==> |valid[r]| == |valid[0]|
    requires AllWellRouted(valid, blocks, routes)
    requires e.source in blocks && e.target in blocks
    requires var start, end := blocks[e.source], blocks[e.target];
             && 0 <= MinRow(start, end) < |valid| && MaxRow(start, end) <= |valid|
             && ChosenColumn(valid, start, end, col) && Spots(e.points) == Corners(start, end, col)
    requires HorizLanes(e) !! AllHoriz(routes) && VertLanes(e) !! AllVert(routes)
    requires Greedy(AllHoriz(routes), AllVert(routes), e)
    ensures AllWellRouted(valid, blocks, routes + [e])
    ensures AllHoriz(routes + [e]) == AllHoriz(routes) + HorizLanes(e)
    ensures AllVert(routes + [e]) == AllVert(routes) + VertLanes(e)
    ensures EndsOf(routes + [e]) == EndsOf(routes) + [Edge(e.source, e.target)]
    ensures forall n :: RoutesFrom(routes + [e], n) == RoutesFrom(routes, n) + if e.source == n then [e] else []
  {
    hide ChosenColumn, Corners, Spots, HorizLanes, VertLanes, AllHoriz, AllVert, Greedy, MinRow, MaxRow, EndsOf, RoutesFrom;
    LaidNext(routes, e);
    var all := routes + [e];
    forall k | 0 <= k < |all| ensures WellRouted(valid, blocks, all, k) {
      assert all[..k] == routes[..k];
      if k < |routes| {
        assert WellRouted(valid, blocks, routes, k);
      } else {
        assert routes[..k] == routes;
      }
    }
  }

  lemma {:induction false} LaidNext(routes: seq<LLEdge>, e: LLEdge)
    ensures AllHoriz(routes + [e]) == AllHoriz(routes) + HorizLanes(e)
    ensures AllVert(routes + [e]) == AllVert(routes) + VertLanes(e)
    ensures EndsOf(routes + [e]) == EndsOf(routes) + [Edge(e.source, e.target)]
    ensures forall n :: RoutesFrom(routes + [e], n) == RoutesFrom(routes, n) + if e.source == n then [e] else []
  {
    hide HorizLanes, VertLanes;
    assert (routes + [e])[..|routes + [e]| - 1] == routes;
  }

  lemma {:induction false} LanesOfOne(routes: seq<LLEdge>, i: nat)
    requires i < |routes|
    ensures HorizLanes(routes[i]) <= AllHoriz(routes) && VertLanes(routes[i]) <= AllVert(routes)
  {
    if i < |routes| - 1 {
      LanesOfOne(routes[..|routes| - 1], i);
    }
  }

  /** No two edges hold the same lane in the same cell, horizontally or vertically. */
  lemma RoutesApart(valid: seq<seq<bool>>, blocks: Blocks, routes: seq<LLEdge>, i: nat, j: nat)
    requires forall r :: 0 <= r < |valid| ==> |valid[r]| == |valid[0]|
    requires AllWellRouted(valid, blocks, routes) && i < j < |routes|
    ensures HorizLanes(routes[i]) !! HorizLanes(routes[j])
    ensures VertLanes(routes[i]) !! VertLanes(routes[j])
  {
    assert WellRouted(valid, blocks, routes, j);
    LanesOfOne(routes[..j], i);
  }

  // ---- Where the runs of a route lie

  ghost predicate NodeAt(blocks: Blocks, n: Node, row: int, middle: int) {
    n in blocks && blocks[n].row == row && blocks[n].col + 1 == middle
  }

  /** The grid cells that no edge may run down: those in the middle of a node, of the given nodes. */
  ghost predicate MarksSome(valid: seq<seq<bool>>, blocks: Blocks, some: set<Node>) {
    forall r, c :: 0 <= r < |valid| && 0 <= c < |valid[r]| ==>
      (!valid[r][c] <==> exists n :: n in some && NodeAt(blocks, n, r, c))
  }

  ghost predicate MarksNodes(valid: seq<seq<bool>>, blocks: Blocks) {
    MarksSome(valid, blocks, blocks.Keys)
  }

  lemma MarkNext(valid: seq<seq<bool>>, blocks: Blocks, some: set<Node>, n: Node)
    requires MarksSome(valid, blocks, some) && n in blocks
    requires var b := blocks[n]; 0 <= b.row < |valid| && 0 <= b.col + 1 < |valid[b.row]|
    ensures var b := blocks[n];
            MarksSome(valid[b.row := valid[b.row][b.col + 1 := false]], blocks, some + {n})
  {
    var b := blocks[n];
    var valid' := valid[b.row := valid[b.row][b.col + 1 := false]];
    forall r, c | 0 <= r < |valid'| && 0 <= c < |valid'[r]|
      ensures !valid'[r][c] <==> exists m :: m in some + {n} && NodeAt(blocks, m, r, c)
    {
      if NodeAt(blocks, n, r, c) {
        assert !valid'[r][c];
      } else {
        assert valid'[r][c] == valid[r][c];
      }
    }
  }

  /** The route starts below its source, ends above its target, and turns only by right angles. */
  lemma RouteCourse(valid: seq<seq<bool>>, start: LLBlock, end: LLBlock, e: LLEdge)
    requires forall r :: 0 <= r < |valid| ==> |valid[r]| == |valid[0]|
    requires RunsBetween(valid, start, end, e)
    ensures |e.points| >= 1
    ensures e.points[0].row == start.row + 1 && e.points[0].col == start.col + 1
    ensures e.points[|e.points| - 1].row == end.row && e.points[|e.points| - 1].col == end.col + 1
    ensures forall k :: 0 <= k < |e.points| - 1 ==>
              (e.points[k].row == e.points[k + 1].row) != (e.points[k].col == e.points[k + 1].col)
  {
    var col :| ChosenColumn(valid, start, end, col) && Spots(e.points) == Corners(start, end, col);
    hide ChosenColumn;
    var spots := Spots(e.points);
    assert |spots| == |e.points|;
    assert forall k :: 0 <= k < |spots| ==> spots[k] == Spot(e.points[k].row, e.points[k].col);
    ChosenStays(valid, start, end, col);
  }

  lemma ChosenStays(valid: seq<seq<bool>>, start: LLBlock, end: LLBlock, col: int)
    requires forall r :: 0 <= r < |valid| ==> |valid[r]| == |valid[0]|
    requires 0 <= MinRow(start, end) < |valid| && MaxRow(start, end) <= |valid|
    requires ChosenColumn(valid, start, end, col)
    ensures end.row == start.row + 1 ==> col == start.col + 1
    ensures end.row != start.row + 1 ==> ColumnFree(valid, col, MinRow(start, end), MaxRow(start, end))
  {
  }

  /** No vertical run of a route passes through a node: in none of the rows it crosses is there one in its column. */
  lemma VerticalRunsAvoidNodes(
    valid: seq<seq<bool>>, blocks: Blocks, start: LLBlock, end: LLBlock, e: LLEdge, k: nat, n: Node)
    requires forall r :: 0 <= r < |valid| ==> |valid[r]| == |valid[0]|
    requires RunsBetween(valid, start, end, e) && MarksNodes(valid, blocks)
    requires k + 1 < |e.points| && n in blocks && InGrid(blocks[n], |valid|, |valid[0]|)
    requires var run := Between(e.points[k], e.points[k + 1]);
             run.Vert? && run.minrow <= blocks[n].row < run.maxrow
    ensures Between(e.points[k], e.points[k + 1]).col != blocks[n].col + 1
  {
    var col :| ChosenColumn(valid, start, end, col) && Spots(e.points) == Corners(start, end, col);
    ChosenStays(valid, start, end, col);
    hide ChosenColumn, Spots, Corners;
    VerticalRun(start, end, col, e.points, k);
    assert n in blocks.Keys && NodeAt(blocks, n, blocks[n].row, blocks[n].col + 1);
    assert !valid[blocks[n].row][blocks[n].col + 1];
  }

  lemma VerticalRunRows(valid: seq<seq<bool>>, start: LLBlock, end: LLBlock, e: LLEdge, k: nat)
    requires forall r :: 0 <= r < |valid| ==> |valid[r]| == |valid[0]|
    requires RunsBetween(valid, start, end, e) && k + 1 < |e.points| && Between(e.points[k], e.points[k + 1]).Vert?
    ensures var run := Between(e.points[k], e.points[k + 1]);
            run.minrow == MinRow(start, end) && run.maxrow == MaxRow(start, end)
  {
    var col :| ChosenColumn(valid, start, end, col) && Spots(e.points) == Corners(start, end, col);
    ChosenStays(valid, start, end, col);
    hide ChosenColumn, Spots, Corners;
    VerticalRun(start, end, col, e.points, k);
  }

  lemma VerticalRun(start: LLBlock, end: LLBlock, col: int, points: seq<Point>, k: nat)
    requires Spots(points) == Corners(start, end, col) && k + 1 < |points|
    requires Between(points[k], points[k + 1]).Vert?
    requires end.row == start.row + 1 ==> col == start.col + 1
    ensures end.row != start.row + 1
    ensures Between(points[k], points[k + 1]) == Vert(col, MinRow(start, end), MaxRow(start, end))
  {
    var spots := Spots(points);
    assert |spots| == |points|;
    assert spots[k] == Spot(points[k].row, points[k].col);
    assert spots[k + 1] == Spot(points[k + 1].row, points[k + 1].col);
  }

  /** The edge holds a vertical lane in the cell through which it enters its target. */
  lemma EntersByLane(valid: seq<seq<bool>>, start: LLBlock, end: LLBlock, e: LLEdge) returns (index: int)
    requires forall r :: 0 <= r < |valid| ==> |valid[r]| == |valid[0]|
    requires RunsBetween(valid, start, end, e)
    ensures Lane(end.row, end.col + 1, index) in VertLanes(e)
  {
    hide RunsBetween;
    RouteCourse(valid, start, end, e);
    var last := e.points[|e.points| - 1];
    if |e.points| == 1 {
      index := e.startindex;
    } else if EndsHorizontally(e.points) {
      index := last.index;
    } else {
      var before := e.points[|e.points| - 2];
      index := before.index;
      assert Lane(end.row, end.col + 1, index) in Between(before, last).Lanes(index);
    }
  }

  /** The blocks keep, besides their place, exactly the routes that leave them. */
  ghost predicate KeepsRoutes(before: Blocks, blocks: Blocks, routes: seq<LLEdge>) {
    && blocks.Keys == before.Keys
    && forall n :: n in blocks ==> blocks[n] == before[n].(edges := RoutesFrom(routes, n))
  }

  lemma KeepNext(before: Blocks, blocks: Blocks, routes: seq<LLEdge>, e: LLEdge)
    requires KeepsRoutes(before, blocks, routes) && e.source in blocks
    requires forall n :: RoutesFrom(routes + [e], n) == RoutesFrom(routes, n) + if e.source == n then [e] else []
    ensures KeepsRoutes(before, blocks[e.source := blocks[e.source].(edges := blocks[e.source].edges + [e])], routes + [e])
  {
    hide RoutesFrom;
  }
}
