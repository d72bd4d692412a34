/**
 Why a column never has many more lanes than the rows that it passes: whoever holds a lane in a free stretch of a column
 pays for it with a lane of a row there. Only an edge that runs straight from one node to the next pays nothing.
 */
module LaneCount {
  import opened LayoutGraph
  import opened EdgeLanes
  import opened EdgeRoute
  import opened LayoutResult

  /** The course of a route: where it starts and ends, the column it runs along, and the lanes it keeps. */
  datatype Way = Way(
    row: int, startcol: int, endrow: int, endcol: int, col: int,
    startindex: int, first: int, run: int, last: int, endindex: int)

  function WayOf(e: LLEdge): Way
    requires e.points != []
  {
    var p, n := e.points, |e.points|;
    var turn := if n > 2 && p[0].row == p[1].row then 1 else 0;
    Way(p[0].row, p[0].col, p[n - 1].row, p[n - 1].col, p[turn].col,
        e.startindex, p[0].index, if p[0].row == p[n - 1].row then e.startindex else p[turn].index,
        if n >= 2 then p[n - 2].index else 0, p[n - 1].index)
  }

  /** An edge that needs no column runs in its own, and one that runs in its own column leaves by the lane it runs in. */
  predicate Sound(w: Way) {
    (w.row == w.endrow ==> w.col == w.startcol) && (w.col == w.startcol ==> w.run == w.startindex)
  }

  /** The vertical lanes of a route: its run, the stub it leaves by and the one it enters by. */
  predicate Holds(w: Way, l: Lane) {
    || (w.row != w.endrow && l.col == w.col && l.index == w.run
        && MinOf(w.row, w.endrow) <= l.row <= MaxOf(w.row, w.endrow))
    || l == Lane(w.row, w.startcol, w.startindex)
    || (w.col != w.endcol && l == Lane(w.endrow, w.endcol, w.endindex))
  }

  lemma {:induction false} VertOfHas(points: seq<Point>, l: Lane) returns (k: nat)
    requires l in VertOf(points)
    ensures k + 1 < |points| && Between(points[k], points[k + 1]).Vert?
    ensures l in Between(points[k], points[k + 1]).Lanes(points[k].index)
    decreases |points|
  {
    var n := |points|;
    var run := Between(points[n - 2], points[n - 1]);
    if run.Vert? && l in run.Lanes(points[n - 2].index) {
      k := n - 2;
    } else {
      k := VertOfHas(points[..n - 1], l);
    }
  }

  lemma WayFollows(start: LLBlock, end: LLBlock, col: int, e: LLEdge)
    requires Spots(e.points) == Corners(start, end, col) && (end.row == start.row + 1 ==> col == start.col + 1)
    requires StartsVertically(e.points) ==> e.startindex == e.points[0].index
    ensures e.points != [] && Sound(WayOf(e))
    ensures var w := WayOf(e);
            && w.row == start.row + 1 && w.startcol == start.col + 1
            && w.endrow == end.row && w.endcol == end.col + 1 && w.col == col
    ensures forall k :: 0 <= k < |e.points| - 1 && Between(e.points[k], e.points[k + 1]).Vert? ==>
              e.points[k].index == WayOf(e).run
    ensures WayOf(e).col != WayOf(e).endcol <==> EndsHorizontally(e.points)
    ensures WayOf(e).col != WayOf(e).startcol ==>
              |e.points| > 1 && e.points[0].row == e.points[1].row && e.points[1].col == col
    ensures WayOf(e).col != WayOf(e).endcol ==> |e.points| > 1 && e.points[|e.points| - 2].col == col
    ensures StartsVertically(e.points) ==> col == start.col + 1
  {
    var spots := Spots(e.points);
    assert |spots| == |e.points| <= 4;
    assert forall i :: 0 <= i < |spots| ==> spots[i] == Spot(e.points[i].row, e.points[i].col);
  }

  lemma WayHolds(start: LLBlock, end: LLBlock, col: int, e: LLEdge, l: Lane)
    requires Spots(e.points) == Corners(start, end, col) && (end.row == start.row + 1 ==> col == start.col + 1)
    requires StartsVertically(e.points) ==> e.startindex == e.points[0].index
    requires l in VertLanes(e)
    ensures e.points != [] && Holds(WayOf(e), l)
  {
    hide Spots, Corners, VertOf, EndsHorizontally, StartsVertically;
    WayFollows(start, end, col, e);
    if l in VertOf(e.points) {
      var k := VertOfHas(e.points, l);
      VerticalRun(start, end, col, e.points, k);
    }
  }

  // ---- Paying

  /** The lane of a row that a route keeps in column c when it holds lane j of that column. */
  predicate Pays(w: Way, c: int, j: int, m: Lane) {
    if w.col == c then
      && j == w.run
      && (if w.endcol != c then m == Lane(w.endrow, c, w.last) else w.startcol != c && m == Lane(w.row, c, w.first))
    else
      || (w.startcol == c && j == w.startindex && m == Lane(w.row, c, w.first))
      || (w.endcol == c && j == w.endindex && m == Lane(w.endrow, c, w.last))
  }

  /** A route straight down, with no lane of a row at all. */
  predicate Straight(w: Way, c: int) {
    w.startcol == w.col == w.endcol == c && w.row < w.endrow
  }

  lemma WayPays(start: LLBlock, end: LLBlock, col: int, e: LLEdge, c: int, j: int, m: Lane)
    requires Spots(e.points) == Corners(start, end, col) && (end.row == start.row + 1 ==> col == start.col + 1)
    requires StartsVertically(e.points) ==> e.startindex == e.points[0].index
    requires e.points != [] && Pays(WayOf(e), c, j, m)
    ensures m in HorizLanes(e)
  {
    hide Spots, Corners, HorizOf, StartsVertically;
    WayFollows(start, end, col, e);
    var w, n := WayOf(e), |e.points|;
    if w.col != w.startcol && m == Lane(w.row, c, w.first) {
      RunHeld(e.points, 0);
      assert m in Between(e.points[0], e.points[1]).Lanes(w.first);
    } else {
      RunHeld(e.points, n - 2);
      assert m in Between(e.points[n - 2], e.points[n - 1]).Lanes(w.last);
    }
  }

  /** No lane of a row pays twice. */
  lemma PaysOnce(w: Way, c: int, j: int, j': int, m: Lane)
    requires Sound(w) && Pays(w, c, j, m) && Pays(w, c, j', m)
    ensures j == j'
  {
  }

  /** No node is in the middle of the cell. */
  predicate Open(valid: seq<seq<bool>>, row: int, col: int) {
    0 <= row < |valid| && 0 <= col < |valid[row]| && valid[row][col]
  }

  /** The route lies between two nodes and runs along a column past none. */
  predicate Free(valid: seq<seq<bool>>, w: Way) {
    && !Open(valid, w.row - 1, w.startcol) && !Open(valid, w.endrow, w.endcol)
    && (w.row != w.endrow ==> forall q :: MinOf(w.row, w.endrow) <= q < MaxOf(w.row, w.endrow) ==> Open(valid, q, w.col))
  }

  /** A stretch of column c without a node between one in row r and the next one in row t or below. */
  predicate Gap(valid: seq<seq<bool>>, c: int, r: int, t: int) {
    r + 1 < t && !Open(valid, r, c) && forall q :: r < q < t ==> Open(valid, q, c)
  }

  /** Whoever holds a lane in the gap pays for it in a row between the nodes, or runs straight down from the upper one. */
  lemma LaneIsPaid(valid: seq<seq<bool>>, w: Way, c: int, r: int, t: int, low: int, l: Lane) returns (m: Lane)
    requires Sound(w) && Free(valid, w) && Holds(w, l) && l.col == c && r < l.row <= t <= low
    requires Gap(valid, c, r, t) && !Open(valid, low, c)
    ensures if Straight(w, c) then w.row == r + 1 && l.index == w.run
            else Pays(w, c, l.index, m) && m.col == c && r < m.row <= low
  {
    m := l;
    if w.col != c {
      m := if l.row == w.row && l.index == w.startindex && w.startcol == c then Lane(w.row, c, w.first)
           else Lane(w.endrow, c, w.last);
    } else if w.endcol != c {
      m := Lane(w.endrow, c, w.last);
    } else if w.startcol != c {
      m := Lane(w.row, c, w.first);
    }
  }

  // ---- All routes together

  /** All routes have been laid, between different nodes that do not share cells. */
  ghost predicate AllLaid(valid: seq<seq<bool>>, blocks: Blocks, nodes: set<Node>, routes: seq<LLEdge>) {
    && |valid| > 0 && (forall r :: 0 <= r < |valid| ==> |valid[r]| == |valid[0]|)
    && AllWellRouted(valid, blocks, routes) && MarksNodes(valid, blocks) && CellsApart(blocks, nodes)
    && (forall n :: n in blocks ==> InGrid(blocks[n], |valid|, |valid[0]|))
    && (forall k :: 0 <= k < |routes| ==> routes[k].source in nodes && routes[k].target in nodes)
    && Distinct(EndsOf(routes))
  }

  lemma NodeIsNotOpen(valid: seq<seq<bool>>, blocks: Blocks, n: Node)
    requires MarksNodes(valid, blocks) && n in blocks
    ensures !Open(valid, blocks[n].row, blocks[n].col + 1)
  {
    assert n in blocks.Keys && NodeAt(blocks, n, blocks[n].row, blocks[n].col + 1);
  }

  /** What a route between two nodes holds and pays. */
  ghost predicate Accounts(valid: seq<seq<bool>>, start: LLBlock, end: LLBlock, e: LLEdge) {
    && e.points != [] && Sound(WayOf(e)) && Free(valid, WayOf(e))
    && WayOf(e).row == start.row + 1 && WayOf(e).startcol == start.col + 1
    && WayOf(e).endrow == end.row && WayOf(e).endcol == end.col + 1
    && (forall l <- VertLanes(e) :: Holds(WayOf(e), l))
    && (forall c, j, m :: Pays(WayOf(e), c, j, m) ==> m in HorizLanes(e))
  }

  lemma RouteAccounts(valid: seq<seq<bool>>, blocks: Blocks, nodes: set<Node>, routes: seq<LLEdge>, f: nat)
    requires AllLaid(valid, blocks, nodes, routes) && f < |routes|
    ensures routes[f].source in blocks && routes[f].target in blocks
    ensures Accounts(valid, blocks[routes[f].source], blocks[routes[f].target], routes[f])
  {
    hide Spots, Corners, AllHoriz, AllVert, VertLanes, HorizLanes, MarksNodes, CellsApart, Distinct, GreedyRun, LeastFree,
         StartsVertically, EndsHorizontally, Holds, Pays;
    var e := routes[f];
    assert WellRouted(valid, blocks, routes, f);
    var start, end := blocks[e.source], blocks[e.target];
    var col :| ChosenColumn(valid, start, end, col) && Spots(e.points) == Corners(start, end, col);
    ChosenStays(valid, start, end, col);
    hide ChosenColumn;
    WayFollows(start, end, col, e);
    NodeIsNotOpen(valid, blocks, e.source);
    NodeIsNotOpen(valid, blocks, e.target);
    forall l | l in VertLanes(e) ensures Holds(WayOf(e), l) {
      WayHolds(start, end, col, e, l);
    }
    forall c, j, m | Pays(WayOf(e), c, j, m) ensures m in HorizLanes(e) {
      WayPays(start, end, col, e, c, j, m);
    }
  }

  ghost predicate PaidBy(routes: seq<LLEdge>, c: int, f: nat, j: int, m: Lane) {
    f < |routes| && routes[f].points != [] && Pays(WayOf(routes[f]), c, j, m) && m in HorizLanes(routes[f])
  }

  ghost predicate StraightBy(routes: seq<LLEdge>, c: int, r: int, f: nat, j: int) {
    && f < |routes| && routes[f].points != []
    && Straight(WayOf(routes[f]), c) && WayOf(routes[f]).row == r + 1 && WayOf(routes[f]).run == j
  }

  /** Different lanes of a column are paid for with different lanes of rows. */
  lemma PaidByOne(valid: seq<seq<bool>>, blocks: Blocks, nodes: set<Node>, routes: seq<LLEdge>, c: int,
                  f: nat, j: int, f': nat, j': int, m: Lane)
    requires AllLaid(valid, blocks, nodes, routes) && PaidBy(routes, c, f, j, m) && PaidBy(routes, c, f', j', m)
    ensures j == j'
  {
    hide AllWellRouted, MarksNodes, CellsApart, Distinct, HorizLanes, VertLanes, WayOf, Pays, Free, Holds;
    if f < f' {
      RoutesApart(valid, blocks, routes, f, f');
    } else if f' < f {
      RoutesApart(valid, blocks, routes, f', f);
    } else {
      RouteAccounts(valid, blocks, nodes, routes, f);
      PaysOnce(WayOf(routes[f]), c, j, j', m);
    }
  }

  lemma OneNodeInCell(blocks: Blocks, nodes: set<Node>, n: Node, n': Node)
    requires CellsApart(blocks, nodes) && n in nodes && n' in nodes && n in blocks && n' in blocks
    requires blocks[n].row == blocks[n'].row && blocks[n].col == blocks[n'].col
    ensures n == n'
  {
  }

  lemma SameEnds(routes: seq<LLEdge>, f: nat, f': nat)
    requires Distinct(EndsOf(routes)) && f < |routes| && f' < |routes|
    requires routes[f].source == routes[f'].source && routes[f].target == routes[f'].target
    ensures f == f'
  {
    assert EndsOf(routes)[f] == EndsOf(routes)[f'];
  }

  /** Below a node there is at most one straight edge, to the next node in the column. */
  lemma StraightByOne(valid: seq<seq<bool>>, blocks: Blocks, nodes: set<Node>, routes: seq<LLEdge>, c: int, r: int,
                      f: nat, j: int, f': nat, j': int)
    requires AllLaid(valid, blocks, nodes, routes) && StraightBy(routes, c, r, f, j) && StraightBy(routes, c, r, f', j')
    ensures j == j'
  {
    hide AllWellRouted, MarksNodes, CellsApart, Distinct, HorizLanes, VertLanes, EndsOf, WayOf, Pays, Holds, Open;
    RouteAccounts(valid, blocks, nodes, routes, f);
    RouteAccounts(valid, blocks, nodes, routes, f');
    assert WayOf(routes[f]).endrow == WayOf(routes[f']).endrow;
    OneNodeInCell(blocks, nodes, routes[f].source, routes[f'].source);
    OneNodeInCell(blocks, nodes, routes[f].target, routes[f'].target);
    SameEnds(routes, f, f');
  }

  /** Lane x of column c is held in the gap by one of the first k routes. */
  ghost predicate Taken(routes: seq<LLEdge>, c: int, r: int, t: int, k: nat, x: int)
    requires k <= |routes|
  {
    exists l :: l in AllVert(routes[..k]) && l.col == c && r < l.row <= t && l.index == x
  }

  lemma {:induction false} AllVertHas(routes: seq<LLEdge>, l: Lane) returns (f: nat)
    requires l in AllVert(routes)
    ensures f < |routes| && l in VertLanes(routes[f])
  {
    var n := |routes|;
    if l in VertLanes(routes[n - 1]) {
      f := n - 1;
    } else {
      f := AllVertHas(routes[..n - 1], l);
    }
  }

  lemma TakenIsPaid(
    valid: seq<seq<bool>>, blocks: Blocks, nodes: set<Node>, routes: seq<LLEdge>, c: int, r: int, t: int, low: int, k: nat,
    x: int) returns (f: nat, m: Lane)
    requires AllLaid(valid, blocks, nodes, routes) && k <= |routes| && Taken(routes, c, r, t, k, x)
    requires Gap(valid, c, r, t) && !Open(valid, low, c) && t <= low
    ensures StraightBy(routes, c, r, f, x) || (PaidBy(routes, c, f, x, m) && m.col == c && r < m.row <= low)
  {
    hide AllWellRouted, MarksNodes, CellsApart, Distinct, HorizLanes, VertLanes, AllVert, EndsOf, WayOf, Pays, Holds, Open,
         Gap;
    var l :| l in AllVert(routes[..k]) && l.col == c && r < l.row <= t && l.index == x;
    f := AllVertHas(routes[..k], l);
    RouteAccounts(valid, blocks, nodes, routes, f);
    m := LaneIsPaid(valid, WayOf(routes[f]), c, r, t, low, l);
  }

  /** The payments for the lanes below j: as many lanes of rows, but for one at the most. */
  lemma {:induction false} Payments(
    valid: seq<seq<bool>>, blocks: Blocks, nodes: set<Node>, routes: seq<LLEdge>, c: int, r: int, t: int, low: int, k: nat,
    j: nat) returns (paid: set<Lane>, straight: set<int>)
    requires AllLaid(valid, blocks, nodes, routes) && k <= |routes|
    requires forall x :: 0 <= x < j ==> Taken(routes, c, r, t, k, x)
    requires Gap(valid, c, r, t) && !Open(valid, low, c) && t <= low
    ensures |paid| + |straight| == j && |straight| <= 1
    ensures forall m <- paid :: m.col == c && r < m.row <= low && exists f, x :: 0 <= x < j && PaidBy(routes, c, f, x, m)
    ensures forall x <- straight :: 0 <= x < j && exists f :: StraightBy(routes, c, r, f, x)
  {
    hide AllLaid, Gap, Taken, PaidBy, StraightBy, Open;
    paid, straight := {}, {};
    if j > 0 {
      paid, straight := Payments(valid, blocks, nodes, routes, c, r, t, low, k, j - 1);
      var f, m := TakenIsPaid(valid, blocks, nodes, routes, c, r, t, low, k, j - 1);
      if StraightBy(routes, c, r, f, j - 1) {
        if straight != {} {
          var x :| x in straight;
          var f' :| StraightBy(routes, c, r, f', x);
          StraightByOne(valid, blocks, nodes, routes, c, r, f, j - 1, f', x);
        }
        straight := {j - 1};
      } else {
        if m in paid {
          var f', x :| 0 <= x < j - 1 && PaidBy(routes, c, f', x, m);
          PaidByOne(valid, blocks, nodes, routes, c, f, j - 1, f', x, m);
        }
        paid := paid + {m};
      }
    }
  }

  // ---- Counting

  /** The lanes counted for the rows from lo up to hi. */
  function RowSum(counts: seq<int>, lo: int, hi: int): int
    requires 0 <= lo <= hi <= |counts|
    decreases hi - lo
  {
    if lo == hi then 0 else RowSum(counts, lo, hi - 1) + counts[hi - 1]
  }

  lemma {:induction false} LanesOfCell(s: set<Lane>, row: int, col: int, n: nat)
    requires forall l <- s :: l.row == row && l.col == col && 0 <= l.index < n
    ensures |s| <= n
  {
    if n == 0 {
      assert s == {};
    } else {
      LanesOfCell(s - {Lane(row, col, n - 1)}, row, col, n - 1);
    }
  }

  lemma {:induction false} LanesOfRows(s: set<Lane>, counts: seq<int>, c: int, lo: int, hi: int)
    requires 0 <= lo <= hi <= |counts| && forall q :: lo <= q < hi ==> 0 <= counts[q]
    requires forall l <- s :: l.col == c && lo <= l.row < hi && 0 <= l.index < counts[l.row]
    ensures |s| <= RowSum(counts, lo, hi)
    decreases hi - lo
  {
    if lo == hi {
      assert s == {};
    } else {
      var top := set l <- s | l.row == hi - 1;
      assert s == top + (s - top);
      LanesOfCell(top, hi - 1, c, counts[hi - 1]);
      LanesOfRows(s - top, counts, c, lo, hi - 1);
    }
  }

  /** The run by which a route starts in its own column found all smaller lanes taken. */
  lemma {:induction false} SmallerAreTaken(
    valid: seq<seq<bool>>, blocks: Blocks, nodes: set<Node>, routes: seq<LLEdge>, k: nat, c: int, r: int, t: int)
    requires AllLaid(valid, blocks, nodes, routes) && k < |routes| && StartsVertically(routes[k].points)
    requires routes[k].source in blocks && routes[k].target in blocks && r + 1 < t
    requires c == blocks[routes[k].source].col + 1 && r == blocks[routes[k].source].row && t == blocks[routes[k].target].row
    ensures Gap(valid, c, r, t) && forall x :: 0 <= x < routes[k].startindex ==> Taken(routes, c, r, t, k, x)
  {
    hide AllHoriz, AllVert, HorizLanes, VertLanes, Spots, Corners, ChosenColumn, CellsApart, MarksNodes, Distinct, Pays,
         Holds, EndsHorizontally;
    var e := routes[k];
    assert WellRouted(valid, blocks, routes, k);
    var start, end := blocks[e.source], blocks[e.target];
    RouteAccounts(valid, blocks, nodes, routes, k);
    NodeIsNotOpen(valid, blocks, e.source);
    var col :| ChosenColumn(valid, start, end, col) && Spots(e.points) == Corners(start, end, col);
    ChosenStays(valid, start, end, col);
    WayFollows(start, end, col, e);
    VerticalRun(start, end, col, e.points, 0);
    var run := Between(e.points[0], e.points[1]);
    assert GreedyRun(AllHoriz(routes[..k]), AllVert(routes[..k]), e.points[0], e.points[1]);
    forall x | 0 <= x < e.startindex ensures Taken(routes, c, r, t, k, x) {
      assert !(run.Lanes(x) !! AllVert(routes[..k]));
      var l :| l in run.Lanes(x) && l in AllVert(routes[..k]);
      assert l.col == c && r < l.row <= t && l.index == x;
    }
  }

  lemma {:induction false} PaidAreMarked(routes: seq<LLEdge>, c: int, f: nat, j: int, m: Lane)
    requires PaidBy(routes, c, f, j, m)
    ensures m in AllHoriz(routes)
  {
    LanesOfOne(routes, f);
  }

  /**
   The lane in which a route starts straight down is at most one more than there are lanes in the rows down to any
   node below in its column.
   */
  lemma {:induction false} StartIsLow(
    valid: seq<seq<bool>>, blocks: Blocks, nodes: set<Node>, routes: seq<LLEdge>, counts: seq<int>, k: nat, n: Node)
    requires AllLaid(valid, blocks, nodes, routes) && k < |routes| && StartsVertically(routes[k].points)
    requires routes[k].source in blocks && routes[k].target in blocks && n in blocks
    requires blocks[n].row >= blocks[routes[k].target].row > blocks[routes[k].source].row + 1
    requires blocks[n].col == blocks[routes[k].source].col
    requires |valid| == |counts| && forall q :: 0 <= q < |counts| ==> 0 <= counts[q]
    requires forall m <- AllHoriz(routes) :: 0 <= m.row < |counts| && 0 <= m.index < counts[m.row]
    ensures 0 <= blocks[routes[k].source].row + 1 <= blocks[n].row + 1 <= |counts|
    ensures routes[k].startindex <= 1 + RowSum(counts, blocks[routes[k].source].row + 1, blocks[n].row + 1)
  {
    hide AllHoriz, AllWellRouted, CellsApart, Distinct, EndsOf, Gap, Taken, PaidBy, StraightBy, Open, MarksNodes;
    var c, r, t, low := blocks[routes[k].source].col + 1, blocks[routes[k].source].row, blocks[routes[k].target].row,
                        blocks[n].row;
    assert InGrid(blocks[routes[k].source], |valid|, |valid[0]|) && InGrid(blocks[n], |valid|, |valid[0]|);
    SmallerAreTaken(valid, blocks, nodes, routes, k, c, r, t);
    NodeIsNotOpen(valid, blocks, n);
    var paid: set<Lane>, straight: set<int> := {}, {};
    if routes[k].startindex > 0 {
      paid, straight := Payments(valid, blocks, nodes, routes, c, r, t, low, k, routes[k].startindex);
    }
    forall m | m in paid ensures m in AllHoriz(routes) {
      var f, x :| 0 <= x < routes[k].startindex && PaidBy(routes, c, f, x, m);
      PaidAreMarked(routes, c, f, x, m);
    }
    LanesOfRows(paid, counts, c, r + 1, low + 1);
  }
}
