/**
 The lanes along which edges run. Every grid cell holds a growing list of lanes for horizontal and one for
 vertical edges; a run is a stretch of cells in one row or column, and an edge keeps one lane along each of its runs.
 */
module EdgeLanes {
  import opened LayoutGraph

  datatype Lane = Lane(row: int, col: int, index: int)

  datatype Run = Horiz(row: int, mincol: int, maxcol: int) | Vert(col: int, minrow: int, maxrow: int) {
    /** The lane of the given index in every cell of the run. */
    ghost function Lanes(i: int): set<Lane> {
      if Horiz? then set c | mincol <= c <= maxcol :: Lane(row, c, i)
      else set r | minrow <= r <= maxrow :: Lane(r, col, i)
    }

    predicate Inside(rows: nat, cols: nat) {
      if Horiz? then 0 <= row < rows && 0 <= mincol <= maxcol < cols
      else 0 <= col < cols && 0 <= minrow <= maxrow < rows
    }
  }

  type Cells = seq<seq<seq<bool>>>

  predicate Sized(m: Cells, rows: nat, cols: nat) {
    |m| == rows && forall r :: 0 <= r < rows ==> |m[r]| == cols
  }

  lemma SizedAt(m: Cells, rows: nat, cols: nat, row: nat, col: nat)
    requires Sized(m, rows, cols) && row < rows && col < cols
    ensures row < |m| && col < |m[row]|
  {
  }

  ghost function Marks(m: Cells): set<Lane> {
    set r, c, i | 0 <= r < |m| && 0 <= c < |m[r]| && 0 <= i < |m[r][c]| && m[r][c][i] :: Lane(r, c, i)
  }

  /** The list of lanes of every cell ends with one that is in use. */
  predicate Tight(m: Cells) {
    forall r, c :: 0 <= r < |m| && 0 <= c < |m[r]| && m[r][c] != [] ==> m[r][c][|m[r][c]| - 1]
  }

  /** So but for one cell, whose list ends with the lane of the given index. */
  predicate TightBut(m: Cells, row: int, col: int, index: int) {
    forall r, c :: 0 <= r < |m| && 0 <= c < |m[r]| && m[r][c] != [] ==>
      m[r][c][|m[r][c]| - 1] || (r == row && c == col && |m[r][c]| == index + 1)
  }

  /** The index is free along the whole run, and no smaller one is. */
  ghost predicate LeastFree(marks: set<Lane>, run: Run, i: int) {
    0 <= i && run.Lanes(i) !! marks && forall j :: 0 <= j < i ==> !(run.Lanes(j) !! marks)
  }

  lemma {:induction false} IndexBound(marks: set<Lane>) returns (bound: nat)
    ensures forall l <- marks :: l.index < bound
  {
    if marks == {} {
      bound := 0;
    } else {
      var l :| l in marks;
      var rest := IndexBound(marks - {l});
      bound := if l.index < rest then rest else l.index + 1;
    }
  }

  /** One of the two matrices of lanes. */
  class EdgeMatrix {
    var cells: Cells

    constructor (rows: nat, cols: nat)
      ensures Sized(cells, rows, cols) && Marks(cells) == {} && Tight(cells)
    {
      var row: seq<seq<bool>> := seq(cols, _ => []);
      cells := seq(rows, _ => row);
    }

    method IsEdgeMarked(row: int, col: int, index: int) returns (marked: bool)
      requires 0 <= row < |cells| && 0 <= col < |cells[row]| && 0 <= index
      ensures marked <==> Lane(row, col, index) in Marks(cells)
    {
      if index >= |cells[row][col]| { return false; }
      return cells[row][col][index];
    }

    method MarkEdge(row: int, col: int, index: int, used: bool)
      requires 0 <= row < |cells| && 0 <= col < |cells[row]| && 0 <= index
      modifies this
      ensures forall rows, cols :: Sized(old(cells), rows, cols) ==> Sized(cells, rows, cols)
      ensures Marks(cells) == if used then old(Marks(cells)) + {Lane(row, col, index)}
                              else old(Marks(cells)) - {Lane(row, col, index)}
      ensures Tight(old(cells)) ==> if used then Tight(cells) else TightBut(cells, row, col, index)
      ensures forall r, i: int :: used && TightBut(old(cells), r, col, i) ==>
                if r == row && i <= index then Tight(cells) else TightBut(cells, r, col, i)
    {
      var lanes := cells[row][col];
      while |lanes| <= index
        invariant |cells[row][col]| <= |lanes|
        invariant lanes[..|cells[row][col]|] == cells[row][col]
        invariant forall i :: |cells[row][col]| <= i < |lanes| ==> !lanes[i]
        invariant |lanes| == |cells[row][col]| || |lanes| <= index + 1
      {
        lanes := lanes + [false];
      }
      lanes := lanes[index := used];
      MarkOne(cells, row, col, index, used, lanes);
      MarkIsTight(cells, row, col, index, used, lanes);
      cells := cells[row := cells[row][col := lanes]];
    }

    /** The least lane that is free in one cell. */
    method FirstFree(row: int, col: int, ghost rows: nat, ghost cols: nat) returns (i: int)
      requires Sized(cells, rows, cols) && Vert(col, row, row).Inside(rows, cols)
      ensures LeastFree(Marks(cells), Vert(col, row, row), i)
    {
      hide Marks;
      ghost var run := Vert(col, row, row);
      ghost var bound := IndexBound(Marks(cells));
      i := 0;
      while true
        invariant 0 <= i && forall j :: 0 <= j < i ==> !(run.Lanes(j) !! Marks(cells))
        decreases bound - i
      {
        var marked := IsEdgeMarked(row, col, i);
        if !marked { break; }
        assert Lane(row, col, i) in run.Lanes(i);
        i := i + 1;
      }
    }

    /** Takes the least lane that is free in a stretch of one row. */
    method FindHorizEdgeIndex(row: int, mincol: int, maxcol: int, ghost rows: nat, ghost cols: nat) returns (i: int)
      requires Sized(cells, rows, cols) && Horiz(row, mincol, maxcol).Inside(rows, cols)
      modifies this
      ensures Sized(cells, rows, cols)
      ensures LeastFree(old(Marks(cells)), Horiz(row, mincol, maxcol), i)
      ensures Marks(cells) == old(Marks(cells)) + Horiz(row, mincol, maxcol).Lanes(i)
      ensures Tight(old(cells)) ==> Tight(cells)
    {
      hide Marks, Tight, TightBut;
      ghost var start, marks := cells, Marks(cells);
      ghost var run := Horiz(row, mincol, maxcol);
      ghost var bound := IndexBound(marks);
      // The least lane that no cell of the run has in use
      i := 0;
      while true
        invariant cells == start && 0 <= i && forall j :: 0 <= j < i ==> !(run.Lanes(j) !! marks)
        decreases bound - i
      {
        var valid := true;
        for col := mincol to maxcol + 1
          invariant cells == start && valid && forall c :: mincol <= c < col ==> Lane(row, c, i) !in marks
        {
          var marked := IsEdgeMarked(row, col, i);
          if marked {
            valid := false;
            assert Lane(row, col, i) in run.Lanes(i);
            break;
          }
        }
        if valid { break; }
        i := i + 1;
      }

      // The run takes it
      for col := mincol to maxcol + 1
        invariant Sized(cells, rows, cols)
        invariant Marks(cells) == marks + set c | mincol <= c < col :: Lane(row, c, i)
        invariant Tight(start) ==> Tight(cells)
      {
        MarkEdge(row, col, i, true);
      }
    }

    /** Takes the least lane that is free in a stretch of one column. */
    method FindVertEdgeIndex(col: int, minrow: int, maxrow: int, ghost rows: nat, ghost cols: nat) returns (i: int)
      requires Sized(cells, rows, cols) && Vert(col, minrow, maxrow).Inside(rows, cols)
      modifies this
      ensures Sized(cells, rows, cols)
      ensures LeastFree(old(Marks(cells)), Vert(col, minrow, maxrow), i)
      ensures Marks(cells) == old(Marks(cells)) + Vert(col, minrow, maxrow).Lanes(i)
      ensures Tight(old(cells)) ==> Tight(cells)
      ensures forall r, k: int :: minrow <= r <= maxrow && k <= i && TightBut(old(cells), r, col, k) ==> Tight(cells)
    {
      hide Marks, Tight, TightBut;
      ghost var start, marks := cells, Marks(cells);
      ghost var run := Vert(col, minrow, maxrow);
      ghost var bound := IndexBound(marks);
      // The least lane that no cell of the run has in use
      i := 0;
      while true
        invariant cells == start && 0 <= i && forall j :: 0 <= j < i ==> !(run.Lanes(j) !! marks)
        decreases bound - i
      {
        var valid := true;
        for row := minrow to maxrow + 1
          invariant cells == start && valid && forall r :: minrow <= r < row ==> Lane(r, col, i) !in marks
        {
          var marked := IsEdgeMarked(row, col, i);
          if marked {
            valid := false;
            assert Lane(row, col, i) in run.Lanes(i);
            break;
          }
        }
        if valid { break; }
        i := i + 1;
      }

      // The run takes it
      for row := minrow to maxrow + 1
        invariant Sized(cells, rows, cols)
        invariant Marks(cells) == marks + set r | minrow <= r < row :: Lane(r, col, i)
        invariant Tight(start) ==> Tight(cells)
        invariant forall r, k: int :: minrow <= r <= maxrow && k <= i && TightBut(start, r, col, k) ==>
                    if r < row then Tight(cells) else TightBut(cells, r, col, k)
      {
        MarkEdge(row, col, i, true);
      }
    }
  }

  /** Marking a lane leaves the lists tight, taking a mark back leaves one list open, at most up to that lane. */
  lemma MarkIsTight(m: Cells, row: nat, col: nat, index: nat, used: bool, lanes: seq<bool>)
    requires row < |m| && col < |m[row]| && index < |lanes| && |m[row][col]| <= |lanes|
    requires |lanes| == if |m[row][col]| <= index then index + 1 else |m[row][col]|
    requires forall i :: 0 <= i < |m[row][col]| && i != index ==> lanes[i] == m[row][col][i]
    requires lanes[index] == used
    ensures var m' := m[row := m[row][col := lanes]];
            && (Tight(m) ==> if used then Tight(m') else TightBut(m', row, col, index))
            && (forall r, i: int :: used && TightBut(m, r, col, i) ==>
                  if r == row && i <= index then Tight(m') else TightBut(m', r, col, i))
  {
    var m' := m[row := m[row][col := lanes]];
    forall r, c | 0 <= r < |m'| && 0 <= c < |m'[r]| ensures m'[r][c] == if r == row && c == col then lanes else m[r][c] {
    }
  }

  lemma MarkOne(m: Cells, row: nat, col: nat, index: nat, used: bool, lanes: seq<bool>)
    requires row < |m| && col < |m[row]| && index < |lanes| && |m[row][col]| <= |lanes|
    requires forall i :: 0 <= i < |m[row][col]| && i != index ==> lanes[i] == m[row][col][i]
    requires forall i :: |m[row][col]| <= i < |lanes| && i != index ==> !lanes[i]
    requires lanes[index] == used
    ensures Marks(m[row := m[row][col := lanes]]) ==
            if used then Marks(m) + {Lane(row, col, index)} else Marks(m) - {Lane(row, col, index)}
  {
    var m' := m[row := m[row][col := lanes]];
    forall l ensures l in Marks(m') <==>
      if l == Lane(row, col, index) then used else l in Marks(m)
    {
      if l.row != row || l.col != col {
        assert 0 <= l.row < |m| && l.row != row ==> m'[l.row] == m[l.row];
      }
    }
  }

  // ---- The lanes that a routed edge holds

  function AddPoint(points: seq<Point>, row: int, col: int, index: int): seq<Point> {
    if points == [] then [Point(row, col, 0)]
    else points[|points| - 1 := points[|points| - 1].(index := index)] + [Point(row, col, 0)]
  }

  function MinOf(a: int, b: int): int {
    if a < b then a else b
  }

  function MaxOf(a: int, b: int): int {
    if a < b then b else a
  }

  /** The run that joins two points in the same row or the same column. */
  function Between(p: Point, q: Point): Run {
    if p.row == q.row then Horiz(p.row, MinOf(p.col, q.col), MaxOf(p.col, q.col))
    else Vert(p.col, MinOf(p.row, q.row), MaxOf(p.row, q.row))
  }

  /** The horizontal lanes of an edge: those of its horizontal runs, each in the lane kept at the run's first point. */
  ghost function HorizOf(points: seq<Point>): set<Lane> {
    if |points| < 2 then {}
    else
      var run := Between(points[|points| - 2], points[|points| - 1]);
      HorizOf(points[..|points| - 1]) + if run.Horiz? then run.Lanes(points[|points| - 2].index) else {}
  }

  ghost function VertOf(points: seq<Point>): set<Lane> {
    if |points| < 2 then {}
    else
      var run := Between(points[|points| - 2], points[|points| - 1]);
      VertOf(points[..|points| - 1]) + if run.Vert? then run.Lanes(points[|points| - 2].index) else {}
  }

  predicate EndsHorizontally(points: seq<Point>) {
    |points| >= 2 && Between(points[|points| - 2], points[|points| - 1]).Horiz?
  }

  /**
   The vertical lanes of an edge: those of its vertical runs, the stub it leaves by and, after a final horizontal
   run, the stub it enters by.
   */
  ghost function VertLanes(e: LLEdge): set<Lane> {
    if e.points == [] then {} else
      var first, last := e.points[0], e.points[|e.points| - 1];
      VertOf(e.points)
      + {Lane(first.row, first.col, e.startindex)}
      + if EndsHorizontally(e.points) then {Lane(last.row, last.col, last.index)} else {}
  }

  ghost function HorizLanes(e: LLEdge): set<Lane> {
    HorizOf(e.points)
  }

  /** The lanes of a route are those of its last run and those of the route without its last point. */
  lemma LastRun(points: seq<Point>)
    requires |points| >= 2
    ensures var run, init := Between(points[|points| - 2], points[|points| - 1]), points[..|points| - 1];
            && HorizOf(points) == HorizOf(init) + (if run.Horiz? then run.Lanes(points[|points| - 2].index) else {})
            && VertOf(points) == VertOf(init) + (if run.Vert? then run.Lanes(points[|points| - 2].index) else {})
  {
  }

  /** Each run of a route holds the lane kept at its first point. */
  lemma {:induction false} RunHeld(points: seq<Point>, k: nat)
    requires k + 1 < |points|
    ensures var run := Between(points[k], points[k + 1]);
            run.Lanes(points[k].index) <= if run.Horiz? then HorizOf(points) else VertOf(points)
    decreases |points|
  {
    hide HorizOf, VertOf, Between;
    LastRun(points);
    if k + 2 < |points| {
      RunHeld(points[..|points| - 1], k);
    }
  }

  lemma LastIndexIsOpen(points: seq<Point>, index: int)
    requires points != []
    ensures var p := points[|points| - 1 := points[|points| - 1].(index := index)];
            HorizOf(p) == HorizOf(points) && VertOf(p) == VertOf(points)
  {
    var p := points[|points| - 1 := points[|points| - 1].(index := index)];
    if |points| >= 2 {
      hide HorizOf, VertOf;
      LastRun(points);
      LastRun(p);
      assert p[..|p| - 1] == points[..|points| - 1];
    }
  }

  lemma AddPointLanes(points: seq<Point>, row: int, col: int, index: int)
    requires points != []
    ensures var run, p := Between(points[|points| - 1], Point(row, col, 0)), AddPoint(points, row, col, index);
            && p[0].row == points[0].row && p[0].col == points[0].col
            && HorizOf(p) == HorizOf(points) + (if run.Horiz? then run.Lanes(index) else {})
            && VertOf(p) == VertOf(points) + (if run.Vert? then run.Lanes(index) else {})
  {
    hide HorizOf, VertOf, Between;
    var p, init := AddPoint(points, row, col, index), points[|points| - 1 := points[|points| - 1].(index := index)];
    LastIndexIsOpen(points, index);
    LastRun(p);
    assert p[..|p| - 1] == init;
    assert p[|p| - 2] == points[|points| - 1].(index := index) && p[|p| - 1] == Point(row, col, 0);
    OnlyPlacesJoin(p[|p| - 2], points[|points| - 1], p[|p| - 1]);
  }

  lemma OnlyPlacesJoin(p: Point, p': Point, q: Point)
    requires p.row == p'.row && p.col == p'.col
    ensures Between(p, q) == Between(p', q)
  {
  }

  /** Lanes that no lane of the run can coincide with play no part in what is free along it. */
  lemma LeastFreeBeside(marks: set<Lane>, extra: set<Lane>, run: Run, i: int)
    requires LeastFree(marks + extra, run, i)
    requires forall j :: run.Lanes(j) !! extra
    ensures LeastFree(marks, run, i)
  {
    forall j | 0 <= j < i ensures !(run.Lanes(j) !! marks) {
      assert !(run.Lanes(j) !! marks + extra);
    }
  }
}
