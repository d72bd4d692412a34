/** From grid cells to pixels: cumulative column and row positions, and the rectangle of each node. */
module PixelGrid {
  import opened LayoutGraph
  import opened EdgeLanes

  const PADDING := 16
  const LANE_WIDTH := PADDING / 2

  /** band[i] is where the lanes before cell i begin, pos[i] where the cell itself begins. */
  predicate Ladder(band: seq<int>, pos: seq<int>, lanes: seq<int>, size: seq<int>, n: nat) {
    && |band| == n + 1 && |pos| == n && |lanes| == n + 1 && |size| == n + 1
    && band[0] == PADDING
    && (forall i :: 0 <= i < n ==> Rung(band, pos, lanes, size, i))
    && (forall i :: 0 <= i <= n ==> 0 <= lanes[i] && 0 <= size[i])
  }

  predicate Rung(band: seq<int>, pos: seq<int>, lanes: seq<int>, size: seq<int>, i: nat)
    requires i + 1 < |band| && i < |pos| && i < |lanes| && i < |size|
  {
    pos[i] == band[i] + LANE_WIDTH * lanes[i] && band[i + 1] == pos[i] + size[i]
  }

  lemma {:induction false} LadderClimbs(
    band: seq<int>, pos: seq<int>, lanes: seq<int>, size: seq<int>, n: nat, i: nat, j: nat)
    requires Ladder(band, pos, lanes, size, n) && i <= j <= n
    ensures band[i] <= band[j]
    ensures i < j ==> pos[i] + size[i] <= band[j]
  {
    if i < j {
      LadderClimbs(band, pos, lanes, size, n, i, j - 1);
      assert Rung(band, pos, lanes, size, j - 1);
    }
  }

  /** The pixel on which a lane of the given index is drawn. */
  function LineAt(band: seq<int>, i: int, index: int): int
    requires 0 <= i < |band|
  {
    band[i] + LANE_WIDTH * index + 4
  }

  /** That is in the middle of the strip of pixels that the band keeps for the lane. */
  lemma LineInStrip(band: seq<int>, i: int, index: int)
    requires 0 <= i < |band|
    ensures var left, right := band[i] + LANE_WIDTH * index, band[i] + LANE_WIDTH * (index + 1);
            left < LineAt(band, i, index) < right && 2 * LineAt(band, i, index) == left + right
  {
  }

  datatype Rect = Rect(x: int, y: int, width: int, height: int) {
    predicate Apart(other: Rect) {
      || x + width <= other.x || other.x + other.width <= x
      || y + height <= other.y || other.y + other.height <= y
    }
  }

  /** The pixel geometry of a grid of rows and columns. */
  datatype Grid = Grid(
    coledgex: seq<int>, colx: seq<int>, coledgecount: seq<int>, colwidth: seq<int>, cols: nat,
    rowedgey: seq<int>, rowy: seq<int>, rowedgecount: seq<int>, rowheight: seq<int>, rows: nat)
  {
    predicate Valid() {
      && Ladder(coledgex, colx, coledgecount, colwidth, cols)
      && Ladder(rowedgey, rowy, rowedgecount, rowheight, rows)
    }

    /** The block lies on the grid, and its columns and its row have room for it. */
    predicate Holds(b: LLBlock) {
      && Valid()
      && 0 <= b.width && 0 <= b.height
      && 0 <= b.col && b.col + 2 <= cols && 0 <= b.row < rows
      && b.width / 2 <= colwidth[b.col] && b.width / 2 <= colwidth[b.col + 1] && b.height <= rowheight[b.row]
    }

    /** The right and the bottom edge of the whole area. */
    function RightEdge(): int
      requires Valid()
    {
      coledgex[cols] + PADDING + LANE_WIDTH * coledgecount[cols]
    }

    function BottomEdge(): int
      requires Valid()
    {
      rowedgey[rows] + PADDING + LANE_WIDTH * rowedgecount[rows]
    }

    /** Where the columns of the block end. */
    function RightLimit(b: LLBlock): int
      requires Holds(b)
    {
      colx[b.col] + colwidth[b.col] + colwidth[b.col + 1] + LANE_WIDTH * coledgecount[b.col + 1]
    }

    function NodeX(b: LLBlock): int
      requires Holds(b)
    {
      var x := colx[b.col] + colwidth[b.col] + (LANE_WIDTH / 2) * coledgecount[b.col + 1] - b.width / 2;
      if x + b.width > RightLimit(b) then RightLimit(b) - b.width else x
    }

    function NodeY(b: LLBlock): int
      requires Holds(b)
    {
      rowy[b.row] + PADDING
    }

    function NodeRect(b: LLBlock): Rect
      requires Holds(b)
    {
      Rect(NodeX(b), NodeY(b), b.width, b.height)
    }

    /** An odd node that fills both its columns to the last pixel, with no lane between them, is one pixel too wide. */
    predicate Overfull(b: LLBlock)
      requires Holds(b)
    {
      b.width % 2 == 1 && coledgecount[b.col + 1] == 0 && colwidth[b.col] == colwidth[b.col + 1] == b.width / 2
    }

    lemma LaneMakesRoom(b: LLBlock)
      requires Holds(b) && coledgecount[b.col + 1] >= 1
      ensures !Overfull(b)
    {
    }

    lemma LimitIsNextBand(b: LLBlock)
      requires Holds(b)
      ensures b.col + 2 < |coledgex| && RightLimit(b) == coledgex[b.col + 2]
    {
      assert Rung(coledgex, colx, coledgecount, colwidth, b.col);
      assert Rung(coledgex, colx, coledgecount, colwidth, b.col + 1);
    }

    /** A node stays within its own two columns, except that an overfull one sticks out by one pixel on the left. */
    lemma NodeInColumns(b: LLBlock)
      requires Holds(b)
      ensures NodeX(b) + b.width <= RightLimit(b)
      ensures NodeX(b) >= colx[b.col] - (if Overfull(b) then 1 else 0)
      ensures NodeX(b) >= colx[b.col] <==> !Overfull(b)
    {
    }

    /** Nothing is left of the right column for the odd pixel of the node. */
    predicate Clamped(b: LLBlock)
      requires Holds(b)
    {
      b.width % 2 == 1 && coledgecount[b.col + 1] == 0 && colwidth[b.col + 1] == b.width / 2
    }

    /** The middle of a node is the middle of the lanes between its two columns, up to a pixel. */
    lemma CentredOnLanes(b: LLBlock)
      requires Holds(b)
      ensures b.col + 1 < |coledgex| && b.col + 1 < |colx|
      ensures 2 * NodeX(b) + b.width ==
              coledgex[b.col + 1] + colx[b.col + 1] + if Clamped(b) then -1 else b.width % 2
    {
      hide Ladder;
      Lengths();
      BandBeforeCell(b.col);
      BandBeforeCell(b.col + 1);
    }

    /** The node is at least as wide as the lanes in its middle are apart. */
    predicate LanesFit(b: LLBlock)
      requires Holds(b)
    {
      LANE_WIDTH * (coledgecount[b.col + 1] - 1) <= 2 * (b.width / 2)
    }

    predicate Hits(b: LLBlock, index: int)
      requires Holds(b)
    {
      b.col + 1 < |coledgex| && NodeX(b) <= LaneX(b.col + 1, index) <= NodeX(b) + b.width
    }

    /** All lanes in the middle of a node end on the node, in exactly the case that it is wide enough for them. */
    lemma LanesHitNode(b: LLBlock)
      requires Holds(b)
      ensures LanesFit(b) <==> forall i :: 0 <= i < coledgecount[b.col + 1] ==> Hits(b, i)
    {
      Lengths();
      hide Ladder, NodeX, RightLimit;
      CentredOnLanes(b);
      BandBeforeCell(b.col + 1);
      if coledgecount[b.col + 1] > 0 && Hits(b, 0) {
        assert LanesFit(b);
      }
    }

    /** The columns of the left block end at or before those of the right one begin. */
    lemma ColumnsApart(a: LLBlock, b: LLBlock)
      requires Holds(a) && Holds(b) && a.col + 2 <= b.col
      ensures RightLimit(a) <= colx[b.col]
    {
      LimitIsNextBand(a);
      LadderClimbs(coledgex, colx, coledgecount, colwidth, cols, a.col + 2, b.col);
      assert Rung(coledgex, colx, coledgecount, colwidth, b.col);
    }

    /**
     Side by side: the left node ends before the right one begins, unless the right one is overfull and finds no
     gap.
     */
    lemma SideBySide(a: LLBlock, b: LLBlock)
      requires Holds(a) && Holds(b) && a.col + 2 <= b.col
      ensures NodeX(a) + a.width <= NodeX(b) <==>
              !(Overfull(b) && NodeX(a) + a.width == RightLimit(a) == colx[b.col])
    {
      ColumnsApart(a, b);
      NodeInColumns(a);
      NodeInColumns(b);
    }

    /** In its row a node keeps a padding above it and, once its own padding is taken off, at least one below it. */
    lemma NodeInRow(b: LLBlock)
      requires Holds(b)
      ensures NodeY(b) - PADDING == rowy[b.row] && b.row + 1 < |rowedgey|
      ensures NodeY(b) + b.height - 2 * PADDING + PADDING <= rowedgey[b.row + 1]
      ensures b.height == rowheight[b.row] ==> NodeY(b) + b.height - 2 * PADDING + PADDING == rowedgey[b.row + 1]
    {
      hide Ladder;
      Lengths();
      RowBand(b.row);
    }

    lemma RowsApart(a: LLBlock, b: LLBlock)
      requires Holds(a) && Holds(b) && a.row < b.row
      ensures NodeY(a) + a.height <= NodeY(b)
    {
      LadderClimbs(rowedgey, rowy, rowedgecount, rowheight, rows, a.row, b.row);
      assert Rung(rowedgey, rowy, rowedgecount, rowheight, b.row);
    }

    /**
     Blocks that do not share grid cells have rectangles that do not overlap, unless one in a shared row is
     overfull.
     */
    lemma RectsApart(a: LLBlock, b: LLBlock)
      requires Holds(a) && Holds(b)
      requires a.row == b.row ==> a.col + 2 <= b.col || b.col + 2 <= a.col
      requires a.row == b.row ==> !Overfull(a) && !Overfull(b)
      ensures NodeRect(a).Apart(NodeRect(b))
    {
      if a.row < b.row {
        RowsApart(a, b);
      } else if b.row < a.row {
        RowsApart(b, a);
      } else if a.col < b.col {
        SideBySide(a, b);
      } else {
        SideBySide(b, a);
      }
    }

    /** Every node is drawn inside of the area. */
    lemma NodeInArea(b: LLBlock)
      requires Holds(b)
      ensures 0 <= NodeX(b) && NodeX(b) + b.width <= RightEdge() - PADDING
      ensures 0 <= NodeY(b) && NodeY(b) + b.height <= BottomEdge()
    {
      hide Ladder, NodeX, NodeY, RightEdge, BottomEdge;
      NodeInWidth(b);
      NodeInHeight(b);
    }

    lemma NodeInWidth(b: LLBlock)
      requires Holds(b)
      ensures 0 <= NodeX(b) && NodeX(b) + b.width <= RightEdge() - PADDING
    {
      hide Ladder, NodeX, Overfull, RightLimit;
      NodeInColumns(b);
      LimitIsNextBand(b);
      ColumnClimbs(b.col + 2, cols);
      ColumnClimbs(0, b.col);
      BandBeforeCell(b.col);
      FirstBands();
    }

    lemma NodeInHeight(b: LLBlock)
      requires Holds(b)
      ensures 0 <= NodeY(b) && NodeY(b) + b.height <= BottomEdge()
    {
      hide Ladder;
      RowClimbs(0, b.row);
      RowClimbs(b.row, rows);
      RowBand(b.row);
      FirstBands();
    }

    lemma ColumnClimbs(c: nat, d: nat)
      requires Valid() && c <= d <= cols
      ensures coledgex[c] <= coledgex[d]
      ensures c < d ==> colx[c] + colwidth[c] <= coledgex[d]
    {
      LadderClimbs(coledgex, colx, coledgecount, colwidth, cols, c, d);
    }

    lemma Lengths()
      requires Valid()
      ensures |coledgex| == |coledgecount| == |colwidth| == cols + 1 && |colx| == cols
      ensures |rowedgey| == |rowedgecount| == |rowheight| == rows + 1 && |rowy| == rows
    {
    }

    lemma FirstBands()
      requires Valid()
      ensures coledgex[0] == PADDING && rowedgey[0] == PADDING && 0 <= coledgecount[cols] && 0 <= rowedgecount[rows]
    {
    }

    // ---- Lanes

    function LaneX(col: int, index: int): int
      requires 0 <= col < |coledgex|
    {
      LineAt(coledgex, col, index)
    }

    /** Different vertical lanes are drawn on lines at least one lane width apart, or separated by a column. */
    lemma LanesApart(c: nat, i: nat, d: nat, j: nat)
      requires Valid() && c <= d <= cols && i < coledgecount[c] && (c < d || i < j)
      ensures LaneX(c, i) + LANE_WIDTH <= LaneX(d, j)
    {
      hide Ladder;
      if c < d {
        BandBeforeCell(c);
        ColumnClimbs(c, d);
      }
    }

    lemma LaneBefore(b: LLBlock, col: nat, index: nat)
      requires Holds(b) && !Overfull(b) && col <= b.col && index < coledgecount[col]
      ensures LaneX(col, index) < NodeX(b)
    {
      hide Ladder, NodeX, Overfull, RightLimit;
      NodeInColumns(b);
      BandBeforeCell(b.col);
      if col < b.col {
        BandBeforeCell(col);
        ColumnClimbs(col, b.col);
      }
    }

    lemma BandBeforeCell(i: nat)
      requires Valid() && i < cols
      ensures colx[i] == coledgex[i] + LANE_WIDTH * coledgecount[i] && coledgex[i + 1] == colx[i] + colwidth[i]
      ensures 0 <= colwidth[i] && 0 <= coledgecount[i]
    {
      assert Rung(coledgex, colx, coledgecount, colwidth, i);
    }

    lemma LaneAfter(b: LLBlock, col: nat, index: nat)
      requires Holds(b) && b.col + 2 <= col <= cols && index < coledgecount[col]
      ensures NodeX(b) + b.width < LaneX(col, index)
    {
      hide Ladder, NodeX, Overfull, RightLimit;
      NodeInColumns(b);
      LimitIsNextBand(b);
      ColumnClimbs(b.col + 2, col);
    }

    /** A vertical lane keeps clear of a node, unless it is in the column in the middle of the node. */
    lemma LaneClearsNode(b: LLBlock, col: nat, index: nat)
      requires Holds(b) && !Overfull(b) && col <= cols && index < coledgecount[col] && col != b.col + 1
      ensures LaneX(col, index) < NodeX(b) || NodeX(b) + b.width < LaneX(col, index)
    {
      hide LaneX, NodeX, Overfull, Holds;
      if col <= b.col {
        LaneBefore(b, col, index);
      } else {
        LaneAfter(b, col, index);
      }
    }

    function LaneY(row: int, index: int): int
      requires 0 <= row < |rowedgey|
    {
      LineAt(rowedgey, row, index)
    }

    /** Different horizontal lanes are drawn on lines at least one lane width apart, or separated by a row. */
    lemma RowLanesApart(r: nat, i: nat, q: nat, j: nat)
      requires Valid() && r <= q <= rows && i < rowedgecount[r] && (r < q || i < j)
      ensures LaneY(r, i) + LANE_WIDTH <= LaneY(q, j)
    {
      hide Ladder;
      if r < q {
        RowBand(r);
        RowClimbs(r, q);
      }
    }

    /**
     A horizontal lane runs above the nodes of its own row and of those below it, and below what is left of the nodes
     above it without their padding. For lane 0 there is room also when no lane is counted.
     */
    lemma RowLaneClearsNode(b: LLBlock, row: nat, index: nat)
      requires Holds(b) && row <= rows
      ensures row <= b.row && (index == 0 || index < rowedgecount[row]) ==> LaneY(row, index) < NodeY(b)
      ensures b.row < row ==> NodeY(b) + b.height - 2 * PADDING < LaneY(row, index)
    {
      hide Ladder, NodeY;
      Lengths();
      if b.row >= row && (index == 0 || index < rowedgecount[row]) {
        RowLaneAbove(b, row, index);
      } else if b.row < row {
        RowLaneBelow(b, row, index);
      }
    }

    lemma RowLaneAbove(b: LLBlock, row: nat, index: nat)
      requires Holds(b) && row <= b.row && row < |rowedgey| && row < |rowedgecount|
      requires index == 0 || index < rowedgecount[row]
      ensures LaneY(row, index) < NodeY(b)
    {
      hide Ladder;
      Lengths();
      RowBand(b.row);
      RowClimbs(row, b.row);
      RowBand(row);
    }

    lemma RowLaneBelow(b: LLBlock, row: nat, index: nat)
      requires Holds(b) && b.row < row <= rows && row < |rowedgey|
      ensures NodeY(b) + b.height - 2 * PADDING < LaneY(row, index)
    {
      hide Ladder;
      Lengths();
      RowBand(b.row);
      RowClimbs(b.row + 1, row);
    }

    lemma RowBand(r: nat)
      requires Valid() && r < rows
      ensures rowy[r] == rowedgey[r] + LANE_WIDTH * rowedgecount[r] && rowedgey[r + 1] == rowy[r] + rowheight[r]
      ensures 0 <= rowheight[r] && 0 <= rowedgecount[r]
    {
      assert Rung(rowedgey, rowy, rowedgecount, rowheight, r);
    }

    lemma RowClimbs(r: nat, q: nat)
      requires Valid() && r <= q <= rows
      ensures rowedgey[r] <= rowedgey[q]
      ensures r < q ==> rowy[r] + rowheight[r] <= rowedgey[q]
    {
      LadderClimbs(rowedgey, rowy, rowedgecount, rowheight, rows, r, q);
    }
  }

  // ---- How many lanes each row and column needs

  /** The most lanes in any of the first k cells of a row. */
  function RowLanes(m: Cells, row: nat, k: nat): int
    requires row < |m| && k <= |m[row]|
  {
    if k == 0 then 0 else MaxOf(RowLanes(m, row, k - 1), |m[row][k - 1]|)
  }

  /** The most lanes in any of the first k cells of a column. */
  function ColumnLanes(m: Cells, col: nat, k: nat): int
    requires k <= |m| && forall r :: 0 <= r < |m| ==> col < |m[r]|
  {
    if k == 0 then 0 else MaxOf(ColumnLanes(m, col, k - 1), |m[k - 1][col]|)
  }

  lemma LanesNone(h: Cells, v: Cells, rows: nat, cols: nat)
    requires Sized(h, rows, cols) && Sized(v, rows, cols)
    ensures forall r :: 0 <= r < rows ==> RowLanes(h, r, 0) == 0
    ensures forall c :: 0 <= c < cols ==> ColumnLanes(v, c, 0) == 0
  {
  }

  lemma LanesNext(h: Cells, v: Cells, row: nat, col: nat)
    requires row < |h| && col < |h[row]| && row < |v| && forall r :: 0 <= r < |v| ==> col < |v[r]|
    ensures RowLanes(h, row, col + 1) == MaxOf(RowLanes(h, row, col), |h[row][col]|)
    ensures ColumnLanes(v, col, row + 1) == MaxOf(ColumnLanes(v, col, row), |v[row][col]|)
  {
  }

  /** Every lane marked in the column has an index below the number of lanes counted for it. */
  lemma {:induction false} ColumnLanesCover(m: Cells, col: nat, k: nat, row: nat, index: nat)
    requires k <= |m| && (forall r :: 0 <= r < |m| ==> col < |m[r]|) && row < k
    requires Lane(row, col, index) in Marks(m)
    ensures index < ColumnLanes(m, col, k)
  {
    if row < k - 1 {
      ColumnLanesCover(m, col, k - 1, row, index);
    }
  }

  lemma {:induction false} RowLanesCover(m: Cells, row: nat, k: nat, col: nat, index: nat)
    requires row < |m| && col < k <= |m[row]|
    requires Lane(row, col, index) in Marks(m)
    ensures index < RowLanes(m, row, k)
  {
    if col < k - 1 {
      RowLanesCover(m, row, k - 1, col, index);
    }
  }

  /** No more is counted for a column than one of its cells lists. */
  lemma {:induction false} ColumnLanesListed(m: Cells, col: nat, k: nat) returns (row: nat)
    requires k <= |m| && (forall r :: 0 <= r < |m| ==> col < |m[r]|) && ColumnLanes(m, col, k) > 0
    ensures row < k && |m[row][col]| == ColumnLanes(m, col, k)
  {
    if |m[k - 1][col]| == ColumnLanes(m, col, k) {
      row := k - 1;
    } else {
      row := ColumnLanesListed(m, col, k - 1);
    }
  }

  lemma {:induction false} RowLanesListed(m: Cells, row: nat, k: nat) returns (col: nat)
    requires row < |m| && k <= |m[row]| && RowLanes(m, row, k) > 0
    ensures col < k && |m[row][col]| == RowLanes(m, row, k)
  {
    if |m[row][k - 1]| == RowLanes(m, row, k) {
      col := k - 1;
    } else {
      col := RowLanesListed(m, row, k - 1);
    }
  }

  lemma {:induction false} ColumnLanesNat(m: Cells, col: nat, k: nat)
    requires k <= |m| && (forall r :: 0 <= r < |m| ==> col < |m[r]|)
    ensures 0 <= ColumnLanes(m, col, k)
  {
    if k > 0 {
      ColumnLanesNat(m, col, k - 1);
    }
  }

  lemma {:induction false} RowLanesNat(m: Cells, row: nat, k: nat)
    requires row < |m| && k <= |m[row]|
    ensures 0 <= RowLanes(m, row, k)
  {
    if k > 0 {
      RowLanesNat(m, row, k - 1);
    }
  }

  lemma CountsAreNat(h: Cells, v: Cells, rows: nat, cols: nat)
    requires Sized(h, rows, cols) && Sized(v, rows, cols)
    ensures forall r :: 0 <= r < rows ==> 0 <= RowLanes(h, r, cols)
    ensures forall c :: 0 <= c < cols ==> 0 <= ColumnLanes(v, c, rows)
  {
    forall r | 0 <= r < rows ensures 0 <= RowLanes(h, r, cols) {
      RowLanesNat(h, r, cols);
    }
    forall c | 0 <= c < cols ensures 0 <= ColumnLanes(v, c, rows) {
      ColumnLanesNat(v, c, rows);
    }
  }

  // ---- How wide each column and how high each row must be

  /** The column is as wide as half of the widest of the given blocks that cover it. */
  ghost predicate ColumnFits(blocks: Blocks, some: set<Node>, c: int, width: int) {
    && (forall n :: n in some && n in blocks && (blocks[n].col == c || blocks[n].col + 1 == c) ==>
          blocks[n].width / 2 <= width)
    && 0 <= width
    && (width != 0 ==> exists n :: n in some && n in blocks && (blocks[n].col == c || blocks[n].col + 1 == c)
                                   && blocks[n].width / 2 == width)
  }

  /** The row is as high as the highest of the given blocks in it. */
  ghost predicate RowFits(blocks: Blocks, some: set<Node>, r: int, height: int) {
    && (forall n :: n in some && n in blocks && blocks[n].row == r ==> blocks[n].height <= height)
    && 0 <= height
    && (height != 0 ==> exists n :: n in some && n in blocks && blocks[n].row == r && blocks[n].height == height)
  }

  lemma SizesAreNat(blocks: Blocks, widths: seq<int>, heights: seq<int>)
    requires forall c :: 0 <= c < |widths| ==> ColumnFits(blocks, blocks.Keys, c, widths[c])
    requires forall r :: 0 <= r < |heights| ==> RowFits(blocks, blocks.Keys, r, heights[r])
    ensures forall c :: 0 <= c < |widths| ==> 0 <= widths[c]
    ensures forall r :: 0 <= r < |heights| ==> 0 <= heights[r]
  {
  }

  ghost predicate ColumnsFit(blocks: Blocks, some: set<Node>, widths: seq<int>) {
    forall c :: 0 <= c < |widths| ==> ColumnFits(blocks, some, c, widths[c])
  }

  ghost predicate RowsFit(blocks: Blocks, some: set<Node>, heights: seq<int>) {
    forall r :: 0 <= r < |heights| ==> RowFits(blocks, some, r, heights[r])
  }

  lemma NothingFits(blocks: Blocks, widths: seq<int>, heights: seq<int>)
    requires (forall c :: 0 <= c < |widths| ==> widths[c] == 0) && forall r :: 0 <= r < |heights| ==> heights[r] == 0
    ensures ColumnsFit(blocks, {}, widths) && RowsFit(blocks, {}, heights)
  {
  }

  lemma AllFit(blocks: Blocks, some: set<Node>, widths: seq<int>, heights: seq<int>)
    requires ColumnsFit(blocks, some, widths) && RowsFit(blocks, some, heights)
    ensures forall c :: 0 <= c < |widths| ==> ColumnFits(blocks, some, c, widths[c])
    ensures forall r :: 0 <= r < |heights| ==> RowFits(blocks, some, r, heights[r])
  {
  }

  function Raise(s: seq<int>, i: nat, v: int): seq<int>
    requires i < |s|
  {
    if v > s[i] then s[i := v] else s
  }

  /** One more block: its two columns are widened for it where they are too narrow. */
  lemma WidenFor(blocks: Blocks, some: set<Node>, n: Node, widths: seq<int>)
    requires n in blocks && 0 <= blocks[n].col && blocks[n].col + 1 < |widths|
    requires ColumnsFit(blocks, some, widths)
    ensures var b := blocks[n];
            ColumnsFit(blocks, some + {n}, Raise(Raise(widths, b.col, b.width / 2), b.col + 1, b.width / 2))
  {
    var b := blocks[n];
    var widened := Raise(Raise(widths, b.col, b.width / 2), b.col + 1, b.width / 2);
    forall c | 0 <= c < |widths| ensures ColumnFits(blocks, some + {n}, c, widened[c]) {
      assert ColumnFits(blocks, some, c, widths[c]);
      assert n in some + {n};
      if c == b.col || c == b.col + 1 {
        assert widened[c] == MaxOf(widths[c], b.width / 2);
      } else {
        assert widened[c] == widths[c];
      }
    }
  }

  lemma HeightenFor(blocks: Blocks, some: set<Node>, n: Node, heights: seq<int>)
    requires n in blocks && 0 <= blocks[n].row < |heights|
    requires RowsFit(blocks, some, heights)
    ensures RowsFit(blocks, some + {n}, Raise(heights, blocks[n].row, blocks[n].height))
  {
    var heightened := Raise(heights, blocks[n].row, blocks[n].height);
    forall r | 0 <= r < |heights| ensures RowFits(blocks, some + {n}, r, heightened[r]) {
      assert RowFits(blocks, some, r, heights[r]);
      assert n in some + {n};
    }
  }
}
