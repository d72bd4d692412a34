/**
 Where a tree is drawn on the grid. Each node is given one cell, relative to the tree it is the root of;
 a node deeper in a tree sits at its own cell moved by the offsets of the subtrees around it.
 */
module TreeLayout {
  import opened LayoutGraph

  datatype Tree = Tree(id: Node, kids: seq<Tree>)

  datatype LayoutType = Medium | Narrow | Wide

  /** A grid position, and the size in rows and columns of the tree below it. */
  datatype Cell = Cell(row: int, col: int, rowcount: int, colcount: int) {
    function Shift(drow: int, dcol: int): Cell {
      Cell(row + drow, col + dcol, rowcount, colcount)
    }
  }

  ghost function Ids(t: Tree): set<Node>
    decreases t, 1
  {
    {t.id} + KidIds(t)
  }

  ghost function KidIds(t: Tree): set<Node>
    decreases t, 0
  {
    set i, n | 0 <= i < |t.kids| && n in Ids(t.kids[i]) :: n
  }

  /** No id occurs twice. */
  ghost predicate Unrepeated(t: Tree) {
    && t.id !in KidIds(t)
    && (forall i :: 0 <= i < |t.kids| ==> Unrepeated(t.kids[i]))
    && (forall i, j :: 0 <= i < j < |t.kids| ==> Ids(t.kids[i]) !! Ids(t.kids[j]))
  }

  function Max(a: int, b: int): int {
    if a < b then b else a
  }

  // ---- One level: the cells of the children decide the cell of the parent and the children's offsets

  /** Two children that are not simply put side by side. */
  predicate Paired(kind: LayoutType, cells: seq<Cell>) {
    kind != Wide && |cells| == 2
  }

  function TotalColumns(cells: seq<Cell>, k: nat): int
    requires k <= |cells|
  {
    if k == 0 then 0 else TotalColumns(cells, k - 1) + cells[k - 1].colcount
  }

  function MaxRows(cells: seq<Cell>, k: nat): int
    requires k <= |cells|
  {
    if k == 0 then 0 else Max(MaxRows(cells, k - 1), cells[k - 1].rowcount)
  }

  /** How far right child i is moved; leaf says whether a child has no children itself. */
  function Offset(kind: LayoutType, cells: seq<Cell>, leaf: seq<bool>, i: nat): int
    requires |leaf| == |cells| && i < |cells|
  {
    if Paired(kind, cells) && leaf[0] then
      var add := Max(0, 2 - cells[1].col);
      if i == 0 then cells[1].col + add - 2 else add
    else if Paired(kind, cells) && leaf[1] then
      if i == 0 then 0 else cells[0].col + 2
    else
      TotalColumns(cells, i)
  }

  function Columns(kind: LayoutType, cells: seq<Cell>, leaf: seq<bool>): int
    requires |leaf| == |cells|
  {
    if Paired(kind, cells) && leaf[0] then
      cells[1].colcount + Max(0, 2 - cells[1].col)
    else if Paired(kind, cells) && leaf[1] then
      Max(cells[0].colcount, cells[0].col + 4)
    else
      TotalColumns(cells, |cells|)
  }

  function ParentColumn(kind: LayoutType, cells: seq<Cell>, leaf: seq<bool>): int
    requires |leaf| == |cells|
  {
    if cells == [] then 0
    else if |cells| == 1 then cells[0].col
    else if Paired(kind, cells) && kind == Medium then
      (cells[0].col + Offset(kind, cells, leaf, 0) + cells[1].col + Offset(kind, cells, leaf, 1)) / 2
    else (Columns(kind, cells, leaf) - 2) / 2
  }

  function ParentCell(kind: LayoutType, cells: seq<Cell>, leaf: seq<bool>): Cell
    requires |leaf| == |cells|
  {
    Cell(0, ParentColumn(kind, cells, leaf), 1 + MaxRows(cells, |cells|), Max(2, Columns(kind, cells, leaf)))
  }

  // ---- Whole trees

  function Leaves(ts: seq<Tree>): seq<bool> {
    seq(|ts|, i requires 0 <= i < |ts| => |ts[i].kids| == 0)
  }

  function RootCells(kind: LayoutType, ts: seq<Tree>): (cells: seq<Cell>)
    ensures |cells| == |ts|
    ensures forall i :: 0 <= i < |ts| ==> cells[i] == RootCell(kind, ts[i])
    decreases ts
  {
    if ts == [] then [] else [RootCell(kind, ts[0])] + RootCells(kind, ts[1..])
  }

  function RootCell(kind: LayoutType, t: Tree): Cell
    decreases t
  {
    ParentCell(kind, RootCells(kind, t.kids), Leaves(t.kids))
  }

  function KidOffset(kind: LayoutType, t: Tree, i: nat): int
    requires i < |t.kids|
  {
    Offset(kind, RootCells(kind, t.kids), Leaves(t.kids), i)
  }

  ghost function KidOf(t: Tree, n: Node): (i: nat)
    requires n in KidIds(t)
    ensures i < |t.kids| && n in Ids(t.kids[i])
  {
    var i :| 0 <= i < |t.kids| && n in Ids(t.kids[i]);
    i
  }

  /** The cell of any node of the tree. */
  ghost function CellOf(kind: LayoutType, t: Tree, n: Node): Cell
    requires n in Ids(t)
    decreases t
  {
    if n == t.id then RootCell(kind, t)
    else CellOf(kind, t.kids[KidOf(t, n)], n).Shift(1, KidOffset(kind, t, KidOf(t, n)))
  }

  ghost function Depth(t: Tree, n: Node): nat
    requires n in Ids(t)
    decreases t
  {
    if n == t.id then 0 else 1 + Depth(t.kids[KidOf(t, n)], n)
  }

  lemma KidOfIs(t: Tree, i: nat, n: Node)
    requires Unrepeated(t) && i < |t.kids| && n in Ids(t.kids[i])
    ensures n in KidIds(t) && KidOf(t, n) == i && n != t.id
  {
  }

  /** The cell of a node below child i is its cell in the child's tree, one row down and moved with the child. */
  lemma KidCell(kind: LayoutType, t: Tree, i: nat, n: Node)
    requires Unrepeated(t) && i < |t.kids| && n in Ids(t.kids[i])
    ensures n in Ids(t) && CellOf(kind, t, n) == CellOf(kind, t.kids[i], n).Shift(1, KidOffset(kind, t, i))
  {
    KidOfIs(t, i, n);
  }

  lemma OwnCell(kind: LayoutType, t: Tree)
    ensures t.id in Ids(t) && CellOf(kind, t, t.id) == RootCell(kind, t)
  {
  }

  lemma KidRoot(kind: LayoutType, t: Tree, i: nat)
    requires Unrepeated(t) && i < |t.kids|
    ensures t.kids[i].id in Ids(t)
    ensures CellOf(kind, t, t.kids[i].id) == RootCells(kind, t.kids)[i].Shift(1, KidOffset(kind, t, i))
  {
    OwnCell(kind, t.kids[i]);
    hide CellOf;
    KidCell(kind, t, i, t.kids[i].id);
  }

  // ---- Bounds

  /** What is known of the cell of a laid out child. */
  predicate Fits(c: Cell) {
    0 <= c.col && c.col + 2 <= c.colcount && c.row == 0 && c.rowcount >= 1
  }

  predicate FitLeaf(c: Cell) {
    c == Cell(0, 0, 1, 2)
  }

  predicate FitAll(cells: seq<Cell>, leaf: seq<bool>) {
    && |leaf| == |cells|
    && (forall i :: 0 <= i < |cells| ==> Fits(cells[i]))
    && (forall i :: 0 <= i < |cells| && leaf[i] ==> FitLeaf(cells[i]))
  }

  lemma {:induction false} TotalGrows(cells: seq<Cell>, i: nat, j: nat)
    requires i <= j <= |cells|
    requires forall k :: 0 <= k < |cells| ==> Fits(cells[k])
    ensures TotalColumns(cells, i) + 2 * (j - i) <= TotalColumns(cells, j)
    ensures i < j ==> TotalColumns(cells, i) + cells[i].colcount <= TotalColumns(cells, j)
  {
    if i < j {
      TotalGrows(cells, i, j - 1);
      if i < j - 1 {
        assert Fits(cells[j - 1]);
      }
    }
  }

  lemma ParentFits(kind: LayoutType, cells: seq<Cell>, leaf: seq<bool>)
    requires FitAll(cells, leaf)
    ensures Fits(ParentCell(kind, cells, leaf))
    ensures cells == [] ==> FitLeaf(ParentCell(kind, cells, leaf))
  {
    MaxRowsAbove(cells, |cells|);
    TotalGrows(cells, 0, |cells|);
    if |cells| == 1 {
      assert Fits(cells[0]);
      assert TotalColumns(cells, 1) == cells[0].colcount;
    } else if |cells| == 2 {
      assert Fits(cells[0]) && Fits(cells[1]);
      OffsetFits(kind, cells, leaf, 0);
      OffsetFits(kind, cells, leaf, 1);
    }
  }

  /** A child's own columns stay inside the columns of the whole. */
  lemma OffsetFits(kind: LayoutType, cells: seq<Cell>, leaf: seq<bool>, i: nat)
    requires FitAll(cells, leaf) && i < |cells|
    ensures 0 <= Offset(kind, cells, leaf, i)
    ensures Offset(kind, cells, leaf, i) + cells[i].colcount <= Columns(kind, cells, leaf)
  {
    TotalGrows(cells, 0, i);
    TotalGrows(cells, i, |cells|);
    assert Fits(cells[i]);
    if Paired(kind, cells) {
      assert Fits(cells[0]) && Fits(cells[1]);
    }
  }

  lemma {:induction false} MaxRowsAbove(cells: seq<Cell>, k: nat)
    requires k <= |cells|
    ensures 0 <= MaxRows(cells, k)
    ensures forall i :: 0 <= i < k ==> cells[i].rowcount <= MaxRows(cells, k)
    ensures MaxRows(cells, k) == 0 || exists i :: 0 <= i < k && cells[i].rowcount == MaxRows(cells, k)
  {
    if k > 0 {
      MaxRowsAbove(cells, k - 1);
    }
  }

  lemma {:induction false} RootFits(kind: LayoutType, t: Tree)
    ensures Fits(RootCell(kind, t))
    ensures t.kids == [] ==> FitLeaf(RootCell(kind, t))
    ensures FitAll(RootCells(kind, t.kids), Leaves(t.kids))
    decreases t
  {
    var cells := RootCells(kind, t.kids);
    forall i | 0 <= i < |cells| ensures Fits(cells[i]) && (Leaves(t.kids)[i] ==> FitLeaf(cells[i])) {
      RootFits(kind, t.kids[i]);
    }
    ParentFits(kind, cells, Leaves(t.kids));
  }

  /** Every node lies in the grid of its tree, two columns wide, in the row of its depth. */
  lemma {:induction false} CellInGrid(kind: LayoutType, t: Tree, n: Node)
    requires n in Ids(t)
    ensures var c, r := CellOf(kind, t, n), RootCell(kind, t);
            && 0 <= c.col && c.col + 2 <= r.colcount
            && c.row == Depth(t, n) && 0 <= c.row < r.rowcount
    decreases t
  {
    RootFits(kind, t);
    hide RootCell, RootCells, Leaves, Ids, KidIds;
    if n != t.id {
      KidOfRest(t, n);
      var i, cells := KidOf(t, n), RootCells(kind, t.kids);
      CellInGrid(kind, t.kids[i], n);
      OffsetFits(kind, cells, Leaves(t.kids), i);
      MaxRowsAbove(cells, |cells|);
      OwnRow(kind, t);
    }
  }

  lemma KidOfRest(t: Tree, n: Node)
    requires n in Ids(t) && n != t.id
    ensures n in KidIds(t)
  {
  }

  lemma TallestKid(kind: LayoutType, t: Tree) returns (i: nat)
    requires RootCell(kind, t).rowcount > 1
    ensures i < |t.kids| && RootCell(kind, t).rowcount == 1 + RootCell(kind, t.kids[i]).rowcount
  {
    var cells := RootCells(kind, t.kids);
    MaxRowsAbove(cells, |cells|);
    i :| 0 <= i < |cells| && cells[i].rowcount == MaxRows(cells, |cells|);
  }

  /** No row of the grid is empty. */
  lemma {:induction false} RowUsed(kind: LayoutType, t: Tree, row: nat) returns (n: Node)
    requires Unrepeated(t) && row < RootCell(kind, t).rowcount
    ensures n in Ids(t) && CellOf(kind, t, n).row == row
    decreases t
  {
    if row == 0 {
      n := t.id;
    } else {
      var i := TallestKid(kind, t);
      hide CellOf, RootCell, RootCells;
      n := RowUsed(kind, t.kids[i], row - 1);
      KidCell(kind, t, i, n);
    }
  }

  /** The child in a row of children that takes the column. */
  lemma {:induction false} ColumnInRow(cells: seq<Cell>, k: nat, col: nat) returns (i: nat)
    requires k <= |cells| && col < TotalColumns(cells, k)
    ensures i < k && TotalColumns(cells, i) <= col < TotalColumns(cells, i) + cells[i].colcount
  {
    if col < TotalColumns(cells, k - 1) {
      i := ColumnInRow(cells, k - 1, col);
    } else {
      i := k - 1;
    }
  }

  /** Each column of the parent is one of the columns of a child. */
  lemma ColumnTaken(kind: LayoutType, cells: seq<Cell>, leaf: seq<bool>, col: nat) returns (i: nat)
    requires FitAll(cells, leaf) && cells != [] && col < ParentCell(kind, cells, leaf).colcount
    ensures i < |cells|
    ensures Offset(kind, cells, leaf, i) <= col < Offset(kind, cells, leaf, i) + cells[i].colcount
  {
    TotalGrows(cells, 0, |cells|);
    if Paired(kind, cells) && (leaf[0] || leaf[1]) {
      assert Fits(cells[0]) && Fits(cells[1]);
      var off := Offset(kind, cells, leaf, 0);
      i := if off <= col < off + cells[0].colcount then 0 else 1;
    } else {
      i := ColumnInRow(cells, |cells|, col);
    }
  }

  /** No column of the grid is empty, so the grid is no wider than the tree on it. */
  lemma {:induction false} ColumnUsed(kind: LayoutType, t: Tree, col: nat) returns (n: Node)
    requires Unrepeated(t) && col < RootCell(kind, t).colcount
    ensures n in Ids(t) && CellOf(kind, t, n).col <= col < CellOf(kind, t, n).col + 2
    decreases t
  {
    RootFits(kind, t);
    if t.kids == [] {
      n := t.id;
    } else {
      var i := ColumnTaken(kind, RootCells(kind, t.kids), Leaves(t.kids), col);
      hide CellOf, RootCell, RootCells, Leaves;
      OwnRow(kind, t);
      n := ColumnUsed(kind, t.kids[i], col - KidOffset(kind, t, i));
      KidCell(kind, t, i, n);
    }
  }

  /** A node stands in the first column of the grid, and one in the last two. */
  lemma OuterColumnsUsed(kind: LayoutType, t: Tree) returns (first: Node, last: Node)
    requires Unrepeated(t)
    ensures first in Ids(t) && CellOf(kind, t, first).col == 0
    ensures last in Ids(t) && CellOf(kind, t, last).col + 2 == RootCell(kind, t).colcount
  {
    hide CellOf, RootCell, Ids, Unrepeated;
    RootFits(kind, t);
    first := ColumnUsed(kind, t, 0);
    last := ColumnUsed(kind, t, RootCell(kind, t).colcount - 1);
    CellInGrid(kind, t, first);
    CellInGrid(kind, t, last);
  }

  lemma RootHeight(kind: LayoutType, t: Tree)
    ensures RootCell(kind, t).row == 0 && RootCell(kind, t).rowcount == 1 + MaxRows(RootCells(kind, t.kids), |t.kids|)
  {
  }

  /** Children in a row: the parent takes all their columns and stands over the only one or over the middle. */
  lemma ParentOfRow(kind: LayoutType, t: Tree)
    requires kind == Wide || |t.kids| != 2
    ensures var cells, c := RootCells(kind, t.kids), RootCell(kind, t);
            var total := TotalColumns(cells, |cells|);
            && (total >= 2 <==> |cells| > 0)
            && (total >= 2 ==> c.colcount == total && c.col == if |cells| == 1 then cells[0].col else (total - 2) / 2)
            && (total < 2 ==> c.colcount == 2 && c.col == 0)
    ensures forall i :: 0 <= i < |t.kids| ==> KidOffset(kind, t, i) == TotalColumns(RootCells(kind, t.kids), i)
  {
    hide RootCell, RootCells, Leaves;
    RootFits(kind, t);
    OwnRow(kind, t);
    RowOf(kind, RootCells(kind, t.kids), Leaves(t.kids));
  }

  lemma OwnRow(kind: LayoutType, t: Tree)
    ensures RootCell(kind, t) == ParentCell(kind, RootCells(kind, t.kids), Leaves(t.kids))
    ensures forall i :: 0 <= i < |t.kids| ==>
              KidOffset(kind, t, i) == Offset(kind, RootCells(kind, t.kids), Leaves(t.kids), i)
  {
    hide RootCells, Leaves, ParentCell, Offset;
  }

  lemma RowOf(kind: LayoutType, cells: seq<Cell>, leaf: seq<bool>)
    requires FitAll(cells, leaf) && !Paired(kind, cells)
    ensures var total, c := TotalColumns(cells, |cells|), ParentCell(kind, cells, leaf);
            && (total >= 2 <==> |cells| > 0)
            && (total >= 2 ==> c.colcount == total && c.col == if |cells| == 1 then cells[0].col else (total - 2) / 2)
            && (total < 2 ==> c.colcount == 2 && c.col == 0)
    ensures forall i :: 0 <= i < |cells| ==> Offset(kind, cells, leaf, i) == TotalColumns(cells, i)
  {
    TotalGrows(cells, 0, |cells|);
    assert TotalColumns(cells, 0) == 0;
  }

  /** Two children as a pair: their offsets and the cell of the parent, with the leaf cases told apart. */
  lemma ParentOfPair(kind: LayoutType, t: Tree)
    requires kind != Wide && |t.kids| == 2
    ensures var cells, c := RootCells(kind, t.kids), RootCell(kind, t);
            var l, r, off0, off1 := cells[0], cells[1], KidOffset(kind, t, 0), KidOffset(kind, t, 1);
            var add := if r.col - 2 < 0 then 2 - r.col else 0;
            && (forall i :: 0 <= i < 2 ==> (Leaves(t.kids)[i] <==> t.kids[i].kids == []))
            && (Leaves(t.kids)[0] ==> l.col == 0)
            && (if Leaves(t.kids)[0] then off0 == r.col - 2 + add && off1 == add
                else if Leaves(t.kids)[1] then off0 == 0 && off1 == l.col + 2 && r.col == 0
                else off0 == 0 && off1 == l.colcount)
            && c.colcount == Max(2, PairColumns(cells, Leaves(t.kids)))
            && c.col == if kind == Medium then (l.col + off0 + r.col + off1) / 2 else (PairColumns(cells, Leaves(t.kids)) - 2) / 2
  {
    RootFits(kind, t);
    PairOf(kind, RootCells(kind, t.kids), Leaves(t.kids));
  }

  /** The pair whose left child has children. */
  lemma PairLeftFirst(kind: LayoutType, t: Tree)
    requires kind != Wide && |t.kids| == 2 && t.kids[0].kids != []
    ensures var cells := RootCells(kind, t.kids);
            var l, r, off1 := cells[0], cells[1], KidOffset(kind, t, 1);
            && KidOffset(kind, t, 0) == 0
            && (t.kids[1].kids == [] ==> off1 == l.col + 2)
            && (t.kids[1].kids != [] ==> off1 == l.colcount)
            && PairColumns(cells, Leaves(t.kids)) ==
               if t.kids[1].kids == [] then Max(l.colcount, r.col + off1 + 2) else l.colcount + r.colcount
  {
    hide RootCells, KidOffset, Leaves, RootCell;
    ParentOfPair(kind, t);
  }

  lemma PairOf(kind: LayoutType, cells: seq<Cell>, leaf: seq<bool>)
    requires kind != Wide && |cells| == 2 && FitAll(cells, leaf)
    ensures var l, r, off0, off1 := cells[0], cells[1], Offset(kind, cells, leaf, 0), Offset(kind, cells, leaf, 1);
            var add := if r.col - 2 < 0 then 2 - r.col else 0;
            && (leaf[0] ==> l.col == 0)
            && (if leaf[0] then off0 == r.col - 2 + add && off1 == add
                else if leaf[1] then off0 == 0 && off1 == l.col + 2 && r.col == 0
                else off0 == 0 && off1 == l.colcount)
            && Columns(kind, cells, leaf) == PairColumns(cells, leaf)
  {
    assert Fits(cells[0]) && Fits(cells[1]);
    assert TotalColumns(cells, 0) == 0 && TotalColumns(cells, 1) == cells[0].colcount;
    assert TotalColumns(cells, 2) == cells[0].colcount + cells[1].colcount;
  }

  function PairColumns(cells: seq<Cell>, leaf: seq<bool>): int
    requires |cells| == 2 && |leaf| == 2
  {
    if leaf[0] then cells[1].colcount + if cells[1].col - 2 < 0 then 2 - cells[1].col else 0
    else if leaf[1] then Max(cells[0].colcount, cells[0].col + 4)
    else cells[0].colcount + cells[1].colcount
  }

  // ---- Separation

  /**
   In every row, what belongs to an earlier child lies wholly to the left of what belongs to a later one.
   With two children one of which is a leaf, the leaf is tucked in beside the other child's root.
   */
  lemma SiblingsInOrder(kind: LayoutType, t: Tree, i: nat, j: nat, n: Node, m: Node)
    requires Unrepeated(t) && i < j < |t.kids| && n in Ids(t.kids[i]) && m in Ids(t.kids[j])
    requires n in Ids(t) && m in Ids(t) && CellOf(kind, t, n).row == CellOf(kind, t, m).row
    ensures CellOf(kind, t, n).col + 2 <= CellOf(kind, t, m).col
  {
    InChildGrid(kind, t, i, n);
    InChildGrid(kind, t, j, m);
    RootFits(kind, t);
    hide CellOf, RootCells, RootCell, Ids, Unrepeated;
    KidCell(kind, t, i, n);
    KidCell(kind, t, j, m);
    SideBySide(kind, RootCells(kind, t.kids), Leaves(t.kids), i, j,
               CellOf(kind, t.kids[i], n), CellOf(kind, t.kids[j], m));
  }

  /** A cell of the tree whose root cell is root. */
  predicate InTree(c: Cell, root: Cell, leaf: bool) {
    && 0 <= c.row && 0 <= c.col && c.col + 2 <= root.colcount
    && (c.row == 0 ==> c.col == root.col)
    && (leaf ==> c.row == 0)
  }

  lemma InChildGrid(kind: LayoutType, t: Tree, i: nat, n: Node)
    requires i < |t.kids| && n in Ids(t.kids[i])
    ensures InTree(CellOf(kind, t.kids[i], n), RootCells(kind, t.kids)[i], Leaves(t.kids)[i])
  {
    CellInGrid(kind, t.kids[i], n);
  }

  /** One of two children is tucked in beside the other. */
  predicate Tucked(kind: LayoutType, t: Tree) {
    kind != Wide && |t.kids| == 2 && (t.kids[0].kids == [] || t.kids[1].kids == [])
  }

  /** The two children stand right beside each other then, whatever hangs below the other one. */
  lemma TuckedBeside(kind: LayoutType, t: Tree)
    requires Unrepeated(t) && Tucked(kind, t)
    ensures t.kids[0].id in Ids(t) && t.kids[1].id in Ids(t)
    ensures CellOf(kind, t, t.kids[1].id).col == CellOf(kind, t, t.kids[0].id).col + 2
  {
    hide CellOf, Unrepeated, Ids, RootCell, RootCells, KidOffset, Leaves;
    KidRoot(kind, t, 0);
    KidRoot(kind, t, 1);
    ParentOfPair(kind, t);
  }

  /** Otherwise all of an earlier child lies wholly to the left of all of a later one, in whatever rows. */
  lemma WhollyInOrder(kind: LayoutType, t: Tree, i: nat, j: nat, n: Node, m: Node)
    requires Unrepeated(t) && !Tucked(kind, t)
    requires i < j < |t.kids| && n in Ids(t.kids[i]) && m in Ids(t.kids[j])
    ensures n in Ids(t) && m in Ids(t) && CellOf(kind, t, n).col + 2 <= CellOf(kind, t, m).col
  {
    hide CellOf, RootCells, RootCell, Ids, Unrepeated, Leaves, Tucked, InTree;
    InChildGrid(kind, t, i, n);
    InChildGrid(kind, t, j, m);
    RootFits(kind, t);
    KidCell(kind, t, i, n);
    KidCell(kind, t, j, m);
    NoneTucked(kind, t);
    WhollyBeside(kind, RootCells(kind, t.kids), Leaves(t.kids), i, j,
                 CellOf(kind, t.kids[i], n), CellOf(kind, t.kids[j], m));
  }

  lemma NoneTucked(kind: LayoutType, t: Tree)
    requires !Tucked(kind, t)
    ensures |Leaves(t.kids)| == |t.kids|
    ensures kind != Wide && |t.kids| == 2 ==> !Leaves(t.kids)[0] && !Leaves(t.kids)[1]
  {
  }

  lemma WhollyBeside(kind: LayoutType, cells: seq<Cell>, leaf: seq<bool>, i: nat, j: nat, a: Cell, b: Cell)
    requires FitAll(cells, leaf) && i < j < |cells| && (Paired(kind, cells) ==> !leaf[0] && !leaf[1])
    requires InTree(a, cells[i], leaf[i]) && InTree(b, cells[j], leaf[j])
    ensures a.col + Offset(kind, cells, leaf, i) + 2 <= b.col + Offset(kind, cells, leaf, j)
  {
    TotalGrows(cells, i, j);
  }

  lemma SideBySide(kind: LayoutType, cells: seq<Cell>, leaf: seq<bool>, i: nat, j: nat, a: Cell, b: Cell)
    requires FitAll(cells, leaf) && i < j < |cells| && a.row == b.row
    requires InTree(a, cells[i], leaf[i]) && InTree(b, cells[j], leaf[j])
    ensures a.col + Offset(kind, cells, leaf, i) + 2 <= b.col + Offset(kind, cells, leaf, j)
  {
    assert Fits(cells[i]) && Fits(cells[j]);
    if !Paired(kind, cells) || (!leaf[0] && !leaf[1]) {
      TotalGrows(cells, i, j);
    }
  }

  /** Two nodes in the same row are at least two columns apart: the two-column cells never overlap. */
  lemma {:induction false} Separated(kind: LayoutType, t: Tree, n: Node, m: Node)
    requires Unrepeated(t) && n in Ids(t) && m in Ids(t) && n != m
    requires CellOf(kind, t, n).row == CellOf(kind, t, m).row
    ensures CellOf(kind, t, n).col + 2 <= CellOf(kind, t, m).col || CellOf(kind, t, m).col + 2 <= CellOf(kind, t, n).col
    decreases t
  {
    hide CellOf, Ids, KidIds, Unrepeated, RootCell;
    BelowRoot(kind, t, n, m);
    var i, j := KidOf(t, n), KidOf(t, m);
    if i < j {
      SiblingsInOrder(kind, t, i, j, n, m);
    } else if j < i {
      SiblingsInOrder(kind, t, j, i, m, n);
    } else {
      MovedAlike(kind, t, i, n, m);
      Separated(kind, t.kids[i], n, m);
    }
  }

  /** Different nodes in the same row are both below the root. */
  lemma BelowRoot(kind: LayoutType, t: Tree, n: Node, m: Node)
    requires n in Ids(t) && m in Ids(t) && n != m && CellOf(kind, t, n).row == CellOf(kind, t, m).row
    ensures n in KidIds(t) && m in KidIds(t)
  {
    hide CellOf;
    CellInGrid(kind, t, n);
    CellInGrid(kind, t, m);
  }

  /** Nodes below the same child are moved together. */
  lemma MovedAlike(kind: LayoutType, t: Tree, i: nat, n: Node, m: Node)
    requires Unrepeated(t) && i < |t.kids| && n in Ids(t.kids[i]) && m in Ids(t.kids[i])
    ensures Unrepeated(t.kids[i]) && n in Ids(t) && m in Ids(t)
    ensures CellOf(kind, t, n).row - CellOf(kind, t, m).row
            == CellOf(kind, t.kids[i], n).row - CellOf(kind, t.kids[i], m).row
    ensures CellOf(kind, t, n).col - CellOf(kind, t, m).col
            == CellOf(kind, t.kids[i], n).col - CellOf(kind, t.kids[i], m).col
  {
    hide CellOf, Ids, KidOffset;
    KidCell(kind, t, i, n);
    KidCell(kind, t, i, m);
  }

  // ---- Centring

  /** A single child stands exactly below its parent. */
  lemma OnlyChildBelow(kind: LayoutType, t: Tree)
    requires Unrepeated(t) && |t.kids| == 1
    ensures t.kids[0].id in Ids(t) && CellOf(kind, t, t.kids[0].id).col == CellOf(kind, t, t.id).col
  {
    KidOfIs(t, 0, t.kids[0].id);
    assert TotalColumns(RootCells(kind, t.kids), 0) == 0;
  }

  /** In the medium layout a parent of two stands halfway between its children. */
  lemma MediumHalfway(t: Tree)
    requires Unrepeated(t) && |t.kids| == 2
    ensures t.kids[0].id in Ids(t) && t.kids[1].id in Ids(t)
    ensures CellOf(Medium, t, t.id).col ==
            (CellOf(Medium, t, t.kids[0].id).col + CellOf(Medium, t, t.kids[1].id).col) / 2
  {
    hide CellOf, Unrepeated, Ids, RootCell, RootCells, KidOffset, Leaves;
    OwnCell(Medium, t);
    KidRoot(Medium, t, 0);
    KidRoot(Medium, t, 1);
    OwnRow(Medium, t);
  }

  /** Otherwise a parent of several stands in the middle of the columns of its tree. */
  lemma CentredOverColumns(kind: LayoutType, t: Tree)
    requires |t.kids| >= 2 && (kind != Medium || |t.kids| > 2)
    ensures var c := RootCell(kind, t); 2 * c.col + 2 == c.colcount || 2 * c.col + 3 == c.colcount
  {
    RootFits(kind, t);
    var cells := RootCells(kind, t.kids);
    TotalGrows(cells, 0, |cells|);
    OffsetFits(kind, cells, Leaves(t.kids), 1);
    assert Fits(cells[1]);
  }
}
