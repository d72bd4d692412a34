/** The tree that the newoutgoing lists of the blocks describe, and the blocks once it has been laid out. */
module BlockTree {
  import opened LayoutGraph
  import opened SpanningTree
  import opened TreeLayout

  /** The newoutgoing lists, followed from the block of t.id, spell out t. */
  ghost predicate Matches(blocks: Blocks, t: Tree)
    decreases t
  {
    && t.id in blocks
    && |blocks[t.id].newoutgoing| == |t.kids|
    && (forall i :: 0 <= i < |t.kids| ==> blocks[t.id].newoutgoing[i] == t.kids[i].id && Matches(blocks, t.kids[i]))
  }

  lemma MatchesHasIds(blocks: Blocks, t: Tree, n: Node)
    requires Matches(blocks, t) && n in Ids(t)
    ensures n in blocks
  {
    if n != t.id {
      MatchesHasIds(blocks, t.kids[KidOf(t, n)], n);
    }
  }

  lemma {:induction false} KeepsMatch(before: Blocks, after: Blocks, t: Tree)
    requires SameTree(before, after) && Matches(before, t)
    ensures Matches(after, t)
    decreases t
  {
    forall i | 0 <= i < |t.kids|
      ensures after[t.id].newoutgoing[i] == t.kids[i].id && Matches(after, t.kids[i])
    {
      KeepsMatch(before, after, t.kids[i]);
    }
  }

  // ---- From the parents-first list to the tree

  lemma ChildComesLater(g: Graph, blocks: Blocks, parent: map<Node, Node>, order: seq<Node>, c: Node)
    requires Grown(g, blocks, parent, order) && c in parent
    ensures c in order && parent[c] in order && parent[c] in blocks && g.HasEdge(parent[c], c)
    ensures IndexOf(order, parent[c]) < IndexOf(order, c)
  {
    var j := IndexOf(order, c);
    assert HangsBefore(g, parent, order, j);
    var i :| 0 <= i < j && order[..j][i] == parent[c];
    assert order[i] == parent[c];
    assert IndexOf(order, parent[c]) == i;
  }

  ghost function BuildTree(g: Graph, blocks: Blocks, parent: map<Node, Node>, order: seq<Node>, n: Node): (t: Tree)
    requires Grown(g, blocks, parent, order) && n in order
    ensures t.id == n && |t.kids| == |blocks[n].newoutgoing|
    decreases |order| - IndexOf(order, n)
  {
    Tree(n, seq(|blocks[n].newoutgoing|, i requires 0 <= i < |blocks[n].newoutgoing| =>
      var c := blocks[n].newoutgoing[i];
      assert c in parent && parent[c] == n;
      ChildComesLater(g, blocks, parent, order, c);
      BuildTree(g, blocks, parent, order, c)))
  }

  lemma BuiltKid(g: Graph, blocks: Blocks, parent: map<Node, Node>, order: seq<Node>, n: Node, i: nat)
    requires Grown(g, blocks, parent, order) && n in order && i < |blocks[n].newoutgoing|
    ensures var c := blocks[n].newoutgoing[i];
            && c in parent && parent[c] == n && c in order && IndexOf(order, n) < IndexOf(order, c)
            && BuildTree(g, blocks, parent, order, n).kids[i] == BuildTree(g, blocks, parent, order, c)
  {
    var c := blocks[n].newoutgoing[i];
    assert c in parent && parent[c] == n;
    ChildComesLater(g, blocks, parent, order, c);
  }

  lemma {:induction false} BuiltMatches(g: Graph, blocks: Blocks, parent: map<Node, Node>, order: seq<Node>, n: Node)
    requires Grown(g, blocks, parent, order) && n in order
    ensures Matches(blocks, BuildTree(g, blocks, parent, order, n))
    decreases |order| - IndexOf(order, n)
  {
    var t := BuildTree(g, blocks, parent, order, n);
    forall i | 0 <= i < |t.kids|
      ensures blocks[n].newoutgoing[i] == t.kids[i].id && Matches(blocks, t.kids[i])
    {
      BuiltKid(g, blocks, parent, order, n, i);
      BuiltMatches(g, blocks, parent, order, blocks[n].newoutgoing[i]);
    }
  }

  /** A node below n is listed after n, and its parent is below n too. */
  lemma {:induction false} BuiltIds(
    g: Graph, blocks: Blocks, parent: map<Node, Node>, order: seq<Node>, n: Node, m: Node)
    requires Grown(g, blocks, parent, order) && n in order
    requires m in Ids(BuildTree(g, blocks, parent, order, n)) && m != n
    ensures m in order && IndexOf(order, n) < IndexOf(order, m)
    ensures m in parent && parent[m] in Ids(BuildTree(g, blocks, parent, order, n))
    decreases |order| - IndexOf(order, n)
  {
    var t := BuildTree(g, blocks, parent, order, n);
    var i := KidOf(t, m);
    BuiltKid(g, blocks, parent, order, n, i);
    if m != t.kids[i].id {
      BuiltIds(g, blocks, parent, order, t.kids[i].id, m);
    }
  }

  lemma {:induction false} BuiltHasChildren(
    g: Graph, blocks: Blocks, parent: map<Node, Node>, order: seq<Node>, n: Node, m: Node)
    requires Grown(g, blocks, parent, order) && n in order
    requires m in parent && parent[m] in Ids(BuildTree(g, blocks, parent, order, n))
    ensures m in Ids(BuildTree(g, blocks, parent, order, n))
    decreases |order| - IndexOf(order, n)
  {
    var t := BuildTree(g, blocks, parent, order, n);
    if parent[m] == n {
      assert m in blocks[n].newoutgoing;
      var i :| 0 <= i < |blocks[n].newoutgoing| && blocks[n].newoutgoing[i] == m;
      BuiltKid(g, blocks, parent, order, n, i);
      assert m == t.kids[i].id && m in Ids(t.kids[i]);
    } else {
      var i := KidOf(t, parent[m]);
      BuiltKid(g, blocks, parent, order, n, i);
      BuiltHasChildren(g, blocks, parent, order, t.kids[i].id, m);
    }
  }

  /** No node is below two different children of the same parent. */
  lemma {:induction false} BuiltApart(
    g: Graph, blocks: Blocks, parent: map<Node, Node>, order: seq<Node>, a: Node, b: Node, m: Node)
    requires Grown(g, blocks, parent, order)
    requires a in parent && b in parent && parent[a] == parent[b] && a != b && a in order && b in order
    requires m in Ids(BuildTree(g, blocks, parent, order, a)) && m in Ids(BuildTree(g, blocks, parent, order, b))
    ensures false
    decreases if m in order then IndexOf(order, m) else 0
  {
    ChildComesLater(g, blocks, parent, order, a);
    ChildComesLater(g, blocks, parent, order, b);
    var p := parent[a];
    if m == a {
      BuiltIds(g, blocks, parent, order, b, m);
      if p != b {
        BuiltIds(g, blocks, parent, order, b, p);
      }
    } else if m == b {
      BuiltIds(g, blocks, parent, order, a, m);
      if p != a {
        BuiltIds(g, blocks, parent, order, a, p);
      }
    } else {
      BuiltIds(g, blocks, parent, order, a, m);
      BuiltIds(g, blocks, parent, order, b, m);
      ChildComesLater(g, blocks, parent, order, m);
      BuiltApart(g, blocks, parent, order, a, b, parent[m]);
    }
  }

  lemma {:induction false} BuiltUnrepeated(
    g: Graph, blocks: Blocks, parent: map<Node, Node>, order: seq<Node>, n: Node)
    requires Grown(g, blocks, parent, order) && n in order
    ensures Unrepeated(BuildTree(g, blocks, parent, order, n))
    decreases |order| - IndexOf(order, n)
  {
    var t := BuildTree(g, blocks, parent, order, n);
    var kids := blocks[n].newoutgoing;
    forall i | 0 <= i < |t.kids|
      ensures Unrepeated(t.kids[i]) && n !in Ids(t.kids[i])
    {
      BuiltKid(g, blocks, parent, order, n, i);
      BuiltUnrepeated(g, blocks, parent, order, kids[i]);
      if n in Ids(t.kids[i]) {
        BuiltIds(g, blocks, parent, order, kids[i], n);
      }
    }
    forall i, j | 0 <= i < j < |t.kids|
      ensures Ids(t.kids[i]) !! Ids(t.kids[j])
    {
      BuiltKid(g, blocks, parent, order, n, i);
      BuiltKid(g, blocks, parent, order, n, j);
      forall m | m in Ids(t.kids[i]) && m in Ids(t.kids[j]) ensures false {
        BuiltApart(g, blocks, parent, order, kids[i], kids[j], m);
      }
    }
  }

  lemma {:induction false} BuiltFromRoot(
    g: Graph, blocks: Blocks, parent: map<Node, Node>, order: seq<Node>, m: Node)
    requires Grown(g, blocks, parent, order) && m in order
    ensures g.root in order && m in Ids(BuildTree(g, blocks, parent, order, g.root))
    decreases IndexOf(order, m)
  {
    assert order[0] in order;
    if m != g.root {
      ChildComesLater(g, blocks, parent, order, m);
      BuiltFromRoot(g, blocks, parent, order, parent[m]);
      BuiltHasChildren(g, blocks, parent, order, g.root, m);
    }
  }

  /** Every child hangs below its parent by an edge of the graph. */
  ghost predicate RealEdges(g: Graph, blocks: Blocks) {
    forall p, c :: p in blocks && c in blocks[p].newoutgoing ==> g.HasEdge(p, c)
  }

  lemma RealEdgesStay(g: Graph, before: Blocks, after: Blocks)
    requires RealEdges(g, before) && SameTree(before, after)
    ensures RealEdges(g, after)
  {
  }

  lemma ChildrenByEdges(g: Graph, blocks: Blocks, parent: map<Node, Node>, order: seq<Node>)
    requires Grown(g, blocks, parent, order)
    ensures RealEdges(g, blocks)
  {
    forall p, c | p in blocks && c in blocks[p].newoutgoing ensures g.HasEdge(p, c) {
      ChildComesLater(g, blocks, parent, order, c);
    }
  }

  lemma OrderIsInBlocks(g: Graph, blocks: Blocks, parent: map<Node, Node>, order: seq<Node>)
    requires Grown(g, blocks, parent, order)
    ensures forall n <- order :: n in blocks
  {
  }

  /** The spanning tree: it has exactly the listed nodes, each once, and its shape is the one in the blocks. */
  lemma TreeOfBlocks(g: Graph, blocks: Blocks, parent: map<Node, Node>, order: seq<Node>) returns (t: Tree)
    requires Grown(g, blocks, parent, order)
    ensures t.id == g.root && Matches(blocks, t) && Unrepeated(t)
    ensures forall n :: n in Ids(t) <==> n in order
  {
    assert order[0] in order;
    t := BuildTree(g, blocks, parent, order, g.root);
    BuiltMatches(g, blocks, parent, order, g.root);
    BuiltUnrepeated(g, blocks, parent, order, g.root);
    forall n ensures n in Ids(t) <==> n in order {
      if n in order {
        BuiltFromRoot(g, blocks, parent, order, n);
      } else if n in Ids(t) {
        BuiltIds(g, blocks, parent, order, g.root, n);
      }
    }
  }

  // ---- Blocks moved and blocks placed

  function Moved(b: LLBlock, dcol: int, drow: int): LLBlock {
    b.(col := b.col + dcol, row := b.row + drow)
  }

  /** The blocks with those of ids moved. */
  ghost function MoveIds(blocks: Blocks, ids: set<Node>, dcol: int, drow: int): Blocks {
    map n | n in blocks :: if n in ids then Moved(blocks[n], dcol, drow) else blocks[n]
  }

  function Put(b: LLBlock, c: Cell): LLBlock {
    b.(row := c.row, col := c.col, rowcount := c.rowcount, colcount := c.colcount)
  }

  /** The blocks with those of t placed where the layout of t puts them. */
  ghost function Placed(kind: LayoutType, blocks: Blocks, t: Tree): Blocks {
    map n | n in blocks :: if n in Ids(t) then Put(blocks[n], CellOf(kind, t, n)) else blocks[n]
  }

  /** The first k subtrees of t placed, each relative to its own root. */
  ghost function KidsPlaced(kind: LayoutType, blocks: Blocks, t: Tree, k: nat): Blocks
    requires k <= |t.kids|
  {
    map n | n in blocks ::
      if n in KidIds(t) && KidOf(t, n) < k then Put(blocks[n], CellOf(kind, t.kids[KidOf(t, n)], n)) else blocks[n]
  }

  /** All subtrees of t placed, and the first k of them moved to where they belong in t. */
  ghost function KidsMoved(kind: LayoutType, blocks: Blocks, t: Tree, k: nat): Blocks
    requires k <= |t.kids|
  {
    map n | n in blocks ::
      if n !in KidIds(t) then blocks[n]
      else
        var c := CellOf(kind, t.kids[KidOf(t, n)], n);
        Put(blocks[n], if KidOf(t, n) < k then c.Shift(1, KidOffset(kind, t, KidOf(t, n))) else c)
  }

  lemma BelowKid(t: Tree, k: nat, n: Node)
    requires Unrepeated(t) && k < |t.kids|
    ensures n in Ids(t.kids[k]) <==> n in KidIds(t) && KidOf(t, n) == k
  {
    if n in Ids(t.kids[k]) {
      KidOfIs(t, k, n);
    }
  }

  lemma KidsPlacedNext(kind: LayoutType, blocks: Blocks, t: Tree, k: nat)
    requires Unrepeated(t) && k < |t.kids|
    ensures KidsPlaced(kind, blocks, t, k + 1) == Placed(kind, KidsPlaced(kind, blocks, t, k), t.kids[k])
  {
    hide Ids, KidIds, CellOf, Unrepeated;
    var before, after := KidsPlaced(kind, blocks, t, k), KidsPlaced(kind, blocks, t, k + 1);
    forall n | n in blocks ensures after[n] == Placed(kind, before, t.kids[k])[n] {
      BelowKid(t, k, n);
    }
  }

  lemma KidsMovedNext(kind: LayoutType, blocks: Blocks, t: Tree, k: nat)
    requires Unrepeated(t) && k < |t.kids|
    ensures KidsMoved(kind, blocks, t, k + 1) ==
            MoveIds(KidsMoved(kind, blocks, t, k), Ids(t.kids[k]), KidOffset(kind, t, k), 1)
  {
    hide Ids, KidIds, CellOf, Unrepeated, KidOffset;
    var before, after := KidsMoved(kind, blocks, t, k), KidsMoved(kind, blocks, t, k + 1);
    forall n | n in blocks
      ensures after[n] == MoveIds(before, Ids(t.kids[k]), KidOffset(kind, t, k), 1)[n]
    {
      BelowKid(t, k, n);
    }
  }

  lemma StartKids(kind: LayoutType, blocks: Blocks, t: Tree)
    ensures KidsPlaced(kind, blocks, t, 0) == blocks
    ensures KidsMoved(kind, blocks, t, 0) == KidsPlaced(kind, blocks, t, |t.kids|)
  {
  }

  lemma KidsKeepTree(kind: LayoutType, blocks: Blocks, t: Tree, k: nat)
    requires k <= |t.kids|
    ensures SameTree(blocks, KidsPlaced(kind, blocks, t, k))
    ensures SameTree(blocks, KidsMoved(kind, blocks, t, k))
  {
  }

  lemma KidsKeepMatch(kind: LayoutType, blocks: Blocks, t: Tree, k: nat, i: nat)
    requires Matches(blocks, t) && k <= |t.kids| && i < |t.kids|
    ensures Matches(KidsPlaced(kind, blocks, t, k), t.kids[i])
    ensures Matches(KidsMoved(kind, blocks, t, k), t.kids[i])
  {
    assert Matches(blocks, t.kids[i]);
    KidsKeepTree(kind, blocks, t, k);
    hide Matches, KidsPlaced, KidsMoved;
    KeepsMatch(blocks, KidsPlaced(kind, blocks, t, k), t.kids[i]);
    KeepsMatch(blocks, KidsMoved(kind, blocks, t, k), t.kids[i]);
  }

  /** The root of a subtree, once the subtree is placed and once it is moved. */
  lemma KidBlock(kind: LayoutType, blocks: Blocks, t: Tree, i: nat, k: nat)
    requires Unrepeated(t) && Matches(blocks, t) && i < |t.kids| && k <= |t.kids|
    ensures t.kids[i].id in blocks
    ensures t.kids[i].id in KidsPlaced(kind, blocks, t, k) && t.kids[i].id in KidsMoved(kind, blocks, t, k)
    ensures i < k ==>
              var b, c := KidsPlaced(kind, blocks, t, k)[t.kids[i].id], RootCells(kind, t.kids)[i];
              b.col == c.col && b.rowcount == c.rowcount
    ensures var b, c := KidsMoved(kind, blocks, t, k)[t.kids[i].id], RootCells(kind, t.kids)[i];
            && b.col == c.col + (if i < k then KidOffset(kind, t, i) else 0)
            && b.colcount == c.colcount
            && (b.newoutgoing == [] <==> t.kids[i].kids == [])
  {
    hide CellOf, Ids, KidIds, Unrepeated, KidOffset, RootCell, Matches;
    OwnCell(kind, t.kids[i]);
    KidOfIs(t, i, t.kids[i].id);
    MatchesKids(blocks, t);
  }

  ghost predicate KidPlacement(kind: LayoutType, t: Tree, n: Node)
    requires n in Ids(t)
  {
    n in KidIds(t) ==>
      CellOf(kind, t, n) == CellOf(kind, t.kids[KidOf(t, n)], n).Shift(1, KidOffset(kind, t, KidOf(t, n)))
  }

  lemma RootAndKids(kind: LayoutType, t: Tree)
    requires Unrepeated(t)
    ensures Ids(t) == {t.id} + KidIds(t) && t.id !in KidIds(t)
    ensures CellOf(kind, t, t.id) == RootCell(kind, t)
    ensures forall n :: n in Ids(t) ==> KidPlacement(kind, t, n)
  {
    OwnCell(kind, t);
    forall n | n in KidIds(t) ensures n in Ids(t) && KidPlacement(kind, t, n) {
      KidCell(kind, t, KidOf(t, n), n);
    }
  }

  lemma MoveTwice(blocks: Blocks, a: set<Node>, b: set<Node>, x: int, y: int, z: int)
    requires a !! b
    ensures MoveIds(MoveIds(MoveIds(blocks, a, x, 0), b, y, 1), a, z, 1) ==
            MoveIds(MoveIds(blocks, a, x + z, 1), b, y, 1)
  {
  }

  /**
   A pair whose left child is a leaf: placing the leaf anew and then moving right and left is moving left and
   right.
   */
  lemma MovePairWithLeaf(kind: LayoutType, blocks: Blocks, t: Tree, col: int, add: int)
    requires Matches(blocks, t) && Unrepeated(t) && |t.kids| == 2 && t.kids[0].kids == []
    requires RootCells(kind, t.kids)[0].col == 0
    requires KidOffset(kind, t, 0) == col + add && KidOffset(kind, t, 1) == add
    ensures var b0, l := KidsMoved(kind, blocks, t, 0), t.kids[0].id;
            && l in b0
            && b0[l := b0[l].(col := col)] == MoveIds(b0, Ids(t.kids[0]), col, 0)
            && MoveIds(MoveIds(b0[l := b0[l].(col := col)], Ids(t.kids[1]), add, 1), Ids(t.kids[0]), add, 1)
               == KidsMoved(kind, blocks, t, 2)
  {
    hide Ids, Matches, Unrepeated, KidsMoved, KidOffset, RootCells, RootCell, MoveIds;
    var b0, l := KidsMoved(kind, blocks, t, 0), t.kids[0].id;
    LeafIds(t.kids[0]);
    SiblingIds(t, 0, 1);
    KidsMovedNext(kind, blocks, t, 0);
    KidsMovedNext(kind, blocks, t, 1);
    KidBlock(kind, blocks, t, 0, 0);
    MoveOne(b0, l, col);
    MoveTwice(b0, Ids(t.kids[0]), Ids(t.kids[1]), col, add, add);
  }

  lemma MoveKeepsTree(blocks: Blocks, ids: set<Node>, dcol: int, drow: int)
    ensures SameTree(blocks, MoveIds(blocks, ids, dcol, drow))
  {
  }

  lemma TuckedMatch(kind: LayoutType, before: Blocks, t: Tree, col: int, add: int)
    requires Matches(before, t) && Unrepeated(t) && |t.kids| == 2
    ensures var tucked := MoveIds(KidsMoved(kind, before, t, 0), Ids(t.kids[0]), col, 0);
            && Matches(tucked, t.kids[1])
            && Matches(MoveIds(tucked, Ids(t.kids[1]), add, 1), t.kids[0])
  {
    hide Matches, KidsMoved, Ids, MoveIds;
    var placed := KidsMoved(kind, before, t, 0);
    var tucked := MoveIds(placed, Ids(t.kids[0]), col, 0);
    var moved := MoveIds(tucked, Ids(t.kids[1]), add, 1);
    MoveKeepsTree(placed, Ids(t.kids[0]), col, 0);
    MoveKeepsTree(tucked, Ids(t.kids[1]), add, 1);
    KidsKeepMatch(kind, before, t, 0, 0);
    KidsKeepMatch(kind, before, t, 0, 1);
    KeepsMatch(placed, tucked, t.kids[1]);
    KeepsMatch(placed, moved, t.kids[0]);
  }

  lemma MoveOne(blocks: Blocks, n: Node, col: int)
    requires n in blocks && blocks[n].col == 0
    ensures blocks[n := blocks[n].(col := col)] == MoveIds(blocks, {n}, col, 0)
  {
  }

  lemma SiblingIds(t: Tree, i: nat, j: nat)
    requires Unrepeated(t) && i < j < |t.kids|
    ensures Ids(t.kids[i]) !! Ids(t.kids[j])
  {
  }

  lemma LeafIds(t: Tree)
    requires t.kids == []
    ensures Ids(t) == {t.id}
  {
  }

  /** With the subtrees in place only the root is left to be placed. */
  lemma PlaceRoot(kind: LayoutType, blocks: Blocks, t: Tree)
    requires Unrepeated(t) && t.id in blocks
    ensures KidsMoved(kind, blocks, t, |t.kids|)[t.id := Put(blocks[t.id], RootCell(kind, t))] == Placed(kind, blocks, t)
    ensures t.id in KidsMoved(kind, blocks, t, |t.kids|)
    ensures KidsMoved(kind, blocks, t, |t.kids|)[t.id] == blocks[t.id]
    ensures RootCell(kind, t).row == 0 && RootCell(kind, t).rowcount == 1 + MaxRows(RootCells(kind, t.kids), |t.kids|)
  {
    hide CellOf, Unrepeated, Ids, KidIds, RootCell, KidOffset;
    RootHeight(kind, t);
    RootAndKids(kind, t);
    var moved := KidsMoved(kind, blocks, t, |t.kids|);
    forall n | n in blocks
      ensures moved[t.id := Put(blocks[t.id], RootCell(kind, t))][n] == Placed(kind, blocks, t)[n]
    {
      assert n in Ids(t) ==> KidPlacement(kind, t, n);
    }
  }

  /** What the blocks of a matching tree say about its root and its children. */
  lemma MatchesKids(blocks: Blocks, t: Tree)
    requires Matches(blocks, t) && Unrepeated(t)
    ensures t.id in blocks && |blocks[t.id].newoutgoing| == |t.kids|
    ensures forall i :: 0 <= i < |t.kids| ==>
              blocks[t.id].newoutgoing[i] == t.kids[i].id && t.kids[i].id in blocks && Unrepeated(t.kids[i])
    ensures forall i :: 0 <= i < |t.kids| && blocks[t.kids[i].id].newoutgoing == [] <==>
              0 <= i < |t.kids| && t.kids[i].kids == []
  {
    forall i | 0 <= i < |t.kids| ensures t.kids[i].id in blocks {
      assert Matches(blocks, t.kids[i]);
    }
  }

  // ---- The ids of a tree, collected child by child

  ghost function IdsUpTo(t: Tree, k: nat): set<Node>
    requires k <= |t.kids|
  {
    {t.id} + set i, n | 0 <= i < k && n in Ids(t.kids[i]) :: n
  }

  lemma IdsUpToNext(t: Tree, k: nat)
    requires Unrepeated(t) && k < |t.kids|
    ensures IdsUpTo(t, k + 1) == IdsUpTo(t, k) + Ids(t.kids[k])
    ensures IdsUpTo(t, k) !! Ids(t.kids[k])
  {
    hide Ids, Unrepeated, KidIds;
    forall n | n in Ids(t.kids[k]) ensures n !in IdsUpTo(t, k) {
      KidOfIs(t, k, n);
      forall i | 0 <= i < k && n in Ids(t.kids[i]) ensures false {
        SiblingIds(t, i, k);
      }
    }
  }

  lemma MoveStart(blocks: Blocks, t: Tree, dcol: int, drow: int)
    requires t.id in blocks
    ensures blocks[t.id := Moved(blocks[t.id], dcol, drow)] == MoveIds(blocks, IdsUpTo(t, 0), dcol, drow)
    ensures IdsUpTo(t, |t.kids|) == Ids(t)
  {
    assert IdsUpTo(t, 0) == {t.id};
    assert Ids(t) == {t.id} + KidIds(t);
  }

  lemma MoveNext(blocks: Blocks, t: Tree, k: nat, dcol: int, drow: int)
    requires Matches(blocks, t) && Unrepeated(t) && k < |t.kids|
    ensures MoveIds(blocks, IdsUpTo(t, k + 1), dcol, drow) ==
            MoveIds(MoveIds(blocks, IdsUpTo(t, k), dcol, drow), Ids(t.kids[k]), dcol, drow)
    ensures Matches(MoveIds(blocks, IdsUpTo(t, k), dcol, drow), t.kids[k])
  {
    IdsUpToNext(t, k);
    assert Matches(blocks, t.kids[k]);
    hide IdsUpTo, Ids, Unrepeated, Matches;
    KeepsMatch(blocks, MoveIds(blocks, IdsUpTo(t, k), dcol, drow), t.kids[k]);
  }
}
