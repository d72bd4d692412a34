/** The directed graph handed to the layered layout, and the blocks the layout keeps about its nodes. */
module LayoutGraph {

  // Node ids are handed out starting at 1; 0 stands for "no node".
  type Node = nat

  datatype Edge = Edge(source: Node, target: Node)

  datatype Graph = Graph(nodes: seq<Node>, edges: seq<Edge>, root: Node) {
    /** Ids are positive and distinct, edges are distinct and join nodes, and the root is unset or a node. */
    ghost predicate Valid() {
      && Distinct(nodes)
      && Distinct(edges)
      && 0 !in nodes
      && (forall e <- edges :: e.source in nodes && e.target in nodes)
      && (root == 0 || root in nodes)
    }

    ghost function NodeSet(): set<Node> {
      set n <- nodes
    }

    ghost predicate HasEdge(source: Node, target: Node) {
      Edge(source, target) in edges
    }

    /** A path of real edges that starts at the root. */
    ghost predicate RootPath(p: seq<Node>) {
      && |p| > 0
      && p[0] == root
      && forall i :: 0 < i < |p| ==> HasEdge(p[i - 1], p[i])
    }

    ghost predicate Reachable(n: Node) {
      exists p :: RootPath(p) && p[|p| - 1] == n
    }

    /** The edges leaving a node, in the order in which they were pushed. */
    method Outgoing(n: Node) returns (out: seq<Edge>)
      ensures out == OutgoingOf(edges, n)
    {
      out := [];
      for i := 0 to |edges|
        invariant out == OutgoingOf(edges[..i], n)
      {
        assert edges[..i + 1][..i] == edges[..i];
        if edges[i].source == n {
          out := out + [edges[i]];
        }
      }
      assert edges[..|edges|] == edges;
    }
  }

  ghost predicate Distinct<T(!new)>(s: seq<T>) {
    forall i, j :: 0 <= i < j < |s| ==> s[i] != s[j]
  }

  /** Walking through a list of distinct items: the next one is new. */
  lemma NextItem<T(!new)>(s: seq<T>, i: nat)
    requires Distinct(s) && i < |s|
    ensures s[i] in s && s[i] !in s[..i] && s[..i + 1] == s[..i] + [s[i]]
  {
  }

  /** a stands somewhere before b. */
  ghost predicate Before<T(!new)>(s: seq<T>, a: T, b: T) {
    exists i, j :: 0 <= i < j < |s| && s[i] == a && s[j] == b
  }

  lemma BeforeStays<T(!new)>(s: seq<T>, t: seq<T>)
    ensures forall a, b :: Before(s, a, b) ==> Before(s + t, a, b)
  {
    forall a, b | Before(s, a, b) ensures Before(s + t, a, b) {
      var i, j :| 0 <= i < j < |s| && s[i] == a && s[j] == b;
      assert (s + t)[i] == a && (s + t)[j] == b;
    }
  }

  lemma BeforeLast<T(!new)>(s: seq<T>, b: T)
    ensures forall a <- s :: Before(s + [b], a, b)
  {
    forall a | a in s ensures Before(s + [b], a, b) {
      var i :| 0 <= i < |s| && s[i] == a;
      assert (s + [b])[i] == a && (s + [b])[|s|] == b;
    }
  }

  function OutgoingOf(es: seq<Edge>, n: Node): seq<Edge> {
    if es == [] then [] else
      var last := es[|es| - 1];
      OutgoingOf(es[..|es| - 1], n) + if last.source == n then [last] else []
  }

  lemma {:induction false} OutgoingEdges(es: seq<Edge>, n: Node)
    ensures forall e :: e in OutgoingOf(es, n) <==> e in es && e.source == n
    ensures Distinct(es) ==> Distinct(OutgoingOf(es, n))
    ensures OutgoingOf(es, n)[..|OutgoingOf(es, n)|] == OutgoingOf(es, n)
  {
    if es != [] {
      var init, last := es[..|es| - 1], es[|es| - 1];
      OutgoingEdges(init, n);
      assert es == init + [last];
    }
  }

  /** The edges out of a node keep the order in which all edges were pushed. */
  lemma {:induction false} OutgoingInOrder(es: seq<Edge>, n: Node)
    ensures forall i, j :: 0 <= i < j < |OutgoingOf(es, n)| ==> Before(es, OutgoingOf(es, n)[i], OutgoingOf(es, n)[j])
  {
    hide Before;
    if es != [] {
      var init, last := es[..|es| - 1], es[|es| - 1];
      assert es == init + [last];
      OutgoingInOrder(init, n);
      OutgoingEdges(init, n);
      BeforeStays(init, [last]);
      BeforeLast(init, last);
    }
  }

  /** A point of a routed edge on the grid, with the lane of the segment that leaves it. */
  datatype Point = Point(row: int, col: int, index: int)

  datatype LLEdge = LLEdge(source: Node, target: Node, points: seq<Point>, startindex: int)

  datatype LLBlock = LLBlock(
    node: Node,
    edges: seq<LLEdge>,
    incoming: seq<Node>,
    newoutgoing: seq<Node>,
    x: int, y: int,
    width: int, height: int,
    col: int, colcount: int,
    row: int, rowcount: int)

  type Blocks = map<Node, LLBlock>
}
