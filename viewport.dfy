/**
 * What Graph.fitView and Graph.getFocusedNode compute, as functions of the
 * nodes, the edges, the terminal size and the camera position: the roots by
 * in-degree, the start node (the highest, then leftmost, positioned node),
 * the three camera placements, and the box test that decides which node is
 * under the centre of the terminal.
 */
module Viewport {
  import opened Types

  const PaddingX: int := 8
  const PaddingY: int := 16

  // ---------------------------------------------------------------------
  // Roots
  // ---------------------------------------------------------------------

  /** The number of edges that end at id: the in-degree map's entry for a node with that id. */
  function CountTargets(edges: seq<Edge>, id: string): nat
  {
    if edges == [] then 0
    else CountTargets(edges[..|edges| - 1], id) + (if edges[|edges| - 1].target == id then 1 else 0)
  }

  /** In-degree zero means no edge ends at the node. */
  lemma {:induction false} CountTargetsZeroIff(edges: seq<Edge>, id: string)
    ensures CountTargets(edges, id) == 0 <==> forall e :: e in edges ==> e.target != id
  {
    if edges != [] {
      var init := edges[..|edges| - 1];
      CountTargetsZeroIff(init, id);
      assert edges == init + [edges[|edges| - 1]];
    }
  }

  /** The nodes whose in-degree is zero, in node order. */
  function Roots(nodes: seq<Node>, edges: seq<Edge>): seq<Node>
  {
    Filter(nodes, (n: Node) => CountTargets(edges, n.id) == 0)
  }

  /** A node is a root exactly when it is a node and no edge ends at its id. */
  lemma RootsMeaning(nodes: seq<Node>, edges: seq<Edge>, n: Node)
    ensures n in Roots(nodes, edges) <==> n in nodes && forall e :: e in edges ==> e.target != n.id
  {
    CountTargetsZeroIff(edges, n.id);
  }

  // ---------------------------------------------------------------------
  // Start node
  // ---------------------------------------------------------------------

  predicate HasPos(n: Node)
  {
    n.position.Some?
  }

  /** The positional comparator: smaller y first, then smaller x. */
  predicate PosLess(a: Coord, b: Coord)
  {
    a.y < b.y || (a.y == b.y && a.x < b.x)
  }

  /**
   * `n` is the `i`-th node, positioned, with no positioned node strictly
   * before it in the positional order, and every positioned node earlier
   * in the list strictly after it.
   */
  predicate EarliestLowestAt(ns: seq<Node>, i: int, n: Node)
  {
    && 0 <= i < |ns| && ns[i] == n && HasPos(n)
    && (forall j :: 0 <= j < |ns| && HasPos(ns[j]) ==> !PosLess(ns[j].position.value, n.position.value))
    && (forall j :: 0 <= j < i && HasPos(ns[j]) ==> PosLess(n.position.value, ns[j].position.value))
  }

  /**
   * The first element of the stable positional sort of the positioned
   * nodes: a lowest position, and the earliest node holding it.
   */
  function FirstLowest(ns: seq<Node>): (r: Option<Node>)
    ensures r.None? <==> forall j :: 0 <= j < |ns| ==> !HasPos(ns[j])
    ensures r.Some? ==> HasPos(r.value) && exists i :: EarliestLowestAt(ns, i, r.value)
  {
    if ns == [] then None
    else
      var rest := FirstLowest(ns[1..]);
      FirstLowestStep(ns, rest);
      if !HasPos(ns[0]) then rest
      else if rest.None? || !PosLess(rest.value.position.value, ns[0].position.value) then Some(ns[0])
      else rest
  }

  /** One step of FirstLowest: the earliest lowest node of the tail, set against the head. */
  lemma FirstLowestStep(ns: seq<Node>, rest: Option<Node>)
    requires ns != []
    requires rest.None? <==> forall j :: 0 <= j < |ns[1..]| ==> !HasPos(ns[1..][j])
    requires rest.Some? ==> exists i :: EarliestLowestAt(ns[1..], i, rest.value)
    ensures !HasPos(ns[0]) ==>
      && (rest.None? <==> forall j :: 0 <= j < |ns| ==> !HasPos(ns[j]))
      && (rest.Some? ==> exists i :: EarliestLowestAt(ns, i, rest.value))
    ensures HasPos(ns[0]) && (rest.None? || !PosLess(rest.value.position.value, ns[0].position.value)) ==>
      EarliestLowestAt(ns, 0, ns[0])
    ensures HasPos(ns[0]) && rest.Some? && PosLess(rest.value.position.value, ns[0].position.value) ==>
      exists i :: EarliestLowestAt(ns, i, rest.value)
  {
    assert forall j :: 1 <= j < |ns| ==> ns[j] == ns[1..][j - 1];
    if rest.Some? {
      var k :| EarliestLowestAt(ns[1..], k, rest.value);
      if !HasPos(ns[0]) || PosLess(rest.value.position.value, ns[0].position.value) {
        assert EarliestLowestAt(ns, k + 1, rest.value);
      }
    }
  }

  /** The earliest lowest node is unique: any node with both properties is the one FirstLowest picks. */
  lemma FirstLowestUnique(ns: seq<Node>, i: nat)
    requires i < |ns| && HasPos(ns[i])
    requires forall j :: 0 <= j < |ns| && HasPos(ns[j]) ==> !PosLess(ns[j].position.value, ns[i].position.value)
    requires forall j :: 0 <= j < i && HasPos(ns[j]) ==> PosLess(ns[i].position.value, ns[j].position.value)
    ensures FirstLowest(ns) == Some(ns[i])
  {
    var r := FirstLowest(ns);
    var k :| EarliestLowestAt(ns, k, r.value);
  }

  /** Positioned roots first; when there is none (every node is on a cycle, say), any positioned node. */
  function StartNode(nodes: seq<Node>, edges: seq<Edge>): Option<Node>
  {
    var r := FirstLowest(Roots(nodes, edges));
    if r.Some? then r else FirstLowest(nodes)
  }

  /**
   * The start node exists exactly when some node is positioned; it is a
   * positioned node of the graph; if some positioned node is a root, it is
   * a root and no positioned root lies above or left of it on its row;
   * otherwise no positioned node does.
   */
  lemma StartNodeFacts(nodes: seq<Node>, edges: seq<Edge>)
    ensures var s := StartNode(nodes, edges);
      && (s.None? <==> forall n :: n in nodes ==> !HasPos(n))
      && (s.Some? ==> s.value in nodes && HasPos(s.value))
      && ((exists n :: n in Roots(nodes, edges) && HasPos(n)) ==>
            s.Some? && s.value in Roots(nodes, edges)
            && forall n :: n in Roots(nodes, edges) && HasPos(n) ==> !PosLess(n.position.value, s.value.position.value))
      && ((forall n :: n in Roots(nodes, edges) ==> !HasPos(n)) ==>
            forall n :: n in nodes && HasPos(n) ==> !PosLess(n.position.value, s.value.position.value))
  {
    var roots := Roots(nodes, edges);
    var r := FirstLowest(roots);
    if r.Some? {
      RootsMeaning(nodes, edges, r.value);
    }
    if exists n :: n in roots && HasPos(n) {
      var n :| n in roots && HasPos(n);
      var j :| 0 <= j < |roots| && roots[j] == n;
    }
    if forall n :: n in nodes ==> !HasPos(n) {
      forall n | n in roots ensures !HasPos(n) {
        RootsMeaning(nodes, edges, n);
      }
    }
  }

  /** With exactly one node of in-degree zero, positioned, the start node is that node whatever the node order. */
  lemma UniqueRootIsStart(nodes: seq<Node>, edges: seq<Edge>, root: Node)
    requires root in nodes && HasPos(root)
    requires forall n :: n in nodes ==> ((forall e :: e in edges ==> e.target != n.id) <==> n == root)
    ensures StartNode(nodes, edges) == Some(root)
  {
    RootsMeaning(nodes, edges, root);
    StartNodeFacts(nodes, edges);
    var s := StartNode(nodes, edges);
    RootsMeaning(nodes, edges, s.value);
  }

  // ---------------------------------------------------------------------
  // Camera placements
  // ---------------------------------------------------------------------

  /** Centre on an explicitly focused node: half a terminal up and left, then half a node width right. */
  function FocusCamera(p: Coord, term: TermSize, nodeWidth: int): Coord
  {
    Coord(p.x - term.width / 2 + nodeWidth / 2, p.y - term.height / 2)
  }

  /** Centre on the start node, shifted by the fixed padding. */
  function StartCamera(p: Coord, term: TermSize): Coord
  {
    Coord(p.x - term.width / 2 + PaddingX, p.y - term.height / 2 + PaddingY)
  }

  /** With no positioned node the bounding box is empty and the centre is the origin. */
  function FallbackCamera(term: TermSize): Coord
  {
    Coord(PaddingX - term.width / 2, PaddingY - term.height / 2)
  }

  /**
   * The camera fitView chooses, given the node a non-empty focus id names
   * (None when there is no focus id, or it names an edge or nothing).
   */
  function FitTarget(nodes: seq<Node>, edges: seq<Edge>, term: TermSize, nodeWidth: int, focusNode: Option<Node>): Coord
  {
    if focusNode.Some? && HasPos(focusNode.value) then
      FocusCamera(focusNode.value.position.value, term, nodeWidth)
    else
      DefaultTarget(nodes, edges, term)
  }

  /** The camera without a usable focus node: on the start node, or on the origin when there is none. */
  function DefaultTarget(nodes: seq<Node>, edges: seq<Edge>, term: TermSize): Coord
  {
    var s := StartNode(nodes, edges);
    if s.Some? then StartCamera(s.value.position.value, term)
    else FallbackCamera(term)
  }

  // ---------------------------------------------------------------------
  // Focus
  // ---------------------------------------------------------------------

  /**
   * The centre of the terminal lies in the node's box: from its left edge to
   * nodeWidth + 2 cells right of it, and from 2 rows above its top to
   * FrameHeight - 2 rows below it, all relative to the camera.
   */
  predicate Inside(p: Coord, cursor: Coord, term: TermSize, nodeWidth: int)
  {
    var cx := term.width / 2;
    var cy := term.height / 2;
    var rx := p.x - cursor.x;
    var ry := p.y - cursor.y;
    rx <= cx <= rx + nodeWidth + 2 && ry - 2 <= cy <= ry + FrameHeight - 2
  }

  /** The first positioned node whose box holds the centre of the terminal. */
  function FocusedNode(nodes: seq<Node>, cursor: Coord, term: TermSize, nodeWidth: int): (r: Option<Node>)
    ensures r.None? <==> forall j :: 0 <= j < |nodes| && HasPos(nodes[j]) ==> !Inside(nodes[j].position.value, cursor, term, nodeWidth)
    ensures r.Some? ==> (
      && HasPos(r.value) && Inside(r.value.position.value, cursor, term, nodeWidth)
      && exists i :: 0 <= i < |nodes| && nodes[i] == r.value
           && forall j :: 0 <= j < i && HasPos(nodes[j]) ==> !Inside(nodes[j].position.value, cursor, term, nodeWidth))
  {
    if nodes == [] then None
    else if HasPos(nodes[0]) && Inside(nodes[0].position.value, cursor, term, nodeWidth) then Some(nodes[0])
    else
      var rest := FocusedNode(nodes[1..], cursor, term, nodeWidth);
      assert forall j :: 1 <= j < |nodes| ==> nodes[j] == nodes[1..][j - 1];
      assert rest.Some? ==> exists i :: (0 <= i < |nodes[1..]| && nodes[1..][i] == rest.value
        && forall j :: 0 <= j < i && HasPos(nodes[1..][j]) ==> !Inside(nodes[1..][j].position.value, cursor, term, nodeWidth));
      rest
  }

  /** After centring on a positioned node, that node's box holds the centre (for a non-negative node width). */
  lemma FocusCameraCentres(p: Coord, term: TermSize, nodeWidth: int)
    requires nodeWidth >= 0
    ensures Inside(p, FocusCamera(p, term, nodeWidth), term, nodeWidth)
  {
  }

  /** So after centring on a positioned node of the graph, some node is focused. */
  lemma FocusFitFocuses(nodes: seq<Node>, n: Node, term: TermSize, nodeWidth: int)
    requires n in nodes && HasPos(n) && nodeWidth >= 0
    ensures FocusedNode(nodes, FocusCamera(n.position.value, term, nodeWidth), term, nodeWidth).Some?
  {
    FocusCameraCentres(n.position.value, term, nodeWidth);
  }

  /**
   * Fitting the view on a positioned focus node leaves a node under the
   * centre of the terminal (for a non-negative node width).
   */
  lemma FitOnFocusFocuses(nodes: seq<Node>, edges: seq<Edge>, term: TermSize, nodeWidth: int, n: Node)
    requires n in nodes && HasPos(n) && nodeWidth >= 0
    ensures FocusedNode(nodes, FitTarget(nodes, edges, term, nodeWidth, Some(n)), term, nodeWidth).Some?
  {
    FocusFitFocuses(nodes, n, term, nodeWidth);
  }

  /**
   * The start placement puts the start node 16 rows above the centre row,
   * outside the 3-row band the focus test accepts: the start node itself is
   * never the focused node right after the default fit.
   */
  lemma StartCameraMissesStart(p: Coord, term: TermSize, nodeWidth: int)
    ensures !Inside(p, StartCamera(p, term), term, nodeWidth)
  {
  }
}
