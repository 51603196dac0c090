/**
 * The Graph class of src/graph.ts: the laid-out nodes and edges, the
 * terminal size, the camera position, and the id lookups built when the
 * graph is created; panning, fitting the view, finding the focused node and
 * search.
 */
module GraphModel {
  import opened Types
  import opened Viewport
  import opened Search

  /** What getElement can return: a node, or else an edge. */
  datatype Element = NodeElement(node: Node) | EdgeElement(edge: Edge)

  /** A Map filled by `set(key(x), x)` for each x in order: a later element overwrites an earlier one with the same key. */
  function Index<T>(xs: seq<T>, key: T -> string): map<string, T>
  {
    if xs == [] then map[]
    else Index(xs[..|xs| - 1], key)[key(xs[|xs| - 1]) := xs[|xs| - 1]]
  }

  /** A key is present exactly when some element has it, and it maps to the last such element. */
  lemma {:induction false} IndexLastWins<T>(xs: seq<T>, key: T -> string, k: string)
    ensures k in Index(xs, key) <==> exists i :: 0 <= i < |xs| && key(xs[i]) == k
    ensures k in Index(xs, key) ==> exists i :: (0 <= i < |xs| && xs[i] == Index(xs, key)[k] && key(xs[i]) == k
      && forall j :: i < j < |xs| ==> key(xs[j]) != k)
  {
    if xs != [] {
      var init := xs[..|xs| - 1];
      IndexLastWins(init, key, k);
      assert forall i :: 0 <= i < |init| ==> init[i] == xs[i];
      if key(xs[|xs| - 1]) != k && k in Index(init, key) {
        var i :| 0 <= i < |init| && init[i] == Index(init, key)[k] && key(init[i]) == k
          && forall j :: i < j < |init| ==> key(init[j]) != k;
        assert xs[i] == Index(xs, key)[k];
      }
    }
  }

  class Graph {
    const nodes: seq<Node>
    const edges: seq<Edge>
    const nodeWidth: int
    var termSize: TermSize
    var pos: Coord
    var nodesLookup: map<string, Node>
    var edgesLookup: map<string, Edge>

    /** The lookups index the node and edge lists by id. */
    ghost predicate Valid()
      reads this
    {
      nodesLookup == Index(nodes, NodeKey) && edgesLookup == Index(edges, EdgeKey)
    }

    /**
     * Graph.create once layout has run: the options over their defaults
     * (node width 16), the camera at the origin, and the two lookups filled
     * in list order.
     */
    constructor (nodes: seq<Node>, edges: seq<Edge>, termSize: TermSize, nodeWidth: Option<int>)
      ensures Valid()
      ensures this.nodes == nodes && this.edges == edges && this.termSize == termSize
      ensures this.nodeWidth == (if nodeWidth.Some? then nodeWidth.value else DefaultNodeWidth)
      ensures pos == Coord(0, 0)
    {
      this.nodes := nodes;
      this.edges := edges;
      this.termSize := termSize;
      this.nodeWidth := if nodeWidth.Some? then nodeWidth.value else DefaultNodeWidth;
      pos := Coord(0, 0);
      nodesLookup := map[];
      edgesLookup := map[];
      new;
      var i := 0;
      while i < |nodes|
        invariant 0 <= i <= |nodes|
        invariant nodesLookup == Index(nodes[..i], NodeKey)
        invariant edgesLookup == map[] && this.termSize == termSize && pos == Coord(0, 0)
      {
        assert nodes[..i + 1][..i] == nodes[..i];
        nodesLookup := nodesLookup[nodes[i].id := nodes[i]];
        i := i + 1;
      }
      assert nodes[..i] == nodes;
      i := 0;
      while i < |edges|
        invariant 0 <= i <= |edges|
        invariant nodesLookup == Index(nodes, NodeKey)
        invariant edgesLookup == Index(edges[..i], EdgeKey)
        invariant this.termSize == termSize && pos == Coord(0, 0)
      {
        assert edges[..i + 1][..i] == edges[..i];
        edgesLookup := edgesLookup[edges[i].id := edges[i]];
        i := i + 1;
      }
      assert edges[..i] == edges;
    }

    /** getElement: the node with this id if there is one, else the edge with it, else nothing. */
    function GetElement(id: string): (e: Option<Element>)
      reads this
      requires Valid()
      ensures (exists i :: 0 <= i < |nodes| && nodes[i].id == id) ==> (
        && e.Some? && e.value.NodeElement? && e.value.node.id == id
        && exists i :: 0 <= i < |nodes| && nodes[i] == e.value.node && forall j :: i < j < |nodes| ==> nodes[j].id != id)
      ensures (forall i :: 0 <= i < |nodes| ==> nodes[i].id != id) ==>
        && (e.Some? <==> exists i :: 0 <= i < |edges| && edges[i].id == id)
        && (e.Some? ==> (e.value.EdgeElement? && e.value.edge.id == id
              && exists i :: 0 <= i < |edges| && edges[i] == e.value.edge && forall j :: i < j < |edges| ==> edges[j].id != id))
    {
      IndexLastWins(nodes, NodeKey, id);
      IndexLastWins(edges, EdgeKey, id);
      if id in nodesLookup then Some(NodeElement(nodesLookup[id]))
      else if id in edgesLookup then Some(EdgeElement(edgesLookup[id]))
      else None
    }

    /** The node a focus id names: none for an absent or empty id, or one that names an edge or nothing. */
    function FocusNode(focusId: Option<string>): (r: Option<Node>)
      reads this
      requires Valid()
      ensures r.Some? ==> focusId.Some? && focusId.value != [] && r.value in nodes && r.value.id == focusId.value
      ensures focusId.Some? && focusId.value != [] && (exists i :: 0 <= i < |nodes| && nodes[i].id == focusId.value) ==> r.Some?
    {
      if focusId.Some? && focusId.value != [] then
        var e := GetElement(focusId.value);
        if e.Some? && e.value.NodeElement? then Some(e.value.node) else None
      else None
    }

    /** Moves the camera by the given offsets. */
    method Pan(moveX: int, moveY: int)
      modifies this`pos
      ensures pos == Coord(old(pos).x + moveX, old(pos).y + moveY)
    {
      pos := Coord(pos.x + moveX, pos.y + moveY);
    }

    method SetTermSize(width: int, height: int)
      modifies this`termSize
      ensures termSize == TermSize(width, height)
    {
      termSize := TermSize(width, height);
    }

    /**
     * fitView: centre on the focus node when it is positioned, else on the
     * start node with the fixed padding, else on the origin.
     */
    method FitView(focusId: Option<string>)
      requires Valid()
      modifies this`pos
      ensures pos == FitTarget(nodes, edges, termSize, nodeWidth, FocusNode(focusId))
    {
      var focus := FocusNode(focusId);
      if focus.Some? && HasPos(focus.value) {
        var p := focus.value.position.value;
        pos := Coord(p.x - termSize.width / 2 + nodeWidth / 2, p.y - termSize.height / 2);
      } else {
        FitDefault();
      }
    }

    /** The rest of fitView: the start node from the roots or, failing that, all nodes; else the origin. */
    method FitDefault()
      modifies this`pos
      ensures pos == DefaultTarget(nodes, edges, termSize)
    {
      var termW := termSize.width;
      var termH := termSize.height;
      var roots := RootsByInDegree();
      var startNode := FirstLowest(roots);
      if startNode.None? {
        startNode := FirstLowest(nodes);
      }
      if startNode.Some? {
        var p := startNode.value.position.value;
        pos := Coord(p.x - termW / 2 + PaddingX, p.y - termH / 2 + PaddingY);
      } else {
        pos := Coord(PaddingX - termW / 2, PaddingY - termH / 2);
      }
    }

    /** The in-degree map of fitView (every node id, then one count per edge into it) and the nodes it gives zero. */
    method RootsByInDegree() returns (roots: seq<Node>)
      ensures roots == Roots(nodes, edges)
    {
      var inDegree: map<string, int> := map[];
      var i := 0;
      while i < |nodes|
        invariant 0 <= i <= |nodes|
        invariant forall id :: id in inDegree <==> exists k :: 0 <= k < i && nodes[k].id == id
        invariant forall id :: id in inDegree ==> inDegree[id] == 0
      {
        inDegree := inDegree[nodes[i].id := 0];
        i := i + 1;
      }
      var j := 0;
      while j < |edges|
        invariant 0 <= j <= |edges|
        invariant forall id :: id in inDegree <==> exists k :: 0 <= k < |nodes| && nodes[k].id == id
        invariant forall id :: id in inDegree ==> inDegree[id] == CountTargets(edges[..j], id)
      {
        assert edges[..j + 1][..j] == edges[..j];
        var target := edges[j].target;
        if target in inDegree {
          inDegree := inDegree[target := inDegree[target] + 1];
        }
        j := j + 1;
      }
      assert edges[..j] == edges;
      roots := Filter(nodes, (n: Node) => n.id in inDegree && inDegree[n.id] == 0);
      forall n | n in nodes ensures (n.id in inDegree && inDegree[n.id] == 0) == (CountTargets(edges, n.id) == 0) {
        var k :| 0 <= k < |nodes| && nodes[k] == n;
      }
      FilterAgree(nodes, (n: Node) => n.id in inDegree && inDegree[n.id] == 0, (n: Node) => CountTargets(edges, n.id) == 0);
    }

    /** getFocusedNode: the first positioned node whose box holds the centre of the terminal. */
    method GetFocusedNode() returns (focused: Option<Node>)
      ensures focused == FocusedNode(nodes, pos, termSize, nodeWidth)
    {
      var centerX := termSize.width / 2;
      var centerY := termSize.height / 2;
      focused := None;
      var i := 0;
      while i < |nodes|
        invariant 0 <= i <= |nodes|
        invariant FocusedNode(nodes[i..], pos, termSize, nodeWidth) == FocusedNode(nodes, pos, termSize, nodeWidth)
      {
        var node := nodes[i];
        assert nodes[i..][1..] == nodes[i + 1..];
        if node.position.Some? {
          var relativeX := node.position.value.x - pos.x;
          var relativeY := node.position.value.y - pos.y;
          var inside := centerX >= relativeX && centerX <= relativeX + nodeWidth + 2
            && centerY >= relativeY - 2 && centerY <= relativeY + FrameHeight - 2;
          if inside {
            focused := Some(node);
            break;
          }
        }
        i := i + 1;
      }
    }

    /** search over this graph's nodes. */
    method Search(rawQuery: string, limit: Option<int>, maxDistance: Option<int>) returns (r: SearchResult)
      ensures r == SearchSpec(nodes, rawQuery, OrDefault(limit, DefaultLimit), OrDefault(maxDistance, DefaultMaxDistance))
    {
      r := SearchNodes(nodes, rawQuery, limit, maxDistance);
    }
  }

  /** Panning by an offset and then by its negation puts the camera back. */
  method PanRoundTrip(g: Graph, dx: int, dy: int)
    modifies g
    ensures g.pos == old(g.pos)
  {
    g.Pan(dx, dy);
    g.Pan(-dx, -dy);
  }

  /** Pans add up: (3, -2) then (-1, 1) moves the camera by (2, -1), without clamping. */
  method PanTwice(g: Graph)
    modifies g
    ensures g.pos == Coord(old(g.pos).x + 2, old(g.pos).y - 1)
  {
    g.Pan(3, -2);
    g.Pan(-1, 1);
  }
}
