/**
 * The value types of the graph viewer (src/types.ts): coordinates, nodes and
 * edges as the layout step leaves them, and the terminal size.
 */
module Types {

  datatype Option<T> = None | Some(value: T)

  function Abs(n: int): nat { if n < 0 then -n else n }

  function Min(i: int, j: int): int { if i <= j then i else j }

  function Max(i: int, j: int): int { if i <= j then j else i }

  /** An integer cell coordinate; y grows downwards, as on the terminal. */
  datatype Coord = Coord(x: int, y: int)

  datatype TermSize = TermSize(width: int, height: int)

  /**
   * A node. `extraText` stands for the optional `label`, `name` and `title`
   * attributes that search probes, in that order, keeping only those that are
   * strings. `position` is absent until the layout step assigns it.
   */
  datatype Node = Node(id: string, value: string, extraText: seq<string>, position: Option<Coord>)

  /** An edge; `path` is the route the layout step reported (possibly empty). */
  datatype Edge = Edge(id: string, source: string, target: string, path: seq<Coord>)

  /** Default node width of the renderer (src/node.tsx). */
  const DefaultNodeWidth: int := 16

  /** Height of a node's frame: top border, content, bottom border (src/node.tsx). */
  const FrameHeight: int := 5

  function NodeKey(n: Node): string { n.id }

  function EdgeKey(e: Edge): string { e.id }

  /** Array.prototype.filter: the elements satisfying p, in order. */
  function Filter<T(!new)>(xs: seq<T>, p: T -> bool): (r: seq<T>)
    ensures forall x :: x in r <==> x in xs && p(x)
  {
    if xs == [] then []
    else (if p(xs[0]) then [xs[0]] else []) + Filter(xs[1..], p)
  }

  /** Filters by two tests that agree on every element give the same result. */
  lemma {:induction false} FilterAgree<T(!new)>(xs: seq<T>, p: T -> bool, q: T -> bool)
    requires forall x :: x in xs ==> p(x) == q(x)
    ensures Filter(xs, p) == Filter(xs, q)
  {
    if xs != [] {
      FilterAgree(xs[1..], p, q);
    }
  }
}
