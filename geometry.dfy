/**
 * Orthogonal edge routing (src/utils.ts): the unit-step L/Z polyline between
 * two cells, the box-drawing glyph chosen for each point, and the rendering
 * that pairs every point with its glyph.
 */
module Geometry {
  import opened Types


  /**
   * Math.round(n / 2) for an integer n: the integer nearest to n/2, a half
   * rounded towards +infinity. (Dafny's division by 2 is the floor here.)
   */
  function RoundHalf(n: int): (r: int)
    ensures 2 * r - 1 <= n <= 2 * r
  {
    (n + 1) / 2
  }

  /** The value reached after i unit steps from `from` towards `to`. */
  function Toward(from: int, to: int, i: int): int
  {
    if to > from then from + i else from - i
  }

  /** The cells (x, y) for x from x0 to x1, both included, by unit steps. */
  function HSeg(x0: int, x1: int, y: int): seq<Coord>
  {
    seq(Abs(x1 - x0) + 1, i => Coord(Toward(x0, x1, i), y))
  }

  /** The cells (x, y) for y from y0 to y1, both included, by unit steps. */
  function VSeg(y0: int, y1: int, x: int): seq<Coord>
  {
    seq(Abs(y1 - y0) + 1, i => Coord(x, Toward(y0, y1, i)))
  }

  /** The target is to the right (or level) and below (or level). */
  predicate RightAndBelow(s: Coord, t: Coord)
  {
    t.x >= s.x && t.y >= s.y
  }

  function MidX(s: Coord, t: Coord): int { s.x + RoundHalf(t.x - s.x) }

  function MidY(s: Coord, t: Coord): int { s.y + RoundHalf(t.y - s.y) }

  /**
   * The route from s to t: horizontal, vertical, horizontal through the
   * column MidX when the target is right-and-below, otherwise vertical,
   * horizontal, vertical through the row MidY. Each piece includes both of
   * its ends, so the pivot cells occur twice in a row.
   */
  function OrthoPath(s: Coord, t: Coord): seq<Coord>
  {
    if RightAndBelow(s, t) then
      HSeg(s.x, MidX(s, t), s.y) + VSeg(s.y, t.y, MidX(s, t)) + HSeg(MidX(s, t), t.x, t.y)
    else
      VSeg(s.y, MidY(s, t), s.x) + HSeg(s.x, t.x, MidY(s, t)) + VSeg(MidY(s, t), t.y, t.x)
  }

  /** Two cells one unit apart horizontally or vertically. */
  predicate UnitStep(p: Coord, q: Coord)
  {
    (p.x == q.x && Abs(p.y - q.y) == 1) || (p.y == q.y && Abs(p.x - q.x) == 1)
  }

  /** Every consecutive pair is the same cell or one unit step apart. */
  predicate Connected(path: seq<Coord>)
  {
    forall i :: 0 <= i < |path| - 1 ==> path[i] == path[i + 1] || UnitStep(path[i], path[i + 1])
  }

  lemma HSegFacts(x0: int, x1: int, y: int)
    ensures var r := HSeg(x0, x1, y);
      && |r| == Abs(x1 - x0) + 1
      && r[0] == Coord(x0, y) && r[|r| - 1] == Coord(x1, y)
      && Connected(r)
      && forall c :: c in r ==> c.y == y && (x0 <= c.x <= x1 || x1 <= c.x <= x0)
  {
    var r := HSeg(x0, x1, y);
    forall c | c in r ensures c.y == y && (x0 <= c.x <= x1 || x1 <= c.x <= x0) {
      var i :| 0 <= i < |r| && r[i] == c;
    }
  }

  lemma VSegFacts(y0: int, y1: int, x: int)
    ensures var r := VSeg(y0, y1, x);
      && |r| == Abs(y1 - y0) + 1
      && r[0] == Coord(x, y0) && r[|r| - 1] == Coord(x, y1)
      && Connected(r)
      && forall c :: c in r ==> c.x == x && (y0 <= c.y <= y1 || y1 <= c.y <= y0)
  {
    var r := VSeg(y0, y1, x);
    forall c | c in r ensures c.x == x && (y0 <= c.y <= y1 || y1 <= c.y <= y0) {
      var i :| 0 <= i < |r| && r[i] == c;
    }
  }

  /** Two connected paths that meet in a shared cell concatenate to a connected path. */
  lemma ConnectedConcat(a: seq<Coord>, b: seq<Coord>)
    requires Connected(a) && Connected(b)
    requires a != [] && b != [] && a[|a| - 1] == b[0]
    ensures Connected(a + b)
  {
    var ab := a + b;
    forall i | 0 <= i < |ab| - 1
      ensures ab[i] == ab[i + 1] || UnitStep(ab[i], ab[i + 1])
    {
      if i < |a| - 1 {
        assert ab[i] == a[i] && ab[i + 1] == a[i + 1];
      } else if i == |a| - 1 {
        assert ab[i] == a[i] && ab[i + 1] == b[0];
      } else {
        assert ab[i] == b[i - |a|] && ab[i + 1] == b[i - |a| + 1];
      }
    }
  }

  /** The route always starts at the source and ends at the target. */
  lemma OrthoPathEnds(s: Coord, t: Coord)
    ensures var p := OrthoPath(s, t); |p| > 0 && p[0] == s && p[|p| - 1] == t
  {
    if RightAndBelow(s, t) {
      HSegFacts(s.x, MidX(s, t), s.y);
      VSegFacts(s.y, t.y, MidX(s, t));
      HSegFacts(MidX(s, t), t.x, t.y);
    } else {
      VSegFacts(s.y, MidY(s, t), s.x);
      HSegFacts(s.x, t.x, MidY(s, t));
      VSegFacts(MidY(s, t), t.y, t.x);
    }
  }

  /** No diagonal steps: consecutive cells coincide or are one unit apart. */
  lemma OrthoPathConnected(s: Coord, t: Coord)
    ensures Connected(OrthoPath(s, t))
  {
    if RightAndBelow(s, t) {
      var a, b, c := HSeg(s.x, MidX(s, t), s.y), VSeg(s.y, t.y, MidX(s, t)), HSeg(MidX(s, t), t.x, t.y);
      HSegFacts(s.x, MidX(s, t), s.y);
      VSegFacts(s.y, t.y, MidX(s, t));
      HSegFacts(MidX(s, t), t.x, t.y);
      ConnectedConcat(a, b);
      ConnectedConcat(a + b, c);
    } else {
      var a, b, c := VSeg(s.y, MidY(s, t), s.x), HSeg(s.x, t.x, MidY(s, t)), VSeg(MidY(s, t), t.y, t.x);
      VSegFacts(s.y, MidY(s, t), s.x);
      HSegFacts(s.x, t.x, MidY(s, t));
      VSegFacts(MidY(s, t), t.y, t.x);
      ConnectedConcat(a, b);
      ConnectedConcat(a + b, c);
    }
  }

  /** Each of the three runs contributes its length plus one cell. */
  lemma OrthoPathLength(s: Coord, t: Coord)
    ensures RightAndBelow(s, t) ==>
      |OrthoPath(s, t)| == Abs(MidX(s, t) - s.x) + Abs(t.y - s.y) + Abs(t.x - MidX(s, t)) + 3
    ensures !RightAndBelow(s, t) ==>
      |OrthoPath(s, t)| == Abs(MidY(s, t) - s.y) + Abs(t.x - s.x) + Abs(t.y - MidY(s, t)) + 3
  {
  }

  /**
   * Right-and-below: the pivot column lies between the two ends, and every
   * cell is on the source row, the pivot column or the target row.
   */
  lemma OrthoPathShapeRightBelow(s: Coord, t: Coord)
    requires RightAndBelow(s, t)
    ensures s.x <= MidX(s, t) <= t.x
    ensures forall c :: c in OrthoPath(s, t) ==> c.y == s.y || c.x == MidX(s, t) || c.y == t.y
  {
    HSegFacts(s.x, MidX(s, t), s.y);
    VSegFacts(s.y, t.y, MidX(s, t));
    HSegFacts(MidX(s, t), t.x, t.y);
  }

  /**
   * Every other quadrant: the pivot row lies between the two ends, and every
   * cell is on the source column, the pivot row or the target column.
   */
  lemma OrthoPathShapeOther(s: Coord, t: Coord)
    requires !RightAndBelow(s, t)
    ensures s.y <= MidY(s, t) <= t.y || t.y <= MidY(s, t) <= s.y
    ensures forall c :: c in OrthoPath(s, t) ==> c.x == s.x || c.y == MidY(s, t) || c.x == t.x
  {
    VSegFacts(s.y, MidY(s, t), s.x);
    HSegFacts(s.x, t.x, MidY(s, t));
    VSegFacts(MidY(s, t), t.y, t.x);
  }

  /** Routing a cell to itself yields that cell three times. */
  lemma OrthoPathToSelf(p: Coord)
    ensures OrthoPath(p, p) == [p, p, p]
  {
    assert HSeg(p.x, p.x, p.y) == [p];
    assert VSeg(p.y, p.y, p.x) == [p];
  }

  /** A run is the cells its loop pushes followed by its far end. */
  lemma HSegSplit(x0: int, x1: int, y: int)
    ensures HSeg(x0, x1, y) == HSeg(x0, x1, y)[..Abs(x1 - x0)] + [Coord(x1, y)]
  {
  }

  lemma VSegSplit(y0: int, y1: int, x: int)
    ensures VSeg(y0, y1, x) == VSeg(y0, y1, x)[..Abs(y1 - y0)] + [Coord(x, y1)]
  {
  }

  /** Appends the cells the source's `for (x = from; x !== to; ...)` loop pushes. */
  method PushHorizontal(points: seq<Coord>, from: int, to: int, y: int) returns (r: seq<Coord>)
    ensures r == points + HSeg(from, to, y)[..Abs(to - from)]
  {
    r := points;
    var x := from;
    ghost var k := 0;
    while x != to
      invariant 0 <= k <= Abs(to - from)
      invariant x == Toward(from, to, k)
      invariant r == points + HSeg(from, to, y)[..k]
      decreases Abs(to - x)
    {
      assert HSeg(from, to, y)[..k + 1] == HSeg(from, to, y)[..k] + [Coord(x, y)];
      r := r + [Coord(x, y)];
      x := x + (if to > from then 1 else -1);
      k := k + 1;
    }
  }

  /** Appends the cells the source's `for (y = from; y !== to; ...)` loop pushes. */
  method PushVertical(points: seq<Coord>, from: int, to: int, x: int) returns (r: seq<Coord>)
    ensures r == points + VSeg(from, to, x)[..Abs(to - from)]
  {
    r := points;
    var y := from;
    ghost var k := 0;
    while y != to
      invariant 0 <= k <= Abs(to - from)
      invariant y == Toward(from, to, k)
      invariant r == points + VSeg(from, to, x)[..k]
      decreases Abs(to - y)
    {
      assert VSeg(from, to, x)[..k + 1] == VSeg(from, to, x)[..k] + [Coord(x, y)];
      r := r + [Coord(x, y)];
      y := y + (if to > from then 1 else -1);
      k := k + 1;
    }
  }

  /**
   * getOrthogonalPathPoints. The source's bottom-left branch and its final
   * `else` branch are textually identical; they are one branch here.
   */
  method GetOrthogonalPathPoints(source: Coord, target: Coord) returns (points: seq<Coord>)
    ensures points == OrthoPath(source, target)
    ensures |points| > 0 && points[0] == source && points[|points| - 1] == target
    ensures Connected(points)
  {
    var sx, sy, tx, ty := source.x, source.y, target.x, target.y;
    var isRight := tx >= sx;
    var isBelow := ty >= sy;
    if isRight && isBelow {
      var midX := sx + RoundHalf(tx - sx);
      points := PushHorizontal([], sx, midX, sy);
      points := points + [Coord(midX, sy)];
      HSegSplit(sx, midX, sy);
      ghost var first := points;
      assert first == HSeg(sx, midX, sy);
      points := PushVertical(points, sy, ty, midX);
      points := points + [Coord(midX, ty)];
      VSegSplit(sy, ty, midX);
      ghost var second := points;
      assert second == first + VSeg(sy, ty, midX);
      points := PushHorizontal(points, midX, tx, ty);
      points := points + [Coord(tx, ty)];
      HSegSplit(midX, tx, ty);
      assert points == second + HSeg(midX, tx, ty);
      assert midX == MidX(source, target);
      assert points == OrthoPath(source, target);
    } else {
      var midY := sy + RoundHalf(ty - sy);
      points := PushVertical([], sy, midY, sx);
      points := points + [Coord(sx, midY)];
      VSegSplit(sy, midY, sx);
      ghost var first := points;
      assert first == VSeg(sy, midY, sx);
      points := PushHorizontal(points, sx, tx, midY);
      points := points + [Coord(tx, midY)];
      HSegSplit(sx, tx, midY);
      ghost var second := points;
      assert second == first + HSeg(sx, tx, midY);
      points := PushVertical(points, midY, ty, tx);
      points := points + [Coord(tx, ty)];
      VSegSplit(midY, ty, tx);
      assert points == second + VSeg(midY, ty, tx);
      assert midY == MidY(source, target);
      assert points == OrthoPath(source, target);
    }
    OrthoPathEnds(source, target);
    OrthoPathConnected(source, target);
  }

  // ---------------------------------------------------------------------
  // Glyph selection and rendering
  // ---------------------------------------------------------------------

  /** One rendered cell of an edge. */
  datatype Cell = Cell(position: Coord, glyph: char)

  /** Every glyph the renderer can emit. */
  predicate IsGlyph(g: char)
  {
    g == '─' || g == '│' || g == '└' || g == '┘' || g == '┐' || g == '┌' || g == '·'
  }

  predicate IsHorizontal(a: Coord, b: Coord) { a.y == b.y && a.x != b.x }

  predicate IsVertical(a: Coord, b: Coord) { a.x == b.x && a.y != b.y }

  /** The directions in which a glyph's strokes leave its cell. */
  datatype Dir = Up | Down | Left | Right

  function Arms(g: char): set<Dir>
  {
    if g == '─' then {Left, Right}
    else if g == '│' then {Up, Down}
    else if g == '└' then {Up, Right}
    else if g == '┘' then {Up, Left}
    else if g == '┐' then {Down, Left}
    else if g == '┌' then {Down, Right}
    else {}
  }

  /** The direction from a to b, for two cells on one row or one column. */
  function DirTo(a: Coord, b: Coord): Dir
    requires IsHorizontal(a, b) || IsVertical(a, b)
  {
    if b.x > a.x then Right
    else if b.x < a.x then Left
    else if b.y > a.y then Down
    else Up
  }

  /** A straight piece or one of the four corners, exactly as utils.ts writes them. */
  function TurnAsWritten(p: Coord, c: Coord, n: Coord): char
  {
    var fromHoriz, toHoriz := IsHorizontal(p, c), IsHorizontal(c, n);
    var fromVert, toVert := IsVertical(p, c), IsVertical(c, n);
    if fromHoriz && toHoriz then '─'
    else if fromVert && toVert then '│'
    else if fromVert && toHoriz && p.y < c.y && c.x < n.x then '└'
    else if fromVert && toHoriz && p.y < c.y && c.x > n.x then '┘'
    else if fromVert && toHoriz && p.y > c.y && c.x < n.x then '┐'
    else if fromVert && toHoriz && p.y > c.y && c.x > n.x then '┌'
    else if fromHoriz && toVert && p.x > c.x && c.y < n.y then '┌'
    else if fromHoriz && toVert && p.x < c.x && c.y < n.y then '┐'
    else if fromHoriz && toVert && p.x > c.x && c.y > n.y then '┘'
    else if fromHoriz && toVert && p.x < c.x && c.y > n.y then '└'
    else '·'
  }

  /**
   * The corner table with the four turns that move upwards drawn with the
   * corner whose strokes lead back along the path (see README, Findings).
   */
  function Turn(p: Coord, c: Coord, n: Coord): char
  {
    var fromHoriz, toHoriz := IsHorizontal(p, c), IsHorizontal(c, n);
    var fromVert, toVert := IsVertical(p, c), IsVertical(c, n);
    if fromHoriz && toHoriz then '─'
    else if fromVert && toVert then '│'
    else if fromVert && toHoriz && p.y < c.y && c.x < n.x then '└'
    else if fromVert && toHoriz && p.y < c.y && c.x > n.x then '┘'
    else if fromVert && toHoriz && p.y > c.y && c.x < n.x then '┌'
    else if fromVert && toHoriz && p.y > c.y && c.x > n.x then '┐'
    else if fromHoriz && toVert && p.x > c.x && c.y < n.y then '┌'
    else if fromHoriz && toVert && p.x < c.x && c.y < n.y then '┐'
    else if fromHoriz && toVert && p.x > c.x && c.y > n.y then '└'
    else if fromHoriz && toVert && p.x < c.x && c.y > n.y then '┘'
    else '·'
  }

  /** charForSegment as written: endpoints, then the interior table, then the fallback dot. */
  function CharForSegmentAsWritten(prev: Option<Coord>, current: Coord, next: Option<Coord>): (g: char)
    ensures IsGlyph(g)
  {
    if prev.None? && next.Some? then
      (if IsHorizontal(current, next.value) then '─' else '│')
    else if prev.Some? && next.None? then
      (if IsHorizontal(prev.value, current) then '─' else '│')
    else if prev.Some? && next.Some? then
      TurnAsWritten(prev.value, current, next.value)
    else
      '·'
  }

  /** charForSegment with the corrected corner table; the renderer uses this one. */
  function CharForSegment(prev: Option<Coord>, current: Coord, next: Option<Coord>): (g: char)
    ensures IsGlyph(g)
    ensures prev.None? && next.None? ==> g == '·'
    ensures prev.None? && next.Some? ==> (g == '─' <==> IsHorizontal(current, next.value)) && (g == '─' || g == '│')
    ensures prev.Some? && next.None? ==> (g == '─' <==> IsHorizontal(prev.value, current)) && (g == '─' || g == '│')
  {
    if prev.None? && next.Some? then
      (if IsHorizontal(current, next.value) then '─' else '│')
    else if prev.Some? && next.None? then
      (if IsHorizontal(prev.value, current) then '─' else '│')
    else if prev.Some? && next.Some? then
      Turn(prev.value, current, next.value)
    else
      '·'
  }

  /**
   * Visual continuity: at an interior cell whose two segments are both
   * horizontal or vertical, the glyph has a stroke towards the previous cell
   * and a stroke towards the next one; at a turn the strokes are exactly those two.
   */
  lemma TurnFollowsPath(p: Coord, c: Coord, n: Coord)
    requires IsHorizontal(p, c) || IsVertical(p, c)
    requires IsHorizontal(c, n) || IsVertical(c, n)
    ensures DirTo(c, p) in Arms(Turn(p, c, n)) && DirTo(c, n) in Arms(Turn(p, c, n))
    ensures IsHorizontal(p, c) != IsHorizontal(c, n) ==> Arms(Turn(p, c, n)) == {DirTo(c, p), DirTo(c, n)}
  {
  }

  /** An endpoint glyph has a stroke towards its one neighbour when they share a row or column. */
  lemma EndpointFollowsPath(c: Coord, other: Coord)
    requires IsHorizontal(c, other) || IsVertical(c, other)
    ensures DirTo(c, other) in Arms(CharForSegment(None, c, Some(other)))
    ensures DirTo(c, other) in Arms(CharForSegment(Some(other), c, None))
  {
  }

  /** The corrected table differs from the written one exactly on the four upward turns. */
  lemma TurnDiffersOnlyUpwards(p: Coord, c: Coord, n: Coord)
    ensures Turn(p, c, n) != TurnAsWritten(p, c, n) <==>
      (IsVertical(p, c) && IsHorizontal(c, n) && p.y > c.y) ||
      (IsHorizontal(p, c) && IsVertical(c, n) && c.y > n.y)
  {
  }

  /**
   * The written table draws upward turns with the wrong corner: coming up
   * from (0, 2) into (0, 1) and leaving right to (1, 1) it draws '┐', whose
   * strokes point left and down, not down and right; coming left from (2, 1)
   * into (1, 1) and leaving up to (1, 0) it draws '┘', whose strokes point
   * up and left, not up and right.
   */
  lemma AsWrittenUpwardTurnMisdrawn()
    ensures CharForSegmentAsWritten(Some(Coord(0, 2)), Coord(0, 1), Some(Coord(1, 1))) == '┐'
    ensures DirTo(Coord(0, 1), Coord(1, 1)) !in Arms('┐')
    ensures CharForSegment(Some(Coord(0, 2)), Coord(0, 1), Some(Coord(1, 1))) == '┌'
    ensures CharForSegmentAsWritten(Some(Coord(2, 1)), Coord(1, 1), Some(Coord(1, 0))) == '┘'
    ensures DirTo(Coord(1, 1), Coord(2, 1)) !in Arms('┘')
    ensures CharForSegment(Some(Coord(2, 1)), Coord(1, 1), Some(Coord(1, 0))) == '└'
  {
  }

  /** The previous cell used for point i, looking one step further back past a repeated cell. */
  function PrevFor(path: seq<Coord>, i: nat): Option<Coord>
    requires i < |path|
  {
    if i == 0 then None
    else if path[i] == path[i - 1] then (if i >= 2 then Some(path[i - 2]) else None)
    else Some(path[i - 1])
  }

  function NextFor(path: seq<Coord>, i: nat): Option<Coord>
    requires i < |path|
  {
    if i < |path| - 1 then Some(path[i + 1]) else None
  }

  /** The rendering of a path as utils.ts draws it: one cell per point, in order, glyphs from the written table. */
  function RenderingAsWritten(path: seq<Coord>): seq<Cell>
  {
    seq(|path|, i requires 0 <= i < |path| => Cell(path[i], CharForSegmentAsWritten(PrevFor(path, i), path[i], NextFor(path, i))))
  }

  /** The same rendering with the corrected corner table. */
  function Rendering(path: seq<Coord>): seq<Cell>
  {
    seq(|path|, i requires 0 <= i < |path| => Cell(path[i], CharForSegment(PrevFor(path, i), path[i], NextFor(path, i))))
  }

  /** Point i is an interior point whose turn moves upwards, the only place the two tables differ. */
  predicate UpwardTurnAt(path: seq<Coord>, i: nat)
    requires i < |path|
  {
    && PrevFor(path, i).Some? && NextFor(path, i).Some?
    && var p, c, n := PrevFor(path, i).value, path[i], NextFor(path, i).value;
      (IsVertical(p, c) && IsHorizontal(c, n) && p.y > c.y) ||
      (IsHorizontal(p, c) && IsVertical(c, n) && c.y > n.y)
  }

  /** The written and the corrected renderings put the same cells in the same places and differ only at upward turns. */
  lemma RenderingsAgree(path: seq<Coord>)
    ensures |RenderingAsWritten(path)| == |Rendering(path)| == |path|
    ensures forall i :: 0 <= i < |path| ==>
      && RenderingAsWritten(path)[i].position == Rendering(path)[i].position
      && (RenderingAsWritten(path)[i].glyph != Rendering(path)[i].glyph <==> UpwardTurnAt(path, i))
  {
    forall i | 0 <= i < |path|
      ensures RenderingAsWritten(path)[i].glyph != Rendering(path)[i].glyph <==> UpwardTurnAt(path, i)
    {
      if PrevFor(path, i).Some? && NextFor(path, i).Some? {
        TurnDiffersOnlyUpwards(PrevFor(path, i).value, path[i], NextFor(path, i).value);
      }
    }
  }

  /** makePathRendering: a loop over the points with a one-step look-back, drawing with the written table. */
  method MakePathRendering(path: seq<Coord>) returns (result: seq<Cell>)
    ensures result == RenderingAsWritten(path)
  {
    result := [];
    var i := 0;
    while i < |path|
      invariant 0 <= i <= |path|
      invariant result == RenderingAsWritten(path)[..i]
    {
      var prev: Option<Coord> := if i > 0 then Some(path[i - 1]) else None;
      var current := path[i];
      if prev.Some? && current == prev.value {
        prev := if i >= 2 then Some(path[i - 2]) else None;
      }
      var next: Option<Coord> := if i < |path| - 1 then Some(path[i + 1]) else None;
      var glyph := CharForSegmentAsWritten(prev, current, next);
      result := result + [Cell(current, glyph)];
      i := i + 1;
    }
  }

  /** getPath: route, then render. */
  method GetPath(source: Coord, target: Coord) returns (cells: seq<Cell>)
    ensures cells == RenderingAsWritten(OrthoPath(source, target))
    ensures |cells| > 0 && cells[0].position == source && cells[|cells| - 1].position == target
  {
    var path := GetOrthogonalPathPoints(source, target);
    cells := MakePathRendering(path);
  }

  /** One cell per point, each at its point, each glyph from the fixed set. */
  lemma RenderingCells(path: seq<Coord>)
    ensures |RenderingAsWritten(path)| == |path|
    ensures forall i :: 0 <= i < |path| ==> RenderingAsWritten(path)[i].position == path[i] && IsGlyph(RenderingAsWritten(path)[i].glyph)
    ensures |Rendering(path)| == |path|
    ensures forall i :: 0 <= i < |path| ==> Rendering(path)[i].position == path[i] && IsGlyph(Rendering(path)[i].glyph)
  {
  }

  /** A single point has neither neighbour and renders as the fallback dot. */
  lemma RenderingSinglePoint(p: Coord)
    ensures RenderingAsWritten([p]) == [Cell(p, '·')]
    ensures Rendering([p]) == [Cell(p, '·')]
  {
  }

  /** The first point is drawn along its step to the second: '─' when that step is horizontal, '│' otherwise. */
  lemma RenderingStart(path: seq<Coord>)
    requires |path| >= 2
    ensures RenderingAsWritten(path)[0].glyph == (if IsHorizontal(path[0], path[1]) then '─' else '│')
    ensures Rendering(path)[0].glyph == (if IsHorizontal(path[0], path[1]) then '─' else '│')
  {
  }

  /** The last point is drawn along its step from the one before, when it is not a repeat. */
  lemma RenderingEnd(path: seq<Coord>)
    requires |path| >= 2 && path[|path| - 1] != path[|path| - 2]
    ensures var n := |path|;
      RenderingAsWritten(path)[n - 1].glyph == (if IsHorizontal(path[n - 2], path[n - 1]) then '─' else '│')
    ensures var n := |path|;
      Rendering(path)[n - 1].glyph == (if IsHorizontal(path[n - 2], path[n - 1]) then '─' else '│')
  {
  }

  /**
   * A repeated point takes its previous cell from two steps back; the
   * repeat at index 1 has no such cell and is drawn as a start point.
   */
  lemma RenderingLookBack(path: seq<Coord>, i: nat)
    requires 1 <= i < |path| && path[i] == path[i - 1]
    ensures i >= 2 ==> RenderingAsWritten(path)[i].glyph == CharForSegmentAsWritten(Some(path[i - 2]), path[i], NextFor(path, i))
    ensures i == 1 ==> RenderingAsWritten(path)[i].glyph == CharForSegmentAsWritten(None, path[i], NextFor(path, i))
    ensures i >= 2 ==> Rendering(path)[i].glyph == CharForSegment(Some(path[i - 2]), path[i], NextFor(path, i))
    ensures i == 1 ==> Rendering(path)[i].glyph == CharForSegment(None, path[i], NextFor(path, i))
  {
  }

  /** Inside a straight horizontal or vertical run the bar of that run is drawn. */
  lemma RenderingStraight(path: seq<Coord>, i: nat)
    requires 1 <= i < |path| - 1 && path[i] != path[i - 1]
    ensures IsHorizontal(path[i - 1], path[i]) && IsHorizontal(path[i], path[i + 1]) ==> RenderingAsWritten(path)[i].glyph == '─'
    ensures IsVertical(path[i - 1], path[i]) && IsVertical(path[i], path[i + 1]) ==> RenderingAsWritten(path)[i].glyph == '│'
    ensures IsHorizontal(path[i - 1], path[i]) && IsHorizontal(path[i], path[i + 1]) ==> Rendering(path)[i].glyph == '─'
    ensures IsVertical(path[i - 1], path[i]) && IsVertical(path[i], path[i + 1]) ==> Rendering(path)[i].glyph == '│'
  {
  }

  /**
   * A route that climbs to the upper right: from (0, 2) to (2, 0) it pivots
   * on row 1. The written table draws its first bend as '┐'; the corrected
   * one draws '┌'.
   */
  lemma UpwardRouteBend()
    ensures var p := OrthoPath(Coord(0, 2), Coord(2, 0));
      && p == [Coord(0, 2), Coord(0, 1), Coord(0, 1), Coord(1, 1), Coord(2, 1), Coord(2, 1), Coord(2, 0)]
      && RenderingAsWritten(p)[2].glyph == '┐'
      && Rendering(p)[2].glyph == '┌'
  {
    var s, t := Coord(0, 2), Coord(2, 0);
    assert MidY(s, t) == 1;
    assert VSeg(2, 1, 0) == [Coord(0, 2), Coord(0, 1)];
    assert HSeg(0, 2, 1) == [Coord(0, 1), Coord(1, 1), Coord(2, 1)];
    assert VSeg(1, 0, 2) == [Coord(2, 1), Coord(2, 0)];
  }

  /**
   * A route along one row, (0, 0) to (10, 0): thirteen points, the pivot
   * (5, 0) three times, and those three drawn as '·' between bars.
   */
  lemma SameRowRoute()
    ensures var p := OrthoPath(Coord(0, 0), Coord(10, 0));
      && |p| == 13
      && (forall i :: 0 <= i < 13 ==> p[i] == Coord(if i <= 5 then i else if i <= 7 then 5 else i - 2, 0))
      && (forall i :: 0 <= i < 13 ==> RenderingAsWritten(p)[i].glyph == if 5 <= i <= 7 then '·' else '─')
      && (forall i :: 0 <= i < 13 ==> Rendering(p)[i].glyph == if 5 <= i <= 7 then '·' else '─')
  {
    SameRowPoints();
    SameRowRendering(OrthoPath(Coord(0, 0), Coord(10, 0)));
  }

  /** The rendering of those thirteen points: bars, with dots on the three pivot points. */
  lemma SameRowRendering(p: seq<Coord>)
    requires |p| == 13
    requires forall i :: 0 <= i < 13 ==> p[i] == Coord(if i <= 5 then i else if i <= 7 then 5 else i - 2, 0)
    ensures forall i :: 0 <= i < 13 ==> RenderingAsWritten(p)[i].glyph == if 5 <= i <= 7 then '·' else '─'
    ensures forall i :: 0 <= i < 13 ==> Rendering(p)[i].glyph == if 5 <= i <= 7 then '·' else '─'
  {
    forall i | 0 <= i < 13
      ensures RenderingAsWritten(p)[i].glyph == if 5 <= i <= 7 then '·' else '─'
      ensures Rendering(p)[i].glyph == if 5 <= i <= 7 then '·' else '─'
    {
      if i == 0 {
        RenderingStart(p);
      } else if i == 12 {
        RenderingEnd(p);
      } else if 5 <= i <= 7 {
        assert p[i] == Coord(5, 0) && p[i + 1] == Coord(if i == 7 then 6 else 5, 0);
      } else {
        RenderingStraight(p, i);
      }
    }
  }

  /** The points of the route (0, 0) to (10, 0). */
  lemma SameRowPoints()
    ensures var p := OrthoPath(Coord(0, 0), Coord(10, 0));
      && |p| == 13
      && forall i :: 0 <= i < 13 ==> p[i] == Coord(if i <= 5 then i else if i <= 7 then 5 else i - 2, 0)
  {
    var s, t := Coord(0, 0), Coord(10, 0);
    var p := OrthoPath(s, t);
    assert MidX(s, t) == 5;
    assert p == HSeg(0, 5, 0) + VSeg(0, 0, 5) + HSeg(5, 10, 0);
  }
}
