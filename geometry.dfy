/** The closed-form geometry of graph-diagram.js: fitting a diagram into a view
    (`gd.scaling.viewBox`), the outline of a horizontal arrow
    (`gd.horizontalArrowOutline`), and the box that contains every node circle
    (`smallestContainingBox` inside `bind`). Numbers are JavaScript doubles,
    modelled as exact reals. */
module Geometry {

  datatype Point = Point(x: real, y: real)

  datatype Dimensions = Dimensions(width: real, height: real)

  /** An axis-aligned box: its top-left corner and its size. */
  datatype Box = Box(x: real, y: real, width: real, height: real)

  /** The view box that shows a view of the given size with the diagram's extent
      in its centre: the size is the view's, and the two centres coincide. */
  function ViewBox(view: Dimensions, extent: Box): (vb: Box)
    ensures vb.width == view.width && vb.height == view.height
    ensures vb.x + vb.width / 2.0 == extent.x + extent.width / 2.0
    ensures vb.y + vb.height / 2.0 == extent.y + extent.height / 2.0
  {
    Box((extent.width - view.width) / 2.0 + extent.x,
        (extent.height - view.height) / 2.0 + extent.y,
        view.width,
        view.height)
  }

  /** A 1000 by 500 view around the extent at (33, 66) of size 500 by 250 starts at (-217, -59). */
  lemma ViewBoxExample()
    ensures ViewBox(Dimensions(1000.0, 500.0), Box(33.0, 66.0, 500.0, 250.0)) == Box(-217.0, -59.0, 1000.0, 500.0)
  {
  }

  // ---------------------------------------------------------------------------
  // Arrow outline

  const ShaftRadius: real := 4.0
  const HeadRadius: real := 15.0
  const HeadLength: real := 30.0

  /** Where the shaft meets the head: one head length back from the tip, towards the start. */
  function Shoulder(start: real, end: real): (s: real)
    ensures start < end ==> s < end && end - s == HeadLength
    ensures !(start < end) ==> end < s && s - end == HeadLength
  {
    if start < end then end - HeadLength else end + HeadLength
  }

  /** An item of an SVG path: a command letter or a coordinate. */
  datatype PathToken = Command(letter: char) | Coord(value: real)

  /** `gd.horizontalArrowOutline(start, end)`: the items of the closed path of an
      arrow along the x axis with its tail at `start` and its tip at `end`, in the
      order in which they are joined with spaces. */
  function HorizontalArrowOutline(start: real, end: real): (path: seq<PathToken>)
    ensures |path| == 22
    ensures path[0] == Command('M') && path[21] == Command('Z')
    ensures forall i :: 1 <= i < 7 ==> path[3 * i] == Command('L')
    ensures forall i :: 0 <= i < 7 ==> path[3 * i + 1].Coord? && path[3 * i + 2].Coord?
  {
    var shoulder := Shoulder(start, end);
    [Command('M'), Coord(start), Coord(ShaftRadius),
     Command('L'), Coord(shoulder), Coord(ShaftRadius),
     Command('L'), Coord(shoulder), Coord(HeadRadius),
     Command('L'), Coord(end), Coord(0.0),
     Command('L'), Coord(shoulder), Coord(-HeadRadius),
     Command('L'), Coord(shoulder), Coord(-ShaftRadius),
     Command('L'), Coord(start), Coord(-ShaftRadius),
     Command('Z')]
  }

  /** The `i`-th corner visited by an outline path. */
  function Vertex(path: seq<PathToken>, i: nat): Point
    requires 3 * i + 2 < |path| && path[3 * i + 1].Coord? && path[3 * i + 2].Coord?
  {
    Point(path[3 * i + 1].value, path[3 * i + 2].value)
  }

  /** The outline's seven corners: it starts at the top of the tail, has its tip at
      `(end, 0)`, widens from the shaft to the head at the shoulder, and is symmetric
      about the x axis. */
  lemma ArrowShape(start: real, end: real)
    ensures var path := HorizontalArrowOutline(start, end);
      && Vertex(path, 0) == Point(start, ShaftRadius)
      && Vertex(path, 3) == Point(end, 0.0)
      && Vertex(path, 1) == Point(Shoulder(start, end), ShaftRadius)
      && Vertex(path, 2) == Point(Shoulder(start, end), HeadRadius)
      && Vertex(path, 6) == Point(Vertex(path, 0).x, -Vertex(path, 0).y)
      && Vertex(path, 5) == Point(Vertex(path, 1).x, -Vertex(path, 1).y)
      && Vertex(path, 4) == Point(Vertex(path, 2).x, -Vertex(path, 2).y)
  {
  }

  /** The arrow from `b` to `a` is the arrow from `a` to `b` turned round: tail and
      tip swap, and the head lies as far behind the new tip as it did behind the old. */
  lemma ReversedArrow(a: real, b: real)
    requires a != b
    ensures Vertex(HorizontalArrowOutline(b, a), 0).x == Vertex(HorizontalArrowOutline(a, b), 3).x
    ensures Vertex(HorizontalArrowOutline(b, a), 3).x == Vertex(HorizontalArrowOutline(a, b), 0).x
    ensures Vertex(HorizontalArrowOutline(b, a), 1).x - a == -(Vertex(HorizontalArrowOutline(a, b), 1).x - b)
  {
  }

  /** The outline from 7 to 100, which is written `M 7 4 L 70 4 L 70 15 L 100 0 L 70 -15 L 70 -4 L 7 -4 Z`. */
  lemma ForwardArrowExample()
    ensures HorizontalArrowOutline(7.0, 100.0) ==
      [Command('M'), Coord(7.0), Coord(4.0), Command('L'), Coord(70.0), Coord(4.0),
       Command('L'), Coord(70.0), Coord(15.0), Command('L'), Coord(100.0), Coord(0.0),
       Command('L'), Coord(70.0), Coord(-15.0), Command('L'), Coord(70.0), Coord(-4.0),
       Command('L'), Coord(7.0), Coord(-4.0), Command('Z')]
  {
  }

  /** The outline from 100 to 7, which has its shoulder at 37. */
  lemma BackwardArrowExample()
    ensures HorizontalArrowOutline(100.0, 7.0) ==
      [Command('M'), Coord(100.0), Coord(4.0), Command('L'), Coord(37.0), Coord(4.0),
       Command('L'), Coord(37.0), Coord(15.0), Command('L'), Coord(7.0), Coord(0.0),
       Command('L'), Coord(37.0), Coord(-15.0), Command('L'), Coord(37.0), Coord(-4.0),
       Command('L'), Coord(100.0), Coord(-4.0), Command('Z')]
  {
  }

  // ---------------------------------------------------------------------------
  // Extremes, as `Math.min.apply` and `Math.max.apply` find them

  function MinOf(xs: seq<real>): (m: real)
    requires |xs| > 0
    ensures m in xs && forall x :: x in xs ==> m <= x
  {
    if |xs| == 1 then xs[0]
    else
      var rest := MinOf(xs[1..]);
      assert forall x :: x in xs ==> x == xs[0] || x in xs[1..];
      if xs[0] <= rest then xs[0] else rest
  }

  function MaxOf(xs: seq<real>): (m: real)
    requires |xs| > 0
    ensures m in xs && forall x :: x in xs ==> x <= m
  {
    if |xs| == 1 then xs[0]
    else
      var rest := MaxOf(xs[1..]);
      assert forall x :: x in xs ==> x == xs[0] || x in xs[1..];
      if xs[0] >= rest then xs[0] else rest
  }
}
