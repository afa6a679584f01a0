/** The pure helpers of `bind` in graph-diagram.js: the box that holds every
    node circle, and the arrow and label placement of a relationship, drawn in
    a frame whose origin is the start node's centre and whose x axis points
    along the relationship (turned round when the end lies to the left). */
module Bind {
  import opened Options
  import opened Geometry
  import opened GraphModel

  const Radius: real := 50.0
  const StrokeWidth: real := 8.0
  const NodeStartMargin: real := 15.0
  const NodeEndMargin: real := 15.0

  /** The margin `smallestContainingBox` leaves around each node centre: the radius
      plus the whole stroke width. (The stroke is drawn centred on the circle, so
      the drawn edge itself lies only `Radius + StrokeWidth / 2` from the centre.) */
  const Reach: real := Radius + StrokeWidth

  /** `graph.nodeList().map(cx)`: the view x coordinates of the nodes' centres. */
  function CentreXs(nodes: seq<Node>): (xs: seq<real>)
    reads set n | n in nodes, set n | n in nodes :: n.owner
    ensures |xs| == |nodes| && forall i :: 0 <= i < |nodes| ==> xs[i] == nodes[i].Ex()
  {
    seq(|nodes|, i reads nodes, set n | n in nodes, set n | n in nodes :: n.owner
      requires 0 <= i < |nodes| => nodes[i].Ex())
  }

  /** `graph.nodeList().map(cy)`. */
  function CentreYs(nodes: seq<Node>): (ys: seq<real>)
    reads set n | n in nodes, set n | n in nodes :: n.owner
    ensures |ys| == |nodes| && forall i :: 0 <= i < |nodes| ==> ys[i] == nodes[i].Ey()
  {
    seq(|nodes|, i reads nodes, set n | n in nodes, set n | n in nodes :: n.owner
      requires 0 <= i < |nodes| => nodes[i].Ey())
  }

  /** `smallestContainingBox(graph)` over the graph's node list: the least box that
      holds every node circle with its stroke. There is none for a graph without
      nodes. */
  function SmallestContainingBox(nodes: seq<Node>): (box: Option<Box>)
    reads set n | n in nodes, set n | n in nodes :: n.owner
    ensures box.None? <==> nodes == []
    ensures box.Some? ==> forall i :: 0 <= i < |nodes| ==>
      box.value.x <= nodes[i].Ex() - Reach && nodes[i].Ex() + Reach <= box.value.x + box.value.width
      && box.value.y <= nodes[i].Ey() - Reach && nodes[i].Ey() + Reach <= box.value.y + box.value.height
    ensures box.Some? ==>
      (exists i :: 0 <= i < |nodes| && nodes[i].Ex() - Reach == box.value.x)
      && (exists i :: 0 <= i < |nodes| && nodes[i].Ex() + Reach == box.value.x + box.value.width)
      && (exists i :: 0 <= i < |nodes| && nodes[i].Ey() - Reach == box.value.y)
      && (exists i :: 0 <= i < |nodes| && nodes[i].Ey() + Reach == box.value.y + box.value.height)
  {
    if nodes == [] then None
    else
      var cxs, cys := CentreXs(nodes), CentreYs(nodes);
      var xMin, xMax := MinOf(cxs) - Radius - StrokeWidth, MaxOf(cxs) + Radius + StrokeWidth;
      var yMin, yMax := MinOf(cys) - Radius - StrokeWidth, MaxOf(cys) + Radius + StrokeWidth;
      assert forall i :: 0 <= i < |nodes| ==> cxs[i] in cxs && cys[i] in cys;
      Some(Box(xMin, yMin, xMax - xMin, yMax - yMin))
  }

  /** `+1` when the relationship is drawn to the right of its start, `-1` when its
      end lies to the left of its start. */
  function Side(d: Relationship): real
    reads d, d.start, d.end
  {
    if d.end.IsLeftOf(d.start) then -1.0 else 1.0
  }

  /** `horizontalArrow(d)`, where `length` is the distance between the centres
      of the two ends. */
  function HorizontalArrow(d: Relationship, length: real): seq<PathToken>
    reads d, d.start, d.end
  {
    HorizontalArrowOutline(Side(d) * (Radius + NodeStartMargin), Side(d) * (length - (Radius + NodeEndMargin)))
  }

  /** The arrow leaves the start circle one margin beyond its rim and stops one
      margin short of the end circle's rim, which is centred `length` along the axis. */
  lemma ArrowClearsBothNodes(d: Relationship, length: real)
    ensures var path := HorizontalArrow(d, length);
      && Vertex(path, 0).x == Side(d) * (Radius + NodeStartMargin)
      && Side(d) * length - Vertex(path, 3).x == Side(d) * (Radius + NodeEndMargin)
      && Vertex(path, 3).y == 0.0
  {
    ArrowShape(Side(d) * (Radius + NodeStartMargin), Side(d) * (length - (Radius + NodeEndMargin)));
  }

  /** `midwayBetweenStartAndEnd(d)`: where the relationship's label goes on the axis. */
  function MidwayBetweenStartAndEnd(d: Relationship, length: real): real
    reads d, d.start, d.end
  {
    Side(d) * length / 2.0
  }

  /** The label sits halfway between the two node centres, and also halfway
      between the arrow's tail and its tip. */
  lemma LabelIsMidway(d: Relationship, length: real)
    ensures var m, path := MidwayBetweenStartAndEnd(d, length), HorizontalArrow(d, length);
      && m - 0.0 == Side(d) * length - m
      && m - Vertex(path, 0).x == Vertex(path, 3).x - m
  {
    ArrowClearsBothNodes(d, length);
  }
}
