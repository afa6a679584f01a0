/** The editing logic of graph-editor.js without its pages and events: finding
    the node a dragged node overlaps, the drag-to-connect gesture that creates a
    node and a relationship and retargets the relationship while dragging, and
    the text form in which a node's properties are edited. */
module Editor {
  import opened Options
  import opened Text
  import opened PropertyMaps
  import opened Geometry
  import opened GraphModel

  /** Two nodes overlap when their centres are closer than this, in view units. */
  const OverlapThreshold: real := 50.0

  /** `Number.MAX_VALUE`, that is (2 - 2^-52) * 2^1023. */
  const MaxValue: real := 179769313486231570814527423731704356798070567525844996598917476803157260780028538760589558632766878171540458953514382464234321326889464182768467546703537516986049910576551282076245490090389328944075868508455133942304583236903222948165808559332123348274797826204144723168738177180919299881250404026184124858368.0

  /** A node's position, in model units. */
  function Position(n: Node): Point
    reads n
  {
    Point(n.x, n.y)
  }

  /** The positions of `nodes`, in order. */
  function Positions(nodes: seq<Node>): (points: seq<Point>)
    reads set n | n in nodes
    ensures |points| == |nodes| && forall i :: 0 <= i < |nodes| ==> points[i] == Position(nodes[i])
  {
    seq(|nodes|, i reads set n | n in nodes requires 0 <= i < |nodes| => Position(nodes[i]))
  }

  /** The positions of `nodes` with `moved` put back at `at`: the positions from
      before `moved` was dragged away from `at`. */
  function PositionsWith(nodes: seq<Node>, moved: Node, at: Point): (points: seq<Point>)
    reads set n | n in nodes
    ensures |points| == |nodes|
    ensures forall i :: 0 <= i < |nodes| ==> points[i] == if nodes[i] == moved then at else Position(nodes[i])
  {
    seq(|nodes|, i reads set n | n in nodes requires 0 <= i < |nodes| =>
      if nodes[i] == moved then at else Position(nodes[i]))
  }

  /** The distance `findClosestOverlappingNode` compares: `node.distanceTo(candidate)`,
      given here as `distance` of the two positions, times the internal scale. */
  function ScaledDistance(from: Point, at: Point, distance: (Point, Point) -> real, scale: real): real
  {
    distance(from, at) * scale
  }

  /** A candidate at `at`, other than the node itself (at `from`), that lies within the threshold. */
  predicate Overlaps(node: Node, from: Point, candidate: Node, at: Point, distance: (Point, Point) -> real, scale: real)
  {
    candidate != node && ScaledDistance(from, at, distance, scale) < OverlapThreshold
  }

  /** The state of the search: the closest node so far and its distance. */
  datatype Closest = Closest(node: Node?, distance: real)

  /** The search state after looking at `candidates`, at `points`, in order, for
      the node `node` at `from`. */
  function Scan(node: Node, from: Point, candidates: seq<Node>, points: seq<Point>,
                distance: (Point, Point) -> real, scale: real): Closest
    requires |points| == |candidates|
  {
    if candidates == [] then Closest(null, MaxValue)
    else
      var n := |candidates| - 1;
      var before := Scan(node, from, candidates[..n], points[..n], distance, scale);
      var d := ScaledDistance(from, points[n], distance, scale);
      if candidates[n] != node && d < OverlapThreshold && d < before.distance then Closest(candidates[n], d) else before
  }

  /** The node `findClosestOverlappingNode` picks among `candidates`, or null. */
  function ClosestOverlapping(node: Node, from: Point, candidates: seq<Node>, points: seq<Point>,
                              distance: (Point, Point) -> real, scale: real): Node?
    requires |points| == |candidates|
  {
    Scan(node, from, candidates, points, distance, scale).node
  }

  /** Looking at one more candidate: it becomes the closest when it overlaps and
      is strictly closer than the closest so far. */
  lemma ScanStep(node: Node, from: Point, candidates: seq<Node>, points: seq<Point>, i: nat,
                 distance: (Point, Point) -> real, scale: real)
    requires |points| == |candidates| && i < |candidates|
    ensures var before := Scan(node, from, candidates[..i], points[..i], distance, scale);
      var d := ScaledDistance(from, points[i], distance, scale);
      Scan(node, from, candidates[..i + 1], points[..i + 1], distance, scale) ==
        if candidates[i] != node && d < OverlapThreshold && d < before.distance then Closest(candidates[i], d) else before
  {
    assert candidates[..i + 1][..i] == candidates[..i] && points[..i + 1][..i] == points[..i];
  }

  /** What the search finds: nothing exactly when no candidate overlaps; otherwise
      an overlapping candidate (so never the node itself) at the least distance,
      and the first such one in the list. */
  lemma {:induction false} ScanFinds(node: Node, from: Point, candidates: seq<Node>, points: seq<Point>,
                                     distance: (Point, Point) -> real, scale: real)
    requires |points| == |candidates|
    ensures var s := Scan(node, from, candidates, points, distance, scale);
      && (s.node == null <==>
            forall i :: 0 <= i < |candidates| ==> !Overlaps(node, from, candidates[i], points[i], distance, scale))
      && (s.node == null ==> s.distance == MaxValue)
      && (s.node != null ==>
            exists i :: 0 <= i < |candidates| && candidates[i] == s.node
              && Overlaps(node, from, s.node, points[i], distance, scale)
              && s.distance == ScaledDistance(from, points[i], distance, scale)
              && (forall j :: 0 <= j < |candidates| && Overlaps(node, from, candidates[j], points[j], distance, scale) ==>
                    s.distance <= ScaledDistance(from, points[j], distance, scale))
              && (forall j :: 0 <= j < i && Overlaps(node, from, candidates[j], points[j], distance, scale) ==>
                    s.distance < ScaledDistance(from, points[j], distance, scale)))
  {
    if candidates != [] {
      var n := |candidates| - 1;
      var init, initPoints := candidates[..n], points[..n];
      ScanFinds(node, from, init, initPoints, distance, scale);
      var before := Scan(node, from, init, initPoints, distance, scale);
      assert forall j :: 0 <= j < n ==> candidates[j] == init[j] && points[j] == initPoints[j];
      if before.node != null {
        var i :| 0 <= i < n && init[i] == before.node
          && Overlaps(node, from, before.node, initPoints[i], distance, scale)
          && before.distance == ScaledDistance(from, initPoints[i], distance, scale)
          && (forall j :: 0 <= j < n && Overlaps(node, from, init[j], initPoints[j], distance, scale) ==>
                before.distance <= ScaledDistance(from, initPoints[j], distance, scale))
          && (forall j :: 0 <= j < i && Overlaps(node, from, init[j], initPoints[j], distance, scale) ==>
                before.distance < ScaledDistance(from, initPoints[j], distance, scale));
        assert candidates[i] == before.node;
      }
    }
  }

  /** The loop of `findClosestOverlappingNode`: walks the candidates, at `points`,
      and keeps the nearest one other than `node` (at `from`) that lies within
      the threshold. */
  method ClosestAmong(node: Node, from: Point, candidates: seq<Node>, points: seq<Point>,
                      distance: (Point, Point) -> real, scale: real) returns (closest: Node?)
    requires |points| == |candidates|
    ensures closest == ClosestOverlapping(node, from, candidates, points, distance, scale)
  {
    closest := null;
    var closestDistance := MaxValue;
    for i := 0 to |candidates|
      invariant Closest(closest, closestDistance) == Scan(node, from, candidates[..i], points[..i], distance, scale)
    {
      ScanStep(node, from, candidates, points, i, distance, scale);
      var candidateNode := candidates[i];
      if candidateNode != node {
        var candidateDistance := distance(from, points[i]) * scale;
        if candidateDistance < OverlapThreshold && candidateDistance < closestDistance {
          closest := candidateNode;
          closestDistance := candidateDistance;
        }
      }
    }
    assert candidates[..|candidates|] == candidates && points[..|points|] == points;
  }

  /** The editor's state: the graph being edited and, during a connecting drag,
      the node being dragged out and the relationship that leads to it. */
  class Editor {
    const graph: Model
    var newNode: Node?
    var newRelationship: Relationship?

    ghost predicate Valid()
      reads this, graph
    {
      graph.Valid() && (newNode != null ==> newRelationship != null && newNode.owner == graph)
    }

    constructor (graph: Model)
      requires graph.Valid()
      ensures Valid() && this.graph == graph && newNode == null && newRelationship == null
    {
      this.graph := graph;
      newNode, newRelationship := null, null;
    }

    /** `findClosestOverlappingNode(node)`: the search over the node list, each
        node seen at its current position. */
    method FindClosestOverlappingNode(node: Node, distance: (Point, Point) -> real) returns (closest: Node?)
      ensures var list := IdOrder(graph.nodes);
        closest == ClosestOverlapping(node, Position(node), list, Positions(list), distance, graph.internalScale)
    {
      var allNodes := graph.NodeList();
      closest := ClosestAmong(node, Position(node), allNodes, Positions(allNodes), distance, graph.internalScale);
    }

    /** `drag()` on `node` by `(dx, dy)` view units. With shift held and no
        connecting drag under way, a node is created at `node`'s position with a
        relationship from `node` to it. During a connecting drag the relationship
        is pointed at the node that the new node overlaps where it stood before
        this move, if any, else at the new node, and then the new node is moved
        instead of `node`. */
    method Drag(node: Node, shiftKey: bool, dx: real, dy: real, distance: (Point, Point) -> real)
      requires Valid() && node.owner == graph && graph.internalScale != 0.0
      modifies this, graph, node, newNode, newRelationship
      ensures Valid() && graph.internalScale == old(graph.internalScale)
      ensures node.labelText == old(node.labelText) && node.properties == old(node.properties)
      ensures old(newNode) == null && shiftKey ==>
        fresh(newNode) && fresh(newRelationship)
        && newRelationship.start == node && newRelationship.labelText == "KNOWS"
        && newNode.labelText == "" && newNode.properties == []
        && newNode.id !in old(graph.nodes) && graph.nodes == old(graph.nodes)[newNode.id := newNode]
        && graph.highestId == newNode.id && old(graph.highestId) <= newNode.id
        && (forall k :: old(graph.highestId) <= k < newNode.id ==> k in old(graph.nodes))
        && graph.relationships == old(graph.relationships) + [newRelationship]
        && newNode.x == old(node.x) + dx / graph.internalScale && newNode.y == old(node.y) + dy / graph.internalScale
      ensures !(old(newNode) == null && shiftKey) ==>
        newNode == old(newNode) && newRelationship == old(newRelationship)
        && graph.nodes == old(graph.nodes) && graph.relationships == old(graph.relationships)
        && graph.highestId == old(graph.highestId)
      ensures old(newNode) != null ==>
        newNode.x == old(newNode.x) + dx / graph.internalScale && newNode.y == old(newNode.y) + dy / graph.internalScale
        && newNode.labelText == old(newNode.labelText) && newNode.properties == old(newNode.properties)
        && newRelationship.start == old(newRelationship.start)
        && newRelationship.labelText == old(newRelationship.labelText)
      ensures old(newNode) == null && !shiftKey && newRelationship != null ==>
        newRelationship.start == old(newRelationship.start) && newRelationship.end == old(newRelationship.end)
        && newRelationship.labelText == old(newRelationship.labelText)
      ensures newNode != null ==>
        var list := IdOrder(graph.nodes);
        var from := if old(newNode) == null then Point(old(node.x), old(node.y)) else Point(old(newNode.x), old(newNode.y));
        var c := ClosestOverlapping(newNode, from, list, PositionsWith(list, newNode, from), distance, graph.internalScale);
        newRelationship.end == if c != null then c else newNode
      ensures newNode == null ==>
        node.x == old(node.x) + dx / graph.internalScale && node.y == old(node.y) + dy / graph.internalScale
      ensures newNode != null && node != newNode ==> node.x == old(node.x) && node.y == old(node.y)
    {
      if newNode == null && shiftKey {
        BeginConnection(node);
      }
      if newNode != null {
        Retarget(distance);
        ghost var list, from := IdOrder(graph.nodes), Position(newNode);
        ghost var points := Positions(list);
        newNode.Drag(dx, dy);
        assert PositionsWith(list, newNode, from) == points;
      } else {
        node.Drag(dx, dy);
      }
    }

    /** The start of a connecting drag: a node at `node`'s position and a
        relationship from `node` to it. */
    method BeginConnection(node: Node)
      requires Valid() && newNode == null
      modifies this, graph
      ensures Valid() && graph.internalScale == old(graph.internalScale)
      ensures fresh(newNode) && fresh(newRelationship)
      ensures newRelationship.start == node && newRelationship.end == newNode && newRelationship.labelText == "KNOWS"
      ensures graph.highestId == newNode.id && old(graph.highestId) <= newNode.id
      ensures forall k :: old(graph.highestId) <= k < newNode.id ==> k in old(graph.nodes)
      ensures newNode.id !in old(graph.nodes) && graph.nodes == old(graph.nodes)[newNode.id := newNode]
      ensures graph.relationships == old(graph.relationships) + [newRelationship]
      ensures newNode.x == node.x && newNode.y == node.y && newNode.labelText == "" && newNode.properties == []
    {
      var created := graph.CreateNode(None);
      created.SetX(node.x);
      created.SetY(node.y);
      newNode := created;
      newRelationship := graph.CreateRelationship(node, created);
    }

    /** Points the relationship of a connecting drag at the node that the new node
        overlaps, or back at the new node when it overlaps none. */
    method Retarget(distance: (Point, Point) -> real)
      requires Valid() && newNode != null
      modifies newRelationship
      ensures newRelationship.start == old(newRelationship.start) && newRelationship.labelText == old(newRelationship.labelText)
      ensures var list := IdOrder(graph.nodes);
        var c := ClosestOverlapping(newNode, Position(newNode), list, Positions(list), distance, graph.internalScale);
        newRelationship.end == if c != null then c else newNode
    {
      var connectionNode := FindClosestOverlappingNode(newNode, distance);
      if connectionNode != null {
        newRelationship.end := connectionNode;
      } else {
        newRelationship.end := newNode;
      }
    }

    /** `dragEnd()`: a new node whose relationship was pointed at another node is
        deleted again; the connecting drag is over either way. */
    method DragEnd()
      requires Valid()
      modifies this, graph
      ensures Valid() && newNode == null && newRelationship == old(newRelationship)
      ensures graph.nodes ==
        if old(newNode) != null && old(newRelationship) != null && old(newRelationship.end) != old(newNode)
        then old(graph.nodes) - {old(newNode).id}
        else old(graph.nodes)
      ensures graph.relationships == old(graph.relationships) && graph.internalScale == old(graph.internalScale)
    {
      if newNode != null && newRelationship != null && newRelationship.end != newNode {
        graph.DeleteNode(newNode);
      }
      newNode := null;
    }
  }

  // ---------------------------------------------------------------------------
  // The properties text of the node editor

  /** The characters `String.prototype.trim` removes: white space and line terminators. */
  predicate IsJsWhitespace(c: char)
  {
    c == '\t' || c == '\n' || c == '\U{B}' || c == '\U{C}' || c == '\r' || c == ' '
    || c == '\U{A0}' || c == '\U{1680}' || '\U{2000}' <= c <= '\U{200A}'
    || c == '\U{2028}' || c == '\U{2029}' || c == '\U{202F}' || c == '\U{205F}'
    || c == '\U{3000}' || c == '\U{FEFF}'
  }

  /** `s` without its leading white space. */
  function TrimStart(s: string): string
  {
    if s != [] && IsJsWhitespace(s[0]) then TrimStart(s[1..]) else s
  }

  /** `s` without its trailing white space. */
  function TrimEnd(s: string): string
  {
    if s != [] && IsJsWhitespace(s[|s| - 1]) then TrimEnd(s[..|s| - 1]) else s
  }

  /** `s.trim()`. */
  function Trim(s: string): string
  {
    TrimEnd(TrimStart(s))
  }

  /** Trimming removes white space from both ends and nothing else: what is left
      is a slice of `s` that neither starts nor ends with white space. */
  lemma {:induction false} TrimStartSpec(s: string)
    ensures var r := TrimStart(s);
      && |r| <= |s| && r == s[|s| - |r|..]
      && (forall i :: 0 <= i < |s| - |r| ==> IsJsWhitespace(s[i]))
      && (r != [] ==> !IsJsWhitespace(r[0]))
  {
    if s != [] && IsJsWhitespace(s[0]) {
      TrimStartSpec(s[1..]);
      var r := TrimStart(s[1..]);
      assert s[1..][|s| - 1 - |r|..] == s[|s| - |r|..];
      forall i | 0 <= i < |s| - |r| ensures IsJsWhitespace(s[i]) {
        if i > 0 {
          assert s[i] == s[1..][i - 1];
        }
      }
    }
  }

  lemma {:induction false} TrimEndSpec(s: string)
    ensures var r := TrimEnd(s);
      && |r| <= |s| && r == s[..|r|]
      && (forall i :: |r| <= i < |s| ==> IsJsWhitespace(s[i]))
      && (r != [] ==> !IsJsWhitespace(r[|r| - 1]))
  {
    if s != [] && IsJsWhitespace(s[|s| - 1]) {
      TrimEndSpec(s[..|s| - 1]);
      var r := TrimEnd(s[..|s| - 1]);
      assert s[..|s| - 1][..|r|] == s[..|r|];
      forall i | |r| <= i < |s| ensures IsJsWhitespace(s[i]) {
        if i < |s| - 1 {
          assert s[i] == s[..|s| - 1][i];
        }
      }
    }
  }

  /** A trimmed string neither starts nor ends with white space. */
  lemma TrimSpec(s: string)
    ensures var r := Trim(s);
      r != [] ==> !IsJsWhitespace(r[0]) && !IsJsWhitespace(r[|r| - 1])
  {
    var t := TrimStart(s);
    TrimStartSpec(s);
    TrimEndSpec(t);
  }

  /** A string with no white space at either end is its own trim. */
  lemma TrimmedIsFixed(s: string)
    requires s != [] ==> !IsJsWhitespace(s[0]) && !IsJsWhitespace(s[|s| - 1])
    ensures Trim(s) == s
  {
  }

  /** Leading spaces make no difference to the trim. */
  lemma {:induction false} TrimSkipsSpaces(s: string)
    ensures TrimStart(SkipSpaces(s)) == TrimStart(s)
  {
    if s != [] && s[0] == ' ' {
      TrimSkipsSpaces(s[1..]);
    }
  }

  /** `t` without the spaces that the pattern `: *` takes after a colon. */
  function SkipSpaces(t: string): string
  {
    if t != [] && t[0] == ' ' then SkipSpaces(t[1..]) else t
  }

  /** `line.split` on the pattern `: *`: the pieces between colons, each colon
      taking the spaces that follow it. */
  function SplitFields(line: string): (tokens: seq<string>)
    ensures |tokens| == Count(line, ':') + 1
  {
    var parts := Split(line, ':');
    [parts[0]] + MapSeq(SkipSpaces, parts[1..])
  }

  /** One line of the properties text: a property when it holds exactly two
      fields and both are non-empty once trimmed. */
  function ParseLine(line: string): (r: Option<Entry>)
    ensures r.Some? ==> Count(line, ':') == 1
  {
    var tokens := SplitFields(line);
    if |tokens| == 2 then
      var key := Trim(tokens[0]);
      var value := Trim(tokens[1]);
      if |key| > 0 && |value| > 0 then Some(Entry(key, value)) else None
    else None
  }

  /** A line with one colon gives the trimmed text before and after it, when both are non-empty. */
  lemma ParseLineOfPair(a: string, b: string)
    requires ':' !in a && ':' !in b
    ensures ParseLine(a + ":" + b) ==
      if Trim(a) != [] && Trim(b) != [] then Some(Entry(Trim(a), Trim(b))) else None
  {
    SplitNone(b, ':');
    SplitAppend(a, ':', b);
    assert a + ":" + b == a + [':'] + b;
    assert SplitFields(a + ":" + b) == [a, SkipSpaces(b)];
    TrimSkipsSpaces(b);
  }

  /** The property a line contributes: none, or one. */
  function LineEntries(line: string): seq<Entry>
  {
    match ParseLine(line)
    case Some(e) => [e]
    case None => []
  }

  /** The properties the lines yield, in line order. */
  function ParsedEntries(lines: seq<string>): seq<Entry>
  {
    if lines == [] then [] else LineEntries(lines[0]) + ParsedEntries(lines[1..])
  }

  lemma ParsedEntriesCons(line: string, lines: seq<string>)
    ensures ParsedEntries([line] + lines) == LineEntries(line) + ParsedEntries(lines)
  {
    assert ([line] + lines)[1..] == lines;
  }

  lemma {:induction false} ParsedEntriesSnoc(lines: seq<string>, line: string)
    ensures ParsedEntries(lines + [line]) == ParsedEntries(lines) + LineEntries(line)
  {
    if lines != [] {
      assert (lines + [line])[1..] == lines[1..] + [line];
      ParsedEntriesSnoc(lines[1..], line);
    }
  }

  /** The property list `saveChange` leaves: the properties of the lines of
      `text`, set one after another into an emptied list. */
  function ParsedProperties(text: string): seq<Entry>
  {
    Assigned(ParsedEntries(Split(text, '\n')))
  }

  /** `saveChange()` of the node editor: sets the label, clears the properties and
      sets those of every line that parses. */
  method SaveChange(node: Node, labelText: string, propertiesText: string)
    modifies node
    ensures node.labelText == labelText && node.properties == ParsedProperties(propertiesText)
    ensures node.x == old(node.x) && node.y == old(node.y)
  {
    node.SetLabel(labelText);
    node.properties := [];
    var lines := Split(propertiesText, '\n');
    for i := 0 to |lines|
      invariant node.properties == Assigned(ParsedEntries(lines[..i]))
      invariant node.labelText == labelText && node.x == old(node.x) && node.y == old(node.y)
    {
      var parsed := ParseLine(lines[i]);
      ParsedPropertiesStep(lines, i, parsed);
      if parsed.Some? {
        node.properties := Put(node.properties, parsed.value.key, parsed.value.value);
      }
    }
    assert lines[..|lines|] == lines;
  }

  /** Taking in one more line sets the property it yields, if any. */
  lemma ParsedPropertiesStep(lines: seq<string>, i: nat, parsed: Option<Entry>)
    requires i < |lines| && parsed == ParseLine(lines[i])
    ensures Assigned(ParsedEntries(lines[..i + 1])) ==
      if parsed.Some? then Put(Assigned(ParsedEntries(lines[..i])), parsed.value.key, parsed.value.value)
      else Assigned(ParsedEntries(lines[..i]))
  {
    assert lines[..i + 1] == lines[..i] + [lines[i]];
    ParsedEntriesSnoc(lines[..i], lines[i]);
    if parsed.Some? {
      AssignedSnoc(ParsedEntries(lines[..i]), parsed.value);
    } else {
      assert ParsedEntries(lines[..i + 1]) == ParsedEntries(lines[..i]);
    }
  }

  /** The text the node editor starts from: one `key: value` line per property. */
  function PropertiesText(props: seq<Entry>): string
  {
    if props == [] then "" else props[0].key + ": " + props[0].value + "\n" + PropertiesText(props[1..])
  }

  /** A key or value that survives being written out and read back: non-empty,
      without colon or line break, and without white space at either end. */
  predicate Storable(t: string)
  {
    t != [] && ':' !in t && '\n' !in t && !IsJsWhitespace(t[0]) && !IsJsWhitespace(t[|t| - 1])
  }

  ghost predicate WellFormedProperties(props: seq<Entry>)
  {
    UniqueKeys(props) && forall i :: 0 <= i < |props| ==> Storable(props[i].key) && Storable(props[i].value)
  }

  function PropertyLines(props: seq<Entry>): seq<string>
  {
    if props == [] then [] else [props[0].key + ": " + props[0].value] + PropertyLines(props[1..])
  }

  lemma {:induction false} SplitPropertiesText(props: seq<Entry>)
    requires forall i :: 0 <= i < |props| ==> '\n' !in props[i].key && '\n' !in props[i].value
    ensures Split(PropertiesText(props), '\n') == PropertyLines(props) + [""]
  {
    if props != [] {
      var line := props[0].key + ": " + props[0].value;
      SplitPropertiesText(props[1..]);
      assert PropertiesText(props) == line + ['\n'] + PropertiesText(props[1..]);
      SplitAppend(line, '\n', PropertiesText(props[1..]));
    }
  }

  /** The line written for a storable property reads back as that property. */
  lemma ParseStoredLine(e: Entry)
    requires Storable(e.key) && Storable(e.value)
    ensures LineEntries(e.key + ": " + e.value) == [e]
  {
    assert e.key + ": " + e.value == e.key + ":" + (" " + e.value);
    ParseLineOfPair(e.key, " " + e.value);
    assert SkipSpaces(" " + e.value) == e.value;
    TrimSkipsSpaces(" " + e.value);
    TrimmedIsFixed(e.key);
    TrimmedIsFixed(e.value);
  }

  /** The empty line after the last line break carries no property. */
  lemma EmptyLineYieldsNothing()
    ensures LineEntries("") == []
  {
    assert SplitFields("") == [""];
  }

  /** When the first line reads back as the first property and the lines after it
      read back as the rest, all the lines read back as the whole list. */
  lemma StoredLineThen(props: seq<Entry>)
    requires props != []
    requires LineEntries(props[0].key + ": " + props[0].value) == [props[0]]
    requires ParsedEntries(PropertyLines(props[1..]) + [""]) == props[1..]
    ensures ParsedEntries(PropertyLines(props) + [""]) == props
  {
    var line := props[0].key + ": " + props[0].value;
    assert PropertyLines(props) + [""] == [line] + (PropertyLines(props[1..]) + [""]);
    ParsedEntriesCons(line, PropertyLines(props[1..]) + [""]);
  }

  lemma {:induction false} ParsePropertyLines(props: seq<Entry>)
    requires forall i :: 0 <= i < |props| ==> Storable(props[i].key) && Storable(props[i].value)
    ensures ParsedEntries(PropertyLines(props) + [""]) == props
  {
    if props == [] {
      EmptyLineYieldsNothing();
      ParsedEntriesCons("", []);
    } else {
      var rest, e := props[1..], props[0];
      assert forall i :: 0 <= i < |rest| ==> rest[i] == props[i + 1];
      ParsePropertyLines(rest);
      ParseStoredLine(e);
      StoredLineThen(props);
    }
  }

  /** Writing the properties out as text and saving that text unchanged gives the
      same property list back. */
  lemma FormatThenParse(props: seq<Entry>)
    requires WellFormedProperties(props)
    ensures ParsedProperties(PropertiesText(props)) == props
  {
    SplitPropertiesText(props);
    ParsePropertyLines(props);
    AssignedUniqueIsIdentity(props);
  }
}
