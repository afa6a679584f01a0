/** The graph model of graph-diagram.js (`gd.model()`): a table of nodes keyed by
    id, a list of relationships, the counter that allocates node ids and the
    internal scale between model and view coordinates. */
module GraphModel {
  import opened Options
  import opened Geometry
  import opened PropertyMaps

  /** A node: its id and the model it belongs to never change; its position,
      label and property list are set in place. */
  class Node {
    const id: nat
    const owner: Model
    var x: real
    var y: real
    var labelText: string
    var properties: seq<Entry>

    constructor (id: nat, owner: Model)
      ensures this.id == id && this.owner == owner
      ensures x == 0.0 && y == 0.0 && labelText == "" && properties == []
    {
      this.id := id;
      this.owner := owner;
      x, y, labelText, properties := 0.0, 0.0, "", [];
    }

    /** `x(v)`: sets the model x coordinate and nothing else. */
    method SetX(v: real)
      modifies this
      ensures x == v && y == old(y) && labelText == old(labelText) && properties == old(properties)
    {
      x := v;
    }

    /** `y(v)`: sets the model y coordinate and nothing else. */
    method SetY(v: real)
      modifies this
      ensures y == v && x == old(x) && labelText == old(labelText) && properties == old(properties)
    {
      y := v;
    }

    /** `label(text)`: sets the label and nothing else. */
    method SetLabel(text: string)
      modifies this
      ensures labelText == text && x == old(x) && y == old(y) && properties == old(properties)
    {
      labelText := text;
    }

    /** `ex()`: the x coordinate in view units. Dividing by a non-zero scale gives the model coordinate back. */
    function Ex(): (ex: real)
      reads this, owner
      ensures owner.internalScale != 0.0 ==> ex / owner.internalScale == x
    {
      x * owner.internalScale
    }

    /** `ey()`: the y coordinate in view units. */
    function Ey(): (ey: real)
      reads this, owner
      ensures owner.internalScale != 0.0 ==> ey / owner.internalScale == y
    {
      y * owner.internalScale
    }

    /** `drag(dx, dy)`: moves the node by `(dx, dy)` view units, that is by
        `(dx, dy) / internalScale` model units. */
    method Drag(dx: real, dy: real)
      requires owner.internalScale != 0.0
      modifies this
      ensures x == old(x) + dx / owner.internalScale && y == old(y) + dy / owner.internalScale
      ensures Ex() == old(Ex()) + dx && Ey() == old(Ey()) + dy
      ensures labelText == old(labelText) && properties == old(properties)
    {
      x := x + dx / owner.internalScale;
      y := y + dy / owner.internalScale;
    }

    /** `midwayTo(node)`: the point halfway between this node and `other`, in model units. */
    function MidwayTo(other: Node): (p: Point)
      reads this, other
      ensures p.x - x == other.x - p.x && p.y - y == other.y - p.y
    {
      Point(x + (other.x - x) / 2.0, y + (other.y - y) / 2.0)
    }

    /** `isLeftOf(node)`. */
    predicate IsLeftOf(other: Node)
      reads this, other
    {
      x < other.x
    }
  }

  /** The point halfway between two nodes does not depend on which one asks. */
  lemma MidwaySymmetric(a: Node, b: Node)
    ensures a.MidwayTo(b) == b.MidwayTo(a)
  {
  }

  /** `isLeftOf` is a strict order: never both ways, never of a node and itself,
      and transitive. */
  lemma IsLeftOfStrictOrder(a: Node, b: Node, c: Node)
    ensures !(a.IsLeftOf(b) && b.IsLeftOf(a))
    ensures !a.IsLeftOf(a)
    ensures a.IsLeftOf(b) && b.IsLeftOf(c) ==> a.IsLeftOf(c)
  {
  }

  /** A relationship: its ends and its label can be reassigned. */
  class Relationship {
    var start: Node
    var end: Node
    var labelText: string

    constructor (start: Node, end: Node, text: string)
      ensures this.start == start && this.end == end && this.labelText == text
    {
      this.start, this.end, this.labelText := start, end, text;
    }

    /** `label(text)`. */
    method SetLabel(text: string)
      modifies this
      ensures labelText == text && start == old(start) && end == old(end)
    {
      labelText := text;
    }
  }

  /** Every entry of the node table is stored under its own id. */
  ghost predicate KeyedById(nodes: map<nat, Node>)
  {
    forall k :: k in nodes ==> nodes[k].id == k
  }

  /** There is always a least key. */
  lemma {:induction false} Least(keys: set<nat>) returns (least: nat)
    requires keys != {}
    ensures least in keys && forall k :: k in keys ==> least <= k
  {
    var k :| k in keys;
    if keys == {k} {
      least := k;
    } else {
      var rest := keys - {k};
      var m := Least(rest);
      least := if k < m then k else m;
      forall j | j in keys ensures least <= j {
        if j != k {
          assert j in rest;
        }
      }
    }
  }

  lemma HasLeast(keys: set<nat>)
    requires keys != {}
    ensures exists m :: m in keys && forall k :: k in keys ==> m <= k
  {
    var m := Least(keys);
  }

  function LeastKey(keys: set<nat>): (m: nat)
    requires keys != {}
    ensures m in keys && forall k :: k in keys ==> m <= k
  {
    HasLeast(keys);
    var m :| m in keys && forall k :: k in keys ==> m <= k;
    m
  }

  /** The nodes of a table in the order `for (id in nodes)` visits them: integer
      keys in ascending order. */
  function IdOrder(nodes: map<nat, Node>): seq<Node>
    decreases |nodes|
  {
    if nodes == map[] then []
    else
      var k := LeastKey(nodes.Keys);
      [nodes[k]] + IdOrder(nodes - {k})
  }

  /** The list holds exactly the table's nodes. */
  lemma {:induction false} IdOrderContents(nodes: map<nat, Node>)
    ensures |IdOrder(nodes)| == |nodes|
    ensures forall i :: 0 <= i < |IdOrder(nodes)| ==> IdOrder(nodes)[i] in nodes.Values
    ensures forall n :: n in nodes.Values ==> n in IdOrder(nodes)
  {
    if nodes != map[] {
      var k := LeastKey(nodes.Keys);
      var rest := nodes - {k};
      IdOrderContents(rest);
      forall n | n in nodes.Values ensures n in IdOrder(nodes) {
        var j :| j in nodes && nodes[j] == n;
        if j != k {
          assert rest[j] == n;
        }
      }
      forall i | 0 <= i < |IdOrder(nodes)| ensures IdOrder(nodes)[i] in nodes.Values {
        if i > 0 {
          var n := IdOrder(rest)[i - 1];
          assert n in rest.Values;
          var j :| j in rest && rest[j] == n;
          assert nodes[j] == n;
        }
      }
    }
  }

  /** In a table keyed by id the list is in strictly ascending id order. */
  lemma {:induction false} IdOrderAscending(nodes: map<nat, Node>)
    requires KeyedById(nodes)
    ensures forall i, j :: 0 <= i < j < |IdOrder(nodes)| ==> IdOrder(nodes)[i].id < IdOrder(nodes)[j].id
  {
    if nodes != map[] {
      var k := LeastKey(nodes.Keys);
      var rest := nodes - {k};
      var list := IdOrder(nodes);
      IdOrderAscending(rest);
      IdOrderContents(rest);
      assert list == [nodes[k]] + IdOrder(rest);
      forall i, j | 0 <= i < j < |list| ensures list[i].id < list[j].id {
        if i == 0 {
          var n := list[j];
          assert n == IdOrder(rest)[j - 1];
          assert n in rest.Values;
          var m :| m in rest && rest[m] == n;
          assert nodes[m] == n;
          assert n.id == m && m != k && k <= m;
        } else {
          assert list[i] == IdOrder(rest)[i - 1] && list[j] == IdOrder(rest)[j - 1];
        }
      }
    }
  }

  /** `gd.model()`. */
  class Model {
    var nodes: map<nat, Node>
    var relationships: seq<Relationship>
    var highestId: nat
    var internalScale: real

    ghost predicate Valid()
      reads this
    {
      KeyedById(nodes) && forall k :: k in nodes ==> nodes[k].owner == this
    }

    constructor ()
      ensures Valid()
      ensures nodes == map[] && relationships == [] && highestId == 0 && internalScale == 1.0
    {
      nodes, relationships, highestId, internalScale := map[], [], 0, 1.0;
    }

    /** `generateNodeId()`: advances the counter past every id in use and returns
        it, so the id is the least free one at or above where the counter stood. */
    method GenerateNodeId() returns (id: nat)
      modifies this`highestId
      ensures id == highestId && id !in nodes
      ensures old(highestId) <= id
      ensures forall k :: old(highestId) <= k < id ==> k in nodes
    {
      while highestId in nodes
        invariant old(highestId) <= highestId
        invariant forall k :: old(highestId) <= k < highestId ==> k in nodes
        decreases set k | k in nodes && highestId <= k
      {
        ghost var above := set k | k in nodes && highestId <= k;
        highestId := highestId + 1;
        assert (set k | k in nodes && highestId <= k) < above by {
          assert highestId - 1 in above;
        }
      }
      id := highestId;
    }

    /** `createNode(optionalNodeId)`: a fresh node at the origin under the given id,
        or under a generated one when no id (or the falsy id 0) is given; a node
        already stored under that id is replaced. */
    method CreateNode(optionalNodeId: Option<nat>) returns (node: Node)
      requires Valid()
      modifies this
      ensures Valid() && fresh(node)
      ensures node.owner == this && node.x == 0.0 && node.y == 0.0 && node.labelText == "" && node.properties == []
      ensures nodes == old(nodes)[node.id := node]
      ensures relationships == old(relationships) && internalScale == old(internalScale)
      ensures optionalNodeId.Some? && optionalNodeId.value != 0 ==>
        node.id == optionalNodeId.value && highestId == old(highestId)
      ensures optionalNodeId.None? || optionalNodeId.value == 0 ==>
        node.id !in old(nodes) && node.id == highestId && old(highestId) <= node.id
        && forall k :: old(highestId) <= k < node.id ==> k in old(nodes)
    {
      var nodeId: nat;
      if optionalNodeId.Some? && optionalNodeId.value != 0 {
        nodeId := optionalNodeId.value;
      } else {
        nodeId := GenerateNodeId();
      }
      node := new Node(nodeId, this);
      nodes := nodes[nodeId := node];
    }

    /** `deleteNode(node)`: removes whatever is stored under the node's id; the
        relationships are left as they are. */
    method DeleteNode(node: Node)
      requires Valid()
      modifies this`nodes
      ensures Valid()
      ensures nodes == old(nodes) - {node.id}
    {
      nodes := nodes - {node.id};
    }

    /** `createRelationship(start, end)`: appends a fresh relationship labelled `KNOWS`. */
    method CreateRelationship(start: Node, end: Node) returns (relationship: Relationship)
      modifies this`relationships
      ensures fresh(relationship)
      ensures relationship.start == start && relationship.end == end && relationship.labelText == "KNOWS"
      ensures relationships == old(relationships) + [relationship]
    {
      relationship := new Relationship(start, end, "KNOWS");
      relationships := relationships + [relationship];
    }

    /** `nodeList()`: the nodes, visited in ascending id order. */
    method NodeList() returns (list: seq<Node>)
      ensures list == IdOrder(nodes)
    {
      list := [];
      var rest := nodes;
      while rest != map[]
        invariant list + IdOrder(rest) == IdOrder(nodes)
        decreases |rest|
      {
        var k := LeastKey(rest.Keys);
        assert IdOrder(rest) == [rest[k]] + IdOrder(rest - {k});
        list := list + [rest[k]];
        rest := rest - {k};
      }
    }

    /** `lookupNode(id)`: the node stored under `id`, or null when there is none. */
    function LookupNode(id: nat): (node: Node?)
      requires Valid()
      reads this
      ensures node != null <==> id in nodes
      ensures node != null ==> node.id == id && node.owner == this
    {
      if id in nodes then nodes[id] else null
    }

    /** `internalScale(s)`. */
    method SetInternalScale(s: real)
      modifies this`internalScale
      ensures internalScale == s
    {
      internalScale := s;
    }
  }

  /** Two nodes created one after the other without ids get different ids, and
      both can be looked up and are listed afterwards. */
  method CreateTwoNodes(model: Model) returns (a: Node, b: Node)
    requires model.Valid()
    modifies model
    ensures model.Valid() && a.id != b.id
    ensures model.LookupNode(a.id) == a && model.LookupNode(b.id) == b
    ensures a in IdOrder(model.nodes) && b in IdOrder(model.nodes)
  {
    a := model.CreateNode(None);
    b := model.CreateNode(None);
    IdOrderContents(model.nodes);
    assert model.nodes[a.id] == a && model.nodes[b.id] == b;
  }
}
