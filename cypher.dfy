/** The Cypher `CREATE` statement generator of cypher.js: identifier quoting,
    rendering of a property object as a map literal, and assembly of one
    statement per node and per relationship. */
module Cypher {
  import opened Text
  import opened PropertyMaps

  predicate IsAsciiLetter(c: char) { 'a' <= c <= 'z' || 'A' <= c <= 'Z' }

  /** The character class `\w` of a JavaScript regular expression without the `u` flag. */
  predicate IsWordChar(c: char) { IsAsciiLetter(c) || '0' <= c <= '9' || c == '_' }

  /** Matches `\w*` against the whole of `s`. */
  predicate AllWordChars(s: string)
  {
    s == [] || (IsWordChar(s[0]) && AllWordChars(s[1..]))
  }

  /** `/^[_a-zA-Z]\w*$/.test(name)`. */
  predicate IsIdentifier(name: string)
  {
    |name| > 0 && (name[0] == '_' || IsAsciiLetter(name[0])) && AllWordChars(name[1..])
  }

  lemma {:induction false} AllWordCharsMeans(s: string)
    ensures AllWordChars(s) <==> forall i :: 0 <= i < |s| ==> IsWordChar(s[i])
  {
    if s != [] {
      AllWordCharsMeans(s[1..]);
      assert forall i :: 1 <= i < |s| ==> s[i] == s[1..][i - 1];
    }
  }

  /** A name is an identifier exactly when it is non-empty, starts with `_` or an
      ASCII letter, and continues with ASCII letters, digits and `_` only. */
  lemma IdentifierCharacters(name: string)
    ensures IsIdentifier(name) <==>
      |name| > 0 && (name[0] == '_' || IsAsciiLetter(name[0]))
      && forall i :: 1 <= i < |name| ==> IsWordChar(name[i])
  {
    if |name| > 0 {
      AllWordCharsMeans(name[1..]);
      assert forall i :: 1 <= i < |name| ==> name[i] == name[1..][i - 1];
    }
  }

  /** A name as Cypher can read it: left alone when it is an identifier,
      otherwise enclosed in backticks. */
  function Quote(name: string): (r: string)
    ensures r == name <==> IsIdentifier(name)
  {
    if IsIdentifier(name) then name else Backticked(name)
  }

  function Backticked(name: string): string
  {
    "`" + name + "`"
  }

  /** Reading a quoted name back: strip one pair of enclosing backticks. */
  function Unquote(r: string): string
  {
    if |r| >= 2 && r[0] == '`' && r[|r| - 1] == '`' then r[1..|r| - 1] else r
  }

  /** Quoting loses nothing: the name can always be read back. */
  lemma QuoteRoundTrip(name: string)
    ensures Unquote(Quote(name)) == name
  {
    if IsIdentifier(name) {
      assert name[0] != '`';
    }
  }

  /** A property value as written into the map literal: a value that does not
      already start with a quote character is enclosed in single quotes. */
  function RenderValue(value: string): (r: string)
    ensures |r| > 0 && (r[0] == '\'' || r[0] == '"')
    ensures r == value <==> |value| > 0 && (value[0] == '\'' || value[0] == '"')
    ensures r != value ==> r == "'" + value + "'"
  {
    if |value| == 0 || (value[0] != '\'' && value[0] != '"') then "'" + value + "'" else value
  }

  /** One `key:value` item of the map literal. */
  function EntryText(e: Entry): string
  {
    Quote(e.key) + ":" + RenderValue(e.value)
  }

  function EntryTexts(obj: seq<Entry>): seq<string>
  {
    seq(|obj|, i requires 0 <= i < |obj| => EntryText(obj[i]))
  }

  /** The items of a map literal, in iteration order, separated by commas. */
  function ItemsText(obj: seq<Entry>): string
  {
    Join(EntryTexts(obj), ",")
  }

  /** One more entry adds a comma (unless it is the first) and its item at the end. */
  lemma ItemsTextSnoc(obj: seq<Entry>, e: Entry)
    ensures ItemsText(obj + [e]) == if obj == [] then EntryText(e) else ItemsText(obj) + "," + EntryText(e)
  {
    assert EntryTexts(obj + [e]) == EntryTexts(obj) + [EntryText(e)];
    JoinSnoc(EntryTexts(obj), ",", EntryText(e));
  }

  /** The map literal of a property object: empty for an empty object, else its
      items enclosed in braces. */
  function RenderText(obj: seq<Entry>): (r: string)
    ensures r == "" <==> obj == []
    ensures obj != [] ==> r[0] == '{' && r[|r| - 1] == '}'
  {
    if obj == [] then "" else "{" + ItemsText(obj) + "}"
  }

  /** `props(element)`: the element's property list assigned key by key into a fresh object. */
  method Props(properties: seq<Entry>) returns (obj: seq<Entry>)
    ensures obj == Assigned(properties)
  {
    obj := [];
    for i := 0 to |properties|
      invariant obj == Assigned(properties[..i])
    {
      assert properties[..i + 1][..i] == properties[..i];
      obj := Put(obj, properties[i].key, properties[i].value);
    }
    assert properties[..|properties|] == properties;
  }

  /** `render(props)`: builds the items text one entry at a time, a comma before
      every item but the first, and braces around a non-empty result. */
  method Render(props: seq<Entry>) returns (text: string)
    ensures text == RenderText(props)
  {
    var res := "";
    for i := 0 to |props|
      invariant res == ItemsText(props[..i])
      invariant |res| == 0 <==> i == 0
    {
      assert props[..i + 1] == props[..i] + [props[i]];
      ItemsTextSnoc(props[..i], props[i]);
      var item := Quote(props[i].key) + ":" + RenderValue(props[i].value);
      if |res| > 0 {
        res := res + ",";
      }
      res := res + item;
    }
    assert props[..|props|] == props;
    text := if |res| == 0 then "" else "{" + res + "}";
  }

  /** A node as cypher.js sees it: its id (as text), its caption (`""` when it
      has none) and its property list. */
  datatype CypherNode = CypherNode(id: string, caption: string, properties: seq<Entry>)

  /** A relationship as cypher.js sees it: the ids of its ends and its type (`""` when it has none). */
  datatype CypherRelationship = CypherRelationship(startId: string, endId: string, relType: string)

  /** `(id :Caption {props}) `, with label `Node` for a node without caption. */
  function NodeStatement(n: CypherNode): string
  {
    NodeText(n, RenderText(Assigned(n.properties)))
  }

  /** A node statement around an already rendered property map. */
  function NodeText(n: CypherNode, rendered: string): string
  {
    "(" + Quote(n.id) + " :" + Quote(if n.caption == "" then "Node" else n.caption) + " " + rendered + ") "
  }

  /** `(start)-[:`TYPE`]->(end)`, with type `RELATED_TO` when none is given;
      the relationship's properties are not written. */
  function RelationshipStatement(r: CypherRelationship): string
  {
    "(" + Quote(r.startId) + ")-[:`" + Quote(if r.relType == "" then "RELATED_TO" else r.relType)
      + "`]->(" + Quote(r.endId) + ")"
  }

  /** The default relationship type is left unquoted. */
  lemma DefaultTypeIsIdentifier()
    ensures Quote("RELATED_TO") == "RELATED_TO"
  {
    var name := "RELATED_TO";
    assert forall i :: 1 <= i < |name| ==> IsWordChar(name[i]);
    IdentifierCharacters(name);
  }

  /** The default node label is left unquoted. */
  lemma DefaultLabelIsIdentifier()
    ensures Quote("Node") == "Node"
  {
    assert IsIdentifier("Node");
  }

  /** A relationship without a type is written as one of type `RELATED_TO`. */
  lemma DefaultRelationshipType(r: CypherRelationship)
    requires r.relType == ""
    ensures RelationshipStatement(r) == RelationshipStatement(r.(relType := "RELATED_TO"))
  {
  }

  /** The statement always puts backticks around the quoted type, so a type that
      is not an identifier ends up between two pairs of backticks. */
  lemma TypeBetweenDoubleBackticks(r: CypherRelationship)
    requires r.relType != "" && !IsIdentifier(r.relType)
    ensures RelationshipStatement(r) == "(" + Quote(r.startId) + ")-[:``" + r.relType + "``]->(" + Quote(r.endId) + ")"
  {
  }

  /** A node without caption is written as one with caption `Node`. */
  lemma DefaultNodeLabel(n: CypherNode)
    requires n.caption == ""
    ensures NodeStatement(n) == NodeStatement(n.(caption := "Node"))
  {
  }

  const Preamble := "CREATE \n  "
  const StatementSeparator := ",\n  "

  /** The statements of a graph: one per node, in node order, then one per
      relationship, in relationship order. */
  function Statements(nodes: seq<CypherNode>, rels: seq<CypherRelationship>): (statements: seq<string>)
    ensures |statements| == |nodes| + |rels|
    ensures forall i :: 0 <= i < |nodes| ==> statements[i] == NodeStatement(nodes[i])
    ensures forall j :: 0 <= j < |rels| ==> statements[|nodes| + j] == RelationshipStatement(rels[j])
  {
    MapSeqConcatAt(NodeStatement, nodes, RelationshipStatement, rels);
    MapSeq(NodeStatement, nodes) + MapSeq(RelationshipStatement, rels)
  }

  /** A script from its statements: nothing at all when there are none,
      otherwise `CREATE` followed by the statements, one per line. */
  function Script(statements: seq<string>): (text: string)
    ensures text == "" <==> statements == []
    ensures text != "" ==> Preamble <= text
  {
    if |statements| == 0 then "" else Preamble + Join(statements, StatementSeparator)
  }

  /** The whole script of a graph. */
  function CypherText(nodes: seq<CypherNode>, rels: seq<CypherRelationship>): (text: string)
    ensures text == "" <==> nodes == [] && rels == []
  {
    Script(Statements(nodes, rels))
  }

  /** The first `forEach` of `cypher(model)`: one statement per node, each built
      from the node's rendered property object. */
  method PushNodeStatements(statements: seq<string>, nodes: seq<CypherNode>) returns (out: seq<string>)
    ensures out == statements + MapSeq(NodeStatement, nodes)
  {
    out := statements;
    for i := 0 to |nodes|
      invariant out == statements + MapSeq(NodeStatement, nodes[..i])
    {
      var obj := Props(nodes[i].properties);
      var rendered := Render(obj);
      var statement := NodeText(nodes[i], rendered);
      MapSeqPush(NodeStatement, statements, nodes, i, out, statement);
      out := out + [statement];
    }
    assert nodes[..|nodes|] == nodes;
  }

  /** The second `forEach` of `cypher(model)`: one statement per relationship. */
  method PushRelationshipStatements(statements: seq<string>, rels: seq<CypherRelationship>) returns (out: seq<string>)
    ensures out == statements + MapSeq(RelationshipStatement, rels)
  {
    out := statements;
    for j := 0 to |rels|
      invariant out == statements + MapSeq(RelationshipStatement, rels[..j])
    {
      var statement := RelationshipStatement(rels[j]);
      MapSeqPush(RelationshipStatement, statements, rels, j, out, statement);
      out := out + [statement];
    }
    assert rels[..|rels|] == rels;
  }

  /** `cypher(model)`: the node statements, then the relationship statements,
      joined after the `CREATE` keyword; nothing at all for an empty graph. */
  method CypherScript(nodes: seq<CypherNode>, rels: seq<CypherRelationship>) returns (text: string)
    ensures text == CypherText(nodes, rels)
  {
    var statements := PushNodeStatements([], nodes);
    EmptyPrefix(MapSeq(NodeStatement, nodes));
    statements := PushRelationshipStatements(statements, rels);
    if |statements| == 0 {
      return "";
    }
    text := Preamble + Join(statements, StatementSeparator);
  }
}
