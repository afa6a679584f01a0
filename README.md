# arrows: a verified model of the graph diagram core

This project models the core of *arrows*, a browser tool for drawing property
graphs (circles for nodes, arrows for relationships) and exporting them as
Cypher. Three source files make up that core.

- **graph-diagram.js**
  - `gd.model()`, the graph model: a table of nodes keyed by id, a list of relationships, an id counter and an internal scale.
  - Node operations: position, view coordinates, drag, midpoint, left-of and label.
  - `gd.scaling.viewBox`.
  - `gd.horizontalArrowOutline`.
  - The pure geometry helpers of `bind`.
- **cypher.js**: the generator of a Cypher `CREATE` statement. It covers identifier quoting, property maps and the assembly of one statement per node and per relationship.
- **graph-editor.js**: the editing logic, without its pages and events.
  - Finding the node a dragged node overlaps.
  - The shift-drag gesture that creates a node and a relationship and then retargets the relationship.
  - The properties text of the node editor: how it is written out and how `saveChange` parses it back.

The project is organised as follows.

- Modules:
  - `Options` and `Text` hold shared helpers.
  - `PropertyMaps` models a JavaScript object filled by assignment.
  - `Cypher`, `Geometry`, `GraphModel`, `Bind` and `Editor` follow the source files.
- Classes:
  - `GraphModel.Node`, `GraphModel.Relationship` and `GraphModel.Model` are classes whose methods update their fields in place.
  - `Editor.Editor` holds the connecting-drag state.
- Loops become methods proved against specification functions:
  - `NodeList` against `IdOrder`;
  - `ClosestAmong`, the loop of `findClosestOverlappingNode`, against `Scan`;
  - `Props` and `Render` against `Assigned` and `RenderText`;
  - `SaveChange` against `ParsedProperties`.
- Numbers:
  - JavaScript numbers are modelled as exact reals.
  - Node ids are naturals, because `for (id in nodes)` visits integer keys in ascending order.

## Model

| member | source | states |
|---|---|---|
| GraphModel.Node.constructor | graph-diagram.js:15-17 | a new node has the given id and owner, sits at the origin, and has an empty label and no properties |
| GraphModel.Node.SetX | graph-diagram.js:19-25 | sets the model x coordinate; y, label and properties are unchanged |
| GraphModel.Node.SetY | graph-diagram.js:27-33 | sets the model y coordinate; x, label and properties are unchanged |
| GraphModel.Node.SetLabel | graph-diagram.js:73-79 | sets the label; position and properties are unchanged |
| GraphModel.Node.Ex | graph-diagram.js:35-37 | the view x coordinate; dividing it by a non-zero internal scale gives the model x back |
| GraphModel.Node.Ey | graph-diagram.js:39-41 | the view y coordinate; dividing it by a non-zero internal scale gives the model y back |
| GraphModel.Node.Drag | graph-diagram.js:49-52 | moves the node by the view delta divided by the internal scale, so its view coordinates move by exactly the view delta; label and properties are unchanged |
| GraphModel.Node.MidwayTo | graph-diagram.js:54-61 | the result is equidistant from both nodes on each axis |
| GraphModel.MidwaySymmetric | graph-diagram.js:54-61 | the midpoint of a and b equals the midpoint of b and a |
| GraphModel.Node.IsLeftOf | graph-diagram.js:69-71 | no contract of its own: compares the model x coordinates; its order properties are stated by IsLeftOfStrictOrder |
| GraphModel.IsLeftOfStrictOrder | graph-diagram.js:69-71 | `isLeftOf` is irreflexive, asymmetric and transitive |
| GraphModel.Relationship.constructor | graph-diagram.js:82-95 | a relationship has the given start, end and label |
| GraphModel.Relationship.SetLabel | graph-diagram.js:85-91 | sets the label; both ends are unchanged |
| GraphModel.Model.constructor | graph-diagram.js:7-13 | a new model has no nodes and no relationships, an id counter at 0 and an internal scale of 1 |
| GraphModel.Model.GenerateNodeId | graph-diagram.js:97-102 | returns the least unused id at or above where the counter stood, and leaves the counter there |
| GraphModel.Model.CreateNode | graph-diagram.js:104-110 | stores a fresh node at the origin under the given id, or under a generated unused id when none or the falsy id 0 is given; it replaces whatever was stored under that id; nothing else changes |
| GraphModel.Model.DeleteNode | graph-diagram.js:112-114 | removes exactly the entry under the node's id; relationships are not touched |
| GraphModel.Model.CreateRelationship | graph-diagram.js:116-120 | appends one fresh relationship labelled `KNOWS` between the given nodes |
| GraphModel.Model.NodeList | graph-diagram.js:122-128 | the list is the table's nodes in the order `for..in` visits them (`IdOrder`) |
| GraphModel.IdOrderContents | graph-diagram.js:122-128 | the node list holds exactly the table's nodes, one entry per id |
| GraphModel.IdOrderAscending | graph-diagram.js:122-128 | in a table keyed by id, the node list is in strictly ascending id order |
| GraphModel.Model.LookupNode | graph-diagram.js:130-132 | finds a node exactly for stored ids; the node found carries that id; otherwise null |
| GraphModel.Model.SetInternalScale | graph-diagram.js:138-144 | sets the internal scale |
| GraphModel.CreateTwoNodes | graph-diagram.js:97-110 | two nodes created without ids get distinct ids, and both can be looked up and are listed |
| Geometry.ViewBox | graph-diagram.js:161-168 | the view box has the view's size and the same centre as the diagram's extent |
| Geometry.ViewBoxExample | test/geometry/scaling-test.js:8-23 | a 1000 by 500 view around a 500 by 250 extent at (33, 66) starts at (-217, -59) |
| Geometry.Shoulder | graph-diagram.js:252 | the shoulder lies one head length behind the tip, on the tail's side |
| Geometry.HorizontalArrowOutline | graph-diagram.js:248-261 | the path has 22 items: `M`, then seven coordinate pairs with `L` between them, then `Z` |
| Geometry.ArrowShape | graph-diagram.js:248-261 | the first corner is at the tail on the shaft edge and the tip is at (end, 0); shaft and head edges meet at the shoulder; the outline is symmetric about the x axis |
| Geometry.ReversedArrow | graph-diagram.js:252 | swapping start and end swaps tail and tip and mirrors the shoulder's offset |
| Geometry.ForwardArrowExample | test/model/arrow-outline-test.js:10-15 | the outline from 7 to 100 has the items of `M 7 4 L 70 4 L 70 15 L 100 0 L 70 -15 L 70 -4 L 7 -4 Z` |
| Geometry.BackwardArrowExample | test/model/arrow-outline-test.js:16-21 | the outline from 100 to 7 has the items of `M 100 4 L 37 4 L 37 15 L 7 0 L 37 -15 L 37 -4 L 100 -4 Z` |
| Geometry.MinOf | graph-diagram.js:282-284 | `Math.min.apply` over a non-empty list returns an element that is at most every element |
| Geometry.MaxOf | graph-diagram.js:283-285 | `Math.max.apply` over a non-empty list returns an element that is at least every element |
| Bind.CentreXs | graph-diagram.js:278 | the i-th entry is the view x of the i-th node |
| Bind.CentreYs | graph-diagram.js:279 | the i-th entry is the view y of the i-th node |
| Bind.SmallestContainingBox | graph-diagram.js:277-288 | the box contains the disc of radius 58 (radius plus whole stroke width) around every node centre, and each of its four sides touches one of those discs, so it is the least such box; there is none for an empty graph |
| Bind.HorizontalArrow | graph-diagram.js:336-342 | no contract of its own: the outline from side·65 to side·(length − 65), the side being −1 when the end node lies to the left; its placement is stated by ArrowClearsBothNodes |
| Bind.ArrowClearsBothNodes | graph-diagram.js:336-342 | the arrow starts one margin outside the start circle and stops one margin short of the end circle, on the axis, on the side of the end node |
| Bind.MidwayBetweenStartAndEnd | graph-diagram.js:344-348 | no contract of its own: side·length/2; its placement is stated by LabelIsMidway |
| Bind.LabelIsMidway | graph-diagram.js:344-348 | the label position is halfway between the two centres and halfway between the arrow's tail and tip |
| PropertyMaps.Put | cypher.js:5 | no contract of its own: `obj[k] = v` on an ordered record; its meaning is stated by PutLookup, PutKeys, PutKeepsKeysUnique and PutAppendsNewKey |
| PropertyMaps.LookupFindsKeys | cypher.js:2-8 | a lookup finds a value exactly for the keys present |
| PropertyMaps.PutLookup | cypher.js:5 | after `obj[k] = v`, k holds v and every other key holds what it held before |
| PropertyMaps.PutKeys | cypher.js:5 | an assignment appends a new key last and leaves the key order alone for an existing key |
| PropertyMaps.PutKeepsKeysUnique | cypher.js:5 | an assignment never duplicates a key |
| PropertyMaps.PutAppendsNewKey | cypher.js:5 | assigning an absent key appends exactly that entry |
| PropertyMaps.AssignedSnoc | cypher.js:4-6 | each property of the list is assigned in turn onto the object built so far |
| PropertyMaps.AssignedKeepsLastValue | cypher.js:2-8 | for a key assigned several times, the object holds the last value |
| PropertyMaps.AssignedKeysInFirstOccurrenceOrder | cypher.js:2-8 | the object's keys are the distinct keys of the list, in first-occurrence order |
| PropertyMaps.AssignedHasUniqueKeys | cypher.js:2-8 | an object built by assignment never holds a key twice |
| PropertyMaps.AssignedUniqueIsIdentity | cypher.js:2-8 | assigning a list whose keys are already unique rebuilds that list |
| Cypher.IsIdentifier | cypher.js:10-12 | no contract of its own: the match of `/^[_a-zA-Z]\w*$/`, spelled out character by character by IdentifierCharacters |
| Cypher.IdentifierCharacters | cypher.js:10-12 | a name is an identifier exactly when it is non-empty, starts with `_` or an ASCII letter, and continues with ASCII letters, digits and `_` |
| Cypher.Quote | cypher.js:14-16 | a name is left unchanged exactly when it is an identifier |
| Cypher.QuoteRoundTrip | cypher.js:14-16 | stripping the enclosing backticks from a quoted name gives the name back |
| Cypher.RenderValue | cypher.js:25 | a value that starts with `'` or `"` is written unchanged; any other value, the empty one included, is enclosed in single quotes; either way the result starts with a quote character |
| Cypher.ItemsTextSnoc | cypher.js:21-26 | each further property adds a comma and its `key:value` item at the end |
| Cypher.RenderText | cypher.js:28 | the map text is empty exactly for an empty object; otherwise it is enclosed in braces |
| Cypher.Props | cypher.js:2-8 | the loop yields the object obtained by assigning the properties in list order |
| Cypher.Render | cypher.js:18-29 | the loop's text equals the map text of the object |
| Cypher.NodeStatement | cypher.js:33 | no contract of its own: `(id :Caption {props}) ` with quoted id and caption, `Node` for a missing caption; stated by DefaultNodeLabel, DefaultLabelIsIdentifier and PushNodeStatements |
| Cypher.RelationshipStatement | cypher.js:36-40 | no contract of its own: the quoted start and end ids around the backticked type, `RELATED_TO` for a missing type; stated by DefaultRelationshipType and TypeBetweenDoubleBackticks |
| Cypher.DefaultTypeIsIdentifier | cypher.js:37 | the default type `RELATED_TO` is written without quoting |
| Cypher.DefaultLabelIsIdentifier | cypher.js:33 | the default label `Node` is written without quoting |
| Cypher.DefaultRelationshipType | cypher.js:36-40 | a relationship without a type is written as one of type `RELATED_TO` |
| Cypher.TypeBetweenDoubleBackticks | cypher.js:36-40 | a type that is not an identifier is quoted and then wrapped in backticks again, so it sits between doubled backticks |
| Cypher.DefaultNodeLabel | cypher.js:33 | a node without caption is written as one with caption `Node` |
| Cypher.Statements | cypher.js:31-41 | there is one statement per node and one per relationship: entry i is the statement of node i, and entry (number of nodes + j) is the statement of relationship j |
| Cypher.Script | cypher.js:42-43 | the script is empty exactly when there are no statements; otherwise it starts with `CREATE` |
| Cypher.CypherText | cypher.js:31-43 | the script of a graph is empty exactly when the graph has neither nodes nor relationships |
| Cypher.PushNodeStatements | cypher.js:32-34 | the loop appends the node statements in node order |
| Cypher.PushRelationshipStatements | cypher.js:35-41 | the loop appends the relationship statements in relationship order |
| Cypher.CypherScript | cypher.js:31-43 | `cypher(model)` returns the script of the node statements followed by the relationship statements |
| Text.Join | cypher.js:43 | `parts.join(sep)`: joining no parts gives the empty string and joining one part gives that part; JoinSnoc gives the step for every further part |
| Text.JoinSnoc | cypher.js:43 | joining one more part appends the separator and that part, or gives the part alone when there were none |
| Text.JoinSplit | cypher.js:21-26 | joining parts that do not contain a one-character separator, such as the `,` between map items, and splitting the result on it gives the parts back (the four-character statement separator is not covered) |
| Text.MapSeq | cypher.js:32-41 | `xs.map(f)`, as the two `forEach` loops push one statement per element: as many entries as elements, and MapSeqAt fixes each entry |
| Text.MapSeqAt | cypher.js:32-41 | entry i of the mapped list is f applied to element i |
| Text.Split | graph-editor.js:122-123 | splitting on a character gives one more piece than there are occurrences, and no piece contains it |
| Text.SplitConcat | graph-editor.js:122-123 | splitting two texts joined by the separator gives the pieces of the first followed by the pieces of the second |
| Editor.ScanStep | graph-editor.js:45-53 | one more candidate becomes the closest exactly when it is not the node itself, is within 50 and is strictly closer than the closest so far |
| Editor.ScanFinds | graph-editor.js:36-57 | the search finds nothing exactly when no other node's position is within 50 scaled distance units of the node's; otherwise it finds an overlapping node at the least scaled distance, the first such node in list order |
| Editor.ClosestAmong | graph-editor.js:38-56 | the loop over the candidates returns what the search specification finds |
| Editor.Editor.FindClosestOverlappingNode | graph-editor.js:36-57 | the search over the node list, with every node at its current position, from the given node's current position |
| Editor.Editor.constructor | graph-editor.js:33-34 | no connecting drag is under way at first |
| Editor.Editor.BeginConnection | graph-editor.js:64-68 | creates one node at the dragged node's position under an unused id, with an empty label and no properties, and one relationship labelled `KNOWS` from the dragged node to the new node; the id counter is left at the new node's id, the least free id at or above where it stood |
| Editor.Editor.Retarget | graph-editor.js:69-78 | points the relationship at the node that the new node overlaps where it stands now, or at the new node when there is none; the relationship's start and label are unchanged |
| Editor.Editor.Drag | graph-editor.js:59-83 | starts a connection on shift if none is under way, leaving the id counter at the new node's id, and otherwise leaves the node table, relationship list and id counter alone; retargets the relationship to the node that the new node overlaps at its position before this move, or to the new node; moves the new node during a connection, else the dragged node; labels and properties are unchanged |
| Editor.Editor.DragEnd | graph-editor.js:85-94 | deletes the new node when its relationship was pointed elsewhere, and ends the connecting drag |
| Editor.Trim | graph-editor.js:125-126 | no contract of its own: JavaScript white space removed from both ends; stated by TrimStartSpec, TrimEndSpec, TrimSpec and TrimmedIsFixed |
| Editor.TrimStartSpec | graph-editor.js:125-126 | trimming the start removes only a white-space prefix and leaves no leading white space |
| Editor.TrimEndSpec | graph-editor.js:125-126 | trimming the end removes only a white-space suffix and leaves no trailing white space |
| Editor.TrimSpec | graph-editor.js:125-126 | a trimmed string has no white space at either end |
| Editor.TrimmedIsFixed | graph-editor.js:125-126 | a string without white space at either end is its own trim |
| Editor.TrimSkipsSpaces | graph-editor.js:123-126 | the spaces the pattern `: *` takes after a colon do not change the trimmed value |
| Editor.SplitFields | graph-editor.js:123 | a line splits into one more field than it has colons |
| Editor.ParseLine | graph-editor.js:123-130 | a line yields a property only when it has exactly one colon |
| Editor.ParseLineOfPair | graph-editor.js:123-130 | a line with one colon yields the trimmed key and value when both are non-empty, and nothing otherwise |
| Editor.ParsedPropertiesStep | graph-editor.js:122-131 | each line that parses sets its property in the list built so far; other lines change nothing |
| Editor.SaveChange | graph-editor.js:118-131 | sets the label and replaces the properties with those parsed from the text, line by line; the position is unchanged |
| Editor.PropertiesText | graph-editor.js:114-116 | no contract of its own: a `key: value` line per property, each ended by a line break; stated by SplitPropertiesText and FormatThenParse |
| Editor.SplitPropertiesText | graph-editor.js:114-116 | the editor's properties text splits into one `key: value` line per property, then an empty line |
| Editor.ParseStoredLine | graph-editor.js:114-131 | a written line of a storable property parses back to that property |
| Editor.EmptyLineYieldsNothing | graph-editor.js:122-130 | the empty line after the final line break yields no property |
| Editor.StoredLineThen | graph-editor.js:122-131 | if the first line parses back to the first property and the remaining lines to the rest, all the lines parse back to the whole list |
| Editor.ParsePropertyLines | graph-editor.js:114-131 | the written lines of storable properties parse back to those properties, in order |
| Editor.FormatThenParse | graph-editor.js:114-131 | saving the properties text unchanged gives back the same property list, when the keys are unique and keys and values are storable |

## Left out

- `distanceTo` and `angleTo` (graph-diagram.js:43-47, 63-67) use a square root and an arc tangent.
  - Where a distance is needed, it is a parameter: `length` in `Bind`, and in `Editor` a `(Point, Point) -> real` function applied to the two nodes' positions.
  - `translateToStartNodeCenterAndRotateToRelationshipAngle` (graph-diagram.js:350-356) is left out for the same reason.
- `externalScale` (graph-diagram.js:146-152) is a plain getter and setter that nothing in the core reads. `relationshipList` (graph-diagram.js:134-136) returns the `relationships` field, which the model exposes directly.
- The markup parser and formatter (graph-diagram.js:173-246) and the D3 drawing code of `bind` are left out because they depend on the DOM.
  - `spaceJoin` only formats numbers as text.
  - The fixed 1024 by 768 view passed to `viewBox` in `bind` is left out because it is a call site, not logic.
- graph-editor.js is modelled without its user interface:
  - `localStorage` (`save`) and `draw`;
  - the pop-up editors, apart from the text of `saveChange`;
  - `editRelationship`, `formatMarkup`, `parseMarkup`, `exportSvg` and `changeInternalScale`;
  - replacement of the edited graph from markup.
  - `window.event.shiftKey` and `d3.event.dx/dy` become parameters of `Drag`.
- `gd.cypher` (cypher.js:46) only defaults its argument.
- JavaScript numbers are modelled as exact reals. So the model has no rounding, NaN or infinities.
  - `Number(...)` and `parseFloat(...)` coercions are left out.
  - The arrow outline is a list of command and coordinate items, not the space-joined string of formatted numbers.
- Values the source leaves `undefined` become empty values in the model:
  - a new node's position is (0, 0);
  - its label and a relationship type that was never set are empty strings.
- `render` iterates an object's keys in insertion order in the model. JavaScript puts integer-like keys first.
  - Property values are modelled as strings only.
  - Node ids appear in the Cypher model as their text (`CypherNode.id`). Non-integer node ids, which markup could supply, are left out.
- Two property keys behave differently in JavaScript, and the model treats them as ordinary keys.
  - Assigning `__proto__` (cypher.js:5) calls the prototype setter and stores nothing, so `[("__proto__", "v")]` renders as `""`. The model renders `{__proto__:'v'}`.
  - A key `hasOwnProperty` shadows the method that cypher.js:22 calls, so `cypher` throws a TypeError. The model returns the text.
- cypher.js calls `caption()`, `properties()` and `relationshipType()` on nodes and relationships. The `gd.model` objects in graph-diagram.js define none of these, so `Cypher.CypherNode` and `Cypher.CypherRelationship` are separate value types, not linked to `GraphModel`.
- The node property container is not among the modelled files. It is modelled as an entry list with JavaScript object-assignment semantics:
  - `set` updates a key in place or appends it;
  - `clearAll` empties the list.
- `IsLeftOf`, `MidwayBetweenStartAndEnd`, `HorizontalArrow`, `IsIdentifier`, `NodeStatement`, `RelationshipStatement`, `Put`, `Trim` and `PropertiesText` have no ensures of their own; the lemmas named in their rows state their properties.
- GraphModel.Node.Drag requires a non-zero internal scale. The source divides by it and would produce infinities or NaN otherwise.
- Editor.Editor.Drag inherits the same requirement of a non-zero internal scale.
- Bind.SmallestContainingBox returns no box for a graph without nodes. JavaScript computes infinite bounds there.
- `deleteNode` (graph-diagram.js:112-114) does not remove the node's relationships, and the model follows the code.
- test/geometry/arrow-outline-test.js calls `horizontalArrowOutline` with a third argument (a shaft width). The modelled code has no such parameter. Only test/model/arrow-outline-test.js matches it.
