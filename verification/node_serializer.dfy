/** The debug printer of a rendered component tree: a depth-first walk that writes one
    indented line per component, element, text and markup node, and never prints the
    same node twice. The text writer is modelled as the text it has accumulated. */
module NodeSerializer {
  import opened Outcomes
  import opened Text
  import Decimal

  /** `Environment.NewLine`: a platform value, never empty. */
  type NewLine = s: string | |s| > 0 witness "\n"

  /** Node identity (object reference identity in the tree). */
  type NodeId = nat

  /** An attribute or property: a name and a value whose text is `Value.ToString()`, or null. */
  datatype Attribute = Attribute(key: string, value: Option<string>)

  /** An event handler descriptor: event name and numeric handler id. */
  datatype EventDescriptor = EventDescriptor(eventName: string, eventId: nat)

  /** The node kinds of the tree. Components, elements and plain containers hold
      children; `UnknownNode` is any other node type, known by its type name. */
  datatype Node =
    | ComponentNode(id: NodeId, componentId: int, children: seq<Node>)
    | ElementNode(id: NodeId, tagName: string, attributes: seq<Attribute>,
                  properties: seq<Attribute>, events: seq<EventDescriptor>, children: seq<Node>)
    | ContainerNode(id: NodeId, children: seq<Node>)
    | TextNode(id: NodeId, textContent: string)
    | MarkupNode(id: NodeId, markupContent: string)
    | UnknownNode(id: NodeId, typeName: string)
  {
    predicate HasChildren() {
      ComponentNode? || ElementNode? || ContainerNode?
    }
  }

  /** The components of a hive, as (component id, node) pairs in enumeration order. */
  datatype ElementHive = ElementHive(components: seq<(int, Node)>)

  // ---------------------------------------------------------------------------
  // Writing

  /** The text written so far, and whether the next write begins a line. */
  datatype Writer = Writer(out: string, atStartOfLine: bool)

  /** Four spaces per level of depth. */
  function Indent(depth: nat): (r: string)
    ensures |r| == 4 * depth
    ensures forall i :: 0 <= i < |r| ==> r[i] == ' '
  {
    seq(4 * depth, _ => ' ')
  }

  /** The indentation the next write emits: `Indent(depth)` at the start of a line, else nothing. */
  function Pending(w: Writer, depth: nat): string {
    if w.atStartOfLine then Indent(depth) else []
  }

  /** `Write`: appends the content, after the indentation when a line is starting;
      afterwards the line is no longer at its start. */
  function Write(w: Writer, depth: nat, content: string): (r: Writer)
    ensures !r.atStartOfLine && w.out <= r.out
  {
    if w.atStartOfLine then Writer(w.out + Indent(depth) + content, false)
    else Writer(w.out + content, false)
  }

  /** `WriteLine`: like `Write`, then the newline; afterwards a line is starting. */
  function WriteLine(w: Writer, depth: nat, newLine: NewLine, content: string): (r: Writer)
    ensures r.atStartOfLine && w.out <= r.out
  {
    if w.atStartOfLine then Writer(w.out + Indent(depth) + content + newLine, true)
    else Writer(w.out + content + newLine, true)
  }

  /** Indentation is written only where a line starts, and it is exactly `4 * depth`
      spaces: a write at the start of a line emits them before its content, a write
      within a line emits its content alone. */
  lemma WriteIndentation(w: Writer, depth: nat, newLine: NewLine, content: string)
    ensures w.atStartOfLine ==> Write(w, depth, content).out == w.out + Indent(depth) + content
    ensures !w.atStartOfLine ==> Write(w, depth, content).out == w.out + content
    ensures w.atStartOfLine ==>
      WriteLine(w, depth, newLine, content).out == w.out + Indent(depth) + content + newLine
    ensures !w.atStartOfLine ==> WriteLine(w, depth, newLine, content).out == w.out + content + newLine
  {
  }

  // ---------------------------------------------------------------------------
  // Markup escaping

  /** The four characters backslash, 'r', backslash, 'n' that stand in for a line break. */
  const EscapedNewLine: string := "\\r\\n"

  /** Markup content on one line: each platform newline becomes the literal text `\r\n`.
      On either platform newline the result contains no occurrence of it, and markup
      without a newline is printed as it is. */
  function EscapeMarkup(content: string, newLine: NewLine): (r: string)
    ensures newLine == "\n" || newLine == "\r\n" ==> !Occurs(r, newLine)
    ensures !Occurs(content, newLine) ==> r == content
  {
    var r := Replace(content, newLine, EscapedNewLine);
    assert newLine == "\n" || newLine == "\r\n" ==> !Occurs(r, newLine) by {
      if newLine == "\n" || newLine == "\r\n" { ReplaceRemovesAll(content, newLine, EscapedNewLine); }
    }
    assert !Occurs(content, newLine) ==> r == content by {
      if !Occurs(content, newLine) { ReplaceWithoutOccurrence(content, newLine, EscapedNewLine); }
    }
    r
  }

  /** Each newline becomes the four characters of `EscapedNewLine`: the markup before the
      first newline is kept as it is, and escaping resumes after that newline. */
  lemma EscapeFirstNewLine(a: string, b: string, newLine: NewLine)
    requires !Occurs(a + newLine[..|newLine| - 1], newLine)
    ensures EscapeMarkup(a + newLine + b, newLine) == a + EscapedNewLine + EscapeMarkup(b, newLine)
  {
    ReplaceFirst(a, b, newLine, EscapedNewLine);
  }

  /** For example, with the newline `\n` the markup "a", newline, "b" becomes `a\r\nb`. */
  lemma EscapeMarkupExample()
    ensures EscapeMarkup("a\nb", "\n") == "a\\r\\nb"
  {
    assert !OccursAt("a", "\n", 0);
    assert "a" + "\n"[..0] == "a";
    EscapeFirstNewLine("a", "b", "\n");
    assert !OccursAt("b", "\n", 0);
    ReplaceWithoutOccurrence("b", "\n", EscapedNewLine);
    assert "a" + "\n" + "b" == "a\nb";
  }

  // ---------------------------------------------------------------------------
  // The walk

  /** The serializer's state: the writer, the current depth, and the set of nodes already
      seen. `printed` records, in order, the nodes whose output was produced; it only
      observes the walk. */
  datatype Serializer = Serializer(
    newLine: NewLine,
    writer: Writer,
    depth: nat,
    visited: set<NodeId>,
    printed: seq<NodeId>)

  /** A fresh serializer over an empty writer. */
  function Initial(newLine: NewLine): (s: Serializer)
    ensures s.writer.out == [] && s.depth == 0 && s.visited == {} && s.printed == []
  {
    Serializer(newLine, Writer([], false), 0, {}, [])
  }

  /** `Write` at the serializer's depth. */
  function Emit(s: Serializer, content: string): (r: Serializer)
    ensures r == s.(writer := r.writer) && !r.writer.atStartOfLine
    ensures s.writer.out <= r.writer.out
  {
    s.(writer := Write(s.writer, s.depth, content))
  }

  /** `WriteLine` at the serializer's depth. */
  function EmitLine(s: Serializer, content: string): (r: Serializer)
    ensures r == s.(writer := r.writer) && r.writer.atStartOfLine
    ensures s.writer.out <= r.writer.out
  {
    s.(writer := WriteLine(s.writer, s.depth, s.newLine, content))
  }

  /** No identifier is listed twice. */
  predicate NoDuplicates(ids: seq<NodeId>) {
    forall i, j :: 0 <= i < j < |ids| ==> ids[i] != ids[j]
  }

  /** The visited set is exactly the nodes printed, each printed once. */
  ghost predicate Consistent(visited: set<NodeId>, printed: seq<NodeId>) {
    NoDuplicates(printed) && (forall id :: id in visited <==> id in printed)
  }

  /** What every part of the walk guarantees about the state after it: the output and
      the record of printed nodes only grow, the depth and newline are as on entry, a
      walk begun at the start of a line ends at the start of one, and consistency is kept. */
  ghost predicate Extends(s: Serializer, r: Serializer) {
    && r.newLine == s.newLine
    && r.depth == s.depth
    && s.printed <= r.printed
    && s.visited <= r.visited
    && s.writer.out <= r.writer.out
    && (s.writer.atStartOfLine ==> r.writer.atStartOfLine)
    && (Consistent(s.visited, s.printed) ==> Consistent(r.visited, r.printed))
  }

  /** The state once a node has been admitted to the walk: it is marked visited and printed. */
  function Mark(s: Serializer, id: NodeId): (r: Serializer)
    requires id !in s.visited
    ensures Consistent(s.visited, s.printed) ==> Consistent(r.visited, r.printed)
    ensures r.visited == s.visited + {id} && r.printed == s.printed + [id]
    ensures r == s.(visited := r.visited, printed := r.printed)
  {
    s.(visited := s.visited + {id}, printed := s.printed + [id])
  }

  /** `Serialize(node)`: a node already seen produces nothing and changes nothing;
      otherwise it is marked seen and printed according to its kind. */
  function Serialize(node: Node, s: Serializer): (r: Serializer)
    ensures Extends(s, r)
    ensures node.id in r.visited
    ensures node.id in s.visited ==> r == s
    ensures node.id !in s.visited ==> |r.printed| > |s.printed| && r.printed[|s.printed|] == node.id
    ensures node.id !in s.visited && !node.ContainerNode? ==> r.writer.atStartOfLine
    decreases node, 3, 0
  {
    if node.id in s.visited then s
    else
      var s1 := Mark(s, node.id);
      var r := match node
        case ComponentNode(_, _, _) => SerializeComponent(node, s1)
        case ElementNode(_, _, _, _, _, _) => SerializeElement(node, s1)
        case ContainerNode(_, _) => SerializeChildren(node, 0, s1)
        case TextNode(_, _) => SerializeTextNode(node, s1)
        case MarkupNode(_, _) => SerializeMarkupNode(node, s1)
        case UnknownNode(_, _) => SerializeUnknownNode(node, s1);
      MarkedExtends(s, node.id, r);
      r
  }

  /** A walk that extends the state just after a node was admitted extends the state before. */
  lemma MarkedExtends(s: Serializer, id: NodeId, r: Serializer)
    requires id !in s.visited && Extends(Mark(s, id), r)
    ensures Extends(s, r) && id in r.visited
    ensures |r.printed| > |s.printed| && r.printed[|s.printed|] == id
  {
    assert r.printed[|s.printed|] == Mark(s, id).printed[|s.printed|];
  }

  /** `SerializeTextNode`: the line `T: ` followed by the text, as it is. */
  function SerializeTextNode(node: Node, s: Serializer): (r: Serializer)
    requires node.TextNode?
    ensures r == s.(writer := r.writer) && s.writer.out <= r.writer.out && r.writer.atStartOfLine
  {
    EmitLine(Emit(s, "T: "), node.textContent)
  }

  /** `SerializeMarkupNode`: the line `M: ` followed by the markup with its newlines escaped. */
  function SerializeMarkupNode(node: Node, s: Serializer): (r: Serializer)
    requires node.MarkupNode?
    ensures r == s.(writer := r.writer) && s.writer.out <= r.writer.out && r.writer.atStartOfLine
  {
    EmitLine(Emit(s, "M: "), EscapeMarkup(node.markupContent, s.newLine))
  }

  /** Any other node kind: the line `--- UNKNOWN (type name) ---`. */
  function SerializeUnknownNode(node: Node, s: Serializer): (r: Serializer)
    requires node.UnknownNode?
    ensures r == s.(writer := r.writer) && s.writer.out <= r.writer.out && r.writer.atStartOfLine
  {
    EmitLine(Emit(Emit(s, "--- UNKNOWN ("), node.typeName), ") ---")
  }

  /** `SerializeChildren`: the children from index `i` on, in index order. */
  function SerializeChildren(parent: Node, i: nat, s: Serializer): (r: Serializer)
    requires parent.HasChildren() && i <= |parent.children|
    ensures Extends(s, r)
    decreases parent, 1, |parent.children| - i
  {
    if i == |parent.children| then s
    else SerializeChildren(parent, i + 1, Serialize(parent.children[i], s))
  }

  /** Serializes the nodes one after another, in order. */
  function SerializeAll(nodes: seq<Node>, s: Serializer): (r: Serializer)
    ensures Extends(s, r)
    ensures forall k :: 0 <= k < |nodes| ==> nodes[k].id in r.visited
    decreases |nodes|
  {
    if nodes == [] then s
    else
      var s1 := Serialize(nodes[0], s);
      var r := SerializeAll(nodes[1..], s1);
      assert forall k :: 1 <= k < |nodes| ==> nodes[k] == nodes[1..][k - 1];
      r
  }

  /** `SerializeComponent`: the line `[Component ( id )]`, then the children one level deeper. */
  function SerializeComponent(node: Node, s: Serializer): (r: Serializer)
    requires node.ComponentNode?
    ensures Extends(s, r) && r.writer.atStartOfLine
    decreases node, 2, 0
  {
    var s1 := EmitLine(Emit(Emit(s, "[Component ( "), Decimal.IntToText(node.componentId)), " )]");
    var s2 := SerializeChildren(node, 0, s1.(depth := s1.depth + 1));
    s2.(depth := s2.depth - 1)
  }

  /** One attribute: ` key`, then `="value"` when the value is not null. */
  function WriteAttribute(w: Writer, depth: nat, a: Attribute): (r: Writer)
    ensures w.out <= r.out && !r.atStartOfLine
  {
    var w1 := Write(Write(w, depth, " "), depth, a.key);
    if a.value.Some? then Write(Write(Write(w1, depth, "=\""), depth, a.value.value), depth, "\"") else w1
  }

  /** The attributes (or properties), in order. */
  function WriteAttributes(w: Writer, depth: nat, attributes: seq<Attribute>): (r: Writer)
    ensures w.out <= r.out
    ensures attributes == [] ==> r == w
    ensures attributes != [] ==> !r.atStartOfLine
    decreases |attributes|
  {
    if attributes == [] then w
    else WriteAttributes(WriteAttribute(w, depth, attributes[0]), depth, attributes[1..])
  }

  /** One event: ` name(id)`, the id in invariant-culture decimal. */
  function WriteEvent(w: Writer, depth: nat, e: EventDescriptor): (r: Writer)
    ensures w.out <= r.out && !r.atStartOfLine
  {
    var w1 := Write(Write(Write(w, depth, " "), depth, e.eventName), depth, "(");
    Write(Write(w1, depth, Decimal.NatToText(e.eventId)), depth, ")")
  }

  /** The events, in order. */
  function WriteEvents(w: Writer, depth: nat, events: seq<EventDescriptor>): (r: Writer)
    ensures w.out <= r.out
    ensures events == [] ==> r == w
    ensures events != [] ==> !r.atStartOfLine
    decreases |events|
  {
    if events == [] then w
    else WriteEvents(WriteEvent(w, depth, events[0]), depth, events[1..])
  }

  /** `  Properties: [ ... ]`, written only when there are properties. */
  function WritePropertiesSection(w: Writer, depth: nat, properties: seq<Attribute>): (r: Writer)
    ensures w.out <= r.out
  {
    if |properties| > 0 then Write(WriteAttributes(Write(w, depth, "  Properties: ["), depth, properties), depth, "]")
    else w
  }

  /** `  Events: [ ... ]`, written only when there are events. */
  function WriteEventsSection(w: Writer, depth: nat, events: seq<EventDescriptor>): (r: Writer)
    ensures w.out <= r.out
  {
    if |events| > 0 then Write(WriteEvents(Write(w, depth, "  Events: ["), depth, events), depth, "]")
    else w
  }

  /** The opening line of an element: `<tag`, the attributes, the non-empty property and
      event sections, and `>`. */
  function WriteOpenTag(node: Node, w: Writer, depth: nat, newLine: NewLine): (r: Writer)
    requires node.ElementNode?
    ensures w.out <= r.out && r.atStartOfLine
  {
    var w1 := WriteAttributes(Write(Write(w, depth, "<"), depth, node.tagName), depth, node.attributes);
    var w2 := WriteEventsSection(WritePropertiesSection(w1, depth, node.properties), depth, node.events);
    WriteLine(w2, depth, newLine, ">")
  }

  /** The closing line of an element, `</tag/>`. */
  function WriteCloseTag(node: Node, w: Writer, depth: nat, newLine: NewLine): (r: Writer)
    requires node.ElementNode?
    ensures w.out <= r.out && r.atStartOfLine
  {
    WriteLine(Write(Write(w, depth, "</"), depth, node.tagName), depth, newLine, "/>")
  }

  /** `SerializeElement`: the opening line, the children one level deeper, and the
      closing line. */
  function SerializeElement(node: Node, s: Serializer): (r: Serializer)
    requires node.ElementNode?
    ensures Extends(s, r) && r.writer.atStartOfLine
    decreases node, 2, 0
  {
    var s1 := s.(writer := WriteOpenTag(node, s.writer, s.depth, s.newLine), depth := s.depth + 1);
    var s2 := SerializeChildren(node, 0, s1);
    var s3 := s2.(depth := s2.depth - 1);
    s3.(writer := WriteCloseTag(node, s3.writer, s3.depth, s3.newLine))
  }

  /** The hive's component nodes, in enumeration order. */
  function ComponentValues(hive: ElementHive): (nodes: seq<Node>)
    ensures |nodes| == |hive.components|
    ensures forall k :: 0 <= k < |nodes| ==> nodes[k] == hive.components[k].1
  {
    seq(|hive.components|, k requires 0 <= k < |hive.components| => hive.components[k].1)
  }

  /** `SerializeHive`: every component of the hive, in enumeration order. */
  function SerializeHive(hive: ElementHive, s: Serializer): (r: Serializer)
    ensures Extends(s, r)
    ensures forall k :: 0 <= k < |hive.components| ==> hive.components[k].1.id in r.visited
  {
    SerializeAll(ComponentValues(hive), s)
  }

  /** `NodeSerializer.Serialize(ElementHive)`: the text of a hive. An empty hive prints
      nothing, and the text begins with the text of the first component printed alone;
      a hive of one component prints exactly that component's text. */
  function HiveText(hive: ElementHive, newLine: NewLine): (r: string)
    ensures hive.components == [] ==> r == []
    ensures |hive.components| > 0 ==> NodeText(hive.components[0].1, newLine) <= r
    ensures |hive.components| == 1 ==> r == NodeText(hive.components[0].1, newLine)
  {
    FreshHive(hive, newLine);
    SerializeHive(hive, Initial(newLine)).writer.out
  }

  /** `NodeSerializer.Serialize(Node)`: the text of a single tree. Printed on a fresh
      writer the first line is not indented: a text, markup or unknown node is its one
      line, a component's text begins with its header line, and an element's begins with
      its opening line and ends with its closing line. */
  function NodeText(node: Node, newLine: NewLine): (r: string)
    ensures !node.HasChildren() ==> r == LeafText(node, newLine) + newLine
    ensures node.ComponentNode? ==> ComponentHeaderText(node) + newLine <= r
    ensures node.ElementNode? ==> OpenTagText(node) + newLine <= r
    ensures node.ElementNode? ==> EndsWith(r, CloseTagText(node) + newLine)
  {
    FreshNode(node, newLine);
    Serialize(node, Initial(newLine)).writer.out
  }

  lemma FreshNode(node: Node, newLine: NewLine)
    ensures var r := Serialize(node, Initial(newLine)).writer.out;
      && (!node.HasChildren() ==> r == LeafText(node, newLine) + newLine)
      && (node.ComponentNode? ==> ComponentHeaderText(node) + newLine <= r)
      && (node.ElementNode? ==> OpenTagText(node) + newLine <= r)
      && (node.ElementNode? ==> EndsWith(r, CloseTagText(node) + newLine))
  {
    if !node.HasChildren() {
      FreshLeaf(node, newLine);
    } else if node.ComponentNode? {
      FreshComponent(node, newLine);
    } else if node.ElementNode? {
      FreshElement(node, newLine);
    }
  }

  lemma FreshLeaf(node: Node, newLine: NewLine)
    requires !node.HasChildren()
    ensures Serialize(node, Initial(newLine)).writer.out == LeafText(node, newLine) + newLine
  {
    var s := Initial(newLine);
    LeafShape(node, s);
    assert Line(s.writer, 0, newLine, LeafText(node, newLine)).out == LeafText(node, newLine) + newLine;
  }

  lemma FreshComponent(node: Node, newLine: NewLine)
    requires node.ComponentNode?
    ensures ComponentHeaderText(node) + newLine <= Serialize(node, Initial(newLine)).writer.out
  {
    var s := Initial(newLine);
    var open := Mark(s, node.id).(
      writer := Line(s.writer, s.depth, s.newLine, ComponentHeaderText(node)),
      depth := s.depth + 1);
    var r := Serialize(node, s).writer.out;
    assert r == SerializeAll(node.children, open).writer.out by {
      ComponentShape(node, s);
    }
    assert open.writer.out <= r;
    assert open.writer.out == ComponentHeaderText(node) + newLine;
  }

  lemma FreshElement(node: Node, newLine: NewLine)
    requires node.ElementNode?
    ensures var r := Serialize(node, Initial(newLine)).writer.out;
      OpenTagText(node) + newLine <= r && EndsWith(r, CloseTagText(node) + newLine)
  {
    var s := Initial(newLine);
    var open := Mark(s, node.id).(
      writer := Line(s.writer, s.depth, s.newLine, OpenTagText(node)),
      depth := s.depth + 1);
    var inner := SerializeAll(node.children, open);
    var r := Serialize(node, s).writer.out;
    assert inner.writer.atStartOfLine && r == Line(inner.writer, 0, newLine, CloseTagText(node)).out by {
      ElementShape(node, s);
    }
    assert open.writer.out <= inner.writer.out;
    LinesAround(inner.writer, OpenTagText(node), CloseTagText(node), newLine);
  }

  /** Text that began with a first line and then had a line written at the start of a
      line, at depth zero, begins with the first line and ends with the last. */
  lemma LinesAround(w: Writer, first: string, last: string, newLine: NewLine)
    requires w.atStartOfLine && Line(Writer([], false), 0, newLine, first).out <= w.out
    ensures var r := Line(w, 0, newLine, last).out;
      first + newLine <= r && EndsWith(r, last + newLine)
  {
    var r := Line(w, 0, newLine, last).out;
    assert Line(Writer([], false), 0, newLine, first).out == first + newLine;
    assert r == w.out + (last + newLine);
    assert r[|w.out|..] == last + newLine;
  }

  lemma FreshHive(hive: ElementHive, newLine: NewLine)
    ensures var r := SerializeHive(hive, Initial(newLine)).writer.out;
      && (hive.components == [] ==> r == [])
      && (|hive.components| > 0 ==> NodeText(hive.components[0].1, newLine) <= r)
      && (|hive.components| == 1 ==> r == NodeText(hive.components[0].1, newLine))
  {
    var nodes := ComponentValues(hive);
    var s := Initial(newLine);
    if nodes != [] {
      var s1 := Serialize(nodes[0], s);
      assert SerializeAll(nodes, s) == SerializeAll(nodes[1..], s1);
      assert Extends(s1, SerializeAll(nodes[1..], s1));
      if |nodes| == 1 {
        assert nodes[1..] == [];
      }
    }
  }

  /** `suffix` is the end of `s`. */
  predicate EndsWith(s: string, suffix: string) {
    |suffix| <= |s| && s[|s| - |suffix|..] == suffix
  }

  // ---------------------------------------------------------------------------
  // The text of each line

  /** The text of one attribute: ` key`, followed by `="value"` when the value is not null. */
  function AttributeText(a: Attribute): string {
    " " + a.key + (match a.value case Some(v) => "=\"" + v + "\"" case None => "")
  }

  function AttributesText(attributes: seq<Attribute>): string
    decreases |attributes|
  {
    if attributes == [] then "" else AttributeText(attributes[0]) + AttributesText(attributes[1..])
  }

  /** The text of one event: ` name(id)`, the id in invariant-culture decimal. */
  function EventText(e: EventDescriptor): string {
    " " + e.eventName + "(" + Decimal.NatToText(e.eventId) + ")"
  }

  function EventsText(events: seq<EventDescriptor>): string
    decreases |events|
  {
    if events == [] then "" else EventText(events[0]) + EventsText(events[1..])
  }

  /** The properties section: present exactly when there are properties. */
  function PropertiesSectionText(properties: seq<Attribute>): string {
    if |properties| == 0 then "" else "  Properties: [" + AttributesText(properties) + "]"
  }

  /** The events section: present exactly when there are events. */
  function EventsSectionText(events: seq<EventDescriptor>): string {
    if |events| == 0 then "" else "  Events: [" + EventsText(events) + "]"
  }

  /** The opening line of an element, without indentation or newline. */
  function OpenTagText(node: Node): string
    requires node.ElementNode?
  {
    "<" + node.tagName + AttributesText(node.attributes)
    + PropertiesSectionText(node.properties) + EventsSectionText(node.events) + ">"
  }

  /** The closing line of an element, without indentation or newline. */
  function CloseTagText(node: Node): string
    requires node.ElementNode?
  {
    "</" + node.tagName + "/>"
  }

  /** The header line of a component, without indentation or newline. */
  function ComponentHeaderText(node: Node): string
    requires node.ComponentNode?
  {
    "[Component ( " + Decimal.IntToText(node.componentId) + " )]"
  }

  /** Within a line, one attribute writes exactly its text. */
  lemma WriteAttributeText(w: Writer, depth: nat, a: Attribute)
    requires !w.atStartOfLine
    ensures WriteAttribute(w, depth, a) == Writer(w.out + AttributeText(a), false)
  {
    var w1 := Write(Write(w, depth, " "), depth, a.key);
    assert w1.out == w.out + " " + a.key;
    if a.value.Some? {
      var v := a.value.value;
      assert AttributeText(a) == " " + a.key + ("=\"" + v + "\"");
      Assoc(" " + a.key, "=\"", v);
      Assoc(" " + a.key, "=\"" + v, "\"");
      Assoc(w.out, " ", a.key);
      Assoc(w.out, " " + a.key, "=\"");
      Assoc(w.out, " " + a.key + "=\"", v);
      Assoc(w.out, " " + a.key + "=\"" + v, "\"");
    } else {
      assert AttributeText(a) == " " + a.key + "";
      Assoc(w.out, " ", a.key);
    }
  }

  /** Within a line, one event writes exactly its text. */
  lemma WriteEventText(w: Writer, depth: nat, e: EventDescriptor)
    requires !w.atStartOfLine
    ensures WriteEvent(w, depth, e) == Writer(w.out + EventText(e), false)
  {
    var id := Decimal.NatToText(e.eventId);
    assert WriteEvent(w, depth, e).out == w.out + " " + e.eventName + "(" + id + ")";
    Assoc(w.out, " ", e.eventName);
    Assoc(w.out, " " + e.eventName, "(");
    Assoc(w.out, " " + e.eventName + "(", id);
    Assoc(w.out, " " + e.eventName + "(" + id, ")");
  }

  /** Within a line, writing the attributes one by one produces exactly their texts. */
  lemma {:induction false} WriteAttributesText(w: Writer, depth: nat, attributes: seq<Attribute>)
    requires !w.atStartOfLine
    ensures WriteAttributes(w, depth, attributes) == Writer(w.out + AttributesText(attributes), false)
    decreases |attributes|
  {
    if attributes != [] {
      var a := attributes[0];
      var w1 := WriteAttribute(w, depth, a);
      assert w1 == Writer(w.out + AttributeText(a), false) by {
        WriteAttributeText(w, depth, a);
      }
      WriteAttributesText(w1, depth, attributes[1..]);
      Assoc(w.out, AttributeText(a), AttributesText(attributes[1..]));
    }
  }

  /** Within a line, writing the events one by one produces exactly their texts. */
  lemma {:induction false} WriteEventsText(w: Writer, depth: nat, events: seq<EventDescriptor>)
    requires !w.atStartOfLine
    ensures WriteEvents(w, depth, events) == Writer(w.out + EventsText(events), false)
    decreases |events|
  {
    if events != [] {
      var e := events[0];
      var w1 := WriteEvent(w, depth, e);
      assert w1 == Writer(w.out + EventText(e), false) by {
        WriteEventText(w, depth, e);
      }
      WriteEventsText(w1, depth, events[1..]);
      Assoc(w.out, EventText(e), EventsText(events[1..]));
    }
  }

  /** Within a line, the properties section writes exactly its text. */
  lemma WritePropertiesSectionText(w: Writer, depth: nat, properties: seq<Attribute>)
    requires !w.atStartOfLine
    ensures WritePropertiesSection(w, depth, properties) == Writer(w.out + PropertiesSectionText(properties), false)
  {
    if |properties| > 0 {
      var t := Write(w, depth, "  Properties: [");
      var u := WriteAttributes(t, depth, properties);
      var body := AttributesText(properties);
      assert u == Writer(w.out + "  Properties: [" + body, false) by {
        WriteAttributesText(t, depth, properties);
      }
      var section := "  Properties: [" + body + "]";
      assert PropertiesSectionText(properties) == section;
      assert Write(u, depth, "]") == Writer(w.out + section, false) by {
        Assoc(w.out, "  Properties: [", body);
        Assoc(w.out, "  Properties: [" + body, "]");
      }
    }
  }

  /** Within a line, the events section writes exactly its text. */
  lemma WriteEventsSectionText(w: Writer, depth: nat, events: seq<EventDescriptor>)
    requires !w.atStartOfLine
    ensures WriteEventsSection(w, depth, events) == Writer(w.out + EventsSectionText(events), false)
  {
    if |events| > 0 {
      var t := Write(w, depth, "  Events: [");
      var u := WriteEvents(t, depth, events);
      var body := EventsText(events);
      assert u == Writer(w.out + "  Events: [" + body, false) by {
        WriteEventsText(t, depth, events);
      }
      var section := "  Events: [" + body + "]";
      assert EventsSectionText(events) == section;
      assert Write(u, depth, "]") == Writer(w.out + section, false) by {
        Assoc(w.out, "  Events: [", body);
        Assoc(w.out, "  Events: [" + body, "]");
      }
    }
  }

  /** The opening tag is one line: the pending indentation, `<tag`, the attributes, the
      non-empty property and event sections, `>`, and the newline. */
  lemma WriteOpenTagText(node: Node, w: Writer, depth: nat, newLine: NewLine)
    requires node.ElementNode?
    ensures WriteOpenTag(node, w, depth, newLine) == Line(w, depth, newLine, OpenTagText(node))
  {
    var p := w.out + Pending(w, depth);
    var w0 := Write(Write(w, depth, "<"), depth, node.tagName);
    assert w0 == Writer(p + "<" + node.tagName, false);
    var a := AttributesText(node.attributes);
    var w1 := WriteAttributes(w0, depth, node.attributes);
    assert w1 == Writer(w0.out + a, false) by {
      WriteAttributesText(w0, depth, node.attributes);
    }
    var ps := PropertiesSectionText(node.properties);
    var w2 := WritePropertiesSection(w1, depth, node.properties);
    assert w2 == Writer(w1.out + ps, false) by {
      WritePropertiesSectionText(w1, depth, node.properties);
    }
    var es := EventsSectionText(node.events);
    var w3 := WriteEventsSection(w2, depth, node.events);
    assert w3 == Writer(w2.out + es, false) by {
      WriteEventsSectionText(w2, depth, node.events);
    }
    assert OpenTagText(node) == "<" + node.tagName + a + ps + es + ">";
    assert WriteLine(w3, depth, newLine, ">") == Writer(w3.out + ">" + newLine, true);
    Assoc(p, "<", node.tagName);
    Assoc(p, "<" + node.tagName, a);
    Assoc(p, "<" + node.tagName + a, ps);
    Assoc(p, "<" + node.tagName + a + ps, es);
    Assoc(p, "<" + node.tagName + a + ps + es, ">");
  }

  // ---------------------------------------------------------------------------
  // The shape of the output

  /** The children walk is the in-order walk of the children from index `i` on. */
  lemma {:induction false} ChildrenInOrder(parent: Node, i: nat, s: Serializer)
    requires parent.HasChildren() && i <= |parent.children|
    ensures SerializeChildren(parent, i, s) == SerializeAll(parent.children[i..], s)
    decreases |parent.children| - i
  {
    if i < |parent.children| {
      ChildrenInOrder(parent, i + 1, Serialize(parent.children[i], s));
      assert parent.children[i..][1..] == parent.children[i + 1..];
    }
  }

  /** The writer after one whole line: the pending indentation, the text, the newline. */
  function Line(w: Writer, depth: nat, newLine: NewLine, text: string): Writer {
    Writer(w.out + Pending(w, depth) + text + newLine, true)
  }

  /** Two writes ending a line make one line of both texts. */
  lemma TwoWritesLine(w: Writer, depth: nat, newLine: NewLine, a: string, b: string)
    ensures WriteLine(Write(w, depth, a), depth, newLine, b) == Line(w, depth, newLine, a + b)
  {
    Assoc(w.out + Pending(w, depth), a, b);
  }

  /** Three writes ending a line make one line of the three texts. */
  lemma ThreeWritesLine(w: Writer, depth: nat, newLine: NewLine, a: string, b: string, c: string)
    ensures WriteLine(Write(Write(w, depth, a), depth, b), depth, newLine, c) == Line(w, depth, newLine, a + b + c)
  {
    Assoc(w.out + Pending(w, depth), a, b);
    Assoc(w.out + Pending(w, depth), a + b, c);
  }

  /** A new element prints its opening line at its own depth, its children one level
      deeper, and its closing line back at its own depth, at the start of a line. */
  lemma ElementShape(node: Node, s: Serializer)
    requires node.ElementNode? && node.id !in s.visited
    ensures var open := Mark(s, node.id).(
              writer := Line(s.writer, s.depth, s.newLine, OpenTagText(node)),
              depth := s.depth + 1);
            var inner := SerializeAll(node.children, open);
            && inner.writer.atStartOfLine
            && Serialize(node, s) == inner.(
                 writer := Line(inner.writer, s.depth, s.newLine, CloseTagText(node)),
                 depth := s.depth)
  {
    var m := Mark(s, node.id);
    assert Serialize(node, s) == SerializeElement(node, m);
    var open := m.(writer := WriteOpenTag(node, m.writer, m.depth, m.newLine), depth := m.depth + 1);
    assert open.writer == Line(s.writer, s.depth, s.newLine, OpenTagText(node)) by {
      WriteOpenTagText(node, m.writer, m.depth, m.newLine);
    }
    var inner := SerializeChildren(node, 0, open);
    assert inner == SerializeAll(node.children, open) by {
      ChildrenInOrder(node, 0, open);
      assert node.children[0..] == node.children;
    }
    assert inner.depth == s.depth + 1 && inner.newLine == s.newLine;
    var back := inner.(depth := s.depth);
    assert SerializeElement(node, m) == back.(writer := WriteCloseTag(node, inner.writer, s.depth, s.newLine));
    assert WriteCloseTag(node, inner.writer, s.depth, s.newLine)
        == Line(inner.writer, s.depth, s.newLine, CloseTagText(node)) by {
      ThreeWritesLine(inner.writer, s.depth, s.newLine, "</", node.tagName, "/>");
    }
  }

  /** A new component prints its header line at its own depth and its children one
      level deeper; nothing follows them. */
  lemma ComponentShape(node: Node, s: Serializer)
    requires node.ComponentNode? && node.id !in s.visited
    ensures var open := Mark(s, node.id).(
              writer := Line(s.writer, s.depth, s.newLine, ComponentHeaderText(node)),
              depth := s.depth + 1);
            Serialize(node, s) == SerializeAll(node.children, open).(depth := s.depth)
  {
    var m := Mark(s, node.id);
    assert Serialize(node, s) == SerializeComponent(node, m);
    var header := ComponentHeaderText(node);
    var s1 := EmitLine(Emit(Emit(m, "[Component ( "), Decimal.IntToText(node.componentId)), " )]");
    assert s1 == m.(writer := Line(s.writer, s.depth, s.newLine, header)) by {
      ThreeWritesLine(s.writer, s.depth, s.newLine, "[Component ( ", Decimal.IntToText(node.componentId), " )]");
    }
    var open := s1.(depth := s1.depth + 1);
    var inner := SerializeChildren(node, 0, open);
    assert inner == SerializeAll(node.children, open) by {
      ChildrenInOrder(node, 0, open);
      assert node.children[0..] == node.children;
    }
    assert inner.depth == s.depth + 1;
    assert SerializeComponent(node, m) == inner.(depth := inner.depth - 1);
  }

  /** A new container prints nothing of its own: only its children, at its own depth. */
  lemma ContainerShape(node: Node, s: Serializer)
    requires node.ContainerNode? && node.id !in s.visited
    ensures Serialize(node, s) == SerializeAll(node.children, Mark(s, node.id))
  {
    ChildrenInOrder(node, 0, Mark(s, node.id));
    assert node.children[0..] == node.children;
  }

  /** The line of a text, markup or unknown node, without indentation or newline. */
  function LeafText(node: Node, newLine: NewLine): string
    requires !node.HasChildren()
  {
    if node.TextNode? then "T: " + node.textContent
    else if node.MarkupNode? then "M: " + EscapeMarkup(node.markupContent, newLine)
    else "--- UNKNOWN (" + node.typeName + ") ---"
  }

  /** Text, markup and unknown nodes print one line each at the current depth. */
  lemma LeafShape(node: Node, s: Serializer)
    requires node.id !in s.visited && !node.HasChildren()
    ensures Serialize(node, s) == Mark(s, node.id).(writer := Line(s.writer, s.depth, s.newLine, LeafText(node, s.newLine)))
  {
    var m := Mark(s, node.id);
    if node.TextNode? {
      assert Serialize(node, s) == SerializeTextNode(node, m);
      TwoWritesLine(s.writer, s.depth, s.newLine, "T: ", node.textContent);
    } else if node.MarkupNode? {
      assert Serialize(node, s) == SerializeMarkupNode(node, m);
      TwoWritesLine(s.writer, s.depth, s.newLine, "M: ", EscapeMarkup(node.markupContent, s.newLine));
    } else {
      assert Serialize(node, s) == SerializeUnknownNode(node, m);
      ThreeWritesLine(s.writer, s.depth, s.newLine, "--- UNKNOWN (", node.typeName, ") ---");
    }
  }

  /** Walking a concatenation is walking the first part, then the second. */
  lemma {:induction false} SerializeAllAppend(xs: seq<Node>, ys: seq<Node>, s: Serializer)
    ensures SerializeAll(xs + ys, s) == SerializeAll(ys, SerializeAll(xs, s))
    decreases |xs|
  {
    if xs != [] {
      assert (xs + ys)[0] == xs[0];
      assert (xs + ys)[1..] == xs[1..] + ys;
      SerializeAllAppend(xs[1..], ys, Serialize(xs[0], s));
    } else {
      assert xs + ys == ys;
    }
  }

  /** Serializing a node a second time adds nothing. */
  lemma SerializeTwice(node: Node, s: Serializer)
    ensures Serialize(node, Serialize(node, s)) == Serialize(node, s)
  {
  }

  /** Over a whole hive, each node is printed at most once, the nodes printed are exactly
      the nodes visited, every component of the hive is among them, and the depth is back
      to zero. */
  lemma HivePrintsEachNodeOnce(hive: ElementHive, newLine: NewLine)
    ensures var r := SerializeHive(hive, Initial(newLine));
      && NoDuplicates(r.printed)
      && (forall id :: id in r.visited <==> id in r.printed)
      && (forall k :: 0 <= k < |hive.components| ==> hive.components[k].1.id in r.printed)
      && r.depth == 0
  {
    var r := SerializeHive(hive, Initial(newLine));
    assert Consistent(r.visited, r.printed);
  }

  /** A component reached again through a later entry of the hive is skipped. */
  lemma HiveSkipsSeen(node: Node, hive: ElementHive, s: Serializer)
    requires node.id in s.visited
    ensures SerializeHive(ElementHive([(0, node)] + hive.components), s) == SerializeHive(hive, s)
  {
    var nodes := ComponentValues(ElementHive([(0, node)] + hive.components));
    assert nodes == [node] + ComponentValues(hive);
    assert nodes[1..] == ComponentValues(hive);
  }
}
