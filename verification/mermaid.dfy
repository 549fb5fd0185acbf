/** Export of the graph as a Mermaid flowchart (`graph TD`).

    Node ids are reduced to `[A-Za-z0-9_]`, labels lose the three code units
    that would end a quoted Mermaid string or a line, and the text is one
    header line, one line per node and one line per edge, each ending in a
    line feed. `Decode` reads such a text back, which shows the output is
    unambiguous: every line can be told apart and split into its parts.
 */
module Mermaid {
  import opened Utf16
  import opened Graph

  /** The code units `sanitizeId` can produce: `[A-Za-z0-9_]`. */
  predicate IsIdUnit(c: CodeUnit) {
    IsAsciiAlnum(c) || c == Underscore
  }

  /** The code units `sanitizeLabel` removes: `"`, `\n` and `\r`. */
  predicate IsLabelBreaker(c: CodeUnit) {
    c == DoubleQuote || c == LineFeed || c == CarriageReturn
  }

  /** `id.replace(/[^a-zA-Z0-9]/g, '_')`. */
  function SanitizeId(id: Text): (r: Text)
    ensures |r| == |id|
    ensures forall i :: 0 <= i < |r| ==> IsIdUnit(r[i])
    ensures forall i :: 0 <= i < |id| && IsAsciiAlnum(id[i]) ==> r[i] == id[i]
    ensures forall i :: 0 <= i < |id| && !IsAsciiAlnum(id[i]) ==> r[i] == Underscore
  {
    seq(|id|, i requires 0 <= i < |id| => if IsAsciiAlnum(id[i]) then id[i] else Underscore)
  }

  /** `label.replace(/["\n\r]/g, ' ')`. */
  function SanitizeLabel(raw: Text): (r: Text)
    ensures |r| == |raw|
    ensures forall i :: 0 <= i < |r| ==> !IsLabelBreaker(r[i])
    ensures forall i :: 0 <= i < |raw| && IsLabelBreaker(raw[i]) ==> r[i] == Space
    ensures forall i :: 0 <= i < |raw| && !IsLabelBreaker(raw[i]) ==> r[i] == raw[i]
  {
    seq(|raw|, i requires 0 <= i < |raw| => if IsLabelBreaker(raw[i]) then Space else raw[i])
  }

  /** An id is left alone exactly when it is already made of `[A-Za-z0-9_]`. */
  lemma SanitizeIdFixedPoints(id: Text)
    ensures SanitizeId(id) == id <==> forall i :: 0 <= i < |id| ==> IsIdUnit(id[i])
  {
    if SanitizeId(id) == id {
      forall i | 0 <= i < |id|
        ensures IsIdUnit(id[i])
      {
        assert SanitizeId(id)[i] == id[i];
      }
    }
  }

  lemma SanitizeIdIdempotent(id: Text)
    ensures SanitizeId(SanitizeId(id)) == SanitizeId(id)
  {
  }

  /** A label is left alone exactly when it holds no `"`, `\n` or `\r`. */
  lemma SanitizeLabelFixedPoints(raw: Text)
    ensures SanitizeLabel(raw) == raw <==> forall i :: 0 <= i < |raw| ==> !IsLabelBreaker(raw[i])
  {
    if SanitizeLabel(raw) == raw {
      forall i | 0 <= i < |raw|
        ensures !IsLabelBreaker(raw[i])
      {
        assert SanitizeLabel(raw)[i] == raw[i];
      }
    }
  }

  lemma SanitizeLabelIdempotent(raw: Text)
    ensures SanitizeLabel(SanitizeLabel(raw)) == SanitizeLabel(raw)
  {
  }

  const HeaderLine: Text := Ascii("graph TD")
  const Header: Text := HeaderLine + [LineFeed]
  const Indent: Text := Ascii("    ")
  const OpenLabel: Text := Ascii("[\"")
  const CloseLabel: Text := Ascii("\"]")
  const Arrow: Text := Ascii(" --> ")
  /** Shown for a node whose label is missing or empty. */
  const EmptyLabel: Text := Ascii("Empty")

  /** A node's label as exported: sanitized when it is a non-empty string,
      `Empty` otherwise. */
  function DisplayLabel(n: Node): (r: Text)
    ensures forall i :: 0 <= i < |r| ==> !IsLabelBreaker(r[i])
    ensures LabelKey in n.data && n.data[LabelKey] != [] ==> |r| == |n.data[LabelKey]|
    ensures LabelKey in n.data && n.data[LabelKey] != [] ==> r == SanitizeLabel(n.data[LabelKey])
    ensures !(LabelKey in n.data && n.data[LabelKey] != []) ==> r == EmptyLabel
  {
    if LabelKey in n.data && n.data[LabelKey] != [] then SanitizeLabel(n.data[LabelKey]) else EmptyLabel
  }

  /** A node line without its line feed: `    id["label"]`. */
  function NodeLine(n: Node): Text {
    Indent + SanitizeId(n.id) + OpenLabel + DisplayLabel(n) + CloseLabel
  }

  /** An edge line without its line feed: `    source --> target`. */
  function EdgeLine(e: Edge): Text {
    Indent + SanitizeId(e.source) + Arrow + SanitizeId(e.target)
  }

  predicate EndsLine(t: Text) {
    t == [] || t[|t| - 1] == LineFeed
  }

  /** The text the `nodes.forEach` loop appends. */
  function NodeBlock(nodes: seq<Node>): (r: Text)
    ensures EndsLine(r)
  {
    if nodes == [] then [] else NodeLine(nodes[0]) + [LineFeed] + NodeBlock(nodes[1..])
  }

  /** The text the `edges.forEach` loop appends. */
  function EdgeBlock(edges: seq<Edge>): (r: Text)
    ensures EndsLine(r)
  {
    if edges == [] then [] else EdgeLine(edges[0]) + [LineFeed] + EdgeBlock(edges[1..])
  }

  /** `toMermaid(nodes, edges)`. */
  function ToMermaid(nodes: seq<Node>, edges: seq<Edge>): (r: Text)
    ensures |Header| <= |r| && r[..|Header|] == Header
    ensures r[|r| - 1] == LineFeed
  {
    Header + NodeBlock(nodes) + EdgeBlock(edges)
  }

  // ----- Line structure -----

  /** The lines of `t`, split at each line feed; a final line feed does not
      start an empty last line. */
  function Lines(t: Text): seq<Text>
    decreases |t|
  {
    if t == [] then []
    else
      var i := FirstIndexOf(t, LineFeed);
      if i == |t| then [t] else [t[..i]] + Lines(t[i + 1..])
  }

  lemma LinesAfterLine(body: Text, rest: Text)
    requires Excludes(body, LineFeed)
    ensures Lines(body + [LineFeed] + rest) == [body] + Lines(rest)
  {
    var t := body + [LineFeed] + rest;
    FirstIndexOfJoin(body, [LineFeed] + rest, LineFeed);
    assert t == body + ([LineFeed] + rest);
    assert t[..|body|] == body;
    assert t[|body| + 1..] == rest;
  }

  lemma NodeLineIsOneLine(n: Node)
    ensures Excludes(NodeLine(n), LineFeed)
  {
    var sid, lbl := SanitizeId(n.id), DisplayLabel(n);
    var line := NodeLine(n);
    forall i | 0 <= i < |line|
      ensures line[i] != LineFeed
    {
      if i < |Indent| {
        assert line[i] == Indent[i];
      } else if i < |Indent| + |sid| {
        assert line[i] == sid[i - |Indent|];
      } else if i < |Indent| + |sid| + |OpenLabel| {
        assert line[i] == OpenLabel[i - |Indent| - |sid|];
      } else if i < |Indent| + |sid| + |OpenLabel| + |lbl| {
        assert line[i] == lbl[i - |Indent| - |sid| - |OpenLabel|];
      } else {
        assert line[i] == CloseLabel[i - |Indent| - |sid| - |OpenLabel| - |lbl|];
      }
    }
  }

  lemma EdgeLineIsOneLine(e: Edge)
    ensures Excludes(EdgeLine(e), LineFeed)
  {
    var src, tgt := SanitizeId(e.source), SanitizeId(e.target);
    var line := EdgeLine(e);
    forall i | 0 <= i < |line|
      ensures line[i] != LineFeed
    {
      if i < |Indent| {
        assert line[i] == Indent[i];
      } else if i < |Indent| + |src| {
        assert line[i] == src[i - |Indent|];
      } else if i < |Indent| + |src| + |Arrow| {
        assert line[i] == Arrow[i - |Indent| - |src|];
      } else {
        assert line[i] == tgt[i - |Indent| - |src| - |Arrow|];
      }
    }
  }

  lemma HeaderIsOneLine()
    ensures Excludes(HeaderLine, LineFeed)
  {
  }

  function NodeLines(nodes: seq<Node>): seq<Text> {
    seq(|nodes|, i requires 0 <= i < |nodes| => NodeLine(nodes[i]))
  }

  function EdgeLines(edges: seq<Edge>): seq<Text> {
    seq(|edges|, i requires 0 <= i < |edges| => EdgeLine(edges[i]))
  }

  /** Each text of `ls` followed by a line feed. */
  function JoinLines(ls: seq<Text>): Text {
    if ls == [] then [] else ls[0] + [LineFeed] + JoinLines(ls[1..])
  }

  predicate SingleLines(ls: seq<Text>) {
    forall i :: 0 <= i < |ls| ==> Excludes(ls[i], LineFeed)
  }

  /** Splitting undoes joining, as long as no text holds a line feed. */
  lemma {:induction false} LinesOfJoinLines(ls: seq<Text>)
    requires SingleLines(ls)
    ensures Lines(JoinLines(ls)) == ls
  {
    if ls != [] {
      LinesAfterLine(ls[0], JoinLines(ls[1..]));
      LinesOfJoinLines(ls[1..]);
      assert ls == [ls[0]] + ls[1..];
    }
  }

  lemma {:induction false} JoinLinesAppend(a: seq<Text>, b: seq<Text>)
    ensures JoinLines(a + b) == JoinLines(a) + JoinLines(b)
  {
    if a == [] {
      assert a + b == b;
    } else {
      assert (a + b)[0] == a[0];
      assert (a + b)[1..] == a[1..] + b;
      JoinLinesAppend(a[1..], b);
    }
  }

  lemma {:induction false} NodeBlockIsJoin(nodes: seq<Node>)
    ensures NodeBlock(nodes) == JoinLines(NodeLines(nodes))
  {
    if nodes != [] {
      assert NodeLines(nodes)[1..] == NodeLines(nodes[1..]);
      NodeBlockIsJoin(nodes[1..]);
    }
  }

  lemma {:induction false} EdgeBlockIsJoin(edges: seq<Edge>)
    ensures EdgeBlock(edges) == JoinLines(EdgeLines(edges))
  {
    if edges != [] {
      assert EdgeLines(edges)[1..] == EdgeLines(edges[1..]);
      EdgeBlockIsJoin(edges[1..]);
    }
  }

  /** The lines the export is made of, in order. */
  function ExportLines(nodes: seq<Node>, edges: seq<Edge>): seq<Text> {
    [HeaderLine] + NodeLines(nodes) + EdgeLines(edges)
  }

  lemma ExportLinesAreSingle(nodes: seq<Node>, edges: seq<Edge>)
    ensures SingleLines(ExportLines(nodes, edges))
  {
    var ls := ExportLines(nodes, edges);
    forall i | 0 <= i < |ls|
      ensures Excludes(ls[i], LineFeed)
    {
      if i == 0 {
        HeaderIsOneLine();
      } else if i < 1 + |nodes| {
        NodeLineIsOneLine(nodes[i - 1]);
      } else {
        EdgeLineIsOneLine(edges[i - 1 - |nodes|]);
      }
    }
  }

  lemma ToMermaidShape(nodes: seq<Node>, edges: seq<Edge>)
    ensures ToMermaid(nodes, edges) == HeaderLine + [LineFeed] + (NodeBlock(nodes) + EdgeBlock(edges))
  {
    var nb, eb := NodeBlock(nodes), EdgeBlock(edges);
    assert ToMermaid(nodes, edges) == Header + nb + eb;
    ConcatAssoc(HeaderLine + [LineFeed], nb, eb);
  }

  lemma ExportLinesJoined(nodes: seq<Node>, edges: seq<Edge>)
    ensures JoinLines(ExportLines(nodes, edges)) == HeaderLine + [LineFeed] + (NodeBlock(nodes) + EdgeBlock(edges))
  {
    var rest := NodeLines(nodes) + EdgeLines(edges);
    assert JoinLines(rest) == NodeBlock(nodes) + EdgeBlock(edges) by {
      NodeBlockIsJoin(nodes);
      EdgeBlockIsJoin(edges);
      JoinLinesAppend(NodeLines(nodes), EdgeLines(edges));
    }
    var ls := ExportLines(nodes, edges);
    assert ls == [HeaderLine] + rest;
    assert ls[0] == HeaderLine;
    assert ls[1..] == rest;
  }

  lemma ToMermaidIsJoin(nodes: seq<Node>, edges: seq<Edge>)
    ensures ToMermaid(nodes, edges) == JoinLines(ExportLines(nodes, edges))
  {
    ToMermaidShape(nodes, edges);
    ExportLinesJoined(nodes, edges);
  }

  /** The export is the header line, then one line per node in input order,
      then one line per edge in input order, and nothing else. */
  lemma ToMermaidLines(nodes: seq<Node>, edges: seq<Edge>)
    ensures Lines(ToMermaid(nodes, edges)) == [HeaderLine] + NodeLines(nodes) + EdgeLines(edges)
    ensures |Lines(ToMermaid(nodes, edges))| == 1 + |nodes| + |edges|
  {
    ToMermaidIsJoin(nodes, edges);
    ExportLinesAreSingle(nodes, edges);
    LinesOfJoinLines(ExportLines(nodes, edges));
  }

  // ----- Reading an export back -----

  /** Splits `    id["label"]` into its id and label; the label ends at the
      first `"`, as a Mermaid string does. */
  function ParseNodeLine(line: Text): Option<(Text, Text)> {
    if |line| < |Indent| || line[..|Indent|] != Indent then None
    else
      var rest := line[|Indent|..];
      var j := FirstIndexOf(rest, LeftBracket);
      if j + 1 >= |rest| || rest[j + 1] != DoubleQuote then None
      else
        var after := rest[j + 2..];
        var q := FirstIndexOf(after, DoubleQuote);
        if after[q..] != CloseLabel then None else Some((rest[..j], after[..q]))
  }

  /** Splits `    source --> target` at its first space. */
  function ParseEdgeLine(line: Text): Option<(Text, Text)> {
    if |line| < |Indent| || line[..|Indent|] != Indent then None
    else
      var rest := line[|Indent|..];
      var j := FirstIndexOf(rest, Space);
      if |rest| - j < |Arrow| || rest[j..j + |Arrow|] != Arrow then None
      else Some((rest[..j], rest[j + |Arrow|..]))
  }

  lemma IdExcludes(id: Text, c: CodeUnit)
    requires !IsIdUnit(c)
    ensures Excludes(SanitizeId(id), c)
  {
  }

  /** A node line is read back into its id and label whenever the id holds
      no `[` and the label no `"`. */
  lemma NodeLineParts(sid: Text, lbl: Text)
    requires Excludes(sid, LeftBracket) && Excludes(lbl, DoubleQuote)
    ensures ParseNodeLine(Indent + sid + OpenLabel + lbl + CloseLabel) == Some((sid, lbl))
  {
    var tail := lbl + CloseLabel;
    var rest := sid + (OpenLabel + tail);
    var line := Indent + sid + OpenLabel + lbl + CloseLabel;
    assert line == Indent + rest by {
      ConcatAssoc(Indent + sid + OpenLabel, lbl, CloseLabel);
      ConcatAssoc(Indent + sid, OpenLabel, tail);
      ConcatAssoc(Indent, sid, OpenLabel + tail);
    }
    SplitJoin(Indent, rest);
    SplitJoin(sid, OpenLabel + tail);
    assert OpenLabel == [LeftBracket, DoubleQuote];
    FirstIndexOfJoin(sid, OpenLabel + tail, LeftBracket);
    assert rest[|sid| + 1] == DoubleQuote;
    assert rest[|sid| + 2..] == tail;
    assert CloseLabel[0] == DoubleQuote;
    FirstIndexOfJoin(lbl, CloseLabel, DoubleQuote);
    SplitJoin(lbl, CloseLabel);
  }

  lemma ParseNodeLineRoundTrip(n: Node)
    ensures ParseNodeLine(NodeLine(n)) == Some((SanitizeId(n.id), DisplayLabel(n)))
  {
    IdExcludes(n.id, LeftBracket);
    NodeLineParts(SanitizeId(n.id), DisplayLabel(n));
  }

  /** An edge line is read back into its endpoints whenever the source
      holds no space. */
  lemma EdgeLineParts(src: Text, tgt: Text)
    requires Excludes(src, Space)
    ensures ParseEdgeLine(Indent + src + Arrow + tgt) == Some((src, tgt))
  {
    var line := Indent + src + Arrow + tgt;
    assert line[..|Indent|] == Indent;
    var rest := line[|Indent|..];
    assert rest == src + (Arrow + tgt);
    FirstIndexOfJoin(src, Arrow + tgt, Space);
    assert rest[..|src|] == src;
    assert rest[|src|..|src| + |Arrow|] == Arrow;
    assert rest[|src| + |Arrow|..] == tgt;
  }

  lemma ParseEdgeLineRoundTrip(e: Edge)
    ensures ParseEdgeLine(EdgeLine(e)) == Some((SanitizeId(e.source), SanitizeId(e.target)))
  {
    IdExcludes(e.source, Space);
    EdgeLineParts(SanitizeId(e.source), SanitizeId(e.target));
  }

  /** A line of two `[`-free ids around the arrow holds no `[`, so it is
      no node line. */
  lemma EdgeLinePartsNoNodeLine(src: Text, tgt: Text)
    requires Excludes(src, LeftBracket) && Excludes(tgt, LeftBracket)
    ensures ParseNodeLine(Indent + src + Arrow + tgt) == None
  {
    var line := Indent + src + Arrow + tgt;
    assert line[..|Indent|] == Indent;
    var rest := line[|Indent|..];
    assert rest == src + Arrow + tgt;
    assert Excludes(rest, LeftBracket) by {
      forall i | 0 <= i < |rest|
        ensures rest[i] != LeftBracket
      {
        if i < |src| {
          assert rest[i] == src[i];
        } else if i < |src| + |Arrow| {
          assert rest[i] == Arrow[i - |src|];
        } else {
          assert rest[i] == tgt[i - |src| - |Arrow|];
        }
      }
    }
  }

  /** An edge line is never mistaken for a node line: it holds no `[`. */
  lemma EdgeLineIsNoNodeLine(e: Edge)
    ensures ParseNodeLine(EdgeLine(e)) == None
  {
    IdExcludes(e.source, LeftBracket);
    IdExcludes(e.target, LeftBracket);
    EdgeLinePartsNoNodeLine(SanitizeId(e.source), SanitizeId(e.target));
  }

  /** What a reader recovers from an export: the (id, label) of each node
      and the (source, target) of each edge, in order. */
  datatype Diagram = Diagram(nodes: seq<(Text, Text)>, edges: seq<(Text, Text)>)

  /** A reader of one line: its parts, or `None` when the line does not
      have the reader's form. */
  type LineReader = Text -> Option<(Text, Text)>

  /** Every line read by `edge`, or `None` at the first that is not an
      edge line. */
  function DecodeEdges(lines: seq<Text>, edge: LineReader): Option<seq<(Text, Text)>> {
    if lines == [] then Some([])
    else match edge(lines[0])
      case None => None
      case Some(p) =>
        match DecodeEdges(lines[1..], edge)
        case None => None
        case Some(ps) => Some([p] + ps)
  }

  /** Node lines as long as `node` reads them, then edge lines to the end. */
  function DecodeBody(lines: seq<Text>, node: LineReader, edge: LineReader): Option<Diagram> {
    if lines == [] then Some(Diagram([], []))
    else match node(lines[0])
      case Some(p) =>
        (match DecodeBody(lines[1..], node, edge)
         case None => None
         case Some(d) => Some(d.(nodes := [p] + d.nodes)))
      case None =>
        (match DecodeEdges(lines, edge)
         case None => None
         case Some(ps) => Some(Diagram([], ps)))
  }

  /** Reads an export: a header line, node lines, then edge lines, with a
      line feed after the last. */
  function Decode(t: Text): Option<Diagram> {
    var lines := Lines(t);
    if t == [] || t[|t| - 1] != LineFeed || lines[0] != HeaderLine then None
    else DecodeBody(lines[1..], ParseNodeLine, ParseEdgeLine)
  }

  function NodeParts(nodes: seq<Node>): seq<(Text, Text)> {
    seq(|nodes|, i requires 0 <= i < |nodes| => (SanitizeId(nodes[i].id), DisplayLabel(nodes[i])))
  }

  function EdgeParts(edges: seq<Edge>): seq<(Text, Text)> {
    seq(|edges|, i requires 0 <= i < |edges| => (SanitizeId(edges[i].source), SanitizeId(edges[i].target)))
  }

  /** Each text of `ls` is read by `r` into the matching pair of `ps`. */
  predicate ReadAs(ls: seq<Text>, ps: seq<(Text, Text)>, r: LineReader)
    decreases ls
  {
    if ls == [] then ps == []
    else ps != [] && r(ls[0]) == Some(ps[0]) && ReadAs(ls[1..], ps[1..], r)
  }

  lemma {:induction false} DecodeEdgesRead(ls: seq<Text>, ps: seq<(Text, Text)>, edge: LineReader)
    requires ReadAs(ls, ps, edge)
    ensures DecodeEdges(ls, edge) == Some(ps)
    decreases ls
  {
    if ls != [] {
      DecodeEdgesRead(ls[1..], ps[1..], edge);
      assert ps == [ps[0]] + ps[1..];
    }
  }

  lemma {:induction false} DecodeBodyRead(ns: seq<Text>, es: seq<Text>, np: seq<(Text, Text)>, ep: seq<(Text, Text)>,
                                          node: LineReader, edge: LineReader)
    requires ReadAs(ns, np, node) && ReadAs(es, ep, edge)
    requires es == [] || node(es[0]) == None
    ensures DecodeBody(ns + es, node, edge) == Some(Diagram(np, ep))
    decreases ns
  {
    if ns == [] {
      assert ns + es == es;
      DecodeEdgesRead(es, ep, edge);
    } else {
      assert (ns + es)[1..] == ns[1..] + es;
      DecodeBodyRead(ns[1..], es, np[1..], ep, node, edge);
      assert np == [np[0]] + np[1..];
    }
  }

  lemma {:induction false} ReadAsEach(ls: seq<Text>, ps: seq<(Text, Text)>, r: LineReader)
    requires |ls| == |ps|
    requires forall i :: 0 <= i < |ls| ==> r(ls[i]) == Some(ps[i])
    ensures ReadAs(ls, ps, r)
    decreases ls
  {
    if ls != [] {
      ReadAsEach(ls[1..], ps[1..], r);
    }
  }

  lemma NodeLinesRead(nodes: seq<Node>)
    ensures ReadAs(NodeLines(nodes), NodeParts(nodes), ParseNodeLine)
  {
    forall i | 0 <= i < |nodes|
      ensures ParseNodeLine(NodeLines(nodes)[i]) == Some(NodeParts(nodes)[i])
    {
      ParseNodeLineRoundTrip(nodes[i]);
    }
    ReadAsEach(NodeLines(nodes), NodeParts(nodes), ParseNodeLine);
  }

  lemma EdgeLinesRead(edges: seq<Edge>)
    ensures ReadAs(EdgeLines(edges), EdgeParts(edges), ParseEdgeLine)
  {
    forall i | 0 <= i < |edges|
      ensures ParseEdgeLine(EdgeLines(edges)[i]) == Some(EdgeParts(edges)[i])
    {
      ParseEdgeLineRoundTrip(edges[i]);
    }
    ReadAsEach(EdgeLines(edges), EdgeParts(edges), ParseEdgeLine);
  }

  lemma DecodeBodyLines(nodes: seq<Node>, edges: seq<Edge>)
    ensures DecodeBody(NodeLines(nodes) + EdgeLines(edges), ParseNodeLine, ParseEdgeLine)
         == Some(Diagram(NodeParts(nodes), EdgeParts(edges)))
  {
    if edges != [] {
      EdgeLineIsNoNodeLine(edges[0]);
    }
    NodeLinesRead(nodes);
    EdgeLinesRead(edges);
    DecodeBodyRead(NodeLines(nodes), EdgeLines(edges), NodeParts(nodes), EdgeParts(edges), ParseNodeLine, ParseEdgeLine);
  }

  /** Reading an export back yields every node's sanitized id and label and
      every edge's sanitized endpoints, in the order they were given. */
  lemma DecodeToMermaid(nodes: seq<Node>, edges: seq<Edge>)
    ensures Decode(ToMermaid(nodes, edges)) == Some(Diagram(NodeParts(nodes), EdgeParts(edges)))
  {
    ToMermaidLines(nodes, edges);
    ConcatAssoc([HeaderLine], NodeLines(nodes), EdgeLines(edges));
    DecodeBodyLines(nodes, edges);
    DecodeHeaded(ToMermaid(nodes, edges), NodeLines(nodes) + EdgeLines(edges), Diagram(NodeParts(nodes), EdgeParts(edges)));
  }

  lemma ConcatAssoc<T>(a: seq<T>, b: seq<T>, c: seq<T>)
    ensures a + b + c == a + (b + c)
  {
  }

  lemma SplitJoin<T>(a: seq<T>, b: seq<T>)
    ensures (a + b)[..|a|] == a && (a + b)[|a|..] == b
  {
  }

  /** A text ending in a line feed whose first line is the header and whose
      other lines decode to `d` is read as `d`. */
  lemma DecodeHeaded(t: Text, body: seq<Text>, d: Diagram)
    requires t != [] && t[|t| - 1] == LineFeed
    requires Lines(t) == [HeaderLine] + body
    requires DecodeBody(body, ParseNodeLine, ParseEdgeLine) == Some(d)
    ensures Decode(t) == Some(d)
  {
    assert Lines(t)[1..] == body;
  }

  // ----- The cases the repository's tests check -----

  function LabelledNode(id: Text, lbl: Text): Node {
    Node(id, None, Pos(0.0, 0.0), map[LabelKey := lbl], None, None)
  }

  lemma SanitizeExamples()
    ensures SanitizeLabel(Ascii("Line\nBreak")) == Ascii("Line Break")
    ensures SanitizeLabel(Ascii("Quote\"")) == Ascii("Quote ")
    ensures SanitizeId(Ascii("a-b c")) == Ascii("a_b_c")
  {
  }

  /** A node whose id needs no sanitizing and whose label has no line
      break or quote is exported with both verbatim. */
  lemma PlainNodeLine(n: Node, lbl: Text)
    requires forall i :: 0 <= i < |n.id| ==> IsIdUnit(n.id[i])
    requires LabelKey in n.data && n.data[LabelKey] == lbl && lbl != []
    requires forall i :: 0 <= i < |lbl| ==> !IsLabelBreaker(lbl[i])
    ensures NodeLine(n) == Indent + n.id + OpenLabel + lbl + CloseLabel
  {
    SanitizeIdFixedPoints(n.id);
    SanitizeLabelFixedPoints(lbl);
  }

  /** An edge between ids that need no sanitizing is exported verbatim. */
  lemma PlainEdgeLine(e: Edge)
    requires forall i :: 0 <= i < |e.source| ==> IsIdUnit(e.source[i])
    requires forall i :: 0 <= i < |e.target| ==> IsIdUnit(e.target[i])
    ensures EdgeLine(e) == Indent + e.source + Arrow + e.target
  {
    SanitizeIdFixedPoints(e.source);
    SanitizeIdFixedPoints(e.target);
  }

  /** Two nodes `1/Start` and `2/End` joined by an edge `1 -> 2`: the
      export is the header followed by `1["Start"]`, `2["End"]` and
      `1 --> 2`, each on its own indented line. */
  lemma StartEndExport(n1: Node, n2: Node, e: Edge)
    requires n1 == LabelledNode(Ascii("1"), Ascii("Start"))
    requires n2 == LabelledNode(Ascii("2"), Ascii("End"))
    requires e == Edge(Ascii("e1-2"), Ascii("1"), Ascii("2"), None, None, None)
    ensures Lines(ToMermaid([n1, n2], [e])) == [
      HeaderLine,
      Indent + Ascii("1") + OpenLabel + Ascii("Start") + CloseLabel,
      Indent + Ascii("2") + OpenLabel + Ascii("End") + CloseLabel,
      Indent + Ascii("1") + Arrow + Ascii("2")]
  {
    PlainNodeLine(n1, Ascii("Start"));
    PlainNodeLine(n2, Ascii("End"));
    PlainEdgeLine(e);
    ToMermaidLines([n1, n2], [e]);
    assert NodeLines([n1, n2]) == [NodeLine(n1), NodeLine(n2)];
    assert EdgeLines([e]) == [EdgeLine(e)];
  }
}
