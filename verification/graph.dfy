/** The records of the shared mind map and the two replicated maps that hold
    them.

    A node or edge is the plain object React Flow renders; the fields that
    the handlers read or write are kept, the rendering-only ones (selection,
    measured size, ...) are not. A node's `data` is an open record of
    string-valued fields, of which `label` and `shape` are the ones the
    handlers use.
 */
module Graph {
  import opened Utf16

  datatype Option<+T> = None | Some(value: T)

  /** A point on the canvas. Floating-point rounding is not modelled. */
  datatype Pos = Pos(x: real, y: real)

  /** React Flow's handle anchors. */
  datatype Anchor = Left | Right | Top | Bottom

  datatype Node = Node(
    id: Text,
    kind: Option<Text>,
    position: Pos,
    data: map<Text, Text>,
    sourcePosition: Option<Anchor>,
    targetPosition: Option<Anchor>)

  datatype Edge = Edge(
    id: Text,
    source: Text,
    target: Text,
    kind: Option<Text>,
    sourceHandle: Option<Text>,
    targetHandle: Option<Text>)

  /** The two replicated maps `yNodes` and `yEdges`, keyed by record id. */
  datatype Store = Store(nodes: map<Text, Node>, edges: map<Text, Edge>)

  const LabelKey: Text := Ascii("label")
  const ShapeKey: Text := Ascii("shape")
  /** The custom node and edge type registered with React Flow. */
  const MindMapKind: Text := Ascii("mindMap")

  predicate Mentions(e: Edge, id: Text) {
    e.source == id || e.target == id
  }

  /** Every record is stored under its own id. */
  predicate Keyed(s: Store) {
    && (forall k :: k in s.nodes ==> s.nodes[k].id == k)
    && (forall k :: k in s.edges ==> s.edges[k].id == k)
  }

  /** No edge has an endpoint outside the node map. */
  predicate Integrity(s: Store) {
    forall k :: k in s.edges ==> s.edges[k].source in s.nodes && s.edges[k].target in s.nodes
  }

  /** `view` lists the values of `m` once each, in some order: what
      `Array.from(yNodes.values())` returns for a keyed node map. */
  predicate Enumerates(view: seq<Node>, m: map<Text, Node>) {
    && (forall i :: 0 <= i < |view| ==> view[i].id in m && m[view[i].id] == view[i])
    && (forall i, j :: 0 <= i < j < |view| ==> view[i].id != view[j].id)
    && (forall k :: k in m ==> exists i :: 0 <= i < |view| && view[i].id == k)
  }

  /** Some element of `ns` has id `k`. */
  predicate Lists(ns: seq<Node>, k: Text) {
    exists i :: 0 <= i < |ns| && ns[i].id == k
  }

  /** No later element of `ns` has the same id as `ns[i]`: the element a
      sequence of writes keyed by id leaves behind. */
  predicate LastWithId(ns: seq<Node>, i: int)
    requires 0 <= i < |ns|
  {
    forall j :: i < j < |ns| ==> ns[j].id != ns[i].id
  }

  /** The ids listed by `ns` are its head's and those listed by its tail. */
  lemma ListsTail(ns: seq<Node>)
    requires ns != []
    ensures forall k :: Lists(ns, k) <==> ns[0].id == k || Lists(ns[1..], k)
  {
    forall k | Lists(ns, k)
      ensures ns[0].id == k || Lists(ns[1..], k)
    {
      var j :| 0 <= j < |ns| && ns[j].id == k;
      if j > 0 {
        assert ns[1..][j - 1].id == k;
      }
    }
    forall k | Lists(ns[1..], k)
      ensures Lists(ns, k)
    {
      var j :| 0 <= j < |ns[1..]| && ns[1..][j].id == k;
      assert ns[j + 1].id == k;
    }
  }

  lemma LastWithIdTail(ns: seq<Node>)
    requires ns != []
    ensures forall i :: 1 <= i < |ns| && LastWithId(ns, i) ==> LastWithId(ns[1..], i - 1)
  {
    forall i | 1 <= i < |ns| && LastWithId(ns, i)
      ensures LastWithId(ns[1..], i - 1)
    {
      forall j | i - 1 < j < |ns[1..]|
        ensures ns[1..][j].id != ns[1..][i - 1].id
      {
        assert ns[1..][j] == ns[j + 1];
      }
    }
  }
}
