/** Auto layout: `getLayoutedElements` turns dagre's node centres into
    top-left positions and handle anchors, and `onLayout` writes the
    positions back into the shared node map.

    dagre's ranking and placement are a library computation; the centre it
    assigns to each node id is the parameter `centre`.
 */
module Layout {
  import opened Utf16
  import opened Graph

  const NodeWidth: real := 180.0
  const NodeHeight: real := 60.0
  /** The direction that selects left/right anchors. */
  const Horizontal: Text := Ascii("LR")

  /** The top-left corner of a node box centred on `c`. */
  function TopLeft(c: Pos): Pos {
    Pos(c.x - NodeWidth / 2.0, c.y - NodeHeight / 2.0)
  }

  datatype Layouted = Layouted(nodes: seq<Node>, edges: seq<Edge>)

  /** `getLayoutedElements(nodes, edges, direction)`, given the centres
      dagre computes. */
  function LayoutedElements(nodes: seq<Node>, edges: seq<Edge>, direction: Text, centre: Text -> Pos): (r: Layouted)
    ensures |r.nodes| == |nodes| && r.edges == edges
    ensures forall i :: 0 <= i < |nodes| ==>
      r.nodes[i] == nodes[i].(position := r.nodes[i].position,
                              sourcePosition := r.nodes[i].sourcePosition,
                              targetPosition := r.nodes[i].targetPosition)
    ensures forall i :: 0 <= i < |nodes| ==>
      && r.nodes[i].position.x + NodeWidth / 2.0 == centre(nodes[i].id).x
      && r.nodes[i].position.y + NodeHeight / 2.0 == centre(nodes[i].id).y
    ensures direction == Horizontal ==>
      forall i :: 0 <= i < |nodes| ==> r.nodes[i].targetPosition == Some(Left) && r.nodes[i].sourcePosition == Some(Right)
    ensures direction != Horizontal ==>
      forall i :: 0 <= i < |nodes| ==> r.nodes[i].targetPosition == Some(Top) && r.nodes[i].sourcePosition == Some(Bottom)
  {
    var horizontal := direction == Horizontal;
    Layouted(
      seq(|nodes|, i requires 0 <= i < |nodes| =>
        nodes[i].(targetPosition := Some(if horizontal then Left else Top),
                  sourcePosition := Some(if horizontal then Right else Bottom),
                  position := TopLeft(centre(nodes[i].id)))),
      edges)
  }

  /** The `layoutedNodes.forEach` loop of `onLayout`: a node whose id is in
      the map gets the new position and keeps every other field of the
      stored record; other ids are skipped. */
  function WriteBackPositions(m: map<Text, Node>, ns: seq<Node>): (r: map<Text, Node>)
    ensures r.Keys == m.Keys
    ensures forall k :: k in m ==> r[k] == m[k].(position := r[k].position)
    ensures forall k :: k in m && !Lists(ns, k) ==> r[k] == m[k]
    ensures forall i :: 0 <= i < |ns| && ns[i].id in m && LastWithId(ns, i) ==> r[ns[i].id].position == ns[i].position
    decreases |ns|
  {
    if ns == [] then m
    else
      var n := ns[0];
      var m' := if n.id in m then m[n.id := m[n.id].(position := n.position)] else m;
      var r := WriteBackPositions(m', ns[1..]);
      ListsTail(ns);
      LastWithIdTail(ns);
      r
  }

  /** `onLayout(direction)`: lay out the current listing of the node map and
      write the new positions back. */
  function OnLayout(s: Store, view: seq<Node>, edgeView: seq<Edge>, direction: Text, centre: Text -> Pos): (r: Store)
    ensures r.edges == s.edges
    ensures r.nodes.Keys == s.nodes.Keys
    ensures forall k :: k in s.nodes ==> r.nodes[k] == s.nodes[k].(position := r.nodes[k].position)
  {
    var laid := LayoutedElements(view, edgeView, direction, centre);
    s.(nodes := WriteBackPositions(s.nodes, laid.nodes))
  }

  /** When the listing is the whole node map, every stored node ends up
      centred where dagre put it, and nothing else about it changes (its
      handle anchors included: those reach the local view only). */
  lemma OnLayoutPlacesEveryNode(s: Store, view: seq<Node>, edgeView: seq<Edge>, direction: Text, centre: Text -> Pos)
    requires Keyed(s) && Enumerates(view, s.nodes)
    ensures forall k :: k in s.nodes ==>
      OnLayout(s, view, edgeView, direction, centre).nodes[k] == s.nodes[k].(position := TopLeft(centre(k)))
  {
    var laid := LayoutedElements(view, edgeView, direction, centre).nodes;
    var r := OnLayout(s, view, edgeView, direction, centre);
    forall k | k in s.nodes
      ensures r.nodes[k] == s.nodes[k].(position := TopLeft(centre(k)))
    {
      var i :| 0 <= i < |view| && view[i].id == k;
      assert laid[i].id == k;
      assert LastWithId(laid, i) by {
        forall j | i < j < |laid|
          ensures laid[j].id != laid[i].id
        {
          assert laid[j].id == view[j].id;
        }
      }
      assert laid[i].position == TopLeft(centre(k));
    }
  }

  /** Layout moves nodes only, so it can neither create nor repair a
      dangling edge, and keeps every record under its own id. */
  lemma OnLayoutKeepsInvariants(s: Store, view: seq<Node>, edgeView: seq<Edge>, direction: Text, centre: Text -> Pos)
    ensures Integrity(OnLayout(s, view, edgeView, direction, centre)) <==> Integrity(s)
    ensures Keyed(s) ==> Keyed(OnLayout(s, view, edgeView, direction, centre))
  {
  }
}
