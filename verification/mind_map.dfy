/** The handlers of the mind-map canvas that write the shared maps
    `yNodes` and `yEdges`, each as one step from store to store.

    Only the state after a handler is described. Removing a node is not one
    transaction in the source: the node is deleted first and the edges that
    mention it afterwards, so other peers can see the states in between.
 */
module MindMap {
  import opened Utf16
  import opened Graph
  import opened Collisions

  // ----- Removing nodes and edges -----

  /** The store after a node-`remove` change: the node is gone, and so is
      every edge that starts or ends at it, whether or not the node was
      there. */
  function RemoveNode(s: Store, id: Text): (r: Store)
    ensures r.nodes.Keys == s.nodes.Keys - {id}
    ensures forall k :: k in r.nodes ==> r.nodes[k] == s.nodes[k]
    ensures forall k :: k in r.edges <==> k in s.edges && !Mentions(s.edges[k], id)
    ensures forall k :: k in r.edges ==> r.edges[k] == s.edges[k]
  {
    Store(s.nodes - {id}, map k | k in s.edges && !Mentions(s.edges[k], id) :: s.edges[k])
  }

  /** The remove branch of `handleNodesChange` step by step: delete the node,
      collect the keys of the edges that mention it by walking the edge
      keys in whatever order the map yields them, then delete those. */
  method RemoveNodeSteps(s: Store, id: Text) returns (r: Store)
    ensures r == RemoveNode(s, id)
  {
    var nodes := s.nodes - {id};
    var toDelete: set<Text> := {};
    var pending := s.edges.Keys;
    while pending != {}
      invariant pending <= s.edges.Keys
      invariant forall k :: k in toDelete <==> k in s.edges && k !in pending && Mentions(s.edges[k], id)
      decreases pending
    {
      var k :| k in pending;
      if Mentions(s.edges[k], id) {
        toDelete := toDelete + {k};
      }
      pending := pending - {k};
    }
    var edges := s.edges;
    var rest := toDelete;
    while rest != {}
      invariant rest <= toDelete
      invariant edges == s.edges - (toDelete - rest)
      decreases rest
    {
      var k :| k in rest;
      edges := edges - {k};
      rest := rest - {k};
    }
    r := Store(nodes, edges);
    assert edges == RemoveNode(s, id).edges;
  }

  /** Removing a node keeps every edge's endpoints in the node map and
      leaves no edge that mentions the removed id. */
  lemma RemoveNodeKeepsIntegrity(s: Store, id: Text)
    requires Integrity(s)
    ensures Integrity(RemoveNode(s, id))
    ensures forall k :: k in RemoveNode(s, id).edges ==> !Mentions(RemoveNode(s, id).edges[k], id)
  {
  }

  /** Nodes `1, 2, 3` with edges `1 -> 2` and `2 -> 3` (any three distinct
      ids): removing `1` leaves nodes `2, 3` and the edge `2 -> 3` only. */
  lemma RemoveNodeExample(n1: Node, n2: Node, n3: Node, e12: Edge, e23: Edge)
    requires n1.id != n2.id && n1.id != n3.id && n2.id != n3.id && e12.id != e23.id
    requires e12.source == n1.id && e12.target == n2.id
    requires e23.source == n2.id && e23.target == n3.id
    ensures RemoveNode(Store(map[n1.id := n1, n2.id := n2, n3.id := n3], map[e12.id := e12, e23.id := e23]), n1.id)
         == Store(map[n2.id := n2, n3.id := n3], map[e23.id := e23])
  {
    var r := RemoveNode(Store(map[n1.id := n1, n2.id := n2, n3.id := n3], map[e12.id := e12, e23.id := e23]), n1.id);
    assert r.nodes.Keys == {n2.id, n3.id};
    assert r.edges.Keys == {e23.id};
  }

  /** The store after an edge-`remove` change. */
  function RemoveEdge(s: Store, id: Text): (r: Store)
    ensures r.nodes == s.nodes
    ensures r.edges.Keys == s.edges.Keys - {id}
    ensures forall k :: k in r.edges ==> r.edges[k] == s.edges[k]
  {
    s.(edges := s.edges - {id})
  }

  /** The changes React Flow reports for edges; only `remove` reaches the
      store. */
  datatype EdgeChange = EdgeRemove(id: Text) | OtherEdgeChange

  function RemovedEdgeIds(changes: seq<EdgeChange>): set<Text> {
    set i | 0 <= i < |changes| && changes[i].EdgeRemove? :: changes[i].id
  }

  /** `handleEdgesChange`: the listed edges go, nothing else changes. */
  function HandleEdgesChange(s: Store, changes: seq<EdgeChange>): (r: Store)
    ensures r.nodes == s.nodes
    ensures r.edges.Keys == s.edges.Keys - RemovedEdgeIds(changes)
    ensures forall k :: k in r.edges ==> r.edges[k] == s.edges[k]
    decreases |changes|
  {
    if changes == [] then s
    else
      var s' := if changes[0].EdgeRemove? then RemoveEdge(s, changes[0].id) else s;
      assert RemovedEdgeIds(changes) == RemovedEdgeIds(changes[..1]) + RemovedEdgeIds(changes[1..]) by {
        forall k | k in RemovedEdgeIds(changes)
          ensures k in RemovedEdgeIds(changes[..1]) + RemovedEdgeIds(changes[1..])
        {
          var i :| 0 <= i < |changes| && changes[i].EdgeRemove? && changes[i].id == k;
          if i > 0 {
            assert changes[1..][i - 1] == changes[i];
          } else {
            assert changes[..1][0] == changes[i];
          }
        }
      }
      HandleEdgesChange(s', changes[1..])
  }

  /** Removing edges never leaves an edge dangling. */
  lemma HandleEdgesChangeKeepsIntegrity(s: Store, changes: seq<EdgeChange>)
    requires Integrity(s)
    ensures Integrity(HandleEdgesChange(s, changes))
  {
  }

  // ----- Clearing the canvas -----

  /** `handleClearCanvas`, given the user's answer to the confirmation. */
  function ClearCanvas(s: Store, confirmed: bool): (r: Store)
    ensures confirmed ==> |r.nodes| == 0 && |r.edges| == 0
    ensures !confirmed ==> r == s
  {
    if confirmed then Store(map[], map[]) else s
  }

  // ----- Connecting two nodes -----

  /** The endpoints React Flow reports for a connect gesture. */
  datatype Connection = Connection(source: Text, target: Text, sourceHandle: Option<Text>, targetHandle: Option<Text>)

  function Min(a: int, b: int): int {
    if a <= b then a else b
  }

  /** `` `e${source}-${target}-${uuid.slice(0, 8)}` ``. */
  function ConnectEdgeId(c: Connection, uuid: Text): (r: Text)
    ensures |r| == 3 + |c.source| + |c.target| + Min(8, |uuid|)
    ensures r[..1 + |c.source| + 1 + |c.target| + 1] == Ascii("e") + c.source + [Hyphen] + c.target + [Hyphen]
    ensures r[1 + |c.source| + 1 + |c.target| + 1..] == uuid[..Min(8, |uuid|)]
  {
    var prefix := Ascii("e") + c.source + [Hyphen] + c.target + [Hyphen];
    assert |prefix| == 1 + |c.source| + 1 + |c.target| + 1;
    prefix + uuid[..Min(8, |uuid|)]
  }

  /** `onConnect`: one edge of type `mindMap` between the two endpoints,
      stored under its generated id; the endpoints are not checked. */
  function Connect(s: Store, c: Connection, uuid: Text): (r: Store)
    ensures r.nodes == s.nodes
    ensures var id := ConnectEdgeId(c, uuid);
      && r.edges.Keys == s.edges.Keys + {id}
      && r.edges[id] == Edge(id, c.source, c.target, Some(MindMapKind), c.sourceHandle, c.targetHandle)
      && (forall k :: k in s.edges && k != id ==> r.edges[k] == s.edges[k])
  {
    var id := ConnectEdgeId(c, uuid);
    s.(edges := s.edges[id := Edge(id, c.source, c.target, Some(MindMapKind), c.sourceHandle, c.targetHandle)])
  }

  /** With a fresh id the edge map grows by exactly one. */
  lemma ConnectAddsOneEdge(s: Store, c: Connection, uuid: Text)
    requires ConnectEdgeId(c, uuid) !in s.edges
    ensures |Connect(s, c, uuid).edges| == |s.edges| + 1
  {
    var r := Connect(s, c, uuid);
    assert r.edges.Keys == s.edges.Keys + {ConnectEdgeId(c, uuid)};
  }

  /** Connecting keeps the store free of dangling edges exactly when both
      endpoints are nodes of the store: nothing in `onConnect` checks it. */
  lemma ConnectIntegrity(s: Store, c: Connection, uuid: Text)
    requires Integrity(s)
    ensures Integrity(Connect(s, c, uuid)) <==> c.source in s.nodes && c.target in s.nodes
  {
    var r := Connect(s, c, uuid);
    var id := ConnectEdgeId(c, uuid);
    assert id in r.edges && r.edges[id].source == c.source && r.edges[id].target == c.target;
  }

  // ----- Dropping a new node -----

  const NoteShape: Text := Ascii("note")
  const PillShape: Text := Ascii("pill")
  const NewIdeaLabel: Text := Ascii("New Idea")

  /** The node record `onDrop` builds. */
  function DroppedNode(shape: Text, position: Pos, uuid: Text): Node {
    Node(uuid, Some(MindMapKind), position,
         map[LabelKey := if shape == NoteShape then [] else NewIdeaLabel,
             ShapeKey := if shape == [] then PillShape else shape],
         None, None)
  }

  /** `onDrop`: the dragged type and shape arrive as strings that are empty
      when absent, and the position is already in canvas coordinates. */
  function Drop(s: Store, kind: Text, shape: Text, position: Pos, uuid: Text): (r: Store)
    ensures kind == [] ==> r == s
    ensures kind != [] ==>
      && r.edges == s.edges
      && r.nodes.Keys == s.nodes.Keys + {uuid}
      && (forall k :: k in s.nodes && k != uuid ==> r.nodes[k] == s.nodes[k])
      && r.nodes[uuid].id == uuid
      && r.nodes[uuid].kind == Some(MindMapKind)
      && r.nodes[uuid].position == position
      && r.nodes[uuid].data.Keys == {LabelKey, ShapeKey}
      && r.nodes[uuid].sourcePosition == None
      && r.nodes[uuid].targetPosition == None
      && (shape == NoteShape ==> r.nodes[uuid].data[LabelKey] == [])
      && (shape != NoteShape ==> r.nodes[uuid].data[LabelKey] == NewIdeaLabel)
      && (shape == [] ==> r.nodes[uuid].data[ShapeKey] == PillShape)
      && (shape != [] ==> r.nodes[uuid].data[ShapeKey] == shape)
  {
    if kind == [] then s
    else
      assert LabelKey != ShapeKey by {
        assert LabelKey[0] != ShapeKey[0];
      }
      s.(nodes := s.nodes[uuid := DroppedNode(shape, position, uuid)])
  }

  /** Adding a node cannot leave an edge dangling, and the node is stored
      under its own id. */
  lemma DropKeepsInvariants(s: Store, kind: Text, shape: Text, position: Pos, uuid: Text)
    ensures Integrity(s) ==> Integrity(Drop(s, kind, shape, position, uuid))
    ensures Keyed(s) ==> Keyed(Drop(s, kind, shape, position, uuid))
  {
  }

  // ----- Dragging -----

  /** `updatedNodes.forEach(n => yNodes.set(n.id, n))`. */
  function WriteAll(m: map<Text, Node>, ns: seq<Node>): (r: map<Text, Node>)
    ensures forall k :: k in r <==> k in m || Lists(ns, k)
    ensures forall k :: k in m && !Lists(ns, k) ==> r[k] == m[k]
    ensures forall i :: 0 <= i < |ns| && LastWithId(ns, i) ==> ns[i].id in r && r[ns[i].id] == ns[i]
    decreases |ns|
  {
    if ns == [] then m
    else
      var r := WriteAll(m[ns[0].id := ns[0]], ns[1..]);
      ListsTail(ns);
      LastWithIdTail(ns);
      r
  }

  /** The drag branch of `handleNodesChange` as the source has it: when the
      dragged id is stored, resolve collisions over the stored nodes and
      write every node back. The position the change carries is not used. */
  function DragAsWritten(s: Store, id: Text, view: seq<Node>, push: (Pos, Pos) -> Pos): (r: Store)
    ensures r.edges == s.edges
    ensures id !in s.nodes ==> r == s
  {
    if id in s.nodes then s.(nodes := WriteAll(s.nodes, ResolveCollisions(view, id, push))) else s
  }

  /** The displacement of one stored node when the node `id` sits at `p`. */
  function Displaced(m: map<Text, Node>, id: Text, p: Pos, push: (Pos, Pos) -> Pos): (r: map<Text, Node>)
    ensures r.Keys == m.Keys
    ensures forall k :: k in m ==> r[k] == m[k].(position := r[k].position)
  {
    map k | k in m :: ResolveOne(m[k], id, p, push)
  }

  /** Over a listing of a keyed map, the resolver treats each listed node
      on its own, against the stored position of the dragged node. */
  lemma ResolvedListing(m: map<Text, Node>, view: seq<Node>, id: Text, push: (Pos, Pos) -> Pos)
    requires Enumerates(view, m) && id in m
    requires forall k :: k in m ==> m[k].id == k
    ensures |ResolveCollisions(view, id, push)| == |view|
    ensures forall i :: 0 <= i < |view| ==>
      ResolveCollisions(view, id, push)[i] == ResolveOne(view[i], id, m[id].position, push)
  {
    var j :| 0 <= j < |view| && view[j].id == id;
    var at := FindIndex(view, id);
    assert at < |view| by {
      assert view[j].id == id;
    }
    assert view[at] == m[id];
    ResolveCollisionsPointwise(view, id, push);
  }

  /** Writing nodes that all have distinct stored ids leaves each of them
      in place, and adds no key. */
  lemma WriteAllDistinct(m: map<Text, Node>, ns: seq<Node>)
    requires forall i :: 0 <= i < |ns| ==> ns[i].id in m
    requires forall i, j :: 0 <= i < j < |ns| ==> ns[i].id != ns[j].id
    ensures WriteAll(m, ns).Keys == m.Keys
    ensures forall i :: 0 <= i < |ns| ==> WriteAll(m, ns)[ns[i].id] == ns[i]
  {
    var w := WriteAll(m, ns);
    forall k | k in w
      ensures k in m
    {
      if Lists(ns, k) {
        var j :| 0 <= j < |ns| && ns[j].id == k;
      }
    }
    forall i | 0 <= i < |ns|
      ensures w[ns[i].id] == ns[i]
    {
      assert LastWithId(ns, i);
    }
  }

  /** Writing back the resolver's output over a listing of the whole node
      map displaces each stored node on its own, whatever the listing's
      order. */
  lemma WriteAllResolved(m: map<Text, Node>, view: seq<Node>, id: Text, push: (Pos, Pos) -> Pos)
    requires forall k :: k in m ==> m[k].id == k
    requires Enumerates(view, m) && id in m
    ensures WriteAll(m, ResolveCollisions(view, id, push)) == Displaced(m, id, m[id].position, push)
  {
    var rs := ResolveCollisions(view, id, push);
    var d := Displaced(m, id, m[id].position, push);
    ResolvedListing(m, view, id, push);
    forall i | 0 <= i < |view|
      ensures rs[i].id == view[i].id && d[view[i].id] == rs[i]
    {
    }
    WriteAllListing(m, view, rs, d);
  }

  /** Writing nodes that replace, one for one, the listed nodes of a keyed
      map yields the map of those replacements. */
  lemma WriteAllListing(m: map<Text, Node>, view: seq<Node>, rs: seq<Node>, d: map<Text, Node>)
    requires forall k :: k in m ==> m[k].id == k
    requires Enumerates(view, m)
    requires |rs| == |view| && d.Keys == m.Keys
    requires forall i :: 0 <= i < |view| ==> rs[i].id == view[i].id && d[view[i].id] == rs[i]
    ensures WriteAll(m, rs) == d
  {
    WriteAllDistinct(m, rs);
    var w := WriteAll(m, rs);
    forall k | k in m
      ensures w[k] == d[k]
    {
      var i :| 0 <= i < |view| && view[i].id == k;
      assert w[rs[i].id] == rs[i];
    }
    MapsAgree(w, d);
  }

  lemma MapsAgree(a: map<Text, Node>, b: map<Text, Node>)
    requires a.Keys == b.Keys
    requires forall k :: k in a ==> a[k] == b[k]
    ensures a == b
  {
  }

  /** The stored node map with the dragged node moved to `p`. */
  function Moved(s: Store, id: Text, p: Pos): Store
    requires id in s.nodes
  {
    s.(nodes := s.nodes[id := s.nodes[id].(position := p)])
  }

  /** The drag branch with the new position written first: the dragged node
      moves to `p` and the stored nodes too close to `p` are pushed. */
  function DragTo(s: Store, id: Text, p: Pos, push: (Pos, Pos) -> Pos): (r: Store)
    ensures r.edges == s.edges
    ensures id !in s.nodes ==> r == s
    ensures id in s.nodes ==> r.nodes.Keys == s.nodes.Keys
    ensures id in s.nodes ==> forall k :: k in s.nodes ==> r.nodes[k] == s.nodes[k].(position := r.nodes[k].position)
    ensures id in s.nodes && s.nodes[id].id == id ==> r.nodes[id].position == p
  {
    if id in s.nodes then s.(nodes := Displaced(Moved(s, id, p).nodes, id, p, push)) else s
  }

  /** Every other stored node too close to the new position is pushed away
      from it, and every node far enough from it stays as it was. */
  lemma DragToPushesNeighbours(s: Store, id: Text, p: Pos, push: (Pos, Pos) -> Pos, k: Text)
    requires id in s.nodes && k in s.nodes && k != id
    ensures s.nodes[k].id != id && TooClose(s.nodes[k].position, p) ==>
      DragTo(s, id, p, push).nodes[k].position == push(s.nodes[k].position, p)
    ensures !TooClose(s.nodes[k].position, p) ==> DragTo(s, id, p, push).nodes[k] == s.nodes[k]
  {
    assert Moved(s, id, p).nodes[k] == s.nodes[k];
  }

  /** `DragTo` is the source's resolve-and-write-back run after the new
      position has been stored, whatever order the node listing has. */
  lemma DragToIsWriteThenResolve(s: Store, id: Text, p: Pos, push: (Pos, Pos) -> Pos, view: seq<Node>)
    requires Keyed(s) && id in s.nodes
    requires Enumerates(view, Moved(s, id, p).nodes)
    ensures DragTo(s, id, p, push) == DragAsWritten(Moved(s, id, p), id, view, push)
  {
    WriteAllResolved(Moved(s, id, p).nodes, view, id, push);
  }

  /** As the source has it, a drag never stores the dragged node's new
      position: after the handler the stored record is the one before it. */
  lemma DragAsWrittenKeepsDraggedNode(s: Store, id: Text, view: seq<Node>, push: (Pos, Pos) -> Pos)
    requires Keyed(s) && id in s.nodes && Enumerates(view, s.nodes)
    ensures DragAsWritten(s, id, view, push).nodes[id] == s.nodes[id]
  {
    WriteAllResolved(s.nodes, view, id, push);
  }

  /** The changes React Flow reports for nodes; `position` is present while
      a drag is under way. */
  datatype NodeChange =
    | PositionChange(id: Text, dragging: bool, position: Option<Pos>)
    | NodeRemove(id: Text)
    | OtherNodeChange

  /** The node id a change removes, if any. */
  function RemovedBy(change: NodeChange): set<Text> {
    if change.NodeRemove? then {change.id} else {}
  }

  function RemovedNodeIds(changes: seq<NodeChange>): set<Text> {
    set i | 0 <= i < |changes| && changes[i].NodeRemove? :: changes[i].id
  }

  lemma RemovedNodeIdsCons(changes: seq<NodeChange>)
    requires changes != []
    ensures RemovedNodeIds(changes) == RemovedBy(changes[0]) + RemovedNodeIds(changes[1..])
  {
    forall k | k in RemovedNodeIds(changes)
      ensures k in RemovedBy(changes[0]) + RemovedNodeIds(changes[1..])
    {
      var i :| 0 <= i < |changes| && changes[i].NodeRemove? && changes[i].id == k;
      if i > 0 {
        assert changes[1..][i - 1] == changes[i];
      }
    }
    forall k | k in RemovedNodeIds(changes[1..])
      ensures k in RemovedNodeIds(changes)
    {
      var i :| 0 <= i < |changes[1..]| && changes[1..][i].NodeRemove? && changes[1..][i].id == k;
      assert changes[i + 1] == changes[1..][i];
    }
  }

  /** Neither endpoint of `e` is in `ids`. */
  predicate MentionsNone(e: Edge, ids: set<Text>) {
    forall x :: x in ids ==> !Mentions(e, x)
  }

  /** `r` keeps, unchanged, exactly the edges of `s` that mention none of
      `ids`. */
  ghost predicate KeepsEdgesAvoiding(s: Store, r: Store, ids: set<Text>) {
    && (forall k :: k in r.edges <==> k in s.edges && MentionsNone(s.edges[k], ids))
    && (forall k :: k in r.edges ==> r.edges[k] == s.edges[k])
  }

  /** `r` holds the node keys of `s` except `ids`, and each of its records
      differs from the stored one at most in `position`. */
  ghost predicate MovesOnly(s: Store, r: Store, ids: set<Text>) {
    && r.nodes.Keys == s.nodes.Keys - ids
    && (forall k :: k in r.nodes ==> r.nodes[k] == s.nodes[k].(position := r.nodes[k].position))
  }

  /** A step that only removes the nodes `ids` with their edges and moves
      the other nodes keeps both store invariants. */
  lemma FrameKeepsInvariants(s: Store, r: Store, ids: set<Text>)
    ensures MovesOnly(s, r, ids) && KeepsEdgesAvoiding(s, r, ids) && Keyed(s) ==> Keyed(r)
    ensures MovesOnly(s, r, ids) && KeepsEdgesAvoiding(s, r, ids) && Integrity(s) ==> Integrity(r)
  {
  }

  /** Two such steps in a row remove the union of their ids. */
  lemma FrameThen(s: Store, t: Store, r: Store, a: set<Text>, b: set<Text>)
    ensures KeepsEdgesAvoiding(s, t, a) && KeepsEdgesAvoiding(t, r, b) ==> KeepsEdgesAvoiding(s, r, a + b)
    ensures MovesOnly(s, t, a) && MovesOnly(t, r, b) ==> MovesOnly(s, r, a + b)
  {
  }

  /** The remove branch is such a step for the one removed id. */
  lemma RemoveNodeFrame(s: Store, id: Text)
    ensures MovesOnly(s, RemoveNode(s, id), {id})
    ensures KeepsEdgesAvoiding(s, RemoveNode(s, id), {id})
    ensures Keyed(s) ==> Keyed(RemoveNode(s, id))
    ensures Integrity(s) ==> Integrity(RemoveNode(s, id))
  {
    FrameKeepsInvariants(s, RemoveNode(s, id), {id});
  }

  /** `listing` returns, for every node map whose records sit under their
      own ids, a listing of all its values: what `getNodesFromY()` returns
      for the current `yNodes`. */
  ghost predicate ListsKeyedMaps(listing: map<Text, Node> -> seq<Node>) {
    forall m: map<Text, Node> :: (forall k :: k in m ==> m[k].id == k) ==> Enumerates(listing(m), m)
  }

  /** Over a keyed store and a faithful listing, the drag as written
      resolves every node of the store in place, against the stored
      position of the dragged node. */
  lemma DragAsWrittenOverListing(s: Store, id: Text, push: (Pos, Pos) -> Pos,
                                 listing: map<Text, Node> -> seq<Node>)
    ensures ListsKeyedMaps(listing) && Keyed(s) && id in s.nodes ==>
      DragAsWritten(s, id, listing(s.nodes), push).nodes == Displaced(s.nodes, id, s.nodes[id].position, push)
  {
    if ListsKeyedMaps(listing) && Keyed(s) && id in s.nodes {
      WriteAllResolved(s.nodes, listing(s.nodes), id, push);
    }
  }

  /** Hence, over a keyed store and a faithful listing, the drag as written
      changes positions only, leaves the dragged node's record as it was,
      and keeps both store invariants. */
  lemma DragAsWrittenFrame(s: Store, id: Text, push: (Pos, Pos) -> Pos,
                           listing: map<Text, Node> -> seq<Node>)
    ensures ListsKeyedMaps(listing) && Keyed(s) ==> MovesOnly(s, DragAsWritten(s, id, listing(s.nodes), push), {})
    ensures ListsKeyedMaps(listing) && Keyed(s) && id in s.nodes ==>
      DragAsWritten(s, id, listing(s.nodes), push).nodes[id] == s.nodes[id]
    ensures ListsKeyedMaps(listing) && Keyed(s) ==>
      && Keyed(DragAsWritten(s, id, listing(s.nodes), push))
      && (Integrity(s) ==> Integrity(DragAsWritten(s, id, listing(s.nodes), push)))
  {
    var r := DragAsWritten(s, id, listing(s.nodes), push);
    if ListsKeyedMaps(listing) && Keyed(s) {
      if id in s.nodes {
        DragAsWrittenOverListing(s, id, push, listing);
        DisplacedFrame(s, r, id, push);
      } else {
        FrameKeepsInvariants(s, r, {});
      }
    }
  }

  /** Displacing the nodes of a keyed store around a stored node moves
      nodes only, leaves that node as it was, and keeps both invariants. */
  lemma DisplacedFrame(s: Store, r: Store, id: Text, push: (Pos, Pos) -> Pos)
    requires Keyed(s) && id in s.nodes && r.edges == s.edges
    requires r.nodes == Displaced(s.nodes, id, s.nodes[id].position, push)
    ensures MovesOnly(s, r, {}) && r.nodes[id] == s.nodes[id]
    ensures Keyed(r) && (Integrity(s) ==> Integrity(r))
  {
    assert r.nodes.Keys == s.nodes.Keys - {};
    FrameKeepsInvariants(s, r, {});
  }

  /** One change of `handleNodesChange` as the source has it: a drag
      resolves collisions over `listing` of the stored nodes and writes the
      result back, a removal cascades, anything else leaves the store alone.
      Exactly the edges mentioning a removed id go. Over a keyed store and a
      faithful listing, only the removed key goes, records change at most in
      `position`, and the dragged node keeps its stored record: the reported
      position is not stored. */
  function ApplyNodeChange(s: Store, change: NodeChange, push: (Pos, Pos) -> Pos,
                           listing: map<Text, Node> -> seq<Node>): (r: Store)
    ensures KeepsEdgesAvoiding(s, r, RemovedBy(change))
    ensures change.NodeRemove? ==> forall k :: k in r.edges ==> !Mentions(r.edges[k], change.id)
    ensures !change.NodeRemove? && !IsDrag(change) ==> r == s
    ensures ListsKeyedMaps(listing) && Keyed(s) ==>
      && MovesOnly(s, r, RemovedBy(change))
      && Keyed(r)
      && (Integrity(s) ==> Integrity(r))
    ensures ListsKeyedMaps(listing) && Keyed(s) && change.PositionChange? && change.id in s.nodes ==>
      r.nodes[change.id] == s.nodes[change.id]
  {
    var r := (
      match change
      case PositionChange(id, dragging, position) =>
        if dragging && position.Some? then
          DragAsWrittenFrame(s, id, push, listing);
          DragAsWritten(s, id, listing(s.nodes), push)
        else s
      case NodeRemove(id) =>
        RemoveNodeFrame(s, id);
        RemoveNode(s, id)
      case OtherNodeChange => s);
    r
  }

  /** One change of `handleNodesChange` with the corrected drag branch of
      `DragTo`, which stores the reported position. Only the removed key
      goes, with exactly the edges that mention it; records change at most
      in `position`, and only a drag changes them. */
  function ApplyNodeChangeCorrected(s: Store, change: NodeChange, push: (Pos, Pos) -> Pos): (r: Store)
    ensures MovesOnly(s, r, RemovedBy(change))
    ensures KeepsEdgesAvoiding(s, r, RemovedBy(change))
    ensures change.NodeRemove? ==> forall k :: k in r.edges ==> !Mentions(r.edges[k], change.id)
    ensures !IsDrag(change) ==> forall k :: k in r.nodes ==> r.nodes[k] == s.nodes[k]
    ensures !change.NodeRemove? && !IsDrag(change) ==> r == s
    ensures Integrity(s) ==> Integrity(r)
    ensures Keyed(s) ==> Keyed(r)
  {
    var r := (
      match change
      case PositionChange(id, dragging, position) =>
        if dragging && position.Some? then DragTo(s, id, position.value, push) else s
      case NodeRemove(id) =>
        RemoveNodeFrame(s, id);
        RemoveNode(s, id)
      case OtherNodeChange => s);
    FrameKeepsInvariants(s, r, RemovedBy(change));
    r
  }

  /** `handleNodesChange` as the source has it, re-reading the listing of
      the stored nodes for every drag. Exactly the edges that mention a
      removed id go. Over a keyed store and a faithful listing, exactly the
      removed node keys go, records change at most in `position`, and both
      store invariants are kept. */
  function HandleNodesChange(s: Store, changes: seq<NodeChange>, push: (Pos, Pos) -> Pos,
                             listing: map<Text, Node> -> seq<Node>): (r: Store)
    ensures KeepsEdgesAvoiding(s, r, RemovedNodeIds(changes))
    ensures forall k :: k in r.edges ==> MentionsNone(r.edges[k], RemovedNodeIds(changes))
    ensures ListsKeyedMaps(listing) && Keyed(s) ==>
      && MovesOnly(s, r, RemovedNodeIds(changes))
      && Keyed(r)
      && (Integrity(s) ==> Integrity(r))
    decreases |changes|
  {
    if changes == [] then
      assert RemovedNodeIds(changes) == {};
      s
    else
      var s' := ApplyNodeChange(s, changes[0], push, listing);
      var r := HandleNodesChange(s', changes[1..], push, listing);
      RemovedNodeIdsCons(changes);
      FrameThen(s, s', r, RemovedBy(changes[0]), RemovedNodeIds(changes[1..]));
      r
  }

  /** `handleNodesChange` with the corrected drag branch. Exactly the
      removed node keys go, with exactly the edges that mention them;
      records change at most in `position`, and both store invariants are
      kept. */
  function HandleNodesChangeCorrected(s: Store, changes: seq<NodeChange>, push: (Pos, Pos) -> Pos): (r: Store)
    ensures MovesOnly(s, r, RemovedNodeIds(changes))
    ensures KeepsEdgesAvoiding(s, r, RemovedNodeIds(changes))
    ensures forall k :: k in r.edges ==> MentionsNone(r.edges[k], RemovedNodeIds(changes))
    ensures Integrity(s) ==> Integrity(r)
    ensures Keyed(s) ==> Keyed(r)
    decreases |changes|
  {
    if changes == [] then
      assert RemovedNodeIds(changes) == {};
      s
    else
      var s' := ApplyNodeChangeCorrected(s, changes[0], push);
      var r := HandleNodesChangeCorrected(s', changes[1..], push);
      RemovedNodeIdsCons(changes);
      FrameThen(s, s', r, RemovedBy(changes[0]), RemovedNodeIds(changes[1..]));
      r
  }

  /** A change that the drag branch acts on. */
  predicate IsDrag(change: NodeChange) {
    change.PositionChange? && change.dragging && change.position.Some?
  }

  /** The two handlers differ in the drag branch only: without drags they
      compute the same store, whatever the listing. */
  lemma {:induction false} HandleNodesChangeWithoutDrags(s: Store, changes: seq<NodeChange>, push: (Pos, Pos) -> Pos,
                                                         listing: map<Text, Node> -> seq<Node>)
    requires forall i :: 0 <= i < |changes| ==> !IsDrag(changes[i])
    ensures HandleNodesChange(s, changes, push, listing) == HandleNodesChangeCorrected(s, changes, push)
    decreases |changes|
  {
    if changes != [] {
      assert !IsDrag(changes[0]);
      var s' := ApplyNodeChange(s, changes[0], push, listing);
      assert s' == ApplyNodeChangeCorrected(s, changes[0], push);
      HandleNodesChangeWithoutDrags(s', changes[1..], push, listing);
    }
  }
}
