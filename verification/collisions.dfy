/** `resolveCollisions`: while a node is dragged, every other node closer
    to it than 200 units is pushed away; everything else is returned as it
    was.

    The push itself (`atan2`, `cos`, `sin` on floats) is the parameter
    `push`: given a node's position and the dragged node's position it
    returns the node's new position. The distance test is kept, stated on
    squared distances so that no square root is needed.
 */
module Collisions {
  import opened Utf16
  import opened Graph

  const NodeDiameter: real := 160.0
  const CollisionBuffer: real := 40.0
  const MinDistance: real := NodeDiameter + CollisionBuffer

  function SquaredDistance(a: Pos, b: Pos): real {
    (a.x - b.x) * (a.x - b.x) + (a.y - b.y) * (a.y - b.y)
  }

  /** `Math.sqrt(dx * dx + dy * dy) < minDistance`. */
  predicate TooClose(a: Pos, b: Pos) {
    SquaredDistance(a, b) < MinDistance * MinDistance
  }

  /** The index `nodes.find(n => n.id === id)` stops at, or `|nodes|`. */
  function FindIndex(nodes: seq<Node>, id: Text): (r: nat)
    ensures r <= |nodes|
    ensures r < |nodes| ==> nodes[r].id == id
    ensures forall j :: 0 <= j < r ==> nodes[j].id != id
  {
    if nodes == [] then 0
    else if nodes[0].id == id then 0
    else 1 + FindIndex(nodes[1..], id)
  }

  /** What the `nodes.map` callback returns for one node. */
  function ResolveOne(node: Node, draggedId: Text, dragged: Pos, push: (Pos, Pos) -> Pos): Node {
    if node.id == draggedId then node
    else if TooClose(node.position, dragged) then node.(position := push(node.position, dragged))
    else node
  }

  function ResolveCollisions(nodes: seq<Node>, draggedId: Text, push: (Pos, Pos) -> Pos): (r: seq<Node>)
    ensures !Lists(nodes, draggedId) ==> r == nodes
    ensures |r| == |nodes|
    ensures forall i :: 0 <= i < |nodes| ==> r[i] == nodes[i].(position := r[i].position)
    ensures forall i :: 0 <= i < |nodes| && nodes[i].id == draggedId ==> r[i] == nodes[i]
    ensures Lists(nodes, draggedId) ==>
      var dragged := nodes[FindIndex(nodes, draggedId)].position;
      && (forall i :: 0 <= i < |nodes| && !TooClose(nodes[i].position, dragged) ==> r[i] == nodes[i])
      && (forall i :: 0 <= i < |nodes| && nodes[i].id != draggedId && TooClose(nodes[i].position, dragged) ==>
            r[i].position == push(nodes[i].position, dragged))
  {
    var k := FindIndex(nodes, draggedId);
    if k == |nodes| then nodes
    else
      var dragged := nodes[k].position;
      seq(|nodes|, i requires 0 <= i < |nodes| => ResolveOne(nodes[i], draggedId, dragged, push))
  }

  /** Once the dragged node is found, each node is resolved on its own
      against the dragged node's position. */
  lemma ResolveCollisionsPointwise(nodes: seq<Node>, draggedId: Text, push: (Pos, Pos) -> Pos)
    requires FindIndex(nodes, draggedId) < |nodes|
    ensures |ResolveCollisions(nodes, draggedId, push)| == |nodes|
    ensures forall i :: 0 <= i < |nodes| ==>
      ResolveCollisions(nodes, draggedId, push)[i]
        == ResolveOne(nodes[i], draggedId, nodes[FindIndex(nodes, draggedId)].position, push)
  {
  }

  /** A push that really separates a pair (what the geometry is for) leaves
      no node too close to the dragged one, except nodes that share its id. */
  lemma ResolveSeparates(nodes: seq<Node>, draggedId: Text, push: (Pos, Pos) -> Pos, i: nat)
    requires forall p, d :: TooClose(p, d) ==> !TooClose(push(p, d), d)
    requires 0 <= i < |nodes| && Lists(nodes, draggedId)
    requires nodes[i].id != draggedId
    ensures !TooClose(ResolveCollisions(nodes, draggedId, push)[i].position, nodes[FindIndex(nodes, draggedId)].position)
  {
  }
}
