# MindFlow mind map: export and shared-store handlers in Dafny

MindFlow is a collaborative mind-map editor. Its canvas holds nodes and edges
in two replicated maps, `yNodes` and `yEdges`, keyed by record id. Event
handlers of the canvas write to those maps. A pure exporter turns a node list
and an edge list into a Mermaid flowchart (`graph TD`).

This project models these parts:

- **The Mermaid exporter** (`utf16.dfy`, `mermaid.dfy`):
  - `sanitizeId` and `sanitizeLabel`, working on UTF-16 code units, since the source regexes have no `u` flag;
  - the text `toMermaid` builds;
  - a line-level reader of that text: the exporter's line structure and content are proved against this reader.
- **The store**, in module `Graph` (`graph.dfy`):
  - two Dafny maps, from node id to `Node` and from edge id to `Edge`;
  - the invariants `Keyed` (every record sits under its own id) and `Integrity` (no edge has an endpoint outside the node map).
- **The handlers**, as one step from store to store (`mind_map.dfy`, `layout.dfy`, `collisions.dfy`, `mind_map_node.dfy`):
  - the node-removal cascade and the edge removal of the change handlers;
  - clearing the canvas;
  - connecting two nodes;
  - dropping a new node;
  - the layout result mapping and its write-back;
  - the collision resolver a drag runs;
  - the label edit of a node's input.

Collaborators that the code only calls become parameters:
- dagre's node centres: `centre: Text -> Pos`;
- the collision push vector: `push: (Pos, Pos) -> Pos`;
- `crypto.randomUUID()`: a `uuid` text;
- the answer to `window.confirm`: a `bool`;
- the drop position after `screenToFlowPosition`: a `Pos`.

When a handler reads `Array.from(yNodes.values())`, the model takes the listing as a sequence `view`; the operations accept any `view`, and the lemmas about them require `Enumerates(view, nodes)`. Where the store changes between reads, the listing is a function `listing` of the node map. The order of that listing is left open.

## Model

| member | source | states |
|---|---|---|
| Mermaid.SanitizeLabel | src/lib/mermaid.ts:3-5 | Length is kept. Each `"`, line feed or carriage return becomes one space and every other code unit is kept, so none of the three remains. |
| Mermaid.SanitizeLabelFixedPoints | src/lib/mermaid.ts:3-5 | A label is left unchanged exactly when it holds no `"`, line feed or carriage return. |
| Mermaid.SanitizeLabelIdempotent | src/lib/mermaid.ts:3-5 | Sanitizing a label twice gives the same text as sanitizing it once. |
| Mermaid.SanitizeId | src/lib/mermaid.ts:7-9 | Length is kept. ASCII letters and digits are kept and every other code unit becomes `_`, so only `[A-Za-z0-9_]` remains. |
| Mermaid.SanitizeIdFixedPoints | src/lib/mermaid.ts:7-9 | An id is left unchanged exactly when all its code units are in `[A-Za-z0-9_]`. |
| Mermaid.SanitizeIdIdempotent | src/lib/mermaid.ts:7-9 | Sanitizing an id twice gives the same text as sanitizing it once. |
| Mermaid.SanitizeExamples | src/lib/mermaid.ts:3-9 | `Line\nBreak` becomes `Line Break` and `Quote"` becomes `Quote `, the two label cases the repository's own tests expect. The id `a-b c` becomes `a_b_c`, an example of this model only. |
| Mermaid.DisplayLabel | src/lib/mermaid.ts:17 | A present, non-empty label is shown sanitized, so it keeps its length and holds no `"` or line break. A missing or empty label shows `Empty`. |
| Mermaid.ToMermaid | src/lib/mermaid.ts:11-30 | The output starts with `graph TD` and a line feed, and ends with a line feed. |
| Mermaid.ToMermaidLines | src/lib/mermaid.ts:11-30 | Split at line feeds, the output is the header line, then one line per node in input order (`    id["label"]`), then one line per edge in input order (`    source --> target`): exactly 1 + nodes + edges lines. |
| Mermaid.ParseNodeLineRoundTrip | src/lib/mermaid.ts:15-20 | A node line is read back as the node's sanitized id and shown label. |
| Mermaid.ParseEdgeLineRoundTrip | src/lib/mermaid.ts:22-27 | An edge line is read back as its sanitized source and target. |
| Mermaid.EdgeLineIsNoNodeLine | src/lib/mermaid.ts:22-27 | An edge line never reads as a node line, so the node lines and the edge lines of an export cannot be confused. |
| Mermaid.DecodeToMermaid | src/lib/mermaid.ts:11-30 | Reading an export back recovers every node's sanitized id and label and every edge's sanitized endpoints, in input order. |
| Mermaid.StartEndExport | src/lib/mermaid.test.ts:6-21 | Nodes `1/Start` and `2/End` with the edge `1 -> 2` export as `graph TD`, `    1["Start"]`, `    2["End"]` and `    1 --> 2`. |
| Collisions.FindIndex | src/components/MindMap.tsx:76 | The index `find` stops at: the first node with the id, or the length when there is none. |
| Collisions.ResolveCollisions | src/components/MindMap.tsx:75-104 | An absent dragged id returns the input unchanged. Otherwise the output has the same length and ids, and only positions differ. The dragged node comes back identical. A node at distance 200 or more is identical. Every other node is pushed from the dragged node's position. |
| Collisions.ResolveSeparates | src/components/MindMap.tsx:89-100 | If the push moves a too-close node out of range, no node with another id remains too close to the dragged one. |
| Layout.LayoutedElements | src/components/MindMap.tsx:41-72 | Nodes keep their order, ids and other fields. Each box of 180 by 60 is centred on dagre's centre. Anchors are target Left and source Right for `LR`, and Top and Bottom otherwise. Edges are returned unchanged. |
| Layout.WriteBackPositions | src/components/MindMap.tsx:123-128 | Only ids already stored are written, and only their `position` changes. An id not listed keeps its record. When an id is listed more than once, its last listed position wins. |
| Layout.OnLayout | src/components/MindMap.tsx:115-128 | Layout changes no key and no edge, and changes no field of a stored node other than `position`. |
| Layout.OnLayoutPlacesEveryNode | src/components/MindMap.tsx:115-128 | When the listing is the whole keyed node map, every stored node ends up at the top-left corner of a box centred on its dagre centre. |
| Layout.OnLayoutKeepsInvariants | src/components/MindMap.tsx:123-127 | Layout keeps the store free of dangling edges exactly when it was, and keeps records under their own ids. |
| MindMap.RemoveNode | src/components/MindMap.tsx:211-219 | The id leaves the node map. Exactly the edges that start or end at it leave the edge map, even when the node was absent. Every other node and edge is unchanged. |
| MindMap.RemoveNodeSteps | src/components/MindMap.tsx:211-219 | Deleting the node, collecting the mentioning edge keys in any order, then deleting them gives the store `RemoveNode` describes. |
| MindMap.RemoveNodeKeepsIntegrity | src/components/MindMap.tsx:211-219 | After a removal no edge is dangling, and no edge mentions the removed id. |
| MindMap.RemoveNodeExample | src/components/MindMap.tsx:211-219 | With nodes 1, 2, 3 and edges 1-2 and 2-3, removing 1 leaves nodes 2, 3 and the edge 2-3 alone. |
| MindMap.RemoveEdge | src/components/MindMap.tsx:226-228 | Only that edge key leaves the edge map. The node map is untouched. |
| MindMap.HandleEdgesChange | src/components/MindMap.tsx:223-230 | The edge keys become the old ones minus the removed ids. Remaining edges and all nodes are unchanged. |
| MindMap.HandleEdgesChangeKeepsIntegrity | src/components/MindMap.tsx:223-230 | Removing edges never leaves an edge dangling. |
| MindMap.ClearCanvas | src/components/MindMap.tsx:232-238 | Confirmed, both maps are empty; not confirmed, nothing changes. |
| MindMap.ConnectEdgeId | src/components/MindMap.tsx:160 | The id is `e`, source, `-`, target, `-`, then at most the first 8 units of the uuid. |
| MindMap.Connect | src/components/MindMap.tsx:156-166 | Exactly one edge is stored under the generated id, with the given endpoints and handles and type `mindMap`. Nodes and other edges are unchanged. |
| MindMap.ConnectAddsOneEdge | src/components/MindMap.tsx:156-166 | With an id not yet used, the edge map grows by one. |
| MindMap.ConnectIntegrity | src/components/MindMap.tsx:156-166 | From a store without dangling edges, connecting keeps it so exactly when both endpoints are stored nodes. Nothing checks this. |
| MindMap.Drop | src/components/MindMap.tsx:173-197 | An empty type changes nothing. Otherwise exactly one node of type `mindMap` is added under the uuid, at the drop position, with no anchors and exactly the `label` and `shape` data fields. Its label is empty for `note` and `New Idea` otherwise. Its shape is the given one, or `pill` when none is given. Every other node and all edges are unchanged. |
| MindMap.DropKeepsInvariants | src/components/MindMap.tsx:187-194 | A drop cannot leave an edge dangling, and stores the new node under its own id. |
| MindMap.WriteAll | src/components/MindMap.tsx:207-209 | Writing a node list adds its ids and leaves unlisted keys unchanged. The last record listed for an id wins. |
| MindMap.DragAsWritten | src/components/MindMap.tsx:202-210 | The drag branch as written changes no edge, and changes nothing for an id that is not stored. |
| MindMap.DragAsWrittenKeepsDraggedNode | src/components/MindMap.tsx:202-210 | As written, the dragged node's stored record never changes during a drag: the reported position is dropped. |
| MindMap.WriteAllResolved | src/components/MindMap.tsx:206-209 | Resolving over a listing of the whole keyed node map and writing the result back displaces each stored node on its own, whatever the listing order. |
| MindMap.DragTo | src/components/MindMap.tsx:202-210 | The corrected drag moves the dragged node to the reported position and changes no key, no edge and no field but `position`. An id that is not stored changes nothing. |
| MindMap.DragToPushesNeighbours | src/components/MindMap.tsx:202-210 | In the corrected drag, another node within distance 200 of the new position is pushed away from it, and a node farther away stays unchanged. |
| MindMap.DragToIsWriteThenResolve | src/components/MindMap.tsx:202-210 | The corrected drag equals the source's resolve-and-write-back run after the reported position is stored, for any listing order. |
| MindMap.DragAsWrittenOverListing | src/components/MindMap.tsx:206-209 | Over a keyed store and a listing of the whole node map, the drag as written leaves every stored node displaced on its own from the dragged node's stored position. |
| MindMap.DragAsWrittenFrame | src/components/MindMap.tsx:94-100 | Over a keyed store and a listing of the whole node map, the drag as written changes only positions, keeps every key, leaves the dragged node's record as it was, and keeps both invariants. |
| MindMap.RemoveNodeFrame | src/components/MindMap.tsx:211-219 | The remove branch drops exactly its node key and exactly the edges that mention it, changes nothing else, and keeps both invariants. |
| MindMap.ApplyNodeChange | src/components/MindMap.tsx:201-220 | One change as written. Exactly the edges that mention a removed id leave, and the others stay unchanged. A change that is neither a drag nor a removal leaves the store as it was. Over a keyed store and a listing of the whole node map, only the removed key leaves the node map, other records change at most in `position`, the dragged node keeps its stored record, and both invariants are kept. |
| MindMap.HandleNodesChange | src/components/MindMap.tsx:199-221 | The changes as written. Exactly the edges that mention a removed id leave, and the others stay unchanged. Over a keyed store and a listing of the whole node map, the node keys become the old ones minus the removed ids, records change at most in `position`, and `Integrity` and `Keyed` are kept. |
| MindMap.ApplyNodeChangeCorrected | src/components/MindMap.tsx:201-220 | One change with the corrected drag. Only the removed key leaves the node map, with exactly the edges that mention it; other edges stay unchanged. Records change at most in `position`, and only a drag changes them; a change that is neither a drag nor a removal leaves the store as it was. Both invariants are kept. |
| MindMap.HandleNodesChangeCorrected | src/components/MindMap.tsx:199-221 | The changes with the corrected drag. The node keys become the old ones minus the removed ids, with exactly the edges that mention a removed id; other edges stay unchanged. Records change at most in `position`, and `Integrity` and `Keyed` are kept. |
| MindMap.HandleNodesChangeWithoutDrags | src/components/MindMap.tsx:199-221 | Without a dragging position change, the handler as written and the corrected one compute the same store, for any listing. |
| MindMapNode.EditLabel | src/components/MindMapNode.tsx:7-17 | An id that is not stored changes nothing. Otherwise `data.label` becomes the text, and the node's other fields, other `data` fields, other nodes and all edges are unchanged. |
| MindMapNode.EditLabelIdempotent | src/components/MindMapNode.tsx:11-16 | Repeating the same edit changes nothing more. |
| MindMapNode.EditLabelKeepsInvariants | src/components/MindMapNode.tsx:11-16 | A label edit keeps the store free of dangling edges exactly when it was, and keeps records under their own ids. |
| MindMapNode.EditLabelThenExport | src/components/MindMapNode.tsx:15 | After a non-empty edit, the export shows the new text, sanitized. |

## Left out

- Replication is not modelled: the Yjs document, WebRTC syncing, IndexedDB persistence (`src/lib/yjs.ts`) and CRDT merging. The two maps are plain Dafny maps, and each handler is one step on one peer.
- Multi-write handlers are not atomic in the source, and only the state after each handler is described; the states in between, which other peers may observe, are not. The removal cascade deletes the node first and then its edges one by one (`src/components/MindMap.tsx:212-218`). `handleClearCanvas` clears the nodes and then the edges as two separate writes (`src/components/MindMap.tsx:234-235`), so a peer can see edges whose nodes are gone.
- Saving a snapshot to the database (`handleSaveDB`, `src/db/client.ts`, `src/db/schema.ts`, `src/lib/db-utils.ts`) is left out as asynchronous I/O.
- dagre's ranking and placement are left out. The centre dagre assigns to each id is the parameter `centre`. Also not modelled: the module-level dagre graph keeps nodes from earlier layouts, which could only change the centres dagre returns.
- Floating-point geometry is left out:
  - positions are exact reals;
  - the push vector (`sqrt`, `atan2`, `cos`, `sin`) is the parameter `push`;
  - the distance test is stated on squared distances.
- React and DOM plumbing is left out: observers, local `setNodes` and `setEdges`, `onNodesChange` and `onEdgesChange`, `fitView`, `requestAnimationFrame` and toasts. `window.confirm`, `screenToFlowPosition` and `crypto.randomUUID()` become parameters.
- The view components (`Toolbar`, `Sidebar`, `MindMapEdge`, `App`) and the JSX of the core files are not modelled.
- Only string-valued `data` fields are modelled. In the source, a non-string truthy label (a number, say) reaches `label.replace`, which throws a `TypeError`, so the export fails; that failure is not modelled.
- Layout.OnLayout: the per-node result is stated by `Layout.OnLayoutPlacesEveryNode` only for a listing that enumerates the whole keyed map. That is what `Array.from(yNodes.values())` yields; other listings are not described.
- Deep equality of inputs is not stated separately: each operation is a Dafny function, so equal inputs give equal results by construction.
- `onConnect` checks neither endpoint, so it can store a dangling edge (`MindMap.ConnectIntegrity`).
- Layout ranks and coordinates come from dagre, so no property of the ranking (such as rank monotonicity along edges) is stated.
- The layout box is 180 by 60 (`src/components/MindMap.tsx:38-39`); the model uses these constants.
- MindMap.ApplyNodeChange: the node-key, position-only and invariant facts are stated only for a keyed store and a `listing` that enumerates each keyed node map, which is what `getNodesFromY()` returns; other listings get only the edge facts.
- MindMap.HandleNodesChange: the node-key, position-only and invariant facts are stated only for a keyed store and a `listing` that enumerates each keyed node map, as for `MindMap.ApplyNodeChange`.
- MindMap.ApplyNodeChangeCorrected: its drag branch is the corrected `MindMap.DragTo`, not the drag branch the source has (see Findings).
- MindMap.HandleNodesChangeCorrected: its drag branch is the corrected `MindMap.DragTo`, not the drag branch the source has (see Findings).

## Findings

| source | as written | input that shows it | evidently intended | confidence | as-written member | corrected member |
|---|---|---|---|---|---|---|
| src/components/MindMap.tsx:202-210 | During a drag the handler resolves collisions over the stored nodes and writes them back, but never writes the position the change reports. The dragged node's stored record stays where it was, and the push is computed from that stale position. `MindMap.HandleNodesChange` runs this branch; `MindMap.HandleNodesChangeCorrected` runs the corrected one. | A stored node `a` at (0, 0) and a position change for `a` with `dragging` true and position (500, 0): afterwards `a` is still stored at (0, 0) (`MindMap.DragAsWrittenKeepsDraggedNode`). | Store the reported position, then push the neighbours away from it. | medium; not executed | MindMap.DragAsWritten | MindMap.DragTo |
