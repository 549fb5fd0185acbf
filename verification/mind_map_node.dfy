/** The label input of a mind-map node: every keystroke replaces the whole
    stored record with one whose `data.label` is the input's text. */
module MindMapNode {
  import opened Utf16
  import opened Graph
  import Mermaid

  /** `onChange` of the node `id` with the input's new `text`. */
  function EditLabel(s: Store, id: Text, text: Text): (r: Store)
    ensures r.edges == s.edges
    ensures r.nodes.Keys == s.nodes.Keys
    ensures forall k :: k in s.nodes && k != id ==> r.nodes[k] == s.nodes[k]
    ensures id !in s.nodes ==> r == s
    ensures id in s.nodes ==>
      && r.nodes[id] == s.nodes[id].(data := r.nodes[id].data)
      && r.nodes[id].data.Keys == s.nodes[id].data.Keys + {LabelKey}
      && r.nodes[id].data[LabelKey] == text
      && (forall f :: f in s.nodes[id].data && f != LabelKey ==> r.nodes[id].data[f] == s.nodes[id].data[f])
  {
    if id in s.nodes then
      var node := s.nodes[id];
      s.(nodes := s.nodes[id := node.(data := node.data[LabelKey := text])])
    else s
  }

  /** Typing the same text again stores the same record. */
  lemma EditLabelIdempotent(s: Store, id: Text, text: Text)
    ensures EditLabel(EditLabel(s, id, text), id, text) == EditLabel(s, id, text)
  {
    if id in s.nodes {
      var once := EditLabel(s, id, text);
      var node := once.nodes[id];
      assert node.data[LabelKey := text] == node.data;
      assert once.nodes[id := node] == once.nodes;
    }
  }

  /** A label edit neither adds nor removes a node, so edges stay attached,
      and the record stays under its own id. */
  lemma EditLabelKeepsInvariants(s: Store, id: Text, text: Text)
    ensures Integrity(EditLabel(s, id, text)) <==> Integrity(s)
    ensures Keyed(s) ==> Keyed(EditLabel(s, id, text))
  {
  }

  /** After a non-empty edit the export shows the new text, sanitized. */
  lemma EditLabelThenExport(s: Store, id: Text, text: Text)
    requires id in s.nodes && text != []
    ensures Mermaid.DisplayLabel(EditLabel(s, id, text).nodes[id]) == Mermaid.SanitizeLabel(text)
  {
  }
}
