/** The node component's in-place editing as written
    (src/components/codeflow/UmlNode.tsx). The edit copy starts out as
    the parent's very node object. A row edit copies the member list but
    writes the field into the row object itself, and that object is the
    one the parent's node holds. So a row edit reaches the parent's node
    without any save, and Cancel, which goes back to the parent's node,
    finds the edit there. Module `UmlNode` models the intended behaviour,
    in which the edit copy shares nothing. */
module UmlNodeAsWritten {
  import opened Wrappers
  import opened Types
  import opened MemberEdits
  import Seqs
  import UmlNode

  /** The component's state together with the parent's node it shares row
      objects with. `propertyFrom[k]` is the index in the parent's property
      list of the object that property row `k` is, or None for a row added
      since; `methodFrom` does the same for methods. */
  datatype Session = Session(
    parent: NodeData,
    view: UmlNode.NodeView,
    propertyFrom: seq<Option<nat>>,
    methodFrom: seq<Option<nat>>)

  /** Rows that are one object hold the same value, and no two rows of the
      edit copy are one object. */
  predicate Shared(s: Session) {
    && |s.propertyFrom| == |s.view.editable.properties|
    && |s.methodFrom| == |s.view.editable.methods|
    && (forall k :: 0 <= k < |s.propertyFrom| && s.propertyFrom[k].Some? ==>
          && s.propertyFrom[k].value < |s.parent.properties|
          && s.parent.properties[s.propertyFrom[k].value] == s.view.editable.properties[k])
    && (forall k :: 0 <= k < |s.methodFrom| && s.methodFrom[k].Some? ==>
          && s.methodFrom[k].value < |s.parent.methods|
          && s.parent.methods[s.methodFrom[k].value] == s.view.editable.methods[k])
    && (forall k, l :: 0 <= k < l < |s.propertyFrom| && s.propertyFrom[k].Some? ==>
          s.propertyFrom[k] != s.propertyFrom[l])
    && (forall k, l :: 0 <= k < l < |s.methodFrom| && s.methodFrom[k].Some? ==>
          s.methodFrom[k] != s.methodFrom[l])
  }

  /** Row `k` of a list is object `k` of the parent's list. */
  function Identity(n: nat): (r: seq<Option<nat>>)
    ensures |r| == n
    ensures forall k :: 0 <= k < n ==> r[k] == Some(k)
  {
    seq(n, k requires 0 <= k < n => Some(k))
  }

  /** `useState(data.node)`, and likewise the state after a save or a
      cancel: the edit copy is the parent's node itself. */
  function Begin(v: UmlNode.NodeView): (r: Session)
    ensures Shared(r)
    ensures r.parent == v.editable && r.view == v
    ensures forall k :: 0 <= k < |v.editable.properties| ==> r.propertyFrom[k] == Some(k)
  {
    Session(v.editable, v, Identity(|v.editable.properties|), Identity(|v.editable.methods|))
  }

  /** A row edit on property `i` as written: the edit copy changes as in the
      intended model, and when the row is one of the parent's objects the
      parent's row changes with it. */
  function ChangeProperty(s: Session, i: nat, e: PropertyEdit): (r: Session)
    requires Shared(s)
    requires UmlNode.InlinePropertyEdit(e)
    requires i < |s.view.editable.properties|
    ensures Shared(r)
    ensures r.view == UmlNode.ChangeProperty(s.view, i, e)
    ensures s.propertyFrom[i].None? ==> r.parent == s.parent
    ensures s.propertyFrom[i].Some? ==>
              && r.parent == s.parent.(properties := r.parent.properties)
              && |r.parent.properties| == |s.parent.properties|
              && r.parent.properties[s.propertyFrom[i].value] == ApplyPropertyEdit(s.view.editable.properties[i], e)
              && forall j :: 0 <= j < |s.parent.properties| && j != s.propertyFrom[i].value ==>
                   r.parent.properties[j] == s.parent.properties[j]
  {
    var v := UmlNode.ChangeProperty(s.view, i, e);
    match s.propertyFrom[i]
    case None => Session(s.parent, v, s.propertyFrom, s.methodFrom)
    case Some(j) =>
      var parent := s.parent.(properties := Seqs.UpdateAt(s.parent.properties, j, v.editable.properties[i]));
      Session(parent, v, s.propertyFrom, s.methodFrom)
  }

  /** A row edit on method `i` as written: the edit copy changes as in the
      intended model, and the parent's row changes with it when it is one
      of the parent's objects. */
  function ChangeMethod(s: Session, i: nat, e: MethodEdit): (r: Session)
    requires Shared(s)
    requires UmlNode.InlineMethodEdit(e) || e.MethodParameters?
    requires i < |s.view.editable.methods|
    ensures Shared(r)
    ensures r.view == s.view.(editable := EditMethod(s.view.editable, i, e))
    ensures s.methodFrom[i].None? ==> r.parent == s.parent
    ensures s.methodFrom[i].Some? ==>
              && r.parent == s.parent.(methods := r.parent.methods)
              && |r.parent.methods| == |s.parent.methods|
              && r.parent.methods[s.methodFrom[i].value] == ApplyMethodEdit(s.view.editable.methods[i], e)
              && forall j :: 0 <= j < |s.parent.methods| && j != s.methodFrom[i].value ==>
                   r.parent.methods[j] == s.parent.methods[j]
  {
    var v := s.view.(editable := EditMethod(s.view.editable, i, e));
    match s.methodFrom[i]
    case None => Session(s.parent, v, s.propertyFrom, s.methodFrom)
    case Some(j) =>
      var parent := s.parent.(methods := Seqs.UpdateAt(s.parent.methods, j, v.editable.methods[i]));
      Session(parent, v, s.propertyFrom, s.methodFrom)
  }

  /** `handleParameterChange(parameters)` as written: the selected method
      object takes the list, so the parent's method does too; the popover
      closes either way. */
  function ParameterChange(s: Session, ps: seq<Parameter>): (r: Session)
    requires Shared(s)
    requires s.view.currentMethod.Some? ==> s.view.currentMethod.value < |s.view.editable.methods|
    ensures Shared(r)
    ensures r.view == UmlNode.ParameterChange(s.view, ps)
    ensures r.methodFrom == s.methodFrom
    ensures s.view.currentMethod.None? ==> r.parent == s.parent
    ensures s.view.currentMethod.Some? && s.methodFrom[s.view.currentMethod.value].Some? ==>
              r.parent.methods[s.methodFrom[s.view.currentMethod.value].value].parameters == ps
  {
    match s.view.currentMethod
    case None => s.(view := UmlNode.CloseParameters(s.view))
    case Some(i) =>
      var t := ChangeMethod(s, i, MethodParameters(ps));
      t.(view := UmlNode.CloseParameters(t.view))
  }

  /** The add buttons append a fresh object, which the parent does not hold. */
  function AddProperty(s: Session): (r: Session)
    requires Shared(s)
    ensures Shared(r)
    ensures r.view == UmlNode.AddProperty(s.view) && r.parent == s.parent
  {
    Session(s.parent, UmlNode.AddProperty(s.view), s.propertyFrom + [None], s.methodFrom)
  }

  function AddMethod(s: Session): (r: Session)
    requires Shared(s)
    ensures Shared(r)
    ensures r.view == UmlNode.AddMethod(s.view) && r.parent == s.parent
  {
    Session(s.parent, UmlNode.AddMethod(s.view), s.propertyFrom, s.methodFrom + [None])
  }

  /** The delete buttons splice a copy of the list, so the parent keeps the
      row. */
  function RemoveProperty(s: Session, i: nat): (r: Session)
    requires Shared(s)
    ensures Shared(r)
    ensures r.view == UmlNode.RemoveProperty(s.view, i) && r.parent == s.parent
  {
    Session(s.parent, UmlNode.RemoveProperty(s.view, i), Seqs.RemoveAt(s.propertyFrom, i), s.methodFrom)
  }

  function RemoveMethod(s: Session, i: nat): (r: Session)
    requires Shared(s)
    ensures Shared(r)
    ensures r.view == UmlNode.RemoveMethod(s.view, i) && r.parent == s.parent
  {
    Session(s.parent, UmlNode.RemoveMethod(s.view, i), s.propertyFrom, Seqs.RemoveAt(s.methodFrom, i))
  }

  /** `handleCancel` as written: the edit copy goes back to `data.node`,
      which by now holds every row edit made to one of its objects. */
  function Cancel(s: Session): (r: UmlNode.Leave)
    requires Shared(s)
    ensures r == UmlNode.Cancel(s.view, s.parent)
    ensures forall k :: 0 <= k < |s.propertyFrom| && s.propertyFrom[k].Some? ==>
              r.view.editable.properties[s.propertyFrom[k].value] == s.view.editable.properties[k]
    ensures forall k :: 0 <= k < |s.methodFrom| && s.methodFrom[k].Some? ==>
              r.view.editable.methods[s.methodFrom[k].value] == s.view.editable.methods[k]
  {
    UmlNode.Cancel(s.view, s.parent)
  }

  /** A row edit followed by Cancel: the cancelled copy keeps the edit in
      the parent's row, where the intended Cancel would restore it. */
  lemma RowEditSurvivesCancel(v: UmlNode.NodeView, i: nat, e: PropertyEdit)
    requires UmlNode.InlinePropertyEdit(e)
    requires i < |v.editable.properties|
    ensures Cancel(ChangeProperty(Begin(v), i, e)).view.editable.properties[i]
            == ApplyPropertyEdit(v.editable.properties[i], e)
    ensures UmlNode.Cancel(UmlNode.ChangeProperty(v, i, e), v.editable).view.editable.properties[i]
            == v.editable.properties[i]
  {
  }

  /** Renaming the only property `a` to `b` and pressing Cancel: as written
      the node comes back with `b`; the intended Cancel gives `a` back. */
  lemma CancelKeepsRename()
    ensures var node := NodeData("n", "N", Class, [Property("a", "string", Public, false, false, None)], [], None, None);
            var s := ChangeProperty(Begin(UmlNode.StartEdit(UmlNode.Mount(node))), 0, PropertyName("b"));
            && Cancel(s).view.editable.properties[0].name == "b"
            && UmlNode.Cancel(s.view, node).view.editable == node
            && node.properties[0].name == "a"
  {
  }
}
