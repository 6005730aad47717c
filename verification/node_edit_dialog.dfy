/** The node edit dialog (src/components/codeflow/NodeEditDialog.tsx): a
    working copy of the node, member rows with every field editable, a
    parameter popover, a code editor per method, and a save that drops the
    members left without a name. */
module NodeEditDialog {
  import opened Wrappers
  import opened Types
  import opened MemberEdits
  import Seqs

  /** The dialog's state: the working copy, the parameter popover with the
      index of the method it edits, and the method whose code editor is
      unfolded. */
  datatype Dialog = Dialog(editable: NodeData, paramOpen: bool, currentMethod: Option<nat>, openMethod: Option<nat>)

  /** What `onSave(node, closeDialog)` receives. */
  datatype Saved = Saved(node: NodeData, closeDialog: bool)

  /** One handler's effect: the next state, what it handed to `onSave` (if
      anything), and whether it called `onClose`. */
  datatype Step = Step(dialog: Dialog, saved: Option<Saved>, closed: bool)

  /** The dialog opened on `node`. */
  function Open(node: NodeData): (r: Dialog)
    ensures r.editable == node && !r.paramOpen && r.currentMethod.None? && r.openMethod.None?
  {
    Dialog(node, false, None, None)
  }

  // ---------------------------------------------------------------------
  // Save

  predicate PropertyNamed(p: Property) {
    p.name != ""
  }

  predicate MethodNamed(m: Method) {
    m.name != ""
  }

  /** The node `handleSave` hands up: the working copy without the methods
      and properties whose name is empty. */
  function DropUnnamed(n: NodeData): (r: NodeData)
    ensures r == n.(methods := r.methods, properties := r.properties)
    ensures |r.methods| <= |n.methods| && |r.properties| <= |n.properties|
    ensures forall k :: 0 <= k < |r.methods| ==> r.methods[k].name != ""
    ensures forall k :: 0 <= k < |r.properties| ==> r.properties[k].name != ""
  {
    n.(methods := Seqs.Filter(n.methods, MethodNamed), properties := Seqs.Filter(n.properties, PropertyNamed))
  }

  /** A member survives the save iff it was in the working copy and has a
      name; the survivors keep their relative order, since the filter
      distributes over any split of the list; a second filter changes
      nothing. */
  lemma DropUnnamedLaws(n: NodeData, m: Method, p: Property, ms1: seq<Method>, ms2: seq<Method>)
    ensures m in DropUnnamed(n).methods <==> m in n.methods && m.name != ""
    ensures p in DropUnnamed(n).properties <==> p in n.properties && p.name != ""
    ensures n.methods == ms1 + ms2 ==>
              DropUnnamed(n).methods == Seqs.Filter(ms1, MethodNamed) + Seqs.Filter(ms2, MethodNamed)
    ensures DropUnnamed(DropUnnamed(n)) == DropUnnamed(n)
  {
    Seqs.FilterMembership(n.methods, MethodNamed, m);
    Seqs.FilterMembership(n.properties, PropertyNamed, p);
    if n.methods == ms1 + ms2 {
      Seqs.FilterAppend(ms1, ms2, MethodNamed);
    }
    var r := DropUnnamed(n);
    Seqs.FilterAllKept(r.methods, MethodNamed);
    Seqs.FilterAllKept(r.properties, PropertyNamed);
  }

  /** `handleSave(isCloseDialog)`: hands up the filtered working copy; when
      asked to close, also calls `onClose` and closes the parameter popover.
      The working copy itself keeps its unnamed members. */
  function HandleSave(d: Dialog, closeDialog: bool): (r: Step)
    ensures r.saved == Some(Saved(DropUnnamed(d.editable), closeDialog))
    ensures r.closed == closeDialog
    ensures r.dialog.editable == d.editable && r.dialog.openMethod == d.openMethod
    ensures !closeDialog ==> r.dialog == d
    ensures closeDialog ==> !r.dialog.paramOpen && r.dialog.currentMethod.None?
  {
    var out := Some(Saved(DropUnnamed(d.editable), closeDialog));
    if closeDialog then Step(HandleParameterClose(d), out, true)
    else Step(d, out, false)
  }

  // ---------------------------------------------------------------------
  // Field edits and their auto-save

  /** `handleInputChange(field, value)`, the corrected version: the working
      copy takes the value and the auto-save hands up the copy as it is
      after the edit. */
  function HandleInputChange(d: Dialog, f: NodeField): (r: Step)
    ensures r.dialog == d.(editable := SetField(d.editable, f))
    ensures r.saved == Some(Saved(DropUnnamed(SetField(d.editable, f)), false))
    ensures !r.closed
  {
    var next := d.(editable := SetField(d.editable, f));
    Step(next, HandleSave(next, false).saved, false)
  }

  /** `handleInputChange(field, value)` as written: the component stores the
      new value through a state setter and then calls `handleSave(false)`,
      whose closure still sees the working copy from before the edit. */
  function HandleInputChangeAsWritten(d: Dialog, f: NodeField): (r: Step)
    ensures r.dialog == d.(editable := SetField(d.editable, f))
    ensures r.saved == Some(Saved(DropUnnamed(d.editable), false))
    ensures !r.closed
  {
    Step(d.(editable := SetField(d.editable, f)), HandleSave(d, false).saved, false)
  }

  /** The corrected auto-save hands up exactly what an explicit save just
      after the edit would. */
  lemma AutoSaveMatchesSave(d: Dialog, f: NodeField)
    ensures HandleInputChange(d, f).saved == HandleSave(HandleInputChange(d, f).dialog, false).saved
    ensures f.Name? && f.name != "" ==> HandleInputChange(d, f).saved.value.node.name == f.name
  {
  }

  /** As written, renaming a node auto-saves the old name: the dialog below
      renamed from "A" to "B" hands up a node still called "A", which is not
      what a save right after the edit would hand up. */
  lemma AutoSaveIsStale()
    ensures var d := Open(NodeData("n1", "A", Class, [], [], None, None));
            var r := HandleInputChangeAsWritten(d, Name("B"));
            && r.saved.value.node.name == "A"
            && r.dialog.editable.name == "B"
            && r.saved != HandleSave(r.dialog, false).saved
  {
    var d := Open(NodeData("n1", "A", Class, [], [], None, None));
    var r := HandleInputChangeAsWritten(d, Name("B"));
    assert HandleSave(r.dialog, false).saved.value.node.name == "B";
  }

  /** The property the add button appends. */
  const BlankProperty: Property := Property("", "", Public, false, false, None)

  /** The method the add button appends. */
  const BlankMethod: Method := Method("", "", [], Public, false, false, Some(""))

  /** The blank property the add button appends is dropped by a save. */
  lemma BlankPropertyDropped(n: NodeData)
    ensures DropUnnamed(AppendProperty(n, BlankProperty)) == DropUnnamed(n)
  {
    var bp: seq<Property> := [BlankProperty];
    Seqs.FilterAppend(n.properties, bp, PropertyNamed);
    Seqs.FilterNoneKept(bp, PropertyNamed);
  }

  /** The blank method the add button appends is dropped by a save. */
  lemma BlankMethodDropped(n: NodeData)
    ensures DropUnnamed(AppendMethod(n, BlankMethod)) == DropUnnamed(n)
  {
    var bm: seq<Method> := [BlankMethod];
    Seqs.FilterAppend(n.methods, bm, MethodNamed);
    Seqs.FilterNoneKept(bm, MethodNamed);
  }

  /** The add-property button: the working copy gains the blank property at
      the end, and since it has no name the auto-save hands up what a save
      before the click would. */
  function AddProperty(d: Dialog): (r: Step)
    ensures r.dialog == d.(editable := AppendProperty(d.editable, BlankProperty))
    ensures r.saved == HandleSave(d, false).saved
    ensures !r.closed
  {
    BlankPropertyDropped(d.editable);
    HandleInputChange(d, Properties(d.editable.properties + [BlankProperty]))
  }

  /** The add-method button: the working copy gains the blank method at the
      end, and the auto-save hands up what a save before the click would. */
  function AddMethod(d: Dialog): (r: Step)
    ensures r.dialog == d.(editable := AppendMethod(d.editable, BlankMethod))
    ensures r.saved == HandleSave(d, false).saved
    ensures !r.closed
  {
    BlankMethodDropped(d.editable);
    HandleInputChange(d, Methods(d.editable.methods + [BlankMethod]))
  }

  /** For the add buttons the stale auto-save of `handleInputChange` does no
      harm: the closure's copy and the updated copy save alike, because the
      only difference is an unnamed member. */
  lemma AddedBlankIsDropped(d: Dialog)
    ensures AddProperty(d).saved == HandleInputChangeAsWritten(d, Properties(d.editable.properties + [BlankProperty])).saved
    ensures AddMethod(d).saved == HandleInputChangeAsWritten(d, Methods(d.editable.methods + [BlankMethod])).saved
  {
  }

  /** The delete button of property row `i` (corrected auto-save): the row
      goes from the working copy; the save loses that property when it had
      a name and is unaffected when it had none. */
  function DeletePropertyAt(d: Dialog, i: nat): (r: Step)
    ensures r.dialog == d.(editable := DeleteProperty(d.editable, i))
    ensures r.saved == Some(Saved(DropUnnamed(DeleteProperty(d.editable, i)), false)) && !r.closed
    ensures i >= |d.editable.properties| || !PropertyNamed(d.editable.properties[i]) ==>
              r.saved == HandleSave(d, false).saved
    ensures i < |d.editable.properties| && PropertyNamed(d.editable.properties[i]) ==>
              multiset(r.saved.value.node.properties) + multiset{d.editable.properties[i]}
              == multiset(HandleSave(d, false).saved.value.node.properties)
  {
    var r := HandleInputChange(d, Properties(DeleteProperty(d.editable, i).properties));
    if i < |d.editable.properties| then
      Seqs.FilterRemoveAt(d.editable.properties, i, PropertyNamed);
      r
    else r
  }

  /** The delete button of method row `i` (corrected auto-save): the row goes
      from the working copy; the save loses that method when it had a name
      and is unaffected when it had none. */
  function DeleteMethodAt(d: Dialog, i: nat): (r: Step)
    ensures r.dialog == d.(editable := DeleteMethod(d.editable, i))
    ensures r.saved == Some(Saved(DropUnnamed(DeleteMethod(d.editable, i)), false)) && !r.closed
    ensures i >= |d.editable.methods| || !MethodNamed(d.editable.methods[i]) ==>
              r.saved == HandleSave(d, false).saved
    ensures i < |d.editable.methods| && MethodNamed(d.editable.methods[i]) ==>
              multiset(r.saved.value.node.methods) + multiset{d.editable.methods[i]}
              == multiset(HandleSave(d, false).saved.value.node.methods)
  {
    var r := HandleInputChange(d, Methods(DeleteMethod(d.editable, i).methods));
    if i < |d.editable.methods| then
      Seqs.FilterRemoveAt(d.editable.methods, i, MethodNamed);
      r
    else r
  }

  /** The delete button of property row `i` as written: `splice` builds a
      new list without the row, so the closure's stale copy still has it
      and the auto-save hands up the node as it was before the click. */
  function DeletePropertyAtAsWritten(d: Dialog, i: nat): (r: Step)
    ensures r.dialog == d.(editable := DeleteProperty(d.editable, i))
    ensures r.saved == HandleSave(d, false).saved && !r.closed
  {
    HandleInputChangeAsWritten(d, Properties(DeleteProperty(d.editable, i).properties))
  }

  /** The delete button of method row `i` as written: the auto-save hands up
      the node as it was before the click. */
  function DeleteMethodAtAsWritten(d: Dialog, i: nat): (r: Step)
    ensures r.dialog == d.(editable := DeleteMethod(d.editable, i))
    ensures r.saved == HandleSave(d, false).saved && !r.closed
  {
    HandleInputChangeAsWritten(d, Methods(DeleteMethod(d.editable, i).methods))
  }

  /** As written, deleting a named member auto-saves a node that still has
      it: below, the only property `x` and the only method `f` are deleted,
      yet each auto-save still carries them, while the corrected deletes
      hand up empty lists. */
  lemma DeleteAutoSaveIsStale()
    ensures var p := Property("x", "int", Public, false, false, None);
            var m := Method("f", "void", [], Public, false, false, None);
            var d := Open(NodeData("n1", "A", Class, [p], [m], None, None));
            && DeletePropertyAtAsWritten(d, 0).saved.value.node.properties == [p]
            && DeletePropertyAt(d, 0).saved.value.node.properties == []
            && DeleteMethodAtAsWritten(d, 0).saved.value.node.methods == [m]
            && DeleteMethodAt(d, 0).saved.value.node.methods == []
  {
    var p := Property("x", "int", Public, false, false, None);
    var m := Method("f", "void", [], Public, false, false, None);
    var d := Open(NodeData("n1", "A", Class, [p], [m], None, None));
    assert Seqs.Filter([p], PropertyNamed) == [p];
    assert Seqs.Filter([m], MethodNamed) == [m];
    assert DeleteProperty(d.editable, 0).properties == [];
    assert DeleteMethod(d.editable, 0).methods == [];
  }

  /** A row edit on property `i` (visibility, static, final, name, type or
      initial value): only that property's field changes. */
  function ChangeProperty(d: Dialog, i: nat, e: PropertyEdit): (r: Step)
    requires i < |d.editable.properties|
    ensures r.dialog.editable == EditProperty(d.editable, i, e)
    ensures r.saved == Some(Saved(DropUnnamed(EditProperty(d.editable, i, e)), false))
  {
    HandleInputChange(d, Properties(EditProperty(d.editable, i, e).properties))
  }

  /** A row edit on method `i` (visibility, static, final, name, return type,
      or its code from the code editor): only that method's field changes. */
  function ChangeMethod(d: Dialog, i: nat, e: MethodEdit): (r: Step)
    requires !e.MethodParameters?
    requires i < |d.editable.methods|
    ensures r.dialog.editable == EditMethod(d.editable, i, e)
    ensures r.saved == Some(Saved(DropUnnamed(EditMethod(d.editable, i, e)), false))
  {
    HandleInputChange(d, Methods(EditMethod(d.editable, i, e).methods))
  }

  // ---------------------------------------------------------------------
  // Parameter popover

  /** `handleAddParameter(index)`. */
  function HandleAddParameter(d: Dialog, i: nat): (r: Dialog)
    ensures r == d.(currentMethod := Some(i), paramOpen := true)
  {
    d.(currentMethod := Some(i), paramOpen := true)
  }

  /** `handleParameterClose`. */
  function HandleParameterClose(d: Dialog): (r: Dialog)
    ensures !r.paramOpen && r.currentMethod.None?
    ensures r.editable == d.editable && r.openMethod == d.openMethod
  {
    d.(paramOpen := false, currentMethod := None)
  }

  /** `handleParameterChange(parameters)`: with a method selected, it takes
      the parameters and the change goes through `handleInputChange`; with
      none, nothing happens. The popover stays open either way. */
  function HandleParameterChange(d: Dialog, ps: seq<Parameter>): (r: Step)
    requires d.currentMethod.Some? ==> d.currentMethod.value < |d.editable.methods|
    ensures d.currentMethod.None? ==> r == Step(d, None, false)
    ensures d.currentMethod.Some? ==>
              r == HandleInputChange(d, Methods(EditMethod(d.editable, d.currentMethod.value, MethodParameters(ps)).methods))
    ensures r.dialog.paramOpen == d.paramOpen && r.dialog.currentMethod == d.currentMethod
  {
    match d.currentMethod
    case Some(i) => HandleInputChange(d, Methods(EditMethod(d.editable, i, MethodParameters(ps)).methods))
    case None => Step(d, None, false)
  }

  // ---------------------------------------------------------------------
  // Code editor

  /** Every method called `name` takes `code` as its body; the others are
      left as they are. */
  function SetCodeByName(ms: seq<Method>, name: string, code: Option<string>): (r: seq<Method>)
    ensures |r| == |ms|
    ensures forall k :: 0 <= k < |ms| ==>
              r[k] == (if ms[k].name == name then ms[k].(insideCode := code) else ms[k])
  {
    seq(|ms|, k requires 0 <= k < |ms| =>
      if ms[k].name == name then ApplyMethodEdit(ms[k], MethodCode(code)) else ms[k])
  }

  /** Setting the code by name twice is setting it once; methods of other
      names, and their count, never change; every method of that name ends
      up with the code. */
  lemma SetCodeByNameLaws(ms: seq<Method>, name: string, code: Option<string>)
    ensures SetCodeByName(SetCodeByName(ms, name, code), name, code) == SetCodeByName(ms, name, code)
    ensures forall m :: m in ms && m.name != name ==> m in SetCodeByName(ms, name, code)
    ensures forall m :: m in SetCodeByName(ms, name, code) && m.name == name ==> m.insideCode == code
    ensures Seqs.Filter(SetCodeByName(ms, name, code), MethodNamed) == SetCodeByName(Seqs.Filter(ms, MethodNamed), name, code)
      || name == ""
  {
    var r := SetCodeByName(ms, name, code);
    forall m | m in ms && m.name != name ensures m in r {
      var k :| 0 <= k < |ms| && ms[k] == m;
      assert r[k] == m;
    }
    if name != "" {
      FilterCommutes(ms, name, code);
    }
  }

  /** Setting code by a non-empty name and dropping unnamed methods can be
      done in either order. */
  lemma {:induction false} FilterCommutes(ms: seq<Method>, name: string, code: Option<string>)
    requires name != ""
    ensures Seqs.Filter(SetCodeByName(ms, name, code), MethodNamed) == SetCodeByName(Seqs.Filter(ms, MethodNamed), name, code)
    decreases |ms|
  {
    if |ms| > 0 {
      var r := SetCodeByName(ms, name, code);
      SetCodeByNameHead(ms, name, code);
      assert MethodNamed(r[0]) == MethodNamed(ms[0]);
      FilterCommutes(ms[1..], name, code);
      if MethodNamed(ms[0]) {
        var f := Seqs.Filter(ms, MethodNamed);
        assert f[0] == ms[0] && f[1..] == Seqs.Filter(ms[1..], MethodNamed);
        SetCodeByNameHead(f, name, code);
      }
    }
  }

  /** Setting code by name works entry by entry from the front. */
  lemma SetCodeByNameHead(ms: seq<Method>, name: string, code: Option<string>)
    requires |ms| > 0
    ensures SetCodeByName(ms, name, code)[1..] == SetCodeByName(ms[1..], name, code)
    ensures SetCodeByName(ms, name, code) == [SetCodeByName(ms, name, code)[0]] + SetCodeByName(ms[1..], name, code)
  {
    var r := SetCodeByName(ms, name, code);
    assert r[1..] == SetCodeByName(ms[1..], name, code);
    assert r == [r[0]] + r[1..];
  }

  /** `onMethodCodeChange(name, code)`: hands up the node the dialog was
      opened on (not the working copy), its methods taken from the working
      copy with the code set on every method called `name`. */
  function OnMethodCodeChange(node: NodeData, d: Dialog, name: string, code: Option<string>): (r: Saved)
    ensures r.node == node.(methods := r.node.methods) && !r.closeDialog
    ensures |r.node.methods| == |d.editable.methods|
    ensures forall k :: 0 <= k < |d.editable.methods| ==>
              && r.node.methods[k].name == d.editable.methods[k].name
              && (d.editable.methods[k].name == name ==> r.node.methods[k].insideCode == code)
              && (d.editable.methods[k].name != name ==> r.node.methods[k] == d.editable.methods[k])
              && MethodAgreesBesides(d.editable.methods[k], r.node.methods[k], MethodCode(code))
  {
    Saved(node.(methods := SetCodeByName(d.editable.methods, name, code)), false)
  }
}
