/** The canvas node component (src/components/codeflow/UmlNode.tsx): the
    connection handles it renders, its read-only text, and the edit copy it
    keeps while the user edits the node in place. */
module UmlNode {
  import opened Wrappers
  import opened Strings
  import opened Types
  import opened MemberEdits
  import CodeFlow

  // ---------------------------------------------------------------------
  // Connection handles

  /** One handle: its type (source or target), the bar it sits on, and
      the number in its id. */
  datatype HandleSpec = HandleSpec(isSource: bool, onTop: bool, number: nat)

  const SideHandleCount: nat := 10
  const CenterHandleCount: nat := 20

  /** `<type>-<top|bottom>-`. */
  function HandlePrefix(h: HandleSpec): string {
    (if h.isSource then "source" else "target") + "-" + (if h.onTop then "top" else "bottom") + "-"
  }

  /** The handle's `id`. */
  function HandleId(h: HandleSpec): string {
    HandlePrefix(h) + NatToString(h.number)
  }

  /** `Array.from({ length: count }).map((_, i) => <Handle id=... first + i>)`. */
  function HandleGroup(isSource: bool, onTop: bool, first: nat, count: nat): (r: seq<HandleSpec>)
    ensures |r| == count
    ensures forall k :: 0 <= k < count ==> r[k] == HandleSpec(isSource, onTop, first + k)
  {
    seq(count, k requires 0 <= k < count => HandleSpec(isSource, onTop, first + k))
  }

  /** Every handle a node renders, in document order: the top bar's left,
      centre and right groups, then the bottom bar's. */
  function Handles(): seq<HandleSpec> {
    HandleGroup(false, true, 0, SideHandleCount)
    + HandleGroup(true, true, 0, CenterHandleCount)
    + HandleGroup(false, true, 10, SideHandleCount)
    + HandleGroup(true, false, 50, SideHandleCount)
    + HandleGroup(false, false, 50, CenterHandleCount)
    + HandleGroup(true, false, 160, SideHandleCount)
  }

  function HandleIds(): (r: seq<string>)
    ensures |r| == |Handles()|
  {
    seq(|Handles()|, k requires 0 <= k < |Handles()| => HandleId(Handles()[k]))
  }

  /** The handle at each position of the rendered list. */
  lemma HandleAt(k: nat)
    requires k < 80
    ensures |Handles()| == 80
    ensures Handles()[k] ==
              if k < 10 then HandleSpec(false, true, k)
              else if k < 30 then HandleSpec(true, true, k - 10)
              else if k < 40 then HandleSpec(false, true, k - 20)
              else if k < 50 then HandleSpec(true, false, k + 10)
              else if k < 70 then HandleSpec(false, false, k)
              else HandleSpec(true, false, k + 90)
  {
  }

  /** A node has 80 handles, pairwise different: target handles 0 to 19 and
      source handles 0 to 19 on top, source handles 50 to 59 and 160 to 169
      and target handles 50 to 69 at the bottom, so twenty of each kind. */
  lemma HandleInventory()
    ensures |Handles()| == 80
    ensures forall i, j :: 0 <= i < j < |Handles()| ==> Handles()[i] != Handles()[j]
    ensures forall h :: h in Handles() <==>
              || (!h.isSource && h.onTop && h.number < 20)
              || (h.isSource && h.onTop && h.number < 20)
              || (h.isSource && !h.onTop && (50 <= h.number < 60 || 160 <= h.number < 170))
              || (!h.isSource && !h.onTop && 50 <= h.number < 70)
  {
    HandleAt(0);
    forall i, j | 0 <= i < j < 80 ensures Handles()[i] != Handles()[j] {
      HandleAt(i);
      HandleAt(j);
    }
    forall h: HandleSpec
      ensures h in Handles() <==>
              || (!h.isSource && h.onTop && h.number < 20)
              || (h.isSource && h.onTop && h.number < 20)
              || (h.isSource && !h.onTop && (50 <= h.number < 60 || 160 <= h.number < 170))
              || (!h.isSource && !h.onTop && 50 <= h.number < 70)
    {
      if h in Handles() {
        var k :| 0 <= k < 80 && Handles()[k] == h;
        HandleAt(k);
      } else {
        var n: int := h.number;
        var k: int :=
          if !h.isSource && h.onTop then (if n < 10 then n else n + 20)
          else if h.isSource && h.onTop then n + 10
          else if h.isSource then (if n < 60 then n - 10 else n - 90)
          else n;
        if 0 <= k < 80 {
          HandleAt(k);
        }
      }
    }
  }

  /** Different handles have different ids. */
  lemma HandleIdInjective(a: HandleSpec, b: HandleSpec)
    requires HandleId(a) == HandleId(b)
    ensures a == b
  {
    var s := HandleId(a);
    assert s[0] == (if a.isSource then 's' else 't');
    assert HandleId(b)[0] == (if b.isSource then 's' else 't');
    assert s[7] == (if a.onTop then 't' else 'b');
    assert HandleId(b)[7] == (if b.onTop then 't' else 'b');
    var p := HandlePrefix(a);
    assert HandlePrefix(b) == p;
    assert NatToString(a.number) == s[|p|..] == NatToString(b.number);
    if a.number != b.number {
      NatToStringInjective(a.number, b.number);
    }
  }

  /** The 80 ids are pairwise different; each starts with `source-` or
      `target-`, matching the handle's type. */
  lemma HandleIdsDistinct()
    ensures |HandleIds()| == 80
    ensures forall i, j :: 0 <= i < j < |HandleIds()| ==> HandleIds()[i] != HandleIds()[j]
    ensures forall k :: 0 <= k < |HandleIds()| ==>
              && (StartsWith(HandleIds()[k], "source-") <==> Handles()[k].isSource)
              && (StartsWith(HandleIds()[k], "target-") <==> !Handles()[k].isSource)
  {
    HandleInventory();
    var ids := HandleIds();
    forall i, j | 0 <= i < j < |ids| ensures ids[i] != ids[j] {
      if ids[i] == ids[j] {
        HandleIdInjective(Handles()[i], Handles()[j]);
      }
    }
    forall k | 0 <= k < |ids|
      ensures && (StartsWith(ids[k], "source-") <==> Handles()[k].isSource)
              && (StartsWith(ids[k], "target-") <==> !Handles()[k].isSource)
    {
      var h := Handles()[k];
      assert ids[k][..7] == (if h.isSource then "source-" else "target-");
    }
  }

  // ---------------------------------------------------------------------
  // Read-only text

  /** The header when not editing: `${type} ${name}`. */
  function Header(n: NodeData): (r: string)
    ensures StartsWith(r, KindTag(n.kind) + " ")
  {
    KindTag(n.kind) + " " + n.name
  }

  /** `(static)` for a static member, nothing otherwise. */
  function StaticMark(isStatic: bool): string {
    if isStatic then "(static)" else ""
  }

  /** A property row when not editing:
      `${symbol} ${name}: ${type} ${isStatic ? '(static)' : ''}`. */
  function PropertyLine(p: Property): (r: string)
    ensures |r| > 0 && r[..1] == VisibilitySymbol(p.visibility)
    ensures r[|r| - 1] == ')' <==> p.isStatic
  {
    VisibilitySymbol(p.visibility) + " " + p.name + ": " + p.typ + " " + StaticMark(p.isStatic)
  }

  /** The parameters as `type name`, `, `-separated. */
  function ParameterTexts(ps: seq<Parameter>): string {
    Join(seq(|ps|, k requires 0 <= k < |ps| => CodeFlow.CompileParameter(ps[k])), ", ")
  }

  /** A method row when not editing:
      `${symbol} ${name}(${type name, ...}): ${returnType} ${isStatic ? '(static)' : ''}`. */
  function MethodLine(m: Method): (r: string)
    ensures |r| > 0 && r[..1] == VisibilitySymbol(m.visibility)
    ensures r[|r| - 1] == ')' <==> m.isStatic
  {
    VisibilitySymbol(m.visibility) + " " + m.name + "(" + ParameterTexts(m.parameters) + "): "
    + m.returnType + " " + StaticMark(m.isStatic)
  }

  /** If `x` occurs in neither `a` nor `c`, then `a + [x] + b == c + [x] + d`
      splits the same way on both sides. */
  lemma SplitAtFirst(a: string, b: string, c: string, d: string, x: char)
    requires x !in a && x !in c
    requires a + [x] + b == c + [x] + d
    ensures a == c && b == d
  {
    var s := a + [x] + b;
    assert forall k :: 0 <= k < |a| ==> s[k] == a[k];
    assert forall k :: 0 <= k < |c| ==> s[k] == c[k];
    assert s[|a|] == x;
    assert s[|c|] == x;
    assert |a| == |c|;
    assert a == s[..|a|];
    assert c == s[..|c|];
    assert b == s[|a| + 1..];
    assert d == s[|c| + 1..];
  }

  /** The header shows the kind and the name: two nodes with one header
      have the same kind and the same name. */
  lemma HeaderDetermines(a: NodeData, b: NodeData)
    requires Header(a) == Header(b)
    ensures a.kind == b.kind && a.name == b.name
  {
    assert Header(a) == KindTag(a.kind) + [' '] + a.name;
    assert Header(b) == KindTag(b.kind) + [' '] + b.name;
    SplitAtFirst(KindTag(a.kind), a.name, KindTag(b.kind), b.name, ' ');
  }

  /** A static mark comes off a line ending in `<t> <mark>`. */
  lemma StaticMarkOff(t: string, u: string, b: bool, c: bool)
    requires t + " " + StaticMark(b) == u + " " + StaticMark(c)
    ensures t == u && b == c
  {
    var s := t + " " + StaticMark(b);
    assert s[|s| - 1] == (if b then ')' else ' ');
    assert (u + " " + StaticMark(c))[|s| - 1] == (if c then ')' else ' ');
    assert t == s[..|t|];
    assert u == s[..|u|];
  }

  /** A property row shows the whole property but its final flag and
      initial value, as long as its name has no colon: two such rows that
      read the same show the same visibility, name, type and static flag. */
  lemma PropertyLineDetermines(p: Property, q: Property)
    requires ':' !in p.name && ':' !in q.name
    requires PropertyLine(p) == PropertyLine(q)
    ensures p.visibility == q.visibility && p.name == q.name && p.typ == q.typ && p.isStatic == q.isStatic
  {
    VisibilityTables();
    PropertyLineParts(p);
    PropertyLineParts(q);
    var tp := " " + p.typ + " " + StaticMark(p.isStatic);
    var tq := " " + q.typ + " " + StaticMark(q.isStatic);
    SplitAtFirst(p.name, tp, q.name, tq, ':');
    assert tp[1..] == p.typ + " " + StaticMark(p.isStatic);
    assert tq[1..] == q.typ + " " + StaticMark(q.isStatic);
    StaticMarkOff(p.typ, q.typ, p.isStatic, q.isStatic);
  }

  /** A method row shows its visibility, name, parameter text, return type
      and static flag, as long as the name has no `(` and the parameter
      text no `)`: two such rows that read the same agree on all five. */
  lemma MethodLineDetermines(m: Method, n: Method)
    requires '(' !in m.name && '(' !in n.name
    requires ')' !in ParameterTexts(m.parameters) && ')' !in ParameterTexts(n.parameters)
    requires MethodLine(m) == MethodLine(n)
    ensures m.visibility == n.visibility && m.name == n.name
    ensures ParameterTexts(m.parameters) == ParameterTexts(n.parameters)
    ensures m.returnType == n.returnType && m.isStatic == n.isStatic
  {
    VisibilityTables();
    MethodLineParts(m);
    MethodLineParts(n);
    var rm := ": " + m.returnType + " " + StaticMark(m.isStatic);
    var rn := ": " + n.returnType + " " + StaticMark(n.isStatic);
    var tm := ParameterTexts(m.parameters) + [')'] + rm;
    var tn := ParameterTexts(n.parameters) + [')'] + rn;
    SplitAtFirst(m.name, tm, n.name, tn, '(');
    SplitAtFirst(ParameterTexts(m.parameters), rm, ParameterTexts(n.parameters), rn, ')');
    assert rm[2..] == m.returnType + " " + StaticMark(m.isStatic);
    assert rn[2..] == n.returnType + " " + StaticMark(n.isStatic);
    StaticMarkOff(m.returnType, n.returnType, m.isStatic, n.isStatic);
  }

  /** A method row is the visibility symbol, a blank, then the name, `(`,
      the parameter text, `)` and the rest. */
  lemma MethodLineParts(m: Method)
    ensures MethodLine(m)[..1] == VisibilitySymbol(m.visibility)
    ensures MethodLine(m)[2..] == m.name + ['('] + (ParameterTexts(m.parameters) + [')']
                                  + (": " + m.returnType + " " + StaticMark(m.isStatic)))
  {
  }

  /** A property row is the visibility symbol, a blank, then the name,
      `:`, and the rest. */
  lemma PropertyLineParts(p: Property)
    ensures PropertyLine(p)[2..] == p.name + [':'] + (" " + p.typ + " " + StaticMark(p.isStatic))
  {
    VisibilityTables();
    var t := " " + p.typ + " " + StaticMark(p.isStatic);
    assert PropertyLine(p) == (VisibilitySymbol(p.visibility) + " ") + (p.name + [':'] + t);
  }

  // ---------------------------------------------------------------------
  // Editing in place

  /** The component's state: edit mode, the edit copy, and the parameter
      popover with the index of the method it edits. */
  datatype NodeView = NodeView(editMode: bool, editable: NodeData, modalOpen: bool, currentMethod: Option<nat>)

  /** The state a node is first rendered with. */
  function Mount(node: NodeData): (r: NodeView)
    ensures !r.editMode && !r.modalOpen && r.currentMethod.None? && r.editable == node
  {
    NodeView(false, node, false, None)
  }

  /** The edit button: enters edit mode, nothing else. */
  function StartEdit(v: NodeView): (r: NodeView)
    ensures r == v.(editMode := true)
  {
    v.(editMode := true)
  }

  /** What leaving edit mode produces: the new state and, on save, the
      node handed to the parent. */
  datatype Leave = Leave(view: NodeView, emitted: Option<NodeData>)

  /** `handleSave`: leaves edit mode and hands the edit copy to the parent. */
  function Save(v: NodeView): (r: Leave)
    ensures !r.view.editMode && r.view.editable == v.editable
    ensures r.view == v.(editMode := false)
    ensures r.emitted == Some(v.editable)
  {
    Leave(v.(editMode := false), Some(v.editable))
  }

  /** `handleCancel`: the edit copy goes back to the node the parent holds
      and edit mode ends; nothing is handed up. */
  function Cancel(v: NodeView, node: NodeData): (r: Leave)
    ensures !r.view.editMode && r.view.editable == node && r.emitted.None?
    ensures r.view.modalOpen == v.modalOpen && r.view.currentMethod == v.currentMethod
  {
    Leave(v.(editMode := false, editable := node), None)
  }

  /** Cancelling forgets every edit: the result does not depend on the
      edit copy. */
  lemma CancelForgetsEdits(v: NodeView, node: NodeData, edited: NodeData)
    ensures Cancel(v.(editable := edited), node) == Cancel(v, node)
    ensures Cancel(v, node).view.editable == Mount(node).editable
  {
  }

  /** `handleInputChange(field, value)` on the edit copy. */
  function InputChange(v: NodeView, f: NodeField): (r: NodeView)
    ensures r.editable == SetField(v.editable, f)
    ensures r == v.(editable := r.editable)
  {
    v.(editable := SetField(v.editable, f))
  }

  /** The property edits a row offers in place: visibility, static, name
      and type. */
  predicate InlinePropertyEdit(e: PropertyEdit) {
    e.PropertyVisibility? || e.PropertyStatic? || e.PropertyName? || e.PropertyType?
  }

  /** The method edits a row offers in place: visibility, static, name and
      return type (parameters go through the popover). */
  predicate InlineMethodEdit(e: MethodEdit) {
    e.MethodVisibility? || e.MethodStatic? || e.MethodName? || e.MethodReturnType?
  }

  /** A row edit on property `i`, stored through `handleInputChange`. */
  function ChangeProperty(v: NodeView, i: nat, e: PropertyEdit): (r: NodeView)
    requires InlinePropertyEdit(e)
    requires i < |v.editable.properties|
    ensures r == v.(editable := EditProperty(v.editable, i, e))
  {
    InputChange(v, Properties(EditProperty(v.editable, i, e).properties))
  }

  /** A row edit on method `i`, stored through `handleInputChange`. */
  function ChangeMethod(v: NodeView, i: nat, e: MethodEdit): (r: NodeView)
    requires InlineMethodEdit(e)
    requires i < |v.editable.methods|
    ensures r == v.(editable := EditMethod(v.editable, i, e))
  {
    InputChange(v, Methods(EditMethod(v.editable, i, e).methods))
  }

  /** The property the add button appends. The component leaves `isFinal`
      and `initialValue` out of the literal. */
  const BlankProperty: Property := Property("", "", Public, false, false, None)

  /** The method the add button appends. The component leaves `isFinal`
      and `insideCode` out of the literal. */
  const BlankMethod: Method := Method("", "", [], Public, false, false, None)

  function AddProperty(v: NodeView): (r: NodeView)
    ensures r == v.(editable := AppendProperty(v.editable, BlankProperty))
  {
    InputChange(v, Properties(v.editable.properties + [BlankProperty]))
  }

  function AddMethod(v: NodeView): (r: NodeView)
    ensures r == v.(editable := AppendMethod(v.editable, BlankMethod))
  {
    InputChange(v, Methods(v.editable.methods + [BlankMethod]))
  }

  function RemoveProperty(v: NodeView, i: nat): (r: NodeView)
    ensures r == v.(editable := DeleteProperty(v.editable, i))
  {
    InputChange(v, Properties(DeleteProperty(v.editable, i).properties))
  }

  function RemoveMethod(v: NodeView, i: nat): (r: NodeView)
    ensures r == v.(editable := DeleteMethod(v.editable, i))
  {
    InputChange(v, Methods(DeleteMethod(v.editable, i).methods))
  }

  /** Adding a member and deleting it straight away leaves the edit copy as
      it was. */
  lemma AddThenRemove(v: NodeView)
    ensures RemoveProperty(AddProperty(v), |v.editable.properties|) == v
    ensures RemoveMethod(AddMethod(v), |v.editable.methods|) == v
  {
    DeleteAppendedProperty(v.editable, BlankProperty);
    DeleteAppendedMethod(v.editable, BlankMethod);
  }

  /** `handleAddParameter(index)`: opens the popover on method `index`. */
  function OpenParameters(v: NodeView, i: nat): (r: NodeView)
    ensures r.modalOpen && r.currentMethod == Some(i)
    ensures r.editable == v.editable && r.editMode == v.editMode
  {
    v.(currentMethod := Some(i), modalOpen := true)
  }

  /** `handleModalClose`: closes the popover and forgets the index. */
  function CloseParameters(v: NodeView): (r: NodeView)
    ensures !r.modalOpen && r.currentMethod.None?
    ensures r.editable == v.editable && r.editMode == v.editMode
  {
    v.(currentMethod := None, modalOpen := false)
  }

  /** `handleParameterChange(parameters)`: the method the popover was opened
      on takes the parameters; with no such method the edit copy is kept.
      The popover closes either way. */
  function ParameterChange(v: NodeView, ps: seq<Parameter>): (r: NodeView)
    requires v.currentMethod.Some? ==> v.currentMethod.value < |v.editable.methods|
    ensures !r.modalOpen && r.currentMethod.None? && r.editMode == v.editMode
    ensures v.currentMethod.None? ==> r.editable == v.editable
    ensures v.currentMethod.Some? ==> r.editable == EditMethod(v.editable, v.currentMethod.value, MethodParameters(ps))
  {
    match v.currentMethod
    case Some(i) => CloseParameters(InputChange(v, Methods(EditMethod(v.editable, i, MethodParameters(ps)).methods)))
    case None => CloseParameters(v)
  }

  /** Opening the popover on method `i` and handing it a parameter list
      gives method `i` exactly those parameters, changes no other member,
      and leaves the popover closed. */
  lemma OpenThenChangeParameters(v: NodeView, i: nat, ps: seq<Parameter>)
    requires i < |v.editable.methods|
    ensures var r := ParameterChange(OpenParameters(v, i), ps);
            && !r.modalOpen && r.currentMethod.None?
            && |r.editable.methods| == |v.editable.methods|
            && r.editable.methods[i].parameters == ps
            && r.editable.methods[i] == v.editable.methods[i].(parameters := ps)
            && (forall k :: 0 <= k < |v.editable.methods| && k != i ==> r.editable.methods[k] == v.editable.methods[k])
            && r.editable.properties == v.editable.properties && r.editable.name == v.editable.name
  {
  }

  /** Edits in place never touch the node's id or kind, so a save hands the
      parent a node it can find by id. */
  lemma EditsKeepIdentity(v: NodeView, f: NodeField, i: nat, ps: seq<Parameter>)
    requires v.currentMethod.Some? ==> v.currentMethod.value < |v.editable.methods|
    ensures InputChange(v, f).editable.id == v.editable.id && InputChange(v, f).editable.kind == v.editable.kind
    ensures AddProperty(v).editable.id == v.editable.id && AddMethod(v).editable.id == v.editable.id
    ensures RemoveProperty(v, i).editable.id == v.editable.id && RemoveMethod(v, i).editable.id == v.editable.id
    ensures ParameterChange(v, ps).editable.id == v.editable.id
  {
  }
}
