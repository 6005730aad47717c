/** The member-list edits both node editors perform on their working copy
    of a `NodeData` (src/components/codeflow/UmlNode.tsx and
    src/components/codeflow/NodeEditDialog.tsx): replace one top-level
    field, change one field of the property or method at an index, append
    a member, delete the member at an index. The components copy the list,
    mutate one slot and store the copy; here each edit is a pure update. */
module MemberEdits {
  import opened Wrappers
  import opened Types
  import Seqs

  // ---------------------------------------------------------------------
  // Top-level fields

  /** The three fields `handleInputChange(field, value)` is called with. */
  datatype NodeField = Name(name: string) | Properties(properties: seq<Property>) | Methods(methods: seq<Method>)

  /** Whether `f` names the same field as `g`. */
  predicate SameField(f: NodeField, g: NodeField) {
    (f.Name? && g.Name?) || (f.Properties? && g.Properties?) || (f.Methods? && g.Methods?)
  }

  /** The node holds `f`'s value in `f`'s field. */
  predicate HasField(n: NodeData, f: NodeField) {
    match f
    case Name(s) => n.name == s
    case Properties(ps) => n.properties == ps
    case Methods(ms) => n.methods == ms
  }

  /** `{ ...prev, [field]: value }`: the field takes the value and every
      other field of the node keeps its own. */
  function SetField(n: NodeData, f: NodeField): (r: NodeData)
    ensures HasField(r, f)
    ensures r.id == n.id && r.kind == n.kind
    ensures r.extendsList == n.extendsList && r.implementsList == n.implementsList
    ensures !f.Name? ==> r.name == n.name
    ensures !f.Properties? ==> r.properties == n.properties
    ensures !f.Methods? ==> r.methods == n.methods
  {
    match f
    case Name(s) => n.(name := s)
    case Properties(ps) => n.(properties := ps)
    case Methods(ms) => n.(methods := ms)
  }

  /** Writing a field the node already holds changes nothing; of two writes
      to one field the later wins; writes to different fields commute. */
  lemma SetFieldLaws(n: NodeData, f: NodeField, g: NodeField)
    ensures HasField(n, f) ==> SetField(n, f) == n
    ensures SameField(f, g) ==> SetField(SetField(n, f), g) == SetField(n, g)
    ensures !SameField(f, g) ==> SetField(SetField(n, f), g) == SetField(SetField(n, g), f)
  {
  }

  // ---------------------------------------------------------------------
  // Property edits

  /** The edits a property row offers: the visibility menu, the static and
      final boxes, and the name, type and initial-value inputs. */
  datatype PropertyEdit =
    | PropertyVisibility(visibility: Visibility)
    | PropertyStatic(isStatic: bool)
    | PropertyFinal(isFinal: bool)
    | PropertyName(name: string)
    | PropertyType(typ: string)
    | PropertyInitialValue(initialValue: string)

  /** Two edits aim at the same property field. */
  predicate SamePropertyField(e: PropertyEdit, d: PropertyEdit) {
    || (e.PropertyVisibility? && d.PropertyVisibility?)
    || (e.PropertyStatic? && d.PropertyStatic?)
    || (e.PropertyFinal? && d.PropertyFinal?)
    || (e.PropertyName? && d.PropertyName?)
    || (e.PropertyType? && d.PropertyType?)
    || (e.PropertyInitialValue? && d.PropertyInitialValue?)
  }

  /** The property already holds what `e` would write. */
  predicate PropertyHolds(p: Property, e: PropertyEdit) {
    match e
    case PropertyVisibility(v) => p.visibility == v
    case PropertyStatic(b) => p.isStatic == b
    case PropertyFinal(b) => p.isFinal == b
    case PropertyName(s) => p.name == s
    case PropertyType(s) => p.typ == s
    case PropertyInitialValue(s) => p.initialValue == Some(s)
  }

  /** `p` and `q` agree on every field `e` does not write. */
  predicate PropertyAgreesBesides(p: Property, q: Property, e: PropertyEdit) {
    && (e.PropertyVisibility? || p.visibility == q.visibility)
    && (e.PropertyStatic? || p.isStatic == q.isStatic)
    && (e.PropertyFinal? || p.isFinal == q.isFinal)
    && (e.PropertyName? || p.name == q.name)
    && (e.PropertyType? || p.typ == q.typ)
    && (e.PropertyInitialValue? || p.initialValue == q.initialValue)
  }

  /** `copy[index].<field> = value` on one property. */
  function ApplyPropertyEdit(p: Property, e: PropertyEdit): (r: Property)
    ensures PropertyHolds(r, e)
    ensures PropertyAgreesBesides(p, r, e)
  {
    match e
    case PropertyVisibility(v) => p.(visibility := v)
    case PropertyStatic(b) => p.(isStatic := b)
    case PropertyFinal(b) => p.(isFinal := b)
    case PropertyName(s) => p.(name := s)
    case PropertyType(s) => p.(typ := s)
    case PropertyInitialValue(s) => p.(initialValue := Some(s))
  }

  /** An edit that writes what is there changes nothing; of two edits to one
      field the later wins; edits to different fields commute. */
  lemma PropertyEditLaws(p: Property, e: PropertyEdit, d: PropertyEdit)
    ensures PropertyHolds(p, e) ==> ApplyPropertyEdit(p, e) == p
    ensures SamePropertyField(e, d) ==> ApplyPropertyEdit(ApplyPropertyEdit(p, e), d) == ApplyPropertyEdit(p, d)
    ensures !SamePropertyField(e, d) ==>
              ApplyPropertyEdit(ApplyPropertyEdit(p, e), d) == ApplyPropertyEdit(ApplyPropertyEdit(p, d), e)
  {
  }

  /** The property at `i` takes the edit; every other property, and every
      other field of the node, stays as it was. */
  function EditProperty(n: NodeData, i: nat, e: PropertyEdit): (r: NodeData)
    requires i < |n.properties|
    ensures r == n.(properties := r.properties)
    ensures |r.properties| == |n.properties|
    ensures PropertyHolds(r.properties[i], e) && PropertyAgreesBesides(n.properties[i], r.properties[i], e)
    ensures forall k :: 0 <= k < |n.properties| && k != i ==> r.properties[k] == n.properties[k]
  {
    n.(properties := Seqs.UpdateAt(n.properties, i, ApplyPropertyEdit(n.properties[i], e)))
  }

  /** `[...properties, p]`. */
  function AppendProperty(n: NodeData, p: Property): (r: NodeData)
    ensures r == n.(properties := r.properties)
    ensures |r.properties| == |n.properties| + 1
    ensures r.properties[..|n.properties|] == n.properties && r.properties[|n.properties|] == p
  {
    n.(properties := n.properties + [p])
  }

  /** `copy.splice(index, 1)` on the property list. */
  function DeleteProperty(n: NodeData, i: nat): (r: NodeData)
    ensures r == n.(properties := r.properties)
    ensures i < |n.properties| ==> |r.properties| == |n.properties| - 1
    ensures i < |n.properties| ==> forall k :: 0 <= k < |r.properties| ==>
              r.properties[k] == (if k < i then n.properties[k] else n.properties[k + 1])
    ensures i >= |n.properties| ==> r == n
  {
    n.(properties := Seqs.RemoveAt(n.properties, i))
  }

  /** Deleting the property just appended gives back the node. */
  lemma DeleteAppendedProperty(n: NodeData, p: Property)
    ensures DeleteProperty(AppendProperty(n, p), |n.properties|) == n
  {
    var ps := AppendProperty(n, p).properties;
    assert ps[..|n.properties|] + ps[|n.properties| + 1..] == n.properties;
  }

  // ---------------------------------------------------------------------
  // Method edits

  /** The edits a method row offers: the visibility menu, the static and
      final boxes, the name and return-type inputs, the parameter editor and
      the code editor. */
  datatype MethodEdit =
    | MethodVisibility(visibility: Visibility)
    | MethodStatic(isStatic: bool)
    | MethodFinal(isFinal: bool)
    | MethodName(name: string)
    | MethodReturnType(returnType: string)
    | MethodParameters(parameters: seq<Parameter>)
    | MethodCode(insideCode: Option<string>)

  /** Two edits aim at the same method field. */
  predicate SameMethodField(e: MethodEdit, d: MethodEdit) {
    || (e.MethodVisibility? && d.MethodVisibility?)
    || (e.MethodStatic? && d.MethodStatic?)
    || (e.MethodFinal? && d.MethodFinal?)
    || (e.MethodName? && d.MethodName?)
    || (e.MethodReturnType? && d.MethodReturnType?)
    || (e.MethodParameters? && d.MethodParameters?)
    || (e.MethodCode? && d.MethodCode?)
  }

  /** The method already holds what `e` would write. */
  predicate MethodHolds(m: Method, e: MethodEdit) {
    match e
    case MethodVisibility(v) => m.visibility == v
    case MethodStatic(b) => m.isStatic == b
    case MethodFinal(b) => m.isFinal == b
    case MethodName(s) => m.name == s
    case MethodReturnType(s) => m.returnType == s
    case MethodParameters(ps) => m.parameters == ps
    case MethodCode(c) => m.insideCode == c
  }

  /** `m` and `q` agree on every field `e` does not write. */
  predicate MethodAgreesBesides(m: Method, q: Method, e: MethodEdit) {
    && (e.MethodVisibility? || m.visibility == q.visibility)
    && (e.MethodStatic? || m.isStatic == q.isStatic)
    && (e.MethodFinal? || m.isFinal == q.isFinal)
    && (e.MethodName? || m.name == q.name)
    && (e.MethodReturnType? || m.returnType == q.returnType)
    && (e.MethodParameters? || m.parameters == q.parameters)
    && (e.MethodCode? || m.insideCode == q.insideCode)
  }

  /** `copy[index].<field> = value` on one method. */
  function ApplyMethodEdit(m: Method, e: MethodEdit): (r: Method)
    ensures MethodHolds(r, e)
    ensures MethodAgreesBesides(m, r, e)
  {
    match e
    case MethodVisibility(v) => m.(visibility := v)
    case MethodStatic(b) => m.(isStatic := b)
    case MethodFinal(b) => m.(isFinal := b)
    case MethodName(s) => m.(name := s)
    case MethodReturnType(s) => m.(returnType := s)
    case MethodParameters(ps) => m.(parameters := ps)
    case MethodCode(c) => m.(insideCode := c)
  }

  /** An edit that writes what is there changes nothing; of two edits to one
      field the later wins; edits to different fields commute. */
  lemma MethodEditLaws(m: Method, e: MethodEdit, d: MethodEdit)
    ensures MethodHolds(m, e) ==> ApplyMethodEdit(m, e) == m
    ensures SameMethodField(e, d) ==> ApplyMethodEdit(ApplyMethodEdit(m, e), d) == ApplyMethodEdit(m, d)
    ensures !SameMethodField(e, d) ==>
              ApplyMethodEdit(ApplyMethodEdit(m, e), d) == ApplyMethodEdit(ApplyMethodEdit(m, d), e)
  {
  }

  /** The method at `i` takes the edit; every other method, and every other
      field of the node, stays as it was. */
  function EditMethod(n: NodeData, i: nat, e: MethodEdit): (r: NodeData)
    requires i < |n.methods|
    ensures r == n.(methods := r.methods)
    ensures |r.methods| == |n.methods|
    ensures MethodHolds(r.methods[i], e) && MethodAgreesBesides(n.methods[i], r.methods[i], e)
    ensures forall k :: 0 <= k < |n.methods| && k != i ==> r.methods[k] == n.methods[k]
  {
    n.(methods := Seqs.UpdateAt(n.methods, i, ApplyMethodEdit(n.methods[i], e)))
  }

  /** `[...methods, m]`. */
  function AppendMethod(n: NodeData, m: Method): (r: NodeData)
    ensures r == n.(methods := r.methods)
    ensures |r.methods| == |n.methods| + 1
    ensures r.methods[..|n.methods|] == n.methods && r.methods[|n.methods|] == m
  {
    n.(methods := n.methods + [m])
  }

  /** `copy.splice(index, 1)` on the method list. */
  function DeleteMethod(n: NodeData, i: nat): (r: NodeData)
    ensures r == n.(methods := r.methods)
    ensures i < |n.methods| ==> |r.methods| == |n.methods| - 1
    ensures i < |n.methods| ==> forall k :: 0 <= k < |r.methods| ==>
              r.methods[k] == (if k < i then n.methods[k] else n.methods[k + 1])
    ensures i >= |n.methods| ==> r == n
  {
    n.(methods := Seqs.RemoveAt(n.methods, i))
  }

  /** Deleting the method just appended gives back the node. */
  lemma DeleteAppendedMethod(n: NodeData, m: Method)
    ensures DeleteMethod(AppendMethod(n, m), |n.methods|) == n
  {
    var ms := AppendMethod(n, m).methods;
    assert ms[..|n.methods|] + ms[|n.methods| + 1..] == n.methods;
  }
}
