/** The parameter popover (src/components/codeflow/ParameterEditor.tsx): it
    copies the method's parameter list, lets the user append, delete and
    edit entries, and hands the list back on save. */
module ParameterEditor {
  import opened Types
  import Seqs

  /** The two fields of a parameter row. */
  datatype ParameterField = NameField | TypeField

  /** The popover starts with the list it was given. */
  function Open(ps: seq<Parameter>): (r: seq<Parameter>)
    ensures |r| == |ps| && forall k :: 0 <= k < |ps| ==> r[k] == ps[k]
  {
    ps
  }

  /** The parameter holds `value` in `field`. */
  predicate FieldHolds(p: Parameter, field: ParameterField, value: string) {
    match field
    case NameField => p.name == value
    case TypeField => p.typ == value
  }

  /** `handleParameterChange(index, field, value)`: entry `i` takes the value
      in that field and keeps the other; every other entry is untouched. */
  function ChangeParameter(ps: seq<Parameter>, i: nat, field: ParameterField, value: string): (r: seq<Parameter>)
    requires i < |ps|
    ensures |r| == |ps|
    ensures FieldHolds(r[i], field, value)
    ensures field.NameField? ==> r[i].typ == ps[i].typ
    ensures field.TypeField? ==> r[i].name == ps[i].name
    ensures forall k :: 0 <= k < |ps| && k != i ==> r[k] == ps[k]
  {
    var p := ps[i];
    Seqs.UpdateAt(ps, i, match field
                         case NameField => p.(name := value)
                         case TypeField => p.(typ := value))
  }

  /** Writing what an entry already holds changes nothing; of two writes to
      one field the later wins; writes to the two fields commute. */
  lemma ChangeParameterLaws(ps: seq<Parameter>, i: nat, f: ParameterField, g: ParameterField, a: string, b: string)
    requires i < |ps|
    ensures FieldHolds(ps[i], f, a) ==> ChangeParameter(ps, i, f, a) == ps
    ensures f == g ==> ChangeParameter(ChangeParameter(ps, i, f, a), i, g, b) == ChangeParameter(ps, i, g, b)
    ensures f != g ==> ChangeParameter(ChangeParameter(ps, i, f, a), i, g, b) == ChangeParameter(ChangeParameter(ps, i, g, b), i, f, a)
  {
    if FieldHolds(ps[i], f, a) {
      assert ChangeParameter(ps, i, f, a)[i] == ps[i];
    }
  }

  /** The entry the add button appends. */
  const BlankParameter: Parameter := Parameter("", "")

  /** `handleAddParameter`: appends a blank entry. */
  function AddParameter(ps: seq<Parameter>): (r: seq<Parameter>)
    ensures |r| == |ps| + 1
    ensures r[..|ps|] == ps && r[|ps|] == BlankParameter
  {
    ps + [BlankParameter]
  }

  /** `handleDeleteParameter(index)`: removes entry `i`, keeping the others
      in order; an index past the end removes nothing. */
  function DeleteParameter(ps: seq<Parameter>, i: nat): (r: seq<Parameter>)
    ensures i < |ps| ==> |r| == |ps| - 1
    ensures i < |ps| ==> forall k :: 0 <= k < |r| ==> r[k] == (if k < i then ps[k] else ps[k + 1])
    ensures i < |ps| ==> multiset(r) + multiset{ps[i]} == multiset(ps)
    ensures i >= |ps| ==> r == ps
  {
    Seqs.RemoveAt(ps, i)
  }

  /** Deleting the entry just added gives back the list. */
  lemma DeleteAdded(ps: seq<Parameter>)
    ensures DeleteParameter(AddParameter(ps), |ps|) == ps
  {
    var r := AddParameter(ps);
    assert r[..|ps|] + r[|ps| + 1..] == ps;
  }

  /** `handleSave`: the list handed to `onChange`. */
  function Save(ps: seq<Parameter>): (r: seq<Parameter>)
    ensures |r| == |ps| && forall k :: 0 <= k < |ps| ==> r[k] == ps[k]
  {
    ps
  }

  /** Saving without edits hands back the list the popover was opened
      with. */
  lemma SaveUnedited(ps: seq<Parameter>)
    ensures Save(Open(ps)) == ps
  {
  }
}
