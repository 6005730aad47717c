/** The menu that asks for a new connection's kind
    (src/components/codeflow/ConnectionTypeSelector.tsx): it lists the five
    kinds, reports the one picked, and cancels on any mouse press whose
    target's text is not one of the kind labels. */
module ConnectionTypeSelector {
  import opened Wrappers
  import opened Types

  /** What the menu reports to its owner. */
  datatype Report = Cancelled | Chosen(kind: ConnectionType)

  /** The menu's open flag and what a handler reported, if anything. */
  datatype Reaction = Reaction(isOpen: bool, report: Option<Report>)

  /** The labels of the menu items, in the order they are listed. */
  function MenuItems(): (r: seq<string>)
    ensures |r| == |AllConnectionTypes|
    ensures forall k :: 0 <= k < |r| ==> r[k] == Label(AllConnectionTypes[k])
  {
    seq(|AllConnectionTypes|, k requires 0 <= k < |AllConnectionTypes| => Label(AllConnectionTypes[k]))
  }

  /** The mouse-down handler leaves the menu alone iff the pressed element's
      text is truthy and equal to some kind's label. */
  predicate Keeps(text: Option<string>) {
    text.Some? && text.value != "" && LabelToConnectionType(text.value).Some?
  }

  /** `handleClickOutside(event)`: a press whose text is not a kind label
      closes the menu and cancels; any other press changes nothing. */
  function ClickOutside(isOpen: bool, text: Option<string>): (r: Reaction)
    ensures Keeps(text) ==> r == Reaction(isOpen, None)
    ensures !Keeps(text) ==> r == Reaction(false, Some(Cancelled))
  {
    if Keeps(text) then Reaction(isOpen, None) else Reaction(false, Some(Cancelled))
  }

  /** `handleSelect(type)`: closes the menu and reports that kind. */
  function HandleSelect(t: ConnectionType): (r: Reaction)
    ensures !r.isOpen && r.report == Some(Chosen(t))
  {
    Reaction(false, Some(Chosen(t)))
  }

  /** A press is kept exactly when its text is one of the five labels; the
      text of a missing or empty element always cancels. */
  lemma KeepsIffLabel(text: Option<string>)
    ensures Keeps(text) <==> exists c: ConnectionType :: text == Some(Label(c))
    ensures text.None? || text == Some("") ==> !Keeps(text)
  {
    if Keeps(text) {
      var c := LabelToConnectionType(text.value).value;
      assert text == Some(Label(c));
    }
    if exists c: ConnectionType :: text == Some(Label(c)) {
      var c: ConnectionType :| text == Some(Label(c));
      ConnectionTypeTables();
      assert LabelToConnectionType(Label(c)) == Some(c);
    }
  }

  /** The menu lists the five kinds in declaration order, one item each,
      and pressing any item never cancels. */
  lemma MenuLists()
    ensures MenuItems() == ["Inheritance", "Implementation", "Composition", "Aggregation", "Dependency"]
    ensures forall k :: 0 <= k < |MenuItems()| ==> ClickOutside(true, Some(MenuItems()[k])) == Reaction(true, None)
  {
    forall k | 0 <= k < |MenuItems()| ensures ClickOutside(true, Some(MenuItems()[k])) == Reaction(true, None) {
      KeepsIffLabel(Some(MenuItems()[k]));
    }
  }
}
