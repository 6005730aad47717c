/** The class-diagram entity records and their closed enumerations
    (src/types/nodeData.ts), plus the two graph shapes of the canvas
    library the diagram lives on: a positioned node wrapping a `NodeData`
    payload, and an edge whose connection kind is an untyped string. */
module Types {
  import opened Wrappers
  import Strings

  // ---------------------------------------------------------------------
  // Visibility

  datatype Visibility = Public | Private | Protected

  /** `Object.values(Visibility)`, in declaration order. */
  const AllVisibilities: seq<Visibility> := [Public, Private, Protected]

  /** The enum's string value. */
  function VisibilityString(v: Visibility): string {
    match v
    case Public => "public"
    case Private => "private"
    case Protected => "protected"
  }

  /** `visibilitySymbols[v]`. */
  function VisibilitySymbol(v: Visibility): string {
    match v
    case Public => "+"
    case Private => "-"
    case Protected => "#"
  }

  /** The enum has exactly three values, rendered as three different
      strings, and its symbol table is total and one-to-one. */
  lemma VisibilityTables()
    ensures |AllVisibilities| == 3
    ensures forall v: Visibility :: v in AllVisibilities
    ensures forall v: Visibility, w: Visibility :: VisibilityString(v) == VisibilityString(w) ==> v == w
    ensures forall v: Visibility, w: Visibility :: VisibilitySymbol(v) == VisibilitySymbol(w) ==> v == w
    ensures forall v: Visibility :: |VisibilitySymbol(v)| == 1
  {
    forall v: Visibility ensures v in AllVisibilities {
      match v
      case Public => assert AllVisibilities[0] == v;
      case Private => assert AllVisibilities[1] == v;
      case Protected => assert AllVisibilities[2] == v;
    }
  }

  // ---------------------------------------------------------------------
  // Node kind

  datatype NodeKind = Class | Interface | Enum

  /** `Object.values(NodeType)`, in declaration order. */
  const AllNodeKinds: seq<NodeKind> := [Class, Interface, Enum]

  /** The enum's string value. */
  function KindTag(k: NodeKind): string {
    match k
    case Class => "CLASS"
    case Interface => "INTERFACE"
    case Enum => "ENUM"
  }

  /** Lower-casing a kind's tag gives the language keyword. */
  lemma KindTagLowered(k: NodeKind)
    ensures Strings.ToLower(KindTag(k)) == (match k
                                           case Class => "class"
                                           case Interface => "interface"
                                           case Enum => "enum")
  {
    var t := KindTag(k);
    var l := Strings.ToLower(t);
    match k
    case Class =>
      assert l[0] == 'c' && l[1] == 'l' && l[2] == 'a' && l[3] == 's' && l[4] == 's';
    case Interface =>
      assert l[0] == 'i' && l[1] == 'n' && l[2] == 't' && l[3] == 'e' && l[4] == 'r';
      assert l[5] == 'f' && l[6] == 'a' && l[7] == 'c' && l[8] == 'e';
    case Enum =>
      assert l[0] == 'e' && l[1] == 'n' && l[2] == 'u' && l[3] == 'm';
  }

  // ---------------------------------------------------------------------
  // Connection type

  datatype ConnectionType = Inheritance | Implementation | Composition | Aggregation | Dependency

  /** `Object.values(ConnectionType)`, in declaration order. */
  const AllConnectionTypes: seq<ConnectionType> :=
    [Inheritance, Implementation, Composition, Aggregation, Dependency]

  /** The enum's string value, as stored in an edge's `connectionType`. */
  function Label(c: ConnectionType): string {
    match c
    case Inheritance => "Inheritance"
    case Implementation => "Implementation"
    case Composition => "Composition"
    case Aggregation => "Aggregation"
    case Dependency => "Dependency"
  }

  /** The type whose label equals `s`, as `Object.values(ConnectionType).find(t => t === s)`. */
  function LabelToConnectionType(s: string): (r: Option<ConnectionType>)
    ensures r.Some? ==> Label(r.value) == s
    ensures r.None? ==> forall c: ConnectionType :: Label(c) != s
  {
    if s == "Inheritance" then Some(Inheritance)
    else if s == "Implementation" then Some(Implementation)
    else if s == "Composition" then Some(Composition)
    else if s == "Aggregation" then Some(Aggregation)
    else if s == "Dependency" then Some(Dependency)
    else None
  }

  /** Five kinds, each listed once, with pairwise distinct labels that the
      label lookup reads back. */
  lemma ConnectionTypeTables()
    ensures |AllConnectionTypes| == 5
    ensures forall c: ConnectionType :: c in AllConnectionTypes
    ensures forall i, j :: 0 <= i < j < 5 ==> AllConnectionTypes[i] != AllConnectionTypes[j]
    ensures forall c: ConnectionType, d: ConnectionType :: Label(c) == Label(d) ==> c == d
    ensures forall c: ConnectionType :: LabelToConnectionType(Label(c)) == Some(c)
  {
    forall c: ConnectionType ensures c in AllConnectionTypes {
      match c
      case Inheritance => assert AllConnectionTypes[0] == c;
      case Implementation => assert AllConnectionTypes[1] == c;
      case Composition => assert AllConnectionTypes[2] == c;
      case Aggregation => assert AllConnectionTypes[3] == c;
      case Dependency => assert AllConnectionTypes[4] == c;
    }
  }

  // ---------------------------------------------------------------------
  // Entity records

  datatype Parameter = Parameter(name: string, typ: string)

  datatype Property = Property(
    name: string,
    typ: string,
    visibility: Visibility,
    isStatic: bool,
    isFinal: bool,
    initialValue: Option<string>)

  datatype Method = Method(
    name: string,
    returnType: string,
    parameters: seq<Parameter>,
    visibility: Visibility,
    isStatic: bool,
    isFinal: bool,
    insideCode: Option<string>)

  /** A diagram entity. Its layout position lives on the canvas node. */
  datatype NodeData = NodeData(
    id: string,
    name: string,
    kind: NodeKind,
    properties: seq<Property>,
    methods: seq<Method>,
    extendsList: Option<seq<string>>,
    implementsList: Option<seq<string>>)

  // ---------------------------------------------------------------------
  // Canvas shapes

  datatype Position = Position(x: int, y: int)

  /** A canvas node: its own id, its position, and the entity it shows. */
  datatype FlowNode = FlowNode(id: string, position: Position, node: NodeData)

  /** A canvas edge. `connectionType` is the string stored in the edge's
      data; the editor stores a `Label`, the parser a lower-case word. */
  datatype Edge = Edge(
    id: string,
    source: string,
    target: string,
    sourceHandle: Option<string>,
    targetHandle: Option<string>,
    connectionType: string)
}
