/** The canvas component (src/components/codeflow/CodeFlow.tsx): the
    Compile renderer wired to the editor, the pending-connection state
    machine (connect, validity gate, select, cancel), payload replacement
    by id, and the add/duplicate seeds. Ids that the component draws from
    `nanoid` are parameters here. */
module CodeFlow {
  import opened Wrappers
  import opened Strings
  import opened Types

  // ---------------------------------------------------------------------
  // Node lookup

  /** `nodes.findIndex(n => n.id === id)`, searching from index `i`. */
  function FindIndexFrom(nodes: seq<FlowNode>, id: string, i: nat): (r: Option<nat>)
    requires i <= |nodes|
    ensures r.Some? ==> i <= r.value < |nodes| && nodes[r.value].id == id
                        && forall j :: i <= j < r.value ==> nodes[j].id != id
    ensures r.None? ==> forall j :: i <= j < |nodes| ==> nodes[j].id != id
    decreases |nodes| - i
  {
    if i == |nodes| then None
    else if nodes[i].id == id then Some(i)
    else FindIndexFrom(nodes, id, i + 1)
  }

  /** The index of the first canvas node with that id. */
  function FindIndex(nodes: seq<FlowNode>, id: string): (r: Option<nat>)
    ensures r.Some? ==> r.value < |nodes| && nodes[r.value].id == id
                        && forall j :: 0 <= j < r.value ==> nodes[j].id != id
    ensures r.None? <==> forall j :: 0 <= j < |nodes| ==> nodes[j].id != id
  {
    FindIndexFrom(nodes, id, 0)
  }

  predicate HasNode(nodes: seq<FlowNode>, id: string) {
    exists j :: 0 <= j < |nodes| && nodes[j].id == id
  }

  // ---------------------------------------------------------------------
  // compileUmlToCode

  /** `nodes.find(n => n.id === id)?.data.node.name` as `join` prints it:
      an unknown node prints as the empty string. */
  function TargetEntry(nodes: seq<FlowNode>, id: string): (r: string)
    ensures !HasNode(nodes, id) ==> r == ""
    ensures HasNode(nodes, id) ==> exists j :: 0 <= j < |nodes| && nodes[j].id == id && r == nodes[j].node.name
  {
    match FindIndex(nodes, id)
    case Some(j) => nodes[j].node.name
    case None => ""
  }

  /** For each edge leaving `id` with connection string `tag`, in edge
      order, the entry for its target. */
  function OutgoingEntries(nodes: seq<FlowNode>, edges: seq<Edge>, id: string, tag: string): (r: seq<string>)
    ensures |r| <= |edges|
    decreases |edges|
  {
    if |edges| == 0 then []
    else
      var rest := OutgoingEntries(nodes, edges[1..], id, tag);
      if edges[0].source == id && edges[0].connectionType == tag
      then [TargetEntry(nodes, edges[0].target)] + rest
      else rest
  }

  /** An entry is in the list iff some edge leaving `id` with that
      connection string points at a target whose entry it is. */
  lemma {:induction false} OutgoingEntriesMembership(nodes: seq<FlowNode>, edges: seq<Edge>, id: string, tag: string, x: string)
    ensures x in OutgoingEntries(nodes, edges, id, tag) <==>
            exists e :: e in edges && e.source == id && e.connectionType == tag && TargetEntry(nodes, e.target) == x
    decreases |edges|
  {
    if |edges| > 0 {
      OutgoingEntriesMembership(nodes, edges[1..], id, tag, x);
      assert edges == [edges[0]] + edges[1..];
      var rest := OutgoingEntries(nodes, edges[1..], id, tag);
      if x in OutgoingEntries(nodes, edges, id, tag) && x !in rest {
        assert edges[0] in edges;
      }
      if exists e :: e in edges && e.source == id && e.connectionType == tag && TargetEntry(nodes, e.target) == x {
        var e :| e in edges && e.source == id && e.connectionType == tag && TargetEntry(nodes, e.target) == x;
        if e != edges[0] { assert e in edges[1..]; }
      }
    }
  }

  /** `extendsName`: targets of Inheritance edges leaving the node. */
  function CompileExtends(nodes: seq<FlowNode>, edges: seq<Edge>, n: FlowNode): seq<string> {
    OutgoingEntries(nodes, edges, n.id, Label(Inheritance))
  }

  /** `implementsName`: targets of Implementation edges leaving the node. */
  function CompileImplements(nodes: seq<FlowNode>, edges: seq<Edge>, n: FlowNode): seq<string> {
    OutgoingEntries(nodes, edges, n.id, Label(Implementation))
  }

  /** `joined ? keyword + joined : ''` with the entries joined by ", ". */
  function Clause(keyword: string, entries: seq<string>): string {
    var joined := Join(entries, ", ");
    if joined != "" then keyword + joined else ""
  }

  /** ` ${static ? 'static ' : ' '}${visibility} ${type} ${name};\n` */
  function CompilePropertyLine(p: Property): string {
    " " + (if p.isStatic then "static " else " ") + VisibilityString(p.visibility)
    + " " + p.typ + " " + p.name + ";\n"
  }

  /** `${type} ${name}` */
  function CompileParameter(p: Parameter): string {
    p.typ + " " + p.name
  }

  /** The signature line and the empty body of a method. */
  function CompileMethodLines(m: Method): string {
    "  " + VisibilityString(m.visibility) + " " + m.returnType + " " + m.name + "("
    + Join(seq(|m.parameters|, k requires 0 <= k < |m.parameters| => CompileParameter(m.parameters[k])), ", ")
    + " ){\n" + "  }\n"
  }

  /** `class <name> ` — the same keyword whatever the node's kind. */
  function CompileLead(n: FlowNode): string {
    "class " + n.node.name + " "
  }

  function CompileTail(nodes: seq<FlowNode>, edges: seq<Edge>, n: FlowNode): string {
    Clause("extends ", CompileExtends(nodes, edges, n)) + " "
    + Clause("implements ", CompileImplements(nodes, edges, n)) + " {\n"
    + Concat(seq(|n.node.properties|, k requires 0 <= k < |n.node.properties| => CompilePropertyLine(n.node.properties[k])))
    + "\n"
    + Concat(seq(|n.node.methods|, k requires 0 <= k < |n.node.methods| => CompileMethodLines(n.node.methods[k])))
    + "}\n"
  }

  function CompileBlock(nodes: seq<FlowNode>, edges: seq<Edge>, n: FlowNode): string {
    CompileLead(n) + CompileTail(nodes, edges, n)
  }

  function CompileBlocks(nodes: seq<FlowNode>, edges: seq<Edge>): (r: seq<string>)
    ensures |r| == |nodes|
  {
    seq(|nodes|, k requires 0 <= k < |nodes| => CompileBlock(nodes, edges, nodes[k]))
  }

  /** `compileUmlToCode()`: the text put into the editor. An empty canvas
      compiles to nothing; otherwise the text opens with the first node's
      `class` line, whatever that node's kind. */
  function CompileUmlToCode(nodes: seq<FlowNode>, edges: seq<Edge>): (r: string)
    ensures |nodes| == 0 ==> r == ""
    ensures |nodes| > 0 ==> StartsWith(r, "class " + nodes[0].node.name + " ")
  {
    var bs := CompileBlocks(nodes, edges);
    if |nodes| > 0 then
      JoinStartsWithHead(bs, "");
      StartsWithConcat(CompileLead(nodes[0]), CompileTail(nodes, edges, nodes[0]));
      StartsWithTrans(Concat(bs), bs[0], "class " + nodes[0].node.name + " ");
      Concat(bs)
    else Concat(bs)
  }

  predicate EndsWith(s: string, suffix: string) {
    |suffix| <= |s| && s[|s| - |suffix|..] == suffix
  }

  /** One block per node, concatenated in node order; every block opens
      with `class <name> ` whatever the node's kind, and closes with `}`
      and a line break. */
  lemma CompiledBlocks(nodes: seq<FlowNode>, edges: seq<Edge>)
    ensures exists bs: seq<string> ::
              && |bs| == |nodes|
              && CompileUmlToCode(nodes, edges) == Concat(bs)
              && forall k :: 0 <= k < |bs| ==>
                   StartsWith(bs[k], "class " + nodes[k].node.name + " ") && EndsWith(bs[k], "}\n")
  {
    var bs := CompileBlocks(nodes, edges);
    forall k | 0 <= k < |bs|
      ensures StartsWith(bs[k], "class " + nodes[k].node.name + " ") && EndsWith(bs[k], "}\n")
    {
      var n := nodes[k];
      StartsWithConcat(CompileLead(n), CompileTail(nodes, edges, n));
      var t := CompileTail(nodes, edges, n);
      assert t[|t| - 2..] == "}\n";
      assert bs[k][|bs[k]| - 2..] == t[|t| - 2..];
    }
  }

  // ---------------------------------------------------------------------
  // What the Compile output reads

  /** The parts of a property the Compile renderer reads. */
  datatype PropertyView = PropertyView(isStatic: bool, visibility: Visibility, typ: string, name: string)

  /** The parts of a method the Compile renderer reads. */
  datatype MethodView = MethodView(visibility: Visibility, returnType: string, name: string, parameters: seq<Parameter>)

  function ViewProperty(p: Property): PropertyView {
    PropertyView(p.isStatic, p.visibility, p.typ, p.name)
  }

  function ViewMethod(m: Method): MethodView {
    MethodView(m.visibility, m.returnType, m.name, m.parameters)
  }

  /** Two canvases Compile cannot tell apart: same node ids and names, and
      members that agree on everything but `isFinal`, `initialValue` and
      `insideCode`; kinds and positions may differ. */
  predicate SameCompileView(a: seq<FlowNode>, b: seq<FlowNode>) {
    && |a| == |b|
    && (forall k :: 0 <= k < |a| ==> a[k].id == b[k].id && a[k].node.name == b[k].node.name)
    && (forall k :: 0 <= k < |a| ==>
          && |a[k].node.properties| == |b[k].node.properties|
          && forall j :: 0 <= j < |a[k].node.properties| ==>
               ViewProperty(a[k].node.properties[j]) == ViewProperty(b[k].node.properties[j]))
    && (forall k :: 0 <= k < |a| ==>
          && |a[k].node.methods| == |b[k].node.methods|
          && forall j :: 0 <= j < |a[k].node.methods| ==>
               ViewMethod(a[k].node.methods[j]) == ViewMethod(b[k].node.methods[j]))
  }

  lemma {:induction false} TargetEntrySameView(a: seq<FlowNode>, b: seq<FlowNode>, id: string, i: nat)
    requires SameCompileView(a, b)
    requires i <= |a|
    ensures FindIndexFrom(a, id, i) == FindIndexFrom(b, id, i)
    decreases |a| - i
  {
    if i < |a| {
      TargetEntrySameView(a, b, id, i + 1);
    }
  }

  lemma {:induction false} OutgoingSameView(a: seq<FlowNode>, b: seq<FlowNode>, edges: seq<Edge>, id: string, tag: string)
    requires SameCompileView(a, b)
    ensures OutgoingEntries(a, edges, id, tag) == OutgoingEntries(b, edges, id, tag)
    decreases |edges|
  {
    if |edges| > 0 {
      OutgoingSameView(a, b, edges[1..], id, tag);
      TargetEntrySameView(a, b, edges[0].target, 0);
    }
  }

  /** Compile ignores node kinds, positions, `isFinal`, `initialValue`
      and `insideCode`: canvases that agree on the rest compile alike. */
  lemma CompileIgnoresUnreadFields(a: seq<FlowNode>, b: seq<FlowNode>, edges: seq<Edge>)
    requires SameCompileView(a, b)
    ensures CompileUmlToCode(a, edges) == CompileUmlToCode(b, edges)
  {
    forall k | 0 <= k < |a| ensures CompileBlock(a, edges, a[k]) == CompileBlock(b, edges, b[k]) {
      var n, m := a[k], b[k];
      OutgoingSameView(a, b, edges, n.id, Label(Inheritance));
      OutgoingSameView(a, b, edges, n.id, Label(Implementation));
      var ps := seq(|n.node.properties|, j requires 0 <= j < |n.node.properties| => CompilePropertyLine(n.node.properties[j]));
      var qs := seq(|m.node.properties|, j requires 0 <= j < |m.node.properties| => CompilePropertyLine(m.node.properties[j]));
      assert ps == qs by {
        forall j | 0 <= j < |ps| ensures ps[j] == qs[j] {
          assert ViewProperty(n.node.properties[j]) == ViewProperty(m.node.properties[j]);
        }
      }
      var ms := seq(|n.node.methods|, j requires 0 <= j < |n.node.methods| => CompileMethodLines(n.node.methods[j]));
      var ns := seq(|m.node.methods|, j requires 0 <= j < |m.node.methods| => CompileMethodLines(m.node.methods[j]));
      assert ms == ns by {
        forall j | 0 <= j < |ms| ensures ms[j] == ns[j] {
          assert ViewMethod(n.node.methods[j]) == ViewMethod(m.node.methods[j]);
        }
      }
    }
    assert CompileBlocks(a, edges) == CompileBlocks(b, edges);
  }

  // ---------------------------------------------------------------------
  // Pending-connection state machine

  /** A connection as the canvas reports it: endpoints and handles may be null. */
  datatype Connection = Connection(
    source: Option<string>,
    target: Option<string>,
    sourceHandle: Option<string>,
    targetHandle: Option<string>)

  /** A connection waiting for its kind; both endpoints were found. */
  datatype PendingConnection = PendingConnection(
    source: string,
    target: string,
    sourceHandle: Option<string>,
    targetHandle: Option<string>)

  /** The component state the connection flow and node edits touch. */
  datatype Canvas = Canvas(nodes: seq<FlowNode>, edges: seq<Edge>, pending: Option<PendingConnection>)

  /** `h?.startsWith(prefix)` is truthy. */
  predicate HandleStartsWith(h: Option<string>, prefix: string) {
    h.Some? && StartsWith(h.value, prefix)
  }

  /** A drag from a top source handle or to a bottom target handle. */
  predicate Reversed(c: Connection) {
    HandleStartsWith(c.sourceHandle, "top") || HandleStartsWith(c.targetHandle, "bottom")
  }

  predicate EndpointsExist(nodes: seq<FlowNode>, c: Connection) {
    c.source.Some? && c.target.Some? && FindIndex(nodes, c.source.value).Some? && FindIndex(nodes, c.target.value).Some?
  }

  /** `onConnect(params)`: with both endpoints on the canvas, the connection
      becomes pending, its endpoints swapped when it was drawn the wrong
      way round and its handles kept as drawn; otherwise nothing changes. */
  function OnConnect(cv: Canvas, c: Connection): (r: Canvas)
    ensures r.nodes == cv.nodes && r.edges == cv.edges
    ensures !EndpointsExist(cv.nodes, c) ==> r == cv
    ensures EndpointsExist(cv.nodes, c) ==>
              && r.pending.Some?
              && r.pending.value.sourceHandle == c.sourceHandle
              && r.pending.value.targetHandle == c.targetHandle
              && multiset{r.pending.value.source, r.pending.value.target} == multiset{c.source.value, c.target.value}
              && (r.pending.value.source == c.source.value || r.pending.value.source == c.target.value)
              && (Reversed(c) ==> r.pending.value.source == c.target.value && r.pending.value.target == c.source.value)
              && (!Reversed(c) ==> r.pending.value.source == c.source.value && r.pending.value.target == c.target.value)
  {
    if EndpointsExist(cv.nodes, c) then
      if Reversed(c) then
        cv.(pending := Some(PendingConnection(c.target.value, c.source.value, c.sourceHandle, c.targetHandle)))
      else
        cv.(pending := Some(PendingConnection(c.source.value, c.target.value, c.sourceHandle, c.targetHandle)))
    else cv
  }

  /** `isValidConnection(connection)`. */
  function IsValidConnection(c: Connection): (r: bool)
    ensures r ==> c.source != c.target && !Reversed(c)
    ensures c.source != c.target && !Reversed(c) ==> r
  {
    && c.source != c.target
    && !HandleStartsWith(c.sourceHandle, "top")
    && !HandleStartsWith(c.targetHandle, "bottom")
  }

  /** The gate admits exactly the connections that are not self-loops and
      that `onConnect` would not reverse. */
  lemma ValidIffNotSelfLoopNorReversed(c: Connection)
    ensures IsValidConnection(c) <==> c.source != c.target && !Reversed(c)
  {
  }

  /** `handleConnectionTypeSelect(type)`: with a pending connection, append
      one edge of that kind under a fresh id and clear the pending state;
      without one, do nothing. */
  function Select(cv: Canvas, t: ConnectionType, freshId: string): (r: Canvas)
    ensures r.nodes == cv.nodes
    ensures r.pending.None?
    ensures cv.pending.None? ==> r == cv
    ensures cv.pending.Some? ==>
              && |r.edges| == |cv.edges| + 1
              && r.edges[..|cv.edges|] == cv.edges
              && r.edges[|cv.edges|] == Edge(freshId, cv.pending.value.source, cv.pending.value.target,
                                              cv.pending.value.sourceHandle, cv.pending.value.targetHandle, Label(t))
  {
    match cv.pending
    case Some(p) =>
      Canvas(cv.nodes, cv.edges + [Edge(freshId, p.source, p.target, p.sourceHandle, p.targetHandle, Label(t))], None)
    case None => cv
  }

  /** `handleConnectionCancel()`: clears the pending state and nothing else. */
  function Cancel(cv: Canvas): (r: Canvas)
    ensures r.nodes == cv.nodes && r.edges == cv.edges && r.pending.None?
  {
    cv.(pending := None)
  }

  // ---------------------------------------------------------------------
  // Node edits

  /** `handleNodeChange(newData)`: the first canvas node whose id is the
      payload's id gets the new payload; no match leaves the list as is. */
  function NodeChange(nodes: seq<FlowNode>, newData: NodeData): (r: seq<FlowNode>)
    ensures |r| == |nodes|
    ensures !HasNode(nodes, newData.id) ==> r == nodes
    ensures HasNode(nodes, newData.id) ==>
              exists i :: 0 <= i < |nodes| && nodes[i].id == newData.id
                          && (forall j :: 0 <= j < i ==> nodes[j].id != newData.id)
                          && r[i] == nodes[i].(node := newData)
                          && forall j :: 0 <= j < |nodes| && j != i ==> r[j] == nodes[j]
    ensures forall j :: 0 <= j < |nodes| ==> r[j].id == nodes[j].id && r[j].position == nodes[j].position
  {
    match FindIndex(nodes, newData.id)
    case Some(i) => nodes[i := nodes[i].(node := newData)]
    case None => nodes
  }

  /** The entity a fresh node starts with: `MyClass` with one private
      `id: string` property and one public `getId(): string` method. */
  function SeedNode(id: string, kind: NodeKind): NodeData {
    NodeData(id, "MyClass", kind,
             [Property("id", "string", Private, false, false, None)],
             [Method("getId", "string", [], Public, false, false, None)],
             None, None)
  }

  /** `addNode(type)`: appends a seeded node under a fresh id at a given
      position (the component picks it at random). */
  function AddNode(nodes: seq<FlowNode>, kind: NodeKind, freshId: string, at: Position): (r: seq<FlowNode>)
    ensures |r| == |nodes| + 1 && r[..|nodes|] == nodes
    ensures r[|nodes|].id == freshId && r[|nodes|].node.id == freshId && r[|nodes|].node.kind == kind
    ensures r[|nodes|].position == at && r[|nodes|].node.name == "MyClass"
    ensures r[|nodes|].node.properties == [Property("id", "string", Private, false, false, None)]
    ensures r[|nodes|].node.methods == [Method("getId", "string", [], Public, false, false, None)]
  {
    nodes + [FlowNode(freshId, at, SeedNode(freshId, kind))]
  }

  /** `duplicateNode()`: with a node selected, appends a copy under a fresh
      id, named `<name>_copy`, offset by 50 in both directions; with none,
      nothing changes. */
  function DuplicateNode(nodes: seq<FlowNode>, selected: Option<FlowNode>, freshId: string): (r: seq<FlowNode>)
    ensures selected.None? ==> r == nodes
    ensures selected.Some? ==>
              && |r| == |nodes| + 1 && r[..|nodes|] == nodes
              && r[|nodes|].id == freshId && r[|nodes|].node.id == freshId
              && r[|nodes|].node.name == selected.value.node.name + "_copy"
              && r[|nodes|].node.properties == selected.value.node.properties
              && r[|nodes|].node.methods == selected.value.node.methods
              && r[|nodes|].node.kind == selected.value.node.kind
              && r[|nodes|].position == Position(selected.value.position.x + 50, selected.value.position.y + 50)
  {
    match selected
    case None => nodes
    case Some(s) =>
      var src := s.node;
      nodes + [FlowNode(freshId, Position(s.position.x + 50, s.position.y + 50),
                        src.(id := freshId, name := src.name + "_copy"))]
  }

  // ---------------------------------------------------------------------
  // Canvas invariant

  /** Every edge and the pending connection join nodes on the canvas. */
  predicate Connected(cv: Canvas) {
    && (forall k :: 0 <= k < |cv.edges| ==> HasNode(cv.nodes, cv.edges[k].source) && HasNode(cv.nodes, cv.edges[k].target))
    && (cv.pending.Some? ==> HasNode(cv.nodes, cv.pending.value.source) && HasNode(cv.nodes, cv.pending.value.target))
  }

  /** Connecting, selecting, cancelling, replacing a payload, adding and
      duplicating nodes never leave an edge or a pending connection
      dangling. */
  lemma ConnectedPreserved(cv: Canvas, c: Connection, t: ConnectionType, freshId: string,
                           newData: NodeData, kind: NodeKind, at: Position, selected: Option<FlowNode>)
    requires Connected(cv)
    ensures Connected(OnConnect(cv, c))
    ensures Connected(Select(cv, t, freshId))
    ensures Connected(Cancel(cv))
    ensures Connected(cv.(nodes := NodeChange(cv.nodes, newData)))
    ensures Connected(cv.(nodes := AddNode(cv.nodes, kind, freshId, at)))
    ensures Connected(cv.(nodes := DuplicateNode(cv.nodes, selected, freshId)))
  {
    ConnectKeepsConnected(cv, c);
    SelectKeepsConnected(cv, t, freshId);
    var ns := NodeChange(cv.nodes, newData);
    assert forall j :: 0 <= j < |cv.nodes| ==> ns[j].id == cv.nodes[j].id;
    GrowingKeepsConnected(cv, ns);
    var na := AddNode(cv.nodes, kind, freshId, at);
    assert forall j :: 0 <= j < |cv.nodes| ==> na[j].id == cv.nodes[j].id;
    GrowingKeepsConnected(cv, na);
    var nd := DuplicateNode(cv.nodes, selected, freshId);
    assert forall j :: 0 <= j < |cv.nodes| ==> nd[j].id == cv.nodes[j].id;
    GrowingKeepsConnected(cv, nd);
  }

  /** A pending connection made by `onConnect` joins nodes on the canvas. */
  lemma ConnectKeepsConnected(cv: Canvas, c: Connection)
    requires Connected(cv)
    ensures Connected(OnConnect(cv, c))
  {
    if EndpointsExist(cv.nodes, c) {
      assert HasNode(cv.nodes, c.source.value) && HasNode(cv.nodes, c.target.value);
    }
  }

  /** The edge `Select` appends joins the pending connection's nodes. */
  lemma SelectKeepsConnected(cv: Canvas, t: ConnectionType, freshId: string)
    requires Connected(cv)
    ensures Connected(Select(cv, t, freshId))
  {
    var s := Select(cv, t, freshId);
    forall k | 0 <= k < |s.edges| ensures HasNode(s.nodes, s.edges[k].source) && HasNode(s.nodes, s.edges[k].target) {
      if k < |cv.edges| {
        assert s.edges[k] == cv.edges[k];
      }
    }
  }

  /** Node lists that keep every id at its index keep the canvas connected. */
  lemma GrowingKeepsConnected(cv: Canvas, ns: seq<FlowNode>)
    requires Connected(cv)
    requires |cv.nodes| <= |ns| && forall j :: 0 <= j < |cv.nodes| ==> ns[j].id == cv.nodes[j].id
    ensures Connected(cv.(nodes := ns))
  {
    forall id | HasNode(cv.nodes, id) ensures HasNode(ns, id) {
      var j :| 0 <= j < |cv.nodes| && cv.nodes[j].id == id;
      assert ns[j].id == id;
    }
  }
}
