/** How the pieces fit together across files: the handles a node renders
    never trigger the canvas's swap rule, edges made by the Java importer
    carry kind words that neither renderer reads, the two renderers read one
    edge in opposite directions, the kind menu drives the canvas's pending
    connection, and the parameter popover hands back what it was given. */
module EditorFacts {
  import opened Wrappers
  import opened Strings
  import opened Types
  import opened CodeFlow
  import CodeGenerator
  import CodeToUml
  import ImportFacts
  import UmlNode
  import MemberEdits
  import ParameterEditor
  import ConnectionTypeSelector

  // ---------------------------------------------------------------------
  // Handles and the swap rule

  /** A connection end as a node reports it: no handle, or one of the ids
      the node renders. */
  predicate NodeHandle(h: Option<string>) {
    h.None? || h.value in UmlNode.HandleIds()
  }

  /** No rendered handle id starts with `top` or `bottom`. */
  lemma HandleIdPrefixes(id: string)
    requires id in UmlNode.HandleIds()
    ensures !StartsWith(id, "top") && !StartsWith(id, "bottom")
  {
    UmlNode.HandleIdsDistinct();
    var k :| 0 <= k < |UmlNode.HandleIds()| && UmlNode.HandleIds()[k] == id;
    assert StartsWith(id, "source-") || StartsWith(id, "target-");
    assert id[0] == 's' || (id[0] == 't' && id[1] == 'a');
  }

  /** Between handles the node renders, nothing is ever swapped: the gate
      only refuses self-loops, and a connection becomes pending the way it
      was drawn. */
  lemma NodeHandlesNeverSwap(cv: Canvas, c: Connection)
    requires NodeHandle(c.sourceHandle) && NodeHandle(c.targetHandle)
    ensures !Reversed(c)
    ensures IsValidConnection(c) <==> c.source != c.target
    ensures EndpointsExist(cv.nodes, c) ==>
              OnConnect(cv, c).pending == Some(PendingConnection(c.source.value, c.target.value, c.sourceHandle, c.targetHandle))
  {
    if c.sourceHandle.Some? {
      HandleIdPrefixes(c.sourceHandle.value);
    }
    if c.targetHandle.Some? {
      HandleIdPrefixes(c.targetHandle.value);
    }
  }

  // ---------------------------------------------------------------------
  // Imported edges and the renderers

  /** An edge whose kind string is none of the five labels. */
  predicate Unlabelled(e: Edge) {
    LabelToConnectionType(e.connectionType).None?
  }

  /** The importer's edges carry `inheritance` or `implementation`, which
      are not labels: letter case differs. */
  lemma ImportedEdgesUnlabelled(cs: seq<CodeToUml.ParsedClass>, e: Edge)
    requires e in CodeToUml.ConvertEdges(cs)
    ensures Unlabelled(e)
  {
    ImportFacts.ConvertedEdgesWellFormed(cs, e);
  }

  /** Edges of another kind string add nothing to an outgoing-entry list. */
  lemma {:induction false} OutgoingSkips(nodes: seq<FlowNode>, es: seq<Edge>, rest: seq<Edge>, id: string, tag: string)
    requires forall k :: 0 <= k < |es| ==> es[k].connectionType != tag
    ensures OutgoingEntries(nodes, es + rest, id, tag) == OutgoingEntries(nodes, rest, id, tag)
    decreases |es|
  {
    if |es| > 0 {
      assert (es + rest)[0] == es[0];
      assert (es + rest)[1..] == es[1..] + rest;
      OutgoingSkips(nodes, es[1..], rest, id, tag);
    } else {
      assert es + rest == rest;
    }
  }

  /** Edges of another kind string add nothing to an incoming-name list. */
  lemma {:induction false} IncomingSkips(nodes: seq<NodeData>, es: seq<Edge>, rest: seq<Edge>, id: string, tag: string)
    requires forall k :: 0 <= k < |es| ==> es[k].connectionType != tag
    ensures CodeGenerator.IncomingNames(nodes, es + rest, id, tag) == CodeGenerator.IncomingNames(nodes, rest, id, tag)
    decreases |es|
  {
    if |es| > 0 {
      assert (es + rest)[0] == es[0];
      assert (es + rest)[1..] == es[1..] + rest;
      IncomingSkips(nodes, es[1..], rest, id, tag);
    } else {
      assert es + rest == rest;
    }
  }

  /** Unlabelled edges in front of any edge list change neither rendering. */
  lemma UnlabelledEdgesInvisible(nodes: seq<FlowNode>, datas: seq<NodeData>, es: seq<Edge>, rest: seq<Edge>)
    requires forall k :: 0 <= k < |es| ==> Unlabelled(es[k])
    ensures CompileUmlToCode(nodes, es + rest) == CompileUmlToCode(nodes, rest)
    ensures CodeGenerator.GenerateTypeScriptCode(datas, es + rest) == CodeGenerator.GenerateTypeScriptCode(datas, rest)
  {
    ConnectionTypeTables();
    forall k | 0 <= k < |es|
      ensures es[k].connectionType != Label(Inheritance) && es[k].connectionType != Label(Implementation)
    {
      assert Unlabelled(es[k]);
    }
    forall n | n in nodes
      ensures CompileBlock(nodes, es + rest, n) == CompileBlock(nodes, rest, n)
    {
      OutgoingSkips(nodes, es, rest, n.id, Label(Inheritance));
      OutgoingSkips(nodes, es, rest, n.id, Label(Implementation));
    }
    assert CompileBlocks(nodes, es + rest) == CompileBlocks(nodes, rest);
    forall n | n in datas
      ensures CodeGenerator.Block(datas, es + rest, n) == CodeGenerator.Block(datas, rest, n)
    {
      IncomingSkips(datas, es, rest, n.id, Label(Inheritance));
      IncomingSkips(datas, es, rest, n.id, Label(Implementation));
    }
    assert CodeGenerator.Blocks(datas, es + rest) == CodeGenerator.Blocks(datas, rest);
  }

  /** The payloads of canvas nodes, as the generator takes them. */
  function Payloads(nodes: seq<FlowNode>): (r: seq<NodeData>)
    ensures |r| == |nodes| && forall k :: 0 <= k < |nodes| ==> r[k] == nodes[k].node
  {
    seq(|nodes|, k requires 0 <= k < |nodes| => nodes[k].node)
  }

  /** A diagram read from Java text renders, with either renderer, as if
      its edges were not there: no imported `extends` or `implements`
      reaches the output, whatever edges the user draws later. */
  lemma ImportedDiagramRendersWithoutClauses(code: string, drawn: seq<Edge>)
    ensures var (nodes, edges) := CodeToUml.ParseJavaCode(code);
            && CompileUmlToCode(nodes, edges + drawn) == CompileUmlToCode(nodes, drawn)
            && CodeGenerator.GenerateTypeScriptCode(Payloads(nodes), edges + drawn)
               == CodeGenerator.GenerateTypeScriptCode(Payloads(nodes), drawn)
  {
    var cs := CodeToUml.ParsedClasses(code);
    var edges := CodeToUml.ConvertEdges(cs);
    forall k | 0 <= k < |edges| ensures Unlabelled(edges[k]) {
      ImportedEdgesUnlabelled(cs, edges[k]);
    }
    UnlabelledEdgesInvisible(CodeToUml.ConvertNodes(cs), Payloads(CodeToUml.ConvertNodes(cs)), edges, drawn);
  }

  // ---------------------------------------------------------------------
  // The two renderers read an edge in opposite directions

  /** An Inheritance edge from `s` to `t`: the Compile button lists `t`'s
      name after `extends` in `s`'s block, while the generator lists `s`'s
      name after `implements` in `t`'s block. An Implementation edge is read
      the other way round on both counts. */
  lemma RenderersReadEdgesOppositely(nodes: seq<FlowNode>, edges: seq<Edge>, e: Edge, s: FlowNode, t: FlowNode)
    requires e in edges && s.id == e.source && t.id == e.target
    requires CodeGenerator.FindName(Payloads(nodes), e.source) == Some(s.node.name) && s.node.name != ""
    ensures e.connectionType == Label(Inheritance) ==>
              && TargetEntry(nodes, e.target) in CompileExtends(nodes, edges, s)
              && s.node.name in CodeGenerator.ImplementsNames(Payloads(nodes), edges, t.node.(id := t.id))
    ensures e.connectionType == Label(Implementation) ==>
              && TargetEntry(nodes, e.target) in CompileImplements(nodes, edges, s)
              && s.node.name in CodeGenerator.ExtendsNames(Payloads(nodes), edges, t.node.(id := t.id))
  {
    var x := TargetEntry(nodes, e.target);
    OutgoingEntriesMembership(nodes, edges, s.id, e.connectionType, x);
    CodeGenerator.IncomingNamesMembership(Payloads(nodes), edges, t.id, e.connectionType, s.node.name);
    assert CodeGenerator.Contributes(Payloads(nodes), e, t.id, e.connectionType, s.node.name);
  }

  // ---------------------------------------------------------------------
  // The kind menu drives the pending connection

  /** The canvas's handlers for what the menu reports: `onSelect` is
      `handleConnectionTypeSelect`, `onCancel` is `handleConnectionCancel`.
      Nodes never change; any report clears the pending connection; one
      edge of the chosen kind is appended exactly when a kind is chosen
      while a connection is pending, and no edge otherwise. */
  function Dispatch(cv: Canvas, report: Option<ConnectionTypeSelector.Report>, freshId: string): (r: Canvas)
    ensures r.nodes == cv.nodes
    ensures report.None? ==> r == cv
    ensures report.Some? ==> r.pending.None?
    ensures report.Some? && report.value.Chosen? && cv.pending.Some? ==>
              && |r.edges| == |cv.edges| + 1
              && r.edges[..|cv.edges|] == cv.edges
              && r.edges[|cv.edges|] == Edge(freshId, cv.pending.value.source, cv.pending.value.target,
                                              cv.pending.value.sourceHandle, cv.pending.value.targetHandle,
                                              Label(report.value.kind))
    ensures !(report.Some? && report.value.Chosen? && cv.pending.Some?) ==> r.edges == cv.edges
  {
    if report.None? then cv
    else if report.value.Cancelled? then Cancel(cv)
    else Select(cv, report.value.kind, freshId)
  }

  /** Picking a kind from the menu: the press on the item does not cancel,
      the selection appends one edge of that kind under the fresh id, and
      the pending connection is gone. */
  lemma PickingAKindAddsOneEdge(cv: Canvas, t: ConnectionType, freshId: string)
    requires cv.pending.Some?
    ensures var press := ConnectionTypeSelector.ClickOutside(true, Some(Label(t)));
            var after := Dispatch(Dispatch(cv, press.report, freshId), ConnectionTypeSelector.HandleSelect(t).report, freshId);
            && press.isOpen
            && after.nodes == cv.nodes && after.pending.None?
            && after.edges == cv.edges + [Edge(freshId, cv.pending.value.source, cv.pending.value.target,
                                               cv.pending.value.sourceHandle, cv.pending.value.targetHandle, Label(t))]
  {
    ConnectionTypeSelector.KeepsIffLabel(Some(Label(t)));
  }

  /** A press anywhere but on a kind label drops the pending connection and
      adds no edge. */
  lemma PressingElsewhereCancels(cv: Canvas, text: Option<string>, freshId: string)
    requires forall c: ConnectionType :: text != Some(Label(c))
    ensures var press := ConnectionTypeSelector.ClickOutside(true, text);
            && !press.isOpen
            && Dispatch(cv, press.report, freshId) == cv.(pending := None)
  {
    ConnectionTypeSelector.KeepsIffLabel(text);
  }

  // ---------------------------------------------------------------------
  // The parameter popover

  /** Opening the popover on method `i` of a node and saving it unedited
      leaves the node's edit copy as it was, and closes the popover. */
  lemma UneditedParametersChangeNothing(v: UmlNode.NodeView, i: nat)
    requires i < |v.editable.methods|
    ensures var popover := UmlNode.OpenParameters(v, i);
            var ps := ParameterEditor.Save(ParameterEditor.Open(v.editable.methods[i].parameters));
            var r := UmlNode.ParameterChange(popover, ps);
            && r.editable == v.editable && !r.modalOpen && r.currentMethod.None?
  {
    var m := v.editable.methods[i];
    var e := MemberEdits.MethodParameters(m.parameters);
    MemberEdits.MethodEditLaws(m, e, e);
    assert MemberEdits.ApplyMethodEdit(m, e) == m;
    assert v.editable.methods[i := m] == v.editable.methods;
  }
}
