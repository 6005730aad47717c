/** The TypeScript-flavoured renderer `CodeGenerator.generateTypeScriptCode`
    and its placeholder parser (src/services/codeGenerator.ts). It reads
    edges INTO a node: the sources of Implementation edges make up the
    `extends` clause and the sources of Inheritance edges the `implements`
    clause. */
module CodeGenerator {
  import opened Wrappers
  import opened Strings
  import Seqs
  import opened Types

  /** `nodes.find(n => n.id === id)?.name`: the name of the first node with
      that id, if any. */
  function FindName(nodes: seq<NodeData>, id: string): (r: Option<string>)
    ensures r.None? <==> forall k :: 0 <= k < |nodes| ==> nodes[k].id != id
    ensures r.Some? ==> exists k :: 0 <= k < |nodes| && nodes[k].id == id && nodes[k].name == r.value
                                   && forall j :: 0 <= j < k ==> nodes[j].id != id
    decreases |nodes|
  {
    if |nodes| == 0 then None
    else if nodes[0].id == id then Some(nodes[0].name)
    else
      var r := FindName(nodes[1..], id);
      assert r.Some? ==> exists k :: 1 <= k < |nodes| && nodes[k].id == id && nodes[k].name == r.value
                                    && forall j :: 0 <= j < k ==> nodes[j].id != id by {
        if r.Some? {
          var k :| 0 <= k < |nodes| - 1 && nodes[1..][k].id == id && nodes[1..][k].name == r.value
                   && forall j :: 0 <= j < k ==> nodes[1..][j].id != id;
          assert forall j :: 0 <= j < k + 1 ==> nodes[j].id != id by {
            forall j | 0 <= j < k + 1 ensures nodes[j].id != id {
              if j > 0 { assert nodes[j] == nodes[1..][j - 1]; }
            }
          }
        }
      }
      r
  }

  /** The clause entries for node `id` and connection tag `tag`: for
      each edge into `id` with that tag, in edge order, the name of its
      source node; `filter(Boolean)` drops unknown sources and empty names. */
  function IncomingNames(nodes: seq<NodeData>, edges: seq<Edge>, id: string, tag: string): (r: seq<string>)
    ensures |r| <= |edges|
    ensures forall k :: 0 <= k < |r| ==> r[k] != ""
    decreases |edges|
  {
    if |edges| == 0 then []
    else
      var e := edges[0];
      var rest := IncomingNames(nodes, edges[1..], id, tag);
      if e.target == id && e.connectionType == tag then
        match FindName(nodes, e.source)
        case Some(n) => if n != "" then [n] + rest else rest
        case None => rest
      else rest
  }

  /** Whether edge `e` contributes the entry `x` to node `id`'s `tag` clause. */
  predicate Contributes(nodes: seq<NodeData>, e: Edge, id: string, tag: string, x: string) {
    e.target == id && e.connectionType == tag && FindName(nodes, e.source) == Some(x) && x != ""
  }

  /** A name is in the clause iff some edge into the node with that tag
      comes from a node of that (non-empty) name. */
  lemma {:induction false} IncomingNamesMembership(nodes: seq<NodeData>, edges: seq<Edge>, id: string, tag: string, x: string)
    ensures x in IncomingNames(nodes, edges, id, tag) <==>
            exists e :: e in edges && Contributes(nodes, e, id, tag, x)
    decreases |edges|
  {
    if |edges| > 0 {
      var e0 := edges[0];
      var rest := IncomingNames(nodes, edges[1..], id, tag);
      IncomingNamesMembership(nodes, edges[1..], id, tag, x);
      assert edges == [e0] + edges[1..];
      if x in IncomingNames(nodes, edges, id, tag) {
        if x !in rest {
          assert Contributes(nodes, e0, id, tag, x);
        } else {
          var e :| e in edges[1..] && Contributes(nodes, e, id, tag, x);
          assert e in edges;
        }
      }
      if exists e :: e in edges && Contributes(nodes, e, id, tag, x) {
        var e :| e in edges && Contributes(nodes, e, id, tag, x);
        if e != e0 { assert e in edges[1..]; }
      }
    }
  }

  /** The clause of a concatenation of edge lists is the concatenation of
      the clauses: entries keep edge order. */
  lemma {:induction false} IncomingNamesAppend(nodes: seq<NodeData>, a: seq<Edge>, b: seq<Edge>, id: string, tag: string)
    ensures IncomingNames(nodes, a + b, id, tag) == IncomingNames(nodes, a, id, tag) + IncomingNames(nodes, b, id, tag)
    decreases |a|
  {
    if |a| == 0 {
      assert a + b == b;
    } else {
      assert (a + b)[0] == a[0];
      assert (a + b)[1..] == a[1..] + b;
      IncomingNamesAppend(nodes, a[1..], b, id, tag);
    }
  }

  /** `extends_`: sources of Implementation edges into the node. */
  function ExtendsNames(nodes: seq<NodeData>, edges: seq<Edge>, n: NodeData): seq<string> {
    IncomingNames(nodes, edges, n.id, Label(Implementation))
  }

  /** `implements_`: sources of Inheritance edges into the node. */
  function ImplementsNames(nodes: seq<NodeData>, edges: seq<Edge>, n: NodeData): seq<string> {
    IncomingNames(nodes, edges, n.id, Label(Inheritance))
  }

  /** `[ext, impl].filter(Boolean).join(' ')` over the two clauses. */
  function InheritanceText(ext: seq<string>, impl: seq<string>): string {
    var a := if |ext| > 0 then "extends " + Join(ext, ", ") else "";
    var b := if |impl| > 0 then "implements " + Join(impl, ", ") else "";
    Join(Seqs.Filter([a, b], NonEmpty), " ")
  }

  /** An empty clause is left out; with both present, `extends` comes first
      and one space separates them. */
  lemma InheritanceTextShape(ext: seq<string>, impl: seq<string>)
    ensures |ext| == 0 && |impl| == 0 ==> InheritanceText(ext, impl) == ""
    ensures |ext| > 0 && |impl| == 0 ==> InheritanceText(ext, impl) == "extends " + Join(ext, ", ")
    ensures |ext| == 0 && |impl| > 0 ==> InheritanceText(ext, impl) == "implements " + Join(impl, ", ")
    ensures |ext| > 0 && |impl| > 0 ==>
              InheritanceText(ext, impl) == ("extends " + Join(ext, ", ")) + " " + ("implements " + Join(impl, ", "))
  {
    var a: string := if |ext| > 0 then "extends " + Join(ext, ", ") else "";
    var b: string := if |impl| > 0 then "implements " + Join(impl, ", ") else "";
    assert |ext| > 0 ==> a[0] == 'e';
    assert |impl| > 0 ==> b[0] == 'i';
    JoinTruthyPair(a, b);
  }

  /** `[a, b].filter(Boolean).join(' ')` for two strings. */
  lemma JoinTruthyPair(a: string, b: string)
    ensures Join(Seqs.Filter([a, b], NonEmpty), " ") ==
            (if a != "" && b != "" then a + " " + b else if a != "" then a else b)
  {
    var ab: seq<string> := [a, b];
    var bb: seq<string> := [b];
    assert ab[1..] == bb;
    assert |bb[1..]| == 0;
    assert Seqs.Filter(bb, NonEmpty) == (if b != "" then bb else []);
    assert Seqs.Filter(ab, NonEmpty) == (if a != "" then [a] else []) + Seqs.Filter(bb, NonEmpty);
    if a != "" && b != "" {
      assert Seqs.Filter(ab, NonEmpty) == ab;
    }
  }

  /** `${p.visibility}${p.name}: ${p.type};` */
  function PropertyText(p: Property): string {
    VisibilityString(p.visibility) + p.name + ": " + p.typ + ";"
  }

  /** `${p.name}: ${p.type}` */
  function ParameterText(p: Parameter): string {
    p.name + ": " + p.typ
  }

  /** `${m.visibility}${m.name}(<parameters>): ${m.returnType}` */
  function MethodText(m: Method): string {
    VisibilityString(m.visibility) + m.name + "("
    + Join(seq(|m.parameters|, k requires 0 <= k < |m.parameters| => ParameterText(m.parameters[k])), ", ")
    + "): " + m.returnType
  }

  /** One node's block, starting with a line break. */
  function Block(nodes: seq<NodeData>, edges: seq<Edge>, n: NodeData): string {
    BlockLead(n) + BlockTail(nodes, edges, n)
  }

  /** `\n<kind lower-cased> <name> ` */
  function BlockLead(n: NodeData): string {
    "\n" + ToLower(KindTag(n.kind)) + " " + n.name + " "
  }

  /** Clauses, opening brace, member lines and closing brace. */
  function BlockTail(nodes: seq<NodeData>, edges: seq<Edge>, n: NodeData): string {
    InheritanceText(ExtendsNames(nodes, edges, n), ImplementsNames(nodes, edges, n)) + " {"
    + "\n    "
    + Join(seq(|n.properties|, k requires 0 <= k < |n.properties| => PropertyText(n.properties[k])), "\n    ")
    + "\n    \n    "
    + Join(seq(|n.methods|, k requires 0 <= k < |n.methods| => MethodText(n.methods[k])), "\n    ")
    + "\n}"
  }

  function Blocks(nodes: seq<NodeData>, edges: seq<Edge>): (r: seq<string>)
    ensures |r| == |nodes|
  {
    seq(|nodes|, k requires 0 <= k < |nodes| => Block(nodes, edges, nodes[k]))
  }

  /** `CodeGenerator.generateTypeScriptCode(nodes, edges)`. No nodes give
      no text; otherwise the text opens with a line break and the first
      node's lower-cased kind and name. */
  function GenerateTypeScriptCode(nodes: seq<NodeData>, edges: seq<Edge>): (r: string)
    ensures |nodes| == 0 ==> r == ""
    ensures |nodes| > 0 ==> StartsWith(r, "\n" + ToLower(KindTag(nodes[0].kind)) + " " + nodes[0].name + " ")
  {
    var bs := Blocks(nodes, edges);
    if |nodes| > 0 then
      JoinStartsWithHead(bs, "\n\n");
      StartsWithConcat(BlockLead(nodes[0]), BlockTail(nodes, edges, nodes[0]));
      StartsWithTrans(Join(bs, "\n\n"), bs[0], BlockLead(nodes[0]));
      Join(bs, "\n\n")
    else Join(bs, "\n\n")
  }

  /** The output is one block per node, in node order, joined by a blank
      line; each block starts with a line break followed by the node's
      lower-cased kind and name. */
  lemma GeneratedBlocks(nodes: seq<NodeData>, edges: seq<Edge>)
    ensures exists bs: seq<string> ::
              && |bs| == |nodes|
              && GenerateTypeScriptCode(nodes, edges) == Join(bs, "\n\n")
              && forall k :: 0 <= k < |bs| ==>
                   StartsWith(bs[k], "\n" + ToLower(KindTag(nodes[k].kind)) + " " + nodes[k].name + " ")
  {
    var bs := Blocks(nodes, edges);
    forall k | 0 <= k < |bs|
      ensures StartsWith(bs[k], "\n" + ToLower(KindTag(nodes[k].kind)) + " " + nodes[k].name + " ")
    {
      StartsWithConcat(BlockLead(nodes[k]), BlockTail(nodes, edges, nodes[k]));
    }
  }

  /** An edge no clause can pick up: its source is no node, its source's
      name is empty, or its kind is neither Implementation nor Inheritance. */
  predicate Ignored(nodes: seq<NodeData>, e: Edge) {
    || FindName(nodes, e.source).None?
    || FindName(nodes, e.source) == Some("")
    || (e.connectionType != Label(Implementation) && e.connectionType != Label(Inheritance))
  }

  /** Adding an ignored edge anywhere in the edge list leaves the generated
      text unchanged. */
  lemma IgnoredEdgeChangesNothing(nodes: seq<NodeData>, a: seq<Edge>, e: Edge, b: seq<Edge>)
    requires Ignored(nodes, e)
    ensures GenerateTypeScriptCode(nodes, a + [e] + b) == GenerateTypeScriptCode(nodes, a + b)
  {
    forall k | 0 <= k < |nodes|
      ensures Blocks(nodes, a + [e] + b)[k] == Blocks(nodes, a + b)[k]
    {
      IgnoredEdgeInvisible(nodes, a, e, b, nodes[k].id, Label(Implementation));
      IgnoredEdgeInvisible(nodes, a, e, b, nodes[k].id, Label(Inheritance));
    }
    assert Blocks(nodes, a + [e] + b) == Blocks(nodes, a + b);
  }

  /** An ignored edge adds no name to either clause's list. */
  lemma IgnoredEdgeInvisible(nodes: seq<NodeData>, a: seq<Edge>, e: Edge, b: seq<Edge>, id: string, tag: string)
    requires Ignored(nodes, e)
    requires tag == Label(Implementation) || tag == Label(Inheritance)
    ensures IncomingNames(nodes, a + [e] + b, id, tag) == IncomingNames(nodes, a + b, id, tag)
  {
    IncomingNamesAppend(nodes, a + [e], b, id, tag);
    IncomingNamesAppend(nodes, a, [e], id, tag);
    IncomingNamesAppend(nodes, a, b, id, tag);
    assert IncomingNames(nodes, [e], id, tag) == [];
  }

  /** `CodeGenerator.parseTypeScriptCode`: a placeholder that recovers
      nothing from any text. */
  function ParseTypeScriptCode(code: string): (r: seq<NodeData>)
    ensures |r| == 0
  {
    []
  }
}
