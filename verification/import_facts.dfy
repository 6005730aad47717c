/** What the Java-text importer (src/utils/codeToUml.ts) does with the
    text shapes it is written for: normal text passes normalisation
    unchanged, comments disappear whole, the member parsers read back the
    declarations a writer would produce, and the conversion yields one
    node per class and only edges that the classes declare. */
module ImportFacts {
  import opened Wrappers
  import opened Strings
  import opened Types
  import opened CodeToUml
  import Seqs

  // ---------------------------------------------------------------------
  // Normalisation

  /** Text free of slashes before a string passes the block-comment
      removal untouched. */
  lemma {:induction false} StripBlockCommentsPrefix(a: string, x: string)
    requires '/' !in a
    ensures StripBlockComments(a + x) == a + StripBlockComments(x)
    decreases |a|
  {
    if |a| > 0 {
      var s := a + x;
      assert s[0] == a[0] != '/';
      assert !StartsAt(s, 0, "/*");
      assert s[1..] == a[1..] + x;
      StripBlockCommentsPrefix(a[1..], x);
      assert a == [a[0]] + a[1..];
    } else {
      assert a + x == x;
    }
  }

  /** Text free of slashes before a string passes the line-comment
      removal untouched. */
  lemma {:induction false} StripLineCommentsPrefix(a: string, x: string)
    requires '/' !in a
    ensures StripLineComments(a + x) == a + StripLineComments(x)
    decreases |a|
  {
    if |a| > 0 {
      var s := a + x;
      assert s[0] == a[0] != '/';
      assert !StartsAt(s, 0, "//");
      assert s[1..] == a[1..] + x;
      StripLineCommentsPrefix(a[1..], x);
      assert a == [a[0]] + a[1..];
    } else {
      assert a + x == x;
    }
  }

  lemma {:induction false} CollapseSingleSpaced(s: string)
    requires SingleSpaced(s)
    ensures CollapseSpace(s) == s
    decreases |s|
  {
    if |s| > 0 {
      SliceSingleSpaced(s, 1, |s|);
      if IsSpace(s[0]) {
        RunEndAt(s, 1, IsSpace, 1);
        CollapseSingleSpaced(s[1..]);
        assert s == [s[0]] + s[1..];
      } else {
        CollapseSingleSpaced(s[1..]);
      }
    }
  }

  /** Text that is already single-spaced, trimmed and free of slashes
      comes out of normalisation unchanged. */
  lemma NormalizeKeepsNormalText(t: string)
    requires Normalized(t) && '/' !in t
    ensures Normalize(t) == t
  {
    StripBlockCommentsPrefix(t, "");
    StripLineCommentsPrefix(t, "");
    assert t + "" == t;
    CollapseSingleSpaced(t);
  }

  /** A block comment at the front goes whole. */
  lemma BlockCommentAtFront(body: string, rest: string)
    requires forall k :: 0 <= k < |body| ==> !StartsAt(body + "*/", k, "*/")
    ensures StripBlockComments("/*" + body + "*/" + rest) == StripBlockComments(rest)
  {
    var s := "/*" + body + "*/" + rest;
    assert StartsAt(s, 0, "/*");
    forall k | 2 <= k < |body| + 2 ensures !StartsAt(s, k, "*/") {
      assert !StartsAt(body + "*/", k - 2, "*/");
      if k + 2 <= |s| {
        assert s[k..k + 2] == (body + "*/")[k - 2..k];
      }
    }
    assert s[|body| + 2..|body| + 4] == "*/";
    CommentCloseFromFirst(s, 2, |body| + 2);
    assert s[|body| + 4..] == rest;
  }

  /** A block comment goes whole, with the text before it kept. */
  lemma BlockCommentRemoved(a: string, body: string, rest: string)
    requires '/' !in a
    requires forall k :: 0 <= k < |body| ==> !StartsAt(body + "*/", k, "*/")
    ensures StripBlockComments(a + "/*" + body + "*/" + rest) == a + StripBlockComments(rest)
  {
    assert a + "/*" + body + "*/" + rest == a + ("/*" + body + "*/" + rest);
    StripBlockCommentsPrefix(a, "/*" + body + "*/" + rest);
    BlockCommentAtFront(body, rest);
  }

  /** The first closer is where the search stops. */
  lemma {:induction false} CommentCloseFromFirst(s: string, i: nat, j: nat)
    requires i <= j && j + 2 <= |s|
    requires StartsAt(s, j, "*/")
    requires forall k :: i <= k < j ==> !StartsAt(s, k, "*/")
    ensures CommentCloseFrom(s, i) == Some(j)
    decreases j - i
  {
    if i < j {
      CommentCloseFromFirst(s, i + 1, j);
    }
  }

  /** A line comment at the front goes up to its line terminator. */
  lemma LineCommentAtFront(c: string, t: char, rest: string)
    requires forall k :: 0 <= k < |c| ==> !IsLineTerminator(c[k])
    requires IsLineTerminator(t)
    ensures StripLineComments("//" + c + [t] + rest) == [t] + StripLineComments(rest)
  {
    var s := "//" + c + [t] + rest;
    assert StartsAt(s, 0, "//");
    RunEndAt(s, 2, NotLineTerminator, |c| + 2);
    var u := s[|c| + 2..];
    assert u == [t] + rest;
    assert !StartsAt(u, 0, "//");
    assert u[1..] == rest;
  }

  /** A line comment goes up to its line terminator, which stays, with the
      text before it kept. */
  lemma LineCommentRemoved(a: string, c: string, t: char, rest: string)
    requires '/' !in a
    requires forall k :: 0 <= k < |c| ==> !IsLineTerminator(c[k])
    requires IsLineTerminator(t)
    ensures StripLineComments(a + "//" + c + [t] + rest) == a + [t] + StripLineComments(rest)
  {
    assert a + "//" + c + [t] + rest == a + ("//" + c + [t] + rest);
    StripLineCommentsPrefix(a, "//" + c + [t] + rest);
    LineCommentAtFront(c, t, rest);
  }

  // ---------------------------------------------------------------------
  // Visibility

  /** The enum's own strings read back as the values they name. */
  lemma ParseVisibilityRoundTrip(v: Visibility)
    ensures ParseVisibility(Some(VisibilityString(v))) == v
  {
    var w := VisibilityString(v);
    var l := ToLower(w);
    assert l == w by {
      forall k | 0 <= k < |w| ensures l[k] == w[k] {
        assert 'a' <= w[k] <= 'z';
      }
    }
  }

  lemma LowerCharIdempotent(c: char)
    ensures LowerChar(LowerChar(c)) == LowerChar(c)
  {
  }

  /** Reading a visibility ignores letter case. */
  lemma ParseVisibilityIgnoresCase(w: string)
    ensures ParseVisibility(Some(ToLower(w))) == ParseVisibility(Some(w))
  {
    var l := ToLower(w);
    assert ToLower(l) == l by {
      forall k | 0 <= k < |w| ensures ToLower(l)[k] == l[k] {
        LowerCharIdempotent(w[k]);
      }
    }
  }

  // ---------------------------------------------------------------------
  // Nodes and edges

  /** An edge comes out of the conversion iff one of the classes declares it. */
  lemma {:induction false} ConvertEdgesMembership(cs: seq<ParsedClass>, e: Edge)
    ensures e in ConvertEdges(cs) <==> exists k :: 0 <= k < |cs| && e in ClassEdges(cs[k])
    decreases |cs|
  {
    if |cs| > 0 {
      ConvertEdgesMembership(cs[1..], e);
      if exists k :: 0 <= k < |cs| && e in ClassEdges(cs[k]) {
        var k :| 0 <= k < |cs| && e in ClassEdges(cs[k]);
        if k > 0 {
          assert cs[1..][k - 1] == cs[k];
        }
      }
      if e in ConvertEdges(cs[1..]) {
        var k :| 0 <= k < |cs[1..]| && e in ClassEdges(cs[1..][k]);
        assert cs[k + 1] == cs[1..][k];
      }
    }
  }

  /** A class declares an inheritance edge to what it extends and an
      implementation edge to each name it implements, and nothing else. */
  lemma ClassEdgesMembership(c: ParsedClass, e: Edge)
    ensures e in ClassEdges(c) <==>
              || (c.ext.Some? && c.ext.value != "" && e == InheritanceEdge(c.name, c.ext.value))
              || (exists k :: 0 <= k < |c.impls| && e == ImplementationEdge(c.name, c.impls[k]))
  {
    var head: seq<Edge> := if c.ext.Some? && c.ext.value != "" then [InheritanceEdge(c.name, c.ext.value)] else [];
    var tail := seq(|c.impls|, k requires 0 <= k < |c.impls| => ImplementationEdge(c.name, c.impls[k]));
    assert ClassEdges(c) == head + tail;
    if exists k :: 0 <= k < |c.impls| && e == ImplementationEdge(c.name, c.impls[k]) {
      var k :| 0 <= k < |c.impls| && e == ImplementationEdge(c.name, c.impls[k]);
      assert tail[k] == e;
    }
  }

  /** Every converted edge leaves one of the converted nodes and carries
      one of the two lower-case kind words. */
  lemma ConvertedEdgesWellFormed(cs: seq<ParsedClass>, e: Edge)
    requires e in ConvertEdges(cs)
    ensures exists k :: 0 <= k < |cs| && ConvertNodes(cs)[k].id == e.source
    ensures e.connectionType == "inheritance" || e.connectionType == "implementation"
    ensures e.sourceHandle.None? && e.targetHandle.None?
  {
    ConvertEdgesMembership(cs, e);
    var k :| 0 <= k < |cs| && e in ClassEdges(cs[k]);
    ClassEdgesMembership(cs[k], e);
    assert ConvertNodes(cs)[k].id == cs[k].name;
  }
  // ---------------------------------------------------------------------
  // Class bodies

  /** The pieces of a body are read one by one and independently: the
      members read from two runs of pieces are those of the first run
      followed by those of the second. */
  lemma ParseDeclarationsAppend(a: seq<string>, b: seq<string>)
    ensures ParseDeclarations(a + b) ==
            (ParseDeclarations(a).0 + ParseDeclarations(b).0, ParseDeclarations(a).1 + ParseDeclarations(b).1)
  {
    Seqs.ConcatPairsAppend(a, b, DeclarationMembers);
  }

  /** A single piece yields what its reader makes of it: with an opening
      parenthesis at most a method, without one at most a property, and a
      piece its reader rejects adds nothing. */
  lemma ParseDeclarationsOne(d: string)
    ensures '(' in d ==>
              && ParseDeclarations([d]).0 == []
              && ParseDeclarations([d]).1 == (match ParseMethodDeclaration(d) case Some(m) => [m] case None => [])
    ensures '(' !in d ==>
              && ParseDeclarations([d]).1 == []
              && ParseDeclarations([d]).0 == (match ParsePropertyDeclaration(d) case Some(p) => [p] case None => [])
  {
    Seqs.ConcatPairsSingle(d, DeclarationMembers);
  }

  // ---------------------------------------------------------------------
  // The whole import

  /** What `parseJavaCode` returns: one node per class the scanner finds,
      in order, under its class name (a word), never of kind ENUM, on the
      diagonal; every edge leaves one of those nodes, carries one of the two
      lower-case kind words and names no handles. */
  lemma ParseJavaCodeShape(code: string)
    ensures var (nodes, edges) := ParseJavaCode(code);
            && |nodes| == |ScanClasses(Normalize(code), 0)|
            && (forall k :: 0 <= k < |nodes| ==>
                  && IsWord(nodes[k].id) && nodes[k].node.id == nodes[k].id && nodes[k].node.name == nodes[k].id
                  && nodes[k].node.kind != Enum
                  && nodes[k].position == Position(300 * k, 100 * k))
            && (forall e :: e in edges ==>
                  && (exists k :: 0 <= k < |nodes| && nodes[k].id == e.source)
                  && (e.connectionType == "inheritance" || e.connectionType == "implementation")
                  && e.sourceHandle.None? && e.targetHandle.None?)
  {
    ConvertedShape(ParsedClasses(code));
  }

  /** The nodes and edges made from classes with word names, none of kind
      ENUM. */
  lemma ConvertedShape(cs: seq<ParsedClass>)
    requires forall k :: 0 <= k < |cs| ==> IsWord(cs[k].name) && cs[k].kind != Enum
    ensures var nodes := ConvertNodes(cs);
            && (forall k :: 0 <= k < |nodes| ==>
                  && IsWord(nodes[k].id) && nodes[k].node.id == nodes[k].id && nodes[k].node.name == nodes[k].id
                  && nodes[k].node.kind != Enum
                  && nodes[k].position == Position(300 * k, 100 * k))
            && (forall e :: e in ConvertEdges(cs) ==>
                  && (exists k :: 0 <= k < |nodes| && nodes[k].id == e.source)
                  && (e.connectionType == "inheritance" || e.connectionType == "implementation")
                  && e.sourceHandle.None? && e.targetHandle.None?)
  {
    var nodes := ConvertNodes(cs);
    forall e | e in ConvertEdges(cs)
      ensures && (exists k :: 0 <= k < |nodes| && nodes[k].id == e.source)
              && (e.connectionType == "inheritance" || e.connectionType == "implementation")
              && e.sourceHandle.None? && e.targetHandle.None?
    {
      ConvertedEdgesWellFormed(cs, e);
    }
  }
}
