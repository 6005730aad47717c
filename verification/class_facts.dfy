/** The class scanner of the Java-text importer (src/utils/codeToUml.ts,
    lines 13-59) reads back the declarations written in the shape its
    pattern expects: each capture and the end of each match are the ones
    written, a sequence of declarations comes back in order, the body
    splits into the declarations it was joined from, and the implements
    text into the names it lists. */
module ClassFacts {
  import opened Wrappers
  import opened Strings
  import opened Types
  import opened CodeToUml
  import DeclarationFacts
  import Seqs

  /** A class or interface declaration as written. */
  datatype ClassText = ClassText(
    isInterface: bool,
    name: string,
    ext: Option<string>,
    impl: Option<string>,
    body: string)

  function KeywordText(isInterface: bool): string {
    if isInterface then "interface" else "class"
  }

  function ExtendsText(ext: Option<string>): string {
    match ext
    case Some(e) => " extends " + e
    case None => ""
  }

  function ImplementsText(impl: Option<string>): string {
    match impl
    case Some(t) => " implements " + t + " "
    case None => " "
  }

  /** `<keyword> <name>[ extends <word>][ implements <list>] {<body>}`. */
  function ClassDeclaration(c: ClassText): string {
    KeywordText(c.isInterface) + " " + c.name + ExtendsText(c.ext) + ImplementsText(c.impl)
    + "{" + c.body + "}"
  }

  /** A run of words, commas and blanks that starts with a non-blank. */
  predicate ImplementsList(t: string) {
    |t| > 0 && !IsSpace(t[0]) && forall k :: 0 <= k < |t| ==> IsImplementsChar(t[k])
  }

  predicate WellWritten(c: ClassText) {
    && IsWord(c.name)
    && (c.ext.Some? ==> IsWord(c.ext.value))
    && (c.impl.Some? ==> ImplementsList(c.impl.value))
    && |c.body| > 0 && '}' !in c.body
  }

  /** What the pattern captures from a declaration that ends at `end`: the
      implements text keeps the blank before the brace. */
  function Captured(c: ClassText, end: nat): ClassMatch {
    ClassMatch(c.isInterface, c.name, c.ext,
               match c.impl case Some(t) => Some(t + " ") case None => None,
               c.body, end)
  }

  // ---------------------------------------------------------------------
  // One declaration

  /** A suffix that is `x + y` starts with `x` and continues with `y`. */
  lemma SuffixParts(s: string, i: nat, x: string, y: string)
    requires i <= |s| && s[i..] == x + y
    ensures StartsAt(s, i, x) && s[i + |x|..] == y
  {
    assert s[i..i + |x|] == s[i..][..|x|];
    assert (x + y)[..|x|] == x;
    assert s[i + |x|..] == s[i..][|x|..];
    assert (x + y)[|x|..] == y;
  }

  lemma PrefixParts(s: string, i: nat, x: string, y: string)
    requires StartsAt(s, i, x + y)
    ensures StartsAt(s, i, x) && StartsAt(s, i + |x|, y)
  {
    assert s[i..i + |x|] == s[i..i + |x + y|][..|x|];
    assert s[i + |x|..i + |x| + |y|] == s[i..i + |x + y|][|x|..];
  }

  lemma CharAt(s: string, i: nat, x: string, k: nat)
    requires StartsAt(s, i, x) && k < |x|
    ensures s[i + k] == x[k]
  {
    assert s[i..i + |x|][k] == s[i + k];
  }

  lemma KeywordReads(s: string, i: nat, isInterface: bool)
    requires StartsAt(s, i, KeywordText(isInterface))
    ensures KeywordAt(s, i) == Some((isInterface, i + |KeywordText(isInterface)|))
  {
    if isInterface {
      CharAt(s, i, "interface", 0);
      assert !StartsAt(s, i, "class") by {
        if i + 5 <= |s| { assert s[i..i + 5][0] == s[i]; }
      }
    }
  }

  /** A blank, a word, then a non-word character or the end. */
  lemma SpacedWordReads(s: string, i: nat, w: string)
    requires IsWord(w) && i < |s| && s[i] == ' ' && StartsAt(s, i + 1, w)
    requires i + 1 + |w| < |s| ==> !IsWordChar(s[i + 1 + |w|])
    ensures SpacedWordAt(s, i) == Some((w, i + 1 + |w|))
  {
    CharAt(s, i + 1, w, 0);
    DeclarationFacts.BlankRun(s, i);
    DeclarationFacts.WordRun(s, i + 1, w);
  }

  lemma ExtendsReads(s: string, i: nat, e: string)
    requires IsWord(e) && StartsAt(s, i, " extends ") && StartsAt(s, i + 9, e)
    requires i + 9 + |e| < |s| ==> !IsWordChar(s[i + 9 + |e|])
    ensures ExtendsAt(s, i) == Some((e, i + 9 + |e|))
  {
    CharAt(s, i, " extends ", 0);
    CharAt(s, i, " extends ", 1);
    CharAt(s, i, " extends ", 8);
    DeclarationFacts.BlankRun(s, i);
    assert " extends " == " " + ("extends" + " ");
    PrefixParts(s, i, " ", "extends" + " ");
    PrefixParts(s, i + 1, "extends", " ");
    SpacedWordReads(s, i + 8, e);
  }

  /** A blank followed by `implements` or by the brace starts no `extends`. */
  lemma ExtendsAbsent(s: string, i: nat)
    requires i + 1 < |s| && s[i] == ' ' && (s[i + 1] == 'i' || s[i + 1] == '{')
    ensures ExtendsAt(s, i) == None
  {
    DeclarationFacts.BlankRun(s, i);
    if i + 8 <= |s| { assert s[i + 1..i + 8][0] == s[i + 1]; }
  }

  lemma ImplementsReads(s: string, i: nat, t: string)
    requires ImplementsList(t)
    requires StartsAt(s, i, " implements ") && StartsAt(s, i + 12, t) && StartsAt(s, i + 12 + |t|, " {")
    ensures ImplementsAt(s, i) == Some((t + " ", i + 13 + |t|))
  {
    var d, e := i + 12, i + 13 + |t|;
    assert RunEnd(s, i, IsSpace) == i + 1 && StartsAt(s, i + 1, "implements")
           && RunEnd(s, i + 11, IsSpace) == d by {
      CharAt(s, d, t, 0);
      ImplementsKeywordReads(s, i);
    }
    assert RunEnd(s, d, IsImplementsChar) == e && e < |s| && s[e] == '{' && s[d..e] == t + " " by {
      ImplementsRunReads(s, d, t, e);
    }
  }

  /** `\s+implements\s+` over one blank, the word and one blank. */
  lemma ImplementsKeywordReads(s: string, i: nat)
    requires StartsAt(s, i, " implements ") && i + 12 < |s| && !IsSpace(s[i + 12])
    ensures RunEnd(s, i, IsSpace) == i + 1 && StartsAt(s, i + 1, "implements")
    ensures RunEnd(s, i + 11, IsSpace) == i + 12
  {
    CharAt(s, i, " implements ", 0);
    CharAt(s, i, " implements ", 1);
    CharAt(s, i, " implements ", 11);
    DeclarationFacts.BlankRun(s, i);
    assert " implements " == " " + ("implements" + " ");
    PrefixParts(s, i, " ", "implements" + " ");
    PrefixParts(s, i + 1, "implements", " ");
    DeclarationFacts.BlankRun(s, i + 11);
  }

  /** `([\w,\s]+)` over the list and the blank before the brace. */
  lemma ImplementsRunReads(s: string, d: nat, t: string, e: nat)
    requires ImplementsList(t) && StartsAt(s, d, t) && StartsAt(s, d + |t|, " {") && e == d + |t| + 1
    ensures RunEnd(s, d, IsImplementsChar) == e && e < |s| && s[e] == '{' && s[d..e] == t + " "
  {
    CharAt(s, d + |t|, " {", 0);
    CharAt(s, d + |t|, " {", 1);
    assert s[d..e] == t + " " by {
      assert s[d..e] == s[d..d + |t|] + s[d + |t|..e];
    }
    forall k | d <= k < e ensures IsImplementsChar(s[k]) {
      if k < d + |t| { CharAt(s, d, t, k - d); }
    }
    RunEndAt(s, d, IsImplementsChar, e);
  }

  /** A blank followed by the brace starts no `implements`. */
  lemma ImplementsAbsent(s: string, i: nat)
    requires i + 1 < |s| && s[i] == ' ' && s[i + 1] == '{'
    ensures ImplementsAt(s, i) == None
  {
    DeclarationFacts.BlankRun(s, i);
    if i + 11 <= |s| { assert s[i + 1..i + 11][0] == s[i + 1]; }
  }

  /** An optional blank, then the braced body. */
  lemma BodyReads(s: string, i: nat, lead: string, b: string)
    requires lead == "" || lead == " "
    requires |b| > 0 && '}' !in b
    requires StartsAt(s, i, lead + "{") && StartsAt(s, i + |lead| + 1, b) && StartsAt(s, i + |lead| + 1 + |b|, "}")
    ensures BodyAt(s, i) == Some((b, i + |lead| + |b| + 2))
  {
    var a := i + |lead|;
    var q := a + 1 + |b|;
    CharAt(s, i, lead + "{", |lead|);
    CharAt(s, q, "}", 0);
    if lead == " " {
      CharAt(s, i, lead + "{", 0);
      DeclarationFacts.BlankRun(s, i);
    } else {
      RunEndAt(s, i, IsSpace, i);
    }
    forall k | a + 1 <= k < q ensures NotCloseBrace(s[k]) {
      CharAt(s, a + 1, b, k - a - 1);
    }
    RunEndAt(s, a + 1, NotCloseBrace, q);
  }

  /** The optional `extends` clause, followed by a blank and then either
      `implements` or the brace. */
  lemma ExtendsStep(s: string, p1: nat, c: ClassText, p2: nat)
    requires WellWritten(c) && StartsAt(s, p1, ExtendsText(c.ext)) && p2 == p1 + |ExtendsText(c.ext)|
    requires p2 + 1 < |s| && s[p2] == ' ' && (s[p2 + 1] == 'i' || s[p2 + 1] == '{')
    ensures ExtendsAt(s, p1) == (if c.ext.Some? then Some((c.ext.value, p2)) else None)
  {
    match c.ext {
      case Some(e) =>
        PrefixParts(s, p1, " extends ", e);
        ExtendsReads(s, p1, e);
      case None =>
        ExtendsAbsent(s, p1);
    }
  }

  /** The optional `implements` clause, followed by the brace. */
  lemma ImplementsStep(s: string, p2: nat, c: ClassText)
    requires WellWritten(c) && StartsAt(s, p2, ImplementsText(c.impl) + "{")
    ensures ImplementsAt(s, p2) == (match c.impl
                                    case Some(t) => Some((t + " ", p2 + |ImplementsText(c.impl)|))
                                    case None => None)
  {
    match c.impl {
      case Some(t) => ImplementsPresentStep(s, p2, t, p2 + |ImplementsText(c.impl)|);
      case None => ImplementsAbsentStep(s, p2);
    }
  }

  lemma ImplementsPresentStep(s: string, p2: nat, t: string, q: nat)
    requires ImplementsList(t) && StartsAt(s, p2, ImplementsText(Some(t)) + "{")
    requires q == p2 + |ImplementsText(Some(t))|
    ensures ImplementsAt(s, p2) == Some((t + " ", q))
  {
    assert StartsAt(s, p2, " implements ") && StartsAt(s, p2 + 12, t) && StartsAt(s, p2 + 12 + |t|, " {")
           && q == p2 + 13 + |t| by {
      assert ImplementsText(Some(t)) + "{" == " implements " + (t + " {");
      PrefixParts(s, p2, " implements ", t + " {");
      PrefixParts(s, p2 + 12, t, " {");
    }
    ImplementsReads(s, p2, t);
  }

  lemma ImplementsAbsentStep(s: string, p2: nat)
    requires StartsAt(s, p2, ImplementsText(None) + "{")
    ensures ImplementsAt(s, p2) == None
  {
    assert p2 + 1 < |s| && s[p2] == ' ' && s[p2 + 1] == '{' by {
      assert ImplementsText(None) + "{" == " {";
      CharAt(s, p2, " {", 0);
      CharAt(s, p2, " {", 1);
    }
    ImplementsAbsent(s, p2);
  }

  lemma HeadLayout(s: string, i: nat, kw: string, name: string, r: string)
    requires i <= |s| && s[i..] == kw + (" " + (name + r))
    ensures StartsAt(s, i, kw) && i + |kw| < |s| && s[i + |kw|] == ' '
    ensures StartsAt(s, i + |kw| + 1, name) && s[i + |kw| + 1 + |name|..] == r
  {
    SuffixParts(s, i, kw, " " + (name + r));
    SuffixParts(s, i + |kw|, " ", name + r);
    SuffixParts(s, i + |kw| + 1, name, r);
    CharAt(s, i + |kw|, " ", 0);
  }

  lemma TailLayout(s: string, p1: nat, ex: string, im: string, body: string, tail: string)
    requires p1 <= |s| && s[p1..] == ex + ((im + "{") + (body + ("}" + tail)))
    ensures StartsAt(s, p1, ex) && StartsAt(s, p1 + |ex|, im + "{")
    ensures StartsAt(s, p1 + |ex| + |im| + 1, body) && StartsAt(s, p1 + |ex| + |im| + 1 + |body|, "}")
  {
    var p2 := p1 + |ex|;
    SuffixParts(s, p1, ex, (im + "{") + (body + ("}" + tail)));
    SuffixParts(s, p2, im + "{", body + ("}" + tail));
    SuffixParts(s, p2 + |im| + 1, body, "}" + tail);
    SuffixParts(s, p2 + |im| + 1 + |body|, "}", tail);
  }

  /** A declaration followed by more text, regrouped from the right. */
  lemma DeclarationShape(c: ClassText, tail: string)
    ensures ClassDeclaration(c) + tail
            == KeywordText(c.isInterface) + (" " + (c.name + (ExtendsText(c.ext)
               + ((ImplementsText(c.impl) + "{") + (c.body + ("}" + tail))))))
  {
    var kw, ex, im := KeywordText(c.isInterface), ExtendsText(c.ext), ImplementsText(c.impl);
    var t1 := c.body + ("}" + tail);
    var a := kw + " " + c.name + ex;
    assert ClassDeclaration(c) + tail == (a + im + "{" + c.body) + ("}" + tail);
    assert (a + im + "{" + c.body) + ("}" + tail) == (a + im + "{") + t1;
    assert (a + im + "{") + t1 == a + ((im + "{") + t1);
    assert a + ((im + "{") + t1) == kw + (" " + (c.name + (ex + ((im + "{") + t1))));
  }

  /** Where each part of a declaration written at `i` lies. */
  lemma Layout(s: string, i: nat, c: ClassText, tail: string, p0: nat, p1: nat, p2: nat, e: nat)
    requires i <= |s| && s[i..] == ClassDeclaration(c) + tail
    requires p0 == i + |KeywordText(c.isInterface)| && p1 == p0 + 1 + |c.name|
    requires p2 == p1 + |ExtendsText(c.ext)| && e == i + |ClassDeclaration(c)|
    ensures e == p2 + |ImplementsText(c.impl)| + 2 + |c.body| && e <= |s|
    ensures StartsAt(s, i, KeywordText(c.isInterface)) && p0 < |s| && s[p0] == ' ' && StartsAt(s, p0 + 1, c.name)
    ensures StartsAt(s, p1, ExtendsText(c.ext)) && StartsAt(s, p2, ImplementsText(c.impl) + "{")
    ensures StartsAt(s, p2 + |ImplementsText(c.impl)| + 1, c.body) && StartsAt(s, e - 1, "}")
  {
    var kw, ex, im := KeywordText(c.isInterface), ExtendsText(c.ext), ImplementsText(c.impl);
    var r := ex + ((im + "{") + (c.body + ("}" + tail)));
    assert s[i..] == kw + (" " + (c.name + r)) by {
      DeclarationShape(c, tail);
    }
    HeadLayout(s, i, kw, c.name, r);
    TailLayout(s, p1, ex, im, c.body, tail);
    assert |ClassDeclaration(c)| == |kw| + 1 + |c.name| + |ex| + |im| + 2 + |c.body|;
  }

  /** The class pattern put together from its parts. */
  lemma MatchFromParts(s: string, i: nat, c: ClassText, p0: nat, p1: nat, p2: nat, p3: nat, e: nat)
    requires KeywordAt(s, i) == Some((c.isInterface, p0))
    requires p0 <= |s| && SpacedWordAt(s, p0) == Some((c.name, p1))
    requires p1 <= |s| && ExtendsAt(s, p1) == (if c.ext.Some? then Some((c.ext.value, p2)) else None)
    requires c.ext.None? ==> p2 == p1
    requires p2 <= |s| && ImplementsAt(s, p2) == (match c.impl case Some(t) => Some((t + " ", p3)) case None => None)
    requires c.impl.None? ==> p3 == p2
    requires p3 <= |s| && BodyAt(s, p3) == Some((c.body, e))
    ensures MatchClassAt(s, i) == Some(Captured(c, e))
  {
  }

  /** The body, after the `implements` clause or the blank before it. */
  lemma BodyStep(s: string, p2: nat, c: ClassText, p3: nat, e: nat)
    requires WellWritten(c)
    requires StartsAt(s, p2, ImplementsText(c.impl) + "{")
    requires StartsAt(s, p2 + |ImplementsText(c.impl)| + 1, c.body)
    requires StartsAt(s, p2 + |ImplementsText(c.impl)| + 1 + |c.body|, "}")
    requires p3 == (if c.impl.Some? then p2 + |ImplementsText(c.impl)| else p2)
    requires e == p2 + |ImplementsText(c.impl)| + 2 + |c.body|
    ensures BodyAt(s, p3) == Some((c.body, e))
  {
    var im := ImplementsText(c.impl);
    if c.impl.Some? {
      PrefixParts(s, p2, im, "{");
      BodyAfterBrace(s, p3, c.body, e);
    } else {
      BodyAfterBlank(s, p3, c.body, e);
    }
  }

  lemma BodyAfterBrace(s: string, q: nat, b: string, e: nat)
    requires |b| > 0 && '}' !in b
    requires StartsAt(s, q, "{") && StartsAt(s, q + 1, b) && StartsAt(s, q + 1 + |b|, "}")
    requires e == q + |b| + 2
    ensures BodyAt(s, q) == Some((b, e))
  {
    assert "" + "{" == "{";
    BodyReads(s, q, "", b);
  }

  lemma BodyAfterBlank(s: string, q: nat, b: string, e: nat)
    requires |b| > 0 && '}' !in b
    requires StartsAt(s, q, " " + "{") && StartsAt(s, q + 2, b) && StartsAt(s, q + 2 + |b|, "}")
    requires e == q + |b| + 3
    ensures BodyAt(s, q) == Some((b, e))
  {
    BodyReads(s, q, " ", b);
  }

  /** The name, followed by the `extends` clause or the blank before
      `implements` or the brace. */
  lemma NameStep(s: string, p0: nat, c: ClassText, p1: nat, p2: nat)
    requires WellWritten(c) && p0 < |s| && s[p0] == ' ' && StartsAt(s, p0 + 1, c.name)
    requires p1 == p0 + 1 + |c.name| && p2 == p1 + |ExtendsText(c.ext)|
    requires StartsAt(s, p1, ExtendsText(c.ext)) && StartsAt(s, p2, ImplementsText(c.impl) + "{")
    ensures SpacedWordAt(s, p0) == Some((c.name, p1))
  {
    CharAt(s, p2, ImplementsText(c.impl) + "{", 0);
    if c.ext.Some? { CharAt(s, p1, ExtendsText(c.ext), 0); }
    SpacedWordReads(s, p0, c.name);
  }

  /** The keyword, the name and the optional `extends` clause. */
  lemma HeadSteps(s: string, i: nat, c: ClassText, p0: nat, p1: nat, p2: nat)
    requires WellWritten(c)
    requires p0 == i + |KeywordText(c.isInterface)| && p1 == p0 + 1 + |c.name|
    requires p2 == p1 + |ExtendsText(c.ext)|
    requires StartsAt(s, i, KeywordText(c.isInterface)) && p0 < |s| && s[p0] == ' ' && StartsAt(s, p0 + 1, c.name)
    requires StartsAt(s, p1, ExtendsText(c.ext)) && StartsAt(s, p2, ImplementsText(c.impl) + "{")
    ensures KeywordAt(s, i) == Some((c.isInterface, p0))
    ensures SpacedWordAt(s, p0) == Some((c.name, p1))
    ensures ExtendsAt(s, p1) == (if c.ext.Some? then Some((c.ext.value, p2)) else None)
  {
    KeywordReads(s, i, c.isInterface);
    NameStep(s, p0, c, p1, p2);
    assert ExtendsAt(s, p1) == (if c.ext.Some? then Some((c.ext.value, p2)) else None) by {
      CharAt(s, p2, ImplementsText(c.impl) + "{", 0);
      CharAt(s, p2, ImplementsText(c.impl) + "{", 1);
      ExtendsStep(s, p1, c, p2);
    }
  }

  /** The optional `implements` clause and the body, the match ending at `e`. */
  lemma TailSteps(s: string, c: ClassText, p2: nat, p3: nat, e: nat)
    requires WellWritten(c)
    requires p3 == (if c.impl.Some? then p2 + |ImplementsText(c.impl)| else p2)
    requires e == p2 + |ImplementsText(c.impl)| + 2 + |c.body|
    requires StartsAt(s, p2, ImplementsText(c.impl) + "{")
    requires StartsAt(s, p2 + |ImplementsText(c.impl)| + 1, c.body) && StartsAt(s, e - 1, "}")
    ensures ImplementsAt(s, p2) == (match c.impl case Some(t) => Some((t + " ", p3)) case None => None)
    ensures BodyAt(s, p3) == Some((c.body, e))
  {
    BodyStep(s, p2, c, p3, e);
    ImplementsStep(s, p2, c);
  }

  /** The class pattern read from the parts of a declaration at `i`, the
      parts starting at `p0` (the blank before the name), `p1` (after the
      name) and `p2` (after the `extends` clause), the match ending at `e`. */
  lemma ReadsFromLayout(s: string, i: nat, c: ClassText, p0: nat, p1: nat, p2: nat, e: nat)
    requires WellWritten(c)
    requires p0 == i + |KeywordText(c.isInterface)| && p1 == p0 + 1 + |c.name|
    requires p2 == p1 + |ExtendsText(c.ext)| && e == p2 + |ImplementsText(c.impl)| + 2 + |c.body|
    requires StartsAt(s, i, KeywordText(c.isInterface)) && p0 < |s| && s[p0] == ' ' && StartsAt(s, p0 + 1, c.name)
    requires StartsAt(s, p1, ExtendsText(c.ext)) && StartsAt(s, p2, ImplementsText(c.impl) + "{")
    requires StartsAt(s, p2 + |ImplementsText(c.impl)| + 1, c.body) && StartsAt(s, e - 1, "}")
    ensures MatchClassAt(s, i) == Some(Captured(c, e))
  {
    var p3 := if c.impl.Some? then p2 + |ImplementsText(c.impl)| else p2;
    HeadSteps(s, i, c, p0, p1, p2);
    TailSteps(s, c, p2, p3, e);
    MatchFromParts(s, i, c, p0, p1, p2, p3, e);
  }

  /** The class pattern, anchored at the start of a well-written
      declaration, captures exactly what was written and ends after its
      closing brace. */
  lemma ClassDeclarationReads(s: string, i: nat, c: ClassText, tail: string, e: nat)
    requires WellWritten(c)
    requires i <= |s| && s[i..] == ClassDeclaration(c) + tail
    requires e == i + |ClassDeclaration(c)|
    ensures i < e <= |s|
    ensures MatchClassAt(s, i) == Some(Captured(c, e))
  {
    var p0 := i + |KeywordText(c.isInterface)|;
    var p1 := p0 + 1 + |c.name|;
    var p2 := p1 + |ExtendsText(c.ext)|;
    Layout(s, i, c, tail, p0, p1, p2, e);
    ReadsFromLayout(s, i, c, p0, p1, p2, e);
  }

  // ---------------------------------------------------------------------
  // A sequence of declarations

  function Texts(cs: seq<ClassText>): (r: seq<string>)
    ensures |r| == |cs|
    ensures forall k :: 0 <= k < |cs| ==> r[k] == ClassDeclaration(cs[k])
  {
    seq(|cs|, k requires 0 <= k < |cs| => ClassDeclaration(cs[k]))
  }

  /** The matches of declarations written one after another from `i`, a
      blank between each two: the captures of each, in order, every one
      ending after its own closing brace. */
  /** The length of a declaration's text, counted part by part. */
  function DeclarationLength(c: ClassText): nat {
    (if c.isInterface then 9 else 5) + 1 + |c.name|
    + (match c.ext case Some(e) => 9 + |e| case None => 0)
    + (match c.impl case Some(t) => 13 + |t| case None => 1)
    + 2 + |c.body|
  }

  lemma DeclarationLengthIs(c: ClassText)
    ensures DeclarationLength(c) == |ClassDeclaration(c)|
  {
  }

  function CapturedAll(cs: seq<ClassText>, i: nat): (r: seq<ClassMatch>)
    ensures |r| == |cs|
    decreases |cs|
  {
    if |cs| == 0 then []
    else
      var e := i + DeclarationLength(cs[0]);
      [Captured(cs[0], e)] + CapturedAll(cs[1..], e + 1)
  }

  /** After a declaration, a blank does not start the next match. */
  lemma BlankStartsNoMatch(s: string, i: nat)
    requires i < |s| && s[i] == ' '
    ensures MatchClassAt(s, i) == None
  {
    if i + 5 <= |s| { assert s[i..i + 5][0] == s[i]; }
    if i + 9 <= |s| { assert s[i..i + 9][0] == s[i]; }
  }

  /** Declarations written one after another, a blank between each two. */
  function JoinedText(cs: seq<ClassText>): string
    decreases |cs|
  {
    if |cs| == 0 then ""
    else ClassDeclaration(cs[0]) + (if |cs| == 1 then "" else " " + JoinedText(cs[1..]))
  }

  lemma {:induction false} JoinedTextIsJoin(cs: seq<ClassText>)
    ensures JoinedText(cs) == Join(Texts(cs), " ")
    decreases |cs|
  {
    if |cs| > 1 {
      JoinedTextIsJoin(cs[1..]);
      assert Texts(cs)[1..] == Texts(cs[1..]);
    }
  }

  lemma ScanStep(s: string, i: nat, m: ClassMatch, e: nat)
    requires i < |s| && MatchClassAt(s, i) == Some(m) && m.end == e
    ensures e <= |s| && ScanClasses(s, i) == [m] + ScanClasses(s, e)
  {
  }

  lemma ScanSkip(s: string, i: nat)
    requires i < |s| && MatchClassAt(s, i) == None
    ensures ScanClasses(s, i) == ScanClasses(s, i + 1)
  {
  }

  /** The repeated search over declarations joined by blanks finds each of
      them, in order, with exactly its captures. */
  lemma {:induction false} ScanReadsJoined(s: string, i: nat, cs: seq<ClassText>)
    requires forall k :: 0 <= k < |cs| ==> WellWritten(cs[k])
    requires i <= |s| && s[i..] == JoinedText(cs)
    ensures ScanClasses(s, i) == CapturedAll(cs, i)
    decreases |cs|
  {
    if |cs| == 0 {
      assert |s[i..]| == 0;
      assert ScanClasses(s, i) == [] == CapturedAll(cs, i);
    } else {
      var e := i + DeclarationLength(cs[0]);
      var rest := if |cs| == 1 then "" else " " + JoinedText(cs[1..]);
      ScanHead(s, i, cs[0], rest, e);
      if |cs| == 1 {
        LastScan(s, e, cs[1..]);
      } else {
        ScanBlank(s, e, JoinedText(cs[1..]));
        RestWellWritten(cs);
        ScanReadsJoined(s, e + 1, cs[1..]);
      }
      CapturedAllStep(cs, i, e);
    }
  }

  /** Nothing is found at the end of the text. */
  lemma LastScan(s: string, e: nat, rest: seq<ClassText>)
    requires e <= |s| && s[e..] == "" && rest == []
    ensures ScanClasses(s, e) == CapturedAll(rest, e + 1)
  {
  }

  lemma RestWellWritten(cs: seq<ClassText>)
    requires |cs| >= 1 && forall k :: 0 <= k < |cs| ==> WellWritten(cs[k])
    ensures forall k :: 0 <= k < |cs[1..]| ==> WellWritten(cs[1..][k])
  {
    forall k | 0 <= k < |cs[1..]| ensures WellWritten(cs[1..][k]) {
      assert cs[1..][k] == cs[k + 1];
    }
  }

  /** A well-written declaration at `i` is the next match, and the search
      goes on right after it. */
  lemma ScanHead(s: string, i: nat, c: ClassText, rest: string, e: nat)
    requires WellWritten(c) && i <= |s| && s[i..] == ClassDeclaration(c) + rest
    requires e == i + DeclarationLength(c)
    ensures e <= |s| && s[e..] == rest
    ensures ScanClasses(s, i) == [Captured(c, e)] + ScanClasses(s, e)
  {
    assert e == i + |ClassDeclaration(c)| by { DeclarationLengthIs(c); }
    assert s[e..] == rest by { SuffixParts(s, i, ClassDeclaration(c), rest); }
    assert i < e <= |s| && MatchClassAt(s, i) == Some(Captured(c, e)) by {
      ClassDeclarationReads(s, i, c, rest, e);
    }
    ScanStep(s, i, Captured(c, e), e);
  }

  /** A blank between declarations is skipped. */
  lemma ScanBlank(s: string, e: nat, t: string)
    requires e <= |s| && s[e..] == " " + t
    ensures e < |s| && s[e + 1..] == t && ScanClasses(s, e) == ScanClasses(s, e + 1)
  {
    SuffixParts(s, e, " ", t);
    CharAt(s, e, " ", 0);
    BlankStartsNoMatch(s, e);
    ScanSkip(s, e);
  }

  /** Each match captures its own declaration. */
  lemma {:induction false} CapturedAllAt(cs: seq<ClassText>, i: nat, k: nat)
    requires k < |cs|
    ensures CapturedAll(cs, i)[k] == Captured(cs[k], CapturedAll(cs, i)[k].end)
    decreases k
  {
    var e := i + DeclarationLength(cs[0]);
    if k > 0 {
      CapturedAllAt(cs[1..], e + 1, k - 1);
      assert CapturedAll(cs, i)[k] == CapturedAll(cs[1..], e + 1)[k - 1];
    }
  }

  /** The first declaration's match ends at `e`; the rest start after the blank. */
  lemma CapturedAllStep(cs: seq<ClassText>, i: nat, e: nat)
    requires |cs| >= 1 && e == i + DeclarationLength(cs[0])
    ensures CapturedAll(cs, i) == [Captured(cs[0], e)] + CapturedAll(cs[1..], e + 1)
  {
  }

  /** Declarations written out in order, a blank between each two, are
      found by the scan in that order with exactly their captures. */
  lemma ScanReadsDeclarations(cs: seq<ClassText>)
    requires forall k :: 0 <= k < |cs| ==> WellWritten(cs[k])
    ensures var ms := ScanClasses(Join(Texts(cs), " "), 0);
            && |ms| == |cs|
            && forall k :: 0 <= k < |cs| ==> ms[k] == Captured(cs[k], ms[k].end)
  {
    var s := Join(Texts(cs), " ");
    JoinedTextIsJoin(cs);
    assert s[0..] == s;
    ScanReadsJoined(s, 0, cs);
    forall k | 0 <= k < |cs| ensures CapturedAll(cs, 0)[k] == Captured(cs[k], CapturedAll(cs, 0)[k].end) {
      CapturedAllAt(cs, 0, k);
    }
  }

  // ---------------------------------------------------------------------
  // Implemented names and body declarations

  /** Names joined by `", "`: the implements text such a list is written as. */
  lemma NamesAreImplementsList(ns: seq<string>)
    requires |ns| >= 1 && forall k :: 0 <= k < |ns| ==> IsWord(ns[k])
    ensures ImplementsList(Join(ns, ", "))
  {
    var j := Join(ns, ", ");
    assert forall m :: 0 <= m < |j| ==> IsImplementsChar(j[m]) by {
      assert forall k, m :: 0 <= k < |ns| && 0 <= m < |ns[k]| ==> IsImplementsChar(ns[k][m]) by {
        forall k, m | 0 <= k < |ns| && 0 <= m < |ns[k]| ensures IsImplementsChar(ns[k][m]) {
          assert IsWordChar(ns[k][m]);
        }
      }
      DeclarationFacts.JoinChars(ns, ", ", IsImplementsChar);
    }
    JoinStartsWithFirst(ns, ", ");
  }

  lemma JoinStartsWithFirst(ns: seq<string>, sep: string)
    requires |ns| >= 1 && |ns[0]| > 0
    ensures |Join(ns, sep)| > 0 && Join(ns, sep)[0] == ns[0][0]
  {
    if |ns| > 1 {
      assert Join(ns, sep) == ns[0] + sep + Join(ns[1..], sep);
    }
  }

  /** Splitting the captured implements text, which keeps the blank before
      the brace, on commas and trimming each piece gives back the names. */
  lemma ImplementsSplit(ns: seq<string>)
    requires |ns| >= 1 && forall k :: 0 <= k < |ns| ==> IsWord(ns[k])
    ensures TrimEach(Split(Join(ns, ", ") + " ", ',')) == ns
  {
    var qs := LastPadded(ns);
    SplitImplements(ns, qs);
    TrimImplementsPieces(ns, qs);
    assert TrimEach(Split(Join(ns, ", ") + " ", ',')) == TrimEach([qs[0]] + PrefixEach(" ", qs[1..]));
  }

  /** The names with a blank after the last one. */
  function LastPadded(ns: seq<string>): (qs: seq<string>)
    requires |ns| >= 1
    ensures |qs| == |ns|
    ensures forall k :: 0 <= k < |ns| ==> qs[k] == ns[k] + (if k == |ns| - 1 then " " else "")
  {
    var qs := ns[..|ns| - 1] + [ns[|ns| - 1] + " "];
    assert forall k :: 0 <= k < |ns| - 1 ==> qs[k] == ns[k] + "";
    qs
  }

  lemma SplitImplements(ns: seq<string>, qs: seq<string>)
    requires |ns| >= 1 && forall k :: 0 <= k < |ns| ==> IsWord(ns[k])
    requires qs == LastPadded(ns)
    ensures Split(Join(ns, ", ") + " ", ',') == [qs[0]] + PrefixEach(" ", qs[1..])
  {
    var n := |ns|;
    assert Join(qs, [','] + " ") == Join(ns, ", ") + " " by {
      assert ", " == [','] + " ";
      assert qs == ns[..n - 1] + [ns[n - 1] + " "];
      DeclarationFacts.JoinAppendLast(ns, ", ", " ");
    }
    assert forall k :: 0 <= k < |qs| ==> ',' !in qs[k] by {
      PaddedNamesHaveNoComma(ns);
    }
    SplitJoin(qs, ',', " ");
  }

  lemma PaddedNamesHaveNoComma(ns: seq<string>)
    requires |ns| >= 1 && forall k :: 0 <= k < |ns| ==> IsWord(ns[k])
    ensures forall k :: 0 <= k < |ns| ==> ',' !in LastPadded(ns)[k]
  {
    var qs := LastPadded(ns);
    forall k | 0 <= k < |ns| ensures ',' !in qs[k] {
      assert qs[k] == ns[k] + (if k == |ns| - 1 then " " else "");
    }
  }

  lemma TrimImplementsPieces(ns: seq<string>, qs: seq<string>)
    requires |ns| >= 1 && forall k :: 0 <= k < |ns| ==> IsWord(ns[k])
    requires qs == LastPadded(ns)
    ensures TrimEach([qs[0]] + PrefixEach(" ", qs[1..])) == ns
  {
    var pieces := [qs[0]] + PrefixEach(" ", qs[1..]);
    forall k | 0 <= k < |ns| ensures Trim(pieces[k]) == ns[k] {
      TrimImplementsPiece(ns, qs, k);
    }
  }

  lemma TrimImplementsPiece(ns: seq<string>, qs: seq<string>, k: nat)
    requires k < |ns| && IsWord(ns[k]) && qs == LastPadded(ns)
    ensures Trim(([qs[0]] + PrefixEach(" ", qs[1..]))[k]) == ns[k]
  {
    var n := |ns|;
    var piece := ([qs[0]] + PrefixEach(" ", qs[1..]))[k];
    var x := if k > 0 then " " else "";
    var y := if k == n - 1 then " " else "";
    assert piece == x + qs[k] by {
      if k > 0 { assert piece == " " + qs[1..][k - 1]; }
    }
    assert qs[k] == ns[k] + y;
    assert piece == x + ns[k] + y;
    assert IsWordChar(ns[k][0]) && IsWordChar(ns[k][|ns[k]| - 1]);
    TrimPadded(ns[k], k > 0, k == n - 1);
  }

  /** A trimmed, non-empty piece free of `;`. */
  predicate TrimmedDeclaration(d: string) {
    |d| > 0 && ';' !in d && !IsSpace(d[0]) && !IsSpace(d[|d| - 1])
  }

  /** A text with non-blank ends, with at most a blank on either side,
      trims back to itself. */
  lemma TrimPadded(w: string, before: bool, after: bool)
    requires |w| > 0 && !IsSpace(w[0]) && !IsSpace(w[|w| - 1])
    ensures Trim((if before then " " else "") + w + (if after then " " else "")) == w
  {
    var x := if before then " " else "";
    var z := if after then " " else "";
    assert DeclarationFacts.AllSpaces(x) && DeclarationFacts.AllSpaces(z);
    DeclarationFacts.TrimExact(x, w, z);
  }

  /** The pieces of declarations split after `"; "` trim back to them. */
  lemma TrimSplitPieces(ds: seq<string>)
    requires |ds| >= 1 && forall k :: 0 <= k < |ds| ==> TrimmedDeclaration(ds[k])
    ensures TrimEach([ds[0]] + PrefixEach(" ", ds[1..])) == ds
  {
    var pieces := [ds[0]] + PrefixEach(" ", ds[1..]);
    forall k | 0 <= k < |ds| ensures Trim(pieces[k]) == ds[k] {
      assert pieces[k] == (if k > 0 then " " else "") + ds[k] + "" by {
        if k > 0 { assert pieces[k] == " " + ds[1..][k - 1]; }
      }
      TrimPadded(ds[k], k > 0, false);
    }
  }

  /** Declarations joined by `"; "` split back into themselves. */
  lemma DeclarationsJoin(ds: seq<string>)
    requires forall k :: 0 <= k < |ds| ==> TrimmedDeclaration(ds[k])
    ensures Declarations(Join(ds, "; ")) == ds
  {
    if |ds| == 0 {
      assert Join(ds, "; ") == "";
      EmptyBodyDeclarations();
    } else {
      SomeDeclarationsJoin(ds);
    }
  }

  lemma SomeDeclarationsJoin(ds: seq<string>)
    requires |ds| >= 1 && forall k :: 0 <= k < |ds| ==> TrimmedDeclaration(ds[k])
    ensures Declarations(Join(ds, "; ")) == ds
  {
    TrimmedSplit(ds);
    Seqs.FilterAllKept(ds, NonEmpty);
  }

  /** Splitting joined declarations on `;` and trimming each piece gives
      them back. */
  lemma TrimmedSplit(ds: seq<string>)
    requires |ds| >= 1 && forall k :: 0 <= k < |ds| ==> TrimmedDeclaration(ds[k])
    ensures TrimEach(Split(Join(ds, "; "), ';')) == ds
  {
    SplitDeclarations(ds);
    TrimSplitPieces(ds);
  }

  lemma EmptyBodyDeclarations()
    ensures Declarations("") == []
  {
    assert Split("", ';') == [""];
    assert Trim("") == "";
    assert TrimEach([""]) == [""];
  }

  lemma SplitDeclarations(ds: seq<string>)
    requires |ds| >= 1 && forall k :: 0 <= k < |ds| ==> TrimmedDeclaration(ds[k])
    ensures Split(Join(ds, "; "), ';') == [ds[0]] + PrefixEach(" ", ds[1..])
  {
    assert Join(ds, "; ") == Join(ds, [';'] + " ") by {
      assert "; " == [';'] + " ";
    }
    assert forall k :: 0 <= k < |ds| ==> ';' !in ds[k];
    SplitJoin(ds, ';', " ");
  }

  /** The class read from a well-written declaration whose implements text
      lists `ns` and whose body joins `ds` has the written name, kind and
      superclass, implements exactly `ns`, and has the members parsed from
      `ds`. */
  lemma ParsedClassReadsBack(s: string, i: nat, c: ClassText, tail: string, ns: seq<string>, ds: seq<string>)
    requires WellWritten(c)
    requires i <= |s| && s[i..] == ClassDeclaration(c) + tail
    requires c.impl.Some? ==> |ns| >= 1 && (forall k :: 0 <= k < |ns| ==> IsWord(ns[k]))
                              && c.impl.value == Join(ns, ", ")
    requires c.impl.None? ==> ns == []
    requires (forall k :: 0 <= k < |ds| ==> TrimmedDeclaration(ds[k])) && c.body == Join(ds, "; ")
    ensures MatchClassAt(s, i).Some?
    ensures var p := ToParsedClass(MatchClassAt(s, i).value);
            && p.name == c.name
            && p.kind == (if c.isInterface then Interface else Class)
            && p.ext == c.ext
            && p.impls == ns
            && (p.properties, p.methods) == ParseDeclarations(ds)
  {
    ClassDeclarationReads(s, i, c, tail, i + |ClassDeclaration(c)|);
    DeclarationsJoin(ds);
    if c.impl.Some? {
      ImplementsSplit(ns);
    }
  }

  /** Code whose normalized text is declarations joined by blanks imports
      one class per declaration, in order, each read from its own text. */
  lemma ParsedClassesOfDeclarations(code: string, cs: seq<ClassText>)
    requires forall k :: 0 <= k < |cs| ==> WellWritten(cs[k])
    requires Normalize(code) == Join(Texts(cs), " ")
    ensures |ParsedClasses(code)| == |cs|
    ensures forall k :: 0 <= k < |cs| ==>
              ParsedClasses(code)[k] == ToParsedClass(Captured(cs[k], CapturedAll(cs, 0)[k].end))
  {
    var s := Normalize(code);
    JoinedTextIsJoin(cs);
    assert s[0..] == s;
    ScanReadsJoined(s, 0, cs);
    forall k | 0 <= k < |cs|
      ensures ParsedClasses(code)[k] == ToParsedClass(Captured(cs[k], CapturedAll(cs, 0)[k].end))
    {
      CapturedAllAt(cs, 0, k);
    }
  }
}
