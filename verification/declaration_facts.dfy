/** The member parsers of the Java-text importer (src/utils/codeToUml.ts,
    lines 65-105) read back the declarations a writer of that language
    produces: `<visibility> [static] <type> <name>` for a property and
    `<visibility> [static] <type> <name>(<type> <name>, ...)` for a method,
    whatever text follows the closing parenthesis. */
module DeclarationFacts {
  import opened Wrappers
  import opened Strings
  import opened Types
  import opened CodeToUml
  import ImportFacts

  // ---------------------------------------------------------------------
  // Writing declarations

  /** `<visibility> [static] <type> <name>`. */
  function PropertyDeclaration(p: Property): string {
    VisibilityString(p.visibility) + " " + (if p.isStatic then "static " else "") + p.typ + " " + p.name
  }

  /** `<type> <name>`. */
  function ParameterDeclaration(p: Parameter): string {
    p.typ + " " + p.name
  }

  /** The parameters, `, `-separated. */
  function ParameterList(ps: seq<Parameter>): string {
    Join(ParameterTexts(ps), ", ")
  }

  /** `<visibility> [static] <type> <name>(<parameters><pad>)<rest>`. */
  function MethodDeclaration(m: Method, pad: string, rest: string): string {
    (VisibilityString(m.visibility) + " ")
    + ((if m.isStatic then "static " else "") + MethodSuffix(m.returnType, m.name, ParameterList(m.parameters) + pad, rest))
  }

  predicate AllSpaces(s: string) {
    forall k :: 0 <= k < |s| ==> IsSpace(s[k])
  }

  /** A parameter both of whose parts are words. */
  predicate WordParameter(p: Parameter) {
    IsWord(p.typ) && IsWord(p.name)
  }

  // ---------------------------------------------------------------------
  // Runs, trimming

  /** A word followed by a non-word character or the end is one run. */
  lemma WordRun(s: string, i: nat, w: string)
    requires IsWord(w) && i + |w| <= |s| && s[i..i + |w|] == w
    requires i + |w| < |s| ==> !IsWordChar(s[i + |w|])
    ensures RunEnd(s, i, IsWordChar) == i + |w|
  {
    forall k | i <= k < i + |w| ensures IsWordChar(s[k]) {
      assert s[k] == w[k - i];
    }
    RunEndAt(s, i, IsWordChar, i + |w|);
  }

  /** A single blank followed by a non-blank character or the end is one run. */
  lemma BlankRun(s: string, i: nat)
    requires i < |s| && s[i] == ' '
    requires i + 1 < |s| ==> !IsSpace(s[i + 1])
    ensures RunEnd(s, i, IsSpace) == i + 1
  {
    RunEndAt(s, i, IsSpace, i + 1);
  }

  lemma {:induction false} TrimStartSpaces(x: string, z: string)
    requires AllSpaces(x)
    requires |z| > 0 ==> !IsSpace(z[0])
    ensures TrimStart(x + z) == z
    decreases |x|
  {
    if |x| > 0 {
      assert (x + z)[1..] == x[1..] + z;
      TrimStartSpaces(x[1..], z);
    } else {
      assert x + z == z;
    }
  }

  lemma {:induction false} TrimEndSpaces(z: string, y: string)
    requires AllSpaces(y)
    requires |z| > 0 ==> !IsSpace(z[|z| - 1])
    ensures TrimEnd(z + y) == z
    decreases |y|
  {
    if |y| > 0 {
      var s := z + y;
      assert s[..|s| - 1] == z + y[..|y| - 1];
      TrimEndSpaces(z, y[..|y| - 1]);
    } else {
      assert z + y == z;
    }
  }

  /** Trimming removes exactly the blanks around a text with non-blank ends. */
  lemma TrimExact(x: string, w: string, y: string)
    requires AllSpaces(x) && AllSpaces(y)
    requires |w| > 0 && !IsSpace(w[0]) && !IsSpace(w[|w| - 1])
    ensures Trim(x + w + y) == w
  {
    assert x + w + y == x + (w + y);
    TrimStartSpaces(x, w + y);
    TrimEndSpaces(w, y);
  }

  // ---------------------------------------------------------------------
  // Visibility keyword

  /** The visibility group takes the keyword and the one blank after it. */
  lemma VisibilityKeyword(s: string, v: Visibility)
    requires StartsWith(s, VisibilityString(v) + " ")
    requires |VisibilityString(v)| + 1 < |s| ==> !IsSpace(s[|VisibilityString(v)| + 1])
    ensures VisibilityWordAt(s, 0) == Some((VisibilityString(v), |VisibilityString(v)| + 1))
  {
    var w := VisibilityString(v);
    assert s[..|w|] == w && s[|w|] == ' ' by {
      assert s[..|w|] == (w + " ")[..|w|];
    }
    match v
    case Public =>
      assert StartsAt(s, 0, "public");
    case Private =>
      assert s[1] == w[1] == 'r';
      assert !StartsAt(s, 0, "public");
      assert StartsAt(s, 0, "private");
    case Protected =>
      assert s[1] == w[1] == 'r' && s[2] == w[2] == 'o';
      assert !StartsAt(s, 0, "public");
      assert !StartsAt(s, 0, "private");
      assert StartsAt(s, 0, "protected");
    BlankRun(s, |w|);
  }

  // ---------------------------------------------------------------------
  // Properties

  /** `(\w+)\s+(\w+)` reads a type, one blank and a name at the end. */
  lemma PropertyTailReads(s: string, i: nat, t: string, n: string)
    requires IsWord(t) && IsWord(n)
    requires i + |t| + 1 + |n| == |s|
    requires s[i..] == t + " " + n
    ensures PropertyTailAt(s, i) == Some((t, n))
  {
    var a := i + |t| + 1;
    assert s[i..i + |t|] == t && s[i + |t|] == ' ' && s[a..] == n by {
      var u := s[i..];
      assert s[i..i + |t|] == u[..|t|];
      assert s[i + |t|] == u[|t|];
      assert s[a..] == u[|t| + 1..];
    }
    assert WordThenSpaceAt(s, i) == Some((t, a)) by {
      assert s[a] == n[0];
      WordThenSpaceReads(s, i, t);
    }
    assert RunEnd(s, a, IsWordChar) == |s| by { WordRun(s, a, n); }
    assert s[a..|s|] == n;
  }

  /** With no blank after the name, no type-blank-name follows it. */
  lemma PropertyTailFailsAtLastWord(s: string, i: nat, n: string)
    requires IsWord(n) && i + |n| == |s| && s[i..] == n
    ensures PropertyTailAt(s, i) == None
  {
    WordRun(s, i, n);
  }

  /** After the visibility group: `static <type> <name>`. */
  lemma StaticPropertyReads(s: string, j: nat, vis: Option<string>, t: string, n: string)
    requires IsWord(t) && IsWord(n)
    requires j + 7 + |t| + 1 + |n| == |s|
    requires s[j..] == "static " + t + " " + n
    ensures PropertyAfterVisibility(s, j, vis) == Some(PropertyMatch(vis, true, t, n))
  {
    var u := s[j..];
    assert s[j..j + 6] == "static" by { assert s[j..j + 6] == u[..6]; }
    assert s[j + 6] == u[6] == ' ';
    assert s[j + 7] == u[7] == t[0];
    BlankRun(s, j + 6);
    assert StaticAt(s, j) == Some(j + 7);
    assert s[j + 7..] == t + " " + n by { assert s[j + 7..] == u[7..]; }
    PropertyTailReads(s, j + 7, t, n);
  }

  /** After the visibility group: `<type> <name>`, even when the type is
      the word `static`. */
  lemma PlainPropertyReads(s: string, j: nat, vis: Option<string>, t: string, n: string)
    requires IsWord(t) && IsWord(n)
    requires j + |t| + 1 + |n| == |s|
    requires s[j..] == t + " " + n
    ensures PropertyAfterVisibility(s, j, vis) == Some(PropertyMatch(vis, false, t, n))
  {
    var u := s[j..];
    PropertyTailReads(s, j, t, n);
    assert s[j..j + |t|] == t by { assert s[j..j + |t|] == u[..|t|]; }
    assert s[j + |t|] == u[|t|] == ' ';
    if t != "static" {
      NoStaticBeforeOtherWord(s, j, t);
    } else {
      // `static` was the type itself: nothing is left for the name.
      StaticTypeLeavesNoName(s, j, n);
    }
  }

  /** With `static ` followed by a last word, the `static` group takes the
      blank and no type-blank-name follows. */
  lemma StaticTypeLeavesNoName(s: string, j: nat, n: string)
    requires IsWord(n) && j + 7 + |n| == |s|
    requires s[j..j + 6] == "static" && s[j + 6] == ' ' && s[j + 7..] == n
    ensures StaticAt(s, j) == Some(j + 7)
    ensures PropertyTailAt(s, j + 7) == None
  {
    assert s[j + 7] == n[0];
    BlankRun(s, j + 6);
    PropertyTailFailsAtLastWord(s, j + 7, n);
  }

  /** At the start of `<visibility> [static] <type> <name>`, the pattern
      takes every group as written. */
  lemma PropertyMatchOfParts(s: string, v: Visibility, isStatic: bool, t: string, n: string)
    requires IsWord(t) && IsWord(n)
    requires s == (VisibilityString(v) + " ") + ((if isStatic then "static " else "") + t + " " + n)
    ensures PropertyMatchAt(s, 0) == Some(PropertyMatch(Some(VisibilityString(v)), isStatic, t, n))
  {
    var w := VisibilityString(v);
    var j := |w| + 1;
    var q := (if isStatic then "static " else "") + t + " " + n;
    assert VisibilityWordAt(s, 0) == Some((w, j)) by {
      StartsWithConcat(w + " ", q);
      assert s[j] == q[0];
      VisibilityKeyword(s, v);
    }
    assert s[j..] == q;
    if isStatic {
      StaticPropertyReads(s, j, Some(w), t, n);
    } else {
      PlainPropertyReads(s, j, Some(w), t, n);
    }
  }

  /** At the start of a written property declaration, the pattern takes
      every group as written. */
  lemma PropertyMatchReads(p: Property)
    requires IsWord(p.typ) && IsWord(p.name)
    ensures PropertyMatchAt(PropertyDeclaration(p), 0)
            == Some(PropertyMatch(Some(VisibilityString(p.visibility)), p.isStatic, p.typ, p.name))
  {
    var w := VisibilityString(p.visibility);
    var q := (if p.isStatic then "static " else "") + p.typ + " " + p.name;
    assert PropertyDeclaration(p) == (w + " ") + q;
    PropertyMatchOfParts(PropertyDeclaration(p), p.visibility, p.isStatic, p.typ, p.name);
  }

  /** A written property declaration parses back to the property, with
      `isFinal` false and no initial value, as the importer leaves them. */
  lemma PropertyRoundTrip(p: Property)
    requires IsWord(p.typ) && IsWord(p.name)
    ensures ParsePropertyDeclaration(PropertyDeclaration(p)) == Some(p.(isFinal := false, initialValue := None))
  {
    var s := PropertyDeclaration(p);
    PropertyMatchReads(p);
    assert PropertyPosition(s, 0) == Some(0);
    ImportFacts.ParseVisibilityRoundTrip(p.visibility);
  }

  // ---------------------------------------------------------------------
  // Parameters

  /** A predicate holding of every character of the parts and of the
      separator holds of every character of the join. */
  lemma {:induction false} JoinChars(parts: seq<string>, sep: string, p: char -> bool)
    requires forall k, m :: 0 <= k < |parts| && 0 <= m < |parts[k]| ==> p(parts[k][m])
    requires forall m :: 0 <= m < |sep| ==> p(sep[m])
    ensures forall m :: 0 <= m < |Join(parts, sep)| ==> p(Join(parts, sep)[m])
    decreases |parts|
  {
    if |parts| > 1 {
      JoinChars(parts[1..], sep, p);
      var j := Join(parts, sep);
      var rest := Join(parts[1..], sep);
      assert j == parts[0] + sep + rest;
      forall m | 0 <= m < |j| ensures p(j[m]) {
        if m < |parts[0]| {
          assert j[m] == parts[0][m];
        } else if m < |parts[0]| + |sep| {
          assert j[m] == sep[m - |parts[0]|];
        } else {
          assert j[m] == rest[m - |parts[0]| - |sep|];
        }
      }
    } else if |parts| == 1 {
      assert Join(parts, sep) == parts[0];
    }
  }

  /** Appending to the join appends to its last part. */
  lemma {:induction false} JoinAppendLast(parts: seq<string>, sep: string, x: string)
    requires |parts| >= 1
    ensures Join(parts[..|parts| - 1] + [parts[|parts| - 1] + x], sep) == Join(parts, sep) + x
    decreases |parts|
  {
    var n := |parts|;
    var q := parts[..n - 1] + [parts[n - 1] + x];
    if n > 1 {
      JoinAppendLast(parts[1..], sep, x);
      assert q[0] == parts[0];
      assert q[1..] == parts[1..][..n - 2] + [parts[1..][n - 2] + x];
      assert Join(q, sep) == parts[0] + sep + Join(q[1..], sep);
    }
  }

  predicate ParameterListChar(c: char) {
    IsWordChar(c) || c == ',' || c == ' '
  }

  /** A list of word parameters uses words, commas and blanks only. */
  lemma ParameterListChars(ps: seq<Parameter>)
    requires forall k :: 0 <= k < |ps| ==> WordParameter(ps[k])
    ensures forall m :: 0 <= m < |ParameterList(ps)| ==> ParameterListChar(ParameterList(ps)[m])
  {
    var texts := seq(|ps|, k requires 0 <= k < |ps| => ParameterDeclaration(ps[k]));
    forall k, m | 0 <= k < |texts| && 0 <= m < |texts[k]| ensures ParameterListChar(texts[k][m]) {
      var p := ps[k];
      assert texts[k] == p.typ + " " + p.name;
      if m < |p.typ| {
        assert texts[k][m] == p.typ[m];
      } else if m > |p.typ| {
        assert texts[k][m] == p.name[m - |p.typ| - 1];
      }
    }
    JoinChars(texts, ", ", ParameterListChar);
  }

  /** The blank-separated tokens of `<type> <name>`. */
  lemma DeclarationTokens(p: Parameter)
    requires WordParameter(p)
    ensures var t := ParameterDeclaration(p);
            && RunEnd(t, 0, NotSpace) == |p.typ|
            && RunEnd(t, |p.typ|, IsSpace) == |p.typ| + 1
            && RunEnd(t, |p.typ| + 1, NotSpace) == |t|
            && t[..|p.typ|] == p.typ
            && t[|p.typ| + 1..] == p.name
  {
    var t := ParameterDeclaration(p);
    forall k | 0 <= k < |p.typ| ensures NotSpace(t[k]) {
      assert t[k] == p.typ[k];
    }
    RunEndAt(t, 0, NotSpace, |p.typ|);
    RunEndAt(t, |p.typ|, IsSpace, |p.typ| + 1);
    forall k | |p.typ| + 1 <= k < |t| ensures NotSpace(t[k]) {
      assert t[k] == p.name[k - |p.typ| - 1];
    }
    RunEndAt(t, |p.typ| + 1, NotSpace, |t|);
  }

  /** A piece that trims to `<type> <name>` reads as that parameter. */
  lemma ParameterFromTrimmed(piece: string, p: Parameter)
    requires WordParameter(p)
    requires Trim(piece) == ParameterDeclaration(p)
    ensures ParameterFrom(piece) == p
  {
    DeclarationTokens(p);
  }

  /** One piece `<blank?><type> <name><blank?>` reads as that parameter. */
  lemma ParameterFromReads(x: string, p: Parameter, y: string)
    requires WordParameter(p)
    requires AllSpaces(x) && AllSpaces(y)
    ensures ParameterFrom(x + ParameterDeclaration(p) + y) == p
  {
    var t := ParameterDeclaration(p);
    assert t[0] == p.typ[0] && t[|t| - 1] == p.name[|p.name| - 1];
    TrimExact(x, t, y);
    ParameterFromTrimmed(x + t + y, p);
  }

  /** Text starting with a non-blank does not trim to nothing. */
  lemma TrimNonBlank(s: string)
    requires |s| > 0 && !IsSpace(s[0])
    ensures Trim(s) != ""
  {
  }

  function ParameterTexts(ps: seq<Parameter>): (r: seq<string>)
    ensures |r| == |ps|
  {
    seq(|ps|, k requires 0 <= k < |ps| => ParameterDeclaration(ps[k]))
  }

  /** The pad lands on the last part. */
  function PadLast(texts: seq<string>, pad: string): (r: seq<string>)
    requires |texts| > 0
    ensures |r| == |texts|
  {
    texts[..|texts| - 1] + [texts[|texts| - 1] + pad]
  }

  lemma PadLastNoComma(ps: seq<Parameter>, pad: string)
    requires |ps| > 0
    requires forall k :: 0 <= k < |ps| ==> WordParameter(ps[k])
    requires pad == "" || pad == " "
    ensures forall k :: 0 <= k < |ps| ==> ',' !in PadLast(ParameterTexts(ps), pad)[k]
  {
    var texts := ParameterTexts(ps);
    var last := PadLast(texts, pad);
    var n := |ps|;
    forall k | 0 <= k < n ensures ',' !in last[k] {
      var p := ps[k];
      forall m | 0 <= m < |last[k]| ensures last[k][m] != ',' {
        if k < n - 1 {
          assert last[k] == p.typ + " " + p.name;
        } else {
          assert last[k] == p.typ + " " + p.name + pad;
        }
        if m < |p.typ| {
          assert last[k][m] == p.typ[m];
        } else if |p.typ| < m < |p.typ| + 1 + |p.name| {
          assert last[k][m] == p.name[m - |p.typ| - 1];
        }
      }
    }
  }

  /** Splitting a written list on commas gives one piece per parameter:
      the first as written, the others after one blank, the pad on the last. */
  lemma ParameterListPieces(ps: seq<Parameter>, pad: string)
    requires |ps| > 0
    requires forall k :: 0 <= k < |ps| ==> WordParameter(ps[k])
    requires pad == "" || pad == " "
    ensures |Split(ParameterList(ps) + pad, ',')| == |ps|
    ensures forall k :: 0 <= k < |ps| ==>
              Split(ParameterList(ps) + pad, ',')[k]
              == (if k == 0 then "" else " ") + ParameterTexts(ps)[k] + (if k == |ps| - 1 then pad else "")
  {
    var texts := ParameterTexts(ps);
    var last := PadLast(texts, pad);
    var n := |ps|;
    JoinAppendLast(texts, ", ", pad);
    PadLastNoComma(ps, pad);
    assert ", " == [','] + " ";
    SplitJoin(last, ',', " ");
    var pieces := Split(ParameterList(ps) + pad, ',');
    assert pieces == [last[0]] + PrefixEach(" ", last[1..]);
    forall k | 0 <= k < n
      ensures pieces[k] == (if k == 0 then "" else " ") + texts[k] + (if k == n - 1 then pad else "")
    {
      if k == 0 {
        assert pieces[k] == last[0];
      } else {
        assert pieces[k] == " " + last[1..][k - 1];
      }
    }
  }

  /** A non-empty written list starts with the first type's first letter. */
  lemma ParameterListHead(ps: seq<Parameter>, pad: string)
    requires |ps| > 0
    requires WordParameter(ps[0])
    ensures |ParameterList(ps) + pad| > 0 && (ParameterList(ps) + pad)[0] == ps[0].typ[0]
  {
    var texts := ParameterTexts(ps);
    assert texts[0] == ps[0].typ + " " + ps[0].name;
    if |ps| > 1 {
      assert Join(texts, ", ") == texts[0] + ", " + Join(texts[1..], ", ");
    }
  }

  /** The pieces of a written list read as the parameters. */
  lemma PiecesRead(ps: seq<Parameter>, pad: string, pieces: seq<string>)
    requires |ps| > 0 && |pieces| == |ps|
    requires forall k :: 0 <= k < |ps| ==> WordParameter(ps[k])
    requires pad == "" || pad == " "
    requires forall k :: 0 <= k < |ps| ==>
               pieces[k] == (if k == 0 then "" else " ") + ParameterTexts(ps)[k] + (if k == |ps| - 1 then pad else "")
    ensures seq(|pieces|, k requires 0 <= k < |pieces| => ParameterFrom(pieces[k])) == ps
  {
    forall k | 0 <= k < |ps| ensures ParameterFrom(pieces[k]) == ps[k] {
      var x := if k == 0 then "" else " ";
      var y := if k == |ps| - 1 then pad else "";
      ParameterFromReads(x, ps[k], y);
    }
  }

  /** Reading back a non-empty written list, piece by piece. */
  lemma NonEmptyParametersRoundTrip(ps: seq<Parameter>, pad: string)
    requires |ps| > 0
    requires forall k :: 0 <= k < |ps| ==> WordParameter(ps[k])
    requires pad == "" || pad == " "
    ensures ParseParameters(ParameterList(ps) + pad) == ps
  {
    var s := ParameterList(ps) + pad;
    assert Trim(s) != "" by {
      ParameterListHead(ps, pad);
      TrimNonBlank(s);
    }
    ParameterListPieces(ps, pad);
    PiecesRead(ps, pad, Split(s, ','));
  }

  /** A written parameter list, with at most one trailing blank, parses
      back to the parameters. */
  lemma ParametersRoundTrip(ps: seq<Parameter>, pad: string)
    requires forall k :: 0 <= k < |ps| ==> WordParameter(ps[k])
    requires pad == "" || pad == " "
    ensures ParseParameters(ParameterList(ps) + pad) == ps
  {
    if |ps| == 0 {
      assert ParameterList(ps) + pad == pad;
      TrimStartSpaces(pad, "");
      assert pad + "" == pad;
    } else {
      NonEmptyParametersRoundTrip(ps, pad);
    }
  }

  // ---------------------------------------------------------------------
  // Methods

  /** `(\w+)\s+` takes a word and the one blank after it. */
  lemma WordThenSpaceReads(s: string, i: nat, w: string)
    requires IsWord(w) && i + |w| + 1 < |s|
    requires s[i..i + |w|] == w && s[i + |w|] == ' ' && !IsSpace(s[i + |w| + 1])
    ensures WordThenSpaceAt(s, i) == Some((w, i + |w| + 1))
  {
    WordRun(s, i, w);
    BlankRun(s, i + |w|);
  }

  /** `(\w+)\s*\((.*?)\)` reads a name, `(`, a text without `)` or line
      break, and `)`. */
  lemma MethodTailReads(s: string, i: nat, name: string, params: string, rest: string)
    requires IsWord(name)
    requires forall k :: 0 <= k < |params| ==> IsParamChar(params[k])
    requires i <= |s| && s[i..] == name + "(" + params + ")" + rest
    ensures MethodTailAt(s, i) == Some((name, params))
  {
    var b := i + |name|;
    assert b < |s| && s[b] == '(' && s[i..b] == name && s[b + 1..] == params + ")" + rest by {
      var u := s[i..];
      assert s[i..b] == u[..|name|];
      assert s[b] == u[|name|];
      assert s[b + 1..] == u[|name| + 1..];
    }
    assert RunEnd(s, i, IsWordChar) == b by { WordRun(s, i, name); }
    assert RunEnd(s, b, IsSpace) == b by { RunEndAt(s, b, IsSpace, b); }
    ParamsRun(s, b + 1, params, rest);
  }

  /** A parameter text followed by `)` is one run of parameter characters. */
  lemma ParamsRun(s: string, i: nat, params: string, rest: string)
    requires forall k :: 0 <= k < |params| ==> IsParamChar(params[k])
    requires i <= |s| && s[i..] == params + ")" + rest
    ensures i + |params| < |s| && RunEnd(s, i, IsParamChar) == i + |params|
    ensures s[i..i + |params|] == params
  {
    var u := s[i..];
    forall k | i <= k < i + |params| ensures IsParamChar(s[k]) {
      assert s[k] == u[k - i] == params[k - i];
    }
    assert s[i + |params|] == u[|params|] == ')';
    RunEndAt(s, i, IsParamChar, i + |params|);
    assert s[i..i + |params|] == u[..|params|];
  }

  /** The text after the `static` group: `<type> <name>(<params>)<rest>`. */
  function MethodSuffix(ret: string, name: string, params: string, rest: string): string {
    ret + " " + (name + "(" + params + ")" + rest)
  }

  /** From the return-type group on, a written suffix reads as its parts. */
  lemma MethodSuffixReads(s: string, b: nat, vis: Option<string>, isStatic: bool,
                          ret: string, name: string, params: string, rest: string)
    requires IsWord(ret) && IsWord(name)
    requires forall k :: 0 <= k < |params| ==> IsParamChar(params[k])
    requires b <= |s| && s[b..] == MethodSuffix(ret, name, params, rest)
    ensures MethodAfterStatic(s, b, vis, isStatic) == Some(MethodMatch(vis, isStatic, Some(ret), name, params))
  {
    var tail := name + "(" + params + ")" + rest;
    var i := b + |ret| + 1;
    assert WordThenSpaceAt(s, b) == Some((ret, i)) by {
      var u := s[b..];
      assert s[b..b + |ret|] == u[..|ret|] == ret;
      assert s[b + |ret|] == u[|ret|] == ' ';
      assert s[i] == u[|ret| + 1] == name[0];
      WordThenSpaceReads(s, b, ret);
    }
    assert MethodTailAt(s, i) == Some((name, params)) by {
      var u := s[b..];
      assert s[i..] == u[|ret| + 1..] == tail;
      MethodTailReads(s, i, name, params, rest);
    }
  }

  /** With `static` written, the `static` group takes it and one blank. */
  lemma StaticMethodReads(s: string, j: nat, vis: Option<string>,
                          ret: string, name: string, params: string, rest: string)
    requires IsWord(ret) && IsWord(name)
    requires forall k :: 0 <= k < |params| ==> IsParamChar(params[k])
    requires j <= |s| && s[j..] == "static " + MethodSuffix(ret, name, params, rest)
    ensures MethodAfterVisibility(s, j, vis) == Some(MethodMatch(vis, true, Some(ret), name, params))
  {
    var u := s[j..];
    assert s[j..j + 6] == "static" by { assert s[j..j + 6] == u[..6]; }
    assert s[j + 6] == u[6] == ' ';
    assert s[j + 7] == u[7] == ret[0];
    BlankRun(s, j + 6);
    assert s[j + 7..] == MethodSuffix(ret, name, params, rest) by { assert s[j + 7..] == u[7..]; }
    MethodSuffixReads(s, j + 7, vis, true, ret, name, params, rest);
  }

  /** Without `static`, and with a return type other than the word
      `static`, the `static` group stays empty. */
  lemma PlainMethodReads(s: string, j: nat, vis: Option<string>,
                         ret: string, name: string, params: string, rest: string)
    requires IsWord(ret) && IsWord(name) && ret != "static"
    requires forall k :: 0 <= k < |params| ==> IsParamChar(params[k])
    requires j <= |s| && s[j..] == MethodSuffix(ret, name, params, rest)
    ensures MethodAfterVisibility(s, j, vis) == Some(MethodMatch(vis, false, Some(ret), name, params))
  {
    var u := s[j..];
    assert s[j..j + |ret|] == ret by { assert s[j..j + |ret|] == u[..|ret|]; }
    assert s[j + |ret|] == u[|ret|] == ' ';
    NoStaticBeforeOtherWord(s, j, ret);
    MethodSuffixReads(s, j, vis, false, ret, name, params, rest);
  }

  /** The six letters of `static` are word characters. */
  lemma StaticLetters(s: string, j: nat)
    requires StartsAt(s, j, "static")
    ensures forall k :: j <= k < j + 6 ==> IsWordChar(s[k])
  {
    forall k | j <= k < j + 6 ensures IsWordChar(s[k]) {
      assert s[k] == s[j..j + 6][k - j];
    }
  }

  /** A word other than `static`, followed by a blank, leaves the `static`
      group empty. */
  lemma NoStaticBeforeOtherWord(s: string, j: nat, w: string)
    requires IsWord(w) && w != "static"
    requires j + |w| < |s| && s[j..j + |w|] == w && s[j + |w|] == ' '
    ensures StaticAt(s, j) == None
  {
    if StartsAt(s, j, "static") {
      StaticLetters(s, j);
      if |w| > 6 {
        assert s[j + 6] == s[j..j + |w|][6];
        RunEndAt(s, j + 6, IsSpace, j + 6);
      }
    }
  }

  /** A written parameter list, padded by at most one blank, holds no
      `)` and no line break. */
  lemma ParamsTextChars(ps: seq<Parameter>, pad: string)
    requires forall k :: 0 <= k < |ps| ==> WordParameter(ps[k])
    requires pad == "" || pad == " "
    ensures forall k :: 0 <= k < |ParameterList(ps) + pad| ==> IsParamChar((ParameterList(ps) + pad)[k])
  {
    ParameterListChars(ps);
    var t := ParameterList(ps);
    forall k | 0 <= k < |t + pad| ensures IsParamChar((t + pad)[k]) {
      if k < |t| {
        assert (t + pad)[k] == t[k];
        assert ParameterListChar(t[k]);
      }
    }
  }

  /** At the start of `<visibility> [static] <suffix>`, the pattern takes
      every group as written. */
  lemma MethodMatchOfParts(s: string, v: Visibility, isStatic: bool,
                           ret: string, name: string, params: string, rest: string)
    requires IsWord(name) && IsWord(ret)
    requires !isStatic ==> ret != "static"
    requires forall k :: 0 <= k < |params| ==> IsParamChar(params[k])
    requires s == (VisibilityString(v) + " ") + ((if isStatic then "static " else "") + MethodSuffix(ret, name, params, rest))
    ensures MethodMatchAt(s, 0) == Some(MethodMatch(Some(VisibilityString(v)), isStatic, Some(ret), name, params))
  {
    var w := VisibilityString(v);
    var j := |w| + 1;
    var q := (if isStatic then "static " else "") + MethodSuffix(ret, name, params, rest);
    assert VisibilityWordAt(s, 0) == Some((w, j)) by {
      StartsWithConcat(w + " ", q);
      assert s[j] == q[0];
      VisibilityKeyword(s, v);
    }
    assert s[j..] == q;
    if isStatic {
      StaticMethodReads(s, j, Some(w), ret, name, params, rest);
    } else {
      PlainMethodReads(s, j, Some(w), ret, name, params, rest);
    }
  }

  /** At the start of a written method declaration, the pattern takes
      every group as written. */
  lemma MethodMatchReads(m: Method, pad: string, rest: string)
    requires IsWord(m.name) && IsWord(m.returnType)
    requires !m.isStatic ==> m.returnType != "static"
    requires forall k :: 0 <= k < |m.parameters| ==> WordParameter(m.parameters[k])
    requires pad == "" || pad == " "
    ensures MethodMatchAt(MethodDeclaration(m, pad, rest), 0)
            == Some(MethodMatch(Some(VisibilityString(m.visibility)), m.isStatic, Some(m.returnType), m.name,
                                ParameterList(m.parameters) + pad))
  {
    var params := ParameterList(m.parameters) + pad;
    ParamsTextChars(m.parameters, pad);
    MethodMatchOfParts(MethodDeclaration(m, pad, rest), m.visibility, m.isStatic, m.returnType, m.name, params, rest);
  }

  /** A written method declaration, with at most one blank before `)` and
      anything after it, parses back to the method, with `isFinal` false
      and no code, as the importer leaves them. A non-static method whose
      return type is the word `static` is excluded: the pattern reads that
      word as the modifier. */
  lemma MethodRoundTrip(m: Method, pad: string, rest: string)
    requires IsWord(m.name) && IsWord(m.returnType)
    requires !m.isStatic ==> m.returnType != "static"
    requires forall k :: 0 <= k < |m.parameters| ==> WordParameter(m.parameters[k])
    requires pad == "" || pad == " "
    ensures ParseMethodDeclaration(MethodDeclaration(m, pad, rest)) == Some(m.(isFinal := false, insideCode := None))
  {
    var s := MethodDeclaration(m, pad, rest);
    MethodMatchReads(m, pad, rest);
    assert MethodPosition(s, 0) == Some(0);
    ImportFacts.ParseVisibilityRoundTrip(m.visibility);
    ParametersRoundTrip(m.parameters, pad);
  }

  /** In a name written straight against `(`, a keyword at the front is
      followed by no blank. */
  lemma KeywordInsideName(s: string, name: string, kw: string)
    requires IsWord(name) && |name| < |s| && s[..|name|] == name && s[|name|] == '('
    requires IsWord(kw) && StartsAt(s, 0, kw)
    ensures RunEnd(s, |kw|, IsSpace) == |kw|
  {
    if |kw| < |s| {
      if |kw| < |name| {
        assert s[|kw|] == name[|kw|];
      }
      assert !IsSpace(s[|kw|]);
    }
    RunEndAt(s, |kw|, IsSpace, |kw|);
  }

  /** A name written straight against `(` is neither a visibility word
      nor `static` followed by a blank, nor a return type. */
  lemma NoModifierBeforeParen(s: string, name: string)
    requires IsWord(name) && |name| < |s| && s[..|name|] == name && s[|name|] == '('
    ensures VisibilityWordAt(s, 0).None? && StaticAt(s, 0).None? && WordThenSpaceAt(s, 0).None?
  {
    NoVisibilityBeforeParen(s, name);
    if StartsAt(s, 0, "static") { KeywordInsideName(s, name, "static"); }
    WordRun(s, 0, name);
    RunEndAt(s, |name|, IsSpace, |name|);
  }

  /** A name written straight against `(` is not a visibility word
      followed by a blank. */
  lemma NoVisibilityBeforeParen(s: string, name: string)
    requires IsWord(name) && |name| < |s| && s[..|name|] == name && s[|name|] == '('
    ensures VisibilityWordAt(s, 0).None?
  {
    if StartsAt(s, 0, "public") {
      KeywordInsideName(s, name, "public");
    } else if StartsAt(s, 0, "private") {
      KeywordInsideName(s, name, "private");
    } else if StartsAt(s, 0, "protected") {
      KeywordInsideName(s, name, "protected");
    }
  }

  /** At the start of `<name>(<params>)<rest>`, the pattern takes no
      modifier and no return type. */
  lemma BareMethodMatch(s: string, name: string, params: string, rest: string)
    requires IsWord(name)
    requires forall k :: 0 <= k < |params| ==> IsParamChar(params[k])
    requires s == name + "(" + params + ")" + rest
    ensures MethodMatchAt(s, 0) == Some(MethodMatch(None, false, None, name, params))
  {
    assert s[0..] == s;
    MethodTailReads(s, 0, name, params, rest);
    assert s[..|name|] == name && s[|name|] == '(';
    NoModifierBeforeParen(s, name);
  }

  /** A declaration with no modifier and no return type,
      `<name>(<parameters>)<rest>`, reads as a public, non-static method
      whose return type is `void`. */
  lemma BareMethodReadsVoid(name: string, ps: seq<Parameter>, pad: string, rest: string)
    requires IsWord(name)
    requires forall k :: 0 <= k < |ps| ==> WordParameter(ps[k])
    requires pad == "" || pad == " "
    ensures ParseMethodDeclaration(name + "(" + (ParameterList(ps) + pad) + ")" + rest)
            == Some(Method(name, "void", ps, Public, false, false, None))
  {
    var params := ParameterList(ps) + pad;
    var s := name + "(" + params + ")" + rest;
    ParamsTextChars(ps, pad);
    BareMethodMatch(s, name, params, rest);
    assert MethodPosition(s, 0) == Some(0);
    ParametersRoundTrip(ps, pad);
  }
}
