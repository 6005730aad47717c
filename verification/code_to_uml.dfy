/** The Java-text importer (src/utils/codeToUml.ts): comment removal and
    white-space normalisation, the class/interface scanner, the member
    parsers, and the conversion of parsed classes into canvas nodes and
    edges. Every regular expression of the importer is written out as a
    recogniser that picks the same match the backtracking engine picks:
    optional groups are tried present-first and, where the next pattern
    element cannot start with the same character, `\w+` and `\s+` take
    the longest run. */
module CodeToUml {
  import opened Wrappers
  import opened Strings
  import opened Types
  import Seqs

  // ---------------------------------------------------------------------
  // Character runs

  /** The end of the longest run of characters satisfying `p` from `i`. */
  function RunEnd(s: string, i: nat, p: char -> bool): (r: nat)
    requires i <= |s|
    ensures i <= r <= |s|
    ensures forall k :: i <= k < r ==> p(s[k])
    ensures r < |s| ==> !p(s[r])
    decreases |s| - i
  {
    if i < |s| && p(s[i]) then RunEnd(s, i + 1, p) else i
  }

  /** A run is pinned down by where it stops. */
  lemma {:induction false} RunEndAt(s: string, i: nat, p: char -> bool, j: nat)
    requires i <= j <= |s|
    requires forall k :: i <= k < j ==> p(s[k])
    requires j < |s| ==> !p(s[j])
    ensures RunEnd(s, i, p) == j
    decreases j - i
  {
    if i < j {
      RunEndAt(s, i + 1, p, j);
    }
  }

  predicate NotSpace(c: char) { !IsSpace(c) }

  /** `[\w,\s]`. */
  predicate IsImplementsChar(c: char) { IsWordChar(c) || c == ',' || IsSpace(c) }

  /** `[^}]`. */
  predicate NotCloseBrace(c: char) { c != '}' }

  /** What the lazy `.*?` before `\)` walks over. */
  predicate IsParamChar(c: char) { !IsLineTerminator(c) && c != ')' }

  predicate NotLineTerminator(c: char) { !IsLineTerminator(c) }

  // ---------------------------------------------------------------------
  // Normalisation (lines 15-19)

  /** The first comment closer (star, slash) starting at or after `i`. */
  function CommentCloseFrom(s: string, i: nat): (r: Option<nat>)
    requires i <= |s|
    ensures r.Some? ==> i <= r.value && StartsAt(s, r.value, "*/")
                        && forall k :: i <= k < r.value ==> !StartsAt(s, k, "*/")
    ensures r.None? ==> forall k :: i <= k <= |s| ==> !StartsAt(s, k, "*/")
    decreases |s| - i
  {
    if i + 2 > |s| then None
    else if StartsAt(s, i, "*/") then Some(i)
    else CommentCloseFrom(s, i + 1)
  }

  // The block-comment replacement of line 16: from left to right, each
  // comment opener (slash, star) goes together with the nearest closer
  // after it and the text between; an opener without a closer stays.
  function StripBlockComments(s: string): (r: string)
    ensures |r| <= |s|
    decreases |s|
  {
    if |s| == 0 then ""
    else if StartsAt(s, 0, "/*") then
      match CommentCloseFrom(s, 2)
      case Some(k) => StripBlockComments(s[k + 2..])
      case None => [s[0]] + StripBlockComments(s[1..])
    else [s[0]] + StripBlockComments(s[1..])
  }

  // The line-comment replacement of line 17: each `//` goes together with
  // the rest of its line; the line terminator stays.
  function StripLineComments(s: string): (r: string)
    ensures |r| <= |s|
    decreases |s|
  {
    if |s| == 0 then ""
    else if StartsAt(s, 0, "//") then StripLineComments(s[RunEnd(s, 2, NotLineTerminator)..])
    else [s[0]] + StripLineComments(s[1..])
  }

  /** No white space but single blanks. */
  predicate SingleSpaced(t: string) {
    && (forall k :: 0 <= k < |t| && IsSpace(t[k]) ==> t[k] == ' ')
    && (forall k :: 0 <= k < |t| - 1 ==> !(t[k] == ' ' && t[k + 1] == ' '))
  }

  /** `replace(/\s+/g, ' ')`: every run of white space becomes one blank;
      the other characters are kept, in order. */
  function CollapseSpace(s: string): (r: string)
    ensures SingleSpaced(r)
    ensures Seqs.Filter(r, NotSpace) == Seqs.Filter(s, NotSpace)
    ensures |s| > 0 ==> |r| > 0 && (IsSpace(r[0]) <==> IsSpace(s[0]))
    ensures |r| <= |s|
    decreases |s|
  {
    if |s| == 0 then ""
    else if IsSpace(s[0]) then
      var a := RunEnd(s, 1, IsSpace);
      var t := CollapseSpace(s[a..]);
      SpacesFilterOut(s, a);
      assert (" " + t)[1..] == t;
      " " + t
    else
      var t := CollapseSpace(s[1..]);
      assert ([s[0]] + t)[1..] == t;
      [s[0]] + t
  }

  /** Leading white space contributes nothing to the non-blank text. */
  lemma SpacesFilterOut(s: string, a: nat)
    requires a <= |s| && forall k :: 0 <= k < a ==> IsSpace(s[k])
    ensures Seqs.Filter(s, NotSpace) == Seqs.Filter(s[a..], NotSpace)
  {
    var x, y := s[..a], s[a..];
    assert s == x + y;
    assert forall k :: 0 <= k < |x| ==> !NotSpace(x[k]);
    Seqs.FilterAppend(x, y, NotSpace);
    Seqs.FilterNoneKept(x, NotSpace);
  }

  /** Trimming contributes nothing to the non-blank text either. */
  lemma TrimKeepsText(c: string)
    ensures Seqs.Filter(Trim(c), NotSpace) == Seqs.Filter(c, NotSpace)
  {
    var a, b :| 0 <= a <= b <= |c| && Trim(c) == c[a..b]
                && (forall i :: 0 <= i < a ==> IsSpace(c[i]))
                && (forall i :: b <= i < |c| ==> IsSpace(c[i]));
    assert c == c[..b] + c[b..];
    Seqs.FilterAppend(c[..b], c[b..], NotSpace);
    Seqs.FilterNoneKept(c[b..], NotSpace);
    SpacesFilterOut(c[..b], a);
    assert c[..b][a..] == c[a..b];
  }

  /** Text in the shape the scanner receives it. */
  predicate Normalized(t: string) {
    && SingleSpaced(t)
    && (|t| > 0 ==> !IsSpace(t[0]) && !IsSpace(t[|t| - 1]))
  }

  /** A slice of single-spaced text is single-spaced. */
  lemma SliceSingleSpaced(s: string, a: nat, b: nat)
    requires SingleSpaced(s)
    requires a <= b <= |s|
    ensures SingleSpaced(s[a..b])
  {
    var t := s[a..b];
    forall k | 0 <= k < |t| - 1 ensures !(t[k] == ' ' && t[k + 1] == ' ') {
      assert t[k] == s[a + k] && t[k + 1] == s[a + k + 1];
    }
    forall k | 0 <= k < |t| && IsSpace(t[k]) ensures t[k] == ' ' {
      assert t[k] == s[a + k];
    }
  }

  /** `cleanCode`. */
  function Normalize(code: string): (r: string)
    ensures Normalized(r)
    ensures Seqs.Filter(r, NotSpace) == Seqs.Filter(StripLineComments(StripBlockComments(code)), NotSpace)
  {
    var c := CollapseSpace(StripLineComments(StripBlockComments(code)));
    var r := Trim(c);
    TrimKeepsText(c);
    var a, b :| 0 <= a <= b <= |c| && r == c[a..b];
    SliceSingleSpaced(c, a, b);
    r
  }

  // ---------------------------------------------------------------------
  // Class and interface declarations (lines 22-27)

  /** One match of the class pattern: the keyword, the name, the optional
      `extends` word, the optional `implements` text, the body between the
      braces, and the index just past the closing brace. */
  datatype ClassMatch = ClassMatch(
    isInterface: bool,
    name: string,
    ext: Option<string>,
    impl: Option<string>,
    body: string,
    end: nat)

  /** `(class|interface)` at `i`, and the index after it. */
  function KeywordAt(s: string, i: nat): (r: Option<(bool, nat)>)
    ensures r.Some? ==> r.value.1 <= |s| && i < r.value.1
  {
    if StartsAt(s, i, "class") then Some((false, i + 5))
    else if StartsAt(s, i, "interface") then Some((true, i + 9))
    else None
  }

  /** `\s+(\w+)` at `i`: the word and the index after it. */
  function SpacedWordAt(s: string, i: nat): (r: Option<(string, nat)>)
    requires i <= |s|
    ensures r.Some? ==> i < r.value.1 <= |s| && IsWord(r.value.0)
  {
    var a := RunEnd(s, i, IsSpace);
    if a == i then None
    else
      var b := RunEnd(s, a, IsWordChar);
      if b == a then None else Some((s[a..b], b))
  }

  /** `(?:\s+extends\s+(\w+))` at `i`. */
  function ExtendsAt(s: string, i: nat): (r: Option<(string, nat)>)
    requires i <= |s|
    ensures r.Some? ==> i < r.value.1 <= |s| && IsWord(r.value.0)
  {
    var a := RunEnd(s, i, IsSpace);
    if a == i || !StartsAt(s, a, "extends") then None
    else SpacedWordAt(s, a + 7)
  }

  /** `(?:\s+implements\s+([\w,\s]+))` at `i`, in a match that must go on
      with `\s*{`: the captured text runs up to the brace. When no word or
      comma follows the blanks, the engine gives the capture the last of
      at least two blanks. */
  function ImplementsAt(s: string, i: nat): (r: Option<(string, nat)>)
    requires i <= |s|
    ensures r.Some? ==> i < r.value.1 < |s| && s[r.value.1] == '{' && |r.value.0| > 0
  {
    var a := RunEnd(s, i, IsSpace);
    if a == i || !StartsAt(s, a, "implements") then None
    else
      var c := a + 10;
      var d := RunEnd(s, c, IsSpace);
      if d == c then None
      else
        var e := RunEnd(s, d, IsImplementsChar);
        if e > d then
          if e < |s| && s[e] == '{' then Some((s[d..e], e)) else None
        else if d - c >= 2 && d < |s| && s[d] == '{' then Some((s[d - 1..d], d))
        else None
  }

  /** `\s*{([^}]+)}` at `i`: the body and the index after the closing brace. */
  function BodyAt(s: string, i: nat): (r: Option<(string, nat)>)
    requires i <= |s|
    ensures r.Some? ==> && i < r.value.1 <= |s| && s[r.value.1 - 1] == '}'
                        && |r.value.0| > 0 && '}' !in r.value.0
  {
    var a := RunEnd(s, i, IsSpace);
    if a == |s| || s[a] != '{' then None
    else
      var q := RunEnd(s, a + 1, NotCloseBrace);
      if q == |s| || q == a + 1 then None
      else
        Some((s[a + 1..q], q + 1))
  }

  /** The class pattern anchored at `i`. */
  function MatchClassAt(s: string, i: nat): (r: Option<ClassMatch>)
    ensures r.Some? ==> i < r.value.end <= |s|
    ensures r.Some? ==> && IsWord(r.value.name)
                        && (r.value.ext.Some? ==> IsWord(r.value.ext.value))
                        && (r.value.impl.Some? ==> |r.value.impl.value| > 0)
                        && |r.value.body| > 0
                        && '}' !in r.value.body
  {
    match KeywordAt(s, i)
    case None => None
    case Some((isInterface, p0)) =>
      match SpacedWordAt(s, p0)
      case None => None
      case Some((name, p1)) =>
        var ext := ExtendsAt(s, p1);
        var p2 := if ext.Some? then ext.value.1 else p1;
        var impl := ImplementsAt(s, p2);
        var p3 := if impl.Some? then impl.value.1 else p2;
        match BodyAt(s, p3)
        case None => None
        case Some((body, end)) =>
          Some(ClassMatch(isInterface, name,
                          if ext.Some? then Some(ext.value.0) else None,
                          if impl.Some? then Some(impl.value.0) else None,
                          body, end))
  }

  /** `classRegex.exec` in a loop: from `i`, the leftmost match, then the
      next search resumes after it. */
  function ScanClasses(s: string, i: nat): (r: seq<ClassMatch>)
    requires i <= |s|
    ensures forall k :: 0 <= k < |r| ==> IsWord(r[k].name) && '}' !in r[k].body && |r[k].body| > 0
    decreases |s| - i
  {
    if i == |s| then []
    else
      match MatchClassAt(s, i)
      case Some(m) => [m] + ScanClasses(s, m.end)
      case None => ScanClasses(s, i + 1)
  }

  // ---------------------------------------------------------------------
  // Member declarations (lines 65-105)

  /** What the method pattern captures. */
  datatype MethodMatch = MethodMatch(
    visibility: Option<string>,
    isStatic: bool,
    returnType: Option<string>,
    name: string,
    params: string)

  /** What the property pattern captures. */
  datatype PropertyMatch = PropertyMatch(
    visibility: Option<string>,
    isStatic: bool,
    typ: string,
    name: string)

  /** `(?:(public|private|protected)\s+)` at `i`. */
  function VisibilityWordAt(s: string, i: nat): (r: Option<(string, nat)>)
    ensures r.Some? ==> i < r.value.1 <= |s|
    ensures r.Some? ==> r.value.0 in ["public", "private", "protected"]
  {
    var w := if StartsAt(s, i, "public") then "public"
             else if StartsAt(s, i, "private") then "private"
             else if StartsAt(s, i, "protected") then "protected"
             else "";
    if w == "" then None
    else
      var a := RunEnd(s, i + |w|, IsSpace);
      if a == i + |w| then None else Some((w, a))
  }

  /** `(?:(static)\s+)` at `i`. */
  function StaticAt(s: string, i: nat): (r: Option<nat>)
    ensures r.Some? ==> i < r.value <= |s|
  {
    if !StartsAt(s, i, "static") then None
    else
      var a := RunEnd(s, i + 6, IsSpace);
      if a == i + 6 then None else Some(a)
  }

  /** `(\w+)\s+` at `i`. */
  function WordThenSpaceAt(s: string, i: nat): (r: Option<(string, nat)>)
    requires i <= |s|
    ensures r.Some? ==> i < r.value.1 <= |s| && IsWord(r.value.0)
  {
    var b := RunEnd(s, i, IsWordChar);
    if b == i then None
    else
      var a := RunEnd(s, b, IsSpace);
      if a == b then None else Some((s[i..b], a))
  }

  /** `(\w+)\s*\((.*?)\)` at `i`: the name and the parameter text. */
  function MethodTailAt(s: string, i: nat): (r: Option<(string, string)>)
    requires i <= |s|
    ensures r.Some? ==> IsWord(r.value.0) && ')' !in r.value.1
  {
    var b := RunEnd(s, i, IsWordChar);
    if b == i then None
    else
      var a := RunEnd(s, b, IsSpace);
      if a == |s| || s[a] != '(' then None
      else
        var c := RunEnd(s, a + 1, IsParamChar);
        if c == |s| || s[c] != ')' then None
        else Some((s[i..b], s[a + 1..c]))
  }

  /** The method pattern from the return-type group on. */
  function MethodAfterStatic(s: string, j: nat, vis: Option<string>, isStatic: bool): (r: Option<MethodMatch>)
    requires j <= |s|
    ensures r.Some? ==> IsWord(r.value.name) && ')' !in r.value.params
    ensures r.Some? && r.value.returnType.Some? ==> IsWord(r.value.returnType.value)
  {
    var withType :=
      match WordThenSpaceAt(s, j)
      case None => None
      case Some((t, k)) =>
        match MethodTailAt(s, k)
        case None => None
        case Some((n, ps)) => Some(MethodMatch(vis, isStatic, Some(t), n, ps));
    if withType.Some? then withType
    else
      match MethodTailAt(s, j)
      case None => None
      case Some((n, ps)) => Some(MethodMatch(vis, isStatic, None, n, ps))
  }

  /** The method pattern from the `static` group on. */
  function MethodAfterVisibility(s: string, j: nat, vis: Option<string>): (r: Option<MethodMatch>)
    requires j <= |s|
    ensures r.Some? ==> IsWord(r.value.name) && ')' !in r.value.params
    ensures r.Some? && r.value.returnType.Some? ==> IsWord(r.value.returnType.value)
  {
    var withStatic :=
      match StaticAt(s, j)
      case None => None
      case Some(k) => MethodAfterStatic(s, k, vis, true);
    if withStatic.Some? then withStatic else MethodAfterStatic(s, j, vis, false)
  }

  /** The method pattern anchored at `i`. */
  function MethodMatchAt(s: string, i: nat): (r: Option<MethodMatch>)
    requires i <= |s|
    ensures r.Some? ==> IsWord(r.value.name) && ')' !in r.value.params
    ensures r.Some? && r.value.returnType.Some? ==> IsWord(r.value.returnType.value)
  {
    var withVis :=
      match VisibilityWordAt(s, i)
      case None => None
      case Some((v, k)) => MethodAfterVisibility(s, k, Some(v));
    if withVis.Some? then withVis else MethodAfterVisibility(s, i, None)
  }

  /** The leftmost position at or after `i` where the method pattern
      matches. */
  function MethodPosition(s: string, i: nat): (r: Option<nat>)
    requires i <= |s|
    ensures r.Some? ==> i <= r.value <= |s| && MethodMatchAt(s, r.value).Some?
    ensures r.Some? ==> forall j :: i <= j < r.value ==> MethodMatchAt(s, j).None?
    ensures r.None? ==> forall k :: i <= k <= |s| ==> MethodMatchAt(s, k).None?
    decreases |s| - i
  {
    if MethodMatchAt(s, i).Some? then Some(i)
    else if i == |s| then None
    else MethodPosition(s, i + 1)
  }

  /** `declaration.match(methodRegex)`. */
  function SearchMethod(s: string): (r: Option<MethodMatch>) {
    match MethodPosition(s, 0)
    case Some(k) => MethodMatchAt(s, k)
    case None => None
  }

  /** `(\w+)\s+(\w+)` at `i`: the type and the name. */
  function PropertyTailAt(s: string, i: nat): (r: Option<(string, string)>)
    requires i <= |s|
    ensures r.Some? ==> IsWord(r.value.0) && IsWord(r.value.1)
  {
    match WordThenSpaceAt(s, i)
    case None => None
    case Some((t, a)) =>
      var n := RunEnd(s, a, IsWordChar);
      if n == a then None else Some((t, s[a..n]))
  }

  /** The property pattern from the `static` group on. */
  function PropertyAfterVisibility(s: string, j: nat, vis: Option<string>): (r: Option<PropertyMatch>)
    requires j <= |s|
    ensures r.Some? ==> IsWord(r.value.typ) && IsWord(r.value.name)
  {
    var withStatic :=
      match StaticAt(s, j)
      case None => None
      case Some(k) =>
        match PropertyTailAt(s, k)
        case None => None
        case Some((t, n)) => Some(PropertyMatch(vis, true, t, n));
    if withStatic.Some? then withStatic
    else
      match PropertyTailAt(s, j)
      case None => None
      case Some((t, n)) => Some(PropertyMatch(vis, false, t, n))
  }

  /** The property pattern anchored at `i`. */
  function PropertyMatchAt(s: string, i: nat): (r: Option<PropertyMatch>)
    requires i <= |s|
    ensures r.Some? ==> IsWord(r.value.typ) && IsWord(r.value.name)
  {
    var withVis :=
      match VisibilityWordAt(s, i)
      case None => None
      case Some((v, k)) => PropertyAfterVisibility(s, k, Some(v));
    if withVis.Some? then withVis else PropertyAfterVisibility(s, i, None)
  }

  /** The leftmost position at or after `i` where the property pattern
      matches. */
  function PropertyPosition(s: string, i: nat): (r: Option<nat>)
    requires i <= |s|
    ensures r.Some? ==> i <= r.value <= |s| && PropertyMatchAt(s, r.value).Some?
    ensures r.Some? ==> forall j :: i <= j < r.value ==> PropertyMatchAt(s, j).None?
    ensures r.None? ==> forall k :: i <= k <= |s| ==> PropertyMatchAt(s, k).None?
    decreases |s| - i
  {
    if PropertyMatchAt(s, i).Some? then Some(i)
    else if i == |s| then None
    else PropertyPosition(s, i + 1)
  }

  /** `declaration.match(propertyRegex)`. */
  function SearchProperty(s: string): (r: Option<PropertyMatch>) {
    match PropertyPosition(s, 0)
    case Some(k) => PropertyMatchAt(s, k)
    case None => None
  }

  /** `parseVisibility(visibility)`: case-insensitive, public by default. */
  function ParseVisibility(v: Option<string>): (r: Visibility)
    ensures v.None? ==> r == Public
  {
    match v
    case None => Public
    case Some(w) =>
      var l := ToLower(w);
      if l == "public" then Public
      else if l == "private" then Private
      else if l == "protected" then Protected
      else Public
  }

  /** One comma-separated piece of a parameter list: the first two
      blank-separated tokens of the trimmed piece, type then name; a piece
      with one token gets the empty name. */
  function ParameterFrom(piece: string): (r: Parameter)
    ensures forall k :: 0 <= k < |r.typ| ==> !IsSpace(r.typ[k])
    ensures forall k :: 0 <= k < |r.name| ==> !IsSpace(r.name[k])
  {
    var t := Trim(piece);
    var k := RunEnd(t, 0, NotSpace);
    if k == |t| then Parameter("", Token(t, 0))
    else
      var a := RunEnd(t, k, IsSpace);
      Parameter(Token(t, a), Token(t, 0))
  }

  /** The run of non-blank characters starting at `i`. */
  function Token(t: string, i: nat): (r: string)
    requires i <= |t|
    ensures forall k :: 0 <= k < |r| ==> !IsSpace(r[k])
  {
    var e := RunEnd(t, i, NotSpace);
    assert forall k :: 0 <= k < e - i ==> t[i..e][k] == t[i + k];
    t[i..e]
  }

  /** `parseParameters(params)`: nothing for blank text, otherwise one
      parameter per comma-separated piece. */
  function ParseParameters(params: string): (r: seq<Parameter>)
    ensures Trim(params) == "" ==> r == []
    ensures Trim(params) != "" ==> |r| == |Split(params, ',')|
  {
    if Trim(params) == "" then []
    else
      var pieces := Split(params, ',');
      seq(|pieces|, k requires 0 <= k < |pieces| => ParameterFrom(pieces[k]))
  }

  /** `parseMethodDeclaration(declaration)`; `None` where the source throws. */
  function ParseMethodDeclaration(d: string): (r: Option<Method>)
    ensures r.Some? ==> IsWord(r.value.name) && !r.value.isFinal && r.value.insideCode.None?
    ensures r.Some? ==> IsWord(r.value.returnType)
  {
    match SearchMethod(d)
    case None => None
    case Some(m) =>
      assert IsWord("void");
      Some(Method(m.name, m.returnType.GetOr("void"), ParseParameters(m.params),
                  ParseVisibility(m.visibility), m.isStatic, false, None))
  }

  /** `parsePropertyDeclaration(declaration)`; `None` where the source throws. */
  function ParsePropertyDeclaration(d: string): (r: Option<Property>)
    ensures r.Some? ==> IsWord(r.value.name) && IsWord(r.value.typ)
    ensures r.Some? ==> !r.value.isFinal && r.value.initialValue.None?
  {
    match SearchProperty(d)
    case None => None
    case Some(m) =>
      Some(Property(m.name, m.typ, ParseVisibility(m.visibility), m.isStatic, false, None))
  }

  // ---------------------------------------------------------------------
  // Class bodies (lines 29-59)

  function TrimEach(parts: seq<string>): (r: seq<string>)
    ensures |r| == |parts|
    ensures forall k :: 0 <= k < |parts| ==> r[k] == Trim(parts[k])
  {
    seq(|parts|, k requires 0 <= k < |parts| => Trim(parts[k]))
  }

  /** The trimmed, non-empty `;`-separated pieces of a body. */
  function Declarations(body: string): (r: seq<string>)
    ensures forall k :: 0 <= k < |r| ==> r[k] != "" && ';' !in r[k]
  {
    var pieces := Split(body, ';');
    SplitPiecesFree(body, ';');
    var trimmed := TrimEach(pieces);
    forall k | 0 <= k < |trimmed| ensures ';' !in trimmed[k] {
      var a, b :| 0 <= a <= b <= |pieces[k]| && trimmed[k] == pieces[k][a..b];
    }
    var r := Seqs.Filter(trimmed, NonEmpty);
    forall k | 0 <= k < |r| ensures ';' !in r[k] {
      Seqs.FilterMembership(trimmed, NonEmpty, r[k]);
    }
    r
  }

  /** The members one declaration yields: with `(` it is read as a method,
      without as a property, and one that does not parse yields nothing. */
  function DeclarationMembers(d: string): (r: (seq<Property>, seq<Method>))
    ensures |r.0| + |r.1| <= 1
    ensures '(' in d ==> r.0 == []
    ensures '(' !in d ==> r.1 == []
  {
    if '(' in d then
      match ParseMethodDeclaration(d)
      case Some(m) => ([], [m])
      case None => ([], [])
    else
      match ParsePropertyDeclaration(d)
      case Some(p) => ([p], [])
      case None => ([], [])
  }

  /** The properties and the methods parsed from a list of declarations,
      each in declaration order: at most one member per declaration, each
      under a word name. */
  function ParseDeclarations(ds: seq<string>): (r: (seq<Property>, seq<Method>))
    ensures |r.0| + |r.1| <= |ds|
    ensures WordMembers(r)
  {
    DeclarationsYieldWords(ds);
    Seqs.ConcatPairs(ds, DeclarationMembers)
  }

  /** Parsed members all named by words. */
  predicate WordMembers(r: (seq<Property>, seq<Method>)) {
    && (forall k :: 0 <= k < |r.0| ==> IsWord(r.0[k].name) && IsWord(r.0[k].typ))
    && (forall k :: 0 <= k < |r.1| ==> IsWord(r.1[k].name) && IsWord(r.1[k].returnType))
  }

  /** The members of a declaration list: no more than the declarations,
      all named by words. */
  lemma {:induction false} DeclarationsYieldWords(ds: seq<string>)
    ensures |Seqs.ConcatPairs(ds, DeclarationMembers).0| + |Seqs.ConcatPairs(ds, DeclarationMembers).1| <= |ds|
    ensures WordMembers(Seqs.ConcatPairs(ds, DeclarationMembers))
    decreases |ds|
  {
    if |ds| > 0 {
      var h := DeclarationMembers(ds[0]);
      var t := Seqs.ConcatPairs(ds[1..], DeclarationMembers);
      DeclarationsYieldWords(ds[1..]);
      assert Seqs.ConcatPairs(ds, DeclarationMembers) == (h.0 + t.0, h.1 + t.1);
      assert WordMembers(h);
      PairsConcatWords(h, t);
    }
  }

  lemma PairsConcatWords(h: (seq<Property>, seq<Method>), t: (seq<Property>, seq<Method>))
    requires WordMembers(h) && WordMembers(t)
    ensures WordMembers((h.0 + t.0, h.1 + t.1))
  {
    var a := h.0 + t.0;
    forall k | 0 <= k < |a| ensures IsWord(a[k].name) && IsWord(a[k].typ) {
      if k >= |h.0| { assert a[k] == t.0[k - |h.0|]; }
    }
    var b := h.1 + t.1;
    forall k | 0 <= k < |b| ensures IsWord(b[k].name) && IsWord(b[k].returnType) {
      if k >= |h.1| { assert b[k] == t.1[k - |h.1|]; }
    }
  }

  /** A class as the importer collects it. */
  datatype ParsedClass = ParsedClass(
    name: string,
    kind: NodeKind,
    methods: seq<Method>,
    properties: seq<Property>,
    ext: Option<string>,
    impls: seq<string>)

  function ToParsedClass(m: ClassMatch): (r: ParsedClass)
    ensures r.name == m.name
    ensures r.kind == (if m.isInterface then Interface else Class)
    ensures r.ext == m.ext
    ensures (r.properties, r.methods) == ParseDeclarations(Declarations(m.body))
    ensures m.impl.None? ==> r.impls == []
    ensures m.impl.Some? ==> r.impls == TrimEach(Split(m.impl.value, ','))
  {
    var members := ParseDeclarations(Declarations(m.body));
    ParsedClass(m.name, if m.isInterface then Interface else Class, members.1, members.0, m.ext,
                match m.impl
                case Some(t) => TrimEach(Split(t, ','))
                case None => [])
  }

  // ---------------------------------------------------------------------
  // Nodes and edges (lines 116-164)

  /** The canvas node of the class at `index`: its name is also its id,
      and the nodes step down a diagonal. */
  function NodeFor(c: ParsedClass, index: nat): FlowNode {
    FlowNode(c.name, Position(index * 300, index * 100),
             NodeData(c.name, c.name, c.kind, c.properties, c.methods, None, None))
  }

  function InheritanceEdge(name: string, target: string): Edge {
    Edge(name + "-" + target + "-inheritance", name, target, None, None, "inheritance")
  }

  function ImplementationEdge(name: string, target: string): Edge {
    Edge(name + "-" + target + "-implementation", name, target, None, None, "implementation")
  }

  /** The edges one class contributes: an inheritance edge when it extends
      something, then one implementation edge per implemented name. */
  function ClassEdges(c: ParsedClass): (r: seq<Edge>)
    ensures |r| == (if c.ext.Some? && c.ext.value != "" then 1 else 0) + |c.impls|
    ensures forall k :: 0 <= k < |r| ==> ImportedEdge(r[k]) && r[k].source == c.name
  {
    (if c.ext.Some? && c.ext.value != "" then [InheritanceEdge(c.name, c.ext.value)] else [])
    + seq(|c.impls|, k requires 0 <= k < |c.impls| => ImplementationEdge(c.name, c.impls[k]))
  }

  /** What every imported edge looks like: no handles, and one of the two
      lower-case kind strings. */
  predicate ImportedEdge(e: Edge) {
    && e.sourceHandle.None? && e.targetHandle.None?
    && (e.connectionType == "inheritance" || e.connectionType == "implementation")
  }

  /** The edges of all classes, class by class: none has handles and each
      has one of the two lower-case kinds. */
  function ConvertEdges(cs: seq<ParsedClass>): (r: seq<Edge>)
    ensures forall k :: 0 <= k < |r| ==> ImportedEdge(r[k])
    decreases |cs|
  {
    if |cs| == 0 then [] else ClassEdges(cs[0]) + ConvertEdges(cs[1..])
  }

  /** The nodes follow the classes in order, each under its class name
      and with the class's members, stepping 300 right and 100 down. */
  function ConvertNodes(cs: seq<ParsedClass>): (r: seq<FlowNode>)
    ensures |r| == |cs|
    ensures forall k :: 0 <= k < |cs| ==>
              && r[k].id == cs[k].name
              && r[k].node.id == cs[k].name
              && r[k].node.name == cs[k].name
              && r[k].node.kind == cs[k].kind
              && r[k].node.properties == cs[k].properties
              && r[k].node.methods == cs[k].methods
              && r[k].position == Position(300 * k, 100 * k)
  {
    seq(|cs|, k requires 0 <= k < |cs| => NodeFor(cs[k], k))
  }

  /** `parseJavaCode(code)`: one node per class found, in order and under
      the class's name, and only handle-less edges of the two lower-case
      kinds. */
  function ParseJavaCode(code: string): (r: (seq<FlowNode>, seq<Edge>))
    ensures |r.0| == |ScanClasses(Normalize(code), 0)|
    ensures forall k :: 0 <= k < |r.0| ==>
              && r.0[k].id == ScanClasses(Normalize(code), 0)[k].name
              && r.0[k].node.name == r.0[k].id
              && r.0[k].node.kind != Enum
    ensures forall k :: 0 <= k < |r.1| ==> ImportedEdge(r.1[k])
  {
    var cs := ParsedClasses(code);
    (ConvertNodes(cs), ConvertEdges(cs))
  }

  /** The classes found in the normalized text, in order, each under a
      word name and of kind CLASS or INTERFACE. */
  function ParsedClasses(code: string): (cs: seq<ParsedClass>)
    ensures |cs| == |ScanClasses(Normalize(code), 0)|
    ensures forall k :: 0 <= k < |cs| ==> IsWord(cs[k].name) && cs[k].kind != Enum
    ensures forall k :: 0 <= k < |cs| ==> cs[k] == ToParsedClass(ScanClasses(Normalize(code), 0)[k])
  {
    ToParsedClasses(ScanClasses(Normalize(code), 0))
  }

  /** Each match turned into its class, in order. */
  function ToParsedClasses(ms: seq<ClassMatch>): (cs: seq<ParsedClass>)
    requires forall k :: 0 <= k < |ms| ==> IsWord(ms[k].name)
    ensures |cs| == |ms|
    ensures forall k :: 0 <= k < |cs| ==> IsWord(cs[k].name) && cs[k].kind != Enum
    ensures forall k :: 0 <= k < |cs| ==> cs[k] == ToParsedClass(ms[k])
  {
    seq(|ms|, k requires 0 <= k < |ms| => ToParsedClass(ms[k]))
  }
}
