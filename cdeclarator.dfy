/**
 * `parse_c_arg_backend` of `dtypes.py`: splits a C argument declaration
 * such as `const float *restrict a` into a type name, looked up in a
 * name-to-dtype table, and a declarator, whose leading `*`s or trailing
 * `[...]` groups make the argument a vector.
 *
 * The declarator is found by a regular-expression search anchored at the
 * end of the string; the search is modelled deterministically: `Matches`
 * decides whether the pattern matches a whole suffix, and `SearchFrom`
 * finds the leftmost suffix it matches, as the regex engine's `search`
 * does.
 */
module CDeclarator {
  import opened Wrappers
  import DTypes

  // ------------------------------------------------------------ characters

  /** Python's `str.isspace`, which both `\s` and `str.split()` use. */
  predicate IsSpace(c: char)
  {
    c == ' ' || '\t' <= c <= '\r' || '\U{1C}' <= c <= '\U{1F}' || c == '\U{85}' || c == '\U{A0}' ||
    c == '\U{1680}' || '\U{2000}' <= c <= '\U{200A}' || c == '\U{2028}' || c == '\U{2029}' ||
    c == '\U{202F}' || c == '\U{205F}' || c == '\U{3000}'
  }

  predicate NotSpace(c: char)
  {
    !IsSpace(c)
  }

  predicate IsStar(c: char)
  {
    c == '*'
  }

  /** The class `[_a-zA-Z0-9]` of a declarator name. */
  predicate IsIdentChar(c: char)
  {
    c == '_' || 'a' <= c <= 'z' || 'A' <= c <= 'Z' || '0' <= c <= '9'
  }

  /** The class `[ 0-9]` allowed between brackets. */
  predicate IsDimChar(c: char)
  {
    c == ' ' || '0' <= c <= '9'
  }

  /** The length of the longest prefix of `t` whose characters all satisfy `f`. */
  function Span(t: string, f: char -> bool): (n: nat)
    ensures n <= |t|
  {
    if |t| > 0 && f(t[0]) then 1 + Span(t[1..], f) else 0
  }

  /** The span is the longest such prefix: every character in it satisfies `f`, the next one does not. */
  lemma {:induction false} SpanProps(t: string, f: char -> bool)
    ensures forall i :: 0 <= i < Span(t, f) ==> f(t[i])
    ensures Span(t, f) < |t| ==> !f(t[Span(t, f)])
    decreases |t|
  {
    if |t| > 0 && f(t[0]) {
      SpanProps(t[1..], f);
      assert forall i :: 0 < i < |t| ==> t[i] == t[1..][i - 1];
    }
  }

  /** The span over a prefix of `f`-characters followed by a character that is not one. */
  lemma {:induction false} SpanConcat(x: string, y: string, f: char -> bool)
    requires forall i :: 0 <= i < |x| ==> f(x[i])
    requires y == [] || !f(y[0])
    ensures Span(x + y, f) == |x|
    decreases |x|
  {
    if x != [] {
      assert (x + y)[0] == x[0];
      assert (x + y)[1..] == x[1..] + y;
      SpanConcat(x[1..], y, f);
    } else {
      assert x + y == y;
    }
  }

  // ------------------------------------------------------------ qualifiers

  ghost predicate At(s: string, pat: string, i: int)
  {
    0 <= i && i + |pat| <= |s| && s[i..i + |pat|] == pat
  }

  ghost predicate Occurs(s: string, pat: string)
  {
    exists i :: At(s, pat, i)
  }

  /**
   * `s.replace(pat, "")`: removes the occurrences of `pat` found scanning
   * left to right.  The result is shorter exactly when `pat` occurs.
   */
  function RemoveAll(s: string, pat: string): (r: string)
    requires pat != []
    ensures |r| <= |s|
    ensures !Occurs(s, pat) ==> r == s
    ensures Occurs(s, pat) ==> |r| < |s|
    decreases |s|
  {
    if |s| < |pat| then
      assert !Occurs(s, pat) by {
        forall i | At(s, pat, i)
          ensures false
        {
        }
      }
      s
    else if s[..|pat|] == pat then
      assert At(s, pat, 0);
      RemoveAll(s[|pat|..], pat)
    else
      var r := [s[0]] + RemoveAll(s[1..], pat);
      assert Occurs(s, pat) ==> Occurs(s[1..], pat) by {
        if Occurs(s, pat) {
          var i :| At(s, pat, i);
          assert i != 0;
          assert s[1..][i - 1..i - 1 + |pat|] == s[i..i + |pat|];
          assert At(s[1..], pat, i - 1);
        }
      }
      assert Occurs(s[1..], pat) ==> Occurs(s, pat) by {
        if Occurs(s[1..], pat) {
          var i :| At(s[1..], pat, i);
          assert s[i + 1..i + 1 + |pat|] == s[1..][i..i + |pat|];
          assert At(s, pat, i + 1);
        }
      }
      assert !Occurs(s, pat) ==> [s[0]] + s[1..] == s;
      r
  }

  /** Removes `const`, `volatile`, `__restrict__` and `restrict`, in that order. */
  function Strip(s: string): string
  {
    RemoveAll(RemoveAll(RemoveAll(RemoveAll(s, "const"), "volatile"), "__restrict__"), "restrict")
  }

  ghost predicate Unqualified(s: string)
  {
    !Occurs(s, "const") && !Occurs(s, "volatile") && !Occurs(s, "__restrict__") && !Occurs(s, "restrict")
  }

  // ------------------------------------------------------------ the declarator pattern

  /** Where the stars end, where the name starts and where it ends, at the start of `t`. */
  datatype Parts = Parts(stars: nat, nameStart: nat, nameEnd: nat)

  function Split(t: string): (r: Parts)
    ensures r.stars <= r.nameStart <= r.nameEnd <= |t|
  {
    var a := Span(t, IsStar);
    var b := a + Span(t[a..], IsSpace);
    Parts(a, b, b + Span(t[b..], IsIdentChar))
  }

  /** `t` is matched by `(\s*\[[ 0-9]*\])*\s*` up to its end. */
  predicate BracketTail(t: string)
    decreases |t|
  {
    var w := Span(t, IsSpace);
    if w == |t| then true
    else if t[w] != '[' then false
    else
      var close := w + 1 + Span(t[w + 1..], IsDimChar);
      close < |t| && t[close] == ']' && BracketTail(t[close + 1..])
  }

  /** Whether a bracket tail holds a bracket group (the third group took part in the match). */
  predicate HasBracket(t: string)
  {
    Span(t, IsSpace) < |t|
  }

  /**
   * The whole of `t` is matched by `(\**)\s*([_a-zA-Z0-9]+)(\s*\[[ 0-9]*\])*\s*$`.
   * Stars, blanks and the name are each taken greedily: giving any of them
   * back cannot lead to a match, since the next part cannot start with the
   * character given back.
   */
  predicate Matches(t: string)
  {
    var p := Split(t);
    p.nameStart < p.nameEnd && BracketTail(t[p.nameEnd..])
  }

  /** The pattern matches the suffix of `s` from position `q`. */
  predicate MatchesAt(s: string, q: nat)
    requires q <= |s|
  {
    Matches(s[q..])
  }

  /** `re.search`: the leftmost position from `p` on where the pattern matches the rest of `s`. */
  function SearchFrom(s: string, p: nat): (r: Option<nat>)
    requires p <= |s|
    ensures r.Some? ==> p <= r.value <= |s| && MatchesAt(s, r.value) &&
                        forall q :: p <= q < r.value ==> !MatchesAt(s, q)
    ensures r.None? ==> forall q :: p <= q <= |s| ==> !MatchesAt(s, q)
    decreases |s| - p
  {
    if MatchesAt(s, p) then Some(p)
    else if p == |s| then None
    else SearchFrom(s, p + 1)
  }

  // ------------------------------------------------------------ type names

  /** `str.split()`: the maximal runs of non-whitespace characters. */
  function Words(s: string): (r: seq<string>)
    ensures forall i :: 0 <= i < |r| ==> r[i] != [] && forall j :: 0 <= j < |r[i]| ==> !IsSpace(r[i][j])
    decreases |s|
  {
    var w := Span(s, IsSpace);
    SpanProps(s, IsSpace);
    if w == |s| then []
    else
      var k := Span(s[w..], NotSpace);
      SpanProps(s[w..], NotSpace);
      var word := s[w..w + k];
      assert NotSpace(s[w..][0]);
      assert forall j :: 0 <= j < |word| ==> word[j] == s[w..][j] && NotSpace(s[w..][j]);
      [word] + Words(s[w + k..])
  }

  /** `" ".join(words)`. */
  function Join(ws: seq<string>): string
  {
    if ws == [] then "" else if |ws| == 1 then ws[0] else ws[0] + " " + Join(ws[1..])
  }

  /** `" ".join(tp.split())`: whitespace runs collapsed to one space, none at either end. */
  function Normalize(s: string): string
  {
    Join(Words(s))
  }

  /** A non-empty run of name characters. */
  predicate IsName(w: string)
  {
    w != [] && forall i :: 0 <= i < |w| ==> IsIdentChar(w[i])
  }

  // ------------------------------------------------------------ parsing

  /** The dtype lookup handed to the parser: the module registry, a registry object, or a table. */
  datatype NameSource = Global | FromRegistry(tables: DTypes.Tables) | Lookup(table: map<string, DTypes.Dtype>)

  /** What the factory is called with: vector or scalar, the dtype and the name. */
  datatype Arg = Arg(vector: bool, dtype: DTypes.Dtype, name: string)

  /** A parsed argument, or one of the errors: two ValueErrors and, as written, an AttributeError. */
  datatype ParseResult = Parsed(arg: Arg) | Unparsable | UnknownType(tp: string) | NoSuchAttribute

  /** The table a name source reads; `global` is the module registry's `name_to_dtype`. */
  function TableOf(src: NameSource, global: map<string, DTypes.Dtype>): map<string, DTypes.Dtype>
  {
    match src
    case Global => global
    case FromRegistry(t) => t.nameToDtype
    case Lookup(m) => m
  }

  /**
   * `parse_c_arg_backend` with the registry case reading the registry's
   * `name_to_dtype`: strip the qualifiers, find the declarator, classify
   * it, and look the normalised remainder up.
   */
  function ParseCArg(cArg: string, src: NameSource, global: map<string, DTypes.Dtype>): (r: ParseResult)
    ensures r != NoSuchAttribute
    ensures r == Unparsable <==> forall q :: 0 <= q <= |Strip(cArg)| ==> !MatchesAt(Strip(cArg), q)
  {
    var s := Strip(cArg);
    var m := TableOf(src, global);
    match SearchFrom(s, 0)
    case None => Unparsable
    case Some(p) =>
      var decl := s[p..];
      var parts := Split(decl);
      var name := decl[parts.nameStart..parts.nameEnd];
      var vector := parts.stars > 0 || HasBracket(decl[parts.nameEnd..]);
      var tp := Normalize(s[..p]);
      if tp in m then Parsed(Arg(vector, m[tp], name)) else UnknownType(tp)
  }

  /**
   * `parse_c_arg_backend` as written: for a registry object it looks up
   * the attribute `name_to_dtype__getitem__`, which does not exist.
   */
  function ParseCArgAsWritten(cArg: string, src: NameSource, global: map<string, DTypes.Dtype>): (r: ParseResult)
    ensures src.FromRegistry? <==> r == NoSuchAttribute
  {
    if src.FromRegistry? then NoSuchAttribute else ParseCArg(cArg, src, global)
  }

  /** As written, passing a registry object fails for every declaration, even a well-formed one. */
  lemma RegistryArgumentFails(t: DTypes.Tables, global: map<string, DTypes.Dtype>)
    ensures ParseCArgAsWritten("float x", FromRegistry(t), global) == NoSuchAttribute
    ensures ParseCArgAsWritten("float x", Lookup(t.nameToDtype), global) != NoSuchAttribute
  {
  }

  /** The corrected parser treats a registry object exactly as its `name_to_dtype` table. */
  lemma RegistryIsItsTable(cArg: string, t: DTypes.Tables, global: map<string, DTypes.Dtype>)
    ensures ParseCArg(cArg, FromRegistry(t), global) == ParseCArg(cArg, Lookup(t.nameToDtype), global)
    ensures ParseCArg(cArg, FromRegistry(t), global) != NoSuchAttribute
  {
  }

  // ------------------------------------------------------------ the round trip

  function Stars(n: nat): (r: string)
    ensures |r| == n && forall i :: 0 <= i < n ==> r[i] == '*'
  {
    seq(n, _ => '*')
  }

  /** `[d0][d1]...` */
  function Brackets(dims: seq<string>): string
  {
    if dims == [] then "" else "[" + dims[0] + "]" + Brackets(dims[1..])
  }

  predicate IsDimText(d: string)
  {
    forall i :: 0 <= i < |d| ==> IsDimChar(d[i])
  }

  /** A declaration written out: type words, one blank, stars, the name, bracket groups. */
  function Render(tw: seq<string>, stars: nat, name: string, dims: seq<string>): string
  {
    Join(tw) + " " + (Stars(stars) + (name + Brackets(dims)))
  }

  /**
   * A declaration written out from a type name of one or more words, any
   * number of stars, a name and bracket groups parses back into those
   * parts: the name, vector exactly when there are stars or brackets, and
   * the dtype the type name maps to, or ValueError when it maps to none.
   */
  lemma ParseRendered(tw: seq<string>, stars: nat, name: string, dims: seq<string>,
                      src: NameSource, global: map<string, DTypes.Dtype>)
    requires tw != [] && forall i :: 0 <= i < |tw| ==> IsName(tw[i])
    requires IsName(name) && forall i :: 0 <= i < |dims| ==> IsDimText(dims[i])
    requires Unqualified(Render(tw, stars, name, dims))
    ensures var m := TableOf(src, global);
            var tp := Join(tw);
            ParseCArg(Render(tw, stars, name, dims), src, global) ==
              if tp in m then Parsed(Arg(stars > 0 || dims != [], m[tp], name)) else UnknownType(tp)
  {
    var t := Join(tw);
    var b := Brackets(dims);
    NormalizeJoin(tw);
    JoinChars(tw);
    BracketsTail(dims);
    ParseDeclaration(Render(tw, stars, name, dims), t, stars, name, b, src, global);
  }

  /**
   * A declaration made of a type name of name characters and single
   * blanks, one blank, stars, a name and a bracket tail parses into the
   * name, vector exactly when there are stars or a bracket, and the type
   * name in front of the declarator, normalised.
   */
  lemma ParseDeclaration(s: string, t: string, stars: nat, name: string, b: string,
                         src: NameSource, global: map<string, DTypes.Dtype>)
    requires t != [] && IsIdentChar(t[|t| - 1])
    requires forall i :: 0 <= i < |t| ==> IsIdentChar(t[i]) || t[i] == ' '
    requires IsName(name) && BracketTail(b) && (b == [] || b[0] == '[')
    requires s == t + " " + (Stars(stars) + (name + b)) && Unqualified(s)
    ensures var m := TableOf(src, global);
            var tp := Normalize(if stars > 0 then t + " " else t);
            ParseCArg(s, src, global) ==
              if tp in m then Parsed(Arg(stars > 0 || HasBracket(b), m[tp], name)) else UnknownType(tp)
  {
    StripUnqualified(s);
    var p := FindDeclarator(t, stars, name, b);
  }

  /** With no qualifier in it, stripping leaves a declaration as it is. */
  lemma StripUnqualified(s: string)
    requires Unqualified(s)
    ensures Strip(s) == s
  {
  }

  /** The search finds the declarator where it starts, with its parts. */
  lemma FindDeclarator(t: string, stars: nat, name: string, b: string) returns (p: nat)
    requires t != [] && IsIdentChar(t[|t| - 1])
    requires forall i :: 0 <= i < |t| ==> IsIdentChar(t[i]) || t[i] == ' '
    requires IsName(name) && BracketTail(b) && (b == [] || b[0] == '[')
    ensures var s := t + " " + (Stars(stars) + (name + b));
            p <= |s| && SearchFrom(s, 0) == Some(p) &&
            s[..p] == (if stars > 0 then t + " " else t) &&
            var parts := Split(s[p..]);
            parts.stars == stars && s[p..][parts.nameStart..parts.nameEnd] == name &&
            s[p..][parts.nameEnd..] == b
  {
    var rest := Stars(stars) + (name + b);
    var s := t + " " + rest;
    p := DeclaratorAt(t, stars, name, b);
    assert rest[0] == if stars > 0 then '*' else name[0];
    NoEarlierMatch(t, rest, p);
    var r := SearchFrom(s, 0);
    if r.Some? {
      assert !(r.value < p);
      assert !(p < r.value);
    }
  }

  /** Where the declarator starts in a declaration written out, and the parts the pattern finds there. */
  lemma DeclaratorAt(t: string, stars: nat, name: string, b: string) returns (p: nat)
    requires IsName(name) && BracketTail(b) && (b == [] || b[0] == '[')
    ensures var s := t + " " + (Stars(stars) + (name + b));
            p == |t| + (if stars > 0 then 1 else 0) && p <= |s| && MatchesAt(s, p) &&
            s[..p] == (if stars > 0 then t + " " else t) &&
            var parts := Split(s[p..]);
            parts.stars == stars && s[p..][parts.nameStart..parts.nameEnd] == name &&
            s[p..][parts.nameEnd..] == b
  {
    var rest := Stars(stars) + (name + b);
    var s := t + " " + rest;
    p := |t| + (if stars > 0 then 1 else 0);
    if stars > 0 {
      assert s[p..] == rest;
      assert s[..p] == t + " ";
    } else {
      assert s[p..] == " " + (name + b);
      assert s[..p] == t;
    }
    DeclaratorParts(s[p..], stars, name, b);
  }

  /** The suffix where the declarator starts splits into its stars, name and bracket tail. */
  lemma DeclaratorParts(decl: string, stars: nat, name: string, b: string)
    requires IsName(name) && BracketTail(b) && (b == [] || b[0] == '[')
    requires (stars > 0 && decl == Stars(stars) + (name + b)) || (stars == 0 && decl == " " + (name + b))
    ensures Matches(decl)
    ensures var parts := Split(decl);
            parts.stars == stars && decl[parts.nameStart..parts.nameEnd] == name &&
            decl[parts.nameEnd..] == b
  {
    var nameAt := if stars > 0 then 0 else 1;
    if stars > 0 {
      StarredParts(stars, name + b);
    } else {
      BlankParts(name + b);
    }
    NameParts(decl, stars + nameAt, name, b);
  }

  /** Stars, then text that starts with a name character: the stars, and no blanks. */
  lemma StarredParts(stars: nat, nb: string)
    requires stars > 0 && nb != [] && IsIdentChar(nb[0])
    ensures var decl := Stars(stars) + nb;
            Span(decl, IsStar) == stars && decl[stars..] == nb && Span(decl[stars..], IsSpace) == 0
  {
    SpanConcat(Stars(stars), nb, IsStar);
    assert (Stars(stars) + nb)[stars..] == nb;
  }

  /** A blank, then text that starts with a name character: no stars, one blank. */
  lemma BlankParts(nb: string)
    requires nb != [] && IsIdentChar(nb[0])
    ensures var decl := " " + nb;
            Span(decl, IsStar) == 0 && decl[0..] == decl && Span(decl, IsSpace) == 1 && decl[1..] == nb
  {
    SpanConcat(" ", nb, IsSpace);
    assert (" " + nb)[1..] == nb;
  }

  /** Once stars and blanks are taken, the name runs up to the bracket tail. */
  lemma NameParts(decl: string, ns: nat, name: string, b: string)
    requires IsName(name) && BracketTail(b) && (b == [] || b[0] == '[')
    requires ns <= |decl| && decl[ns..] == name + b
    requires Span(decl, IsStar) + Span(decl[Span(decl, IsStar)..], IsSpace) == ns
    ensures Matches(decl)
    ensures var parts := Split(decl);
            parts.stars == Span(decl, IsStar) && decl[parts.nameStart..parts.nameEnd] == name &&
            decl[parts.nameEnd..] == b
  {
    SpanConcat(name, b, IsIdentChar);
    var ne := ns + |name|;
    assert Split(decl) == Parts(Span(decl, IsStar), ns, ne);
    assert decl[ns..ne] == name;
    assert decl[ne..] == b;
  }

  /**
   * Before the declarator, no position matches: inside the type name the
   * pattern runs into a blank followed by the declarator, and at the blank
   * in front of the stars the name would have to start with a star.
   */
  lemma NoEarlierMatch(t: string, rest: string, p: nat)
    requires t != [] && IsIdentChar(t[|t| - 1])
    requires forall i :: 0 <= i < |t| ==> IsIdentChar(t[i]) || t[i] == ' '
    requires rest != [] && !IsSpace(rest[0]) && rest[0] != '['
    requires p <= |t| + 1 && (p == |t| + 1 ==> rest[0] == '*')
    ensures forall q :: 0 <= q < p ==> !MatchesAt(t + " " + rest, q)
  {
    var s := t + " " + rest;
    forall q | 0 <= q < p
      ensures !MatchesAt(s, q)
    {
      if q < |t| {
        NoMatchInType(t, rest, q);
      } else {
        assert s[q..] == " " + rest;
        NoMatchBeforeStars(rest);
      }
    }
  }

  /** At the blank in front of the stars nothing matches: the name cannot start with a star. */
  lemma NoMatchBeforeStars(rest: string)
    requires rest != [] && rest[0] == '*'
    ensures !Matches(" " + rest)
  {
    var u := " " + rest;
    assert u[0..] == u && u[1..] == rest;
    assert Span(u, IsStar) == 0;
    assert Span(rest, IsSpace) == 0;
    assert Span(u, IsSpace) == 1;
    assert Span(rest, IsIdentChar) == 0;
  }

  /**
   * Inside a type name of name characters and blanks that ends with a name
   * character, followed by a blank and then a character that is neither
   * whitespace nor `[`, no suffix matches: after the first word found, the
   * tail meets another word or the declarator instead of a bracket.
   */
  lemma NoMatchInType(t: string, rest: string, q: nat)
    requires q < |t| && IsIdentChar(t[|t| - 1])
    requires forall i :: 0 <= i < |t| ==> IsIdentChar(t[i]) || t[i] == ' '
    requires rest != [] && !IsSpace(rest[0]) && rest[0] != '['
    ensures !MatchesAt(t + " " + rest, q)
  {
    var s := t + " " + rest;
    var e := WordInType(t, rest, q);
    NoBracketAfterWord(t, rest, e);
    assert s[q..][e - q..] == s[e..];
  }

  /**
   * From position `q` of the type name, the pattern takes no stars, the
   * blanks up to a word of the type name and that whole word, which ends
   * at `e`, at a blank no further than the one after the type name.
   */
  lemma WordInType(t: string, rest: string, q: nat) returns (e: nat)
    requires q < |t| && IsIdentChar(t[|t| - 1])
    requires forall i :: 0 <= i < |t| ==> IsIdentChar(t[i]) || t[i] == ' '
    requires rest != []
    ensures var s := t + " " + rest;
            var parts := Split(s[q..]);
            q < e <= |t| && parts.nameStart < parts.nameEnd == e - q
  {
    var s := t + " " + rest;
    var u := s[q..];
    var w := BlanksInType(t, rest, q);
    assert u[w..] == s[q + w..];
    var k := WordEnds(t, rest, q + w);
    e := q + w + k;
  }

  /** From inside the type name, the blanks run up to a name character of the type name. */
  lemma BlanksInType(t: string, rest: string, q: nat) returns (w: nat)
    requires q < |t| && IsIdentChar(t[|t| - 1])
    requires forall i :: 0 <= i < |t| ==> IsIdentChar(t[i]) || t[i] == ' '
    ensures var s := t + " " + rest;
            var u := s[q..];
            Span(u, IsStar) == 0 && u[0..] == u && Span(u, IsSpace) == w &&
            q + w < |t| && IsIdentChar(t[q + w])
  {
    var s := t + " " + rest;
    var u := s[q..];
    assert u[0] == t[q];
    assert Span(u, IsStar) == 0;
    assert u[0..] == u;
    w := Span(u, IsSpace);
    SpanProps(u, IsSpace);
    assert u[|t| - 1 - q] == t[|t| - 1];
    assert u[w] == t[q + w];
  }

  /** A word of the type name starting at `j` ends at a blank, at the latest the one after the type name. */
  lemma WordEnds(t: string, rest: string, j: nat) returns (k: nat)
    requires j < |t| && IsIdentChar(t[j])
    requires forall i :: 0 <= i < |t| ==> IsIdentChar(t[i]) || t[i] == ' '
    ensures var s := t + " " + rest;
            Span(s[j..], IsIdentChar) == k && 0 < k && j + k <= |t| && s[j + k] == ' '
  {
    var s := t + " " + rest;
    var v := s[j..];
    k := Span(v, IsIdentChar);
    SpanProps(v, IsIdentChar);
    assert v[0] == t[j];
    assert v[|t| - j] == ' ';
    assert v[k] == s[j + k];
    assert forall i :: 0 <= i < |t| ==> s[i] == t[i];
  }

  /** After a word that ends at a blank inside or just after the type name, no bracket tail follows. */
  lemma NoBracketAfterWord(t: string, rest: string, e: nat)
    requires e <= |t|
    requires forall i :: 0 <= i < |t| ==> IsIdentChar(t[i]) || t[i] == ' '
    requires rest != [] && !IsSpace(rest[0]) && rest[0] != '['
    ensures !BracketTail((t + " " + rest)[e..])
  {
    var s := t + " " + rest;
    assert forall i :: 0 <= i < |t| ==> s[i] == t[i];
    assert s[|t|] == ' ' && s[|t| + 1] == rest[0];
    var tail := s[e..];
    var ws := Span(tail, IsSpace);
    SpanProps(tail, IsSpace);
    assert tail[|t| + 1 - e] == rest[0];
    assert tail[|t| - e] == ' ';
    var f := e + ws;
    assert f <= |t| + 1;
    assert f != |t|;
    assert tail[ws] == s[f];
    assert s[f] != '[';
  }

  /** The characters of a joined type name: name characters and blanks, with a name character last. */
  lemma {:induction false} JoinChars(tw: seq<string>)
    requires tw != [] && forall i :: 0 <= i < |tw| ==> IsName(tw[i])
    ensures var t := Join(tw);
            t != [] && IsIdentChar(t[|t| - 1]) &&
            forall i :: 0 <= i < |t| ==> IsIdentChar(t[i]) || t[i] == ' '
    decreases |tw|
  {
    if |tw| > 1 {
      assert forall i :: 0 < i < |tw| ==> tw[i] == tw[1..][i - 1];
      JoinChars(tw[1..]);
      var t := Join(tw);
      var t1 := Join(tw[1..]);
      assert t == tw[0] + " " + t1;
      forall i | 0 <= i < |t|
        ensures IsIdentChar(t[i]) || t[i] == ' '
      {
        if i < |tw[0]| {
          assert t[i] == tw[0][i];
        } else if i > |tw[0]| {
          assert t[i] == t1[i - |tw[0]| - 1];
        }
      }
      assert t[|t| - 1] == t1[|t1| - 1];
    }
  }

  /** Brackets written out form a bracket tail, which holds a bracket exactly when there are groups. */
  lemma {:induction false} BracketsTail(dims: seq<string>)
    requires forall i :: 0 <= i < |dims| ==> IsDimText(dims[i])
    ensures var b := Brackets(dims);
            BracketTail(b) && (HasBracket(b) <==> dims != []) && (b == [] || b[0] == '[')
    decreases |dims|
  {
    if dims != [] {
      assert forall i :: 0 < i < |dims| ==> dims[i] == dims[1..][i - 1];
      BracketsTail(dims[1..]);
      BracketGroup(dims[0], Brackets(dims[1..]));
    }
  }

  /** One bracket group in front of a bracket tail is a bracket tail holding a bracket. */
  lemma BracketGroup(d: string, rest: string)
    requires IsDimText(d) && BracketTail(rest) && (rest == [] || rest[0] == '[')
    ensures var b := "[" + d + "]" + rest;
            BracketTail(b) && HasBracket(b) && b[0] == '['
  {
    var b := "[" + d + "]" + rest;
    assert Span(b, IsSpace) == 0;
    assert b[1..] == d + ("]" + rest);
    SpanConcat(d, "]" + rest, IsDimChar);
    assert b[1 + |d|] == ']';
    assert b[1 + |d| + 1..] == rest;
  }

  /** Skipping a leading blank does not change the words. */
  lemma WordsSkipBlank(x: string)
    ensures Words(" " + x) == Words(x)
  {
    var s := " " + x;
    assert s[1..] == x;
    var w := Span(s, IsSpace);
    var wx := Span(x, IsSpace);
    assert w == 1 + wx;
    if w < |s| {
      assert s[w..] == x[wx..];
      var k := Span(x[wx..], NotSpace);
      assert s[w..w + k] == x[wx..wx + k];
      assert s[w + k..] == x[wx + k..];
    }
  }

  /** A word followed by a blank or by nothing splits off as the first word. */
  lemma WordsFirst(word: string, x: string)
    requires IsName(word)
    requires x == [] || x[0] == ' '
    ensures Words(word + x) == [word] + Words(x)
  {
    var s := word + x;
    assert s[0] == word[0];
    assert Span(s, IsSpace) == 0;
    assert s[0..] == s;
    SpanConcat(word, x, NotSpace);
    assert s[0..|word|] == word;
    assert s[|word|..] == x;
  }

  lemma ConcatAssoc(a: string, b: string, c: string)
    ensures (a + b) + c == a + (b + c)
  {
  }

  /** A word, a blank and more text: the word, then the words of the rest. */
  lemma WordsCons(word: string, x: string)
    requires IsName(word)
    ensures Words(word + (" " + x)) == [word] + Words(x)
  {
    WordsFirst(word, " " + x);
    WordsSkipBlank(x);
  }

  /** A single word, alone or with a trailing blank. */
  lemma WordsSingle(word: string)
    requires IsName(word)
    ensures Words(word) == [word] && Words(word + " ") == [word]
  {
    assert Words("") == [];
    WordsFirst(word, "");
    assert word + "" == word;
    WordsCons(word, "");
    assert word + " " == word + (" " + "");
  }

  /** Splitting a joined type name gives its words back, with or without a trailing blank. */
  lemma {:induction false} WordsJoin(tw: seq<string>)
    requires forall i :: 0 <= i < |tw| ==> IsName(tw[i])
    ensures Words(Join(tw)) == tw && Words(Join(tw) + " ") == tw
    decreases |tw|
  {
    if tw == [] {
      WordsBlank();
    } else if |tw| == 1 {
      WordsSingle(tw[0]);
    } else {
      assert forall i :: 0 < i < |tw| ==> tw[i] == tw[1..][i - 1];
      WordsJoin(tw[1..]);
      WordsJoinStep(tw);
    }
  }

  /** Neither the empty text nor a lone blank holds a word. */
  lemma WordsBlank()
    ensures Words("") == [] && Words(" ") == []
  {
    assert Span(" ", IsSpace) == 1 by {
      assert " "[1..] == "";
    }
  }

  /** The step of `WordsJoin`: the first word, then the words of the joined rest. */
  lemma WordsJoinStep(tw: seq<string>)
    requires |tw| > 1 && IsName(tw[0])
    requires Words(Join(tw[1..])) == tw[1..] && Words(Join(tw[1..]) + " ") == tw[1..]
    ensures Words(Join(tw)) == tw && Words(Join(tw) + " ") == tw
  {
    var t1 := Join(tw[1..]);
    assert Join(tw) == tw[0] + (" " + t1);
    WordsCons(tw[0], t1);
    ConcatAssoc(tw[0], " " + t1, " ");
    ConcatAssoc(" ", t1, " ");
    WordsCons(tw[0], t1 + " ");
    assert [tw[0]] + tw[1..] == tw;
  }

  /** Normalising a joined type name, with or without a trailing blank, gives it back unchanged. */
  lemma NormalizeJoin(tw: seq<string>)
    requires forall i :: 0 <= i < |tw| ==> IsName(tw[i])
    ensures Normalize(Join(tw)) == Join(tw) && Normalize(Join(tw) + " ") == Join(tw)
  {
    WordsJoin(tw);
  }
}
