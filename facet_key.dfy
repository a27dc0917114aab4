/** Detection of the primary facet key in a data type's keyset: the script
    escapes whitespace in FACET to `\s` and matches each key against
    `^F$|^tag_.F$|^tags.F$|^label.F$`, case-insensitively. */
module FacetKey {
  import opened JsValues
  import opened Regex

  /** `FACET.replace(/\s/g, '\\s')`. */
  function EscapeWhitespace(facet: string): string {
    if facet == [] then []
    else (if IsJsWhitespace(facet[0]) then "\\s" else [facet[0]]) + EscapeWhitespace(facet[1..])
  }

  /** The alternative of the key pattern for one tag: `^` + tag + `.` + escaped
      facet + `$`; the empty tag stands for the untagged `^F$`. */
  function FacetKeySource(tag: string, facet: string): string {
    "^" + (if tag == "" then "" else tag + ".") + EscapeWhitespace(facet) + "$"
  }

  /** `r['key'].match(regexp)` succeeds: one of the four alternatives matches. */
  predicate IsPrimaryFacetKey(facet: string, key: string) {
    || Matches(FacetKeySource("", facet), key)
    || Matches(FacetKeySource("tag_", facet), key)
    || Matches(FacetKeySource("tags", facet), key)
    || Matches(FacetKeySource("label", facet), key)
  }

  /** Key `i` is the first, in keyset order, that matches. */
  predicate FirstFacetKeyAt(facet: string, keys: seq<string>, i: int) {
    && 0 <= i < |keys|
    && IsPrimaryFacetKey(facet, keys[i])
    && forall j :: 0 <= j < i ==> !IsPrimaryFacetKey(facet, keys[j])
  }

  /** `keySet.filter(r => r.key.match(regexp))[0]`: the first key, in keyset order,
      that matches, or None. */
  function PrimaryFacetKey(facet: string, keys: seq<string>): (r: Option<string>)
    ensures r.None? <==> forall j :: 0 <= j < |keys| ==> !IsPrimaryFacetKey(facet, keys[j])
    ensures r.Some? ==> exists i :: FirstFacetKeyAt(facet, keys, i) && keys[i] == r.value
    decreases |keys|
  {
    if keys == [] then None
    else if IsPrimaryFacetKey(facet, keys[0]) then Some(keys[0])
    else
      var r := PrimaryFacetKey(facet, keys[1..]);
      assert forall j :: 1 <= j < |keys| ==> keys[j] == keys[1..][j - 1];
      assert r.Some? ==> exists i :: FirstFacetKeyAt(facet, keys[1..], i) && keys[1..][i] == r.value;
      assert forall i :: FirstFacetKeyAt(facet, keys[1..], i) ==> FirstFacetKeyAt(facet, keys, i + 1);
      r
  }

  // ---------------------------------------------------------------------------
  // What the key pattern means for a facet without regular-expression syntax
  // ---------------------------------------------------------------------------

  predicate PlainFacet(facet: string) {
    forall i :: 0 <= i < |facet| ==> !IsMeta(facet[i])
  }

  /** `w` spells the facet up to ASCII case, with any white space where the facet has white space. */
  ghost predicate FacetEq(facet: string, w: string) {
    && |w| == |facet|
    && forall i :: 0 <= i < |w| ==> CharFits(facet[i], w[i])
  }

  /** `key` is `tag`, one character that is not a line break, then the facet. */
  ghost predicate TaggedFacet(tag: string, facet: string, key: string) {
    && |key| > |tag|
    && FoldEq(key[..|tag|], tag)
    && !IsLineTerminator(key[|tag|])
    && FacetEq(facet, key[|tag| + 1..])
  }

  ghost predicate FacetKeySpec(facet: string, key: string) {
    || FacetEq(facet, key)
    || TaggedFacet("tag_", facet, key)
    || TaggedFacet("tags", facet, key)
    || TaggedFacet("label", facet, key)
  }

  /** Pieces of a literal string in which `.` is the any-character atom. */
  function SimplePieces(x: string): (ps: seq<Piece>)
    ensures |ps| == |x|
  {
    seq(|x|, i requires 0 <= i < |x| => One(if x[i] == '.' then AnyChar else Lit(x[i])))
  }

  function FacetPieces(facet: string): (ps: seq<Piece>)
    ensures |ps| == |facet|
  {
    seq(|facet|, i requires 0 <= i < |facet| => One(if IsJsWhitespace(facet[i]) then Space else Lit(facet[i])))
  }

  function Prepend(ps: seq<Piece>, parsed: Option<(seq<Piece>, bool)>): Option<(seq<Piece>, bool)> {
    match parsed
    case None => None
    case Some((qs, toEnd)) => Some((ps + qs, toEnd))
  }

  predicate SimpleChars(x: string) {
    forall i :: 0 <= i < |x| ==> x[i] == '.' || !IsMeta(x[i])
  }

  lemma PrependTwice(ps: seq<Piece>, qs: seq<Piece>, parsed: Option<(seq<Piece>, bool)>)
    ensures Prepend(ps, Prepend(qs, parsed)) == Prepend(ps + qs, parsed)
  {
    match parsed {
      case None =>
      case Some((rs, e)) => assert ps + (qs + rs) == (ps + qs) + rs;
    }
  }

  /** Parsing takes the first character of a simple prefix as one piece. */
  lemma ParseSimpleHead(x: string, rest: string)
    requires x != [] && SimpleChars(x)
    requires rest != [] && rest[0] != '*'
    ensures ParsePieces(x + rest) == Prepend([SimplePieces(x)[0]], ParsePieces(x[1..] + rest))
  {
    var s := x + rest;
    var a := if x[0] == '.' then AnyChar else Lit(x[0]);
    assert s[0] == x[0] && s[1..] == x[1..] + rest;
    assert ParseAtom(s) == Some((a, 1));
    assert s[1..][0] != '*' by { if |x| > 1 { assert s[1..][0] == x[1]; } }
    ParseOneThen(s, a, 1);
  }

  lemma {:induction false} ParseSimpleThen(x: string, rest: string)
    requires SimpleChars(x)
    requires rest != [] && rest[0] != '*'
    ensures ParsePieces(x + rest) == Prepend(SimplePieces(x), ParsePieces(rest))
    decreases |x|
  {
    if x == [] {
      assert x + rest == rest;
      match ParsePieces(rest) {
        case None =>
        case Some((qs, e)) => assert SimplePieces(x) + qs == qs;
      }
    } else {
      ParseSimpleHead(x, rest);
      assert SimpleChars(x[1..]) by { forall i | 0 <= i < |x[1..]| ensures x[1..][i] == x[i + 1] { } }
      ParseSimpleThen(x[1..], rest);
      PrependTwice([SimplePieces(x)[0]], SimplePieces(x[1..]), ParsePieces(rest));
      assert SimplePieces(x) == [SimplePieces(x)[0]] + SimplePieces(x[1..]);
    }
  }

  lemma {:induction false} ParseEscapedFacet(facet: string)
    requires PlainFacet(facet)
    ensures var body := EscapeWhitespace(facet) + "$";
      body[0] != '*' && ParsePieces(body) == Some((FacetPieces(facet), true))
    decreases |facet|
  {
    if facet != [] {
      var f' := facet[1..];
      assert PlainFacet(f') by { forall i | 0 <= i < |f'| ensures f'[i] == facet[i + 1] { } }
      ParseEscapedFacet(f');
      var tail := EscapeWhitespace(f') + "$";
      var s := EscapeWhitespace(facet) + "$";
      assert FacetPieces(facet) == [FacetPieces(facet)[0]] + FacetPieces(f');
      if IsJsWhitespace(facet[0]) {
        assert s == "\\s" + tail;
        assert s[2..] == tail;
      } else {
        assert s == [facet[0]] + tail;
        assert s[1..] == tail;
      }
    }
  }

  lemma CompileFacetSource(tag: string, facet: string)
    requires SimpleChars(tag) && PlainFacet(facet)
    ensures Compile("^" + tag + EscapeWhitespace(facet) + "$")
      == Some(Pattern(true, SimplePieces(tag) + FacetPieces(facet), true))
  {
    var rest := EscapeWhitespace(facet) + "$";
    ParseEscapedFacet(facet);
    ParseSimpleThen(tag, rest);
    var source := "^" + tag + EscapeWhitespace(facet) + "$";
    assert source == "^" + (tag + rest);
    assert source[1..] == tag + rest;
  }

  predicate AllOne(ps: seq<Piece>) {
    forall i :: 0 <= i < |ps| ==> ps[i].One?
  }

  /** A pattern of single-character pieces matches exactly the words of its
      length whose characters its atoms accept one by one. */
  lemma {:induction false} MatchOnes(ps: seq<Piece>, w: string)
    requires AllOne(ps)
    ensures MatchHere(ps, w, true) <==>
      |w| == |ps| && forall i :: 0 <= i < |w| ==> AtomMatches(ps[i].atom, w[i])
    decreases |ps|
  {
    if ps != [] && w != [] {
      MatchOnes(ps[1..], w[1..]);
      if |w| == |ps| && forall i :: 0 <= i < |w| ==> AtomMatches(ps[i].atom, w[i]) {
        assert forall i :: 0 <= i < |w[1..]| ==> AtomMatches(ps[1..][i].atom, w[1..][i]) by {
          forall i | 0 <= i < |w[1..]| ensures AtomMatches(ps[1..][i].atom, w[1..][i]) {
            assert ps[1..][i] == ps[i + 1] && w[1..][i] == w[i + 1];
          }
        }
      }
      if MatchHere(ps, w, true) {
        forall i | 0 <= i < |w| ensures AtomMatches(ps[i].atom, w[i]) {
          if i > 0 { assert ps[1..][i - 1] == ps[i] && w[1..][i - 1] == w[i]; }
        }
      }
    }
  }

  /** The characters of a pattern of single-character pieces, one by one. */
  predicate OnesMatch(ps: seq<Piece>, w: string) {
    |w| == |ps| && forall i :: 0 <= i < |w| ==> AtomMatches(ps[i].atom, w[i])
  }

  lemma SourceMeaning(x: string, facet: string, key: string)
    requires SimpleChars(x) && PlainFacet(facet)
    ensures Matches("^" + x + EscapeWhitespace(facet) + "$", key) <==>
      OnesMatch(SimplePieces(x) + FacetPieces(facet), key)
  {
    CompileFacetSource(x, facet);
    var ps := SimplePieces(x) + FacetPieces(facet);
    assert AllOne(ps);
    MatchOnes(ps, key);
  }

  predicate PlainTag(tag: string) {
    forall i :: 0 <= i < |tag| ==> !IsMeta(tag[i])
  }

  /** Whether key character `c` fits facet character `f`. */
  predicate CharFits(f: char, c: char) {
    if IsJsWhitespace(f) then IsJsWhitespace(c) else Fold(c) == Fold(f)
  }

  lemma TaggedPiecesAt(tag: string, facet: string, i: int)
    requires PlainTag(tag) && 0 <= i < |tag| + 1 + |facet|
    ensures var ps := SimplePieces(tag + ".") + FacetPieces(facet);
      && (i < |tag| ==> ps[i] == One(Lit(tag[i])))
      && (i == |tag| ==> ps[i] == One(AnyChar))
      && (i > |tag| ==> ps[i] == FacetPieces(facet)[i - |tag| - 1])
  {
  }

  lemma AtomFits(facet: string, j: int, c: char)
    requires 0 <= j < |facet|
    ensures AtomMatches(FacetPieces(facet)[j].atom, c) <==> CharFits(facet[j], c)
  {
  }

  lemma TaggedOnesForward(tag: string, facet: string, key: string)
    requires PlainTag(tag)
    requires OnesMatch(SimplePieces(tag + ".") + FacetPieces(facet), key)
    ensures TaggedFacet(tag, facet, key)
  {
    var n := |tag|;
    var ps := SimplePieces(tag + ".") + FacetPieces(facet);
    forall i | 0 <= i < n ensures Fold(key[..n][i]) == Fold(tag[i]) {
      TaggedPiecesAt(tag, facet, i);
      assert AtomMatches(ps[i].atom, key[i]);
    }
    TaggedPiecesAt(tag, facet, n);
    assert AtomMatches(ps[n].atom, key[n]);
    var rest := key[n + 1..];
    forall j | 0 <= j < |facet| ensures CharFits(facet[j], rest[j]) {
      TaggedPiecesAt(tag, facet, n + 1 + j);
      assert AtomMatches(ps[n + 1 + j].atom, key[n + 1 + j]);
      AtomFits(facet, j, key[n + 1 + j]);
    }
    assert FacetEq(facet, rest) by {
      forall j | 0 <= j < |rest| ensures CharFits(facet[j], rest[j]) { }
    }
  }

  lemma TaggedOnesBackward(tag: string, facet: string, key: string)
    requires PlainTag(tag)
    requires TaggedFacet(tag, facet, key)
    ensures OnesMatch(SimplePieces(tag + ".") + FacetPieces(facet), key)
  {
    var n := |tag|;
    var ps := SimplePieces(tag + ".") + FacetPieces(facet);
    var rest := key[n + 1..];
    forall i | 0 <= i < |key| ensures AtomMatches(ps[i].atom, key[i]) {
      TaggedPiecesAt(tag, facet, i);
      if i < n {
        assert Fold(key[..n][i]) == Fold(tag[i]);
      } else if i > n {
        var j := i - n - 1;
        assert rest[j] == key[i];
        assert CharFits(facet[j], rest[j]);
        AtomFits(facet, j, key[i]);
      }
    }
  }

  lemma TaggedSourceMeaning(tag: string, facet: string, key: string)
    requires PlainTag(tag) && PlainFacet(facet)
    requires tag != ""
    ensures Matches(FacetKeySource(tag, facet), key) <==> TaggedFacet(tag, facet, key)
  {
    assert SimpleChars(tag + ".");
    SourceMeaning(tag + ".", facet, key);
    if Matches(FacetKeySource(tag, facet), key) {
      TaggedOnesForward(tag, facet, key);
    }
    if TaggedFacet(tag, facet, key) {
      TaggedOnesBackward(tag, facet, key);
    }
  }

  lemma PlainSourceMeaning(facet: string, key: string)
    requires PlainFacet(facet)
    ensures Matches(FacetKeySource("", facet), key) <==> FacetEq(facet, key)
  {
    CompileFacetSource("", facet);
    assert "^" + "" + EscapeWhitespace(facet) + "$" == FacetKeySource("", facet);
    assert SimplePieces("") + FacetPieces(facet) == FacetPieces(facet);
    MatchOnes(FacetPieces(facet), key);
  }

  /** For a facet without regular-expression syntax, a key is the primary facet
      key exactly when, ignoring ASCII case, it is the facet itself, or `tag_`,
      `tags` or `label` followed by any one character and the facet, white space
      in the facet standing for any white space. */
  lemma PrimaryFacetKeyMeaning(facet: string, key: string)
    requires PlainFacet(facet)
    ensures IsPrimaryFacetKey(facet, key) <==> FacetKeySpec(facet, key)
  {
    PlainSourceMeaning(facet, key);
    assert PlainTag("tag_") && PlainTag("tags") && PlainTag("label");
    TaggedSourceMeaning("tag_", facet, key);
    TaggedSourceMeaning("tags", facet, key);
    TaggedSourceMeaning("label", facet, key);
  }
}
