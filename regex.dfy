/** The part of ECMAScript regular expressions that the configured patterns use,
    with the `i` flag: literal characters, `\`-escaped punctuation, `.`, `\s`,
    a `*` after any of those, and the anchors `^` (first) and `$` (last).
    A source outside that subset, or one `RegExp` would reject (a `*` with
    nothing to repeat, a trailing `\`), does not compile here, and callers
    skip it as they skip a pattern whose constructor throws. */
module Regex {
  import opened JsValues

  datatype Atom = Lit(c: char) | AnyChar | Space
  datatype Piece = One(atom: Atom) | Many(atom: Atom)
  datatype Pattern = Pattern(fromStart: bool, pieces: seq<Piece>, toEnd: bool)

  /** One character against one atom, case-insensitively. */
  predicate AtomMatches(a: Atom, c: char) {
    match a
    case Lit(l) => Fold(l) == Fold(c)
    case AnyChar => !IsLineTerminator(c)
    case Space => IsJsWhitespace(c)
  }

  /** The syntax characters of ECMAScript patterns. */
  predicate IsMeta(c: char) {
    || c == '\\' || c == '^' || c == '$' || c == '.' || c == '*' || c == '+' || c == '?'
    || c == '(' || c == ')' || c == '[' || c == ']' || c == '{' || c == '}' || c == '|'
  }

  /** One atom at the front of `s`, and how many characters it takes. */
  function ParseAtom(s: string): (r: Option<(Atom, nat)>)
    requires s != []
    ensures r.Some? ==> 1 <= r.value.1 <= |s|
  {
    if s[0] == '\\' then
      if |s| == 1 then None
      else if s[1] == 's' then Some((Space, 2))
      else if IsAsciiAlnum(s[1]) then None
      else Some((Lit(s[1]), 2))
    else if s[0] == '.' then Some((AnyChar, 1))
    else if IsMeta(s[0]) then None
    else Some((Lit(s[0]), 1))
  }

  /** The pieces of a pattern body, and whether it ends with the `$` anchor. */
  function ParsePieces(s: string): Option<(seq<Piece>, bool)>
    decreases |s|
  {
    if s == [] then Some(([], false))
    else if s == "$" then Some(([], true))
    else match ParseAtom(s)
      case None => None
      case Some((a, n)) =>
        var rest := s[n..];
        var starred := rest != [] && rest[0] == '*';
        var next := if starred then rest[1..] else rest;
        match ParsePieces(next)
        case None => None
        case Some((ps, toEnd)) => Some(([if starred then Many(a) else One(a)] + ps, toEnd))
  }

  /** Parsing peels one unstarred atom off the front. */
  lemma ParseOneThen(s: string, a: Atom, n: nat)
    requires s != [] && s != "$" && ParseAtom(s) == Some((a, n))
    requires s[n..] != [] && s[n..][0] != '*'
    ensures ParsePieces(s) == (match ParsePieces(s[n..])
      case None => None
      case Some((ps, toEnd)) => Some(([One(a)] + ps, toEnd)))
  {
  }

  /** Parsing peels one starred atom off the front. */
  lemma ParseManyThen(s: string, a: Atom, n: nat)
    requires s != [] && s != "$" && ParseAtom(s) == Some((a, n))
    requires s[n..] != [] && s[n..][0] == '*'
    ensures ParsePieces(s) == (match ParsePieces(s[n..][1..])
      case None => None
      case Some((ps, toEnd)) => Some(([Many(a)] + ps, toEnd)))
  {
  }

  /** `new RegExp(source, 'i')`, or None when the source does not compile. */
  function Compile(source: string): Option<Pattern> {
    var fromStart := source != [] && source[0] == '^';
    var body := if fromStart then source[1..] else source;
    match ParsePieces(body)
    case None => None
    case Some((ps, toEnd)) => Some(Pattern(fromStart, ps, toEnd))
  }

  /** Backtracking match of `ps` at the front of `t`; with `toEnd` it must consume all of `t`. */
  predicate MatchHere(ps: seq<Piece>, t: string, toEnd: bool)
    decreases |ps|, |t|
  {
    if ps == [] then !toEnd || t == []
    else match ps[0]
      case One(a) => t != [] && AtomMatches(a, t[0]) && MatchHere(ps[1..], t[1..], toEnd)
      case Many(a) =>
        || MatchHere(ps[1..], t, toEnd)
        || (t != [] && AtomMatches(a, t[0]) && MatchHere(ps, t[1..], toEnd))
  }

  /** Tries every start position, as an unanchored `test` does. */
  predicate SearchFrom(ps: seq<Piece>, s: string, toEnd: bool)
    decreases |s|
  {
    MatchHere(ps, s, toEnd) || (s != [] && SearchFrom(ps, s[1..], toEnd))
  }

  predicate Test(p: Pattern, s: string) {
    if p.fromStart then MatchHere(p.pieces, s, p.toEnd) else SearchFrom(p.pieces, s, p.toEnd)
  }

  /** `new RegExp(source, 'i').test(s)`; None stands for the constructor throwing. */
  function RegexTest(source: string, s: string): Option<bool> {
    match Compile(source)
    case None => None
    case Some(p) => Some(Test(p, s))
  }

  /** True when `RegexTest` reports a match. */
  predicate Matches(source: string, s: string) {
    RegexTest(source, s) == Some(true)
  }

  // ---------------------------------------------------------------------------
  // Reference semantics: the language of a sequence of pieces
  // ---------------------------------------------------------------------------

  predicate AllMatch(a: Atom, u: string) {
    forall i :: 0 <= i < |u| ==> AtomMatches(a, u[i])
  }

  /** The whole word `w` is in the language of `ps`: a `Many` piece takes any
      number of characters its atom accepts. */
  ghost predicate Denotes(ps: seq<Piece>, w: string)
    decreases |ps|
  {
    if ps == [] then w == []
    else match ps[0]
      case One(a) => w != [] && AtomMatches(a, w[0]) && Denotes(ps[1..], w[1..])
      case Many(a) => exists k :: 0 <= k <= |w| && AllMatch(a, w[..k]) && Denotes(ps[1..], w[k..])
  }

  /** A starred piece takes a run of `k` accepted characters. */
  lemma DenotesManyIntro(ps: seq<Piece>, a: Atom, w: string, k: nat)
    requires ps != [] && ps[0] == Many(a)
    requires k <= |w| && AllMatch(a, w[..k]) && Denotes(ps[1..], w[k..])
    ensures Denotes(ps, w)
  {
  }

  lemma AllMatchCons(a: Atom, w: string, k: nat)
    requires w != [] && k <= |w| - 1
    requires AtomMatches(a, w[0]) && AllMatch(a, w[1..][..k])
    ensures AllMatch(a, w[..k + 1])
  {
    assert w[..k + 1] == [w[0]] + w[1..][..k];
  }

  /** A starred piece, matcher to language: either the piece is skipped, or it
      takes the first character and stays in place. */
  lemma ManyForward(ps: seq<Piece>, a: Atom, w: string)
    requires ps != [] && ps[0] == Many(a)
    requires MatchHere(ps[1..], w, true) ==> Denotes(ps[1..], w)
    requires w != [] && MatchHere(ps, w[1..], true) ==> Denotes(ps, w[1..])
    requires MatchHere(ps, w, true)
    ensures Denotes(ps, w)
  {
    if MatchHere(ps[1..], w, true) {
      assert w[..0] == [] && w[0..] == w;
      DenotesManyIntro(ps, a, w, 0);
    } else {
      assert w != [] && AtomMatches(a, w[0]) && Denotes(ps, w[1..]);
      var k' :| 0 <= k' <= |w[1..]| && AllMatch(a, w[1..][..k']) && Denotes(ps[1..], w[1..][k'..]);
      assert w[1..][k'..] == w[k' + 1..];
      AllMatchCons(a, w, k');
      DenotesManyIntro(ps, a, w, k' + 1);
    }
  }

  /** A starred piece, language to matcher. */
  lemma ManyBackward(ps: seq<Piece>, a: Atom, w: string)
    requires ps != [] && ps[0] == Many(a)
    requires Denotes(ps[1..], w) ==> MatchHere(ps[1..], w, true)
    requires w != [] && Denotes(ps, w[1..]) ==> MatchHere(ps, w[1..], true)
    requires Denotes(ps, w)
    ensures MatchHere(ps, w, true)
  {
    var k :| 0 <= k <= |w| && AllMatch(a, w[..k]) && Denotes(ps[1..], w[k..]);
    if k == 0 {
      assert w[0..] == w;
    } else {
      assert w[1..][..k - 1] == w[1..k];
      assert AllMatch(a, w[1..][..k - 1]);
      assert w[1..][k - 1..] == w[k..];
      assert Denotes(ps, w[1..]);
    }
  }

  /** The backtracking matcher decides the language exactly. */
  lemma {:induction false} MatchHereDenotes(ps: seq<Piece>, w: string)
    ensures MatchHere(ps, w, true) <==> Denotes(ps, w)
    decreases |ps|, |w|
  {
    if ps == [] {
    } else {
      match ps[0]
      case One(a) =>
        if w != [] { MatchHereDenotes(ps[1..], w[1..]); }
      case Many(a) =>
        MatchHereDenotes(ps[1..], w);
        if w != [] { MatchHereDenotes(ps, w[1..]); }
        if MatchHere(ps, w, true) { ManyForward(ps, a, w); }
        if Denotes(ps, w) { ManyBackward(ps, a, w); }
    }
  }

  /** Without `toEnd` the matcher accepts exactly the inputs with a prefix in the language. */
  lemma {:induction false} MatchHerePrefix(ps: seq<Piece>, t: string)
    ensures MatchHere(ps, t, false) <==> exists k :: 0 <= k <= |t| && MatchHere(ps, t[..k], true)
    decreases |ps|, |t|
  {
    if ps == [] {
      assert t[..0] == [];
    } else {
      match ps[0]
      case One(a) =>
        if t == [] {
          forall k | 0 <= k <= |t| ensures !MatchHere(ps, t[..k], true) { assert t[..k] == []; }
        } else {
          MatchHerePrefix(ps[1..], t[1..]);
          if MatchHere(ps, t, false) {
            var k' :| 0 <= k' <= |t[1..]| && MatchHere(ps[1..], t[1..][..k'], true);
            assert t[..k' + 1][1..] == t[1..][..k'];
            assert MatchHere(ps, t[..k' + 1], true);
          }
          if exists k :: 0 <= k <= |t| && MatchHere(ps, t[..k], true) {
            var k :| 0 <= k <= |t| && MatchHere(ps, t[..k], true);
            assert t[..k][1..] == t[1..][..k - 1];
          }
        }
      case Many(a) =>
        MatchHerePrefix(ps[1..], t);
        if t != [] { MatchHerePrefix(ps, t[1..]); }
        if MatchHere(ps, t, false) {
          if MatchHere(ps[1..], t, false) {
            var k :| 0 <= k <= |t| && MatchHere(ps[1..], t[..k], true);
            assert MatchHere(ps, t[..k], true);
          } else {
            var k' :| 0 <= k' <= |t[1..]| && MatchHere(ps, t[1..][..k'], true);
            assert t[..k' + 1][1..] == t[1..][..k'];
            assert MatchHere(ps, t[..k' + 1], true);
          }
        }
        if exists k :: 0 <= k <= |t| && MatchHere(ps, t[..k], true) {
          var k :| 0 <= k <= |t| && MatchHere(ps, t[..k], true);
          if !MatchHere(ps[1..], t[..k], true) {
            assert t[..k][1..] == t[1..][..k - 1];
            assert MatchHere(ps, t[1..], false);
          }
        }
    }
  }

  /** The unanchored search accepts exactly the inputs with a suffix the matcher accepts. */
  lemma {:induction false} SearchFromSuffix(ps: seq<Piece>, s: string, toEnd: bool)
    ensures SearchFrom(ps, s, toEnd) <==> exists i :: 0 <= i <= |s| && MatchHere(ps, s[i..], toEnd)
    decreases |s|
  {
    assert s[0..] == s;
    if s != [] {
      SearchFromSuffix(ps, s[1..], toEnd);
      if SearchFrom(ps, s[1..], toEnd) {
        var i :| 0 <= i <= |s[1..]| && MatchHere(ps, s[1..][i..], toEnd);
        assert s[1..][i..] == s[i + 1..];
      }
      if exists i :: 0 <= i <= |s| && MatchHere(ps, s[i..], toEnd) {
        var i :| 0 <= i <= |s| && MatchHere(ps, s[i..], toEnd);
        if i > 0 {
          assert s[1..][i - 1..] == s[i..];
        }
      }
    }
  }

  /** A compiled pattern tests true exactly when some substring of the input,
      starting at the front when the pattern has `^` and reaching the end when it
      has `$`, is in the pattern's language. */
  lemma TestMeaning(p: Pattern, s: string)
    ensures Test(p, s) <==>
      exists i, j :: 0 <= i <= j <= |s| && (p.fromStart ==> i == 0) && (p.toEnd ==> j == |s|)
        && Denotes(p.pieces, s[i..j])
  {
    var ps := p.pieces;
    forall i, j | 0 <= i <= j <= |s| ensures MatchHere(ps, s[i..j], true) <==> Denotes(ps, s[i..j]) {
      MatchHereDenotes(ps, s[i..j]);
    }
    forall i | 0 <= i <= |s| ensures MatchHere(ps, s[i..], false) <==>
      exists k :: 0 <= k <= |s[i..]| && MatchHere(ps, s[i..][..k], true)
    {
      MatchHerePrefix(ps, s[i..]);
    }
    SearchFromSuffix(ps, s, p.toEnd);
    assert s[0..] == s;
    if Test(p, s) {
      var i: int :| 0 <= i <= |s| && MatchHere(ps, s[i..], p.toEnd) && (p.fromStart ==> i == 0);
      if p.toEnd {
        assert s[i..|s|] == s[i..];
      } else {
        var k :| 0 <= k <= |s[i..]| && MatchHere(ps, s[i..][..k], true);
        assert s[i..][..k] == s[i..i + k];
      }
    }
    if exists i, j :: 0 <= i <= j <= |s| && (p.fromStart ==> i == 0) && (p.toEnd ==> j == |s|)
        && Denotes(ps, s[i..j])
    {
      var i, j :| 0 <= i <= j <= |s| && (p.fromStart ==> i == 0) && (p.toEnd ==> j == |s|)
        && Denotes(ps, s[i..j]);
      if p.toEnd {
        assert s[i..j] == s[i..];
        assert MatchHere(ps, s[i..], true);
      } else {
        assert s[i..][..j - i] == s[i..j];
        assert MatchHere(ps, s[i..], false);
      }
    }
  }
}
