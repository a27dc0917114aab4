/** The lambda function-name patterns of the layered resolver: a glob is turned
    into a regular expression by escaping `.`, rewriting `*` to `.*` and
    anchoring the result at both ends, then tested case-insensitively. */
module Glob {
  import opened JsValues
  import opened Regex

  /** `pattern.replace(/\./g, '\\.')`: only the dot is escaped. */
  function EscapeDots(g: string): string {
    if g == [] then [] else (if g[0] == '.' then "\\." else [g[0]]) + EscapeDots(g[1..])
  }

  // `.replace(/\*/g, '.*')`: every star becomes dot-star.
  function StarsToDotStar(g: string): string {
    if g == [] then [] else (if g[0] == '*' then ".*" else [g[0]]) + StarsToDotStar(g[1..])
  }

  /** The regular-expression source built for a glob: `^${regexPattern}$`. */
  function GlobSource(g: string): string {
    "^" + StarsToDotStar(EscapeDots(g)) + "$"
  }

  /** Whether the glob's regular expression matches `name`; None when it does not compile. */
  function GlobTest(g: string, name: string): Option<bool> {
    RegexTest(GlobSource(g), name)
  }

  /** A glob built only from `*`, `.` and characters that are not regular-expression
      syntax, as every configured lambda pattern is. */
  predicate PlainGlob(g: string) {
    forall i :: 0 <= i < |g| ==> g[i] == '*' || g[i] == '.' || !IsMeta(g[i])
  }

  predicate NoLineBreak(u: string) {
    forall i :: 0 <= i < |u| ==> !IsLineTerminator(u[i])
  }

  /** What a glob means: it must cover the whole name, letters compare up to ASCII
      case, `.` is literal and `*` takes any run of characters without a line break
      (the `.` it becomes does not match line terminators). */
  ghost predicate GlobSpec(g: string, w: string)
    decreases |g|
  {
    if g == [] then w == []
    else if g[0] == '*' then exists k :: 0 <= k <= |w| && NoLineBreak(w[..k]) && GlobSpec(g[1..], w[k..])
    else w != [] && Fold(g[0]) == Fold(w[0]) && GlobSpec(g[1..], w[1..])
  }

  // ---------------------------------------------------------------------------
  // From the glob to its compiled pattern
  // ---------------------------------------------------------------------------

  /** The pieces a plain glob compiles to. */
  function GlobPieces(g: string): seq<Piece> {
    if g == [] then []
    else [if g[0] == '*' then Many(AnyChar) else One(Lit(g[0]))] + GlobPieces(g[1..])
  }

  /** The text one glob character becomes after both replacements. */
  function Chunk(c: char): string {
    if c == '*' then ".*" else if c == '.' then "\\." else [c]
  }

  lemma {:induction false} StarsToDotStarAppend(a: string, b: string)
    ensures StarsToDotStar(a + b) == StarsToDotStar(a) + StarsToDotStar(b)
    decreases |a|
  {
    if a == [] {
      assert a + b == b;
    } else {
      assert (a + b)[1..] == a[1..] + b;
      StarsToDotStarAppend(a[1..], b);
    }
  }

  /** Both replacements act character by character. */
  lemma GlobBodyCons(g: string)
    requires g != []
    ensures StarsToDotStar(EscapeDots(g)) == Chunk(g[0]) + StarsToDotStar(EscapeDots(g[1..]))
  {
    var head := if g[0] == '.' then "\\." else [g[0]];
    StarsToDotStarAppend(head, EscapeDots(g[1..]));
    if g[0] == '.' {
      assert StarsToDotStar(head) == "\\.";
    } else if g[0] == '*' {
      assert StarsToDotStar(head) == ".*";
    } else {
      assert StarsToDotStar(head) == [g[0]];
    }
  }

  lemma {:induction false} ParseGlobBody(g: string)
    requires PlainGlob(g)
    ensures ParsePieces(StarsToDotStar(EscapeDots(g)) + "$") == Some((GlobPieces(g), true))
    decreases |g|
  {
    if g != [] {
      var g' := g[1..];
      assert PlainGlob(g') by { forall i | 0 <= i < |g'| ensures g'[i] == g[i + 1] { } }
      var tail := StarsToDotStar(EscapeDots(g')) + "$";
      GlobBodyCons(g);
      ParseGlobBody(g');
      TailNotStar(g');
      var s := Chunk(g[0]) + tail;
      assert StarsToDotStar(EscapeDots(g)) + "$" == s;
      if g[0] == '*' {
        assert s[1..][1..] == tail;
      } else if g[0] == '.' {
        assert s[2..] == tail;
      } else {
        assert s[1..] == tail;
      }
    }
  }

  /** What follows a glob character's chunk never starts with `*`, so the chunk
      is never starred by mistake. */
  lemma TailNotStar(g: string)
    requires PlainGlob(g)
    ensures var tail := StarsToDotStar(EscapeDots(g)) + "$"; tail != [] && tail[0] != '*'
  {
    if g != [] {
      GlobBodyCons(g);
    }
  }

  lemma CompileGlob(g: string)
    requires PlainGlob(g)
    ensures Compile(GlobSource(g)) == Some(Pattern(true, GlobPieces(g), true))
  {
    ParseGlobBody(g);
    var body := StarsToDotStar(EscapeDots(g)) + "$";
    assert GlobSource(g) == "^" + body;
    assert ("^" + body)[1..] == body;
  }

  lemma {:induction false} GlobPiecesDenote(g: string, w: string)
    ensures Denotes(GlobPieces(g), w) <==> GlobSpec(g, w)
    decreases |g|
  {
    if g != [] {
      var ps := GlobPieces(g);
      assert ps[1..] == GlobPieces(g[1..]);
      if g[0] == '*' {
        forall k | 0 <= k <= |w| ensures Denotes(ps[1..], w[k..]) <==> GlobSpec(g[1..], w[k..]) {
          GlobPiecesDenote(g[1..], w[k..]);
        }
      } else if w != [] {
        GlobPiecesDenote(g[1..], w[1..]);
      }
    }
  }

  /** The source's glob test is a real glob matcher on every plain glob: it
      compiles, and it matches exactly the names the glob describes. */
  lemma GlobIsReal(g: string, name: string)
    requires PlainGlob(g)
    ensures GlobTest(g, name) == Some(GlobSpec(g, name))
  {
    CompileGlob(g);
    var p := Pattern(true, GlobPieces(g), true);
    MatchHereDenotes(p.pieces, name);
    GlobPiecesDenote(g, name);
  }

  /** Only the dot is escaped: a glob without `.` or `*` becomes its own text,
      anchored, so any other regular-expression syntax in it (`+`, `?`, `(`, ...)
      passes into the pattern unchanged. */
  lemma {:induction false} OnlyDotIsEscaped(g: string)
    requires forall i :: 0 <= i < |g| ==> g[i] != '.' && g[i] != '*'
    ensures StarsToDotStar(EscapeDots(g)) == g
    ensures GlobSource(g) == "^" + g + "$"
    decreases |g|
  {
    if g != [] {
      assert forall i :: 0 <= i < |g[1..]| ==> g[1..][i] == g[i + 1];
      OnlyDotIsEscaped(g[1..]);
      GlobBodyCons(g);
      assert Chunk(g[0]) == [g[0]];
      assert g == [g[0]] + g[1..];
    }
  }

  /** A glob made of literal characters followed by one `*` covers every name that
      starts with those characters up to ASCII case and goes on without a line break. */
  lemma {:induction false} GlobSpecPrefixStar(lit: string, w: string)
    requires forall i :: 0 <= i < |lit| ==> lit[i] != '*'
    requires |lit| <= |w| && FoldEq(lit, w[..|lit|])
    requires NoLineBreak(w[|lit|..])
    ensures GlobSpec(lit + "*", w)
    decreases |lit|
  {
    if lit == [] {
      assert lit + "*" == "*" && "*"[1..] == [];
      assert w[..|w|] == w && w[|w|..] == [];
      assert GlobSpec("*"[1..], w[|w|..]);
    } else {
      assert w[1..][..|lit[1..]|] == w[..|lit|][1..];
      assert w[1..][|lit[1..]|..] == w[|lit|..];
      assert FoldEq(lit[1..], w[1..][..|lit[1..]|]) by {
        forall i | 0 <= i < |lit[1..]| ensures Fold(lit[1..][i]) == Fold(w[1..][..|lit[1..]|][i]) {
          assert Fold(lit[i + 1]) == Fold(w[..|lit|][i + 1]);
        }
      }
      GlobSpecPrefixStar(lit[1..], w[1..]);
      assert (lit + "*")[1..] == lit[1..] + "*";
      assert Fold(lit[0]) == Fold(w[..|lit|][0]);
    }
  }
}
