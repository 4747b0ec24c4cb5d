/** A two-character comparison operator (`<=`, `>=`, `!=`, `==`) comes out
    of clean_expression (utils.py:88-101) as one token.  Pass 5
    (`([<>!=]=?|==)` replaced by ` \1 `) scans from the left, so a pair `c=`
    is matched as a whole when the scan starts a match at `c`.  It does so
    when `c` is `<`, `>` or `!`, since no match can cover `c` as its second
    character, and when `c` is `=` not after another operator character.
    (In `x<==1` the scan takes `<=` and then `=` alone.)  The other passes cut
    glue only next to a word character, so they keep the pair glued. */
module OperatorTokens {
  import opened Chars
  import opened Skeleton
  import opened Positions
  import opened Spacing
  import opened CleanExpression
  import opened CleanTheorems
  import opened WordCuts

  /** At skeleton index `i` starts an operator character glued to `=`; when
      that character is itself `=`, no operator character is glued to it on
      the left (one could take it as the second half of its own pair). */
  predicate TokenStartSk(cs: string, g: seq<bool>, i: int)
    requires Shape(cs, g)
  {
    0 <= i < |g| && g[i] && IsOperatorChar(cs[i]) && cs[i + 1] == '=' &&
    (i == 0 || !g[i - 1] || !IsOperatorChar(cs[i - 1]) || cs[i] != '=')
  }

  /** `t` keeps the non-blank characters of `s` and the glue inside every
      token start of `s`. */
  predicate KeepsTokens(s: string, t: string) {
    NonBlank(t) == NonBlank(s) &&
    forall i :: 0 <= i < |Glue(s)| && TokenStartSk(NonBlank(s), Glue(s), i) ==> Glue(t)[i]
  }

  /** A token start after a leading non-blank character is a token start of
      the rest. */
  lemma TokenShift(c: char, u: string, i: int)
    requires !IsBlank(c) && 1 <= i < |Glue([c] + u)|
    requires TokenStartSk(NonBlank([c] + u), Glue([c] + u), i)
    ensures NonBlank(u) != [] && i - 1 < |Glue(u)|
    ensures TokenStartSk(NonBlank(u), Glue(u), i - 1)
  {
    GlueCons(c, u);
    NonBlankCons(c, u);
    TokenShiftSk(c, NonBlank(u), !IsBlank(u[0]), Glue(u), i);
  }

  lemma TokenShiftSk(c: char, cs: string, g0: bool, g: seq<bool>, i: int)
    requires Shape(cs, g) && cs != [] && 1 <= i <= |g|
    requires TokenStartSk([c] + cs, [g0] + g, i)
    ensures TokenStartSk(cs, g, i - 1)
  {
    assert ([g0] + g)[i] == g[i - 1] && ([c] + cs)[i] == cs[i - 1] && ([c] + cs)[i + 1] == cs[i];
    if i >= 2 {
      assert ([g0] + g)[i - 1] == g[i - 2] && ([c] + cs)[i - 1] == cs[i - 2];
    }
  }

  lemma TokensBlankFront(u: string, v: string, b: char)
    requires KeepsTokens(u, v) && IsBlank(b)
    ensures KeepsTokens(u, [b] + v)
    ensures KeepsTokens([b] + u, [b] + v)
  {
    GlueCons(b, v);
    NonBlankCons(b, v);
    GlueCons(b, u);
    NonBlankCons(b, u);
  }

  /** Glue at `i - 1` of `v` is glue at `i` of `[c] + v`. */
  lemma ConsGlueAt(c: char, v: string, i: int)
    requires !IsBlank(c) && 1 <= i && i - 1 < |Glue(v)| && Glue(v)[i - 1]
    ensures i < |Glue([c] + v)| && Glue([c] + v)[i]
  {
    GlueCons(c, v);
  }

  /** Prefixing the same non-blank character keeps the token starts after
      it; the one it may open at index 0 is the caller's to settle. */
  lemma TokensPrefix(c: char, u: string, v: string)
    requires KeepsTokens(u, v) && !IsBlank(c)
    requires !TokenStartSk(NonBlank([c] + u), Glue([c] + u), 0)
    ensures KeepsTokens([c] + u, [c] + v)
  {
    NonBlankCons(c, u);
    NonBlankCons(c, v);
    forall i | 0 <= i < |Glue([c] + u)| && TokenStartSk(NonBlank([c] + u), Glue([c] + u), i)
      ensures Glue([c] + v)[i]
    {
      TokenShift(c, u, i);
      ConsGlueAt(c, v, i);
    }
  }

  /** Prefixing the same non-blank character that is not an operator. */
  lemma TokensCons(c: char, u: string, v: string)
    requires KeepsTokens(u, v) && !IsBlank(c) && !IsOperatorChar(c)
    ensures KeepsTokens([c] + u, [c] + v)
  {
    NonBlankCons(c, u);
    TokensPrefix(c, u, v);
  }

  /** A one-character operator token: its glue to a following character,
      which is not `=`, may be cut. */
  lemma TokensSingle(c: char, u: string, w: string)
    requires KeepsTokens(u, w) && IsOperatorChar(c)
    requires u != [] && !IsBlank(u[0]) ==> u[0] != '='
    ensures KeepsTokens([c] + u, [c] + ([' '] + w))
  {
    TokensBlankFront(u, w, ' ');
    NoTokenBeforeSingle(c, u);
    TokensPrefix(c, u, [' '] + w);
  }

  lemma NoTokenBeforeSingle(c: char, u: string)
    requires !IsBlank(c)
    requires u != [] && !IsBlank(u[0]) ==> u[0] != '='
    ensures !TokenStartSk(NonBlank([c] + u), Glue([c] + u), 0)
  {
    GlueCons(c, u);
    NonBlankCons(c, u);
    if u != [] && !IsBlank(u[0]) {
      NonBlankFirst(u);
    }
  }

  /** A two-character operator token keeps its inner glue. */
  lemma TokensPair(c: char, d: char, u: string, w: string)
    requires KeepsTokens(u, w) && IsOperatorChar(c) && d == '='
    ensures KeepsTokens([c] + ([d] + u), [c] + ([d] + ([' '] + w)))
  {
    var v := [' '] + w;
    var x, y := [d] + u, [d] + v;
    TokensBlankFront(u, w, ' ');
    PairNonBlank(c, d, u);
    PairNonBlank(c, d, v);
    PairGlueFirst(c, d, v);
    forall i | 0 <= i < |Glue([c] + x)| && TokenStartSk(NonBlank([c] + x), Glue([c] + x), i)
      ensures Glue([c] + y)[i]
    {
      if i > 0 {
        PairGlueAt(c, d, u, v, i);
      }
    }
  }

  lemma PairGlueAt(c: char, d: char, u: string, v: string, i: int)
    requires KeepsTokens(u, v) && IsOperatorChar(c) && d == '=' && 1 <= i < |Glue([c] + ([d] + u))|
    requires TokenStartSk(NonBlank([c] + ([d] + u)), Glue([c] + ([d] + u)), i)
    ensures i < |Glue([c] + ([d] + v))| && Glue([c] + ([d] + v))[i]
  {
    TokenPairShift(c, d, u, i);
    ConsGlueAt(d, v, i - 1);
    ConsGlueAt(c, [d] + v, i);
  }

  lemma TokenPairShift(c: char, d: char, u: string, i: int)
    requires IsOperatorChar(c) && d == '=' && 1 <= i < |Glue([c] + ([d] + u))|
    requires TokenStartSk(NonBlank([c] + ([d] + u)), Glue([c] + ([d] + u)), i)
    ensures 2 <= i && i - 2 < |Glue(u)| && TokenStartSk(NonBlank(u), Glue(u), i - 2)
  {
    PairNonBlank(c, d, u);
    PairGlue(c, d, u);
    PairShiftSk(c, d, NonBlank(u), !IsBlank(u[0]), Glue(u), i);
  }

  lemma PairNonBlank(c: char, d: char, u: string)
    requires !IsBlank(c) && !IsBlank(d)
    ensures NonBlank([c] + ([d] + u)) == [c] + ([d] + NonBlank(u))
  {
    NonBlankCons(c, [d] + u);
    NonBlankCons(d, u);
  }

  lemma PairGlueFirst(c: char, d: char, v: string)
    requires !IsBlank(c) && !IsBlank(d)
    ensures |Glue([c] + ([d] + v))| > 0 && Glue([c] + ([d] + v))[0]
  {
    NonBlankCons(d, v);
    GlueCons(c, [d] + v);
  }

  lemma PairGlue(c: char, d: char, u: string)
    requires !IsBlank(c) && !IsBlank(d) && NonBlank(u) != []
    ensures Glue([c] + ([d] + u)) == [true] + ([!IsBlank(u[0])] + Glue(u))
  {
    NonBlankCons(d, u);
    GlueCons(c, [d] + u);
    GlueCons(d, u);
  }

  /** Behind the glued pair `c=` the token starts are those of the rest,
      two places on. */
  lemma PairShiftSk(c: char, d: char, cs: string, g1: bool, g: seq<bool>, i: int)
    requires Shape(cs, g) && cs != [] && IsOperatorChar(c) && d == '=' && 1 <= i
    requires TokenStartSk([c] + ([d] + cs), [true] + ([g1] + g), i)
    ensures 2 <= i && TokenStartSk(cs, g, i - 2)
  {
    var cs', g' := [c] + ([d] + cs), [true] + ([g1] + g);
    assert g'[0] && cs'[0] == c;
    assert g'[i] == g[i - 2] && cs'[i] == cs[i - 2] && cs'[i + 1] == cs[i - 1];
    if i >= 3 {
      assert g'[i - 1] == g[i - 3] && cs'[i - 1] == cs[i - 3];
    }
  }

  /** Pass 5 keeps the glue inside every token start. */
  lemma {:induction false} SpaceOperatorsKeepsTokens(s: string)
    ensures KeepsTokens(s, SpaceOperators(s))
    decreases |s|
  {
    if s != [] {
      if IsOperatorChar(s[0]) {
        var n := OperatorLength(s);
        SpaceOperatorsKeepsTokens(s[n..]);
        SpaceOperatorsMatchStep(s);
        if n == 1 {
          OperatorSingleStep(s);
        } else {
          OperatorPairStep(s);
        }
      } else {
        var u := s[1..];
        SpaceOperatorsKeepsTokens(u);
        SplitFirst(s);
        if IsBlank(s[0]) {
          TokensBlankFront(u, SpaceOperators(u), s[0]);
        } else {
          TokensCons(s[0], u, SpaceOperators(u));
        }
      }
    }
  }

  lemma OperatorSingleStep(s: string)
    requires s != [] && IsOperatorChar(s[0]) && OperatorLength(s) == 1
    requires KeepsTokens(s[1..], SpaceOperators(s[1..]))
    requires SpaceOperators(s) == [' '] + (s[..1] + ([' '] + SpaceOperators(s[1..])))
    ensures KeepsTokens(s, SpaceOperators(s))
  {
    var u, w := s[1..], SpaceOperators(s[1..]);
    TokensSingle(s[0], u, w);
    TokensBlankFront(s, [s[0]] + ([' '] + w), ' ');
    SplitFirst(s);
    assert s[..1] == [s[0]];
  }

  lemma OperatorPairStep(s: string)
    requires s != [] && IsOperatorChar(s[0]) && OperatorLength(s) == 2
    requires KeepsTokens(s[2..], SpaceOperators(s[2..]))
    requires SpaceOperators(s) == [' '] + (s[..2] + ([' '] + SpaceOperators(s[2..])))
    ensures KeepsTokens(s, SpaceOperators(s))
  {
    var u, w := s[2..], SpaceOperators(s[2..]);
    var y := [s[0]] + ([s[1]] + ([' '] + w));
    TokensPair(s[0], s[1], u, w);
    SplitFirstTwo(s);
    TokensBlankFront(s, y, ' ');
    PairPrefix(s, [' '] + w);
  }

  lemma PairPrefix(s: string, v: string)
    requires |s| >= 2
    ensures s[..2] + v == [s[0]] + ([s[1]] + v)
  {
  }

  /** A token start survives a pass that cuts glue only next to word
      characters. */
  lemma TokenStartCuts(s: string, t: string, i: int)
    requires CutsAtWords(s, t) && 0 <= i < |Glue(s)| && TokenStartSk(NonBlank(s), Glue(s), i)
    ensures i < |Glue(t)| && TokenStartSk(NonBlank(t), Glue(t), i)
  {
  }

  /** An operator character followed by `=`, and, when it is `=`, not after
      another operator character, is a token start of the skeleton. */
  lemma TokenAtStart(e: string, j: nat)
    requires j + 1 < |e| && IsOperatorChar(e[j]) && e[j + 1] == '='
    requires j == 0 || e[j] != '=' || !IsOperatorChar(e[j - 1])
    ensures Rank(e, j) < |Glue(e)| && TokenStartSk(NonBlank(e), Glue(e), Rank(e, j))
  {
    var i := Rank(e, j);
    PairToSkeleton(e, j);
    if j > 0 {
      LeftOpen(e, j);
      if !IsBlank(e[j - 1]) {
        RankNext(e, j - 1);
        NextPairToSkeleton(e, j - 1, j, i - 1, i);
      }
    }
  }

  /** Passes 1-4 keep a token start of the input. */
  lemma TokenBeforePass5(e: string, i: nat)
    requires i < |Glue(e)| && TokenStartSk(NonBlank(e), Glue(e), i)
    ensures var t4 := Isolate(AfterGluedSplits(e), false);
      NonBlank(t4) == NonBlank(e) && i < |Glue(t4)| && TokenStartSk(NonBlank(t4), Glue(t4), i)
  {
    var a1 := SplitGlued(e, true, true);
    var a2 := SplitGlued(a1, false, true);
    var a3 := SplitGlued(a2, true, false);
    var t4 := Isolate(a3, false);
    SplitGluedCuts(e, true, true);
    SplitGluedCuts(a1, false, true);
    SplitGluedCuts(a2, true, false);
    IsolateCuts(a3, false);
    CutsTrans(e, a1, a2);
    CutsTrans(e, a2, a3);
    CutsTrans(e, a3, t4);
    TokenStartCuts(e, t4, i);
  }

  /** Passes 6 and 7 keep glue between two non-word characters. */
  lemma GlueThroughParens(t5: string, i: nat)
    requires i < |Glue(t5)| && Glue(t5)[i]
    requires !IsWordChar(NonBlank(t5)[i]) && !IsWordChar(NonBlank(t5)[i + 1])
    ensures var t7 := SpaceAfterParen(SpaceBeforeParen(t5));
      NonBlank(t7) == NonBlank(t5) && i < |Glue(t7)| && Glue(t7)[i]
  {
    var t6 := SpaceBeforeParen(t5);
    SpaceBeforeParenCuts(t5);
    SpaceAfterParenCuts(t6);
    CutsKeepGlue(t5, t6, i);
    CutsKeepGlue(t6, SpaceAfterParen(t6), i);
  }

  /** In the result of clean_expression, every `<=`, `>=` and `!=` of the
      input, and every `==` not after another operator character, is still
      one glued pair. */
  lemma CleanKeepsOperatorToken(e: string, j: nat)
    requires j + 1 < |e| && IsOperatorChar(e[j]) && e[j + 1] == '='
    requires j == 0 || e[j] != '=' || !IsOperatorChar(e[j - 1])
    ensures Rank(e, j) < |Glue(Clean(e))| && Glue(Clean(e))[Rank(e, j)]
    ensures NonBlank(Clean(e))[Rank(e, j)] == e[j] && NonBlank(Clean(e))[Rank(e, j) + 1] == '='
  {
    var i := Rank(e, j);
    TokenAtStart(e, j);
    PairToSkeleton(e, j);
    TokenThroughPasses(e, i);
    CleanSkeleton(e);
  }

  /** Passes 1-7 keep the glue inside a token start of the input, and its
      characters. */
  lemma TokenThroughPasses(e: string, i: nat)
    requires i < |Glue(e)| && TokenStartSk(NonBlank(e), Glue(e), i)
    ensures NonBlank(Spaced(e)) == NonBlank(e) && i < |Glue(Spaced(e))| && Glue(Spaced(e))[i]
  {
    var t4 := Isolate(AfterGluedSplits(e), false);
    var t5 := SpaceOperators(t4);
    TokenBeforePass5(e, i);
    SpaceOperatorsKeepsTokens(t4);
    assert Glue(t5)[i] && NonBlank(t5) == NonBlank(e);
    GlueThroughParens(t5, i);
    assert Spaced(e) == SpaceAfterParen(SpaceBeforeParen(t5));
  }

  /** The same pair as it appears in the result: two neighbouring
      characters, `c` and `=`, with a blank or an end of the string on each
      side. */
  lemma CleanOperatorToken(e: string, j: nat)
    requires j + 1 < |e| && IsOperatorChar(e[j]) && e[j + 1] == '='
    requires j == 0 || e[j] != '=' || !IsOperatorChar(e[j - 1])
    ensures Rank(e, j) < |NonBlank(Clean(e))|
    ensures var t, k := Clean(e), Position(Clean(e), Rank(e, j));
      k + 1 < |t| && t[k] == e[j] && t[k + 1] == '=' && BlankAround(t, k, 2)
  {
    var t := Clean(e);
    CleanKeepsOperatorToken(e, j);
    PairFromSkeleton(t, Rank(e, j));
    CleanOperatorsSpaced(e);
    assert OperatorPairSpaced(t, Position(t, Rank(e, j)));
  }
}
