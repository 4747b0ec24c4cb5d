/** The spacing that clean_expression promises, stated twice: on the string
    (what a reader of the cleaned expression sees) and on its skeleton (where
    it survives every later pass, because later passes only cut glue). */
module Spacing {
  import opened Chars
  import opened Skeleton
  import opened Positions

  // ---------------------------------------------------------------- strings

  /** A keyword occurs at `j` as a whole word: the match of
      `(?i)\b(and|or|not)\b` at `j`. */
  predicate WholeKeywordAt(t: string, j: int) {
    0 <= j < |t| &&
    var n := KeywordLength(t[j..]);
    n > 0 &&
    (j == 0 || !IsWordChar(t[j - 1])) &&
    (j + n == |t| || !IsWordChar(t[j + n]))
  }

  /** The keyword at `j` has a blank (or an end of the string) on both sides. */
  predicate BlankAround(t: string, j: int, n: int)
    requires 0 <= j && 0 < n && j + n <= |t|
  {
    (j == 0 || IsBlank(t[j - 1])) && (j + n == |t| || IsBlank(t[j + n]))
  }

  /** Every whole-word keyword has a blank (or an end of the string) on both
      sides. */
  predicate KeywordsSpaced(t: string) {
    forall j :: 0 <= j < |t| && WholeKeywordAt(t, j) ==> BlankAround(t, j, KeywordLength(t[j..]))
  }

  /** If the neighbouring characters at `j` and `j + 1` are both non-blank and
      one is an operator character, they form a two-character operator ending
      in `=` with a blank (or an end of the string) on both sides. */
  predicate OperatorPairSpaced(t: string, j: int)
    requires 0 <= j < |t| - 1
  {
    !IsBlank(t[j]) && !IsBlank(t[j + 1]) && (IsOperatorChar(t[j]) || IsOperatorChar(t[j + 1])) ==>
      IsOperatorChar(t[j]) && t[j + 1] == '=' && BlankAround(t, j, 2)
  }

  /** Every operator character stands alone between blanks, or is the first
      half of a two-character operator ending in `=` that does. */
  predicate OperatorsSpaced(t: string) {
    forall j :: 0 <= j < |t| - 1 ==> OperatorPairSpaced(t, j)
  }

  /** Neither a word character followed by `(` nor `)` followed by a word
      character sits at `j`. */
  predicate OpenParenPairSpaced(t: string, j: int)
    requires 0 <= j < |t| - 1
  {
    !(IsWordChar(t[j]) && t[j + 1] == '(')
  }

  predicate CloseParenPairSpaced(t: string, j: int)
    requires 0 <= j < |t| - 1
  {
    !(t[j] == ')' && IsWordChar(t[j + 1]))
  }

  /** No word character is directly followed by `(`. */
  predicate OpenParensSpaced(t: string) {
    forall j :: 0 <= j < |t| - 1 ==> OpenParenPairSpaced(t, j)
  }

  /** No `)` is directly followed by a word character. */
  predicate CloseParensSpaced(t: string) {
    forall j :: 0 <= j < |t| - 1 ==> CloseParenPairSpaced(t, j)
  }

  // --------------------------------------------------------------- skeleton

  /** A keyword starts at skeleton index `i` as a whole word: its letters are
      glued, and at each end the glue is cut or the neighbour is not a word
      character. */
  predicate WholeKeywordSk(cs: string, g: seq<bool>, i: int)
    requires Shape(cs, g)
  {
    0 <= i < |cs| &&
    var n := KeywordLength(cs[i..]);
    n > 0 &&
    (forall k :: i <= k < i + n - 1 ==> g[k]) &&
    (i == 0 || !g[i - 1] || !IsWordChar(cs[i - 1])) &&
    (i + n == |cs| || !g[i + n - 1] || !IsWordChar(cs[i + n]))
  }

  /** The skeleton run `cs[i..i + n]` is cut off on both sides. */
  predicate CutAround(cs: string, g: seq<bool>, i: int, n: int)
    requires Shape(cs, g) && 0 <= i && 0 < n && i + n <= |cs|
  {
    (i == 0 || !g[i - 1]) && (i + n == |cs| || !g[i + n - 1])
  }

  predicate KeywordsSpacedSk(cs: string, g: seq<bool>)
    requires Shape(cs, g)
  {
    forall i :: 0 <= i < |cs| && WholeKeywordSk(cs, g, i) ==> CutAround(cs, g, i, KeywordLength(cs[i..]))
  }

  predicate OperatorGlueSpaced(cs: string, g: seq<bool>, i: int)
    requires Shape(cs, g) && 0 <= i < |g|
  {
    g[i] && (IsOperatorChar(cs[i]) || IsOperatorChar(cs[i + 1])) ==>
      IsOperatorChar(cs[i]) && cs[i + 1] == '=' && CutAround(cs, g, i, 2)
  }

  predicate OperatorsSpacedSk(cs: string, g: seq<bool>)
    requires Shape(cs, g)
  {
    forall i :: 0 <= i < |g| ==> OperatorGlueSpaced(cs, g, i)
  }

  predicate OpenParensSpacedSk(cs: string, g: seq<bool>)
    requires Shape(cs, g)
  {
    forall i :: 0 <= i < |g| && g[i] ==> !(IsWordChar(cs[i]) && cs[i + 1] == '(')
  }

  predicate CloseParensSpacedSk(cs: string, g: seq<bool>)
    requires Shape(cs, g)
  {
    forall i :: 0 <= i < |g| && g[i] ==> !(cs[i] == ')' && IsWordChar(cs[i + 1]))
  }

  // ------------------------------------------------- surviving a respacing

  /** Cutting glue only next to non-word characters changes no word
      boundary, so it keeps and creates no whole-word keyword. */
  lemma WholeKeywordCut(cs: string, g: seq<bool>, h: seq<bool>, i: int)
    requires OnlyCuts(cs, g, h)
    ensures WholeKeywordSk(cs, h, i) <==> WholeKeywordSk(cs, g, i)
  {
    if 0 <= i < |cs| {
      KeywordIsWord(cs[i..]);
      assert forall k :: i <= k < i + KeywordLength(cs[i..]) ==> IsWordChar(cs[k]) by {
        forall k | i <= k < i + KeywordLength(cs[i..]) ensures IsWordChar(cs[k]) {
          assert cs[k] == cs[i..][k - i];
        }
      }
    }
  }

  lemma KeywordsSpacedCut(cs: string, g: seq<bool>, h: seq<bool>)
    requires OnlyCuts(cs, g, h) && KeywordsSpacedSk(cs, g)
    ensures KeywordsSpacedSk(cs, h)
  {
    forall i | 0 <= i < |cs| && WholeKeywordSk(cs, h, i)
      ensures CutAround(cs, h, i, KeywordLength(cs[i..]))
    {
      WholeKeywordCut(cs, g, h, i);
    }
  }

  lemma OperatorsSpacedCut(cs: string, g: seq<bool>, h: seq<bool>)
    requires OnlyCuts(cs, g, h) && OperatorsSpacedSk(cs, g)
    ensures OperatorsSpacedSk(cs, h)
  {
    forall i | 0 <= i < |h| ensures OperatorGlueSpaced(cs, h, i) {
      assert OperatorGlueSpaced(cs, g, i);
    }
  }

  lemma OpenParensSpacedCut(cs: string, g: seq<bool>, h: seq<bool>)
    requires OnlyCuts(cs, g, h) && OpenParensSpacedSk(cs, g)
    ensures OpenParensSpacedSk(cs, h)
  {
  }

  lemma CloseParensSpacedCut(cs: string, g: seq<bool>, h: seq<bool>)
    requires OnlyCuts(cs, g, h) && CloseParensSpacedSk(cs, g)
    ensures CloseParensSpacedSk(cs, h)
  {
  }

  lemma WholeKeywordRespaced(s: string, t: string, i: int)
    requires Respaced(s, t)
    ensures WholeKeywordSk(NonBlank(t), Glue(t), i) <==> WholeKeywordSk(NonBlank(s), Glue(s), i)
  {
    RespacedCuts(s, t);
    WholeKeywordCut(NonBlank(s), Glue(s), Glue(t), i);
  }

  /** The spacing of keywords, operators and parentheses survives every
      respacing. */
  lemma SpacingRespaced(s: string, t: string)
    requires Respaced(s, t)
    ensures KeywordsSpacedSk(NonBlank(s), Glue(s)) ==> KeywordsSpacedSk(NonBlank(t), Glue(t))
    ensures OperatorsSpacedSk(NonBlank(s), Glue(s)) ==> OperatorsSpacedSk(NonBlank(t), Glue(t))
    ensures OpenParensSpacedSk(NonBlank(s), Glue(s)) ==> OpenParensSpacedSk(NonBlank(t), Glue(t))
    ensures CloseParensSpacedSk(NonBlank(s), Glue(s)) ==> CloseParensSpacedSk(NonBlank(t), Glue(t))
  {
    RespacedCuts(s, t);
    var cs, g, h := NonBlank(s), Glue(s), Glue(t);
    if KeywordsSpacedSk(cs, g) {
      KeywordsSpacedCut(cs, g, h);
    }
    if OperatorsSpacedSk(cs, g) {
      OperatorsSpacedCut(cs, g, h);
    }
    if OpenParensSpacedSk(cs, g) {
      OpenParensSpacedCut(cs, g, h);
    }
    if CloseParensSpacedSk(cs, g) {
      CloseParensSpacedCut(cs, g, h);
    }
  }

  // ------------------------------------------- between string and skeleton

  /** The letters of a keyword are word characters, so not blank. */
  lemma KeywordRun(t: string, j: int)
    requires 0 <= j < |t|
    ensures j + KeywordLength(t[j..]) <= |t|
    ensures forall k :: j <= k < j + KeywordLength(t[j..]) ==> IsWordChar(t[k]) && !IsBlank(t[k])
  {
    KeywordIsWord(t[j..]);
    assert forall k :: j <= k < j + KeywordLength(t[j..]) ==> t[k] == t[j..][k - j];
  }

  /** The same letters at two places make the same keyword. */
  lemma KeywordMoved(a: string, j: nat, b: string, i: nat)
    requires j < |a| && 0 < KeywordLength(a[j..])
    requires i + KeywordLength(a[j..]) <= |b|
    requires forall m :: i <= m < i + KeywordLength(a[j..]) ==> b[m] == a[j + (m - i)]
    ensures KeywordLength(b[i..]) == KeywordLength(a[j..])
  {
    var n := KeywordLength(a[j..]);
    assert b[i..][..n] == a[j..][..n] by {
      forall k | 0 <= k < n ensures b[i..][..n][k] == a[j..][..n][k] {
        assert b[i + k] == a[j + k];
      }
    }
    KeywordLengthSame(a[j..], b[i..], n);
  }

  /** A whole-word keyword of the string is one of its skeleton. */
  lemma WholeKeywordToSk(t: string, j: int)
    requires WholeKeywordAt(t, j)
    ensures WholeKeywordSk(NonBlank(t), Glue(t), Rank(t, j))
    ensures KeywordLength(NonBlank(t)[Rank(t, j)..]) == KeywordLength(t[j..])
  {
    var n := KeywordLength(t[j..]);
    KeywordRun(t, j);
    GluedRun(t, j, n);
    KeywordMoved(t, j, NonBlank(t), Rank(t, j));
    KeywordLeftToSk(t, j, n);
    KeywordRightToSk(t, j, n);
  }

  lemma KeywordLeftToSk(t: string, j: nat, n: nat)
    requires j < |t| && !IsBlank(t[j]) && (j == 0 || !IsWordChar(t[j - 1]))
    ensures Rank(t, j) < |NonBlank(t)|
    ensures Rank(t, j) == 0 || !Glue(t)[Rank(t, j) - 1] || !IsWordChar(NonBlank(t)[Rank(t, j) - 1])
  {
    LeftOpen(t, j);
    if j > 0 && !IsBlank(t[j - 1]) {
      PairToSkeleton(t, j - 1);
    }
  }

  lemma KeywordRightToSk(t: string, j: nat, n: nat)
    requires 0 < n && j + n <= |t| && forall k :: j <= k < j + n ==> !IsBlank(t[k])
    requires j + n == |t| || !IsWordChar(t[j + n])
    ensures Rank(t, j) + n <= |NonBlank(t)|
    ensures Rank(t, j) + n == |NonBlank(t)| || !Glue(t)[Rank(t, j) + n - 1] ||
      !IsWordChar(NonBlank(t)[Rank(t, j) + n])
  {
    GluedRunAt(t, j, n, j + n - 1);
    RightOpen(t, j + n - 1);
    if j + n < |t| && !IsBlank(t[j + n]) {
      PairToSkeleton(t, j + n - 1);
    }
  }

  /** A whole-word keyword of the skeleton is one of the string. */
  lemma WholeKeywordFromSk(t: string, i: int, cs: string, g: seq<bool>)
    requires cs == NonBlank(t) && g == Glue(t)
    requires WholeKeywordSk(cs, g, i)
    ensures WholeKeywordAt(t, Position(t, i))
    ensures KeywordLength(t[Position(t, i)..]) == KeywordLength(cs[i..])
  {
    var j := Position(t, i);
    var n := KeywordLength(cs[i..]);
    KeywordLeftEndSk(t, cs, g, i, n);
    KeywordRightEndSk(t, cs, g, i, n);
    KeywordRunFromSk(t, cs, g, i, j, n);
    KeywordLeftFromSk(t, i, j);
    KeywordRightFromSk(t, i, j, n);
    WholeKeywordIntro(t, j, n);
  }

  lemma WholeKeywordIntro(t: string, j: nat, n: nat)
    requires j < |t| && 0 < n == KeywordLength(t[j..])
    requires j == 0 || !IsWordChar(t[j - 1])
    requires j + n == |t| || !IsWordChar(t[j + n])
    ensures WholeKeywordAt(t, j)
  {
  }

  /** The ends of a skeleton keyword, restated on the skeleton functions. */
  lemma KeywordLeftEndSk(t: string, cs: string, g: seq<bool>, i: int, n: nat)
    requires cs == NonBlank(t) && g == Glue(t)
    requires WholeKeywordSk(cs, g, i) && n == KeywordLength(cs[i..])
    ensures 0 <= i < |NonBlank(t)| && (i == 0 || !Glue(t)[i - 1] || !IsWordChar(NonBlank(t)[i - 1]))
  {
  }

  lemma KeywordRightEndSk(t: string, cs: string, g: seq<bool>, i: int, n: nat)
    requires cs == NonBlank(t) && g == Glue(t)
    requires WholeKeywordSk(cs, g, i) && n == KeywordLength(cs[i..])
    ensures 0 <= i && 0 < n && i + n <= |NonBlank(t)|
    ensures i + n == |NonBlank(t)| || !Glue(t)[i + n - 1] || !IsWordChar(NonBlank(t)[i + n])
  {
  }

  /** The glued letters of a skeleton keyword are a non-blank run of the
      string spelling the same keyword. */
  lemma KeywordRunFromSk(t: string, cs: string, g: seq<bool>, i: nat, j: nat, n: nat)
    requires cs == NonBlank(t) && g == Glue(t)
    requires i < |cs| && j == Position(t, i) && 0 < n == KeywordLength(cs[i..])
    requires forall k :: i <= k < i + n - 1 ==> g[k]
    ensures j + n <= |t| && (forall k :: j <= k < j + n ==> !IsBlank(t[k]))
    ensures Rank(t, j) == i && Rank(t, j) + n <= |NonBlank(t)|
    ensures KeywordLength(t[j..]) == n
  {
    RunFromGlue(t, j, n);
    GluedRun(t, j, n);
    KeywordMoved(cs, i, t, j);
  }

  lemma KeywordLeftFromSk(t: string, i: nat, j: nat)
    requires j < |t| && !IsBlank(t[j]) && Rank(t, j) == i < |NonBlank(t)|
    requires i == 0 || !Glue(t)[i - 1] || !IsWordChar(NonBlank(t)[i - 1])
    ensures j == 0 || !IsWordChar(t[j - 1])
  {
    if j > 0 && !IsBlank(t[j - 1]) {
      RankNext(t, j - 1);
      NextPairToSkeleton(t, j - 1, j, i - 1, i);
    }
  }

  lemma KeywordRightFromSk(t: string, i: nat, j: nat, n: nat)
    requires 0 < n && j + n <= |t| && forall k :: j <= k < j + n ==> !IsBlank(t[k])
    requires Rank(t, j) == i && i + n <= |NonBlank(t)|
    requires i + n == |NonBlank(t)| || !Glue(t)[i + n - 1] || !IsWordChar(NonBlank(t)[i + n])
    ensures j + n == |t| || !IsWordChar(t[j + n])
  {
    var k, r := j + n - 1, i + n - 1;
    GluedRunAt(t, j, n, k);
    if j + n < |t| && !IsBlank(t[j + n]) {
      NextPairToSkeleton(t, k, j + n, r, i + n);
    }
  }

  lemma KeywordsSpacedFromSk(t: string)
    requires KeywordsSpacedSk(NonBlank(t), Glue(t))
    ensures KeywordsSpaced(t)
  {
    forall j | 0 <= j < |t| && WholeKeywordAt(t, j) ensures BlankAround(t, j, KeywordLength(t[j..])) {
      KeywordSpacedFromSk(t, j);
    }
  }

  lemma KeywordSpacedFromSk(t: string, j: int)
    requires KeywordsSpacedSk(NonBlank(t), Glue(t)) && WholeKeywordAt(t, j)
    ensures BlankAround(t, j, KeywordLength(t[j..]))
  {
    KeywordSpacedFromSkAt(t, NonBlank(t), Glue(t), j, KeywordLength(t[j..]));
  }

  lemma KeywordSpacedFromSkAt(t: string, cs: string, g: seq<bool>, j: int, n: nat)
    requires cs == NonBlank(t) && g == Glue(t)
    requires KeywordsSpacedSk(cs, g) && WholeKeywordAt(t, j) && n == KeywordLength(t[j..])
    ensures BlankAround(t, j, n)
  {
    WholeKeywordToSk(t, j);
    var i := Rank(t, j);
    assert CutAround(cs, g, i, n);
    CutAroundRestated(t, cs, g, i, n);
    CutKeywordSpaced(t, i, j, n);
  }

  lemma CutAroundRestated(t: string, cs: string, g: seq<bool>, i: nat, n: nat)
    requires cs == NonBlank(t) && g == Glue(t)
    requires 0 < n && i + n <= |cs| && CutAround(cs, g, i, n)
    ensures i + n <= |NonBlank(t)| && CutAround(NonBlank(t), Glue(t), i, n)
  {
  }

  lemma CutKeywordSpaced(t: string, i: nat, j: nat, n: nat)
    requires j < |t| && 0 < n == KeywordLength(t[j..])
    requires Rank(t, j) == i && i + n <= |NonBlank(t)| && CutAround(NonBlank(t), Glue(t), i, n)
    ensures BlankAround(t, j, n)
  {
    KeywordRun(t, j);
    CutRunBefore(t, i, j);
    CutRunAfter(t, i, j, n);
    BlankAroundIntro(t, j, n);
  }

  /** A non-blank run whose skeleton glue is cut (or absent) on one side has
      a blank (or an end of the string) on that side. */
  lemma CutRunBefore(t: string, i: nat, j: nat)
    requires j < |t| && !IsBlank(t[j]) && Rank(t, j) == i < |NonBlank(t)|
    requires i == 0 || !Glue(t)[i - 1]
    ensures j == 0 || IsBlank(t[j - 1])
  {
    LeftOpen(t, j);
  }

  lemma CutRunAfter(t: string, i: nat, j: nat, n: nat)
    requires 0 < n && j + n <= |t| && forall k :: j <= k < j + n ==> !IsBlank(t[k])
    requires Rank(t, j) == i && i + n <= |NonBlank(t)|
    requires i + n == |NonBlank(t)| || !Glue(t)[i + n - 1]
    ensures j + n == |t| || IsBlank(t[j + n])
  {
    var k, r := j + n - 1, i + n - 1;
    GluedRunAt(t, j, n, k);
    RightOpenAt(t, k, j + n, r, i + n);
  }

  lemma BlankAroundIntro(t: string, j: nat, n: nat)
    requires 0 < n && j + n <= |t|
    requires j == 0 || IsBlank(t[j - 1])
    requires j + n == |t| || IsBlank(t[j + n])
    ensures BlankAround(t, j, n)
  {
  }

  lemma OperatorsSpacedToSk(t: string)
    requires OperatorsSpaced(t)
    ensures OperatorsSpacedSk(NonBlank(t), Glue(t))
  {
    forall i | 0 <= i < |Glue(t)| ensures OperatorGlueSpaced(NonBlank(t), Glue(t), i) {
      OperatorGlueToSk(t, i);
    }
  }

  lemma OperatorGlueToSk(t: string, i: nat)
    requires OperatorsSpaced(t) && i < |Glue(t)|
    ensures OperatorGlueSpaced(NonBlank(t), Glue(t), i)
  {
    if Glue(t)[i] {
      var j := Position(t, i);
      PairFromSkeleton(t, i);
      if IsOperatorChar(t[j]) || IsOperatorChar(t[j + 1]) {
        assert OperatorPairSpaced(t, j);
        OperatorCutBefore(t, i, j);
        OperatorCutAfter(t, i, j);
      }
    }
  }

  lemma OperatorCutBefore(t: string, i: nat, j: nat)
    requires j < |t| && !IsBlank(t[j]) && Rank(t, j) == i
    requires j == 0 || IsBlank(t[j - 1])
    ensures i < |NonBlank(t)| && (i == 0 || !Glue(t)[i - 1])
  {
    LeftOpen(t, j);
  }

  lemma OperatorCutAfter(t: string, i: nat, j: nat)
    requires j + 1 < |t| && !IsBlank(t[j + 1]) && Rank(t, j + 1) == i + 1
    requires j + 2 == |t| || IsBlank(t[j + 2])
    ensures i + 1 < |NonBlank(t)| && (i + 2 == |NonBlank(t)| || !Glue(t)[i + 1])
  {
    RightOpenAt(t, j + 1, j + 2, i + 1, i + 2);
  }

  lemma OperatorsSpacedFromSk(t: string)
    requires OperatorsSpacedSk(NonBlank(t), Glue(t))
    ensures OperatorsSpaced(t)
  {
    forall j | 0 <= j < |t| - 1 ensures OperatorPairSpaced(t, j) {
      OperatorPairFromSk(t, j, NonBlank(t), Glue(t));
    }
  }

  lemma OperatorPairFromSk(t: string, j: nat, cs: string, g: seq<bool>)
    requires cs == NonBlank(t) && g == Glue(t)
    requires OperatorsSpacedSk(cs, g) && j < |t| - 1
    ensures OperatorPairSpaced(t, j)
  {
    if !IsBlank(t[j]) && !IsBlank(t[j + 1]) {
      PairToSkeleton(t, j);
      OperatorPairFromGlue(t, j);
    }
  }

  lemma OperatorPairFromGlue(t: string, j: nat)
    requires j < |t| - 1 && !IsBlank(t[j]) && !IsBlank(t[j + 1])
    requires Rank(t, j) < |Glue(t)| && OperatorGlueSpaced(NonBlank(t), Glue(t), Rank(t, j))
    ensures OperatorPairSpaced(t, j)
  {
    PairToSkeleton(t, j);
    LeftOpen(t, j);
    RightOpen(t, j + 1);
  }

  lemma OpenParensSpacedToSk(t: string)
    requires OpenParensSpaced(t)
    ensures OpenParensSpacedSk(NonBlank(t), Glue(t))
  {
    forall i | 0 <= i < |Glue(t)| && Glue(t)[i]
      ensures !(IsWordChar(NonBlank(t)[i]) && NonBlank(t)[i + 1] == '(')
    {
      PairFromSkeleton(t, i);
      assert OpenParenPairSpaced(t, Position(t, i));
    }
  }

  lemma OpenParensSpacedFromSk(t: string)
    requires OpenParensSpacedSk(NonBlank(t), Glue(t))
    ensures OpenParensSpaced(t)
  {
    forall j | 0 <= j < |t| - 1 ensures OpenParenPairSpaced(t, j) {
      if !IsBlank(t[j]) && !IsBlank(t[j + 1]) {
        PairToSkeleton(t, j);
      }
    }
  }

  lemma CloseParensSpacedToSk(t: string)
    requires CloseParensSpaced(t)
    ensures CloseParensSpacedSk(NonBlank(t), Glue(t))
  {
    forall i | 0 <= i < |Glue(t)| && Glue(t)[i]
      ensures !(NonBlank(t)[i] == ')' && IsWordChar(NonBlank(t)[i + 1]))
    {
      PairFromSkeleton(t, i);
      assert CloseParenPairSpaced(t, Position(t, i));
    }
  }

  lemma CloseParensSpacedFromSk(t: string)
    requires CloseParensSpacedSk(NonBlank(t), Glue(t))
    ensures CloseParensSpaced(t)
  {
    forall j | 0 <= j < |t| - 1 ensures CloseParenPairSpaced(t, j) {
      if !IsBlank(t[j]) && !IsBlank(t[j + 1]) {
        PairToSkeleton(t, j);
      }
    }
  }
}
