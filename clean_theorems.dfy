/** What clean_expression (utils.py:88-101) guarantees of its result, for
    every input string. */
module CleanTheorems {
  import opened Chars
  import opened Skeleton
  import opened Positions
  import opened Spacing
  import opened CleanExpression
  import opened CleanNonBlank
  import opened CleanRespaced
  import opened CleanBlanks
  import opened CleanSpacing

  /** Every non-blank character of the input is kept, in order, and nothing
      else is added but blanks. */
  lemma CleanKeepsNonBlank(e: string)
    ensures NonBlank(Clean(e)) == NonBlank(e)
  {
    var a1 := SplitGlued(e, true, true);
    var a2 := SplitGlued(a1, false, true);
    var a3 := SplitGlued(a2, true, false);
    var t4 := Isolate(a3, false);
    var t5 := SpaceOperators(t4);
    var t6 := SpaceBeforeParen(t5);
    var t7 := SpaceAfterParen(t6);
    SplitGluedKeepsNonBlank(e, true, true);
    SplitGluedKeepsNonBlank(a1, false, true);
    SplitGluedKeepsNonBlank(a2, true, false);
    IsolateKeepsNonBlank(a3, false);
    SpaceOperatorsKeepsNonBlank(t4);
    SpaceBeforeParenKeepsNonBlank(t5);
    SpaceAfterParenKeepsNonBlank(t6);
    CollapseStripCanonical(t7);
  }

  /** No blank at either end, only `' '` as a blank, never two in a row. */
  lemma CleanCanonical(e: string)
    ensures Canonical(Clean(e))
  {
    CollapseStripCanonical(Spaced(e));
  }

  /** Re-applying the final collapse-and-strip to the result changes
      nothing. */
  lemma CleanTailIdempotent(e: string)
    ensures Strip(CollapseBlanks(Clean(e))) == Clean(e)
  {
    CleanCanonical(e);
    CollapseStripIdempotent(Clean(e));
  }

  /** The result has the skeleton of the output of pass 7. */
  lemma CleanSkeleton(e: string)
    ensures NonBlank(Clean(e)) == NonBlank(Spaced(e)) && Glue(Clean(e)) == Glue(Spaced(e))
  {
    CollapseStripCanonical(Spaced(e));
  }

  /** Passes 5 to 7 respace the output of pass 4. */
  lemma LaterPassesRespace(t4: string)
    ensures Respaced(t4, SpaceOperators(t4))
    ensures Respaced(SpaceOperators(t4), SpaceBeforeParen(SpaceOperators(t4)))
    ensures Respaced(SpaceBeforeParen(SpaceOperators(t4)),
      SpaceAfterParen(SpaceBeforeParen(SpaceOperators(t4))))
  {
    SpaceOperatorsRespaced(t4);
    SpaceBeforeParenRespaced(SpaceOperators(t4));
    SpaceAfterParenRespaced(SpaceBeforeParen(SpaceOperators(t4)));
  }

  /** Every whole-word `and`, `or` or `not`, in any letter case, has a blank
      or an end of the string on each side. */
  lemma CleanKeywordsSpaced(e: string)
    ensures KeywordsSpaced(Clean(e))
  {
    var t4 := Isolate(AfterGluedSplits(e), false);
    var t5 := SpaceOperators(t4);
    var t6 := SpaceBeforeParen(t5);
    var t7 := SpaceAfterParen(t6);
    IsolateSpacesKeywords(AfterGluedSplits(e));
    LaterPassesRespace(t4);
    SpacingRespaced(t4, t5);
    SpacingRespaced(t5, t6);
    SpacingRespaced(t6, t7);
    CleanSkeleton(e);
    KeywordsFromSpaced(Clean(e), NonBlank(t7), Glue(t7));
  }

  lemma KeywordsFromSpaced(t: string, cs: string, g: seq<bool>)
    requires cs == NonBlank(t) && g == Glue(t) && KeywordsSpacedSk(cs, g)
    ensures KeywordsSpaced(t)
  {
    KeywordsSpacedFromSk(t);
  }

  /** An operator character is never glued to a non-blank neighbour, except
      as the first half of a two-character operator ending in `=` that is
      itself between blanks or ends of the string. */
  lemma CleanOperatorsSpaced(e: string)
    ensures OperatorsSpaced(Clean(e))
  {
    var t4 := Isolate(AfterGluedSplits(e), false);
    var t5 := SpaceOperators(t4);
    var t6 := SpaceBeforeParen(t5);
    var t7 := SpaceAfterParen(t6);
    SpaceOperatorsSpaced(t4);
    OperatorsSpacedToSk(t5);
    LaterPassesRespace(t4);
    SpacingRespaced(t5, t6);
    SpacingRespaced(t6, t7);
    CleanSkeleton(e);
    OperatorsFromSpaced(Clean(e), NonBlank(t7), Glue(t7));
  }

  lemma OperatorsFromSpaced(t: string, cs: string, g: seq<bool>)
    requires cs == NonBlank(t) && g == Glue(t) && OperatorsSpacedSk(cs, g)
    ensures OperatorsSpaced(t)
  {
    OperatorsSpacedFromSk(t);
  }

  /** No letter, digit or `_` is directly followed by `(`. */
  lemma CleanOpenParensSpaced(e: string)
    ensures OpenParensSpaced(Clean(e))
  {
    var t4 := Isolate(AfterGluedSplits(e), false);
    var t5 := SpaceOperators(t4);
    var t6 := SpaceBeforeParen(t5);
    var t7 := SpaceAfterParen(t6);
    SpaceBeforeParenSpaced(t5);
    OpenParensSpacedToSk(t6);
    LaterPassesRespace(t4);
    SpacingRespaced(t6, t7);
    CleanSkeleton(e);
    OpenParensFromSpaced(Clean(e), NonBlank(t7), Glue(t7));
  }

  lemma OpenParensFromSpaced(t: string, cs: string, g: seq<bool>)
    requires cs == NonBlank(t) && g == Glue(t) && OpenParensSpacedSk(cs, g)
    ensures OpenParensSpaced(t)
  {
    OpenParensSpacedFromSk(t);
  }

  /** No `)` is directly followed by a letter, digit or `_`. */
  lemma CleanCloseParensSpaced(e: string)
    ensures CloseParensSpaced(Clean(e))
  {
    var t7 := Spaced(e);
    SpaceAfterParenSpaced(SpaceBeforeParen(SpaceOperators(Isolate(AfterGluedSplits(e), false))));
    CloseParensSpacedToSk(t7);
    CleanSkeleton(e);
    CloseParensFromSpaced(Clean(e), NonBlank(t7), Glue(t7));
  }

  lemma CloseParensFromSpaced(t: string, cs: string, g: seq<bool>)
    requires cs == NonBlank(t) && g == Glue(t) && CloseParensSpacedSk(cs, g)
    ensures CloseParensSpaced(t)
  {
    CloseParensSpacedFromSk(t);
  }

  /** Every two neighbouring non-blank characters are word characters. */
  predicate WordGlued(s: string) {
    forall j :: 0 <= j < |s| - 1 ==>
      !IsBlank(s[j]) && !IsBlank(s[j + 1]) ==> IsWordChar(s[j]) && IsWordChar(s[j + 1])
  }

  lemma WordGluedSk(t: string)
    requires WordGlued(t)
    ensures forall i :: 0 <= i < |Glue(t)| && Glue(t)[i] ==>
      IsWordChar(NonBlank(t)[i]) && IsWordChar(NonBlank(t)[i + 1])
  {
    forall i | 0 <= i < |Glue(t)| && Glue(t)[i]
      ensures IsWordChar(NonBlank(t)[i]) && IsWordChar(NonBlank(t)[i + 1])
    {
      PairFromSkeleton(t, i);
    }
  }

  /** A respacing cuts no glue between word characters. */
  lemma GlueKept(s: string, t: string, cs: string, g: seq<bool>)
    requires cs == NonBlank(s) && g == Glue(s) && Respaced(s, t)
    requires forall i :: 0 <= i < |g| && g[i] ==> IsWordChar(cs[i]) && IsWordChar(cs[i + 1])
    ensures Glue(t) == g
  {
    RespacedCuts(s, t);
    KeptCuts(cs, g, Glue(t));
  }

  lemma KeptCuts(cs: string, g: seq<bool>, h: seq<bool>)
    requires OnlyCuts(cs, g, h)
    requires forall i :: 0 <= i < |g| && g[i] ==> IsWordChar(cs[i]) && IsWordChar(cs[i + 1])
    ensures h == g
  {
    forall i | 0 <= i < |g|
      ensures h[i] == g[i]
    {
      if g[i] {
        assert IsWordChar(cs[i]) && IsWordChar(cs[i + 1]);
      }
    }
  }

  /** When the first three passes leave a canonically spaced text in which
      only word characters are glued to each other, the other passes only
      add blanks that the final collapse-and-strip removes again: the result
      is the text after pass 3. */
  lemma CleanAfterSplits(e: string)
    requires Canonical(AfterGluedSplits(e)) && WordGlued(AfterGluedSplits(e))
    ensures Clean(e) == AfterGluedSplits(e)
  {
    var a3 := AfterGluedSplits(e);
    var t4 := Isolate(a3, false);
    var t5 := SpaceOperators(t4);
    var t6 := SpaceBeforeParen(t5);
    var t7 := SpaceAfterParen(t6);
    IsolateRespaced(a3, false);
    LaterPassesRespace(t4);
    RespacedTrans(a3, t4, t5);
    RespacedTrans(a3, t5, t6);
    RespacedTrans(a3, t6, t7);
    WordGluedSk(a3);
    GlueKept(a3, t7, NonBlank(a3), Glue(a3));
    CleanSkeleton(e);
    CleanCanonical(e);
    CanonicalUnique(Clean(e), a3);
  }

  /** When the first seven passes leave a canonically spaced text, that text
      is the result. */
  lemma CleanWhenSpaced(e: string)
    requires Canonical(Spaced(e))
    ensures Clean(e) == Spaced(e)
  {
    CollapseStripIdempotent(Spaced(e));
  }

  /** The same, for a text already known to be the output of pass 7. */
  lemma CleanWhenSpacedAs(e: string, t: string)
    requires Spaced(e) == t && Canonical(t)
    ensures Clean(e) == t
  {
    CollapseStripIdempotent(t);
  }
}
