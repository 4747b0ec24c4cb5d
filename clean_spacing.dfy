/** Where each spacing property of clean_expression comes from: pass 4
    spaces the whole-word keywords, pass 5 the comparison operators, passes 6
    and 7 the parentheses.  The first three are stated on the skeleton of the
    pass's output (the operator and parenthesis passes are proved on strings
    and carried over), so that they survive the later passes. */
module CleanSpacing {
  import opened Chars
  import opened Skeleton
  import opened Positions
  import opened Spacing
  import opened CleanExpression
  import opened CleanRespaced
  import opened CleanNonBlank

  // ------------------------------------------------------ pass 5: operators

  lemma OpsConsAt(c: char, w: string, j: nat)
    requires 1 <= j < |w| && OperatorPairSpaced(w, j - 1)
    requires |w| >= 2 && IsOperatorChar(w[0]) && !IsBlank(w[1]) ==> IsBlank(c)
    ensures OperatorPairSpaced([c] + w, j)
  {
    var t := [c] + w;
    assert t[j] == w[j - 1] && t[j + 1] == w[j];
    if j >= 2 {
      assert t[j - 1] == w[j - 2];
    }
    if j + 2 < |t| {
      assert t[j + 2] == w[j + 1];
    }
  }

  /** Prefixing one character keeps the operators spaced when the new pair
      is spaced and the first operator of `w`, if it starts `w`, gets a
      blank in front. */
  lemma OpsCons(c: char, w: string)
    requires OperatorsSpaced(w)
    requires |w| >= 2 && IsOperatorChar(w[0]) && !IsBlank(w[1]) ==> IsBlank(c)
    requires w != [] ==> OperatorPairSpaced([c] + w, 0)
    ensures OperatorsSpaced([c] + w)
  {
    forall j | 0 <= j < |[c] + w| - 1 ensures OperatorPairSpaced([c] + w, j) {
      if j > 0 {
        OpsConsAt(c, w, j);
      }
    }
  }

  lemma TokenOne(s: string, v: string)
    requires s != []
    ensures s[..1] + v == [s[0]] + v
  {
  }

  lemma TokenTwo(s: string, v: string)
    requires |s| >= 2
    ensures s[..2] + v == [s[0]] + ([s[1]] + v)
  {
  }

  /** After pass 5 every operator character stands between blanks, alone or
      as the first half of a two-character operator ending in `=`. */
  lemma {:induction false} SpaceOperatorsSpaced(s: string)
    ensures OperatorsSpaced(SpaceOperators(s))
    decreases |s|
  {
    if s != [] {
      if IsOperatorChar(s[0]) {
        var n := OperatorLength(s);
        var w := SpaceOperators(s[n..]);
        SpaceOperatorsSpaced(s[n..]);
        if s[n..] != [] {
          SpaceOperatorsFirst(s[n..]);
        }
        OpsCons(' ', w);
        var v := [' '] + w;
        if n == 1 {
          OpsCons(s[0], v);
          TokenOne(s, v);
        } else {
          OpsCons(s[1], v);
          OpsCons(s[0], [s[1]] + v);
          TokenTwo(s, v);
        }
        OpsCons(' ', s[..n] + v);
        SpaceOperatorsMatchStep(s);
      } else {
        var u := s[1..];
        SpaceOperatorsSpaced(u);
        if u != [] {
          SpaceOperatorsFirst(u);
        }
        OpsCons(s[0], SpaceOperators(u));
      }
    }
  }

  // ------------------------------------------------ passes 6, 7: parentheses

  lemma OpenParensCons(c: char, w: string)
    requires OpenParensSpaced(w)
    requires w != [] ==> !(IsWordChar(c) && w[0] == '(')
    ensures OpenParensSpaced([c] + w)
  {
    var t := [c] + w;
    forall j | 0 <= j < |t| - 1 ensures OpenParenPairSpaced(t, j) {
      if j > 0 {
        assert t[j] == w[j - 1] && t[j + 1] == w[j];
        assert OpenParenPairSpaced(w, j - 1);
      }
    }
  }

  /** After pass 6 no word character is directly followed by `(`. */
  lemma {:induction false} SpaceBeforeParenSpaced(s: string)
    ensures OpenParensSpaced(SpaceBeforeParen(s))
    decreases |s|
  {
    if |s| >= 2 && IsWordChar(s[0]) && s[1] == '(' {
      var w := SpaceBeforeParen(s[2..]);
      SpaceBeforeParenSpaced(s[2..]);
      OpenParensCons(s[1], w);
      OpenParensCons(' ', [s[1]] + w);
      OpenParensCons(s[0], [' '] + ([s[1]] + w));
      SpaceBeforeParenMatchStep(s);
    } else if s != [] {
      var u := s[1..];
      SpaceBeforeParenSpaced(u);
      if u != [] {
        SpaceBeforeParenFirst(u);
      }
      OpenParensCons(s[0], SpaceBeforeParen(u));
    }
  }

  lemma CloseParensCons(c: char, w: string)
    requires CloseParensSpaced(w)
    requires w != [] ==> !(c == ')' && IsWordChar(w[0]))
    ensures CloseParensSpaced([c] + w)
  {
    var t := [c] + w;
    forall j | 0 <= j < |t| - 1 ensures CloseParenPairSpaced(t, j) {
      if j > 0 {
        assert t[j] == w[j - 1] && t[j + 1] == w[j];
        assert CloseParenPairSpaced(w, j - 1);
      }
    }
  }

  /** After pass 7 no `)` is directly followed by a word character. */
  lemma {:induction false} SpaceAfterParenSpaced(s: string)
    ensures CloseParensSpaced(SpaceAfterParen(s))
    decreases |s|
  {
    if |s| >= 2 && s[0] == ')' && IsWordChar(s[1]) {
      var w := SpaceAfterParen(s[2..]);
      SpaceAfterParenSpaced(s[2..]);
      CloseParensCons(s[1], w);
      CloseParensCons(' ', [s[1]] + w);
      CloseParensCons(s[0], [' '] + ([s[1]] + w));
      SpaceAfterParenMatchStep(s);
    } else if s != [] {
      var u := s[1..];
      SpaceAfterParenSpaced(u);
      if u != [] {
        SpaceAfterParenFirst(u);
      }
      CloseParensCons(s[0], SpaceAfterParen(u));
    }
  }

  // -------------------------------------------------- pass 4: keywords

  /** `\b(and|or|not)\b` matches at the start of `s`, the character before
      `s` being a word character exactly when `prevWord` holds. */
  predicate IsolateMatches(s: string, prevWord: bool) {
    s != [] && !prevWord && KeywordLength(s) > 0 &&
    (KeywordLength(s) == |s| || !IsWordChar(s[KeywordLength(s)]))
  }

  lemma IsolateCopyStep(s: string, prevWord: bool)
    requires s != [] && !IsolateMatches(s, prevWord)
    ensures Isolate(s, prevWord) == [s[0]] + Isolate(s[1..], IsWordChar(s[0]))
  {
  }

  lemma Regroup(a: char, b: string, c: char, d: string, e: string)
    ensures [a] + (b + ([c] + (d + e))) == ([a] + (b + ([c] + d))) + e
  {
  }

  /** The scan of pass 4 can be cut after any non-word character: nothing
      it matches straddles that character, and after it a keyword may start
      a match again. */
  lemma {:induction false} IsolateSplit(u: string, prevWord: bool, j: nat)
    requires 0 < j <= |u| && !IsWordChar(u[j - 1])
    ensures Isolate(u, prevWord) == Isolate(u[..j], prevWord) + Isolate(u[j..], false)
    decreases |u|
  {
    if IsolateMatches(u, prevWord) {
      var n := KeywordLength(u);
      KeywordIsWord(u);
      assert n < j;
      assert u[n..][j - n - 1] == u[j - 1];
      IsolateSplit(u[n..], true, j - n);
      IsolateSplitMatch(u, prevWord, j);
    } else if j > 1 {
      assert u[1..][j - 2] == u[j - 1];
      IsolateSplit(u[1..], IsWordChar(u[0]), j - 1);
      IsolateSplitCopy(u, prevWord, j);
    } else {
      IsolateCopyStep(u, prevWord);
      assert u[..j] == [u[0]];
      assert Isolate(u[..j], prevWord) == [u[0]] + Isolate([], false);
    }
  }

  lemma IsolateSplitMatch(u: string, prevWord: bool, j: nat)
    requires 0 < j <= |u| && IsolateMatches(u, prevWord) && KeywordLength(u) < j
    requires var n := KeywordLength(u);
      Isolate(u[n..], true) == Isolate(u[n..][..j - n], true) + Isolate(u[n..][j - n..], false)
    ensures Isolate(u, prevWord) == Isolate(u[..j], prevWord) + Isolate(u[j..], false)
  {
    var n := KeywordLength(u);
    var x := u[..j];
    KeywordLengthPrefix(u, j);
    assert x[n] == u[n] && x[..n] == u[..n];
    IsolateMatchStep(u, prevWord);
    IsolateMatchStep(x, prevWord);
    assert u[n..][..j - n] == x[n..];
    assert u[n..][j - n..] == u[j..];
    Regroup(' ', u[..n], ' ', Isolate(x[n..], true), Isolate(u[j..], false));
  }

  lemma IsolateSplitCopy(u: string, prevWord: bool, j: nat)
    requires 1 < j <= |u| && !IsWordChar(u[j - 1]) && !IsolateMatches(u, prevWord)
    requires Isolate(u[1..], IsWordChar(u[0])) ==
      Isolate(u[1..][..j - 1], IsWordChar(u[0])) + Isolate(u[1..][j - 1..], false)
    ensures Isolate(u, prevWord) == Isolate(u[..j], prevWord) + Isolate(u[j..], false)
  {
    IsolateNoMatchPrefix(u, prevWord, j);
    SlicesAfterFirst(u, j);
    IsolateCopyStep(u, prevWord);
    IsolateCopyStep(u[..j], prevWord);
    ConsAppend(u[0], Isolate(u[..j][1..], IsWordChar(u[0])), Isolate(u[j..], false));
  }

  lemma SlicesAfterFirst(u: string, j: nat)
    requires 1 < j <= |u|
    ensures u[1..][..j - 1] == u[..j][1..] && u[1..][j - 1..] == u[j..] && u[..j][0] == u[0]
  {
  }

  lemma ConsAppend(c: char, a: string, b: string)
    ensures [c] + (a + b) == ([c] + a) + b
  {
  }

  /** Where no match starts, none starts in a prefix that ends after a
      non-word character either. */
  lemma IsolateNoMatchPrefix(u: string, prevWord: bool, j: nat)
    requires 1 < j <= |u| && !IsWordChar(u[j - 1]) && !IsolateMatches(u, prevWord)
    ensures !IsolateMatches(u[..j], prevWord) && u[..j][0] == u[0]
  {
    var n := KeywordLength(u);
    var x := u[..j];
    KeywordIsWord(u);
    KeywordLengthPrefix(u, j);
    if n > 0 && n < |u| && IsWordChar(u[n]) {
      assert n < j - 1;
      assert x[n] == u[n];
    }
  }

  /** The output of pass 4 for the text before position `j`, whose last
      character is not a word character. */
  function IsolateBefore(u: string, j: nat): string
    requires j <= |u|
  {
    if j == 0 then [] else Isolate(u[..j], false)
  }

  /** What pass 4 makes of a whole-word keyword at `j`: blanks on both sides. */
  lemma IsolateAtKeyword(u: string, j: nat)
    requires WholeKeywordAt(u, j)
    ensures var n := KeywordLength(u[j..]);
      Isolate(u, false) == IsolateBefore(u, j) +
        ([' '] + (u[j..j + n] + ([' '] + Isolate(u[j + n..], true))))
  {
    var v := u[j..];
    var n := KeywordLength(v);
    KeywordAtSlice(u, j);
    IsolateMatchStep(v, false);
    SliceParts(u, j, n);
    if j > 0 {
      IsolateSplit(u, false, j);
    } else {
      SliceFromZero(u);
    }
  }

  lemma KeywordAtSlice(u: string, j: nat)
    requires WholeKeywordAt(u, j)
    ensures var v, n := u[j..], KeywordLength(u[j..]);
      v != [] && n > 0 && (n == |v| || !IsWordChar(v[n]))
  {
    var v, n := u[j..], KeywordLength(u[j..]);
    if j + n < |u| {
      assert v[n] == u[j + n];
    }
  }

  lemma SliceParts(u: string, j: nat, n: nat)
    requires j + n <= |u|
    ensures u[j..][..n] == u[j..j + n] && u[j..][n..] == u[j + n..]
  {
  }

  lemma SliceFromZero(u: string)
    ensures u[0..] == u
  {
  }

  /** A non-blank run with a blank on each side is cut off on both sides in
      the skeleton. */
  lemma SurroundedRunAt(t: string, p: nat, m: nat)
    requires 0 < p && 0 < m && p + m < |t|
    requires IsBlank(t[p - 1]) && IsBlank(t[p + m])
    requires forall k :: p <= k < p + m ==> !IsBlank(t[k])
    ensures Rank(t, p) + m <= |NonBlank(t)|
    ensures CutAround(NonBlank(t), Glue(t), Rank(t, p), m)
  {
    GluedRun(t, p, m);
    RankRun(t, p, m - 1);
    LeftOpen(t, p);
    RightOpen(t, p + m - 1);
  }

  /** The rank of the character after a prefix and a blank. */
  lemma RankAfterBlank(a: string, b: char, r: string)
    requires IsBlank(b)
    ensures Rank(a + ([b] + r), |a| + 1) == |NonBlank(a)|
  {
    var t := a + ([b] + r);
    assert t[..|a| + 1] == a + [b];
    NonBlankAppend(a, [b]);
    NonBlankCons(b, []);
  }

  /** `t` laid out as a prefix, a blank, a non-blank run and a blank. */
  lemma Surrounded(a: string, k: string, r: string)
    requires k != [] && forall i :: 0 <= i < |k| ==> !IsBlank(k[i])
    ensures var t := a + ([' '] + (k + ([' '] + r)));
      var p := |a| + 1;
      p + |k| < |t| && IsBlank(t[p - 1]) && IsBlank(t[p + |k|]) &&
      (forall i :: p <= i < p + |k| ==> !IsBlank(t[i])) &&
      Rank(t, p) == |NonBlank(a)|
  {
    var t := a + ([' '] + (k + ([' '] + r)));
    var p := |a| + 1;
    forall i | p <= i < p + |k| ensures !IsBlank(t[i]) {
      assert t[i] == k[i - p];
    }
    RankAfterBlank(a, ' ', k + ([' '] + r));
  }

  /** A whole-word keyword of the output of pass 4 is one of its input, and
      pass 4 has put a blank on each side of it. */
  lemma IsolateKeywordCut(u: string, i: int, cs: string, g: seq<bool>, h: seq<bool>)
    requires cs == NonBlank(u) && g == Glue(u) && h == Glue(Isolate(u, false))
    requires NonBlank(Isolate(u, false)) == cs && OnlyCuts(cs, g, h)
    requires WholeKeywordSk(cs, h, i)
    ensures i + KeywordLength(cs[i..]) <= |cs| && CutAround(cs, h, i, KeywordLength(cs[i..]))
  {
    WholeKeywordCut(cs, g, h, i);
    WholeKeywordFromSk(u, i, cs, g);
    IsolateSurrounds(u, Position(u, i), cs, h);
  }

  lemma IsolateSurrounds(u: string, j: nat, cs: string, h: seq<bool>)
    requires WholeKeywordAt(u, j)
    requires cs == NonBlank(Isolate(u, false)) && h == Glue(Isolate(u, false))
    ensures Rank(u, j) + KeywordLength(u[j..]) <= |cs|
    ensures Shape(cs, h) && CutAround(cs, h, Rank(u, j), KeywordLength(u[j..]))
  {
    var n := KeywordLength(u[j..]);
    IsolateAtKeyword(u, j);
    KeywordSlice(u, j);
    PrefixRank(u, j);
    SurroundedCut(Isolate(u, false), IsolateBefore(u, j), u[j..j + n], Isolate(u[j + n..], true));
  }

  /** A non-blank run between two blanks is cut off on both sides. */
  lemma SurroundedCut(t: string, a: string, k: string, r: string)
    requires t == a + ([' '] + (k + ([' '] + r)))
    requires k != [] && forall i :: 0 <= i < |k| ==> !IsBlank(k[i])
    ensures |NonBlank(a)| + |k| <= |NonBlank(t)|
    ensures CutAround(NonBlank(t), Glue(t), |NonBlank(a)|, |k|)
  {
    Surrounded(a, k, r);
    SurroundedRunAt(t, |a| + 1, |k|);
  }

  lemma KeywordSlice(u: string, j: nat)
    requires WholeKeywordAt(u, j)
    ensures var k := u[j..j + KeywordLength(u[j..])];
      k != [] && forall m :: 0 <= m < |k| ==> !IsBlank(k[m])
  {
    var n := KeywordLength(u[j..]);
    var k := u[j..j + n];
    KeywordRun(u, j);
    forall m | 0 <= m < |k| ensures !IsBlank(k[m]) {
      assert k[m] == u[j + m];
    }
  }

  lemma PrefixRank(u: string, j: nat)
    requires 0 <= j <= |u|
    ensures |NonBlank(IsolateBefore(u, j))| == Rank(u, j)
  {
    if j > 0 {
      IsolateKeepsNonBlank(u[..j], false);
    }
  }

  /** After pass 4 every whole-word keyword is cut off from its neighbours
      in the skeleton. */
  lemma IsolateSpacesKeywords(u: string)
    ensures KeywordsSpacedSk(NonBlank(Isolate(u, false)), Glue(Isolate(u, false)))
  {
    var t := Isolate(u, false);
    IsolateRespaced(u, false);
    RespacedCuts(u, t);
    IsolateSpacesKeywordsSk(u, NonBlank(u), Glue(u), Glue(t));
  }

  lemma IsolateSpacesKeywordsSk(u: string, cs: string, g: seq<bool>, h: seq<bool>)
    requires cs == NonBlank(u) && g == Glue(u) && h == Glue(Isolate(u, false))
    requires NonBlank(Isolate(u, false)) == cs && OnlyCuts(cs, g, h)
    ensures KeywordsSpacedSk(cs, h)
  {
    forall i | 0 <= i < |cs| && WholeKeywordSk(cs, h, i)
      ensures CutAround(cs, h, i, KeywordLength(cs[i..]))
    {
      IsolateKeywordCut(u, i, cs, g, h);
    }
  }
}
