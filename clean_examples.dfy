/** clean_expression on particular inputs: a keyword glued on both sides,
    the non-overlapping scan of pass 1, and a two-character operator.  Each
    pass is computed on its own, from lemmas that copy the stretch of a
    string where the pass finds no match. */
module CleanExamples {
  import opened Chars
  import opened Skeleton
  import opened CleanExpression
  import opened CleanBlanks
  import opened CleanSpacing
  import opened CleanTheorems

  /** Pattern `(?:\w|\W)(and|or|not)(?:\w|\W)` of passes 1-3 matches at `i`. */
  predicate GluedMatchAt(s: string, i: nat, leftWord: bool, rightWord: bool)
    requires i < |s|
  {
    var n := KeywordLength(s[i + 1..]);
    IsWordChar(s[i]) == leftWord && n > 0 && i + n + 1 < |s| && IsWordChar(s[i + n + 1]) == rightWord
  }

  /** Passes 1-3 copy a prefix in which their pattern matches nowhere. */
  lemma {:induction false} SplitGluedSkip(s: string, leftWord: bool, rightWord: bool, k: nat)
    requires k <= |s|
    requires forall i :: 0 <= i < k ==> !GluedMatchAt(s, i, leftWord, rightWord)
    ensures SplitGlued(s, leftWord, rightWord) == s[..k] + SplitGlued(s[k..], leftWord, rightWord)
    decreases k
  {
    if k == 1 {
      assert !GluedMatchAt(s, 0, leftWord, rightWord);
      SkipOne(s);
    } else if k > 1 {
      assert !GluedMatchAt(s, 0, leftWord, rightWord);
      GluedNoMatchTail(s, leftWord, rightWord, k);
      SplitGluedSkip(s[1..], leftWord, rightWord, k - 1);
      SkipTail(s, k);
      ConsAppend(s[0], s[1..][..k - 1], SplitGlued(s[k..], leftWord, rightWord));
    }
  }

  lemma GluedNoMatchTail(s: string, leftWord: bool, rightWord: bool, k: nat)
    requires 0 < k <= |s|
    requires forall i :: 0 <= i < k ==> !GluedMatchAt(s, i, leftWord, rightWord)
    ensures forall i :: 0 <= i < k - 1 ==> !GluedMatchAt(s[1..], i, leftWord, rightWord)
  {
    forall i | 0 <= i < k - 1 ensures !GluedMatchAt(s[1..], i, leftWord, rightWord) {
      assert !GluedMatchAt(s, i + 1, leftWord, rightWord);
      assert s[1..][i + 1..] == s[i + 2..];
    }
  }

  lemma SkipOne(s: string)
    requires s != []
    ensures s[..1] == [s[0]] && s[1..] == s[1..]
  {
  }

  /** The same, with the copied prefix given as a string of its own. */
  lemma SplitGluedSkipPrefix(p: string, q: string, leftWord: bool, rightWord: bool)
    requires forall i :: 0 <= i < |p| ==> !GluedMatchAt(p + q, i, leftWord, rightWord)
    ensures SplitGlued(p + q, leftWord, rightWord) == p + SplitGlued(q, leftWord, rightWord)
  {
    SplitGluedSkip(p + q, leftWord, rightWord, |p|);
    assert (p + q)[..|p|] == p && (p + q)[|p|..] == q;
  }

  lemma SkipTail(s: string, k: nat)
    requires 1 < k <= |s|
    ensures s[..k] == [s[0]] + s[1..][..k - 1] && s[k..] == s[1..][k - 1..] && s[1..][k - 2] == s[k - 1]
  {
  }

  /** `\b(and|or|not)\b` matches at `i`. */
  predicate IsolateMatchAt(s: string, i: nat, prevWord: bool)
    requires i < |s|
  {
    IsolateMatches(s[i..], if i == 0 then prevWord else IsWordChar(s[i - 1]))
  }

  lemma IsolateMatchAtTail(s: string, prevWord: bool, i: nat)
    requires 0 < i < |s|
    ensures IsolateMatchAt(s, i, prevWord) == IsolateMatchAt(s[1..], i - 1, IsWordChar(s[0]))
  {
    assert s[1..][i - 1..] == s[i..];
    if i > 1 {
      assert s[1..][i - 2] == s[i - 1];
    }
  }

  /** Pass 4 copies a prefix in which its pattern matches nowhere. */
  lemma {:induction false} IsolateSkip(s: string, prevWord: bool, k: nat)
    requires 0 < k <= |s|
    requires forall i :: 0 <= i < k ==> !IsolateMatchAt(s, i, prevWord)
    ensures Isolate(s, prevWord) == s[..k] + Isolate(s[k..], IsWordChar(s[k - 1]))
    decreases k
  {
    assert !IsolateMatchAt(s, 0, prevWord);
    assert s[0..] == s;
    IsolateCopyStep(s, prevWord);
    if k > 1 {
      IsolateNoMatchTail(s, prevWord, k);
      IsolateSkip(s[1..], IsWordChar(s[0]), k - 1);
      SkipTail(s, k);
      ConsAppend(s[0], s[1..][..k - 1], Isolate(s[k..], IsWordChar(s[k - 1])));
    } else {
      SkipOne(s);
    }
  }

  lemma IsolateNoMatchTail(s: string, prevWord: bool, k: nat)
    requires 0 < k <= |s|
    requires forall i :: 0 <= i < k ==> !IsolateMatchAt(s, i, prevWord)
    ensures forall i :: 0 <= i < k - 1 ==> !IsolateMatchAt(s[1..], i, IsWordChar(s[0]))
  {
    forall i | 0 <= i < k - 1 ensures !IsolateMatchAt(s[1..], i, IsWordChar(s[0])) {
      assert !IsolateMatchAt(s, i + 1, prevWord);
      IsolateMatchAtTail(s, prevWord, i + 1);
    }
  }

  /** Pass 5 copies a prefix without operator characters. */
  lemma {:induction false} SpaceOperatorsSkip(s: string, k: nat)
    requires k <= |s|
    requires forall i :: 0 <= i < k ==> !IsOperatorChar(s[i])
    ensures SpaceOperators(s) == s[..k] + SpaceOperators(s[k..])
    decreases k
  {
    if k > 0 {
      var u := s[1..];
      SpaceOperatorsSkip(u, k - 1);
      assert s[..k] == [s[0]] + u[..k - 1];
      assert s[k..] == u[k - 1..];
    }
  }

  /** Pass 6 changes nothing in a string without `(`. */
  lemma {:induction false} SpaceBeforeParenNone(s: string)
    requires forall i :: 0 <= i < |s| ==> s[i] != '('
    ensures SpaceBeforeParen(s) == s
    decreases |s|
  {
    if s != [] {
      SpaceBeforeParenNone(s[1..]);
    }
  }

  /** Pass 7 changes nothing in a string without `)`. */
  lemma {:induction false} SpaceAfterParenNone(s: string)
    requires forall i :: 0 <= i < |s| ==> s[i] != ')'
    ensures SpaceAfterParen(s) == s
    decreases |s|
  {
    if s != [] {
      SpaceAfterParenNone(s[1..]);
    }
  }

  // `1andx`: pass 1 splits the keyword glued to word characters on both
  // sides.

  lemma OneAndXPass1()
    ensures SplitGlued("1andx", true, true) == "1 and x"
  {
    SplitGluedMatchStep("1andx", true, true, 3);
  }

  lemma OneAndXPass2()
    ensures SplitGlued("1 and x", false, true) == "1 and x"
  {
    SplitGluedSkip("1 and x", false, true, 7);
  }

  lemma OneAndXPass3()
    ensures SplitGlued("1 and x", true, false) == "1 and x"
  {
    SplitGluedSkip("1 and x", true, false, 7);
  }

  lemma OneAndXCanonical()
    ensures Canonical("1 and x")
  {
  }

  lemma OneAndXWordGlued()
    ensures WordGlued("1 and x")
  {
  }

  lemma OneAndX()
    ensures Clean("1andx") == "1 and x"
  {
    OneAndXPass1();
    OneAndXPass2();
    OneAndXPass3();
    OneAndXCanonical();
    OneAndXWordGlued();
    CleanAfterSplits("1andx");
  }

  // `xandyandz`: pass 1 consumes the `y` after the first `and`, so the
  // second `and`, glued to `y` on its left, is never split.

  lemma XAndYAndZPass1()
    ensures SplitGlued("xandyandz", true, true) == "x and yandz"
  {
    SplitGluedMatchStep("xandyandz", true, true, 3);
    SplitGluedSkip("andz", true, true, 4);
    assert "x and y" + "andz" == "x and yandz";
  }

  lemma XAndYAndZPass2()
    ensures SplitGlued("x and yandz", false, true) == "x and yandz"
  {
    SplitGluedSkip("x and yandz", false, true, 11);
  }

  lemma XAndYAndZPass3()
    ensures SplitGlued("x and yandz", true, false) == "x and yandz"
  {
    SplitGluedSkip("x and yandz", true, false, 11);
  }

  lemma XAndYAndZCanonical()
    ensures Canonical("x and yandz")
  {
  }

  lemma XAndYAndZWordGlued()
    ensures WordGlued("x and yandz")
  {
  }

  lemma XAndYAndZ()
    ensures Clean("xandyandz") == "x and yandz"
  {
    XAndYAndZPass1();
    XAndYAndZPass2();
    XAndYAndZPass3();
    XAndYAndZCanonical();
    XAndYAndZWordGlued();
    CleanAfterSplits("xandyandz");
  }

  // `xoryorz`: pass 1 consumes the `y` after the first `or`, so the second
  // `or` is not split in the same scan; a second run of clean_expression
  // splits it.

  lemma XOrYOrZPass1()
    ensures SplitGlued("xoryorz", true, true) == "x or yorz"
  {
    SplitGluedMatchStep("xoryorz", true, true, 2);
    SplitGluedSkip("orz", true, true, 3);
    assert "x or y" + "orz" == "x or yorz";
  }

  lemma XOrYOrZPass2()
    ensures SplitGlued("x or yorz", false, true) == "x or yorz"
  {
    SplitGluedSkip("x or yorz", false, true, 9);
  }

  lemma XOrYOrZPass3()
    ensures SplitGlued("x or yorz", true, false) == "x or yorz"
  {
    SplitGluedSkip("x or yorz", true, false, 9);
  }

  lemma XOrYOrZCanonical()
    ensures Canonical("x or yorz")
  {
  }

  lemma XOrYOrZWordGlued()
    ensures WordGlued("x or yorz")
  {
  }

  lemma XOrYOrZ()
    ensures Clean("xoryorz") == "x or yorz"
  {
    XOrYOrZPass1();
    XOrYOrZPass2();
    XOrYOrZPass3();
    XOrYOrZCanonical();
    XOrYOrZWordGlued();
    CleanAfterSplits("xoryorz");
  }

  lemma AgainPass1()
    ensures SplitGlued("x or yorz", true, true) == "x or y or z"
  {
    AgainPass1Prefix();
    AgainPass1Match();
    AgainPass1Concat();
    SplitGluedChain("x or yorz", "x or ", "yorz", "y or z", "x or y or z", true, true);
  }

  lemma AgainPass1Concat()
    ensures "x or " + "y or z" == "x or y or z"
  {
  }

  lemma SplitGluedChain(a: string, p: string, q: string, w: string, r: string, leftWord: bool, rightWord: bool)
    requires SplitGlued(a, leftWord, rightWord) == p + SplitGlued(q, leftWord, rightWord)
    requires SplitGlued(q, leftWord, rightWord) == w && p + w == r
    ensures SplitGlued(a, leftWord, rightWord) == r
  {
  }

  lemma AgainPass1Prefix()
    ensures SplitGlued("x or yorz", true, true) == "x or " + SplitGlued("yorz", true, true)
  {
    SplitGluedSkipPrefix("x or ", "yorz", true, true);
    assert "x or yorz" == "x or " + "yorz";
  }

  lemma AgainPass1Match()
    ensures SplitGlued("yorz", true, true) == "y or z"
  {
    SplitGluedMatchStep("yorz", true, true, 2);
  }

  lemma AgainPass2()
    ensures SplitGlued("x or y or z", false, true) == "x or y or z"
  {
    SplitGluedSkip("x or y or z", false, true, 11);
  }

  lemma AgainPass3()
    ensures SplitGlued("x or y or z", true, false) == "x or y or z"
  {
    SplitGluedSkip("x or y or z", true, false, 11);
  }

  lemma AgainCanonical()
    ensures Canonical("x or y or z")
  {
  }

  lemma AgainWordGlued()
    ensures WordGlued("x or y or z")
  {
  }

  lemma Again()
    ensures Clean("x or yorz") == "x or y or z"
  {
    AgainPass1();
    AgainPass2();
    AgainPass3();
    AgainCanonical();
    AgainWordGlued();
    CleanAfterSplits("x or yorz");
  }

  /** clean_expression is not idempotent. */
  lemma CleanNotIdempotent()
    ensures Clean(Clean("xoryorz")) != Clean("xoryorz")
  {
    XOrYOrZ();
    Again();
  }

  // `x<=1` and `x==0`: a two-character operator is one token, spaced as a
  // whole.

  lemma XLeOnePass1()
    ensures SplitGlued("x<=1", true, true) == "x<=1"
  {
    SplitGluedSkip("x<=1", true, true, 4);
  }

  lemma XLeOnePass2()
    ensures SplitGlued("x<=1", false, true) == "x<=1"
  {
    SplitGluedSkip("x<=1", false, true, 4);
  }

  lemma XLeOnePass3()
    ensures SplitGlued("x<=1", true, false) == "x<=1"
  {
    SplitGluedSkip("x<=1", true, false, 4);
  }

  lemma XLeOnePass4()
    ensures Isolate("x<=1", false) == "x<=1"
  {
    IsolateSkip("x<=1", false, 4);
  }

  lemma XLeOnePasses1To4()
    ensures AfterGluedSplits("x<=1") == "x<=1"
    ensures Isolate(AfterGluedSplits("x<=1"), false) == "x<=1"
  {
    XLeOnePass1();
    XLeOnePass2();
    XLeOnePass3();
    XLeOnePass4();
  }

  lemma XLeOnePass5()
    ensures SpaceOperators("x<=1") == "x <= 1"
  {
    SpaceOperatorsSkip("x<=1", 1);
    SpaceOperatorsMatchStep("<=1");
  }

  lemma XLeOnePasses6To7()
    ensures SpaceAfterParen(SpaceBeforeParen("x <= 1")) == "x <= 1"
  {
    SpaceBeforeParenNone("x <= 1");
    SpaceAfterParenNone("x <= 1");
  }

  lemma XLeOneSpaced()
    ensures Spaced("x<=1") == "x <= 1"
  {
    XLeOnePasses1To4();
    XLeOnePass5();
    XLeOnePasses6To7();
  }

  lemma XLeOneResultCanonical()
    ensures Canonical("x <= 1")
  {
  }

  lemma XLeOne()
    ensures Clean("x<=1") == "x <= 1"
  {
    XLeOneSpaced();
    XLeOneResultCanonical();
    CleanWhenSpacedAs("x<=1", "x <= 1");
  }

  lemma XEqZeroPass1()
    ensures SplitGlued("x==0", true, true) == "x==0"
  {
    SplitGluedSkip("x==0", true, true, 4);
  }

  lemma XEqZeroPass2()
    ensures SplitGlued("x==0", false, true) == "x==0"
  {
    SplitGluedSkip("x==0", false, true, 4);
  }

  lemma XEqZeroPass3()
    ensures SplitGlued("x==0", true, false) == "x==0"
  {
    SplitGluedSkip("x==0", true, false, 4);
  }

  lemma XEqZeroPass4()
    ensures Isolate("x==0", false) == "x==0"
  {
    IsolateSkip("x==0", false, 4);
  }

  lemma XEqZeroPasses1To4()
    ensures AfterGluedSplits("x==0") == "x==0"
    ensures Isolate(AfterGluedSplits("x==0"), false) == "x==0"
  {
    XEqZeroPass1();
    XEqZeroPass2();
    XEqZeroPass3();
    XEqZeroPass4();
  }

  lemma XEqZeroPass5()
    ensures SpaceOperators("x==0") == "x == 0"
  {
    SpaceOperatorsSkip("x==0", 1);
    SpaceOperatorsMatchStep("==0");
  }

  lemma XEqZeroPasses6To7()
    ensures SpaceAfterParen(SpaceBeforeParen("x == 0")) == "x == 0"
  {
    SpaceBeforeParenNone("x == 0");
    SpaceAfterParenNone("x == 0");
  }

  lemma XEqZeroSpaced()
    ensures Spaced("x==0") == "x == 0"
  {
    XEqZeroPasses1To4();
    XEqZeroPass5();
    XEqZeroPasses6To7();
  }

  lemma XEqZeroResultCanonical()
    ensures Canonical("x == 0")
  {
  }

  lemma XEqZero()
    ensures Clean("x==0") == "x == 0"
  {
    XEqZeroSpaced();
    XEqZeroResultCanonical();
    CleanWhenSpacedAs("x==0", "x == 0");
  }

  // `x<==1`: pass 5 matches `<=` and then `=` alone, so the second `=` of
  // the input becomes a token of its own.

  lemma XLeEqOnePass1()
    ensures SplitGlued("x<==1", true, true) == "x<==1"
  {
    SplitGluedSkip("x<==1", true, true, 5);
  }

  lemma XLeEqOnePass2()
    ensures SplitGlued("x<==1", false, true) == "x<==1"
  {
    SplitGluedSkip("x<==1", false, true, 5);
  }

  lemma XLeEqOnePass3()
    ensures SplitGlued("x<==1", true, false) == "x<==1"
  {
    SplitGluedSkip("x<==1", true, false, 5);
  }

  lemma XLeEqOnePass4()
    ensures Isolate("x<==1", false) == "x<==1"
  {
    IsolateSkip("x<==1", false, 5);
  }

  lemma XLeEqOnePasses1To4()
    ensures AfterGluedSplits("x<==1") == "x<==1"
    ensures Isolate(AfterGluedSplits("x<==1"), false) == "x<==1"
  {
    XLeEqOnePass1();
    XLeEqOnePass2();
    XLeEqOnePass3();
    XLeEqOnePass4();
  }

  lemma XLeEqOnePass5()
    ensures SpaceOperators("x<==1") == "x <=  = 1"
  {
    SpaceOperatorsSkip("x<==1", 1);
    SpaceOperatorsMatchStep("<==1");
    SpaceOperatorsMatchStep("=1");
    SpaceOperatorsSkip("1", 1);
  }

  lemma XLeEqOnePasses6To7()
    ensures SpaceAfterParen(SpaceBeforeParen("x <=  = 1")) == "x <=  = 1"
  {
    SpaceBeforeParenNone("x <=  = 1");
    SpaceAfterParenNone("x <=  = 1");
  }

  lemma XLeEqOneSpaced()
    ensures Spaced("x<==1") == "x <=  = 1"
  {
    XLeEqOnePasses1To4();
    XLeEqOnePass5();
    XLeEqOnePasses6To7();
  }

  lemma XLeEqOneCollapse()
    ensures CollapseBlanks("x <=  = 1") == "x <= = 1"
  {
  }

  lemma XLeEqOneStrip()
    ensures Strip("x <= = 1") == "x <= = 1"
  {
  }

  lemma XLeEqOne()
    ensures Clean("x<==1") == "x <= = 1"
  {
    XLeEqOneSpaced();
    XLeEqOneCollapse();
    XLeEqOneStrip();
  }
}
