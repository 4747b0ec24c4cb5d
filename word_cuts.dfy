/** Every pass of clean_expression except the operator pass cuts glue only
    next to a word character: passes 1-4 put blanks only around the letters
    of a keyword, pass 6 only after a word character and pass 7 only before
    one.  So glue between two non-word characters (`<` and `=`, say)
    survives them. */
module WordCuts {
  import opened Chars
  import opened Skeleton
  import opened CleanExpression
  import opened CleanRespaced

  /** `t` keeps the non-blank characters of `s`, creates no glue, and cuts
      glue only where one of its two sides is a word character. */
  predicate CutsAtWords(s: string, t: string) {
    NonBlank(t) == NonBlank(s) &&
    var g, h, cs := Glue(s), Glue(t), NonBlank(s);
    forall i :: 0 <= i < |g| ==>
      (h[i] ==> g[i]) && (g[i] && !h[i] ==> IsWordChar(cs[i]) || IsWordChar(cs[i + 1]))
  }

  lemma CutsRefl(s: string)
    ensures CutsAtWords(s, s)
  {
  }

  lemma CutsTrans(s: string, t: string, u: string)
    requires CutsAtWords(s, t) && CutsAtWords(t, u)
    ensures CutsAtWords(s, u)
  {
  }

  lemma CutsEq(s: string, t: string, s': string, t': string)
    requires CutsAtWords(s', t') && s == s' && t == t'
    ensures CutsAtWords(s, t)
  {
  }

  /** Glue between two non-word characters is kept. */
  lemma CutsKeepGlue(s: string, t: string, i: nat)
    requires CutsAtWords(s, t) && i < |Glue(s)| && Glue(s)[i]
    requires !IsWordChar(NonBlank(s)[i]) && !IsWordChar(NonBlank(s)[i + 1])
    ensures i < |Glue(t)| && Glue(t)[i]
  {
  }

  lemma CutsBlankFront(u: string, v: string, b: char)
    requires CutsAtWords(u, v) && IsBlank(b)
    ensures CutsAtWords(u, [b] + v)
    ensures CutsAtWords([b] + u, [b] + v)
  {
    GlueCons(b, v);
    NonBlankCons(b, v);
    GlueCons(b, u);
    NonBlankCons(b, u);
  }

  /** Prefixing the same non-blank character, where the glue to it is cut
      only if it was there and a word character sits on one side. */
  lemma CutsCons(c: char, u: string, v: string)
    requires CutsAtWords(u, v) && !IsBlank(c)
    requires NonBlank(u) != [] ==> v != [] && u != []
    requires NonBlank(u) != [] ==> (!IsBlank(v[0]) ==> !IsBlank(u[0]))
    requires NonBlank(u) != [] ==>
      (!IsBlank(u[0]) && IsBlank(v[0]) ==> IsWordChar(c) || IsWordChar(NonBlank(u)[0]))
    ensures CutsAtWords([c] + u, [c] + v)
  {
    GlueCons(c, u);
    GlueCons(c, v);
    NonBlankCons(c, u);
    NonBlankCons(c, v);
    var g, h, cs := Glue([c] + u), Glue([c] + v), NonBlank([c] + u);
    if NonBlank(u) != [] {
      forall i | 0 <= i < |g|
        ensures (h[i] ==> g[i]) && (g[i] && !h[i] ==> IsWordChar(cs[i]) || IsWordChar(cs[i + 1]))
      {
        if i > 0 {
          assert g[i] == Glue(u)[i - 1] && h[i] == Glue(v)[i - 1];
          assert cs[i] == NonBlank(u)[i - 1] && cs[i + 1] == NonBlank(u)[i];
        }
      }
    }
  }

  /** Prefixing the same string to two texts that begin alike. */
  lemma {:induction false} CutsPrepend(p: string, u: string, v: string)
    requires CutsAtWords(u, v)
    requires u != [] && v != [] && u[0] == v[0]
    ensures CutsAtWords(p + u, p + v)
    decreases |p|
  {
    if p == [] {
      assert p + u == u && p + v == v;
    } else {
      var q := p[1..];
      CutsPrepend(q, u, v);
      assert p + u == [p[0]] + (q + u);
      assert p + v == [p[0]] + (q + v);
      if IsBlank(p[0]) {
        CutsBlankFront(q + u, q + v, p[0]);
      } else {
        assert (q + u)[0] == (q + v)[0];
        CutsCons(p[0], q + u, q + v);
      }
    }
  }

  lemma CopyFirstCuts(c: char, u: string, v: string)
    requires CutsAtWords(u, v)
    requires u == [] <==> v == []
    requires u != [] ==> u[0] == v[0]
    ensures CutsAtWords([c] + u, [c] + v)
  {
    if u == [] {
      CutsRefl([c]);
    } else {
      CutsPrepend([c], u, v);
    }
  }

  /** Cutting the glue between two leading non-blank characters, one of
      which is a word character. */
  lemma CutAfterFirstCuts(c: char, d: char, u: string, w: string)
    requires !IsBlank(c) && !IsBlank(d) && (IsWordChar(c) || IsWordChar(d))
    requires CutsAtWords(u, w) && (u == [] <==> w == []) && (u != [] ==> u[0] == w[0])
    ensures CutsAtWords([c] + ([d] + u), [c] + ([' '] + ([d] + w)))
  {
    CopyFirstCuts(d, u, w);
    CutsBlankFront([d] + u, [d] + w, ' ');
    NonBlankFirst([d] + u);
    CutsCons(c, [d] + u, [' '] + ([d] + w));
  }

  /** Prefixing a token `p` of non-blank characters and cutting its glue to
      what follows, when its last character or the next non-blank one is a
      word character. */
  lemma SeparateTokenCuts(p: string, u: string, w: string)
    requires p != [] && forall k :: 0 <= k < |p| ==> !IsBlank(p[k])
    requires CutsAtWords(u, w)
    requires u != [] && !IsBlank(u[0]) ==> IsWordChar(p[|p| - 1]) || IsWordChar(u[0])
    ensures CutsAtWords(p + u, p + ([' '] + w))
  {
    var last := p[|p| - 1];
    var q := p[..|p| - 1];
    SeparateLastCuts(last, u, w);
    SnocRegroup(p, u, [' '] + w);
    CutsPrepend(q, [last] + u, [last] + ([' '] + w));
    CutsEq(p + u, p + ([' '] + w), q + ([last] + u), q + ([last] + ([' '] + w)));
  }

  lemma SeparateLastCuts(last: char, u: string, w: string)
    requires !IsBlank(last) && CutsAtWords(u, w)
    requires u != [] && !IsBlank(u[0]) ==> IsWordChar(last) || IsWordChar(u[0])
    ensures CutsAtWords([last] + u, [last] + ([' '] + w))
  {
    CutsBlankFront(u, w, ' ');
    if NonBlank(u) != [] && !IsBlank(u[0]) {
      NonBlankFirst(u);
    }
    CutsCons(last, u, [' '] + w);
  }

  // ------------------------------------------------------------ the passes

  lemma SplitGluedFirst(u: string, leftWord: bool, rightWord: bool)
    requires u != []
    ensures SplitGlued(u, leftWord, rightWord) != [] && SplitGlued(u, leftWord, rightWord)[0] == u[0]
  {
  }

  /** Passes 1-3 put a blank only between a keyword letter and its
      neighbour. */
  lemma {:induction false} SplitGluedCuts(s: string, leftWord: bool, rightWord: bool)
    ensures CutsAtWords(s, SplitGlued(s, leftWord, rightWord))
    decreases |s|
  {
    if s == [] {
      CutsRefl(s);
    } else {
      var n := KeywordLength(s[1..]);
      if IsWordChar(s[0]) == leftWord && n > 0 && n + 1 < |s| && IsWordChar(s[n + 1]) == rightWord {
        SplitGluedCuts(s[n + 2..], leftWord, rightWord);
        SplitGluedMatchCuts(s, leftWord, rightWord, n);
      } else {
        var u := s[1..];
        SplitGluedCuts(u, leftWord, rightWord);
        if u != [] {
          SplitGluedFirst(u, leftWord, rightWord);
        }
        CopyFirstCuts(s[0], u, SplitGlued(u, leftWord, rightWord));
        SplitFirst(s);
      }
    }
  }

  lemma SplitGluedMatchCuts(s: string, leftWord: bool, rightWord: bool, n: nat)
    requires |s| >= 2 && n == KeywordLength(s[1..]) && n > 0 && n + 1 < |s|
    requires IsWordChar(s[0]) == leftWord && IsWordChar(s[n + 1]) == rightWord
    requires CutsAtWords(s[n + 2..], SplitGlued(s[n + 2..], leftWord, rightWord))
    ensures CutsAtWords(s, SplitGlued(s, leftWord, rightWord))
  {
    var k, b, rest := s[1..n + 1], s[n + 1], s[n + 2..];
    var r := SplitGlued(rest, leftWord, rightWord);
    SplitGluedMatchStep(s, leftWord, rightWord, n);
    SplitAround(s, n);
    if rest != [] {
      SplitGluedFirst(rest, leftWord, rightWord);
    }
    KeywordRunFacts(s, n, k);
    CopyFirstCuts(b, rest, r);
    SeparateTokenCuts(k, [b] + rest, [b] + r);
    CutsBlankFront(k + ([b] + rest), k + ([' '] + ([b] + r)), ' ');
    if IsBlank(s[0]) {
      CutsBlankFront(k + ([b] + rest), [' '] + (k + ([' '] + ([b] + r))), s[0]);
    } else {
      NonBlankFirst(k + ([b] + rest));
      CutsCons(s[0], k + ([b] + rest), [' '] + (k + ([' '] + ([b] + r))));
    }
  }

  /** The keyword matched after the first character of `s`: word characters,
      so no blank among them. */
  lemma KeywordRunFacts(s: string, n: nat, k: string)
    requires |s| >= 2 && n == KeywordLength(s[1..]) && n > 0 && n + 1 < |s| && k == s[1..n + 1]
    ensures |k| == n && forall i :: 0 <= i < |k| ==> IsWordChar(k[i]) && !IsBlank(k[i])
  {
    KeywordIsWord(s[1..]);
    assert forall i :: 0 <= i < n ==> k[i] == s[1..][i];
  }

  /** Pass 4 emits a leading blank only before a keyword, whose first
      letter is a word character. */
  lemma IsolateFirstWord(u: string, prevWord: bool)
    requires u != []
    ensures Isolate(u, prevWord) != []
    ensures Isolate(u, prevWord)[0] == u[0] || (Isolate(u, prevWord)[0] == ' ' && IsWordChar(u[0]))
  {
    KeywordIsWord(u);
  }

  lemma {:induction false} IsolateCuts(s: string, prevWord: bool)
    ensures CutsAtWords(s, Isolate(s, prevWord))
    decreases |s|
  {
    if s == [] {
      CutsRefl(s);
    } else {
      var n := KeywordLength(s);
      if !prevWord && n > 0 && (n == |s| || !IsWordChar(s[n])) {
        var u := s[n..];
        var w := Isolate(u, true);
        IsolateCuts(u, true);
        KeywordIsWord(s);
        assert s[..n][n - 1] == s[n - 1];
        SeparateTokenCuts(s[..n], u, w);
        CutsBlankFront(s[..n] + u, s[..n] + ([' '] + w), ' ');
        SplitAt(s, n);
        IsolateMatchStep(s, prevWord);
      } else {
        IsolateCuts(s[1..], IsWordChar(s[0]));
        IsolateCopyCuts(s, prevWord);
      }
    }
  }

  lemma IsolateCopyCuts(s: string, prevWord: bool)
    requires s != []
    requires var n := KeywordLength(s); !(!prevWord && n > 0 && (n == |s| || !IsWordChar(s[n])))
    requires CutsAtWords(s[1..], Isolate(s[1..], IsWordChar(s[0])))
    ensures CutsAtWords(s, Isolate(s, prevWord))
  {
    var u := s[1..];
    var w := Isolate(u, IsWordChar(s[0]));
    SplitFirst(s);
    if IsBlank(s[0]) {
      CutsBlankFront(u, w, s[0]);
    } else {
      if u != [] {
        IsolateFirstWord(u, IsWordChar(s[0]));
        if !IsBlank(u[0]) {
          NonBlankFirst(u);
        }
      }
      CutsCons(s[0], u, w);
    }
  }

  lemma {:induction false} SpaceBeforeParenCuts(s: string)
    ensures CutsAtWords(s, SpaceBeforeParen(s))
    decreases |s|
  {
    if s == [] {
      CutsRefl(s);
    } else if |s| >= 2 && IsWordChar(s[0]) && s[1] == '(' {
      var u := s[2..];
      SpaceBeforeParenCuts(u);
      if u != [] {
        SpaceBeforeParenFirst(u);
      }
      CutAfterFirstCuts(s[0], s[1], u, SpaceBeforeParen(u));
      SplitFirstTwo(s);
      SpaceBeforeParenMatchStep(s);
    } else {
      var u := s[1..];
      SpaceBeforeParenCuts(u);
      if u != [] {
        SpaceBeforeParenFirst(u);
      }
      CopyFirstCuts(s[0], u, SpaceBeforeParen(u));
      SplitFirst(s);
    }
  }

  lemma {:induction false} SpaceAfterParenCuts(s: string)
    ensures CutsAtWords(s, SpaceAfterParen(s))
    decreases |s|
  {
    if s == [] {
      CutsRefl(s);
    } else if |s| >= 2 && s[0] == ')' && IsWordChar(s[1]) {
      var u := s[2..];
      SpaceAfterParenCuts(u);
      if u != [] {
        SpaceAfterParenFirst(u);
      }
      CutAfterFirstCuts(s[0], s[1], u, SpaceAfterParen(u));
      SplitFirstTwo(s);
      SpaceAfterParenMatchStep(s);
    } else {
      var u := s[1..];
      SpaceAfterParenCuts(u);
      if u != [] {
        SpaceAfterParenFirst(u);
      }
      CopyFirstCuts(s[0], u, SpaceAfterParen(u));
      SplitFirst(s);
    }
  }
}
