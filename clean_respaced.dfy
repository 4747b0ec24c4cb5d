/** Passes 4-7 of clean_expression respace their input: they keep its
    non-blank characters and cut glue only next to a non-word character
    (an operator, a parenthesis, or the edge of a whole-word keyword). */
module CleanRespaced {
  import opened Chars
  import opened Skeleton
  import opened CleanExpression

  /** Prefixing one character to two strings that start alike. */
  lemma CopyFirst(c: char, u: string, v: string)
    requires Respaced(u, v)
    requires u == [] <==> v == []
    requires u != [] ==> u[0] == v[0]
    ensures Respaced([c] + u, [c] + v)
  {
    if u == [] {
      RespacedRefl([c]);
    } else {
      RespacedPrepend([c], u, v);
    }
  }

  lemma {:induction false} SpaceBeforeParenFirst(u: string)
    requires u != []
    ensures SpaceBeforeParen(u) != [] && SpaceBeforeParen(u)[0] == u[0]
  {
  }

  lemma {:induction false} SpaceAfterParenFirst(u: string)
    requires u != []
    ensures SpaceAfterParen(u) != [] && SpaceAfterParen(u)[0] == u[0]
  {
  }

  lemma {:induction false} SpaceOperatorsFirst(u: string)
    requires u != []
    ensures SpaceOperators(u) != []
    ensures IsOperatorChar(u[0]) ==> SpaceOperators(u)[0] == ' '
    ensures !IsOperatorChar(u[0]) ==> SpaceOperators(u)[0] == u[0]
  {
  }

  lemma {:induction false} IsolateFirst(u: string, prevWord: bool)
    requires u != []
    ensures Isolate(u, prevWord) != []
    ensures Isolate(u, prevWord)[0] == u[0] || (Isolate(u, prevWord)[0] == ' ' && !prevWord)
  {
  }

  lemma {:induction false} SpaceBeforeParenRespaced(s: string)
    ensures Respaced(s, SpaceBeforeParen(s))
    decreases |s|
  {
    if |s| >= 2 && IsWordChar(s[0]) && s[1] == '(' {
      SpaceBeforeParenRespaced(s[2..]);
      SpaceBeforeParenMatch(s);
    } else if s != [] {
      var u := s[1..];
      SpaceBeforeParenRespaced(u);
      if u != [] {
        SpaceBeforeParenFirst(u);
      }
      CopyFirst(s[0], u, SpaceBeforeParen(u));
      SplitFirst(s);
    }
  }

  lemma SpaceBeforeParenMatch(s: string)
    requires |s| >= 2 && IsWordChar(s[0]) && s[1] == '('
    requires Respaced(s[2..], SpaceBeforeParen(s[2..]))
    ensures Respaced(s, SpaceBeforeParen(s))
  {
    var u := s[2..];
    if u != [] {
      SpaceBeforeParenFirst(u);
    }
    CutAfterFirst(s[0], s[1], u, SpaceBeforeParen(u));
    SplitFirstTwo(s);
    SpaceBeforeParenMatchStep(s);
  }

  /** Cutting the glue between two leading non-blank characters, one of
      which is not a word character. */
  lemma CutAfterFirst(c: char, d: char, u: string, w: string)
    requires !IsBlank(c) && !IsBlank(d) && (!IsWordChar(c) || !IsWordChar(d))
    requires Respaced(u, w) && (u == [] <==> w == []) && (u != [] ==> u[0] == w[0])
    ensures Respaced([c] + ([d] + u), [c] + ([' '] + ([d] + w)))
  {
    CopyFirst(d, u, w);
    RespacedBlankFront([d] + u, [d] + w, ' ');
    NonBlankFirst([d] + u);
    RespacedCons(c, [d] + u, [' '] + ([d] + w));
  }

  lemma {:induction false} SpaceAfterParenRespaced(s: string)
    ensures Respaced(s, SpaceAfterParen(s))
    decreases |s|
  {
    if |s| >= 2 && s[0] == ')' && IsWordChar(s[1]) {
      var u := s[2..];
      SpaceAfterParenRespaced(u);
      if u != [] {
        SpaceAfterParenFirst(u);
      }
      CutAfterFirst(s[0], s[1], u, SpaceAfterParen(u));
      SplitFirstTwo(s);
      SpaceAfterParenMatchStep(s);
    } else if s != [] {
      var u := s[1..];
      SpaceAfterParenRespaced(u);
      if u != [] {
        SpaceAfterParenFirst(u);
      }
      CopyFirst(s[0], u, SpaceAfterParen(u));
      SplitFirst(s);
    }
  }

  /** Prefixing a token `p` of non-blank characters and cutting its glue to
      what follows, when its last character or the next non-blank one is not
      a word character. */
  lemma SeparateToken(p: string, u: string, w: string)
    requires p != [] && forall k :: 0 <= k < |p| ==> !IsBlank(p[k])
    requires Respaced(u, w)
    requires u != [] && !IsBlank(u[0]) ==> !IsWordChar(p[|p| - 1]) || !IsWordChar(u[0])
    ensures Respaced(p + u, p + ([' '] + w))
  {
    var last := p[|p| - 1];
    var q := p[..|p| - 1];
    SeparateLast(last, u, w);
    SnocRegroup(p, u, [' '] + w);
    RespacedPrepend(q, [last] + u, [last] + ([' '] + w));
    RespacedEq(p + u, p + ([' '] + w), q + ([last] + u), q + ([last] + ([' '] + w)));
  }

  lemma SeparateLast(last: char, u: string, w: string)
    requires !IsBlank(last) && Respaced(u, w)
    requires u != [] && !IsBlank(u[0]) ==> !IsWordChar(last) || !IsWordChar(u[0])
    ensures Respaced([last] + u, [last] + ([' '] + w))
  {
    RespacedBlankFront(u, w, ' ');
    if NonBlank(u) != [] && !IsBlank(u[0]) {
      NonBlankFirst(u);
    }
    RespacedCons(last, u, [' '] + w);
  }

  lemma SnocRegroup(p: string, u: string, v: string)
    requires p != []
    ensures p + u == p[..|p| - 1] + ([p[|p| - 1]] + u)
    ensures p + v == p[..|p| - 1] + ([p[|p| - 1]] + v)
  {
    assert p == p[..|p| - 1] + [p[|p| - 1]];
  }

  lemma {:induction false} SpaceOperatorsRespaced(s: string)
    ensures Respaced(s, SpaceOperators(s))
    decreases |s|
  {
    if s != [] {
      if IsOperatorChar(s[0]) {
        SpaceOperatorsRespaced(s[OperatorLength(s)..]);
        SpaceOperatorsMatch(s);
      } else {
        SpaceOperatorsRespaced(s[1..]);
        SpaceOperatorsCopy(s);
      }
    }
  }

  lemma SpaceOperatorsMatch(s: string)
    requires s != [] && IsOperatorChar(s[0])
    requires Respaced(s[OperatorLength(s)..], SpaceOperators(s[OperatorLength(s)..]))
    ensures Respaced(s, SpaceOperators(s))
  {
    var n := OperatorLength(s);
    var u := s[n..];
    var w := SpaceOperators(u);
    assert s[..n][n - 1] == s[n - 1];
    SeparateToken(s[..n], u, w);
    RespacedBlankFront(s[..n] + u, s[..n] + ([' '] + w), ' ');
    SplitAt(s, n);
    SpaceOperatorsMatchStep(s);
  }

  lemma SpaceOperatorsCopy(s: string)
    requires s != [] && !IsOperatorChar(s[0])
    requires Respaced(s[1..], SpaceOperators(s[1..]))
    ensures Respaced(s, SpaceOperators(s))
  {
    var u := s[1..];
    var w := SpaceOperators(u);
    SplitFirst(s);
    if IsBlank(s[0]) {
      RespacedBlankFront(u, w, s[0]);
    } else {
      if u != [] {
        SpaceOperatorsFirst(u);
        if !IsBlank(u[0]) {
          NonBlankFirst(u);
        }
      }
      RespacedCons(s[0], u, w);
    }

  }

  lemma {:induction false} IsolateRespaced(s: string, prevWord: bool)
    ensures Respaced(s, Isolate(s, prevWord))
    decreases |s|
  {
    if s != [] {
      var n := KeywordLength(s);
      if !prevWord && n > 0 && (n == |s| || !IsWordChar(s[n])) {
        var u := s[n..];
        var w := Isolate(u, true);
        IsolateRespaced(u, true);
        KeywordIsWord(s);
        assert s[..n][n - 1] == s[n - 1];
        SeparateToken(s[..n], u, w);
        RespacedBlankFront(s[..n] + u, s[..n] + ([' '] + w), ' ');
        SplitAt(s, n);
        IsolateMatchStep(s, prevWord);
      } else {
        var u := s[1..];
        var w := Isolate(u, IsWordChar(s[0]));
        IsolateRespaced(u, IsWordChar(s[0]));
        SplitFirst(s);
        if IsBlank(s[0]) {
          RespacedBlankFront(u, w, s[0]);
        } else {
          if u != [] {
            IsolateFirst(u, IsWordChar(s[0]));
            if !IsBlank(u[0]) {
              NonBlankFirst(u);
            }
          }
          RespacedCons(s[0], u, w);
        }
      }
    }
  }
}
