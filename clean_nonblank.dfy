/** Every pass of clean_expression keeps the non-blank characters of its
    input, in order: passes 1-7 only insert spaces, pass 8 only shortens runs
    of blanks and `strip()` only removes blanks. */
module CleanNonBlank {
  import opened Chars
  import opened Skeleton
  import opened CleanExpression

  lemma InsertBlank(a: string, b: string, c: char)
    requires IsBlank(c)
    ensures NonBlank(a + [c] + b) == NonBlank(a + b)
  {
    NonBlankAppend(a + [c], b);
    NonBlankAppend(a, [c]);
    NonBlankAppend(a, b);
    assert NonBlank([c]) == [];
  }

  lemma {:induction false} SplitGluedKeepsNonBlank(s: string, leftWord: bool, rightWord: bool)
    ensures NonBlank(SplitGlued(s, leftWord, rightWord)) == NonBlank(s)
    decreases |s|
  {
    if |s| > 0 {
      var n := KeywordLength(s[1..]);
      if IsWordChar(s[0]) == leftWord && n > 0 && n + 1 < |s| && IsWordChar(s[n + 1]) == rightWord {
        var rest := s[n + 2..];
        var r := SplitGlued(rest, leftWord, rightWord);
        SplitGluedKeepsNonBlank(rest, leftWord, rightWord);
        SplitGluedMatchStep(s, leftWord, rightWord, n);
        SplitAround(s, n);
        NonBlankCons(s[0], [' '] + (s[1..n + 1] + ([' '] + ([s[n + 1]] + r))));
        NonBlankCons(' ', s[1..n + 1] + ([' '] + ([s[n + 1]] + r)));
        NonBlankAppend(s[1..n + 1], [' '] + ([s[n + 1]] + r));
        NonBlankCons(' ', [s[n + 1]] + r);
        NonBlankCons(s[n + 1], r);
        NonBlankCons(s[0], s[1..n + 1] + ([s[n + 1]] + rest));
        NonBlankAppend(s[1..n + 1], [s[n + 1]] + rest);
        NonBlankCons(s[n + 1], rest);
      } else {
        SplitGluedKeepsNonBlank(s[1..], leftWord, rightWord);
        NonBlankCons(s[0], SplitGlued(s[1..], leftWord, rightWord));
        NonBlankCons(s[0], s[1..]);
        assert s == [s[0]] + s[1..];
      }
    }
  }

  lemma {:induction false} IsolateKeepsNonBlank(s: string, prevWord: bool)
    ensures NonBlank(Isolate(s, prevWord)) == NonBlank(s)
    decreases |s|
  {
    if |s| > 0 {
      var n := KeywordLength(s);
      if !prevWord && n > 0 && (n == |s| || !IsWordChar(s[n])) {
        IsolateKeepsNonBlank(s[n..], true);
        IsolateMatchStep(s, prevWord);
        SpacedTokenKeepsNonBlank(s, n, Isolate(s[n..], true));
      } else {
        IsolateKeepsNonBlank(s[1..], IsWordChar(s[0]));
        CopyKeepsNonBlank(s, Isolate(s[1..], IsWordChar(s[0])));
      }
    }
  }

  lemma {:induction false} SpaceOperatorsKeepsNonBlank(s: string)
    ensures NonBlank(SpaceOperators(s)) == NonBlank(s)
    decreases |s|
  {
    if |s| > 0 {
      if IsOperatorChar(s[0]) {
        var n := OperatorLength(s);
        SpaceOperatorsKeepsNonBlank(s[n..]);
        SpaceOperatorsMatchStep(s);
        SpacedTokenKeepsNonBlank(s, n, SpaceOperators(s[n..]));
      } else {
        SpaceOperatorsKeepsNonBlank(s[1..]);
        CopyKeepsNonBlank(s, SpaceOperators(s[1..]));
      }
    }
  }

  /** A token of `s` put between two spaces, before a text with the
      non-blank characters of the rest of `s`. */
  lemma SpacedTokenKeepsNonBlank(s: string, n: nat, t: string)
    requires n <= |s| && NonBlank(t) == NonBlank(s[n..])
    ensures NonBlank([' '] + (s[..n] + ([' '] + t))) == NonBlank(s)
  {
    NonBlankCons(' ', s[..n] + ([' '] + t));
    NonBlankAppend(s[..n], [' '] + t);
    NonBlankCons(' ', t);
    SplitAt(s, n);
    NonBlankAppend(s[..n], s[n..]);
  }

  /** The first character of `s` copied before a text with the non-blank
      characters of the rest of `s`. */
  lemma CopyKeepsNonBlank(s: string, t: string)
    requires s != [] && NonBlank(t) == NonBlank(s[1..])
    ensures NonBlank([s[0]] + t) == NonBlank(s)
  {
    NonBlankCons(s[0], t);
    SplitFirst(s);
    NonBlankCons(s[0], s[1..]);
  }

  lemma {:induction false} SpaceBeforeParenKeepsNonBlank(s: string)
    ensures NonBlank(SpaceBeforeParen(s)) == NonBlank(s)
    decreases |s|
  {
    if |s| >= 2 && IsWordChar(s[0]) && s[1] == '(' {
      SpaceBeforeParenKeepsNonBlank(s[2..]);
      var t := ['('] + SpaceBeforeParen(s[2..]);
      assert SpaceBeforeParen(s) == [s[0]] + [' '] + t;
      InsertBlank([s[0]], t, ' ');
      NonBlankAppend([s[0]], t);
      NonBlankCons('(', SpaceBeforeParen(s[2..]));
      assert s == [s[0]] + (['('] + s[2..]);
      NonBlankAppend([s[0]], ['('] + s[2..]);
      NonBlankCons('(', s[2..]);
    } else if |s| > 0 {
      SpaceBeforeParenKeepsNonBlank(s[1..]);
      CopyKeepsNonBlank(s, SpaceBeforeParen(s[1..]));
    }
  }

  lemma {:induction false} SpaceAfterParenKeepsNonBlank(s: string)
    ensures NonBlank(SpaceAfterParen(s)) == NonBlank(s)
    decreases |s|
  {
    if |s| >= 2 && s[0] == ')' && IsWordChar(s[1]) {
      SpaceAfterParenKeepsNonBlank(s[2..]);
      var t := [s[1]] + SpaceAfterParen(s[2..]);
      assert SpaceAfterParen(s) == [s[0]] + [' '] + t;
      InsertBlank([s[0]], t, ' ');
      NonBlankAppend([s[0]], t);
      NonBlankCons(s[1], SpaceAfterParen(s[2..]));
      assert s == [s[0]] + ([s[1]] + s[2..]);
      NonBlankAppend([s[0]], [s[1]] + s[2..]);
      NonBlankCons(s[1], s[2..]);
    } else if |s| > 0 {
      SpaceAfterParenKeepsNonBlank(s[1..]);
      CopyKeepsNonBlank(s, SpaceAfterParen(s[1..]));
    }
  }
}
