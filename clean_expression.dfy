/** clean_expression (utils.py:88-101): eight successive `re.sub` rewrites
    followed by `strip()`.  Each rewrite is a total function that scans its
    input from the left the way `re.sub` does: at each position it tries the
    pattern; on a match it emits the replacement and resumes right after the
    match (matches never overlap), otherwise it copies one character. */
module CleanExpression {
  import opened Chars
  import opened Skeleton

  /** Passes 1-3, `(?i)(\w)(and|or|not)(\w)` and its `\W` variants, replaced
      by `\1 \2 \3`.  `leftWord` / `rightWord` say whether the first / last
      group is `\w` (true) or `\W` (false).  The last group is consumed, so a
      keyword that starts right after it is not split in the same pass. */
  function SplitGlued(s: string, leftWord: bool, rightWord: bool): string
    decreases |s|
  {
    if |s| == 0 then []
    else
      var n := KeywordLength(s[1..]);
      if IsWordChar(s[0]) == leftWord && n > 0 && n + 1 < |s| && IsWordChar(s[n + 1]) == rightWord then
        [s[0], ' '] + s[1..n + 1] + [' ', s[n + 1]] + SplitGlued(s[n + 2..], leftWord, rightWord)
      else
        [s[0]] + SplitGlued(s[1..], leftWord, rightWord)
  }

  /** Pass 4, `(?i)\b(and|or|not)\b` replaced by ` \1 `.  `prevWord` says
      whether the character before `s` in the scanned string is a word
      character (false at the start of the string). */
  function Isolate(s: string, prevWord: bool): string
    decreases |s|
  {
    if |s| == 0 then []
    else
      var n := KeywordLength(s);
      if !prevWord && n > 0 && (n == |s| || !IsWordChar(s[n])) then
        [' '] + s[..n] + [' '] + Isolate(s[n..], true)
      else
        [s[0]] + Isolate(s[1..], IsWordChar(s[0]))
  }

  /** Length of the token `[<>!=]=?` matched at the start of `s` (the
      alternative `|==` is never reached: `[<>!=]=?` already matches `==`). */
  function OperatorLength(s: string): (n: nat)
    requires s != [] && IsOperatorChar(s[0])
    ensures 1 <= n <= 2 && n <= |s|
    ensures n == 2 <==> |s| >= 2 && s[1] == '='
  {
    if |s| >= 2 && s[1] == '=' then 2 else 1
  }

  /** Pass 5, `([<>!=]=?|==)` replaced by ` \1 `. */
  function SpaceOperators(s: string): string
    decreases |s|
  {
    if |s| == 0 then []
    else if IsOperatorChar(s[0]) then
      var n := OperatorLength(s);
      [' '] + s[..n] + [' '] + SpaceOperators(s[n..])
    else
      [s[0]] + SpaceOperators(s[1..])
  }

  /** Pass 6, `([a-zA-Z0-9_])(\()` replaced by `\1 \2`. */
  function SpaceBeforeParen(s: string): string
    decreases |s|
  {
    if |s| == 0 then []
    else if |s| >= 2 && IsWordChar(s[0]) && s[1] == '(' then
      [s[0], ' ', '('] + SpaceBeforeParen(s[2..])
    else
      [s[0]] + SpaceBeforeParen(s[1..])
  }

  /** Pass 7, `(\))([a-zA-Z0-9_])` replaced by `\1 \2`. */
  function SpaceAfterParen(s: string): string
    decreases |s|
  {
    if |s| == 0 then []
    else if |s| >= 2 && s[0] == ')' && IsWordChar(s[1]) then
      [')', ' ', s[1]] + SpaceAfterParen(s[2..])
    else
      [s[0]] + SpaceAfterParen(s[1..])
  }

  /** Pass 8, `\s+` replaced by a single space: of a run of blanks only the
      last survives, as a space. */
  function CollapseBlanks(s: string): string
    decreases |s|
  {
    if |s| == 0 then []
    else if IsBlank(s[0]) then
      if |s| >= 2 && IsBlank(s[1]) then CollapseBlanks(s[1..]) else [' '] + CollapseBlanks(s[1..])
    else
      [s[0]] + CollapseBlanks(s[1..])
  }

  function TrimStart(s: string): string
    decreases |s|
  {
    if |s| > 0 && IsBlank(s[0]) then TrimStart(s[1..]) else s
  }

  function TrimEnd(s: string): string
    decreases |s|
  {
    if |s| > 0 && IsBlank(s[|s| - 1]) then TrimEnd(s[..|s| - 1]) else s
  }

  /** `str.strip()`. */
  function Strip(s: string): string {
    TrimEnd(TrimStart(s))
  }

  // Single steps of the passes, as lemmas for the proofs that take them apart.

  lemma SplitGluedMatchStep(s: string, leftWord: bool, rightWord: bool, n: nat)
    requires |s| >= 2 && n == KeywordLength(s[1..]) && n > 0 && n + 1 < |s|
    requires IsWordChar(s[0]) == leftWord && IsWordChar(s[n + 1]) == rightWord
    ensures SplitGlued(s, leftWord, rightWord) ==
      [s[0]] + ([' '] + (s[1..n + 1] + ([' '] + ([s[n + 1]] + SplitGlued(s[n + 2..], leftWord, rightWord)))))
  {
    SplitGluedMatchUnfold(s, leftWord, rightWord, n);
    RegroupSplit(s[0], s[1..n + 1], s[n + 1], SplitGlued(s[n + 2..], leftWord, rightWord));
  }

  lemma SplitGluedMatchUnfold(s: string, leftWord: bool, rightWord: bool, n: nat)
    requires |s| >= 2 && n == KeywordLength(s[1..]) && n > 0 && n + 1 < |s|
    requires IsWordChar(s[0]) == leftWord && IsWordChar(s[n + 1]) == rightWord
    ensures SplitGlued(s, leftWord, rightWord) ==
      [s[0], ' '] + s[1..n + 1] + [' ', s[n + 1]] + SplitGlued(s[n + 2..], leftWord, rightWord)
  {
  }

  lemma RegroupSplit(a: char, k: string, b: char, r: string)
    ensures [a, ' '] + k + [' ', b] + r == [a] + ([' '] + (k + ([' '] + ([b] + r))))
  {
  }

  lemma IsolateMatchStep(s: string, prevWord: bool)
    requires s != [] && !prevWord && KeywordLength(s) > 0
    requires KeywordLength(s) == |s| || !IsWordChar(s[KeywordLength(s)])
    ensures Isolate(s, prevWord) ==
      [' '] + (s[..KeywordLength(s)] + ([' '] + Isolate(s[KeywordLength(s)..], true)))
  {
  }

  lemma SpaceOperatorsMatchStep(s: string)
    requires s != [] && IsOperatorChar(s[0])
    ensures SpaceOperators(s) ==
      [' '] + (s[..OperatorLength(s)] + ([' '] + SpaceOperators(s[OperatorLength(s)..])))
  {
  }

  lemma SpaceBeforeParenMatchStep(s: string)
    requires |s| >= 2 && IsWordChar(s[0]) && s[1] == '('
    ensures SpaceBeforeParen(s) == [s[0]] + ([' '] + ([s[1]] + SpaceBeforeParen(s[2..])))
  {
  }

  lemma SpaceAfterParenMatchStep(s: string)
    requires |s| >= 2 && s[0] == ')' && IsWordChar(s[1])
    ensures SpaceAfterParen(s) == [s[0]] + ([' '] + ([s[1]] + SpaceAfterParen(s[2..])))
  {
  }

  /** The text after pass 3 (the input of pass 4). */
  function AfterGluedSplits(e: string): string {
    SplitGlued(SplitGlued(SplitGlued(e, true, true), false, true), true, false)
  }

  /** The text after pass 7 (the input of pass 8). */
  function Spaced(e: string): string {
    SpaceAfterParen(SpaceBeforeParen(SpaceOperators(Isolate(AfterGluedSplits(e), false))))
  }

  /** clean_expression(expr). */
  function Clean(e: string): string {
    Strip(CollapseBlanks(Spaced(e)))
  }
}
