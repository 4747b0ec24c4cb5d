/** Character classes used by the regular expressions of clean_expression,
    restricted to ASCII: `\w` is a letter, a digit or `_`; `\s` is one of the
    six characters it matches under `re.ASCII`; `(?i)` folds ASCII letters
    only.  Python's default `\s` and `str.strip()` also take the separators
    `\x1c` to `\x1f` and non-ASCII whitespace as blanks; this model does not. */
module Chars {

  /** `\w` (and the explicit class `[a-zA-Z0-9_]`). */
  predicate IsWordChar(c: char) {
    ('a' <= c <= 'z') || ('A' <= c <= 'Z') || ('0' <= c <= '9') || c == '_'
  }

  /** `\s` under `re.ASCII`: space, or one of tab, newline, vertical tab,
      form feed and carriage return, which are the consecutive code points 9
      to 13.  The separators 28 to 31, which Python's default `\s` and
      `strip()` also match, are not blanks here. */
  predicate IsBlank(c: char) {
    c == ' ' || '\t' <= c <= '\r'
  }

  /** The class `[<>!=]` of the comparison-operator pass. */
  predicate IsOperatorChar(c: char) {
    c == '<' || c == '>' || c == '!' || c == '='
  }

  function Lower(c: char): (l: char)
    ensures IsWordChar(l) == IsWordChar(c)
    ensures 'A' <= c <= 'Z' ==> 'a' <= l <= 'z' && l as int == c as int + 32
    ensures !('A' <= c <= 'Z') ==> l == c
  {
    if 'A' <= c <= 'Z' then (c as int + 32) as char else c
  }

  function LowerAll(w: string): (l: string)
    ensures |l| == |w|
    ensures forall i :: 0 <= i < |w| ==> l[i] == Lower(w[i])
  {
    seq(|w|, i requires 0 <= i < |w| => Lower(w[i]))
  }

  /** A word matched by `(?i)(and|or|not)`. */
  predicate IsKeyword(w: string) {
    var l := LowerAll(w);
    l == "and" || l == "or" || l == "not"
  }

  /** The length of the keyword that `(?i)(and|or|not)` matches at the start
      of `s`, or 0 when none matches.  The three alternatives start with
      different letters, so at most one prefix of `s` is a keyword and the
      order in which the alternatives are tried does not matter. */
  function KeywordLength(s: string): (n: nat)
    ensures n <= |s|
    ensures n == 0 || n == 2 || n == 3
  {
    if |s| >= 3 && Lower(s[0]) == 'a' && Lower(s[1]) == 'n' && Lower(s[2]) == 'd' then
      3
    else if |s| >= 2 && Lower(s[0]) == 'o' && Lower(s[1]) == 'r' then
      2
    else if |s| >= 3 && Lower(s[0]) == 'n' && Lower(s[1]) == 'o' && Lower(s[2]) == 't' then
      3
    else
      0
  }

  /** A positive `KeywordLength` is the length of a matched keyword. */
  lemma KeywordLengthIsKeyword(s: string)
    ensures KeywordLength(s) > 0 ==> IsKeyword(s[..KeywordLength(s)])
  {
    if |s| >= 3 && Lower(s[0]) == 'a' && Lower(s[1]) == 'n' && Lower(s[2]) == 'd' {
      assert LowerAll(s[..3]) == "and";
    } else if |s| >= 2 && Lower(s[0]) == 'o' && Lower(s[1]) == 'r' {
      assert LowerAll(s[..2]) == "or";
    } else if |s| >= 3 && Lower(s[0]) == 'n' && Lower(s[1]) == 'o' && Lower(s[2]) == 't' {
      assert LowerAll(s[..3]) == "not";
    }
  }

  /** `KeywordLength` is the one prefix length at which `(?i)(and|or|not)`
      matches, and 0 exactly when no prefix matches. */
  lemma KeywordLengthMatches(s: string)
    ensures forall k :: 0 < k <= |s| ==> (IsKeyword(s[..k]) <==> k == KeywordLength(s))
  {
    var n := KeywordLength(s);
    if n > 0 {
      KeywordUnique(s, n);
    } else {
      NoKeyword(s);
    }
  }

  /** Only one prefix of `s` can be a keyword: the one of length `n`. */
  lemma KeywordUnique(s: string, n: nat)
    requires n <= |s| && IsKeyword(s[..n])
    ensures forall k :: 0 < k <= |s| ==> (IsKeyword(s[..k]) <==> k == n)
  {
    forall k | 0 < k <= |s| && IsKeyword(s[..k]) ensures k == n {
      KeywordPrefixUnique(s, k, n);
    }
  }

  lemma KeywordPrefixUnique(s: string, k: nat, n: nat)
    requires k <= |s| && n <= |s|
    requires IsKeyword(s[..k]) && IsKeyword(s[..n])
    ensures k == n
  {
    var a, b := LowerAll(s[..k]), LowerAll(s[..n]);
    assert |a| == k && |b| == n && k >= 2 && n >= 2;
    assert a[0] == Lower(s[0]) == b[0];
    assert a[1] == Lower(s[1]) == b[1];
  }

  lemma NoKeyword(s: string)
    requires !(|s| >= 3 && Lower(s[0]) == 'a' && Lower(s[1]) == 'n' && Lower(s[2]) == 'd')
    requires !(|s| >= 2 && Lower(s[0]) == 'o' && Lower(s[1]) == 'r')
    requires !(|s| >= 3 && Lower(s[0]) == 'n' && Lower(s[1]) == 'o' && Lower(s[2]) == 't')
    ensures forall k :: 0 < k <= |s| ==> !IsKeyword(s[..k])
  {
    forall k | 0 < k <= |s| ensures !IsKeyword(s[..k]) {
      var l := LowerAll(s[..k]);
      assert |l| == k;
    }
  }

  /** A keyword consists of word characters only, so it never contains a
      blank or an operator character. */
  lemma KeywordIsWord(s: string)
    ensures forall k :: 0 <= k < KeywordLength(s) ==> IsWordChar(s[k])
  {
    var n := KeywordLength(s);
    if n > 0 {
      var l := LowerAll(s[..n]);
      assert IsKeyword(s[..n]);
      forall k | 0 <= k < n ensures IsWordChar(s[k]) {
        assert l[k] == Lower(s[k]);
        assert IsWordChar(l[k]);
      }
    }
  }

  /** The keyword matched at the start of a string depends only on the
      string's first characters. */
  lemma KeywordLengthSame(a: string, b: string, n: nat)
    requires 0 < n == KeywordLength(a) && n <= |b| && b[..n] == a[..n]
    ensures KeywordLength(b) == n
  {
    assert IsKeyword(b[..n]);
    KeywordLengthMatches(b);
  }

  /** Cutting a string after its keyword, or cutting it anywhere and still
      finding a keyword, matches the same keyword. */
  lemma KeywordLengthPrefix(s: string, j: nat)
    requires j <= |s|
    ensures KeywordLength(s[..j]) > 0 ==> KeywordLength(s[..j]) == KeywordLength(s)
    ensures KeywordLength(s) <= j ==> KeywordLength(s[..j]) == KeywordLength(s)
  {
    var n, m := KeywordLength(s), KeywordLength(s[..j]);
    if m > 0 {
      assert s[..j][..m] == s[..m];
      KeywordLengthSame(s[..j], s, m);
    }
    if 0 < n <= j {
      assert s[..j][..n] == s[..n];
      KeywordLengthSame(s, s[..j], n);
    }
  }
}
