/** The last two steps of clean_expression (utils.py:100-101): `\s+` to one
    space, then `strip()`.  Together they keep the skeleton exactly and leave
    a canonically spaced string, on which they change nothing. */
module CleanBlanks {
  import opened Chars
  import opened Skeleton
  import opened CleanExpression

  /** Only `' '` is used as a blank, and never two in a row. */
  predicate SingleSpaced(t: string) {
    (forall j :: 0 <= j < |t| ==> IsBlank(t[j]) ==> t[j] == ' ') &&
    (forall j :: 0 <= j < |t| - 1 ==> !(IsBlank(t[j]) && IsBlank(t[j + 1])))
  }

  /** Single-spaced, with no blank at either end. */
  predicate Canonical(t: string) {
    SingleSpaced(t) && (t != [] ==> !IsBlank(t[0]) && !IsBlank(t[|t| - 1]))
  }

  lemma {:induction false} CollapseFirst(s: string)
    requires s != []
    ensures CollapseBlanks(s) != []
    ensures IsBlank(CollapseBlanks(s)[0]) == IsBlank(s[0])
    ensures !IsBlank(s[0]) ==> CollapseBlanks(s)[0] == s[0]
    decreases |s|
  {
    if IsBlank(s[0]) && |s| >= 2 && IsBlank(s[1]) {
      CollapseFirst(s[1..]);
    }
  }

  lemma {:induction false} CollapseKeepsSkeleton(s: string)
    ensures NonBlank(CollapseBlanks(s)) == NonBlank(s)
    ensures Glue(CollapseBlanks(s)) == Glue(s)
    decreases |s|
  {
    if s != [] {
      var c := CollapseBlanks(s[1..]);
      CollapseKeepsSkeleton(s[1..]);
      NonBlankCons(s[0], s[1..]);
      GlueCons(s[0], s[1..]);
      assert s == [s[0]] + s[1..];
      if IsBlank(s[0]) {
        if !(|s| >= 2 && IsBlank(s[1])) {
          NonBlankCons(' ', c);
          GlueCons(' ', c);
        }
      } else {
        NonBlankCons(s[0], c);
        GlueCons(s[0], c);
        if s[1..] != [] {
          CollapseFirst(s[1..]);
        }
      }
    }
  }

  lemma {:induction false} CollapseSingleSpaced(s: string)
    ensures SingleSpaced(CollapseBlanks(s))
    decreases |s|
  {
    if s != [] {
      var c := CollapseBlanks(s[1..]);
      CollapseSingleSpaced(s[1..]);
      if s[1..] != [] {
        CollapseFirst(s[1..]);
      }
      if IsBlank(s[0]) && !(|s| >= 2 && IsBlank(s[1])) {
        var r := [' '] + c;
        forall j | 0 <= j < |r| - 1 ensures !(IsBlank(r[j]) && IsBlank(r[j + 1])) {
          if j > 0 {
            assert r[j] == c[j - 1] && r[j + 1] == c[j];
          }
        }
      } else if !IsBlank(s[0]) {
        var r := [s[0]] + c;
        forall j | 0 <= j < |r| - 1 ensures !(IsBlank(r[j]) && IsBlank(r[j + 1])) {
          if j > 0 {
            assert r[j] == c[j - 1] && r[j + 1] == c[j];
          }
        }
      }
    }
  }

  lemma {:induction false} TrimStartIsSuffix(s: string)
    ensures exists k :: 0 <= k <= |s| && TrimStart(s) == s[k..]
    ensures TrimStart(s) != [] ==> !IsBlank(TrimStart(s)[0])
    ensures NonBlank(TrimStart(s)) == NonBlank(s) && Glue(TrimStart(s)) == Glue(s)
    decreases |s|
  {
    if |s| > 0 && IsBlank(s[0]) {
      TrimStartIsSuffix(s[1..]);
      var k :| 0 <= k <= |s[1..]| && TrimStart(s[1..]) == s[1..][k..];
      assert s[1..][k..] == s[k + 1..];
    } else {
      assert s[0..] == s;
    }
  }

  lemma {:induction false} TrimEndIsPrefix(s: string)
    ensures exists k :: 0 <= k <= |s| && TrimEnd(s) == s[..k]
    ensures TrimEnd(s) != [] ==> !IsBlank(TrimEnd(s)[|TrimEnd(s)| - 1])
    ensures NonBlank(TrimEnd(s)) == NonBlank(s) && Glue(TrimEnd(s)) == Glue(s)
    decreases |s|
  {
    if |s| > 0 && IsBlank(s[|s| - 1]) {
      var p := s[..|s| - 1];
      TrimEndIsPrefix(p);
      SkeletonDropLastBlank(s);
      var k :| 0 <= k <= |p| && TrimEnd(p) == p[..k];
      assert p[..k] == s[..k];
    } else {
      assert s[..|s|] == s;
    }
  }

  lemma SingleSpacedSlice(s: string, i: nat, j: nat)
    requires SingleSpaced(s) && i <= j <= |s|
    ensures SingleSpaced(s[i..j])
  {
    var t := s[i..j];
    forall k | 0 <= k < |t| - 1 ensures !(IsBlank(t[k]) && IsBlank(t[k + 1])) {
      assert t[k] == s[i + k] && t[k + 1] == s[i + k + 1];
    }
  }

  /** `strip()` keeps the skeleton and removes the blanks at both ends. */
  lemma StripKeepsSkeleton(s: string)
    ensures NonBlank(Strip(s)) == NonBlank(s) && Glue(Strip(s)) == Glue(s)
    ensures SingleSpaced(s) ==> Canonical(Strip(s))
  {
    TrimStartIsSuffix(s);
    TrimEndIsPrefix(TrimStart(s));
    if SingleSpaced(s) {
      StripCanonical(s);
    }
  }

  lemma StripCanonical(s: string)
    requires SingleSpaced(s)
    ensures Canonical(Strip(s))
  {
    var a := TrimStart(s);
    TrimStartSingleSpaced(s);
    TrimEndSingleSpaced(a);
    TrimStartFirst(s);
    TrimEndLast(a);
    if a != [] {
      TrimEndFirst(a);
    }
    CanonicalIntro(TrimEnd(a));
  }

  lemma CanonicalIntro(t: string)
    requires SingleSpaced(t)
    requires t != [] ==> !IsBlank(t[0])
    requires t != [] ==> !IsBlank(t[|t| - 1])
    ensures Canonical(t)
  {
  }

  lemma {:induction false} TrimStartFirst(s: string)
    ensures TrimStart(s) != [] ==> !IsBlank(TrimStart(s)[0])
    decreases |s|
  {
    if |s| > 0 && IsBlank(s[0]) {
      TrimStartFirst(s[1..]);
    }
  }

  lemma {:induction false} TrimEndLast(s: string)
    ensures TrimEnd(s) != [] ==> !IsBlank(TrimEnd(s)[|TrimEnd(s)| - 1])
    decreases |s|
  {
    if |s| > 0 && IsBlank(s[|s| - 1]) {
      TrimEndLast(s[..|s| - 1]);
    }
  }

  lemma {:induction false} TrimStartSingleSpaced(s: string)
    requires SingleSpaced(s)
    ensures SingleSpaced(TrimStart(s))
    decreases |s|
  {
    if |s| > 0 && IsBlank(s[0]) {
      SingleSpacedSlice(s, 1, |s|);
      TrimStartSingleSpaced(s[1..]);
    }
  }

  lemma {:induction false} TrimEndSingleSpaced(s: string)
    requires SingleSpaced(s)
    ensures SingleSpaced(TrimEnd(s))
    decreases |s|
  {
    if |s| > 0 && IsBlank(s[|s| - 1]) {
      SingleSpacedSlice(s, 0, |s| - 1);
      assert s[0..|s| - 1] == s[..|s| - 1];
      TrimEndSingleSpaced(s[..|s| - 1]);
    }
  }

  lemma {:induction false} TrimEndFirst(s: string)
    requires s != [] && !IsBlank(s[0])
    ensures TrimEnd(s) != [] && TrimEnd(s)[0] == s[0]
    decreases |s|
  {
    if IsBlank(s[|s| - 1]) {
      TrimEndFirst(s[..|s| - 1]);
    }
  }

  lemma {:induction false} CollapseIdentity(t: string)
    requires SingleSpaced(t)
    ensures CollapseBlanks(t) == t
    decreases |t|
  {
    if t != [] {
      SingleSpacedSlice(t, 1, |t|);
      CollapseIdentity(t[1..]);
      assert t == [t[0]] + t[1..];
    }
  }

  /** The final collapse-and-strip changes nothing on a canonical string; in
      particular re-applying it to the output of clean_expression is a no-op. */
  lemma CollapseStripIdempotent(t: string)
    requires Canonical(t)
    ensures Strip(CollapseBlanks(t)) == t
  {
    CollapseIdentity(t);
  }

  /** What the last two steps guarantee of any input. */
  lemma CollapseStripCanonical(s: string)
    ensures Canonical(Strip(CollapseBlanks(s)))
    ensures NonBlank(Strip(CollapseBlanks(s))) == NonBlank(s)
    ensures Glue(Strip(CollapseBlanks(s))) == Glue(s)
  {
    CollapseSingleSpaced(s);
    CollapseKeepsSkeleton(s);
    StripKeepsSkeleton(CollapseBlanks(s));
  }

  /** A canonical string without its first character and the blank after
      it, if any. */
  function Rest(a: string): string
    requires a != []
  {
    if |a| > 1 && IsBlank(a[1]) then a[2..] else a[1..]
  }

  lemma CanonicalStep(a: string)
    requires Canonical(a) && a != []
    ensures Canonical(Rest(a))
    ensures |a| > 1 && IsBlank(a[1]) ==> Rest(a) != [] && a == [a[0]] + ([' '] + Rest(a))
    ensures !(|a| > 1 && IsBlank(a[1])) ==> a == [a[0]] + Rest(a)
    ensures Rest(a) != [] ==> !IsBlank(Rest(a)[0])
  {
    if |a| > 1 && IsBlank(a[1]) {
      assert a[1] == ' ';
      assert !IsBlank(a[2]);
      SingleSpacedSlice(a, 2, |a|);
      assert a == [a[0]] + ([a[1]] + a[2..]);
    } else {
      SingleSpacedSlice(a, 1, |a|);
      assert a == [a[0]] + a[1..];
    }
  }

  lemma CanonicalStepSkeleton(a: string)
    requires Canonical(a) && a != []
    ensures NonBlank(a) == [a[0]] + NonBlank(Rest(a))
    ensures Glue(a) == if Rest(a) == [] then [] else [!(|a| > 1 && IsBlank(a[1]))] + Glue(Rest(a))
  {
    CanonicalStep(a);
    var r := Rest(a);
    if r != [] {
      NonBlankFirst(r);
    }
    if |a| > 1 && IsBlank(a[1]) {
      NonBlankCons(a[0], [' '] + r);
      NonBlankCons(' ', r);
      GlueCons(a[0], [' '] + r);
      GlueCons(' ', r);
    } else {
      NonBlankCons(a[0], r);
      GlueCons(a[0], r);
    }
  }

  /** A canonical string is determined by its skeleton. */
  lemma {:induction false} CanonicalUnique(a: string, b: string)
    requires Canonical(a) && Canonical(b)
    requires NonBlank(a) == NonBlank(b) && Glue(a) == Glue(b)
    ensures a == b
    decreases |a|
  {
    if a == [] || b == [] {
      if a != [] { NonBlankFirst(a); }
      if b != [] { NonBlankFirst(b); }
    } else {
      CanonicalStepSkeleton(a);
      CanonicalStepSkeleton(b);
      CanonicalStep(a);
      CanonicalStep(b);
      var ra, rb := Rest(a), Rest(b);
      var fa, fb := |a| > 1 && IsBlank(a[1]), |b| > 1 && IsBlank(b[1]);
      ConsInjective(a[0], NonBlank(ra), b[0], NonBlank(rb));
      if ra != [] { NonBlankFirst(ra); }
      if rb != [] { NonBlankFirst(rb); }
      if ra != [] && rb != [] {
        ConsInjective(!fa, Glue(ra), !fb, Glue(rb));
        CanonicalUnique(ra, rb);
      }
    }
  }

  lemma ConsInjective<T>(x: T, xs: seq<T>, y: T, ys: seq<T>)
    requires [x] + xs == [y] + ys
    ensures x == y && xs == ys
  {
    assert ([x] + xs)[0] == x && ([y] + ys)[0] == y;
    assert ([x] + xs)[1..] == xs && ([y] + ys)[1..] == ys;
  }
}
