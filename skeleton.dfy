/** The skeleton of a string: its non-blank characters, in order, and for
    each two consecutive non-blank characters whether they are glued, that is
    directly adjacent with no blank between them.  Every pass of
    clean_expression keeps the non-blank characters and only ever cuts glue,
    so the spacing properties of its result are stated on the skeleton. */
module Skeleton {
  import opened Chars

  /** The string with every blank removed. */
  function NonBlank(s: string): (r: string)
    ensures |r| <= |s|
    ensures forall k :: 0 <= k < |r| ==> !IsBlank(r[k])
  {
    if |s| == 0 then [] else (if IsBlank(s[0]) then [] else [s[0]]) + NonBlank(s[1..])
  }

  /** `Glue(s)[i]` holds when the i-th and (i+1)-th non-blank characters of
      `s` are directly adjacent in `s`. */
  function Glue(s: string): (g: seq<bool>)
    ensures |g| == if NonBlank(s) == [] then 0 else |NonBlank(s)| - 1
  {
    if |s| == 0 then []
    else if IsBlank(s[0]) then Glue(s[1..])
    else if NonBlank(s[1..]) == [] then []
    else [!IsBlank(s[1])] + Glue(s[1..])
  }

  /** The glue sequence fits the non-blank characters. */
  predicate Shape(cs: string, g: seq<bool>) {
    |g| == if cs == [] then 0 else |cs| - 1
  }

  lemma NonBlankCons(c: char, u: string)
    ensures NonBlank([c] + u) == if IsBlank(c) then NonBlank(u) else [c] + NonBlank(u)
  {
    assert ([c] + u)[1..] == u;
  }

  lemma {:induction false} NonBlankAppend(a: string, b: string)
    ensures NonBlank(a + b) == NonBlank(a) + NonBlank(b)
    decreases |a|
  {
    if a == [] {
      assert a + b == b;
    } else {
      var u := a[1..];
      SplitFirst(a);
      ConsAssoc(a[0], u, b);
      NonBlankCons(a[0], u + b);
      NonBlankAppend(u, b);
      NonBlankCons(a[0], u);
    }
  }

  lemma ConsAssoc(c: char, u: string, b: string)
    ensures ([c] + u) + b == [c] + (u + b)
  {
  }

  /** Splitting a string in two, as a lemma: stating these equalities as
      assertions next to skeleton facts makes the solver unfold far too much. */
  lemma SplitAt(s: string, n: nat)
    requires n <= |s|
    ensures s == s[..n] + s[n..]
  {
  }

  lemma SplitFirst(s: string)
    requires s != []
    ensures s == [s[0]] + s[1..]
  {
  }

  lemma SplitFirstTwo(s: string)
    requires |s| >= 2
    ensures s == [s[0]] + ([s[1]] + s[2..])
  {
  }

  lemma SplitAround(s: string, n: nat)
    requires n + 1 < |s|
    ensures s == [s[0]] + (s[1..n + 1] + ([s[n + 1]] + s[n + 2..]))
  {
  }

  lemma NonBlankFirst(u: string)
    requires u != [] && !IsBlank(u[0])
    ensures NonBlank(u) != [] && NonBlank(u)[0] == u[0]
  {
  }

  lemma GlueCons(c: char, u: string)
    ensures Glue([c] + u) ==
      if IsBlank(c) then Glue(u)
      else if NonBlank(u) == [] then []
      else [!IsBlank(u[0])] + Glue(u)
  {
    assert ([c] + u)[1..] == u;
  }

  /** Cutting the string after a trailing blank does not change its skeleton. */
  lemma SkeletonDropLastBlank(s: string)
    requires s != [] && IsBlank(s[|s| - 1])
    ensures NonBlank(s[..|s| - 1]) == NonBlank(s)
    ensures Glue(s[..|s| - 1]) == Glue(s)
  {
    var x := s[..|s| - 1];
    assert s == x + [s[|s| - 1]];
    NonBlankAppend(x, [s[|s| - 1]]);
    assert NonBlank([s[|s| - 1]]) == [];
    GlueSnocBlank(x, s[|s| - 1]);
  }

  lemma GlueSnocBlank(x: string, b: char)
    requires IsBlank(b)
    ensures Glue(x + [b]) == Glue(x)
    decreases |x|
  {
    if x == [] {
      assert x + [b] == [b];
      GlueCons(b, []);
    } else {
      var u := x[1..];
      assert x + [b] == [x[0]] + (u + [b]);
      assert x == [x[0]] + u;
      GlueCons(x[0], u + [b]);
      GlueCons(x[0], u);
      GlueSnocBlank(u, b);
      NonBlankAppend(u, [b]);
      assert NonBlank([b]) == [];
      if u != [] {
        assert (u + [b])[0] == u[0];
      }
    }
  }

  /** `t` is `s` respaced: the same non-blank characters, and glue that is
      only ever cut, and only next to a non-word character. */
  predicate Respaced(s: string, t: string) {
    NonBlank(t) == NonBlank(s) &&
    var g, h, cs := Glue(s), Glue(t), NonBlank(s);
    forall i :: 0 <= i < |g| ==>
      (h[i] ==> g[i]) && (g[i] && !h[i] ==> !IsWordChar(cs[i]) || !IsWordChar(cs[i + 1]))
  }

  /** `h` is glue `g` of the skeleton characters `cs` with some of it cut,
      and only next to a non-word character. */
  predicate OnlyCuts(cs: string, g: seq<bool>, h: seq<bool>) {
    Shape(cs, g) && |h| == |g| &&
    forall i :: 0 <= i < |g| ==>
      (h[i] ==> g[i]) && (g[i] && !h[i] ==> !IsWordChar(cs[i]) || !IsWordChar(cs[i + 1]))
  }

  lemma RespacedCuts(s: string, t: string)
    requires Respaced(s, t)
    ensures NonBlank(t) == NonBlank(s) && OnlyCuts(NonBlank(s), Glue(s), Glue(t))
  {
  }

  /** Restating a respacing between equal strings (keeps proofs that
      rewrite a string into pieces small). */
  lemma RespacedEq(s: string, t: string, s': string, t': string)
    requires Respaced(s', t') && s == s' && t == t'
    ensures Respaced(s, t)
  {
  }

  lemma RespacedRefl(s: string)
    ensures Respaced(s, s)
  {
  }

  lemma RespacedTrans(s: string, t: string, u: string)
    requires Respaced(s, t) && Respaced(t, u)
    ensures Respaced(s, u)
  {
  }

  /** Leading blanks do not take part in the skeleton. */
  lemma RespacedBlankFront(u: string, v: string, b: char)
    requires Respaced(u, v) && IsBlank(b)
    ensures Respaced(u, [b] + v)
    ensures Respaced([b] + u, [b] + v)
  {
    GlueCons(b, v);
    NonBlankCons(b, v);
    GlueCons(b, u);
    NonBlankCons(b, u);
  }

  /** Prefixing the same non-blank character keeps a respacing, provided the
      glue to that character is cut only if it was there and one side is not
      a word character. */
  lemma RespacedCons(c: char, u: string, v: string)
    requires Respaced(u, v) && !IsBlank(c)
    requires NonBlank(u) != [] ==> v != [] && u != []
    requires NonBlank(u) != [] ==> (!IsBlank(v[0]) ==> !IsBlank(u[0]))
    requires NonBlank(u) != [] ==>
      (!IsBlank(u[0]) && IsBlank(v[0]) ==> !IsWordChar(c) || !IsWordChar(NonBlank(u)[0]))
    ensures Respaced([c] + u, [c] + v)
  {
    GlueCons(c, u);
    GlueCons(c, v);
    NonBlankCons(c, u);
    NonBlankCons(c, v);
    var g, h, cs := Glue([c] + u), Glue([c] + v), NonBlank([c] + u);
    if NonBlank(u) != [] {
      forall i | 0 <= i < |g|
        ensures (h[i] ==> g[i]) && (g[i] && !h[i] ==> !IsWordChar(cs[i]) || !IsWordChar(cs[i + 1]))
      {
        if i > 0 {
          assert g[i] == Glue(u)[i - 1] && h[i] == Glue(v)[i - 1];
          assert cs[i] == NonBlank(u)[i - 1] && cs[i + 1] == NonBlank(u)[i];
        }
      }
    }
  }

  /** Prefixing the same string keeps a respacing whose two sides begin with
      the same character. */
  lemma RespacedPrepend(p: string, u: string, v: string)
    requires Respaced(u, v)
    requires u != [] && v != [] && u[0] == v[0]
    ensures Respaced(p + u, p + v)
    decreases |p|
  {
    if p == [] {
      assert p + u == u && p + v == v;
    } else {
      var q := p[1..];
      RespacedPrepend(q, u, v);
      assert p + u == [p[0]] + (q + u);
      assert p + v == [p[0]] + (q + v);
      if IsBlank(p[0]) {
        RespacedBlankFront(q + u, q + v, p[0]);
      } else {
        assert (q + u)[0] == (q + v)[0];
        RespacedCons(p[0], q + u, q + v);
      }
    }
  }
}
