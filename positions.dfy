/** Where the skeleton of a string sits in the string: the rank of a
    position (how many non-blank characters come before it) links string
    positions to skeleton indices, and the glue of the skeleton to the
    blanks between neighbouring characters. */
module Positions {
  import opened Chars
  import opened Skeleton

  /** The number of non-blank characters of `t` before position `j`; for a
      non-blank `t[j]`, its index in the skeleton. */
  function Rank(t: string, j: nat): nat
    requires j <= |t|
  {
    |NonBlank(t[..j])|
  }

  lemma {:induction false} AllBlank(x: string)
    requires NonBlank(x) == []
    ensures forall k :: 0 <= k < |x| ==> IsBlank(x[k])
    decreases |x|
  {
    if x != [] {
      NonBlankCons(x[0], x[1..]);
      SplitFirst(x);
      AllBlank(x[1..]);
      assert forall k :: 1 <= k < |x| ==> x[k] == x[1..][k - 1];
    }
  }

  lemma RankZero(t: string, j: nat)
    requires j <= |t| && Rank(t, j) == 0
    ensures forall k :: 0 <= k < j ==> IsBlank(t[k])
  {
    AllBlank(t[..j]);
    assert forall k :: 0 <= k < j ==> t[..j][k] == t[k];
  }

  lemma RankNext(t: string, j: nat)
    requires j < |t|
    ensures Rank(t, j + 1) == Rank(t, j) + if IsBlank(t[j]) then 0 else 1
  {
    assert t[..j + 1] == t[..j] + [t[j]];
    NonBlankAppend(t[..j], [t[j]]);
    NonBlankCons(t[j], []);
    assert [t[j]] + [] == [t[j]];
  }

  lemma RankTail(t: string, j: nat)
    requires 0 < j <= |t|
    ensures Rank(t, j) == Rank(t[1..], j - 1) + if IsBlank(t[0]) then 0 else 1
  {
    assert t[..j] == [t[0]] + t[1..][..j - 1];
    NonBlankCons(t[0], t[1..][..j - 1]);
  }

  /** A non-blank character sits at its rank in the skeleton. */
  lemma RankAt(t: string, j: nat)
    requires j < |t| && !IsBlank(t[j])
    ensures Rank(t, j) < |NonBlank(t)| && NonBlank(t)[Rank(t, j)] == t[j]
  {
    assert t == t[..j] + ([t[j]] + t[j + 1..]);
    NonBlankAppend(t[..j], [t[j]] + t[j + 1..]);
    NonBlankCons(t[j], t[j + 1..]);
  }

  /** The position of the i-th non-blank character. */
  function Position(t: string, i: nat): (j: nat)
    requires i < |NonBlank(t)|
    ensures j < |t| && !IsBlank(t[j]) && Rank(t, j) == i
    decreases |t|
  {
    if IsBlank(t[0]) then
      var j := Position(t[1..], i) + 1;
      RankTail(t, j);
      j
    else if i == 0 then
      0
    else
      var j := Position(t[1..], i - 1) + 1;
      RankTail(t, j);
      j
  }

  /** The glue after a non-blank character says whether the next character
      of the string is non-blank. */
  lemma {:induction false} RightGlue(t: string, j: nat)
    requires j < |t| && !IsBlank(t[j]) && Rank(t, j) + 1 < |NonBlank(t)|
    ensures Glue(t)[Rank(t, j)] == (j + 1 < |t| && !IsBlank(t[j + 1]))
    decreases |t|
  {
    var u := t[1..];
    SplitFirst(t);
    NonBlankCons(t[0], u);
    GlueCons(t[0], u);
    if j == 0 {
      assert NonBlank(u) != [];
    } else {
      RankTail(t, j);
      assert u[j - 1] == t[j];
      RightGlue(u, j - 1);
    }
  }

  /** The glue before a non-blank character says whether the previous
      character of the string is non-blank. */
  lemma {:induction false} LeftGlue(t: string, j: nat)
    requires j < |t| && !IsBlank(t[j]) && Rank(t, j) > 0
    ensures j > 0 && Rank(t, j) < |NonBlank(t)|
    ensures Glue(t)[Rank(t, j) - 1] == !IsBlank(t[j - 1])
    decreases |t|
  {
    RankAt(t, j);
    assert Rank(t, 0) == 0;
    var u := t[1..];
    RankTail(t, j);
    assert u[j - 1] == t[j];
    RankAt(u, j - 1);
    if IsBlank(t[0]) {
      assert Glue(t) == Glue(u);
      LeftGlue(u, j - 1);
    } else {
      assert Glue(t) == [!IsBlank(u[0])] + Glue(u);
      if Rank(u, j - 1) == 0 {
        if j >= 2 {
          RankZero(u, j - 1);
          assert IsBlank(u[0]) && IsBlank(u[j - 2]);
        }
      } else {
        LeftGlue(u, j - 1);
      }
    }
  }

  /** Ranks along a run of non-blank characters go up one by one. */
  lemma {:induction false} RankRun(t: string, j: nat, n: nat)
    requires j + n <= |t|
    requires forall k :: j <= k < j + n ==> !IsBlank(t[k])
    ensures Rank(t, j + n) == Rank(t, j) + n
    decreases n
  {
    if n > 0 {
      RankRun(t, j, n - 1);
      RankNext(t, j + n - 1);
    }
  }

  /** A run of non-blank characters is a glued run of the skeleton. */
  lemma GluedRun(t: string, j: nat, n: nat)
    requires n > 0 && j + n <= |t|
    requires forall k :: j <= k < j + n ==> !IsBlank(t[k])
    ensures Rank(t, j) + n <= |NonBlank(t)|
    ensures forall m :: Rank(t, j) <= m < Rank(t, j) + n ==> NonBlank(t)[m] == t[j + (m - Rank(t, j))]
    ensures forall m :: Rank(t, j) <= m < Rank(t, j) + n - 1 ==> Glue(t)[m]
  {
    GluedRunAt(t, j, n, j + n - 1);
    forall m | Rank(t, j) <= m < Rank(t, j) + n
      ensures NonBlank(t)[m] == t[j + (m - Rank(t, j))]
      ensures m < Rank(t, j) + n - 1 ==> Glue(t)[m]
    {
      GluedRunAt(t, j, n, j + (m - Rank(t, j)));
    }
  }

  lemma GluedRunAt(t: string, j: nat, n: nat, k: nat)
    requires j <= k < j + n <= |t|
    requires forall k :: j <= k < j + n ==> !IsBlank(t[k])
    ensures Rank(t, k) == Rank(t, j) + (k - j)
    ensures Rank(t, k) < |NonBlank(t)| && NonBlank(t)[Rank(t, k)] == t[k]
    ensures k + 1 < j + n ==> Rank(t, k) + 1 < |NonBlank(t)| && Glue(t)[Rank(t, k)]
  {
    RankRun(t, j, k - j);
    RankAt(t, k);
    if k + 1 < j + n {
      PairToSkeleton(t, k);
    }
  }

  /** A glued run of the skeleton is a run of non-blank characters. */
  lemma {:induction false} RunFromGlue(t: string, j: nat, n: nat)
    requires n > 0 && j < |t| && !IsBlank(t[j])
    requires Rank(t, j) + n <= |NonBlank(t)|
    requires forall m :: Rank(t, j) <= m < Rank(t, j) + n - 1 ==> Glue(t)[m]
    ensures j + n <= |t|
    ensures forall k :: j <= k < j + n ==> !IsBlank(t[k])
    decreases n
  {
    if n > 1 {
      RunFromGlue(t, j, n - 1);
      RankRun(t, j, n - 2);
      RankAt(t, j + n - 2);
      RightGlue(t, j + n - 2);
    }
  }

  /** A non-blank character is open on the left in the string (first, or
      after a blank) exactly when it is open on the left in the skeleton
      (first, or not glued to its predecessor). */
  lemma LeftOpen(t: string, j: nat)
    requires j < |t| && !IsBlank(t[j])
    ensures Rank(t, j) < |NonBlank(t)|
    ensures (j == 0 || IsBlank(t[j - 1])) <==> (Rank(t, j) == 0 || !Glue(t)[Rank(t, j) - 1])
  {
    RankAt(t, j);
    if Rank(t, j) == 0 {
      if j > 0 {
        RankZero(t, j);
      }
    } else {
      LeftGlue(t, j);
    }
  }

  /** The same on the right. */
  lemma RightOpen(t: string, j: nat)
    requires j < |t| && !IsBlank(t[j])
    ensures Rank(t, j) < |NonBlank(t)|
    ensures (j + 1 == |t| || IsBlank(t[j + 1])) <==>
      (Rank(t, j) + 1 == |NonBlank(t)| || !Glue(t)[Rank(t, j)])
  {
    RankAt(t, j);
    if j + 1 < |t| && !IsBlank(t[j + 1]) {
      RankNext(t, j);
      RankAt(t, j + 1);
    }
    if Rank(t, j) + 1 < |NonBlank(t)| {
      RightGlue(t, j);
    }
  }

  /** Two neighbouring non-blank characters are a glued pair of the skeleton. */
  lemma PairToSkeleton(t: string, j: nat)
    requires j + 1 < |t| && !IsBlank(t[j]) && !IsBlank(t[j + 1])
    ensures Rank(t, j + 1) == Rank(t, j) + 1 && Rank(t, j) + 1 < |NonBlank(t)|
    ensures Glue(t)[Rank(t, j)]
    ensures NonBlank(t)[Rank(t, j)] == t[j] && NonBlank(t)[Rank(t, j) + 1] == t[j + 1]
  {
    RankNext(t, j);
    RankAt(t, j);
    RankAt(t, j + 1);
    RightGlue(t, j);
  }

  /** A glued pair of the skeleton is a pair of neighbouring characters. */
  lemma PairFromSkeleton(t: string, i: nat)
    requires i < |Glue(t)| && Glue(t)[i]
    ensures Position(t, i) + 1 < |t| && !IsBlank(t[Position(t, i) + 1])
    ensures Rank(t, Position(t, i) + 1) == i + 1
    ensures NonBlank(t)[i] == t[Position(t, i)] && NonBlank(t)[i + 1] == t[Position(t, i) + 1]
  {
    var j := Position(t, i);
    RankAt(t, j);
    RightGlue(t, j);
    PairToSkeleton(t, j);
  }

  /** `PairToSkeleton` and `RightOpen` with the successor positions passed
      in, so that callers meet the index terms they already hold instead of
      re-deriving `r + 1` from `r`. */
  lemma NextPairToSkeleton(t: string, k: nat, k1: nat, r: nat, r1: nat)
    requires k1 == k + 1 && r1 == r + 1
    requires k1 < |t| && !IsBlank(t[k]) && !IsBlank(t[k1]) && Rank(t, k) == r
    ensures r1 < |NonBlank(t)| && r < |Glue(t)| && Glue(t)[r]
    ensures NonBlank(t)[r] == t[k] && NonBlank(t)[r1] == t[k1]
  {
    PairToSkeleton(t, k);
  }

  lemma RightOpenAt(t: string, k: nat, k1: nat, r: nat, r1: nat)
    requires k1 == k + 1 && r1 == r + 1
    requires k < |t| && !IsBlank(t[k]) && Rank(t, k) == r
    ensures r < |NonBlank(t)| && NonBlank(t)[r] == t[k]
    ensures (k1 == |t| || IsBlank(t[k1])) <==> (r1 == |NonBlank(t)| || !Glue(t)[r])
  {
    RankAt(t, k);
    RightOpen(t, k);
  }
}
