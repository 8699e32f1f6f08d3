/** The ranking step of `search`: `similarity.argsort()[-5:][::-1]`.

    `argsort` returns the catalog positions ordered by ascending score; the
    slice `[-k:]` keeps its last `k` entries (all of them when there are
    fewer), and `[::-1]` reverses them, so that the best score comes first.
    numpy's default sort is not stable, so the order it gives to equal
    scores is not fixed: `IsArgsort` admits every ascending order of the
    positions, and the lemmas below hold for each of them. `ArgSort` is one
    such order, used to give `TopK` a definite value. */
module Ranking {

  predicate Distinct(s: seq<nat>) {
    forall i, j :: 0 <= i < j < |s| ==> s[i] != s[j]
  }

  predicate InRange(s: seq<nat>, n: nat) {
    forall i :: 0 <= i < |s| ==> s[i] < n
  }

  /** `p` lists positions of `scores` in ascending score order. */
  predicate Ascending(scores: seq<real>, p: seq<nat>) {
    && InRange(p, |scores|)
    && forall i, j :: 0 <= i <= j < |p| ==> scores[p[i]] <= scores[p[j]]
  }

  /** `p` is a possible result of `scores.argsort()`: every position exactly
      once, in ascending score order, equal scores in any order. */
  predicate IsArgsort(scores: seq<real>, p: seq<nat>) {
    && |p| == |scores|
    && Distinct(p)
    && Ascending(scores, p)
    && forall j :: 0 <= j < |scores| ==> j in p
  }

  function Min(a: nat, b: nat): nat {
    if a <= b then a else b
  }

  /** `r` is a correct answer to "the `k` best positions, best first":
      `min(k, n)` distinct positions in non-increasing score order, and no
      position left out scores above any position taken. */
  predicate IsTopK(scores: seq<real>, k: nat, r: seq<nat>) {
    && |r| == Min(k, |scores|)
    && InRange(r, |scores|)
    && Distinct(r)
    && (forall i, j :: 0 <= i <= j < |r| ==> scores[r[i]] >= scores[r[j]])
    && (forall j, i :: 0 <= j < |scores| && j !in r && 0 <= i < |r| ==> scores[j] <= scores[r[i]])
  }

  /** The positions `0, 1, ..., n - 1` in order. */
  function Range(n: nat): (r: seq<nat>)
    ensures |r| == n
    ensures forall i :: 0 <= i < n ==> r[i] == i
  {
    if n == 0 then [] else Range(n - 1) + [n - 1]
  }

  /** Puts the new position `x` into the ascending list `s` after every
      position whose score is not greater. */
  function Insert(scores: seq<real>, x: nat, s: seq<nat>): (r: seq<nat>)
    requires x < |scores| && Ascending(scores, s)
    requires Distinct(s) && x !in s
    ensures |r| == |s| + 1
    ensures forall y: nat :: y in r <==> y == x || y in s
    ensures Ascending(scores, r)
    ensures Distinct(r)
  {
    if s == [] then [x]
    else if scores[x] < scores[s[0]] then [x] + s
    else
      var t := Insert(scores, x, s[1..]);
      assert forall i :: 0 <= i < |t| ==> scores[s[0]] <= scores[t[i]] by {
        forall i | 0 <= i < |t|
          ensures scores[s[0]] <= scores[t[i]]
        {
          assert t[i] in t;
          if t[i] != x {
            var q :| 0 <= q < |s[1..]| && s[1..][q] == t[i];
            assert s[q + 1] == t[i];
          }
        }
      }
      assert s[0] !in t by {
        forall q | 0 <= q < |s[1..]|
          ensures s[1..][q] != s[0]
        {
          assert s[q + 1] != s[0];
        }
      }
      [s[0]] + t
  }

  /** Dropping the last entry keeps a sequence free of repeats and in
      range, and the dropped entry is not among the rest. */
  lemma DistinctInit(xs: seq<nat>, n: nat)
    requires xs != [] && Distinct(xs) && InRange(xs, n)
    ensures Distinct(xs[..|xs| - 1]) && InRange(xs[..|xs| - 1], n)
    ensures xs[|xs| - 1] !in xs[..|xs| - 1]
    ensures forall y: nat :: y in xs <==> y in xs[..|xs| - 1] || y == xs[|xs| - 1]
  {
    assert xs == xs[..|xs| - 1] + [xs[|xs| - 1]];
  }

  /** Sorts the distinct positions `xs` by ascending score (insertion
      sort). */
  function SortIndices(scores: seq<real>, xs: seq<nat>): (p: seq<nat>)
    requires InRange(xs, |scores|) && Distinct(xs)
    ensures |p| == |xs|
    ensures forall y: nat :: y in p <==> y in xs
    ensures Distinct(p)
    ensures Ascending(scores, p)
  {
    if xs == [] then []
    else
      DistinctInit(xs, |scores|);
      Insert(scores, xs[|xs| - 1], SortIndices(scores, xs[..|xs| - 1]))
  }

  /** One ascending order of all positions of `scores`. */
  function ArgSort(scores: seq<real>): (p: seq<nat>)
    ensures IsArgsort(scores, p)
  {
    var p := SortIndices(scores, Range(|scores|));
    assert forall j :: 0 <= j < |scores| ==> j in p by {
      forall j | 0 <= j < |scores|
        ensures j in p
      {
        assert Range(|scores|)[j] == j;
      }
    }
    p
  }

  /** `p[-k:]`: the last `k` entries of `p`, or all of `p` when it is
      shorter (for `k >= 1`; Python reads `p[-0:]` as all of `p`). */
  function TakeLast(p: seq<nat>, k: nat): (t: seq<nat>)
    requires k >= 1
    ensures |t| == Min(k, |p|)
    ensures forall i :: 0 <= i < |t| ==> t[i] == p[|p| - |t| + i]
  {
    p[if |p| <= k then 0 else |p| - k..]
  }

  /** `s[::-1]`. */
  function Reverse(s: seq<nat>): (r: seq<nat>)
    ensures |r| == |s|
    ensures forall i :: 0 <= i < |s| ==> r[i] == s[|s| - 1 - i]
  {
    if s == [] then [] else Reverse(s[1..]) + [s[0]]
  }

  lemma ReverseReverse(s: seq<nat>)
    ensures Reverse(Reverse(s)) == s
  {
  }

  /** Entry `i` of the reversed last `k` entries of `p` is entry
      `|p| - 1 - i` of `p`. */
  lemma LastReversedAt(p: seq<nat>, k: nat)
    requires k >= 1
    ensures |Reverse(TakeLast(p, k))| == Min(k, |p|)
    ensures forall i :: 0 <= i < Min(k, |p|) ==> Reverse(TakeLast(p, k))[i] == p[|p| - 1 - i]
  {
  }

  /** `r` is `p` read backwards from its end, for `|r|` entries. */
  predicate IsTailReversed(r: seq<nat>, p: seq<nat>) {
    |r| <= |p| && forall i :: 0 <= i < |r| ==> r[i] == p[|p| - 1 - i]
  }

  lemma TailReversedDistinct(r: seq<nat>, p: seq<nat>)
    requires IsTailReversed(r, p) && Distinct(p)
    ensures Distinct(r)
  {
    forall i, j | 0 <= i < j < |r|
      ensures r[i] != r[j]
    {
      assert p[|p| - 1 - j] != p[|p| - 1 - i];
    }
  }

  lemma TailReversedDescending(scores: seq<real>, r: seq<nat>, p: seq<nat>)
    requires IsTailReversed(r, p) && Ascending(scores, p)
    ensures InRange(r, |scores|)
    ensures forall i, j :: 0 <= i <= j < |r| ==> scores[r[i]] >= scores[r[j]]
  {
    var n := |p|;
    forall i, j | 0 <= i <= j < |r|
      ensures scores[r[i]] >= scores[r[j]]
    {
      assert scores[p[n - 1 - j]] <= scores[p[n - 1 - i]];
    }
  }

  lemma TailReversedDominates(scores: seq<real>, r: seq<nat>, p: seq<nat>)
    requires IsTailReversed(r, p) && Ascending(scores, p)
    requires forall j :: 0 <= j < |scores| ==> j in p
    ensures forall j, i :: 0 <= j < |scores| && j !in r && 0 <= i < |r| ==> scores[j] <= scores[r[i]]
  {
    var n := |p|;
    forall q | n - |r| <= q < n
      ensures p[q] in r
    {
      assert r[n - 1 - q] == p[q];
    }
    forall j, i | 0 <= j < |scores| && j !in r && 0 <= i < |r|
      ensures scores[j] <= scores[r[i]]
    {
      assert j in p;
      var q :| 0 <= q < n && p[q] == j;
      assert scores[p[q]] <= scores[p[n - 1 - i]];
    }
  }

  /** Whatever order `argsort` gives to equal scores, its reversed last `k`
      entries are a correct top-`k` answer. */
  lemma TopKOfArgsort(scores: seq<real>, k: nat, p: seq<nat>)
    requires k >= 1
    requires IsArgsort(scores, p)
    ensures IsTopK(scores, k, Reverse(TakeLast(p, k)))
  {
    var r := Reverse(TakeLast(p, k));
    LastReversedAt(p, k);
    assert IsTailReversed(r, p);
    TailReversedDistinct(r, p);
    TailReversedDescending(scores, r, p);
    TailReversedDominates(scores, r, p);
  }

  /** The set of entries of a sequence. */
  function Elements(s: seq<nat>): (e: set<nat>)
    ensures forall y: nat :: y in e <==> y in s
  {
    set y | y in s
  }

  /** A sequence without repeats is as long as its set of entries is large. */
  lemma {:induction false} DistinctLength(s: seq<nat>)
    requires Distinct(s)
    ensures |Elements(s)| == |s|
  {
    if s != [] {
      var init := s[..|s| - 1];
      var last := s[|s| - 1];
      assert s == init + [last];
      assert Elements(s) == Elements(init) + {last};
      DistinctLength(init);
    }
  }

  /** The positions below `n` that `r` does not hold, in increasing order. */
  function Complement(n: nat, r: seq<nat>): (c: seq<nat>)
    ensures forall y: nat :: y in c <==> y < n && y !in r
    ensures Distinct(c)
    ensures InRange(c, n)
  {
    if n == 0 then []
    else Complement(n - 1, r) + (if n - 1 in r then [] else [n - 1])
  }

  /** A best-first list read backwards is in ascending score order. */
  lemma ReverseDescending(scores: seq<real>, r: seq<nat>, h: seq<nat>)
    requires InRange(r, |scores|) && Distinct(r)
    requires forall i, j :: 0 <= i <= j < |r| ==> scores[r[i]] >= scores[r[j]]
    requires |h| == |r| && IsTailReversed(h, r)
    ensures Ascending(scores, h) && Distinct(h)
  {
    var m := |r|;
    TailReversedDistinct(h, r);
    forall i | 0 <= i < m
      ensures h[i] < |scores|
    {
      assert h[i] == r[m - 1 - i];
    }
    forall i, j | 0 <= i <= j < m
      ensures scores[h[i]] <= scores[h[j]]
    {
      assert h[i] == r[m - 1 - i] && h[j] == r[m - 1 - j];
    }
  }

  lemma ConcatDistinct(a: seq<nat>, b: seq<nat>)
    requires Distinct(a) && Distinct(b)
    requires forall y: nat :: y in a ==> y !in b
    ensures Distinct(a + b)
  {
    var p := a + b;
    forall i, j | 0 <= i < j < |p|
      ensures p[i] != p[j]
    {
      if i < |a| && j >= |a| {
        assert p[i] in a && p[j] == b[j - |a|];
      } else if i >= |a| {
        assert p[i] == b[i - |a|] && p[j] == b[j - |a|];
      }
    }
  }

  lemma ConcatAscending(scores: seq<real>, a: seq<nat>, b: seq<nat>)
    requires Ascending(scores, a) && Ascending(scores, b)
    requires forall i, j :: 0 <= i < |a| && 0 <= j < |b| ==> scores[a[i]] <= scores[b[j]]
    ensures Ascending(scores, a + b)
  {
    var p := a + b;
    forall i, j | 0 <= i <= j < |p|
      ensures scores[p[i]] <= scores[p[j]]
    {
      if j < |a| {
        assert p[i] == a[i] && p[j] == a[j];
      } else if i < |a| {
        assert p[i] == a[i] && p[j] == b[j - |a|];
      } else {
        assert p[i] == b[i - |a|] && p[j] == b[j - |a|];
      }
    }
  }

  /** A sequence without repeats holding exactly the positions below `n`
      has length `n`. */
  lemma DistinctRangeLength(p: seq<nat>, n: nat)
    requires Distinct(p)
    requires forall y: nat :: y in p <==> y < n
    ensures |p| == n
  {
    var rn := Range(n);
    forall y: nat
      ensures y in Elements(p) <==> y in Elements(rn)
    {
      if y in rn {
        var q :| 0 <= q < n && rn[q] == y;
      }
      if y < n {
        assert rn[y] == y;
      }
    }
    assert Elements(p) == Elements(rn);
    DistinctLength(p);
    assert Distinct(rn);
    DistinctLength(rn);
  }

  /** Positions not taken, in ascending order, followed by the taken ones,
      in ascending order and all scoring at least as high, form an
      `argsort` result. */
  lemma ArgsortOfSplit(scores: seq<real>, low: seq<nat>, high: seq<nat>)
    requires Ascending(scores, low) && Distinct(low)
    requires Ascending(scores, high) && Distinct(high)
    requires forall y: nat :: y in low <==> y < |scores| && y !in high
    requires forall i, j :: 0 <= i < |low| && 0 <= j < |high| ==> scores[low[i]] <= scores[high[j]]
    ensures IsArgsort(scores, low + high)
  {
    var p := low + high;
    ConcatDistinct(low, high);
    ConcatAscending(scores, low, high);
    forall y: nat
      ensures y in p <==> y < |scores|
    {
      if y in high {
        var j :| 0 <= j < |high| && high[j] == y;
      }
    }
    DistinctRangeLength(p, |scores|);
  }

  /** The best-first list `r`, read backwards, is the ascending list of the
      taken positions, and every position not taken scores no higher. */
  lemma TakenReversed(scores: seq<real>, k: nat, r: seq<nat>, low: seq<nat>, high: seq<nat>)
    requires IsTopK(scores, k, r)
    requires |high| == |r| && IsTailReversed(high, r)
    requires forall y: nat :: y in low ==> y < |scores| && y !in r
    requires InRange(low, |scores|)
    ensures Ascending(scores, high) && Distinct(high)
    ensures forall y: nat :: y in high <==> y in r
    ensures forall i, j :: 0 <= i < |low| && 0 <= j < |high| ==> scores[low[i]] <= scores[high[j]]
  {
    ReverseDescending(scores, r, high);
    forall y: nat
      ensures y in high <==> y in r
    {
      if y in high {
        var j :| 0 <= j < |high| && high[j] == y;
        assert r[|r| - 1 - j] == y;
      }
      if y in r {
        var j :| 0 <= j < |r| && r[j] == y;
        assert high[|r| - 1 - j] == y;
      }
    }
    forall i, j | 0 <= i < |low| && 0 <= j < |high|
      ensures scores[low[i]] <= scores[high[j]]
    {
      assert low[i] in low;
      assert high[j] == r[|r| - 1 - j];
    }
  }

  lemma TakeLastOfConcat(low: seq<nat>, high: seq<nat>, k: nat)
    requires k >= 1 && |high| == Min(k, |low| + |high|)
    ensures TakeLast(low + high, k) == high
  {
    assert (low + high)[|low|..] == high;
  }

  /** Conversely, every correct top-`k` answer is what `argsort` followed
      by `[-k:][::-1]` gives for some order of the equal scores: this is
      that order. The ranking fixes nothing about ties beyond what
      `IsTopK` says. */
  function ArgsortFor(scores: seq<real>, k: nat, r: seq<nat>): (p: seq<nat>)
    requires k >= 1
    requires IsTopK(scores, k, r)
    ensures IsArgsort(scores, p)
    ensures Reverse(TakeLast(p, k)) == r
  {
    var low := SortIndices(scores, Complement(|scores|, r));
    var high := Reverse(r);
    assert IsTailReversed(high, r);
    TakenReversed(scores, k, r, low, high);
    ArgsortOfSplit(scores, low, high);
    TakeLastOfConcat(low, high, k);
    ReverseReverse(r);
    low + high
  }

  /** The positions of the `k` best scores, best first. */
  function TopK(scores: seq<real>, k: nat): (r: seq<nat>)
    requires k >= 1
    ensures IsTopK(scores, k, r)
  {
    TopKOfArgsort(scores, k, ArgSort(scores));
    Reverse(TakeLast(ArgSort(scores), k))
  }

  /** A position whose score beats every other comes first. */
  lemma UniqueBestFirst(scores: seq<real>, k: nat, r: seq<nat>, b: nat)
    requires k >= 1 && IsTopK(scores, k, r)
    requires b < |scores|
    requires forall j :: 0 <= j < |scores| && j != b ==> scores[j] < scores[b]
    ensures |r| >= 1 && r[0] == b
  {
    var q :| 0 <= q < |r| && r[q] == b;
    assert scores[r[0]] >= scores[r[q]];
  }

  /** A position that scores strictly higher than the one listed at `j` is
      listed, and listed before it. */
  lemma StrictlyBetterEarlier(scores: seq<real>, k: nat, r: seq<nat>, j: nat, a: nat)
    requires IsTopK(scores, k, r)
    requires j < |r| && a < |scores|
    requires scores[a] > scores[r[j]]
    ensures a in r[..j]
  {
    assert a in r;
    var q :| 0 <= q < |r| && r[q] == a;
    assert r[..j][q] == a;
  }
}
