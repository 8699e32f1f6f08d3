/** The title normaliser of the movie lookup tool.

    `clean_title` is one regular-expression substitution that deletes every
    character the class `[a-zA-Z0-9 ]` does not contain. Here it is a filter
    over `string` (a `seq<char>`), and the lemmas below pin it down without
    reference to its recursive definition: its output is exactly the
    subsequence of allowed characters, in their original order and case. */
module Titles {

  /** The characters the class `[a-zA-Z0-9 ]` contains: ASCII letters of
      either case, ASCII digits and the plain space (not a tab, not a
      newline, not an accented or other non-ASCII letter). */
  predicate IsAllowed(c: char) {
    ('a' <= c <= 'z') || ('A' <= c <= 'Z') || ('0' <= c <= '9') || c == ' '
  }

  predicate AllAllowed(s: string) {
    forall i :: 0 <= i < |s| ==> IsAllowed(s[i])
  }

  /** `clean_title(title)`: deletes every character that is not allowed.
      Nothing else happens: case is kept, spaces are neither trimmed nor
      collapsed. */
  function CleanTitle(s: string): (r: string)
    ensures |r| <= |s|
    ensures AllAllowed(r)
  {
    if s == [] then []
    else if IsAllowed(s[0]) then [s[0]] + CleanTitle(s[1..])
    else CleanTitle(s[1..])
  }

  /** `r` is the subsequence of `s[k..]` picked out by the strictly
      increasing positions `m`, and `m` holds exactly the positions of
      `s[k..]` whose character is allowed. */
  ghost predicate IsFilterFrom(r: string, s: string, k: nat, m: seq<nat>) {
    && |m| == |r|
    && (forall i :: 0 <= i < |m| ==> k <= m[i] < |s| && r[i] == s[m[i]])
    && (forall i, j :: 0 <= i < j < |m| ==> m[i] < m[j])
    && (forall j :: k <= j < |s| ==> (IsAllowed(s[j]) <==> j in m))
  }

  /** `r` is `s` with the disallowed characters deleted: the characters of
      `s` at the positions `m`, which are all and only the allowed ones,
      in increasing order. */
  ghost predicate IsFilterOf(r: string, s: string, m: seq<nat>) {
    IsFilterFrom(r, s, 0, m)
  }

  /** Extending a filter of `s[k + 1..]` by an allowed character at `k`. */
  lemma FilterFromKeep(s: string, k: nat, r: string, m: seq<nat>)
    requires k < |s| && IsFilterFrom(r, s, k + 1, m) && IsAllowed(s[k])
    ensures IsFilterFrom([s[k]] + r, s, k, [k] + m)
  {
    var r2, m2 := [s[k]] + r, [k] + m;
    forall i | 0 <= i < |m2|
      ensures k <= m2[i] < |s| && r2[i] == s[m2[i]]
    {
      if i > 0 {
        assert m2[i] == m[i - 1] && r2[i] == r[i - 1];
      }
    }
    forall i, j | 0 <= i < j < |m2|
      ensures m2[i] < m2[j]
    {
      assert m2[j] == m[j - 1];
      if i > 0 {
        assert m2[i] == m[i - 1];
      }
    }
    forall j | k <= j < |s|
      ensures IsAllowed(s[j]) <==> j in m2
    {
      if j > k {
        assert j in m2 <==> j in m;
      }
    }
  }

  /** A filter of `s[k + 1..]` is one of `s[k..]` when the character at
      `k` is not allowed. */
  lemma FilterFromDrop(s: string, k: nat, r: string, m: seq<nat>)
    requires k < |s| && IsFilterFrom(r, s, k + 1, m) && !IsAllowed(s[k])
    ensures IsFilterFrom(r, s, k, m)
  {
  }

  /** The positions from `k` on whose characters survive normalisation. */
  function KeptFrom(s: string, k: nat): (m: seq<nat>)
    requires k <= |s|
    ensures IsFilterFrom(CleanTitle(s[k..]), s, k, m)
    decreases |s| - k
  {
    if k == |s| then []
    else
      assert s[k..][1..] == s[k + 1..];
      var m' := KeptFrom(s, k + 1);
      if IsAllowed(s[k]) then
        FilterFromKeep(s, k, CleanTitle(s[k + 1..]), m');
        [k] + m'
      else
        FilterFromDrop(s, k, CleanTitle(s[k + 1..]), m');
        m'
  }

  /** The positions of `s` that survive normalisation. */
  function KeptPositions(s: string): (m: seq<nat>)
    ensures IsFilterOf(CleanTitle(s), s, m)
  {
    assert s[0..] == s;
    KeptFrom(s, 0)
  }

  /** Whatever sequence is the ordered filter of `s[k..]` by `IsAllowed`
      is the normalised `s[k..]`. */
  lemma {:induction false} FilterFromIsCleanTitle(s: string, k: nat, r: string, m: seq<nat>)
    requires k <= |s|
    requires IsFilterFrom(r, s, k, m)
    ensures r == CleanTitle(s[k..])
    decreases |s| - k
  {
    if k < |s| {
      assert s[k..][1..] == s[k + 1..];
      if IsAllowed(s[k]) {
        assert k in m;
        assert m[0] == k;
        assert forall j :: k + 1 <= j < |s| ==> (j in m <==> j in m[1..]);
        FilterFromIsCleanTitle(s, k + 1, r[1..], m[1..]);
        assert r == [r[0]] + r[1..];
      } else {
        assert k !in m;
        FilterFromIsCleanTitle(s, k + 1, r, m);
      }
    }
  }

  /** Whatever sequence is the ordered filter of `s` by `IsAllowed` is the
      normalised title: the filter description determines the output. */
  lemma FilterIsCleanTitle(s: string, r: string, m: seq<nat>)
    requires IsFilterOf(r, s, m)
    ensures r == CleanTitle(s)
  {
    FilterFromIsCleanTitle(s, 0, r, m);
    assert s[0..] == s;
  }

  /** A string is left unchanged exactly when all its characters are allowed. */
  lemma {:induction false} CleanTitleFixedPoint(s: string)
    ensures CleanTitle(s) == s <==> AllAllowed(s)
  {
    if AllAllowed(s) && s != [] {
      assert AllAllowed(s[1..]);
      CleanTitleFixedPoint(s[1..]);
      assert s == [s[0]] + s[1..];
    }
  }

  /** Normalising twice is normalising once. */
  lemma CleanTitleIdempotent(s: string)
    ensures CleanTitle(CleanTitle(s)) == CleanTitle(s)
  {
    CleanTitleFixedPoint(CleanTitle(s));
  }

  /** The filter works character by character: no character's fate depends
      on its neighbours, so no run of spaces is collapsed and nothing is
      trimmed at either end. */
  lemma {:induction false} CleanTitleConcat(a: string, b: string)
    ensures CleanTitle(a + b) == CleanTitle(a) + CleanTitle(b)
  {
    if a == [] {
      assert a + b == b;
    } else {
      assert (a + b)[0] == a[0];
      assert (a + b)[1..] == a[1..] + b;
      CleanTitleConcat(a[1..], b);
    }
  }

  /** A disallowed character is deleted wherever it stands, an allowed one
      kept; one character at a time, with case unchanged. */
  lemma CleanTitleOfChar(c: char)
    ensures CleanTitle([c]) == if IsAllowed(c) then [c] else []
  {
    assert [c][1..] == [];
  }

  /** The normalised title is empty exactly when the title holds no
      allowed character. */
  lemma CleanTitleEmpty(s: string)
    ensures CleanTitle(s) == [] <==> forall i :: 0 <= i < |s| ==> !IsAllowed(s[i])
  {
    var m := KeptPositions(s);
    if CleanTitle(s) == [] {
      assert m == [];
    } else {
      assert IsAllowed(s[m[0]]);
    }
  }

  /** Accented letters, tabs, newlines and punctuation are outside the
      class; the space and letters of either case are inside it. */
  lemma AllowedClassExamples()
    ensures !IsAllowed('\U{e9}') && !IsAllowed('\t') && !IsAllowed('\n') && !IsAllowed('(')
    ensures IsAllowed(' ') && IsAllowed('a') && IsAllowed('Z') && IsAllowed('7')
  {
  }

  /** Deleting one disallowed character between two clean pieces leaves
      the pieces exactly as they were: spaces at their ends are neither
      trimmed nor merged. */
  lemma CleanTitleDropsOne(a: string, x: char, c: string)
    requires AllAllowed(a) && AllAllowed(c) && !IsAllowed(x)
    ensures CleanTitle(a + [x] + c) == a + c
  {
    var ax := a + [x];
    CleanTitleOfChar(x);
    CleanTitleFixedPoint(a);
    CleanTitleFixedPoint(c);
    CleanTitleConcat(a, [x]);
    assert CleanTitle(ax) == a;
    CleanTitleConcat(ax, c);
  }
}
