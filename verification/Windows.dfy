/** Positions of one sequence inside another. */
module Windows {
  /** s stands at position p of f. */
  ghost predicate Stands<T>(f: seq<T>, p: nat, s: seq<T>) {
    p + |s| <= |f| && f[p..p + |s|] == s
  }

  lemma StandsSplit<T>(f: seq<T>, p: nat, a: seq<T>, b: seq<T>)
    requires Stands(f, p, a + b)
    ensures Stands(f, p, a) && Stands(f, p + |a|, b)
  {
    assert a == (a + b)[..|a|] && b == (a + b)[|a|..];
    assert f[p..p + |a|] == f[p..p + |a + b|][..|a|];
    assert f[p + |a|..p + |a + b|] == f[p..p + |a + b|][|a|..];
  }

  lemma SuffixSplit<T>(f: seq<T>, p: nat, a: seq<T>, b: seq<T>)
    requires p <= |f| && f[p..] == a + b
    ensures Stands(f, p, a) && p + |a| <= |f| && f[p + |a|..] == b
  {
    assert f[p..p + |a + b|] == a + b;
    StandsSplit(f, p, a, b);
  }

  lemma StandsAt<T>(f: seq<T>, p: nat, s: seq<T>, i: nat)
    requires Stands(f, p, s) && i < |s|
    ensures f[p + i] == s[i]
  {
    assert f[p + i] == f[p..p + |s|][i];
  }

  lemma Glue<T>(f: seq<T>, a: nat, b: nat, c: nat)
    requires a <= b <= c <= |f|
    ensures f[a..b] + f[b..c] == f[a..c]
  {
  }
}
