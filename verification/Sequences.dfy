/** Sequences without repetition, insertion and removal, and regrouped concatenations. */
module Sequences {
  ghost predicate NoDup<T>(s: seq<T>) { forall i, j :: 0 <= i < j < |s| ==> s[i] != s[j] }

  function Inserted<T>(s: seq<T>, i: nat, x: T): (r: seq<T>)
    requires i <= |s|
  {
    s[..i] + [x] + s[i..]
  }

  function Removed<T>(s: seq<T>, i: nat): (r: seq<T>)
    requires i < |s|
  {
    s[..i] + s[i + 1..]
  }

  lemma InsertedNoDup<T>(s: seq<T>, i: nat, x: T)
    requires i <= |s| && NoDup(s) && x !in s
    ensures NoDup(Inserted(s, i, x))
  {
    var w := Inserted(s, i, x);
    forall a, b | 0 <= a < b < |w| ensures w[a] != w[b] {
      if a != i && b != i {
        var a', b' := if a < i then a else a - 1, if b < i then b else b - 1;
        assert w[a] == s[a'] && w[b] == s[b'];
      } else if a == i {
        assert w[b] == s[b - 1];
      } else {
        assert w[a] == s[a];
      }
    }
  }

  lemma RemovedNoDup<T>(s: seq<T>, i: nat)
    requires i < |s| && NoDup(s)
    ensures NoDup(Removed(s, i)) && s[i] !in Removed(s, i)
    ensures multiset(s) == multiset(Removed(s, i)) + multiset{s[i]}
  {
    var w := Removed(s, i);
    forall a | 0 <= a < |w| ensures w[a] == s[if a < i then a else a + 1] {}
    assert s == s[..i] + [s[i]] + s[i + 1..];
  }

  lemma JoinedNoDup<T>(s: seq<T>, t: seq<T>)
    requires NoDup(s) && NoDup(t) && forall x :: x in s ==> x !in t
    ensures NoDup(s + t)
  {
    var w := s + t;
    forall a, b | 0 <= a < b < |w| ensures w[a] != w[b] {
      if a < |s| <= b { assert w[a] in s && w[b] in t; }
    }
  }

  lemma InsertedAt<T>(s: seq<T>, i: nat, x: T)
    requires i <= |s|
    ensures var w := Inserted(s, i, x); w[i] == x && |w| == |s| + 1
    ensures var w := Inserted(s, i, x); forall j :: 0 <= j < i ==> w[j] == s[j]
    ensures var w := Inserted(s, i, x); forall j :: i < j < |w| ==> w[j] == s[j - 1]
  {
  }

  lemma RemovedAt<T>(s: seq<T>, i: nat)
    requires i < |s|
    ensures var w := Removed(s, i); |w| == |s| - 1
    ensures var w := Removed(s, i); forall j :: 0 <= j < i ==> w[j] == s[j]
    ensures var w := Removed(s, i); forall j :: i <= j < |w| ==> w[j] == s[j + 1]
  {
  }

  lemma Regroup<T>(a: seq<T>, b: seq<T>, c: seq<T>, d: seq<T>, e: seq<T>)
    ensures a + (b + c + d) + e == a + b + (c + d + e)
    ensures a + (b + c + d) + e == (a + b) + c + (d + e)
    ensures a + (b + c + d) + e == (a + b + c) + d + e
  {
  }
}
