/** `strncmp` over the 64 bytes of a fault's name is a total order on short names. */
module Strncmp {
  import opened Bytes
  import opened RbSearch

  const NameSize := 64

  /** A C string's byte at i; past its end, the terminator. */
  function At(a: seq<int>, i: nat): (c: int) { if i < |a| then a[i] else 0 }

  function CompareFrom(a: seq<int>, b: seq<int>, i: nat): (r: int)
    requires i <= NameSize
    decreases NameSize - i
  {
    if i == NameSize then 0
    else if At(a, i) != At(b, i) then At(a, i) - At(b, i)
    else if At(a, i) == 0 then 0
    else CompareFrom(a, b, i + 1)
  }

  function Compare(a: seq<int>, b: seq<int>): (r: int) { CompareFrom(a, b, 0) }

  /** Names that a record can hold with their terminator. */
  ghost predicate ShortName(a: seq<int>) { NulFree(a) && |a| <= NameSize - 2 }

  lemma {:induction false} Antisymmetric(a: seq<int>, b: seq<int>, i: nat)
    requires i <= NameSize
    ensures CompareFrom(a, b, i) < 0 <==> CompareFrom(b, a, i) > 0
    decreases NameSize - i
  {
    if i < NameSize { Antisymmetric(a, b, i + 1); }
  }

  lemma {:induction false} Transitive(a: seq<int>, b: seq<int>, c: seq<int>, i: nat)
    requires i <= NameSize && CompareFrom(a, b, i) <= 0 && CompareFrom(b, c, i) <= 0
    ensures CompareFrom(a, c, i) <= 0
    decreases NameSize - i
  {
    if i < NameSize && At(a, i) == At(b, i) == At(c, i) != 0 { Transitive(a, b, c, i + 1); }
  }

  lemma CompareTotal()
    ensures TotalPreorder(Compare)
  {
    forall a, b ensures Compare(a, b) < 0 <==> Compare(b, a) > 0 { Antisymmetric(a, b, 0); }
    forall a, b, c | Compare(a, b) <= 0 && Compare(b, c) <= 0 ensures Compare(a, c) <= 0 { Transitive(a, b, c, 0); }
  }

  /** A search key orders the names as they order each other. */
  lemma KeyConsistent(key: seq<int>)
    ensures Consistent(b => Compare(key, b), Compare)
  {
    CompareTotal();
    forall p, q | Compare(p, q) <= 0
      ensures Compare(key, p) <= 0 ==> Compare(key, q) <= 0
      ensures Compare(key, p) < 0 ==> Compare(key, q) < 0
    {
      if Compare(key, p) < 0 {
        Antisymmetric(key, p, 0);
        Antisymmetric(key, q, 0);
      }
    }
    forall p, q | Compare(key, p) == 0 && Compare(key, q) == 0 ensures Compare(p, q) == 0 {
      Antisymmetric(key, p, 0);
      Antisymmetric(p, key, 0);
      Antisymmetric(key, q, 0);
      Antisymmetric(q, key, 0);
      Antisymmetric(p, q, 0);
      Antisymmetric(q, p, 0);
    }
  }

  lemma {:induction false} EqualFrom(a: seq<int>, b: seq<int>, i: nat)
    requires NulFree(a) && ShortName(b) && i <= |b| && i <= |a| && CompareFrom(a, b, i) == 0
    ensures |a| == |b| && forall j :: i <= j < |b| ==> a[j] == b[j]
    decreases NameSize - i
  {
    if At(a, i) != 0 { EqualFrom(a, b, i + 1); }
  }

  lemma {:induction false} SameFrom(a: seq<int>, i: nat)
    requires i <= NameSize
    ensures CompareFrom(a, a, i) == 0
    decreases NameSize - i
  {
    if i < NameSize { SameFrom(a, i + 1); }
  }

  /** a and b agree before i, and neither has ended there. */
  ghost predicate AgreeTo(a: seq<int>, b: seq<int>, i: nat) { forall j :: 0 <= j < i ==> At(a, j) == At(b, j) != 0 }

  lemma {:induction false} CompareFar(a: seq<int>, b: seq<int>, i: nat, n: nat)
    requires i <= n <= NameSize && AgreeTo(a, b, n)
    ensures CompareFrom(a, b, i) == CompareFrom(a, b, n)
    decreases n - i
  {
    if i < n {
      assert At(a, i) == At(b, i) != 0;
      CompareFar(a, b, i + 1, n);
    }
  }

  /** The comparison is that of the first of 64 bytes in which the names differ, and equality without one. */
  lemma CompareExact(a: seq<int>, b: seq<int>, i: nat)
    requires i <= 64 && AgreeTo(a, b, i) && (i < 64 ==> At(a, i) != At(b, i) || At(a, i) == 0)
    ensures Compare(a, b) == if i == 64 then 0 else At(a, i) - At(b, i)
  {
    CompareFar(a, b, 0, i);
  }

  /** Against a short name, equal means identical, however long the other one is. */
  lemma EqualNames(a: seq<int>, b: seq<int>)
    requires NulFree(a) && ShortName(b)
    ensures Compare(a, b) == 0 <==> a == b
  {
    SameFrom(b, 0);
    if Compare(a, b) == 0 { EqualFrom(a, b, 0); }
  }
}
