/** Sequence facts used by the recency lists: a list never holds a node twice,
    and unlinking a node keeps everything else in its order. */
module Seqs {

  /** No element occurs twice. */
  predicate Distinct<T(==,!new)>(s: seq<T>) {
    forall i, j :: 0 <= i < j < |s| ==> s[i] != s[j]
  }

  /** No element of `b` occurs in `a`. */
  predicate Disjoint<T(==,!new)>(a: seq<T>, b: seq<T>) {
    forall i :: 0 <= i < |b| ==> b[i] !in a
  }

  /** `s` with every occurrence of `x` taken out, the rest in their order. */
  function Without<T(==,!new)>(s: seq<T>, x: T): (r: seq<T>)
    ensures forall y :: y in r <==> y in s && y != x
    ensures |r| <= |s|
  {
    if s == [] then []
    else if s[0] == x then Without(s[1..], x)
    else [s[0]] + Without(s[1..], x)
  }

  lemma {:induction false} WithoutAbsent<T(!new)>(s: seq<T>, x: T)
    requires x !in s
    ensures Without(s, x) == s
  {
    if s != [] {
      WithoutAbsent(s[1..], x);
    }
  }

  /** In a list without duplicates, taking out `s[i]` is cutting position `i` out. */
  lemma {:induction false} WithoutAt<T(!new)>(s: seq<T>, i: nat)
    requires Distinct(s) && i < |s|
    ensures Without(s, s[i]) == s[..i] + s[i + 1..]
  {
    if i == 0 {
      assert s[0] !in s[1..] by {
        forall j | 0 <= j < |s[1..]| ensures s[1..][j] != s[0] {
          assert s[1..][j] == s[j + 1];
        }
      }
      WithoutAbsent(s[1..], s[0]);
    } else {
      var t := s[1..];
      assert Distinct(t) by {
        forall a, b | 0 <= a < b < |t| ensures t[a] != t[b] {
          assert t[a] == s[a + 1] && t[b] == s[b + 1];
        }
      }
      assert s[0] != s[i];
      assert t[i - 1] == s[i];
      WithoutAt(t, i - 1);
      assert s[..i] == [s[0]] + t[..i - 1];
      assert s[i + 1..] == t[i..];
    }
  }

  /** Taking out the last element of a list without duplicates drops it. */
  lemma WithoutLast<T(!new)>(s: seq<T>)
    requires Distinct(s) && s != []
    ensures Without(s, s[|s| - 1]) == s[..|s| - 1]
  {
    WithoutAt(s, |s| - 1);
    assert s[|s|..] == [];
  }

  /** Cutting out one position keeps the list free of duplicates. */
  lemma CutDistinct<T(!new)>(s: seq<T>, i: nat)
    requires Distinct(s) && i < |s|
    ensures Distinct(s[..i] + s[i + 1..])
  {
    var r := s[..i] + s[i + 1..];
    forall a, b | 0 <= a < b < |r| ensures r[a] != r[b] {
      var a' := if a < i then a else a + 1;
      var b' := if b < i then b else b + 1;
      assert r[a] == s[a'] && r[b] == s[b'];
    }
  }

  /** Taking out a value keeps a list free of duplicates, and shortens it by one
      exactly when the value was there. */
  lemma WithoutDistinct<T(!new)>(s: seq<T>, x: T)
    requires Distinct(s)
    ensures Distinct(Without(s, x))
    ensures |Without(s, x)| == if x in s then |s| - 1 else |s|
  {
    if x in s {
      var i :| 0 <= i < |s| && s[i] == x;
      WithoutAt(s, i);
      CutDistinct(s, i);
    } else {
      WithoutAbsent(s, x);
    }
  }

  /** Taking out the front element of a list without duplicates gives its tail. */
  lemma WithoutFront<T(!new)>(s: seq<T>)
    requires Distinct(s) && s != []
    ensures Without(s, s[0]) == s[1..]
  {
    WithoutAt(s, 0);
  }

  /** Putting a fresh value in front keeps a list free of duplicates. */
  lemma ConsDistinct<T(!new)>(x: T, s: seq<T>)
    requires Distinct(s) && x !in s
    ensures Distinct([x] + s)
  {
    var r := [x] + s;
    forall a, b | 0 <= a < b < |r| ensures r[a] != r[b] {
      assert r[b] == s[b - 1];
      if a > 0 {
        assert r[a] == s[a - 1];
      }
    }
  }

  /** A prefix of a list without duplicates has none either. */
  lemma PrefixDistinct<T(!new)>(s: seq<T>, n: nat)
    requires Distinct(s) && n <= |s|
    ensures Distinct(s[..n])
  {
    var r := s[..n];
    forall a, b | 0 <= a < b < |r| ensures r[a] != r[b] {
      assert r[a] == s[a] && r[b] == s[b];
    }
  }

  lemma WithoutTwice<T(!new)>(s: seq<T>, x: T)
    ensures Without(Without(s, x), x) == Without(s, x)
  {
    WithoutAbsent(Without(s, x), x);
  }

  lemma ConsWithout<T(!new)>(x: T, s: seq<T>)
    ensures Without([x] + s, x) == Without(s, x)
  {
    assert ([x] + s)[1..] == s;
  }

  lemma DisjointMember<T(!new)>(a: seq<T>, b: seq<T>, x: T)
    requires Disjoint(a, b)
    ensures !(x in a && x in b)
  {
    if x in b {
      var i :| 0 <= i < |b| && b[i] == x;
    }
  }

  lemma DisjointSym<T(!new)>(a: seq<T>, b: seq<T>)
    requires Disjoint(a, b)
    ensures Disjoint(b, a)
  {
    forall i | 0 <= i < |a| ensures a[i] !in b {
      DisjointMember(a, b, a[i]);
    }
  }

  /** Disjointness survives dropping elements of the first list. */
  lemma DisjointSub<T(!new)>(a: seq<T>, a2: seq<T>, b: seq<T>)
    requires Disjoint(a, b) && forall x :: x in a2 ==> x in a
    ensures Disjoint(a2, b)
  {
  }

  /** An element other than the last is in the list without its last element. */
  lemma InButLast<T>(s: seq<T>, x: T)
    requires x in s && x != s[|s| - 1]
    ensures x in s[..|s| - 1]
  {
    var i :| 0 <= i < |s| && s[i] == x;
    assert s[..|s| - 1][i] == x;
  }

  lemma FrontIn<T>(s: seq<T>)
    ensures s != [] ==> s[0] in s
  {
  }
}
