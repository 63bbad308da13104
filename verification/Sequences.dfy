/** Sequence operations shared by the ring walk and the pool's recency order. */
module Sequences {

  /** s with every repetition of an earlier element dropped. */
  function Distinct<T(==)>(s: seq<T>): seq<T> {
    if s == [] then []
    else
      var d := Distinct(s[..|s| - 1]);
      if s[|s| - 1] in d then d else d + [s[|s| - 1]]
  }

  function Without<T(==)>(s: seq<T>, x: T): seq<T> {
    if s == [] then []
    else Without(s[..|s| - 1], x) + if s[|s| - 1] == x then [] else [s[|s| - 1]]
  }

  function Take<T>(s: seq<T>, n: nat): seq<T> {
    if n <= |s| then s[..n] else s
  }

  lemma {:induction false} WithoutSpec<T>(s: seq<T>, x: T)
    ensures forall y :: y in Without(s, x) <==> y in s && y != x
  {
    if s != [] {
      WithoutSpec(s[..|s| - 1], x);
      assert s == s[..|s| - 1] + [s[|s| - 1]];
    }
  }

  lemma {:induction false} WithoutConcat<T>(a: seq<T>, b: seq<T>, x: T)
    ensures Without(a + b, x) == Without(a, x) + Without(b, x)
  {
    if b == [] {
      assert a + b == a;
    } else {
      WithoutConcat(a, b[..|b| - 1], x);
      assert (a + b)[..|a + b| - 1] == a + b[..|b| - 1];
    }
  }

  lemma {:induction false} DistinctSpec<T>(s: seq<T>)
    ensures forall y :: y in Distinct(s) <==> y in s
    ensures forall i, j | 0 <= i < j < |Distinct(s)| :: Distinct(s)[i] != Distinct(s)[j]
    ensures s != [] ==> Distinct(s) != [] && Distinct(s)[0] == s[0]
  {
    if s != [] {
      var n := |s| - 1;
      DistinctSpec(s[..n]);
      assert s == s[..n] + [s[n]];
    }
  }

  /** The i-th distinct element is the one at position p of s, where everything before p is
      one of the elements before it. */
  ghost predicate FirstMet<T(!new)>(s: seq<T>, i: nat, p: nat) {
    && i < |Distinct(s)| && p < |s| && s[p] == Distinct(s)[i] && s[p] !in s[..p]
    && forall q | 0 <= q < p :: s[q] in Distinct(s)[..i]
  }

  lemma {:induction false} DistinctOrder<T(!new)>(s: seq<T>, i: nat)
    requires i < |Distinct(s)|
    ensures exists p: nat :: FirstMet(s, i, p)
  {
    var n := |s| - 1;
    var d := Distinct(s[..n]);
    if i < |d| {
      DistinctOrder(s[..n], i);
      var p: nat :| FirstMet(s[..n], i, p);
      assert Distinct(s)[..i] == d[..i] && s[..n][..p] == s[..p];
      assert FirstMet(s, i, p) by {
        assert forall q | 0 <= q < p :: s[q] == s[..n][q];
      }
    } else {
      DistinctSpec(s[..n]);
      assert Distinct(s)[..i] == d;
      assert forall q | 0 <= q < n :: s[q] == s[..n][q] && s[..n][q] in s[..n];
      assert FirstMet(s, i, n);
    }
  }

  /** Dropping a node commutes with dropping repetitions. */
  lemma {:induction false} WithoutDistinct<T>(s: seq<T>, x: T)
    ensures Distinct(Without(s, x)) == Without(Distinct(s), x)
  {
    if s != [] {
      var n := |s| - 1;
      WithoutDistinct(s[..n], x);
      var d := Distinct(s[..n]);
      WithoutSpec(d, x);
      if s[n] != x {
        assert Without(s, x)[..|Without(s, x)| - 1] == Without(s[..n], x);
        if s[n] !in d {
          assert (d + [s[n]])[..|d|] == d;
        }
      } else {
        assert Without(s, x) == Without(s[..n], x);
        if s[n] !in d {
          assert (d + [s[n]])[..|d|] == d;
        }
      }
    }
  }

  lemma {:induction false} WithoutAbsent<T>(s: seq<T>, x: T)
    requires x !in s
    ensures Without(s, x) == s
  {
    if s != [] {
      var n := |s| - 1;
      assert s == s[..n] + [s[n]];
      WithoutAbsent(s[..n], x);
    }
  }

  /** Deleting an element that occurs once, at i. */
  lemma WithoutAt<T>(s: seq<T>, i: nat)
    requires i < |s| && s[i] !in s[..i] && s[i] !in s[i + 1..]
    ensures Without(s, s[i]) == s[..i] + s[i + 1..]
  {
    assert s == (s[..i] + [s[i]]) + s[i + 1..];
    WithoutBetween(s[..i], s[i], s[i + 1..]);
  }

  lemma WithoutBetween<T>(a: seq<T>, x: T, b: seq<T>)
    requires x !in a && x !in b
    ensures Without((a + [x]) + b, x) == a + b
  {
    WithoutConcat(a + [x], b, x);
    WithoutLast(a, x);
    WithoutAbsent(a, x);
    WithoutAbsent(b, x);
  }

  lemma WithoutLast<T>(a: seq<T>, x: T)
    ensures Without(a + [x], x) == Without(a, x)
  {
    assert (a + [x])[..|a|] == a;
  }

  predicate NoRepeats<T(==)>(s: seq<T>) {
    forall i, j | 0 <= i < j < |s| :: s[i] != s[j]
  }

  /** Distinct elements of a set are no more than the set has. */
  lemma {:induction false} DistinctFits<T>(s: seq<T>, all: set<T>)
    requires NoRepeats(s) && forall x | x in s :: x in all
    ensures |s| <= |all|
  {
    if s != [] {
      var n := |s| - 1;
      forall x | x in s[..n] ensures x in all - {s[n]} {
        var i :| 0 <= i < n && s[..n][i] == x;
        assert s[i] != s[n];
      }
      assert s[n] in all;
      DistinctFits(s[..n], all - {s[n]});
    }
  }

  /** A set whose elements all occur in s has no more of them than s is long. */
  lemma {:induction false} SetFits<T>(all: set<T>, s: seq<T>)
    requires forall x | x in all :: x in s
    ensures |all| <= |s|
  {
    if s == [] {
      assert all == {};
    } else {
      var n := |s| - 1;
      forall x | x in all - {s[n]} ensures x in s[..n] {
        assert s == s[..n] + [s[n]];
      }
      SetFits(all - {s[n]}, s[..n]);
      assert all <= (all - {s[n]}) + {s[n]};
    }
  }

  lemma WithoutKeepsDistinct<T>(s: seq<T>, x: T)
    requires NoRepeats(s)
    ensures NoRepeats(Without(s, x)) && (x in s ==> |Without(s, x)| == |s| - 1)
  {
    if x in s {
      var i :| 0 <= i < |s| && s[i] == x;
      assert s[i] !in s[..i] && s[i] !in s[i + 1..];
      WithoutAt(s, i);
      var t := s[..i] + s[i + 1..];
      assert forall j | 0 <= j < |t| :: t[j] == s[if j < i then j else j + 1];
    } else {
      WithoutAbsent(s, x);
    }
  }

  lemma {:induction false} WithoutShorter<T>(s: seq<T>, x: T)
    ensures |Without(s, x)| <= |s| && (x in s ==> |Without(s, x)| < |s|)
  {
    if s != [] {
      WithoutShorter(s[..|s| - 1], x);
      assert s == s[..|s| - 1] + [s[|s| - 1]];
    }
  }
}
