/** Facts about sequences seen as sets and about finite set sizes, shared by the
    stable-matching model and the partition/schedule model. */
module Collections {

  /** No element occurs twice in `s`. */
  ghost predicate Distinct<T>(s: seq<T>) {
    forall i, j :: 0 <= i < j < |s| ==> s[i] != s[j]
  }

  /** The set of the elements of `s` (Python's `set(s)`). */
  function ToSet<T>(s: seq<T>): set<T> {
    set x | x in s
  }

  /** A sequence without repetitions has as many distinct elements as positions. */
  lemma {:induction false} DistinctCard<T>(s: seq<T>)
    requires Distinct(s)
    ensures |ToSet(s)| == |s|
  {
    if s != [] {
      var tail := s[1..];
      assert Distinct(tail) by {
        forall i, j | 0 <= i < j < |tail| ensures tail[i] != tail[j] {
          assert tail[i] == s[i + 1] && tail[j] == s[j + 1];
        }
      }
      DistinctCard(tail);
      assert ToSet(s) == {s[0]} + ToSet(tail);
      assert forall k :: 0 <= k < |tail| ==> tail[k] == s[k + 1] != s[0];
    }
  }

  /** The elements of a sequence with a first element put in front. */
  lemma ToSetCons<T>(x: T, s: seq<T>)
    ensures ToSet([x] + s) == {x} + ToSet(s)
  {
    assert forall y :: y in s ==> y in [x] + s;
  }

  /** Removing a subset removes exactly its elements from the count. */
  lemma DiffCard<T>(a: set<T>, b: set<T>)
    requires b <= a
    ensures |a - b| == |a| - |b|
  {
    var d := a - b;
    assert a == d + b;
    assert d * b == {};
    assert |d + b| + |d * b| == |d| + |b|;
  }

  /** A subset of a finite set with as many elements is the whole set. */
  lemma SubsetSameCard<T>(a: set<T>, b: set<T>)
    requires a <= b && |a| == |b|
    ensures a == b
  {
    DiffCard(b, a);
    assert |b - a| == 0;
    assert b - a == {};
  }

  /** Some element of a non-empty set. */
  ghost function Element<T>(s: set<T>): (y: T)
    requires s != {}
    ensures y in s
  {
    var y :| y in s; y
  }

  /** A non-empty finite set of integers has a least element. */
  lemma {:induction false} HasMin(s: set<int>)
    requires s != {}
    ensures exists m :: m in s && forall x :: x in s ==> m <= x
    decreases |s|
  {
    var y := Element(s);
    if s != {y} {
      var r := s - {y};
      HasMin(r);
      var m :| m in r && forall x :: x in r ==> m <= x;
      var least := if y < m then y else m;
      assert forall x :: x in s ==> x == y || x in r;
      assert least in s && forall x :: x in s ==> least <= x;
    } else {
      assert forall x :: x in s ==> y <= x;
    }
  }

  /** A non-empty finite set of integers has a greatest element. */
  lemma {:induction false} HasMax(s: set<int>)
    requires s != {}
    ensures exists m :: m in s && forall x :: x in s ==> x <= m
    decreases |s|
  {
    var y := Element(s);
    if s != {y} {
      var r := s - {y};
      HasMax(r);
      var m :| m in r && forall x :: x in r ==> x <= m;
      var greatest := if m < y then y else m;
      assert forall x :: x in s ==> x == y || x in r;
      assert greatest in s && forall x :: x in s ==> x <= greatest;
    } else {
      assert forall x :: x in s ==> x <= y;
    }
  }

  /** Python's `min` on a non-empty set of integers. */
  function Min(s: set<int>): (m: int)
    requires s != {}
    ensures m in s && forall x :: x in s ==> m <= x
  {
    HasMin(s);
    var m :| m in s && forall x :: x in s ==> m <= x;
    m
  }

  /** Python's `max` on a non-empty set of integers. */
  function Max(s: set<int>): (m: int)
    requires s != {}
    ensures m in s && forall x :: x in s ==> x <= m
  {
    HasMax(s);
    var m :| m in s && forall x :: x in s ==> x <= m;
    m
  }
}
