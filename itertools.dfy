/** Python's `itertools.combinations`, which `partition_into_two_sets` walks:
    the k-element subsequences of a sequence, in lexicographic order of
    positions (those that take the first element come first). */
module Itertools {
  import opened Collections

  /** Puts `x` in front of every sequence of `cs`. */
  function Prepend<T>(x: T, cs: seq<seq<T>>): (r: seq<seq<T>>)
    ensures |r| == |cs|
    ensures forall i :: 0 <= i < |r| ==> r[i] == [x] + cs[i]
  {
    seq(|cs|, i requires 0 <= i < |cs| => [x] + cs[i])
  }

  /** `combinations(s, k)`: every choice of `k` positions of `s`, each listed
      as the elements at those positions; there is one empty choice when
      `k` is 0 and none when `k` exceeds `|s|`. */
  function Combinations<T>(s: seq<T>, k: nat): (r: seq<seq<T>>)
    ensures forall i :: 0 <= i < |r| ==> |r[i]| == k && ToSet(r[i]) <= ToSet(s)
    decreases |s|
  {
    if k == 0 then [[]]
    else if s == [] then []
    else
      var taken := Combinations(s[1..], k - 1);
      var skipped := Combinations(s[1..], k);
      assert ToSet(s[1..]) <= ToSet(s) by {
        assert forall j :: 0 <= j < |s| - 1 ==> s[1..][j] == s[j + 1];
      }
      Prepend(s[0], taken) + skipped
  }

  /** Out of a sequence without repetitions, every combination is without
      repetitions and no two combinations hold the same elements. */
  lemma {:induction false} CombinationsDistinct<T>(s: seq<T>, k: nat)
    requires Distinct(s)
    ensures forall i :: 0 <= i < |Combinations(s, k)| ==> Distinct(Combinations(s, k)[i])
    ensures forall i, j :: 0 <= i < j < |Combinations(s, k)| ==>
      ToSet(Combinations(s, k)[i]) != ToSet(Combinations(s, k)[j])
    decreases |s|
  {
    if k != 0 && s != [] {
      var tail := s[1..];
      assert Distinct(tail) by {
        forall i, j | 0 <= i < j < |tail| ensures tail[i] != tail[j] {
          assert tail[i] == s[i + 1] && tail[j] == s[j + 1];
        }
      }
      assert s[0] !in ToSet(tail) by {
        assert forall j :: 0 <= j < |tail| ==> tail[j] == s[j + 1] != s[0];
      }
      CombinationsDistinct(tail, k - 1);
      CombinationsDistinct(tail, k);
      var taken := Combinations(tail, k - 1);
      var skipped := Combinations(tail, k);
      var r := Combinations(s, k);
      assert r == Prepend(s[0], taken) + skipped;
      forall i | 0 <= i < |r|
        ensures Distinct(r[i])
      {
        if i < |taken| {
          var c := taken[i];
          assert r[i] == [s[0]] + c;
          assert s[0] !in c by {
            assert ToSet(c) <= ToSet(tail);
          }
          forall a, b | 0 <= a < b < |r[i]| ensures r[i][a] != r[i][b] {
            if a == 0 {
              assert r[i][b] == c[b - 1];
            } else {
              assert r[i][a] == c[a - 1] && r[i][b] == c[b - 1];
            }
          }
        } else {
          assert r[i] == skipped[i - |taken|];
        }
      }
      forall i, j | 0 <= i < j < |r|
        ensures ToSet(r[i]) != ToSet(r[j])
      {
        if j < |taken| {
          assert r[i] == [s[0]] + taken[i] && r[j] == [s[0]] + taken[j];
          assert ToSet(r[i]) == {s[0]} + ToSet(taken[i]);
          assert ToSet(r[j]) == {s[0]} + ToSet(taken[j]);
          assert ToSet(taken[i]) <= ToSet(tail) && ToSet(taken[j]) <= ToSet(tail);
          assert ToSet(r[i]) - {s[0]} == ToSet(taken[i]);
          assert ToSet(r[j]) - {s[0]} == ToSet(taken[j]);
        } else if i < |taken| {
          assert r[i] == [s[0]] + taken[i];
          assert s[0] in ToSet(r[i]);
          assert r[j] == skipped[j - |taken|];
          assert ToSet(r[j]) <= ToSet(tail);
        } else {
          assert r[i] == skipped[i - |taken|] && r[j] == skipped[j - |taken|];
        }
      }
    }
  }

  /** What a subset of the elements of `s` holds besides `s[0]` is drawn from
      the tail. */
  lemma TailHoldsRest<T>(s: seq<T>, a: set<T>)
    requires s != [] && a <= ToSet(s)
    ensures a - {s[0]} <= ToSet(s[1..])
  {
    forall x | x in a - {s[0]} ensures x in ToSet(s[1..]) {
      var j :| 0 <= j < |s| && s[j] == x;
      assert s[1..][j - 1] == x;
    }
  }

  /** The combinations that take `s[0]` come first. */
  lemma TakingAt<T>(s: seq<T>, k: nat, i: nat)
    requires k > 0 && s != [] && i < |Combinations(s[1..], k - 1)|
    ensures i < |Combinations(s, k)| && Combinations(s, k)[i] == [s[0]] + Combinations(s[1..], k - 1)[i]
  {
    var front := Prepend(s[0], Combinations(s[1..], k - 1));
    assert Combinations(s, k) == front + Combinations(s[1..], k);
    assert Combinations(s, k)[i] == front[i];
  }

  /** The combinations that skip `s[0]` follow. */
  lemma SkippingAt<T>(s: seq<T>, k: nat, i: nat)
    requires k > 0 && s != [] && i < |Combinations(s[1..], k)|
    ensures var j := |Combinations(s[1..], k - 1)| + i;
      j < |Combinations(s, k)| && Combinations(s, k)[j] == Combinations(s[1..], k)[i]
  {
    var front := Prepend(s[0], Combinations(s[1..], k - 1));
    assert Combinations(s, k) == front + Combinations(s[1..], k);
    assert Combinations(s, k)[|front| + i] == Combinations(s[1..], k)[i];
  }

  /** Every `k`-element set drawn from the elements of `s` is the set of
      elements of some combination. */
  lemma {:induction false} CombinationsComplete<T>(s: seq<T>, k: nat, a: set<T>)
    requires a <= ToSet(s) && |a| == k
    ensures exists i :: 0 <= i < |Combinations(s, k)| && ToSet(Combinations(s, k)[i]) == a
    decreases |s|, 1
  {
    if k == 0 {
      assert a == {};
      assert ToSet(Combinations(s, k)[0]) == {};
    } else {
      assert s != [] by {
        assert a != {};
      }
      if s[0] in a {
        CompleteTaking(s, k, a);
      } else {
        CompleteSkipping(s, k, a);
      }
    }
  }

  /** A set holding the first element is found among the combinations that
      take it. */
  lemma {:induction false} CompleteTaking<T>(s: seq<T>, k: nat, a: set<T>)
    requires a <= ToSet(s) && |a| == k && k > 0 && s != [] && s[0] in a
    ensures exists i :: 0 <= i < |Combinations(s, k)| && ToSet(Combinations(s, k)[i]) == a
    decreases |s|, 0
  {
    var b := a - {s[0]};
    TailHoldsRest(s, a);
    CombinationsComplete(s[1..], k - 1, b);
    var i :| 0 <= i < |Combinations(s[1..], k - 1)| && ToSet(Combinations(s[1..], k - 1)[i]) == b;
    TakingAt(s, k, i);
    ToSetCons(s[0], Combinations(s[1..], k - 1)[i]);
    assert ToSet(Combinations(s, k)[i]) == a;
  }

  /** A set without the first element is found among the combinations that
      skip it. */
  lemma {:induction false} CompleteSkipping<T>(s: seq<T>, k: nat, a: set<T>)
    requires a <= ToSet(s) && |a| == k && k > 0 && s != [] && s[0] !in a
    ensures exists i :: 0 <= i < |Combinations(s, k)| && ToSet(Combinations(s, k)[i]) == a
    decreases |s|, 0
  {
    TailHoldsRest(s, a);
    assert a - {s[0]} == a;
    CombinationsComplete(s[1..], k, a);
    var i :| 0 <= i < |Combinations(s[1..], k)| && ToSet(Combinations(s[1..], k)[i]) == a;
    SkippingAt(s, k, i);
  }
}
