/** Rankings of participants: permutations of the ids 0..n-1, a participant's
    position in a ranking, and the strict preference that position induces. */
module Preferences {
  import opened Collections

  /** `p` ranks every id below `n` exactly once. */
  ghost predicate IsPermutation(p: seq<nat>, n: nat) {
    && |p| == n
    && (forall i :: 0 <= i < |p| ==> p[i] < n)
    && (forall x :: 0 <= x < n ==> x in p)
    && Distinct(p)
  }

  /** `list(range(n))`: the ids 0..n-1 in ascending order, the ranking every
      list starts from before it is shuffled, and the order in which the men
      are first queued. */
  function Range(n: nat): (r: seq<nat>)
    ensures IsPermutation(r, n)
    ensures forall i :: 0 <= i < n ==> r[i] == i
  {
    var r := seq(n, i => i);
    assert forall x :: 0 <= x < n ==> r[x] == x && x in r;
    r
  }

  /** Python's `list.index`: the position of the first occurrence of `x`. */
  function IndexOf(p: seq<nat>, x: nat): (r: nat)
    requires x in p
    ensures r < |p| && p[r] == x
    ensures x !in p[..r]
  {
    if p[0] == x then 0
    else
      var k := IndexOf(p[1..], x);
      assert p[..k + 1] == [p[0]] + p[1..][..k];
      k + 1
  }

  /** In ranking `p`, `a` stands strictly before `b`. */
  ghost predicate Prefers(p: seq<nat>, a: nat, b: nat) {
    a in p && b in p && IndexOf(p, a) < IndexOf(p, b)
  }

  /** In a ranking without repetitions, the position of the element at `i` is `i`. */
  lemma IndexOfAt(p: seq<nat>, i: nat)
    requires Distinct(p) && i < |p|
    ensures IndexOf(p, p[i]) == i
  {
    var r := IndexOf(p, p[i]);
    assert p[r] == p[i];
    assert p[i] !in p[..r];
    assert i >= r by {
      assert forall j :: 0 <= j < r ==> p[..r][j] == p[j];
    }
  }

  /** Two different participants of a ranking are always strictly ordered. */
  lemma PrefersTotal(p: seq<nat>, a: nat, b: nat)
    requires a in p && b in p && a != b
    ensures Prefers(p, a, b) != Prefers(p, b, a)
  {
    assert IndexOf(p, a) != IndexOf(p, b);
  }
}
