/** `partition_into_two_sets` of Q1.3/main.py: the ways of splitting the
    numbers 1..2n into two sets of n numbers each, every unordered split
    listed once, with the set holding the smaller minimum first. */
module Partition {
  import opened Collections
  import opened Itertools

  /** A split as the program returns it: `(set1, set2)`. */
  type Split = (set<int>, set<int>)

  /** `list(range(lo, hi))`. */
  function Interval(lo: int, hi: int): (r: seq<int>)
    ensures |r| == if lo < hi then hi - lo else 0
    ensures forall i :: 0 <= i < |r| ==> r[i] == lo + i
  {
    if lo < hi then seq(hi - lo, i => lo + i) else []
  }

  /** `list(range(1, 2 * n + 1))`, the numbers the subsets are drawn from. */
  function Listed(n: int): seq<int> {
    Interval(1, 2 * n + 1)
  }

  /** `set(numbers)`: the numbers 1..2n. */
  function Numbers(n: int): set<int> {
    ToSet(Listed(n))
  }

  /** The `n`-element combinations of 1..2n, in the order they are walked. */
  function Halves(n: int): seq<seq<int>>
    requires n >= 0
  {
    Combinations(Listed(n), n)
  }

  /** The numbers are listed once each, and they are exactly 1..2n. */
  lemma NumbersListed(n: int)
    requires n > 0
    ensures Distinct(Listed(n))
    ensures forall x :: x in Numbers(n) <==> 1 <= x <= 2 * n
    ensures |Numbers(n)| == 2 * n
  {
    var numbers := Listed(n);
    forall x | 1 <= x <= 2 * n ensures x in Numbers(n) {
      assert numbers[x - 1] == x;
    }
    forall x | x in Numbers(n) ensures 1 <= x <= 2 * n {
      var i :| 0 <= i < |numbers| && numbers[i] == x;
    }
    DistinctCard(numbers);
  }

  /** Every combination drawn, and the numbers it leaves, are sets of `n`
      numbers out of 1..2n. */
  lemma HalvesSized(n: int)
    requires n > 0
    ensures forall i :: 0 <= i < |Halves(n)| ==>
      && ToSet(Halves(n)[i]) <= Numbers(n)
      && |ToSet(Halves(n)[i])| == n
      && |Numbers(n) - ToSet(Halves(n)[i])| == n
  {
    var cs := Halves(n);
    NumbersListed(n);
    CombinationsDistinct(Listed(n), n);
    forall i | 0 <= i < |cs|
      ensures ToSet(cs[i]) <= Numbers(n) && |ToSet(cs[i])| == n && |Numbers(n) - ToSet(cs[i])| == n
    {
      DistinctCard(cs[i]);
      DiffCard(Numbers(n), ToSet(cs[i]));
    }
  }

  /** `(set(c), u - set(c))`: the split a subset `c` of `u` stands for. */
  function SplitOf(c: seq<int>, u: set<int>): Split {
    (ToSet(c), u - ToSet(c))
  }

  /** `min(set1) < min(set2)` for the split of `c`, both sets being non-empty. */
  ghost predicate Chosen(c: seq<int>, u: set<int>) {
    ToSet(c) != {} && u - ToSet(c) != {} && Min(ToSet(c)) < Min(u - ToSet(c))
  }

  /** The splits kept while walking the subsets `cs` of `u` in order. */
  ghost function Kept(cs: seq<seq<int>>, u: set<int>): seq<Split>
  {
    if cs == [] then []
    else
      var last := cs[|cs| - 1];
      var kept := Kept(cs[..|cs| - 1], u);
      if Chosen(last, u) then kept + [SplitOf(last, u)] else kept
  }

  /** Walking one more subset keeps its split exactly when it is chosen. */
  lemma KeptSnoc(cs: seq<seq<int>>, c: seq<int>, u: set<int>)
    ensures Kept(cs + [c], u) == if Chosen(c, u) then Kept(cs, u) + [SplitOf(c, u)] else Kept(cs, u)
  {
    assert (cs + [c])[..|cs|] == cs;
  }

  /** Both sets of the split of a drawn combination are non-empty. */
  lemma HalfSplits(n: int, i: nat)
    requires n > 0 && i < |Halves(n)|
    ensures ToSet(Halves(n)[i]) != {} && Numbers(n) - ToSet(Halves(n)[i]) != {}
  {
    HalvesSized(n);
  }

  /** What `partition_into_two_sets(n)` returns. */
  ghost function Partitions(n: int): seq<Split>
  {
    if n <= 0 then [] else Kept(Halves(n), Numbers(n))
  }

  /** `p` is the split of a chosen subset of `cs`. */
  ghost predicate FromChosen(cs: seq<seq<int>>, u: set<int>, p: Split) {
    exists j :: 0 <= j < |cs| && p == SplitOf(cs[j], u) && Chosen(cs[j], u)
  }

  /** Every kept split comes from a chosen subset of `cs`. */
  lemma {:induction false} KeptFrom(cs: seq<seq<int>>, u: set<int>)
    ensures forall k :: 0 <= k < |Kept(cs, u)| ==> FromChosen(cs, u, Kept(cs, u)[k])
  {
    if cs != [] {
      var init := cs[..|cs| - 1];
      KeptFrom(init, u);
      var kept := Kept(init, u);
      forall k | 0 <= k < |Kept(cs, u)|
        ensures FromChosen(cs, u, Kept(cs, u)[k])
      {
        if k < |kept| {
          assert Kept(cs, u)[k] == kept[k];
          var j :| 0 <= j < |init| && kept[k] == SplitOf(init[j], u) && Chosen(init[j], u);
          assert init[j] == cs[j];
        } else {
          assert Kept(cs, u)[k] == SplitOf(cs[|cs| - 1], u);
        }
      }
    }
  }

  /** Every chosen subset of `cs` is kept. */
  lemma {:induction false} KeptAll(cs: seq<seq<int>>, u: set<int>, j: nat)
    requires j < |cs| && Chosen(cs[j], u)
    ensures SplitOf(cs[j], u) in Kept(cs, u)
  {
    var init := cs[..|cs| - 1];
    if j < |init| {
      assert init[j] == cs[j];
      KeptAll(init, u, j);
    }
  }

  /** Subsets with pairwise different elements give pairwise different
      first sets. */
  lemma {:induction false} KeptDistinct(cs: seq<seq<int>>, u: set<int>)
    requires forall i, j :: 0 <= i < j < |cs| ==> ToSet(cs[i]) != ToSet(cs[j])
    ensures forall k, l :: 0 <= k < l < |Kept(cs, u)| ==> Kept(cs, u)[k].0 != Kept(cs, u)[l].0
  {
    if cs != [] {
      var init := cs[..|cs| - 1];
      assert forall j :: 0 <= j < |init| ==> init[j] == cs[j];
      KeptDistinct(init, u);
      KeptFrom(init, u);
    }
  }

  /** For a split of 1..2n into two non-empty sets, the first set has the
      smaller minimum exactly when it holds 1: the canonical-order test keeps
      one of the two orders of every split. */
  lemma MinBelowIffHoldsOne(n: int, a: set<int>)
    requires n > 0 && a <= Numbers(n) && a != {} && Numbers(n) - a != {}
    ensures Min(a) < Min(Numbers(n) - a) <==> 1 in a
  {
    NumbersListed(n);
    var b := Numbers(n) - a;
    if 1 in a {
      assert Min(a) == 1;
      assert Min(b) in Numbers(n) && Min(b) != 1;
    } else {
      assert 1 in b;
      assert Min(b) == 1;
      assert Min(a) in Numbers(n) && Min(a) != 1;
    }
  }

  /** A balanced split of 1..2n in canonical order: two disjoint sets of `n`
      numbers that together make up 1..2n, the first holding 1 and so the
      smaller minimum. */
  ghost predicate Balanced(n: int, p: Split) {
    && |p.0| == n && |p.1| == n
    && p.0 * p.1 == {} && p.0 + p.1 == Numbers(n)
    && 1 in p.0
    && p.0 != {} && p.1 != {} && Min(p.0) < Min(p.1)
  }

  /** The split of a chosen `n`-element combination is balanced. */
  lemma ChosenBalanced(n: int, j: nat)
    requires n > 0 && j < |Halves(n)| && Chosen(Halves(n)[j], Numbers(n))
    ensures Balanced(n, SplitOf(Halves(n)[j], Numbers(n)))
  {
    HalvesSized(n);
    MinBelowIffHoldsOne(n, ToSet(Halves(n)[j]));
  }

  /** Every returned split is balanced and in canonical order. */
  lemma PartitionsBalanced(n: int)
    ensures forall k :: 0 <= k < |Partitions(n)| ==> Balanced(n, Partitions(n)[k])
  {
    if n > 0 {
      var cs := Halves(n);
      KeptFrom(cs, Numbers(n));
      forall k | 0 <= k < |Partitions(n)|
        ensures Balanced(n, Partitions(n)[k])
      {
        var j :| 0 <= j < |cs| && Partitions(n)[k] == SplitOf(cs[j], Numbers(n)) && Chosen(cs[j], Numbers(n));
        ChosenBalanced(n, j);
      }
    }
  }

  /** No unordered split is returned twice, in either order. */
  lemma PartitionsUnique(n: int)
    ensures forall k, l :: 0 <= k < l < |Partitions(n)| ==>
      Partitions(n)[k].0 != Partitions(n)[l].0 && Partitions(n)[k].0 != Partitions(n)[l].1
  {
    if n > 0 {
      NumbersListed(n);
      CombinationsDistinct(Listed(n), n);
      KeptDistinct(Halves(n), Numbers(n));
      PartitionsBalanced(n);
    }
  }

  /** Every split of 1..2n into two sets of `n` numbers is returned, in the
      order that puts 1 in the first set. */
  lemma PartitionsComplete(n: int, a: set<int>)
    requires n > 0 && a <= Numbers(n) && |a| == n && 1 in a
    ensures (a, Numbers(n) - a) in Partitions(n)
  {
    var cs := Halves(n);
    NumbersListed(n);
    CombinationsComplete(Listed(n), n, a);
    var j :| 0 <= j < |cs| && ToSet(cs[j]) == a;
    DiffCard(Numbers(n), a);
    MinBelowIffHoldsOne(n, a);
    KeptAll(cs, Numbers(n), j);
  }

  /** `partition_into_two_sets(n)`: nothing for `n <= 0`; otherwise walk the
      `n`-element combinations of 1..2n and keep each split whose first set
      has the smaller minimum. */
  method PartitionIntoTwoSets(n: int) returns (all: seq<Split>)
    ensures all == Partitions(n)
    ensures n <= 0 ==> all == []
  {
    if n <= 0 {
      return [];
    }
    var numbers := Interval(1, 2 * n + 1);
    var subsets := Combinations(numbers, n);
    assert subsets == Halves(n) && ToSet(numbers) == Numbers(n);
    all := [];
    for i := 0 to |subsets|
      invariant all == Kept(subsets[..i], Numbers(n))
    {
      HalfSplits(n, i);
      var set1 := ToSet(subsets[i]);
      var set2 := ToSet(numbers) - set1;
      KeptSnoc(subsets[..i], subsets[i], Numbers(n));
      assert subsets[..i + 1] == subsets[..i] + [subsets[i]];
      if Min(set1) < Min(set2) {
        all := all + [(set1, set2)];
      }
    }
    assert subsets[..|subsets|] == subsets;
  }
}
