/** The schedule utilities of Q1.3/main.py: a schedule lists the numbers of
    a set in the order they are played, one per round against the other
    side's schedule. `default_plan` plays them in an arbitrary order,
    `better_schedule` greedily, and `score_schedules` says who wins each
    round. */
module Schedules {
  import opened Collections

  /** The smaller of two lengths, the number of pairs `zip` yields. */
  function Smaller(x: int, y: int): int {
    if x < y then x else y
  }

  /** `s` plays every number of `a` exactly once. */
  ghost predicate Plays(s: seq<int>, a: set<int>) {
    Distinct(s) && ToSet(s) == a && |s| == |a|
  }

  /** Part of `full` is scheduled, each number once, and the rest is still
      in the working copy `work`. */
  ghost predicate Pending(schedule: seq<int>, work: set<int>, full: set<int>) {
    Distinct(schedule) && ToSet(schedule) !! work && ToSet(schedule) + work == full
  }

  /** Moving one number from the working copy to the end of the schedule
      keeps the two apart and together equal to the full set. */
  lemma MoveOne(schedule: seq<int>, work: set<int>, full: set<int>, e: int)
    requires Pending(schedule, work, full) && e in work
    ensures Pending(schedule + [e], work - {e}, full)
  {
    var s := schedule + [e];
    assert ToSet(s) == ToSet(schedule) + {e} by {
      assert forall x :: x in schedule ==> x in s;
    }
    assert e !in ToSet(schedule);
    forall i, j | 0 <= i < j < |s| ensures s[i] != s[j] {
      assert s[i] == schedule[i] && schedule[i] in ToSet(schedule);
    }
  }

  /** Once the working copy is empty, the schedule plays the whole set. */
  lemma PendingDone(schedule: seq<int>, full: set<int>)
    requires Pending(schedule, {}, full)
    ensures Plays(schedule, full)
  {
    DistinctCard(schedule);
  }

  /** `default_plan(set1, set2)`: while either working copy is non-empty,
      take some element out of each non-empty one and append it to that
      side's schedule. The element `random.choice` picks is left open. */
  method DefaultPlan(set1: set<int>, set2: set<int>) returns (schedule1: seq<int>, schedule2: seq<int>)
    ensures Plays(schedule1, set1) && Plays(schedule2, set2)
  {
    var work1, work2 := set1, set2;
    schedule1, schedule2 := [], [];
    while work1 != {} || work2 != {}
      invariant Pending(schedule1, work1, set1) && Pending(schedule2, work2, set2)
      decreases |work1| + |work2|
    {
      if work1 != {} {
        ghost var some1 := Element(work1);
        assert some1 in work1;
        var element1 :| element1 in work1;
        MoveOne(schedule1, work1, set1, element1);
        work1 := work1 - {element1};
        schedule1 := schedule1 + [element1];
      }
      if work2 != {} {
        ghost var some2 := Element(work2);
        assert some2 in work2;
        var element2 :| element2 in work2;
        MoveOne(schedule2, work2, set2, element2);
        work2 := work2 - {element2};
        schedule2 := schedule2 + [element2];
      }
    }
    PendingDone(schedule1, set1);
    PendingDone(schedule2, set2);
  }

  /** `score_schedules(schedule1, schedule2)`: for each round of the zipped
      schedules, whether the first side's number is larger and whether the
      second side's is. */
  method ScoreSchedules(schedule1: seq<int>, schedule2: seq<int>) returns (score1: seq<bool>, score2: seq<bool>)
    ensures |score1| == |score2| == Smaller(|schedule1|, |schedule2|)
    ensures forall i :: 0 <= i < |score1| ==> score1[i] == (schedule1[i] > schedule2[i])
    ensures forall i :: 0 <= i < |score2| ==> score2[i] == (schedule1[i] < schedule2[i])
    ensures forall i :: 0 <= i < |score1| ==> !(score1[i] && score2[i])
    ensures forall i :: 0 <= i < |score1| ==> (score1[i] || score2[i] <==> schedule1[i] != schedule2[i])
    ensures ToSet(schedule1) !! ToSet(schedule2) ==>
      forall i :: 0 <= i < |score1| ==> score1[i] != score2[i]
  {
    score1, score2 := [], [];
    var rounds := Smaller(|schedule1|, |schedule2|);
    for i := 0 to rounds
      invariant |score1| == |score2| == i
      invariant forall j :: 0 <= j < i ==> score1[j] == (schedule1[j] > schedule2[j])
      invariant forall j :: 0 <= j < i ==> score2[j] == (schedule1[j] < schedule2[j])
    {
      score1 := score1 + [schedule1[i] > schedule2[i]];
      score2 := score2 + [schedule1[i] < schedule2[i]];
    }
    if ToSet(schedule1) !! ToSet(schedule2) {
      forall i | 0 <= i < |score1| ensures score1[i] != score2[i] {
        assert schedule1[i] in ToSet(schedule1) && schedule2[i] in ToSet(schedule2);
      }
    }
  }

  /** One round of `better_schedule` on the non-empty working sets `w1` and
      `w2`: the side whose maximum is larger plays that maximum and the other
      side plays its minimum; on equal maxima the second side counts as
      larger. */
  function Pick(w1: set<int>, w2: set<int>): (p: (int, int))
    requires w1 != {} && w2 != {}
    ensures p.0 in w1 && p.1 in w2
  {
    if Max(w1) > Max(w2) then (Max(w1), Min(w2)) else (Min(w1), Max(w2))
  }

  /** What `better_schedule(a, b)` returns: rounds are played until either
      working set is empty. */
  function Greedy(a: set<int>, b: set<int>): (seq<int>, seq<int>)
    decreases |a|
  {
    if a == {} || b == {} then ([], [])
    else
      var p := Pick(a, b);
      var rest := Greedy(a - {p.0}, b - {p.1});
      ([p.0] + rest.0, [p.1] + rest.1)
  }

  /** Putting a new element in front keeps a sequence free of repetitions. */
  lemma PrependDistinct(x: int, s: seq<int>)
    requires Distinct(s) && x !in s
    ensures Distinct([x] + s)
  {
    var t := [x] + s;
    forall i, j | 0 <= i < j < |t| ensures t[i] != t[j] {
      assert t[j] == s[j - 1];
      if i > 0 {
        assert t[i] == s[i - 1];
      }
    }
  }

  /** Both greedy schedules have one entry per round, and there are as many
      rounds as the smaller set has numbers. */
  lemma {:induction false} GreedyLengths(a: set<int>, b: set<int>)
    ensures |Greedy(a, b).0| == |Greedy(a, b).1| == Smaller(|a|, |b|)
    decreases |a|
  {
    if a != {} && b != {} {
      var p := Pick(a, b);
      GreedyLengths(a - {p.0}, b - {p.1});
    }
  }

  /** Neither greedy schedule repeats a number, and each draws only from its
      own set. */
  lemma {:induction false} GreedyDraws(a: set<int>, b: set<int>)
    ensures Distinct(Greedy(a, b).0) && ToSet(Greedy(a, b).0) <= a
    ensures Distinct(Greedy(a, b).1) && ToSet(Greedy(a, b).1) <= b
    decreases |a|
  {
    if a != {} && b != {} {
      var p := Pick(a, b);
      var rest := Greedy(a - {p.0}, b - {p.1});
      assert Greedy(a, b) == ([p.0] + rest.0, [p.1] + rest.1);
      GreedyDraws(a - {p.0}, b - {p.1});
      ToSetCons(p.0, rest.0);
      ToSetCons(p.1, rest.1);
      PrependDistinct(p.0, rest.0);
      PrependDistinct(p.1, rest.1);
    }
  }

  /** The side with the smaller set plays all of it. */
  lemma GreedyUsesUpSmaller(a: set<int>, b: set<int>)
    ensures |a| <= |b| ==> Plays(Greedy(a, b).0, a)
    ensures |b| <= |a| ==> Plays(Greedy(a, b).1, b)
  {
    GreedyLengths(a, b);
    GreedyDraws(a, b);
    DistinctCard(Greedy(a, b).0);
    DistinctCard(Greedy(a, b).1);
    if |a| <= |b| {
      SubsetSameCard(ToSet(Greedy(a, b).0), a);
    }
    if |b| <= |a| {
      SubsetSameCard(ToSet(Greedy(a, b).1), b);
    }
  }

  /** The numbers of `a` not yet played after `i` rounds of schedule `s`. */
  ghost function Unplayed(a: set<int>, s: seq<int>, i: nat): set<int>
    requires i <= |s|
  {
    a - ToSet(s[..i])
  }

  /** After `i > 0` rounds of a schedule that opened with `x`, what is
      unplayed is what the rest of the schedule leaves unplayed of the set
      without `x` after `i - 1` rounds. */
  lemma UnplayedShift(a: set<int>, x: int, rest: seq<int>, i: nat)
    requires 0 < i <= |rest| + 1
    ensures Unplayed(a, [x] + rest, i) == Unplayed(a - {x}, rest, i - 1)
  {
    assert ([x] + rest)[..i] == [x] + rest[..i - 1];
    ToSetCons(x, rest[..i - 1]);
  }

  /** `x1` and `x2` are what one round plays from working sets `w1`, `w2`. */
  ghost predicate Round(w1: set<int>, w2: set<int>, x1: int, x2: int) {
    w1 != {} && w2 != {} && (x1, x2) == Pick(w1, w2)
  }

  /** Every round of the greedy schedules follows the greedy rule on the
      numbers still unplayed on each side. */
  lemma {:induction false} GreedyRounds(a: set<int>, b: set<int>)
    ensures |Greedy(a, b).0| == |Greedy(a, b).1|
    ensures forall i :: 0 <= i < |Greedy(a, b).0| ==>
      Round(Unplayed(a, Greedy(a, b).0, i), Unplayed(b, Greedy(a, b).1, i), Greedy(a, b).0[i], Greedy(a, b).1[i])
    decreases |a|
  {
    GreedyLengths(a, b);
    if a != {} && b != {} {
      var p := Pick(a, b);
      var x, y := p.0, p.1;
      var rest := Greedy(a - {x}, b - {y});
      var s1, s2 := [x] + rest.0, [y] + rest.1;
      assert Greedy(a, b) == (s1, s2);
      GreedyRounds(a - {x}, b - {y});
      forall i | 0 <= i < |s1|
        ensures Round(Unplayed(a, s1, i), Unplayed(b, s2, i), s1[i], s2[i])
      {
        if i == 0 {
          assert Unplayed(a, s1, 0) == a && Unplayed(b, s2, 0) == b;
        } else {
          UnplayedShift(a, x, rest.0, i);
          UnplayedShift(b, y, rest.1, i);
        }
      }
    }
  }

  /** Over disjoint sets no round is a tie, and the first side wins a round
      exactly when its largest unplayed number exceeds the other side's. */
  lemma RoundWinner(w1: set<int>, w2: set<int>, x1: int, x2: int)
    requires w1 !! w2 && Round(w1, w2, x1, x2)
    ensures x1 != x2
    ensures x1 > x2 <==> Max(w1) > Max(w2)
  {
    assert Max(w1) in w1 && Max(w2) in w2;
    assert Max(w1) != Max(w2);
  }

  /** When the two sets share no number, the greedy schedules never tie a
      round, and the first schedule wins a round exactly when its largest
      unplayed number is the larger one. */
  lemma GreedyWinners(a: set<int>, b: set<int>)
    requires a !! b
    ensures |Greedy(a, b).0| == |Greedy(a, b).1|
    ensures forall i :: 0 <= i < |Greedy(a, b).0| ==>
      Unplayed(a, Greedy(a, b).0, i) != {} && Unplayed(b, Greedy(a, b).1, i) != {}
    ensures forall i :: 0 <= i < |Greedy(a, b).0| ==>
      && Greedy(a, b).0[i] != Greedy(a, b).1[i]
      && (Greedy(a, b).0[i] > Greedy(a, b).1[i] <==>
          Max(Unplayed(a, Greedy(a, b).0, i)) > Max(Unplayed(b, Greedy(a, b).1, i)))
  {
    GreedyRounds(a, b);
    var (s1, s2) := Greedy(a, b);
    forall i | 0 <= i < |s1|
      ensures s1[i] != s2[i] && (s1[i] > s2[i] <==> Max(Unplayed(a, s1, i)) > Max(Unplayed(b, s2, i)))
    {
      RoundWinner(Unplayed(a, s1, i), Unplayed(b, s2, i), s1[i], s2[i]);
    }
  }

  /** `better_schedule(set1, set2)`: play rounds until either working copy
      runs out. */
  method BetterSchedule(set1: set<int>, set2: set<int>) returns (schedule1: seq<int>, schedule2: seq<int>)
    ensures (schedule1, schedule2) == Greedy(set1, set2)
    ensures |schedule1| == |schedule2| == Smaller(|set1|, |set2|)
  {
    var work1, work2 := set1, set2;
    schedule1, schedule2 := [], [];
    assert schedule1 + Greedy(work1, work2).0 == Greedy(set1, set2).0;
    assert schedule2 + Greedy(work1, work2).1 == Greedy(set1, set2).1;
    while |work1| > 0 && |work2| > 0
      invariant schedule1 + Greedy(work1, work2).0 == Greedy(set1, set2).0
      invariant schedule2 + Greedy(work1, work2).1 == Greedy(set1, set2).1
      decreases |work1|
    {
      ghost var round := Pick(work1, work2);
      ghost var rest := Greedy(work1 - {round.0}, work2 - {round.1});
      ghost var before1, before2 := schedule1, schedule2;
      assert Greedy(work1, work2) == ([round.0] + rest.0, [round.1] + rest.1);
      if Max(work1) > Max(work2) {
        var maxVal1 := Max(work1);
        work1 := work1 - {maxVal1};
        schedule1 := schedule1 + [maxVal1];
        var minVal2 := Min(work2);
        work2 := work2 - {minVal2};
        schedule2 := schedule2 + [minVal2];
      } else {
        var maxVal2 := Max(work2);
        work2 := work2 - {maxVal2};
        schedule2 := schedule2 + [maxVal2];
        var minVal1 := Min(work1);
        work1 := work1 - {minVal1};
        schedule1 := schedule1 + [minVal1];
      }
      assert schedule1 == before1 + [round.0] && schedule2 == before2 + [round.1];
      assert before1 + ([round.0] + rest.0) == schedule1 + rest.0;
      assert before2 + ([round.1] + rest.1) == schedule2 + rest.1;
    }
    assert Greedy(work1, work2) == ([], []);
    assert schedule1 + [] == schedule1 && schedule2 + [] == schedule2;
    GreedyLengths(set1, set2);
  }
}
