# Stable matching and balanced partitions, modelled in Dafny

The repository holds two small Python programs, and both are modelled here.

**Gale–Shapley deferred acceptance** (`GaleShapeleyAlgo/main.py`). There are n men and
n women, and each ranks every member of the other side. Men wait in a deque of
unmarried men. The front man proposes to the first woman left on his list and
strikes her off. If she is free she accepts him. If she is married she keeps
whichever of the two men she ranks higher, and the loser goes back to the front
of the deque. The run ends when the deque is empty.

- The module `Matching` describes the run on values:
  - the state `Engine` holds the remaining lists, the `wife` and `husband` links and the deque;
  - `Inv` is the invariant kept between proposals;
  - `Step` is one proposal, with its three outcomes `Accept`, `Swap` and `Reject`;
  - lemmas prove that `Inv` is kept, that a woman's husband only improves,
    that a proposal consumes exactly one list entry, that the `raise` is unreachable,
    and that the final matching is perfect and stable.
- The module `GaleShapley` holds the imperative program, proved against `Step`:
  - the class `Registry` keeps the records as arrays indexed by id, plus the deque;
  - `Registry.Propose` updates them in place;
  - `Match` is the driving loop of `main`;
  - `CountSingleMen` is `count_single_men`.

**Balanced partitions and schedules** (`Q1.3/main.py`).
- `partition_into_two_sets(n)` walks the n-element combinations of 1..2n and keeps
  each split whose first set has the smaller minimum.
  - The module `Itertools` models `itertools.combinations`: its order, its
    sizes, no repeats, and that every subset is produced.
  - The module `Partition` proves that the loop returns exactly the balanced
    splits of 1..2n, each once, in canonical order.
- The module `Schedules` models three functions:
  - `default_plan`, which plays each set in an arbitrary order;
  - `score_schedules`, which compares the rounds;
  - `better_schedule`: in each round, the side holding the larger maximum plays
    it, and the other side plays its minimum.

The shared module `Collections` holds facts about sequences as sets, plus `Min` and
`Max` of a finite set. The module `Preferences` holds rankings and Python's `list.index`.

## Model

| member | source | states |
|---|---|---|
| Preferences.Range | GaleShapeleyAlgo/main.py:8 | `list(range(n))` is a permutation of 0..n-1 whose position i holds i |
| Preferences.IndexOf | GaleShapeleyAlgo/main.py:100 | `list.index` returns a position holding the value, with no earlier occurrence |
| Preferences.IndexOfAt | GaleShapeleyAlgo/main.py:100 | in a ranking without repeats, the index of the man at position i is i |
| Preferences.PrefersTotal | GaleShapeleyAlgo/main.py:100 | a woman's comparison of two different men never ties: exactly one of them is preferred |
| Matching.Start | GaleShapeleyAlgo/main.py:4-32 | defines the state `init_women` and `init_men` build: each man holds his full ranking, nobody is married, and every man is queued in id order |
| Matching.Accept | GaleShapeleyAlgo/main.py:92-96 | defines the outcome when the woman is free: the proposer's list loses its front, the two are linked both ways, and he leaves the deque |
| Matching.Swap | GaleShapeleyAlgo/main.py:99-106 | defines the outcome when she prefers the proposer: his list loses its front, her husband loses his wife, the new couple is linked, and the dumped husband takes the proposer's place at the front of the deque |
| Matching.Reject | GaleShapeleyAlgo/main.py:108-110 | defines the outcome when she keeps her husband: only the proposer's list changes, and he goes back to the front of the deque |
| Matching.Step | GaleShapeleyAlgo/main.py:75-110 | defines one pass of the loop body: the front man proposes to the first woman left on his list; she accepts if free, swaps if her `list.index` of him is below her husband's, and rejects him otherwise |
| Matching.Follows | GaleShapeleyAlgo/main.py:73-110 | defines one pass of the loop between two states: the first keeps the invariant and has a man in the deque, and the second is its `Step` |
| Matching.Run | GaleShapeleyAlgo/main.py:73-113 | defines a trace of the while loop: it starts at `Start`, and each later state `Follows` the one before |
| Matching.RunExtend | GaleShapeleyAlgo/main.py:73-113 | one more pass of the loop from the last state of a trace extends the trace |
| Matching.StartInv | GaleShapeleyAlgo/main.py:4-32 | after `init_women`/`init_men` everyone is unmarried, every man is queued once, the invariant holds, and n * n proposals are available |
| Matching.InjectiveCovers | GaleShapeleyAlgo/main.py:83-85 | pigeonhole: n distinct partners below n cover all n ids |
| Matching.AllWedTogether | GaleShapeleyAlgo/main.py:83-85 | with consistent links, all women are married exactly when all men are |
| Matching.SingleManHasChoice | GaleShapeleyAlgo/main.py:83-85 | an unmarried man always has a woman left on his list, so the `raise` is unreachable |
| Matching.StepConsumesFront | GaleShapeleyAlgo/main.py:87-88 | a proposal strikes exactly the front of the proposer's list, leaves every other list alone, and lowers the remaining proposals by one |
| Matching.StrikeKeepsShape | GaleShapeleyAlgo/main.py:87-88 | after the strike, every man's list is still a suffix of his full ranking |
| Matching.AcceptKeepsLinks | GaleShapeleyAlgo/main.py:92-96 | a free woman accepting makes a symmetric link; the deque still holds exactly the single men; the man's wife is the last woman he proposed to |
| Matching.AcceptKeepsCourted | GaleShapeleyAlgo/main.py:92-96 | after an accept, every woman a man has proposed to holds him or a man she ranks higher |
| Matching.SwapKeepsLinks | GaleShapeleyAlgo/main.py:99-105 | after a swap, the dumped husband is unlinked and the new couple is linked symmetrically |
| Matching.SwapKeepsQueue | GaleShapeleyAlgo/main.py:102-106 | after a swap, the deque holds exactly the unmarried men, each once |
| Matching.RequeueDumped | GaleShapeleyAlgo/main.py:103-106 | unmarrying a man and putting him at the front, in place of the newly married proposer, keeps the deque equal to the set of single men |
| Matching.SwapKeepsWivesLast | GaleShapeleyAlgo/main.py:104-105 | after a swap, each married man's wife is still the last woman he proposed to |
| Matching.SwapKeepsCourted | GaleShapeleyAlgo/main.py:100-105 | after a swap, every woman ever proposed to holds the proposer or someone she ranks higher |
| Matching.RejectKeepsInv | GaleShapeleyAlgo/main.py:108-110 | when the woman ranks her husband above the proposer, the rejection changes only his list, requeues him at the front, and keeps the invariant |
| Matching.RejectKeepsCourted | GaleShapeleyAlgo/main.py:108-110 | after a rejection, every woman ever proposed to still holds her suitor or a man she ranks higher; the rejecting woman holds her preferred husband |
| Matching.StepImprovesHusbands | GaleShapeleyAlgo/main.py:92-110 | a married woman stays married, and her husband changes only to a man she ranks strictly higher |
| Matching.StepInv | GaleShapeleyAlgo/main.py:73-113 | every pass of the loop keeps the invariant: links agree, the deque is exactly the single men, proposed-to women hold someone at least as good, wives are the last proposal |
| Matching.NoBlockingAt | GaleShapeleyAlgo/main.py:100-110 | if a married man ranks w above his wife, then w is married to a man she ranks above him |
| Matching.TerminalMatchingIsStable | GaleShapeleyAlgo/main.py:73-117 | once the deque is empty, every man and woman is married, the links agree, and no pair prefers each other to their partners |
| GaleShapley.Registry.constructor | GaleShapeleyAlgo/main.py:4-32 | builds records whose state is the initial state: full lists, nobody married, all men queued in id order |
| GaleShapley.Registry.SetPartners | GaleShapeleyAlgo/main.py:95-96 | links man m and woman w and changes nothing else in the two arrays |
| GaleShapley.Registry.ClearWife | GaleShapeleyAlgo/main.py:103 | unmarries the dumped husband and nothing else |
| GaleShapley.Registry.Propose | GaleShapeleyAlgo/main.py:75-110 | the in-place proposal leaves the records in exactly the state `Step` gives and keeps them consistent |
| GaleShapley.Match | GaleShapeleyAlgo/main.py:63-117 | the returned wives and husbands are the final state of a trace (`Run`) of `Step`s from `Start` that ends with an empty deque; the trace has at most n * n proposals; the matching is perfect and stable |
| GaleShapley.CountSingleMen | GaleShapeleyAlgo/main.py:34-42 | the count is the number of men without a wife, and it is zero exactly when every man is married |
| Collections.Min | Q1.3/main.py:30 | `min` of a non-empty set is a member that is no larger than any member |
| Collections.Max | Q1.3/main.py:90 | `max` of a non-empty set is a member that is no smaller than any member |
| Itertools.Combinations | Q1.3/main.py:24 | every combination has k elements, all drawn from the input |
| Itertools.CombinationsDistinct | Q1.3/main.py:24 | from a list without repeats, every combination is repeat-free and no two combinations have the same elements |
| Itertools.CombinationsComplete | Q1.3/main.py:24 | every k-element subset of the input's elements is produced as some combination |
| Partition.Interval | Q1.3/main.py:20 | `range(lo, hi)` lists lo, lo+1, ..., hi-1 |
| Partition.NumbersListed | Q1.3/main.py:20 | `numbers` has no repeats and its set is exactly 1..2n, of size 2n |
| Partition.HalvesSized | Q1.3/main.py:24-26 | each `set1` is an n-element subset of 1..2n, and so is its complement `set2` |
| Partition.Kept | Q1.3/main.py:24-31 | defines the list the loop builds over a prefix of the combinations: each split is appended, in walking order, exactly when its first set has the smaller minimum |
| Partition.Partitions | Q1.3/main.py:17-33 | defines the result: `[]` for n <= 0, otherwise `Kept` over all n-element combinations of 1..2n |
| Partition.KeptSnoc | Q1.3/main.py:30-31 | walking one more subset appends its split exactly when the minimum test holds |
| Partition.KeptFrom | Q1.3/main.py:24-31 | every kept split comes from a walked subset that passes the minimum test |
| Partition.KeptAll | Q1.3/main.py:24-31 | every walked subset that passes the minimum test is kept |
| Partition.KeptDistinct | Q1.3/main.py:24-31 | subsets with different elements give different first sets |
| Partition.MinBelowIffHoldsOne | Q1.3/main.py:28-31 | for a split of 1..2n, `min(set1) < min(set2)` holds exactly when 1 is in `set1`, so one of the two orders of every split passes |
| Partition.ChosenBalanced | Q1.3/main.py:24-31 | the split of a kept subset is balanced |
| Partition.PartitionsBalanced | Q1.3/main.py:17-33 | every returned pair has two sets of size n that are disjoint, cover 1..2n, and whose first holds 1 and the smaller minimum |
| Partition.PartitionsUnique | Q1.3/main.py:28-31 | no unordered split is returned twice, in either order |
| Partition.PartitionsComplete | Q1.3/main.py:20-31 | every split of 1..2n into two n-element sets is returned, with the set holding 1 first |
| Partition.PartitionIntoTwoSets | Q1.3/main.py:6-33 | returns `[]` for n <= 0, and otherwise exactly the specified list of splits, which the lemmas above characterise |
| Schedules.MoveOne | Q1.3/main.py:58-67 | moving one element from a working copy to its schedule keeps the schedule repeat-free, disjoint from the copy, and together equal to the set |
| Schedules.PendingDone | Q1.3/main.py:56 | once the working copy is empty, the schedule plays every element of the set exactly once |
| Schedules.DefaultPlan | Q1.3/main.py:36-69 | each schedule is a permutation of its set: no repeats, same elements, same size |
| Schedules.ScoreSchedules | Q1.3/main.py:71-78 | both scores have the length of the shorter schedule; round i scores the strict comparisons; never both true; a round is scored exactly when the numbers differ; with disjoint sets exactly one side wins each round |
| Schedules.Pick | Q1.3/main.py:90-103 | each round plays a number still in each working set |
| Schedules.Greedy | Q1.3/main.py:80-105 | defines the result of `better_schedule`: rounds of `Pick` on the working sets, each round removing the two numbers played, until either set is empty |
| Schedules.PrependDistinct | Q1.3/main.py:90-103 | a schedule stays repeat-free when a number not already in it is put first |
| Schedules.GreedyLengths | Q1.3/main.py:89 | the loop stops when either set is empty: both schedules have the length of the smaller set |
| Schedules.GreedyDraws | Q1.3/main.py:90-103 | each schedule is repeat-free and drawn from its own set |
| Schedules.GreedyUsesUpSmaller | Q1.3/main.py:89-103 | the schedule of the smaller set plays all of it |
| Schedules.UnplayedShift | Q1.3/main.py:92-102 | what is unplayed after a first round equals the working set with that round's number removed |
| Schedules.GreedyRounds | Q1.3/main.py:89-103 | in every round, both working sets are non-empty, and the side with the larger maximum plays that maximum while the other plays its minimum (ties go to the second side) |
| Schedules.RoundWinner | Q1.3/main.py:90-103 | for disjoint working sets, a greedy round never ties, and side 1 wins it exactly when its maximum is the larger |
| Schedules.GreedyWinners | Q1.3/main.py:80-105 | for disjoint sets, no round of `better_schedule` ties, and side 1 wins round i exactly when its largest unplayed number beats side 2's |
| Schedules.BetterSchedule | Q1.3/main.py:80-105 | the loop produces exactly the greedy schedules characterised by the lemmas above, of equal length, the smaller set's size |

## Left out

- Shuffling of the rankings (`random.shuffle`, GaleShapeleyAlgo/main.py:9 and 24). The rankings are parameters, required to be permutations of 0..n-1. The source never validates them: it builds them from `range(n)`.
- `n = 5` in `main`: the model works for any n.
- `random.choice` in `default_plan`: the element taken is any member of the working set, chosen with `:|`. Nothing is assumed about the distribution.
- All printing:
  - `print_marriages`, which `main` never calls;
  - the final result loop (GaleShapeleyAlgo/main.py:115-117), whose content is the returned `wives`;
  - the per-step messages;
  - the print inside `count_single_men`;
  - everything `main` of Q1.3 prints, including the `sum(score)` summaries.
- `input()` in Q1.3 `main`: `n` is a parameter of `PartitionIntoTwoSets`.
- The "already married" skip branch (GaleShapeleyAlgo/main.py:76-81) appears in `Propose` as an assertion that the popped man is unmarried, proved from the invariant. The branch is dead code: the deque only ever holds single men. Even if it were reached, `men.rotate(1)` would fail because `men` is a list. Its truthiness test would also miss a man married to woman 0.
- The "already married" error print at GaleShapeleyAlgo/main.py:93-94 is unreachable for the same reason.
- The `raise` at GaleShapeleyAlgo/main.py:83-85 is not modelled as an error result, because `SingleManHasChoice` proves it can never happen.
- Records: a man's and a woman's dictionary are split into parallel arrays indexed by id. The deque holds ids rather than references to the dictionaries. Aliasing between `men`, `men_queue` and the deque is therefore not modelled.
- `GaleShapley.Match`: does not prove that the result is the man-optimal stable matching, a stronger property that the source does not state.
- `Schedules.DefaultPlan`, `Schedules.BetterSchedule`: Python's `set.copy()` protects the callers' sets. In the model, sets are values, so the inputs cannot be changed and no separate statement is needed.
- `Partition.PartitionIntoTwoSets`: states its result as equal to the specification `Partitions(n)`. Balance, uniqueness and completeness are proved about `Partitions(n)` in separate lemmas, not repeated in the method's own contract.
- `itertools.combinations` is modelled on its documented order, not on its C implementation.
- Schedules are lists of unbounded integers. Python's `int` is unbounded too, so no width is modelled.
