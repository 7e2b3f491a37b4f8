/** The deferred-acceptance run of GaleShapeleyAlgo/main.py as a state machine
    on values: the state of one run, the invariant every proposal keeps, one
    proposal as a function of the state before it, and what the state says
    once no unmarried man is left. Men propose, women accept, keep or swap. */
module Matching {
  import opened Collections
  import opened Preferences

  datatype Option<T> = None | Some(value: T)

  /** The fixed input of a run: `men[m]` is man m's full ranking of the women
      and `women[w]` woman w's ranking of the men, most preferred first. */
  datatype Profile = Profile(men: seq<seq<nat>>, women: seq<seq<nat>>)

  /** n men and n women, every list a permutation of 0..n-1. */
  ghost predicate ValidProfile(p: Profile) {
    && |p.women| == |p.men|
    && (forall m :: 0 <= m < |p.men| ==> IsPermutation(p.men[m], |p.men|))
    && (forall w :: 0 <= w < |p.women| ==> IsPermutation(p.women[w], |p.men|))
  }

  /** The mutable part of a run: what is left of each man's list
      (`man['preferences']`), each man's `wife`, each woman's `husband`, and
      the deque `unmarried_men`, front first. */
  datatype Engine = Engine(
    rest: seq<seq<nat>>,
    wife: seq<Option<nat>>,
    husband: seq<Option<nat>>,
    queue: seq<nat>)

  /** The state `init_women` and `init_men` build: full lists, nobody
      married, every man queued in id order. */
  ghost function Start(p: Profile): Engine {
    var n := |p.men|;
    Engine(p.men, seq(n, _ => None), seq(n, _ => None), Range(n))
  }

  /** The wife and husband links agree: a man's wife has him as husband and a
      woman's husband has her as wife. Each side is thus injective. */
  ghost predicate Linked(n: nat, wife: seq<Option<nat>>, husband: seq<Option<nat>>) {
    && |wife| == n && |husband| == n
    && (forall m :: 0 <= m < n && wife[m].Some? ==>
          wife[m].value < n && husband[wife[m].value] == Some(m))
    && (forall w :: 0 <= w < n && husband[w].Some? ==>
          husband[w].value < n && wife[husband[w].value] == Some(w))
  }

  /** The deque holds exactly the unmarried men, each once. */
  ghost predicate QueuesSingles(n: nat, wife: seq<Option<nat>>, queue: seq<nat>) {
    && |wife| == n
    && Distinct(queue)
    && (forall i :: 0 <= i < |queue| ==> queue[i] < n)
    && (forall m :: 0 <= m < n ==> (m in queue <==> wife[m] == None))
  }

  /** Woman `w`, whom man `m` has proposed to, is married: to `m` or to a man
      she ranks above `m`. */
  ghost predicate Holds(p: Profile, husband: seq<Option<nat>>, m: nat, w: nat) {
    && w < |husband| && w < |p.women|
    && husband[w].Some?
    && (husband[w].value == m || Prefers(p.women[w], husband[w].value, m))
  }

  /** The lists have their sizes, and each man's remaining list is what is
      left of his ranking once its front has been consumed. */
  ghost predicate Shaped(p: Profile, s: Engine) {
    var n := |p.men|;
    && ValidProfile(p)
    && |s.rest| == n && |s.wife| == n && |s.husband| == n
    && (forall m :: 0 <= m < n ==> |s.rest[m]| <= n && s.rest[m] == p.men[m][n - |s.rest[m]|..])
  }

  /** Every woman a man has proposed to holds him or a man she ranks higher. */
  ghost predicate Courted(p: Profile, s: Engine)
    requires Shaped(p, s)
  {
    var n := |p.men|;
    forall m, i :: 0 <= m < n && 0 <= i < n - |s.rest[m]| ==> Holds(p, s.husband, m, p.men[m][i])
  }

  /** A married man's wife is the last woman he proposed to. */
  ghost predicate WivesLast(p: Profile, s: Engine)
    requires Shaped(p, s)
  {
    var n := |p.men|;
    forall m :: 0 <= m < n && s.wife[m].Some? ==>
      |s.rest[m]| < n && s.wife[m].value == p.men[m][n - 1 - |s.rest[m]|]
  }

  /** What holds between any two proposals. */
  ghost predicate Inv(p: Profile, s: Engine) {
    && Shaped(p, s)
    && Linked(|p.men|, s.wife, s.husband)
    && QueuesSingles(|p.men|, s.wife, s.queue)
    && Courted(p, s)
    && WivesLast(p, s)
  }

  /** Man `m` strikes woman `w` off his list and she accepts him: the two are
      linked and he leaves the front of the deque. */
  ghost function Accept(s: Engine, m: nat, w: nat): Engine
    requires m < |s.rest| && m < |s.wife| && w < |s.husband| && |s.rest[m]| > 0 && s.queue != []
  {
    Engine(s.rest[m := s.rest[m][1..]], s.wife[m := Some(w)], s.husband[w := Some(m)], s.queue[1..])
  }

  /** Man `m` strikes woman `w` off his list and she leaves her husband `h`
      for him: `h` is unlinked and takes `m`'s place at the front. */
  ghost function Swap(s: Engine, m: nat, w: nat, h: nat): Engine
    requires m < |s.rest| && m < |s.wife| && h < |s.wife| && w < |s.husband| && |s.rest[m]| > 0 && s.queue != []
  {
    Engine(s.rest[m := s.rest[m][1..]], s.wife[h := None][m := Some(w)], s.husband[w := Some(m)], [h] + s.queue[1..])
  }

  /** Man `m` strikes the front of his list off and is rejected: he goes back
      to the front of the deque. */
  ghost function Reject(s: Engine, m: nat): Engine
    requires m < |s.rest| && |s.rest[m]| > 0 && s.queue != []
  {
    Engine(s.rest[m := s.rest[m][1..]], s.wife, s.husband, [m] + s.queue[1..])
  }

  /** One pass of the loop body: the front man proposes to the first woman
      left on his list; a free woman accepts, a married one keeps whichever
      of the two she ranks higher. */
  ghost function Step(p: Profile, s: Engine): Engine
    requires Inv(p, s) && s.queue != []
  {
    var n := |p.men|;
    var m := s.queue[0];
    SingleManHasChoice(p, s, m);
    var w := s.rest[m][0];
    assert w == p.men[m][n - |s.rest[m]|];
    match s.husband[w]
    case None => Accept(s, m, w)
    case Some(h) =>
      if IndexOf(p.women[w], m) < IndexOf(p.women[w], h) then Swap(s, m, w, h) else Reject(s, m)
  }

  /** State `t` follows state `s` by one proposal: `s` keeps the invariant,
      has an unmarried man in the deque, and `t` is its `Step`. */
  ghost predicate Follows(p: Profile, s: Engine, t: Engine) {
    Inv(p, s) && s.queue != [] && t == Step(p, s)
  }

  /** `runs` traces a run from the start, each state following the one
      before it. */
  ghost predicate Run(p: Profile, runs: seq<Engine>) {
    && |runs| > 0 && runs[0] == Start(p)
    && forall i :: 0 <= i < |runs| - 1 ==> Follows(p, runs[i], runs[i + 1])
  }

  /** One more proposal from the last state of a run extends the run. */
  lemma RunExtend(p: Profile, runs: seq<Engine>, next: Engine)
    requires Run(p, runs) && Follows(p, runs[|runs| - 1], next)
    ensures Run(p, runs + [next])
  {
    var longer := runs + [next];
    forall i | 0 <= i < |longer| - 1
      ensures Follows(p, longer[i], longer[i + 1])
    {
      if i < |runs| - 1 {
        assert longer[i] == runs[i] && longer[i + 1] == runs[i + 1];
      } else {
        assert longer[i] == runs[|runs| - 1] && longer[i + 1] == next;
      }
    }
  }

  /** Total length of the remaining lists: the proposals still possible. */
  ghost function Remaining(rest: seq<seq<nat>>): nat {
    if rest == [] then 0 else |rest[0]| + Remaining(rest[1..])
  }

  /** Every man and every woman is married, and the links agree. */
  ghost predicate Perfect(n: nat, wife: seq<Option<nat>>, husband: seq<Option<nat>>) {
    && Linked(n, wife, husband)
    && (forall m :: 0 <= m < n ==> wife[m].Some?)
    && (forall w :: 0 <= w < n ==> husband[w].Some?)
  }

  /** Man `m` and woman `w` each rank the other above their own partner. */
  ghost predicate Blocking(p: Profile, wife: seq<Option<nat>>, husband: seq<Option<nat>>, m: nat, w: nat) {
    && m < |wife| && m < |p.men| && w < |husband| && w < |p.women|
    && wife[m].Some? && husband[w].Some?
    && Prefers(p.men[m], w, wife[m].value)
    && Prefers(p.women[w], m, husband[w].value)
  }

  /** No blocking pair. */
  ghost predicate Stable(p: Profile, wife: seq<Option<nat>>, husband: seq<Option<nat>>) {
    forall m, w :: !Blocking(p, wife, husband, m, w)
  }

  /** Some position of `f` holds `Some(y)`. */
  ghost predicate Takes(f: seq<Option<nat>>, y: nat) {
    exists x :: 0 <= x < |f| && f[x] == Some(y)
  }

  /** Pigeonhole: n distinct values below n, all present, take every value below n. */
  lemma InjectiveCovers(f: seq<Option<nat>>, n: nat)
    requires |f| == n
    requires forall x :: 0 <= x < n ==> f[x].Some? && f[x].value < n
    requires forall x, y :: 0 <= x < y < n ==> f[x] != f[y]
    ensures forall y :: 0 <= y < n ==> Takes(f, y)
  {
    var vals := seq(n, x requires 0 <= x < n => f[x].value);
    assert Distinct(vals);
    DistinctCard(vals);
    var ids := Range(n);
    DistinctCard(ids);
    assert ToSet(vals) <= ToSet(ids);
    SubsetSameCard(ToSet(vals), ToSet(ids));
    forall y | 0 <= y < n ensures Takes(f, y) {
      assert ids[y] == y;
      assert y in ToSet(vals);
      var x :| 0 <= x < n && vals[x] == y;
      assert f[x] == Some(y);
    }
  }

  /** With n men and n women correctly linked, all women are married exactly
      when all men are. */
  lemma {:induction false} AllWedTogether(n: nat, wife: seq<Option<nat>>, husband: seq<Option<nat>>)
    requires Linked(n, wife, husband)
    ensures (forall w :: 0 <= w < n ==> husband[w].Some?) <==> (forall m :: 0 <= m < n ==> wife[m].Some?)
  {
    if forall w :: 0 <= w < n ==> husband[w].Some? {
      InjectiveCovers(husband, n);
      forall m | 0 <= m < n ensures wife[m].Some? {
        assert Takes(husband, m);
        var w :| 0 <= w < n && husband[w] == Some(m);
      }
    }
    if forall m :: 0 <= m < n ==> wife[m].Some? {
      InjectiveCovers(wife, n);
      forall w | 0 <= w < n ensures husband[w].Some? {
        assert Takes(wife, w);
        var m :| 0 <= m < n && wife[m] == Some(w);
      }
    }
  }

  /** The `raise` of the source cannot happen: an unmarried man always has a
      woman left to propose to. If he had proposed to all n women, all of them
      would be married, hence all n men, him included. */
  lemma SingleManHasChoice(p: Profile, s: Engine, m: nat)
    requires Inv(p, s) && m < |p.men|
    ensures s.wife[m] == None ==> |s.rest[m]| > 0
  {
    var n := |p.men|;
    if |s.rest[m]| == 0 {
      forall w | 0 <= w < n ensures s.husband[w].Some? {
        var i := IndexOf(p.men[m], w);
        assert Holds(p, s.husband, m, p.men[m][i]);
      }
      AllWedTogether(n, s.wife, s.husband);
    }
  }

  /** The initial state satisfies the invariant and offers n * n proposals. */
  lemma StartInv(p: Profile)
    requires ValidProfile(p)
    ensures Inv(p, Start(p))
    ensures Remaining(Start(p).rest) == |p.men| * |p.men|
  {
    var n := |p.men|;
    var s := Start(p);
    forall m | 0 <= m < n ensures s.rest[m] == p.men[m][n - |s.rest[m]|..] {
      assert p.men[m][0..] == p.men[m];
    }
    forall m | 0 <= m < n ensures m in s.queue <==> s.wife[m] == None {
      assert s.queue[m] == m;
    }
    RemainingUniform(p.men, n);
  }

  /** n lists of length n offer n * n proposals. */
  lemma {:induction false} RemainingUniform(rest: seq<seq<nat>>, n: nat)
    requires forall m :: 0 <= m < |rest| ==> |rest[m]| == n
    ensures Remaining(rest) == |rest| * n
  {
    if rest != [] {
      RemainingUniform(rest[1..], n);
    }
  }

  /** Shortening one list by one shortens the total by one. */
  lemma {:induction false} RemainingDrop(rest: seq<seq<nat>>, k: nat)
    requires k < |rest| && |rest[k]| > 0
    ensures Remaining(rest[k := rest[k][1..]]) == Remaining(rest) - 1
  {
    if k > 0 {
      assert rest[k := rest[k][1..]][1..] == rest[1..][k - 1 := rest[k][1..]];
      RemainingDrop(rest[1..], k - 1);
    }
  }

  /** Each proposal strikes exactly the front of the proposer's list and no
      other list changes, so lists only shrink and a man never proposes to
      the same woman twice; the proposals still possible drop by one. */
  lemma StepConsumesFront(p: Profile, s: Engine)
    requires Inv(p, s) && s.queue != []
    ensures var m := s.queue[0];
      && |s.rest[m]| > 0
      && Step(p, s).rest == s.rest[m := s.rest[m][1..]]
      && Remaining(Step(p, s).rest) == Remaining(s.rest) - 1
  {
    SingleManHasChoice(p, s, s.queue[0]);
    RemainingDrop(s.rest, s.queue[0]);
  }

  /** A married woman stays married, and her husband changes only to a man
      she ranks strictly higher. */
  lemma StepImprovesHusbands(p: Profile, s: Engine)
    requires Inv(p, s) && s.queue != []
    ensures forall w :: 0 <= w < |s.husband| && w < |Step(p, s).husband| && s.husband[w].Some? ==>
      && Step(p, s).husband[w].Some?
      && (Step(p, s).husband[w] == s.husband[w]
          || Prefers(p.women[w], Step(p, s).husband[w].value, s.husband[w].value))
  {
  }

  /** Every proposal keeps the invariant. */
  lemma StepInv(p: Profile, s: Engine, next: Engine)
    requires Inv(p, s) && s.queue != [] && next == Step(p, s)
    ensures Inv(p, next)
  {
    var n := |p.men|;
    var m := s.queue[0];
    SingleManHasChoice(p, s, m);
    var w := s.rest[m][0];
    assert w == p.men[m][n - |s.rest[m]|];
    match s.husband[w]
    case None =>
      StrikeKeepsShape(p, s, Accept(s, m, w));
      AcceptKeepsLinks(p, s, m, w);
      AcceptKeepsCourted(p, s, m, w);
    case Some(h) =>
      if IndexOf(p.women[w], m) < IndexOf(p.women[w], h) {
        StrikeKeepsShape(p, s, Swap(s, m, w, h));
        SwapKeepsLinks(p, s, m, w, h);
        SwapKeepsQueue(p, s, m, w, h);
        SwapKeepsWivesLast(p, s, m, w, h);
        SwapKeepsCourted(p, s, m, w, h);
      } else {
        StrikeKeepsShape(p, s, Reject(s, m));
        assert h != m && h < n && m < n;
        PrefersTotal(p.women[w], m, h);
        RejectKeepsInv(p, s, m, w, h);
      }
  }

  /** Striking the front man's first entry keeps the remaining lists suffixes
      of the rankings. */
  lemma StrikeKeepsShape(p: Profile, s: Engine, s': Engine)
    requires Inv(p, s) && s.queue != [] && |s.rest[s.queue[0]]| > 0
    requires s'.rest == s.rest[s.queue[0] := s.rest[s.queue[0]][1..]]
    requires |s'.wife| == |s.wife| && |s'.husband| == |s.husband|
    ensures Shaped(p, s')
  {
    var n := |p.men|;
    var m := s.queue[0];
    var k := n - |s.rest[m]|;
    assert s.rest[m][1..] == p.men[m][k..][1..] == p.men[m][k + 1..];
  }

  /** When a free woman accepts, links, deque and last proposals stay consistent. */
  lemma AcceptKeepsLinks(p: Profile, s: Engine, m: nat, w: nat)
    requires Inv(p, s) && s.queue != [] && m == s.queue[0]
    requires |s.rest[m]| > 0 && w == s.rest[m][0] && w < |p.men| && s.husband[w] == None
    requires Shaped(p, Accept(s, m, w))
    ensures Linked(|p.men|, Accept(s, m, w).wife, Accept(s, m, w).husband)
    ensures QueuesSingles(|p.men|, Accept(s, m, w).wife, Accept(s, m, w).queue)
    ensures WivesLast(p, Accept(s, m, w))
  {
    var n := |p.men|;
    assert w == p.men[m][n - |s.rest[m]|];
    assert m !in s.queue[1..];
  }

  /** When a free woman accepts, every woman proposed to still holds a man at
      least as good as each of her suitors. */
  lemma AcceptKeepsCourted(p: Profile, s: Engine, m: nat, w: nat)
    requires Inv(p, s) && s.queue != [] && m == s.queue[0]
    requires |s.rest[m]| > 0 && w == s.rest[m][0] && w < |p.men| && s.husband[w] == None
    requires Shaped(p, Accept(s, m, w))
    ensures Courted(p, Accept(s, m, w))
  {
    var n := |p.men|;
    var k := n - |s.rest[m]|;
    assert w == p.men[m][k];
    var s' := Accept(s, m, w);
    forall m', i | 0 <= m' < n && 0 <= i < n - |s'.rest[m']|
      ensures Holds(p, s'.husband, m', p.men[m'][i])
    {
      if m' != m || i < k {
        assert Holds(p, s.husband, m', p.men[m'][i]);
      }
    }
  }

  /** When a woman leaves her husband for the proposer, the wife and husband
      links stay consistent. */
  lemma SwapKeepsLinks(p: Profile, s: Engine, m: nat, w: nat, h: nat)
    requires Inv(p, s) && s.queue != [] && m == s.queue[0]
    requires |s.rest[m]| > 0 && w == s.rest[m][0] && w < |p.men| && s.husband[w] == Some(h)
    ensures Linked(|p.men|, Swap(s, m, w, h).wife, Swap(s, m, w, h).husband)
  {
    assert h != m;
  }

  /** When a woman leaves her husband for the proposer, the deque still holds
      exactly the unmarried men: the proposer left its front and the dumped
      husband took his place. */
  lemma SwapKeepsQueue(p: Profile, s: Engine, m: nat, w: nat, h: nat)
    requires Inv(p, s) && s.queue != [] && m == s.queue[0]
    requires |s.rest[m]| > 0 && w == s.rest[m][0] && w < |p.men| && s.husband[w] == Some(h)
    ensures QueuesSingles(|p.men|, Swap(s, m, w, h).wife, Swap(s, m, w, h).queue)
  {
    assert s.wife[h] == Some(w) && h < |p.men|;
    RequeueDumped(|p.men|, s.wife, s.queue, w, h);
  }

  /** Replacing the front of the deque of unmarried men by a married man `h`,
      who becomes unmarried while the front man marries, keeps the deque
      exactly the unmarried men. */
  lemma RequeueDumped(n: nat, wife: seq<Option<nat>>, queue: seq<nat>, w: nat, h: nat)
    requires QueuesSingles(n, wife, queue) && queue != [] && h < n && wife[h].Some?
    ensures QueuesSingles(n, wife[h := None][queue[0] := Some(w)], [h] + queue[1..])
  {
    var m := queue[0];
    var q := [h] + queue[1..];
    var wife' := wife[h := None][m := Some(w)];
    assert h != m && h !in queue;
    assert m !in queue[1..] by {
      assert forall i :: 0 <= i < |queue| - 1 ==> queue[1..][i] == queue[i + 1] != queue[0];
    }
    assert Distinct(q) by {
      forall i, j | 0 <= i < j < |q| ensures q[i] != q[j] {
        assert q[j] == queue[j];
        if i > 0 {
          assert q[i] == queue[i];
        }
      }
    }
    forall m' | 0 <= m' < n ensures m' in q <==> wife'[m'] == None {
      assert m' in q <==> m' == h || m' in queue[1..];
      assert m' in queue[1..] ==> m' in queue;
      assert m' in queue && m' != m ==> m' in queue[1..] by {
        if m' in queue && m' != m {
          var i :| 0 <= i < |queue| && queue[i] == m';
          assert queue[1..][i - 1] == m';
        }
      }
    }
  }

  /** After a swap every wife is still her husband's last proposal. */
  lemma SwapKeepsWivesLast(p: Profile, s: Engine, m: nat, w: nat, h: nat)
    requires Shaped(p, s) && WivesLast(p, s) && s.queue != [] && m < |p.men| && h < |p.men|
    requires |s.rest[m]| > 0 && w == s.rest[m][0]
    requires Shaped(p, Swap(s, m, w, h))
    ensures WivesLast(p, Swap(s, m, w, h))
  {
    var n := |p.men|;
    var s' := Swap(s, m, w, h);
    assert w == p.men[m][n - |s.rest[m]|];
    forall m' | 0 <= m' < n && s'.wife[m'].Some?
      ensures |s'.rest[m']| < n && s'.wife[m'].value == p.men[m'][n - 1 - |s'.rest[m']|]
    {
      if m' != m {
        assert m' != h && s'.wife[m'] == s.wife[m'] && s'.rest[m'] == s.rest[m'];
      }
    }
  }

  /** When a woman leaves her husband for a man she ranks higher, every woman
      proposed to still holds a man at least as good as each of her suitors. */
  lemma SwapKeepsCourted(p: Profile, s: Engine, m: nat, w: nat, h: nat)
    requires Inv(p, s) && s.queue != [] && m == s.queue[0]
    requires |s.rest[m]| > 0 && w == s.rest[m][0] && w < |p.men| && s.husband[w] == Some(h)
    requires IndexOf(p.women[w], m) < IndexOf(p.women[w], h)
    requires Shaped(p, Swap(s, m, w, h))
    ensures Courted(p, Swap(s, m, w, h))
  {
    var n := |p.men|;
    var k := n - |s.rest[m]|;
    assert w == p.men[m][k];
    var s' := Swap(s, m, w, h);
    forall m', i | 0 <= m' < n && 0 <= i < n - |s'.rest[m']|
      ensures Holds(p, s'.husband, m', p.men[m'][i])
    {
      if m' != m || i < k {
        assert Holds(p, s.husband, m', p.men[m'][i]);
      }
    }
  }

  /** A rejection changes only the proposer's list, and the woman already
      holds a man she ranks above him. */
  lemma RejectKeepsInv(p: Profile, s: Engine, m: nat, w: nat, h: nat)
    requires Inv(p, s) && s.queue != [] && m == s.queue[0]
    requires |s.rest[m]| > 0 && w == s.rest[m][0] && w < |p.men| && s.husband[w] == Some(h)
    requires Prefers(p.women[w], h, m)
    requires Shaped(p, Reject(s, m))
    ensures Inv(p, Reject(s, m))
  {
    var s' := Reject(s, m);
    assert s'.queue == s.queue;
    assert s.wife[m] == None;
    RejectKeepsCourted(p, s, m, w, h);
  }

  /** After a rejection, every woman a man has proposed to still holds him or
      a man she ranks higher: the woman who rejected holds her husband. */
  lemma RejectKeepsCourted(p: Profile, s: Engine, m: nat, w: nat, h: nat)
    requires Shaped(p, s) && Courted(p, s) && s.queue != [] && m < |p.men|
    requires |s.rest[m]| > 0 && w == s.rest[m][0] && s.husband[w] == Some(h)
    requires Prefers(p.women[w], h, m)
    requires Shaped(p, Reject(s, m))
    ensures Courted(p, Reject(s, m))
  {
    var n := |p.men|;
    var k := n - |s.rest[m]|;
    assert w == p.men[m][k];
    var s' := Reject(s, m);
    forall m', i | 0 <= m' < n && 0 <= i < n - |s'.rest[m']|
      ensures Holds(p, s'.husband, m', p.men[m'][i])
    {
      if m' != m || i < k {
        assert Holds(p, s.husband, m', p.men[m'][i]);
      }
    }
  }


  /** At the end, a woman whom a man ranks above his wife holds a husband she
      ranks above him. */
  lemma {:induction false} NoBlockingAt(p: Profile, s: Engine, m: nat, w: nat)
    requires Inv(p, s) && m < |p.men| && w < |p.men| && s.wife[m].Some?
    requires Prefers(p.men[m], w, s.wife[m].value)
    ensures s.husband[w].Some? && Prefers(p.women[w], s.husband[w].value, m)
  {
    var n := |p.men|;
    var k := n - |s.rest[m]|;
    IndexOfAt(p.men[m], k - 1);
    var i := IndexOf(p.men[m], w);
    assert Holds(p, s.husband, m, p.men[m][i]);
  }

  /** Once the deque is empty every man and woman is married and no man and
      woman prefer each other to their partners: the matching is stable. */
  lemma TerminalMatchingIsStable(p: Profile, s: Engine)
    requires Inv(p, s) && s.queue == []
    ensures Perfect(|p.men|, s.wife, s.husband)
    ensures Stable(p, s.wife, s.husband)
  {
    var n := |p.men|;
    assert forall m :: 0 <= m < n ==> s.wife[m].Some?;
    AllWedTogether(n, s.wife, s.husband);
    forall m, w | 0 <= m < n && 0 <= w < n && Prefers(p.men[m], w, s.wife[m].value)
      ensures s.husband[w].Some? && Prefers(p.women[w], s.husband[w].value, m)
    {
      NoBlockingAt(p, s, m, w);
    }
  }
}
