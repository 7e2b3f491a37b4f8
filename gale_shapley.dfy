/** The imperative side of GaleShapeleyAlgo/main.py: the men's and women's
    records as flat arrays indexed by id, the deque of unmarried men, one
    proposal as an in-place update, the driving loop of `main`, and
    `count_single_men`. Each man's and woman's record is split into its
    fields: `rest[m]` is `man['preferences']`, `wife[m]` is `man['wife']`,
    `husband[w]` is `woman['husband']`. */
module GaleShapley {
  import opened Collections
  import opened Preferences
  import opened Matching

  class Registry {
    /** The rankings the run was started from; only the women's are read. */
    ghost const profile: Profile
    const womenPrefs: seq<seq<nat>>
    const rest: array<seq<nat>>
    const wife: array<Option<nat>>
    const husband: array<Option<nat>>
    var queue: seq<nat>

    /** The contents of the records and of the deque as a value. */
    ghost function State(): Engine
      reads this`queue, rest, wife, husband
    {
      Engine(rest[..], wife[..], husband[..], queue)
    }

    ghost predicate Valid()
      reads this, rest, wife, husband
    {
      && wife != husband
      && womenPrefs == profile.women
      && Inv(profile, State())
    }

    /** `init_women(n)` and `init_men(n)`: every man and woman unmarried, each
        man holding his full ranking, and all men queued in id order. */
    constructor (menPrefs: seq<seq<nat>>, womenPrefs: seq<seq<nat>>)
      requires ValidProfile(Profile(menPrefs, womenPrefs))
      ensures Valid()
      ensures profile == Profile(menPrefs, womenPrefs)
      ensures State() == Start(profile)
      ensures fresh(rest) && fresh(wife) && fresh(husband)
    {
      var n := |menPrefs|;
      profile := Profile(menPrefs, womenPrefs);
      this.womenPrefs := womenPrefs;
      rest := new seq<nat>[n](m requires 0 <= m < n => menPrefs[m]);
      wife := new Option<nat>[n](_ => None);
      husband := new Option<nat>[n](_ => None);
      queue := Range(n);
      new;
      assert rest[..] == menPrefs;
      assert wife[..] == seq(n, _ => None) && husband[..] == seq(n, _ => None);
      assert State() == Start(profile);
      StartInv(profile);
    }

    /** Links man `m` and woman `w` (lines 95-96 and 104-105). */
    method SetPartners(m: nat, w: nat)
      requires wife != husband && m < wife.Length && w < husband.Length
      modifies wife, husband
      ensures wife[..] == old(wife[..])[m := Some(w)]
      ensures husband[..] == old(husband[..])[w := Some(m)]
    {
      husband[w] := Some(m);
      wife[m] := Some(w);
    }

    /** A dumped husband loses his wife (line 103). */
    method ClearWife(h: nat)
      requires h < wife.Length
      modifies wife
      ensures wife[..] == old(wife[..])[h := None]
    {
      wife[h] := None;
    }

    /** One pass of the loop body (lines 74-110): pop the front man, strike
        the first woman off his list, and let her accept, swap or reject. */
    method Propose()
      requires Valid() && queue != []
      modifies this, rest, wife, husband
      ensures Valid()
      ensures State() == Step(profile, old(State()))
    {
      ghost var s := State();
      var m := queue[0];
      queue := queue[1..];
      // the source skips a man who is already married; none ever is
      assert wife[m] == None;
      // the source raises on an empty list; an unmarried man never has one
      SingleManHasChoice(profile, s, m);
      var w := rest[m][0];
      assert w == profile.men[m][|profile.men| - |rest[m]|];
      rest[m] := rest[m][1..];
      assert rest[..] == s.rest[m := s.rest[m][1..]];
      match husband[w] {
        case None =>
          SetPartners(m, w);
          assert State() == Accept(s, m, w);
        case Some(h) =>
          if IndexOf(womenPrefs[w], m) < IndexOf(womenPrefs[w], h) {
            ClearWife(h);
            SetPartners(m, w);
            queue := [h] + queue;
            assert State() == Swap(s, m, w, h);
          } else {
            queue := [m] + queue;
            assert State() == Reject(s, m);
          }
      }
      StepInv(profile, s, State());
    }
  }

  /** `main`'s matching: build the records, let men propose until the deque
      of unmarried men is empty, and report each man's wife and each woman's
      husband. `runs` is the trace of the run: the initial state, one state
      per proposal, each the `Step` of the one before, ending with an empty
      deque. Everyone ends up married, no man and woman prefer each other to
      their partners, and at most n * n proposals are made. */
  method Match(menPrefs: seq<seq<nat>>, womenPrefs: seq<seq<nat>>)
      returns (wives: seq<Option<nat>>, husbands: seq<Option<nat>>, ghost runs: seq<Engine>)
    requires ValidProfile(Profile(menPrefs, womenPrefs))
    ensures Run(Profile(menPrefs, womenPrefs), runs) && runs[|runs| - 1].queue == []
    ensures wives == runs[|runs| - 1].wife && husbands == runs[|runs| - 1].husband
    ensures |runs| - 1 <= |menPrefs| * |menPrefs|
    ensures |wives| == |menPrefs| && |husbands| == |menPrefs|
    ensures Perfect(|menPrefs|, wives, husbands)
    ensures Stable(Profile(menPrefs, womenPrefs), wives, husbands)
  {
    var n := |menPrefs|;
    var r := new Registry(menPrefs, womenPrefs);
    ghost var p := r.profile;
    StartInv(p);
    runs := [r.State()];
    assert Run(p, runs);
    while r.queue != []
      invariant fresh(r.rest) && fresh(r.wife) && fresh(r.husband)
      invariant r.Valid() && p == r.profile && p == Profile(menPrefs, womenPrefs)
      invariant Run(p, runs) && runs[|runs| - 1] == r.State()
      invariant |runs| - 1 + Remaining(r.State().rest) == n * n
      decreases Remaining(r.State().rest)
    {
      ghost var before := r.State();
      r.Propose();
      StepConsumesFront(p, before);
      assert Follows(p, before, r.State());
      RunExtend(p, runs, r.State());
      runs := runs + [r.State()];
    }
    TerminalMatchingIsStable(p, r.State());
    wives := r.wife[..];
    husbands := r.husband[..];
  }

  /** The men whose `wife` is None. */
  ghost function Singles(wives: seq<Option<nat>>, k: nat): set<nat>
    requires k <= |wives|
  {
    set m | 0 <= m < k && wives[m] == None
  }

  /** `count_single_men`: the number of men without a wife; zero exactly when
      every man is married. */
  method CountSingleMen(wives: seq<Option<nat>>) returns (count: nat)
    ensures count == |Singles(wives, |wives|)|
    ensures count == 0 <==> forall m :: 0 <= m < |wives| ==> wives[m].Some?
  {
    count := 0;
    for i := 0 to |wives|
      invariant count == |Singles(wives, i)|
    {
      if wives[i] == None {
        assert Singles(wives, i + 1) == Singles(wives, i) + {i};
        count := count + 1;
      } else {
        assert Singles(wives, i + 1) == Singles(wives, i);
      }
    }
    if forall m :: 0 <= m < |wives| ==> wives[m].Some? {
      assert Singles(wives, |wives|) == {};
    } else {
      var m :| 0 <= m < |wives| && wives[m] == None;
      assert m in Singles(wives, |wives|);
    }
  }
}
