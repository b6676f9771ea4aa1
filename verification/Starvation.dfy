/** When dispatch keeps a source waiting for good, and when it cannot (commands/autopilot-fanout.ts). */
module Starvation {
  import opened Wrappers
  import opened Sorting
  import opened Fanout

  // ----- without stamps there is starvation

  /** The rows after a tick whose jobs may fail: only a dispatched source that succeeds is stamped. */
  ghost predicate Aftermath(sources: seq<Source>, tick: Tick, succeeded: set<nat>, next: seq<Source>) {
    && |next| == |sources|
    && forall i: nat | i < |sources| ::
         if i in succeeded && sources[i] in Select(sources, tick).dispatch
         then next[i].id == sources[i].id && next[i].lastFullCycle.At? && next[i].lastFullCycle.ms >= tick.now
         else next[i] == sources[i]
  }

  /** Any sequence of ticks; `succeeded[k]` holds the positions whose cycles would succeed at tick `k`. */
  ghost predicate Attempts(states: seq<seq<Source>>, ticks: seq<Tick>, succeeded: seq<set<nat>>) {
    && |states| == |ticks| == |succeeded|
    && (forall k | 0 <= k < |ticks| :: ticks[k].fanoutMax >= 1)
    && (forall k | 0 <= k < |ticks| - 1 ::
          ticks[k].now <= ticks[k + 1].now && Aftermath(states[k], ticks[k], succeeded[k], states[k + 1]))
  }

  /** At no tick do the positions in `stuck` succeed, leave the queue, or fit under the cap. */
  ghost predicate Stuck(stuck: set<nat>, sources: seq<Source>, ticks: seq<Tick>, succeeded: seq<set<nat>>)
    requires |ticks| == |succeeded|
  {
    forall k | 0 <= k < |ticks| ::
      && |stuck| >= ticks[k].fanoutMax && stuck !! succeeded[k]
      && forall i: nat | i in stuck && i < |sources| :: Judge(sources[i], ticks[k]) == Eligible
  }

  /**
    The stamp is what keeps the order moving: a cap's worth of older sources that stay eligible and
    never succeed come back to the front at every tick, and nothing behind them is ever dispatched.
  */
  lemma {:induction false} StuckSourcesStarveOthers(states: seq<seq<Source>>, ticks: seq<Tick>, succeeded: seq<set<nat>>,
                                                    stuck: set<nat>, p: nat, k: nat)
    requires Attempts(states, ticks, succeeded) && k < |ticks| && DistinctIds(states[0]) && p < |states[0]|
    requires stuck <= Ahead(states[0], p) && Stuck(stuck, states[0], ticks, succeeded)
    ensures |states[k]| == |states[0]| && DistinctIds(states[k])
    ensures states[k][p] == states[0][p] && forall i | i in stuck :: i < |states[k]| && states[k][i] == states[0][i]
    ensures states[k][p] !in Select(states[k], ticks[k]).dispatch
  {
    hide Select, Judge, Older;
    if k > 0 {
      StuckSourcesStarveOthers(states, ticks, succeeded, stuck, p, k - 1);
      AftermathDistinct(states[k - 1], ticks[k - 1], succeeded[k - 1], states[k]);
      assert Aftermath(states[k - 1], ticks[k - 1], succeeded[k - 1], states[k - 1 + 1]);
    }
    var ahead := EligibleAhead(states[k], p, ticks[k]);
    forall i | i in stuck ensures i in ahead {
      assert i in Ahead(states[0], p);
    }
    CardinalityLe(stuck, ahead);
    DispatchedExactly(states[k], ticks[k], p);
  }

  lemma AftermathDistinct(sources: seq<Source>, tick: Tick, succeeded: set<nat>, next: seq<Source>)
    requires DistinctIds(sources) && Aftermath(sources, tick, succeeded, next)
    ensures DistinctIds(next)
  {
    hide Select;
    forall i, j | 0 <= i < j < |next| ensures next[i].id != next[j].id {
      assert next[i].id == sources[i].id && next[j].id == sources[j].id;
    }
  }

  /** With the cooldown disabled, older eligible sources whose jobs never succeed are stuck for good. */
  lemma FailingSourcesStarveOthers(states: seq<seq<Source>>, ticks: seq<Tick>, succeeded: seq<set<nat>>,
                                   failing: set<nat>, p: nat)
    requires Attempts(states, ticks, succeeded) && ticks != [] && DistinctIds(states[0]) && p < |states[0]|
    requires failing <= EligibleAhead(states[0], p, ticks[0])
    requires forall k | 0 <= k < |ticks| ::
               && |failing| >= ticks[k].fanoutMax && failing !! succeeded[k]
               && ticks[k].floorMin == ticks[0].floorMin && ticks[k].opts.baseMin <= 0
    ensures forall k | 0 <= k < |ticks| ::
              |states[k]| == |states[0]| && states[k][p] == states[0][p]
              && states[k][p] !in Select(states[k], ticks[k]).dispatch
  {
    hide Select;
    forall k | 0 <= k < |ticks| ensures ticks[0].now <= ticks[k].now {
      AttemptsTakeTime(states, ticks, succeeded, k);
    }
    forall k, i: nat | 0 <= k < |ticks| && i in failing && i < |states[0]|
      ensures Judge(states[0][i], ticks[k]) == Eligible
    {
      assert i in EligibleAhead(states[0], p, ticks[0]) && ticks[0].now <= ticks[k].now;
    }
    assert Stuck(failing, states[0], ticks, succeeded);
    forall k: nat | k < |ticks|
      ensures |states[k]| == |states[0]| && states[k][p] == states[0][p]
      ensures states[k][p] !in Select(states[k], ticks[k]).dispatch
    {
      StuckSourcesStarveOthers(states, ticks, succeeded, failing, p, k);
    }
  }

  lemma {:induction false} AttemptsTakeTime(states: seq<seq<Source>>, ticks: seq<Tick>, succeeded: seq<set<nat>>, k: nat)
    requires Attempts(states, ticks, succeeded) && k < |ticks|
    ensures ticks[0].now <= ticks[k].now
  {
    if k > 0 {
      AttemptsTakeTime(states, ticks, succeeded, k - 1);
      assert ticks[k - 1].now <= ticks[k - 1 + 1].now;
    }
  }

  const FAILING := Source("a", Absent, Absent)
  const WAITING := Source("b", Absent, Absent)
  const ONE_A_TICK := Tick(0, 60, 1, map[], CooldownOpts(0, 120))

  /** Runs of every length in which one source is dispatched and fails each time, and another waits throughout. */
  lemma StarvingRun(n: nat)
    ensures exists states, ticks, succeeded ::
              && Attempts(states, ticks, succeeded) && |ticks| == n
              && forall k | 0 <= k < n ::
                   && states[k] == [FAILING, WAITING] && succeeded[k] == {}
                   && Select(states[k], ticks[k]).dispatch == [FAILING] && Judge(WAITING, ticks[k]) == Eligible
  {
    hide Select;
    var sources := [FAILING, WAITING];
    var states, ticks := seq(n, _ => sources), seq(n, _ => ONE_A_TICK);
    var none: seq<set<nat>> := seq(n, _ => {});
    FirstOfTwo();
    assert Aftermath(sources, ONE_A_TICK, {}, sources);
    assert Attempts(states, ticks, none);
  }

  lemma FirstOfTwo()
    ensures Select([FAILING, WAITING], ONE_A_TICK).dispatch == [FAILING] && Judge(WAITING, ONE_A_TICK) == Eligible
  {
    var both := [FAILING, WAITING];
    assert both[..1] == [FAILING] && [FAILING][..0] == [];
    assert Judge(FAILING, ONE_A_TICK) == Eligible;
    assert Judged([FAILING], Eligible, ONE_A_TICK) == [FAILING];
    assert Judged(both, Eligible, ONE_A_TICK) == both;
    assert both[1..] == [WAITING] && [WAITING][1..] == [];
    assert Older(FAILING, WAITING);
    assert Sort(Older, [WAITING]) == [WAITING];
    assert Sort(Older, both) == both;
  }

  // ----- runs with their failures on record

  /** `histories[k][i]` holds the failure times of position `i` that tick `k` can read. */
  datatype Run = Run(states: seq<seq<Source>>, ticks: seq<Tick>, succeeded: seq<set<nat>>, histories: seq<seq<seq<int>>>)

  ghost predicate Reads(sources: seq<Source>, tick: Tick, histories: seq<seq<int>>) {
    |histories| == |sources| && forall i | 0 <= i < |sources| :: ReadsHistory(tick, sources[i].id, histories[i])
  }

  /** A dispatched source that fails has one more failure on record before the next tick; nothing else changes. */
  ghost predicate Grown(sources: seq<Source>, tick: Tick, succeeded: set<nat>, before: seq<seq<int>>, after: seq<seq<int>>,
                        until: int)
  {
    && |before| == |after| == |sources|
    && forall i: nat | i < |sources| ::
         if sources[i] in Select(sources, tick).dispatch && i !in succeeded
         then after[i] != [] && after[i][..|after[i]| - 1] == before[i] && tick.now <= after[i][|after[i]| - 1] <= until
         else after[i] == before[i]
  }

  predicate SameKnobs(tick: Tick, at: Tick) {
    tick.fanoutMax == at.fanoutMax && tick.floorMin == at.floorMin && tick.opts == at.opts
  }

  /** A run from the given rows and failures, no earlier than `at` and with its knobs. */
  ghost predicate Recorded(r: Run, sources: seq<Source>, history: seq<seq<int>>, at: Tick) {
    && Attempts(r.states, r.ticks, r.succeeded) && |r.histories| == |r.ticks|
    && (r.ticks != [] ==> r.states[0] == sources && r.histories[0] == history)
    && (forall k | 0 <= k < |r.ticks| ::
          SameKnobs(r.ticks[k], at) && at.now <= r.ticks[k].now && Reads(r.states[k], r.ticks[k], r.histories[k]))
    && (forall k | 0 <= k < |r.ticks| - 1 ::
          Grown(r.states[k], r.ticks[k], r.succeeded[k], r.histories[k], r.histories[k + 1], r.ticks[k + 1].now))
  }

  /** Source `p` is stale and out of cooldown at `at`, and all failures on record are from before. */
  ghost predicate Start(sources: seq<Source>, history: seq<seq<int>>, at: Tick, p: nat) {
    && DistinctIds(sources) && |history| == |sources| && p < |sources|
    && at.fanoutMax >= 1 && at.floorMin >= 1 && at.opts.capMin >= 1
    && Judge(sources[p], at) == Eligible && ReadsHistory(at, sources[p].id, history[p])
    && AllBy(history, at.now)
  }

  /** No failure on record is later than `t`. */
  ghost predicate AllBy(histories: seq<seq<int>>, t: int) {
    forall i, j | 0 <= i < |histories| && 0 <= j < |histories[i]| :: histories[i][j] <= t
  }

  ghost predicate ServedAt(r: Run, p: nat, k: nat)
    requires k < |r.ticks| && |r.states| == |r.ticks|
  {
    p < |r.states[k]| && r.states[k][p] in Select(r.states[k], r.ticks[k]).dispatch
  }

  ghost predicate Serves(r: Run, p: nat) {
    |r.states| == |r.ticks| && exists k: nat :: k < |r.ticks| && ServedAt(r, p, k)
  }

  ghost function Dispatched(r: Run, k: nat): set<nat>
    requires k < |r.ticks| && |r.states| == |r.ticks|
  {
    Positions(r.states[k], Select(r.states[k], r.ticks[k]).dispatch)
  }

  // ----- while a source waits

  /** One tick: the waiting source and whoever stays ahead of it are as they were. */
  lemma AheadStays(sources: seq<Source>, tick: Tick, succeeded: set<nat>, next: seq<Source>, p: nat, i: nat)
    requires p < |sources| && Aftermath(sources, tick, succeeded, next) && tick.floorMin >= 1
    requires IsSourceStale(sources[p], tick.now, tick.floorMin) && sources[p] !in Select(sources, tick).dispatch
    requires i in Ahead(next, p)
    ensures i in Ahead(sources, p) && next[i] == sources[i]
    ensures !(i in succeeded && sources[i] in Select(sources, tick).dispatch)
  {
    hide Select;
    assert next[p] == sources[p];
  }

  /** The waiting source stays eligible, and the sources ahead of it are among those ahead at the start. */
  lemma {:induction false} StillWaiting(r: Run, sources: seq<Source>, history: seq<seq<int>>, at: Tick, p: nat, k: nat)
    requires Recorded(r, sources, history, at) && Start(sources, history, at, p) && !Serves(r, p) && k < |r.ticks|
    ensures |r.states[k]| == |sources| && DistinctIds(r.states[k]) && r.states[k][p] == sources[p]
    ensures r.histories[k][p] == history[p] && Judge(r.states[k][p], r.ticks[k]) == Eligible
    ensures r.states[k][p] !in Select(r.states[k], r.ticks[k]).dispatch
    ensures forall i | i in Ahead(r.states[k], p) :: i in Ahead(sources, p) && r.states[k][i] == sources[i]
  {
    hide Select, Judge, Older, IsSourceStale;
    if k > 0 {
      var j := k - 1;
      StillWaiting(r, sources, history, at, p, j);
      assert Aftermath(r.states[j], r.ticks[j], r.succeeded[j], r.states[j + 1]);
      assert Grown(r.states[j], r.ticks[j], r.succeeded[j], r.histories[j], r.histories[j + 1], r.ticks[j + 1].now);
      AftermathDistinct(r.states[j], r.ticks[j], r.succeeded[j], r.states[k]);
      EligibleIsStale(r.states[j][p], r.ticks[j]);
      forall i | i in Ahead(r.states[k], p) ensures i in Ahead(sources, p) && r.states[k][i] == sources[i] {
        AheadStays(r.states[j], r.ticks[j], r.succeeded[j], r.states[k], p, i);
      }
    }
    assert Reads(r.states[k], r.ticks[k], r.histories[k]);
    StaysEligible(sources[p], history[p], at, r.ticks[k]);
    assert !ServedAt(r, p, k);
  }

  lemma EligibleIsStale(s: Source, tick: Tick)
    requires Judge(s, tick) == Eligible
    ensures IsSourceStale(s, tick.now, tick.floorMin)
  {
  }

  /** Whoever is dispatched and fails is given up on; nobody is taken back. */
  ghost predicate GivesUp(out: set<nat>, more: set<nat>, gone: set<nat>, succeeded: set<nat>) {
    out <= more && forall i | i in gone :: i in succeeded || i in more
  }

  /**
    What may be left ahead of the source: `outs[k]` holds the positions given up on before tick `k`,
    at most `m` of which are dispatched at it; whoever fails is given up on.
  */
  ghost predicate GivenUp(r: Run, outs: seq<set<nat>>, m: nat)
    requires |r.states| == |r.ticks| == |r.succeeded|
  {
    && |outs| == |r.ticks|
    && (forall k: nat | k < |r.ticks| :: |outs[k] * Dispatched(r, k)| <= m)
    && (forall k: nat | k < |r.ticks| - 1 :: GivesUp(outs[k], outs[k + 1], Dispatched(r, k), r.succeeded[k]))
  }

  lemma {:induction false} SplitCard(a: set<nat>, b: set<nat>)
    ensures |a| == |a - b| + |a * b|
  {
    assert a == (a - b) + (a * b);
  }

  /** One waiting tick costs at least `f - m` of the others. */
  lemma OthersShrink(sources: seq<Source>, tick: Tick, succeeded: set<nat>, next: seq<Source>, p: nat,
                     out: set<nat>, more: set<nat>, m: nat)
    requires DistinctIds(sources) && p < |sources| && Aftermath(sources, tick, succeeded, next)
    requires tick.fanoutMax >= 1 && tick.floorMin >= 1
    requires Judge(sources[p], tick) == Eligible && sources[p] !in Select(sources, tick).dispatch
    requires var gone := Positions(sources, Select(sources, tick).dispatch);
             |out * gone| <= m && GivesUp(out, more, gone, succeeded)
    ensures |Ahead(next, p) - more| + tick.fanoutMax <= |Ahead(sources, p) - out| + m
  {
    hide Select, Judge, Older, IsSourceStale;
    var gone := Positions(sources, Select(sources, tick).dispatch);
    DispatchedAhead(sources, tick, p);
    EligibleIsStale(sources[p], tick);
    var left, before := Ahead(next, p) - more, Ahead(sources, p) - out;
    forall i | i in left ensures i in before && i !in gone - out {
      AheadStays(sources, tick, succeeded, next, p, i);
    }
    CardinalityLe(left, before - (gone - out));
    SplitCard(before, gone - out);
    SplitCard(gone, out);
    assert before * (gone - out) == gone - out;
    assert gone * out == out * gone;
  }

  lemma {:induction false} WaitingShrinks(r: Run, sources: seq<Source>, history: seq<seq<int>>, at: Tick, p: nat,
                                          outs: seq<set<nat>>, m: nat, k: nat)
    requires Recorded(r, sources, history, at) && Start(sources, history, at, p) && !Serves(r, p) && k < |r.ticks|
    requires GivenUp(r, outs, m) && m <= at.fanoutMax
    ensures |r.states[k]| == |sources|
    ensures |Ahead(r.states[k], p) - outs[k]| + Times(k, at.fanoutMax - m) <= |Ahead(sources, p) - outs[0]|
  {
    hide Select, Judge, Older, Ahead;
    StillWaiting(r, sources, history, at, p, k);
    if k > 0 {
      var j := k - 1;
      WaitingShrinks(r, sources, history, at, p, outs, m, j);
      StillWaiting(r, sources, history, at, p, j);
      assert Aftermath(r.states[j], r.ticks[j], r.succeeded[j], r.states[j + 1]);
      assert GivesUp(outs[j], outs[j + 1], Dispatched(r, j), r.succeeded[j]);
      assert |outs[j] * Dispatched(r, j)| <= m;
      OthersShrink(r.states[j], r.ticks[j], r.succeeded[j], r.states[k], p, outs[j], outs[k], m);
    }
  }

  /** `n` times `x`. */
  function Times(n: nat, x: nat): nat {
    if n == 0 then 0 else Times(n - 1, x) + x
  }

  lemma {:induction false} TimesGrows(n: nat, x: nat)
    requires x >= 1
    ensures Times(n, x) >= n
  {
    if n > 0 {
      TimesGrows(n - 1, x);
    }
  }

  /** So a source that is never served cannot have waited long. */
  lemma {:induction false} WaitIsShort(r: Run, sources: seq<Source>, history: seq<seq<int>>, at: Tick, p: nat, outs: seq<set<nat>>, m: nat)
    requires Recorded(r, sources, history, at) && Start(sources, history, at, p) && !Serves(r, p) && r.ticks != []
    requires GivenUp(r, outs, m) && m <= at.fanoutMax
    ensures Times(|r.ticks|, at.fanoutMax - m) <= |Ahead(sources, p) - outs[0]|
  {
    hide Select, Judge, Older, Ahead;
    var last := |r.ticks| - 1;
    WaitingShrinks(r, sources, history, at, p, outs, m, last);
    StillWaiting(r, sources, history, at, p, last);
    DispatchedAhead(r.states[last], r.ticks[last], p);
    var gone, left := Dispatched(r, last), Ahead(r.states[last], p) - outs[last];
    assert |outs[last] * gone| <= m;
    forall i | i in gone - outs[last] ensures i in left {
      assert i in EligibleAhead(r.states[last], p, r.ticks[last]);
    }
    CardinalityLe(gone - outs[last], left);
    SplitCard(gone, outs[last]);
    assert gone * outs[last] == outs[last] * gone;
  }

  // ----- failures inside a fixed set

  ghost predicate FailsOnlyIn(r: Run, failing: set<nat>) {
    && |r.states| == |r.ticks| == |r.succeeded|
    && forall k, i: nat | 0 <= k < |r.ticks| && i < |r.states[k]| && i !in failing :: i in r.succeeded[k]
  }

  /**
    With N sources, a cap of f and m < f failing sources ahead of it, a source that is stale and out
    of cooldown is dispatched within (N - m)/(f - m) ticks, rounded up.
  */
  lemma ServedDespiteFailures(r: Run, sources: seq<Source>, history: seq<seq<int>>, at: Tick, failing: set<nat>, p: nat)
    requires Recorded(r, sources, history, at) && Start(sources, history, at, p) && FailsOnlyIn(r, failing)
    requires var m := |failing * Ahead(sources, p)|;
             m < at.fanoutMax && Times(|r.ticks|, at.fanoutMax - m) >= |sources| - m
    ensures Serves(r, p)
  {
    hide Recorded, Serves, FailsOnlyIn, Ahead, Judge, Times;
    var ahead := Ahead(sources, p);
    AheadBound(sources, p);
    CardinalityLe(failing * ahead, ahead);
    SplitCard(ahead, failing);
    assert ahead * failing == failing * ahead;
    if !Serves(r, p) {
      WaitBehindFailing(r, sources, history, at, failing, p);
    }
  }

  lemma {:induction false} WaitBehindFailing(r: Run, sources: seq<Source>, history: seq<seq<int>>, at: Tick, failing: set<nat>, p: nat)
    requires Recorded(r, sources, history, at) && Start(sources, history, at, p) && FailsOnlyIn(r, failing) && !Serves(r, p)
    requires |failing * Ahead(sources, p)| < at.fanoutMax
    ensures Times(|r.ticks|, at.fanoutMax - |failing * Ahead(sources, p)|) <= |Ahead(sources, p) - failing|
  {
    hide Select, Judge, Older, Ahead, Serves;
    var m := |failing * Ahead(sources, p)|;
    var outs := seq(|r.ticks|, _ => failing);
    forall k: nat | k < |r.ticks| ensures |outs[k] * Dispatched(r, k)| <= m {
      FewFailingDispatched(r, sources, history, at, failing, p, k);
    }
    if r.ticks != [] {
      WaitIsShort(r, sources, history, at, p, outs, m);
    }
  }

  lemma FewFailingDispatched(r: Run, sources: seq<Source>, history: seq<seq<int>>, at: Tick, failing: set<nat>, p: nat, k: nat)
    requires Recorded(r, sources, history, at) && Start(sources, history, at, p) && !Serves(r, p) && k < |r.ticks|
    ensures |failing * Dispatched(r, k)| <= |failing * Ahead(sources, p)|
  {
    hide Select, Judge, Older;
    StillWaiting(r, sources, history, at, p, k);
    DispatchedAhead(r.states[k], r.ticks[k], p);
    CardinalityLe(failing * Dispatched(r, k), failing * Ahead(sources, p));
  }

  /** Every run of at least `n` ticks that fails only inside the set serves the source. */
  ghost predicate AlwaysServed(sources: seq<Source>, history: seq<seq<int>>, at: Tick, failing: set<nat>, p: nat, n: nat) {
    forall r: Run | Recorded(r, sources, history, at) && FailsOnlyIn(r, failing) && |r.ticks| >= n :: Serves(r, p)
  }

  /**
    Freedom from starvation, exactly: a source that is stale and out of cooldown is dispatched in
    every long enough run that fails only inside a set if and only if fewer than the cap's worth of
    the sources ahead of it are in that set.
  */
  lemma ServedExactly(sources: seq<Source>, history: seq<seq<int>>, at: Tick, failing: set<nat>, p: nat)
    requires Start(sources, history, at, p)
    ensures (exists n: nat :: AlwaysServed(sources, history, at, failing, p, n))
            <==> |failing * Ahead(sources, p)| < at.fanoutMax
  {
    hide Recorded, Serves, FailsOnlyIn, Ahead, Judge;
    var m := |failing * Ahead(sources, p)|;
    if m < at.fanoutMax {
      forall r: Run | Recorded(r, sources, history, at) && FailsOnlyIn(r, failing) && |r.ticks| >= |sources|
        ensures Serves(r, p)
      {
        TimesGrows(|r.ticks|, at.fanoutMax - m);
        ServedDespiteFailures(r, sources, history, at, failing, p);
      }
      assert AlwaysServed(sources, history, at, failing, p, |sources|);
    } else {
      forall n: nat ensures !AlwaysServed(sources, history, at, failing, p, n) {
        var r := SlowRun(sources, history, at, failing, p, n);
      }
    }
  }

  // ----- the run that starves

  /** Ticks so far apart that every failure has left the window by the next one. */
  function TimeAt(at: Tick, k: nat): int {
    if k == 0 then at.now + at.opts.capMin * MS_PER_MIN else TimeAt(at, k - 1) + at.opts.capMin * MS_PER_MIN
  }

  function TickAt(at: Tick, k: nat): Tick {
    at.(now := TimeAt(at, k), failures := map[])
  }

  /** Everything dispatched outside the set succeeds, everything inside it fails. */
  function RowsAfter(sources: seq<Source>, tick: Tick, failing: set<nat>): (r: seq<Source>)
    ensures |r| == |sources|
  {
    var dispatch := Select(sources, tick).dispatch;
    seq(|sources|, i requires 0 <= i < |sources| =>
      if i !in failing && sources[i] in dispatch then sources[i].(lastFullCycle := At(tick.now)) else sources[i])
  }

  function FailuresAfter(sources: seq<Source>, tick: Tick, failing: set<nat>, before: seq<seq<int>>): (r: seq<seq<int>>)
    requires |before| == |sources|
    ensures |r| == |sources|
  {
    var dispatch := Select(sources, tick).dispatch;
    seq(|sources|, i requires 0 <= i < |sources| =>
      if i in failing && sources[i] in dispatch then before[i] + [tick.now] else before[i])
  }

  function RowsAt(sources: seq<Source>, at: Tick, failing: set<nat>, k: nat): (r: seq<Source>)
    ensures |r| == |sources|
  {
    if k == 0 then sources else RowsAfter(RowsAt(sources, at, failing, k - 1), TickAt(at, k - 1), failing)
  }

  function FailuresAt(sources: seq<Source>, at: Tick, failing: set<nat>, history: seq<seq<int>>, k: nat): (r: seq<seq<int>>)
    requires |history| == |sources|
    ensures |r| == |sources|
  {
    if k == 0 then history
    else FailuresAfter(RowsAt(sources, at, failing, k - 1), TickAt(at, k - 1), failing,
                       FailuresAt(sources, at, failing, history, k - 1))
  }

  lemma StepIsAftermath(sources: seq<Source>, tick: Tick, failing: set<nat>, succeeded: set<nat>,
                        before: seq<seq<int>>, until: int)
    requires |before| == |sources| && tick.now <= until
    requires forall i: nat | i < |sources| :: i in succeeded <==> i !in failing
    ensures Aftermath(sources, tick, succeeded, RowsAfter(sources, tick, failing))
    ensures Grown(sources, tick, succeeded, before, FailuresAfter(sources, tick, failing, before), until)
  {
    hide Select;
    var after := FailuresAfter(sources, tick, failing, before);
    forall i: nat | i < |sources| && sources[i] in Select(sources, tick).dispatch && i !in succeeded
      ensures after[i] != [] && after[i][..|after[i]| - 1] == before[i] && after[i][|after[i]| - 1] == tick.now
    {
      assert after[i] == before[i] + [tick.now];
    }
  }

  /** Every failure on record is a full window old. */
  lemma {:induction false} FailuresAreOld(sources: seq<Source>, at: Tick, failing: set<nat>, history: seq<seq<int>>, k: nat)
    requires |history| == |sources| && at.opts.capMin >= 1
    requires AllBy(history, at.now)
    ensures AllBy(FailuresAt(sources, at, failing, history, k), TimeAt(at, k) - at.opts.capMin * MS_PER_MIN)
    ensures TimeAt(at, k) >= at.now
  {
    hide RowsAt, Select;
    if k > 0 {
      FailuresAreOld(sources, at, failing, history, k - 1);
      assert at.opts.capMin * MS_PER_MIN >= 0;
      AllByLater(FailuresAt(sources, at, failing, history, k - 1), TimeAt(at, k - 1) - at.opts.capMin * MS_PER_MIN,
                 TimeAt(at, k - 1));
      FailuresGrow(RowsAt(sources, at, failing, k - 1), TickAt(at, k - 1), failing, FailuresAt(sources, at, failing, history, k - 1));
    }
  }

  lemma AllByLater(histories: seq<seq<int>>, t: int, u: int)
    requires AllBy(histories, t) && t <= u
    ensures AllBy(histories, u)
  {
  }

  lemma FailuresGrow(sources: seq<Source>, tick: Tick, failing: set<nat>, before: seq<seq<int>>)
    requires |before| == |sources|
    requires AllBy(before, tick.now)
    ensures AllBy(FailuresAfter(sources, tick, failing, before), tick.now)
  {
    hide Select;
    var after := FailuresAfter(sources, tick, failing, before);
    forall i, j | 0 <= i < |after| && 0 <= j < |after[i]| ensures after[i][j] <= tick.now {
      assert after[i] == before[i] || after[i] == before[i] + [tick.now];
      if j < |before[i]| {
        assert after[i][j] == before[i][j];
      }
    }
  }

  lemma OldFailuresRead(sources: seq<Source>, histories: seq<seq<int>>, tick: Tick)
    requires |histories| == |sources| && tick.failures == map[]
    requires AllBy(histories, tick.now - tick.opts.capMin * MS_PER_MIN)
    ensures Reads(sources, tick, histories)
  {
    forall i | 0 <= i < |sources| ensures ReadsHistory(tick, sources[i].id, histories[i]) {
      NoneAfter(histories[i], tick.now - tick.opts.capMin * MS_PER_MIN);
    }
  }

  ghost function Others(sources: seq<Source>, failing: set<nat>): (r: set<nat>)
    ensures forall i: nat :: i in r <==> i < |sources| && i !in failing
  {
    set i: nat | i in Below(|sources|) && i !in failing
  }

  lemma {:induction false} SlowStep(sources: seq<Source>, history: seq<seq<int>>, at: Tick, failing: set<nat>, p: nat, k: nat)
    requires Start(sources, history, at, p)
    ensures var rows, tick, failures := RowsAt(sources, at, failing, k), TickAt(at, k), FailuresAt(sources, at, failing, history, k);
            && Reads(rows, tick, failures) && at.now <= tick.now <= TickAt(at, k + 1).now
            && Aftermath(rows, tick, Others(sources, failing), RowsAt(sources, at, failing, k + 1))
            && Grown(rows, tick, Others(sources, failing), failures, FailuresAt(sources, at, failing, history, k + 1),
                     TickAt(at, k + 1).now)
  {
    hide RowsAt, FailuresAt, TimeAt, RowsAfter, FailuresAfter, Reads, Aftermath, Grown;
    var rows, failures := RowsAt(sources, at, failing, k), FailuresAt(sources, at, failing, history, k);
    FailuresAreOld(sources, at, failing, history, k);
    OldFailuresRead(rows, failures, TickAt(at, k));
    NextOfSlowRun(sources, history, at, failing, k);
    StepIsAftermath(rows, TickAt(at, k), failing, Others(sources, failing), failures, TickAt(at, k + 1).now);
  }

  /** A run of any length, failing only inside the set, that never serves the source. */
  lemma {:induction false} SlowRun(sources: seq<Source>, history: seq<seq<int>>, at: Tick, failing: set<nat>, p: nat, n: nat) returns (r: Run)
    requires Start(sources, history, at, p) && |failing * Ahead(sources, p)| >= at.fanoutMax
    ensures Recorded(r, sources, history, at) && FailsOnlyIn(r, failing) && |r.ticks| == n && !Serves(r, p)
  {
    hide Select, Judge, Older, RowsAt, FailuresAt, TimeAt, Reads, Aftermath, Grown, AllBy, DistinctIds, ReadsHistory;
    r := Run(seq(n, (k: nat) => RowsAt(sources, at, failing, k)), seq(n, (k: nat) => TickAt(at, k)),
             seq(n, _ => Others(sources, failing)), seq(n, (k: nat) => FailuresAt(sources, at, failing, history, k)));
    forall k: nat | k < n ensures Reads(r.states[k], r.ticks[k], r.histories[k]) && at.now <= r.ticks[k].now {
      SlowStep(sources, history, at, failing, p, k);
    }
    forall k: nat | k < n - 1
      ensures r.ticks[k].now <= r.ticks[k + 1].now && Aftermath(r.states[k], r.ticks[k], r.succeeded[k], r.states[k + 1])
      ensures Grown(r.states[k], r.ticks[k], r.succeeded[k], r.histories[k], r.histories[k + 1], r.ticks[k + 1].now)
    {
      SlowStep(sources, history, at, failing, p, k);
    }
    FirstOfSlowRun(sources, history, at, failing);
    SlowRunStarves(r, sources, history, at, failing, p);
  }

  lemma SlowRunStarves(r: Run, sources: seq<Source>, history: seq<seq<int>>, at: Tick, failing: set<nat>, p: nat)
    requires Start(sources, history, at, p) && Recorded(r, sources, history, at)
    requires |failing * Ahead(sources, p)| >= at.fanoutMax
    requires forall k: nat | k < |r.ticks| :: r.ticks[k].failures == map[] && failing !! r.succeeded[k]
    ensures !Serves(r, p)
  {
    hide Select, Judge, Older;
    var stuck := failing * Ahead(sources, p);
    forall k: nat, i: nat | k < |r.ticks| && i in stuck ensures Judge(sources[i], r.ticks[k]) == Eligible {
      OlderIsEligible(sources[i], sources[p], at, r.ticks[k]);
    }
    forall k: nat | k < |r.ticks| ensures !ServedAt(r, p, k) {
      StuckSourcesStarveOthers(r.states, r.ticks, r.succeeded, stuck, p, k);
    }
  }

  lemma {:induction false} FirstOfSlowRun(sources: seq<Source>, history: seq<seq<int>>, at: Tick, failing: set<nat>)
    requires |history| == |sources|
    ensures RowsAt(sources, at, failing, 0) == sources && FailuresAt(sources, at, failing, history, 0) == history
  {
  }

  lemma {:induction false} NextOfSlowRun(sources: seq<Source>, history: seq<seq<int>>, at: Tick, failing: set<nat>, k: nat)
    requires |history| == |sources| && at.opts.capMin >= 1
    ensures RowsAt(sources, at, failing, k + 1) == RowsAfter(RowsAt(sources, at, failing, k), TickAt(at, k), failing)
    ensures FailuresAt(sources, at, failing, history, k + 1)
         == FailuresAfter(RowsAt(sources, at, failing, k), TickAt(at, k), failing, FailuresAt(sources, at, failing, history, k))
    ensures TimeAt(at, k) <= TimeAt(at, k + 1)
  {
  }

  /** Whoever is ahead of a stale source is stale too, and stays so. */
  lemma OlderIsEligible(s: Source, than: Source, at: Tick, later: Tick)
    requires Judge(than, at) == Eligible && Older(s, than)
    requires at.now <= later.now && later.floorMin == at.floorMin && later.failures == map[]
    ensures Judge(s, later) == Eligible
  {
  }

  // ----- failures that cool down

  /** The positions that have failed since the start of the run. */
  ghost function FailedBy(history: seq<seq<int>>, now: seq<seq<int>>): (r: set<nat>)
    requires |now| == |history|
    ensures forall i: nat :: i in r <==> i < |history| && |now[i]| > |history[i]|
  {
    set i: nat | i in Below(|history|) && |now[i]| > |history[i]|
  }

  /** All failures on record are past, and the last one is the latest; one of the run is no earlier than its start. */
  lemma {:induction false} HistoryShape(r: Run, sources: seq<Source>, history: seq<seq<int>>, at: Tick, p: nat, k: nat, i: nat)
    requires Recorded(r, sources, history, at) && Start(sources, history, at, p) && k < |r.ticks| && i < |sources|
    ensures |r.histories[k]| == |r.states[k]| == |sources| && |history[i]| <= |r.histories[k][i]|
    ensures var h := r.histories[k][i];
            && (forall j | 0 <= j < |h| :: h[j] <= r.ticks[k].now)
            && (|h| > |history[i]| ==> r.ticks[0].now <= h[|h| - 1] && forall j | 0 <= j < |h| :: h[j] <= h[|h| - 1])
    ensures r.ticks[0].now <= r.ticks[k].now
  {
    hide Select, Judge;
    if k == 0 {
      assert r.histories[0] == history && at.now <= r.ticks[0].now;
    } else {
      var j := k - 1;
      HistoryShape(r, sources, history, at, p, j, i);
      assert Aftermath(r.states[j], r.ticks[j], r.succeeded[j], r.states[j + 1]);
      assert r.ticks[j].now <= r.ticks[j + 1].now;
      assert Grown(r.states[j], r.ticks[j], r.succeeded[j], r.histories[j], r.histories[j + 1], r.ticks[j + 1].now);
      var before, h := r.histories[j][i], r.histories[k][i];
      if h != before {
        assert h == before + [h[|h| - 1]];
      }
    }
  }

  /** While the run is shorter than the shortest hold, whoever failed in it and is still ahead is held. */
  lemma {:induction false} FailedIsHeld(r: Run, sources: seq<Source>, history: seq<seq<int>>, at: Tick, p: nat, k: nat, i: nat)
    requires Recorded(r, sources, history, at) && Start(sources, history, at, p) && k < |r.ticks| && i < |sources|
    requires at.opts.baseMin > 0 && r.ticks[k].now - r.ticks[0].now < Min(at.opts.baseMin, at.opts.capMin) * MS_PER_MIN
    requires ReadLastSuccessAt(sources[i]).Some? ==> ReadLastSuccessAt(sources[i]).value < r.ticks[0].now
    requires |r.histories[k]| == |r.states[k]| == |sources| && |r.histories[k][i]| > |history[i]| && r.states[k][i] == sources[i]
    ensures Judge(r.states[k][i], r.ticks[k]) != Eligible
  {
    hide Select;
    HistoryShape(r, sources, history, at, p, k, i);
    var h := r.histories[k][i];
    assert Reads(r.states[k], r.ticks[k], r.histories[k]);
    assert h[|h| - 1] in h;
    HoldBounds(h, h[|h| - 1], ReadLastSuccessAt(sources[i]), r.ticks[k].now, at.opts);
  }

  /**
    No success is needed for as long as failures cool: if a run spans less than min(base, cap)
    minutes, every source ahead goes at most once in it, so a source that is stale and out of
    cooldown is dispatched within N/f ticks, rounded up.
  */
  lemma ServedWhileFailuresCool(r: Run, sources: seq<Source>, history: seq<seq<int>>, at: Tick, p: nat)
    requires Recorded(r, sources, history, at) && Start(sources, history, at, p) && r.ticks != []
    requires at.opts.baseMin > 0 && forall k | 0 <= k < |r.ticks| ::
               r.ticks[k].now - r.ticks[0].now < Min(at.opts.baseMin, at.opts.capMin) * MS_PER_MIN
    requires forall i | 0 <= i < |sources| ::
               ReadLastSuccessAt(sources[i]).Some? ==> ReadLastSuccessAt(sources[i]).value < r.ticks[0].now
    requires Times(|r.ticks|, at.fanoutMax) >= |sources|
    ensures Serves(r, p)
  {
    hide Select, Judge, Older, Serves, Times;
    AheadBound(sources, p);
    if !Serves(r, p) {
      var outs := FailedAreGivenUp(r, sources, history, at, p);
      CardinalityLe(Ahead(sources, p) - outs[0], Ahead(sources, p));
      WaitIsShort(r, sources, history, at, p, outs, 0);
    }
  }

  lemma {:induction false} FailedAreGivenUp(r: Run, sources: seq<Source>, history: seq<seq<int>>, at: Tick, p: nat)
    returns (outs: seq<set<nat>>)
    requires Recorded(r, sources, history, at) && Start(sources, history, at, p) && !Serves(r, p) && r.ticks != []
    requires at.opts.baseMin > 0 && forall k | 0 <= k < |r.ticks| ::
               r.ticks[k].now - r.ticks[0].now < Min(at.opts.baseMin, at.opts.capMin) * MS_PER_MIN
    requires forall i | 0 <= i < |sources| ::
               ReadLastSuccessAt(sources[i]).Some? ==> ReadLastSuccessAt(sources[i]).value < r.ticks[0].now
    ensures GivenUp(r, outs, 0)
  {
    hide Select, Judge, Older, Ahead, Serves, FailedBy, ReadLastSuccessAt, AllBy, Recorded, Start, Dispatched, GivesUp;
    outs := [];
    RunShape(r, sources, history, at, p);
    for n := 0 to |r.ticks|
      invariant |outs| == n
      invariant forall k: nat | k < n :: |r.histories[k]| == |history| && outs[k] == FailedBy(history, r.histories[k])
      invariant forall k: nat | k < n :: |outs[k] * Dispatched(r, k)| <= 0
    {
      HistoryShape(r, sources, history, at, p, n, p);
      FailedAreNotDispatched(r, sources, history, at, p, n);
      outs := outs + [FailedBy(history, r.histories[n])];
    }
    forall k: nat | k < |r.ticks| - 1 ensures GivesUp(outs[k], outs[k + 1], Dispatched(r, k), r.succeeded[k]) {
      FailuresAccumulate(r, sources, history, at, p, k);
    }
  }

  lemma RunShape(r: Run, sources: seq<Source>, history: seq<seq<int>>, at: Tick, p: nat)
    requires Recorded(r, sources, history, at) && Start(sources, history, at, p)
    ensures |r.states| == |r.ticks| == |r.succeeded| == |r.histories|
    ensures |history| == |sources| && p < |sources|
  {
  }

  lemma FailedAreNotDispatched(r: Run, sources: seq<Source>, history: seq<seq<int>>, at: Tick, p: nat, k: nat)
    requires Recorded(r, sources, history, at) && Start(sources, history, at, p) && !Serves(r, p) && k < |r.ticks|
    requires at.opts.baseMin > 0 && r.ticks[k].now - r.ticks[0].now < Min(at.opts.baseMin, at.opts.capMin) * MS_PER_MIN
    requires forall i | 0 <= i < |sources| ::
               ReadLastSuccessAt(sources[i]).Some? ==> ReadLastSuccessAt(sources[i]).value < r.ticks[0].now
    requires |r.histories[k]| == |history|
    ensures FailedBy(history, r.histories[k]) * Dispatched(r, k) == {}
    ensures |FailedBy(history, r.histories[k]) * Dispatched(r, k)| == 0
  {
    hide Select, Judge, Older, Serves;
    StillWaiting(r, sources, history, at, p, k);
    DispatchedAhead(r.states[k], r.ticks[k], p);
    forall i | i in FailedBy(history, r.histories[k]) ensures i !in EligibleAhead(r.states[k], p, r.ticks[k]) {
      if i in Ahead(r.states[k], p) {
        FailedIsHeld(r, sources, history, at, p, k, i);
      }
    }
    assert FailedBy(history, r.histories[k]) * Dispatched(r, k) == {};
  }

  lemma FailuresAccumulate(r: Run, sources: seq<Source>, history: seq<seq<int>>, at: Tick, p: nat, k: nat)
    requires Recorded(r, sources, history, at) && Start(sources, history, at, p) && k + 1 < |r.ticks|
    ensures |r.histories[k]| == |r.histories[k + 1]| == |history|
    ensures GivesUp(FailedBy(history, r.histories[k]), FailedBy(history, r.histories[k + 1]), Dispatched(r, k), r.succeeded[k])
  {
    hide Select, Judge;
    HistoryShape(r, sources, history, at, p, k, p);
    HistoryShape(r, sources, history, at, p, k + 1, p);
    assert Grown(r.states[k], r.ticks[k], r.succeeded[k], r.histories[k], r.histories[k + 1], r.ticks[k + 1].now);
    forall i: nat | i < |sources| ensures |history[i]| <= |r.histories[k][i]| {
      HistoryShape(r, sources, history, at, p, k, i);
    }
  }
}
