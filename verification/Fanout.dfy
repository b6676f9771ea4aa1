/** Per-source dispatch of autopilot cycles (src/commands/autopilot-fanout.ts). */
module Fanout {
  import opened Wrappers
  import opened Sorting
  import StringOrder

  const MS_PER_MIN := 60_000
  const FAILURE_COOLDOWN_EXP_CAP := 4

  /** A timestamp in a source's config: not a string, the empty string, not a date, or a date. */
  datatype Stamp = Absent | Blank | Garbage | At(ms: int)

  datatype Source = Source(id: string, lastFullCycle: Stamp, lastSourceCycle: Stamp)

  datatype Failure = Failure(count: nat, lastFailedAt: int)

  datatype CooldownOpts = CooldownOpts(baseMin: int, capMin: int)

  function DateOf(s: Stamp): Option<int> {
    if s.At? then Some(s.ms) else None
  }

  function ReadLastFullCycleAt(s: Source): Option<int> {
    DateOf(s.lastFullCycle)
  }

  /** The per-source stamp wins whenever it is a non-empty string, even one that is not a date. */
  function ReadLastSuccessAt(s: Source): Option<int> {
    if s.lastSourceCycle.Garbage? || s.lastSourceCycle.At? then DateOf(s.lastSourceCycle) else DateOf(s.lastFullCycle)
  }

  predicate IsSourceStale(s: Source, now: int, floorMin: int) {
    match ReadLastFullCycleAt(s)
    case None => true
    case Some(last) => now - last >= floorMin * MS_PER_MIN
  }

  function Pow2(k: nat): nat {
    if k == 0 then 1 else 2 * Pow2(k - 1)
  }

  function Min(a: int, b: int): int {
    if a < b then a else b
  }

  function CooldownMinForCount(count: int, opts: CooldownOpts): int {
    if count <= 0 || opts.baseMin <= 0 then 0
    else Min(opts.baseMin * Pow2(Min(count - 1, FAILURE_COOLDOWN_EXP_CAP)), opts.capMin)
  }

  predicate IsInFailureCooldown(failure: Option<Failure>, lastSuccessAt: Option<int>, now: int, opts: CooldownOpts) {
    && opts.baseMin > 0
    && failure.Some? && failure.value.count > 0
    && !(lastSuccessAt.Some? && lastSuccessAt.value >= failure.value.lastFailedAt)
    && now - failure.value.lastFailedAt < CooldownMinForCount(failure.value.count, opts) * MS_PER_MIN
  }

  // ----- the failure window

  /** How many of a source's failures finished after `cutoff`, and the latest of them. */
  function CountAfter(history: seq<int>, cutoff: int): nat {
    if history == [] then 0
    else CountAfter(history[..|history| - 1], cutoff) + if history[|history| - 1] > cutoff then 1 else 0
  }

  function LatestAfter(history: seq<int>, cutoff: int): (t: int)
    requires CountAfter(history, cutoff) > 0
    ensures t in history && t > cutoff && forall i | 0 <= i < |history| :: history[i] <= t
  {
    var pre, last := history[..|history| - 1], history[|history| - 1];
    assert history == pre + [last];
    if last <= cutoff || CountAfter(pre, cutoff) == 0 then
      NoneAfter(pre, cutoff);
      if last > cutoff then last else LatestAfter(pre, cutoff)
    else
      var t := LatestAfter(pre, cutoff);
      if t < last then last else t
  }

  lemma {:induction false} NoneAfter(history: seq<int>, cutoff: int)
    ensures CountAfter(history, cutoff) == 0 <==> forall i | 0 <= i < |history| :: history[i] <= cutoff
  {
    if history != [] {
      NoneAfter(history[..|history| - 1], cutoff);
    }
  }

  /** `readRecentSourceFailures` for one source, looking back `capMin` minutes. */
  function RecentFailure(history: seq<int>, now: int, capMin: int): Option<Failure> {
    var cutoff := now - capMin * MS_PER_MIN;
    if CountAfter(history, cutoff) == 0 then None
    else Some(Failure(CountAfter(history, cutoff), LatestAfter(history, cutoff)))
  }

  /** Whether a source with this failure history is held back at `now`. */
  predicate Held(history: seq<int>, lastSuccessAt: Option<int>, now: int, opts: CooldownOpts) {
    IsInFailureCooldown(RecentFailure(history, now, opts.capMin), lastSuccessAt, now, opts)
  }

  lemma {:induction false} CountAfterShrinks(history: seq<int>, early: int, late: int)
    requires early <= late
    ensures CountAfter(history, late) <= CountAfter(history, early)
  {
    if history != [] {
      CountAfterShrinks(history[..|history| - 1], early, late);
    }
  }

  lemma {:induction false} Pow2Monotone(a: nat, b: nat)
    requires a <= b
    ensures 1 <= Pow2(a) <= Pow2(b)
  {
    if a < b {
      Pow2Monotone(a, b - 1);
    } else if a > 0 {
      Pow2Monotone(a - 1, a - 1);
    }
  }

  lemma ScaleMonotone(base: int, x: int, y: int)
    requires base > 0 && x <= y
    ensures base * x <= base * y
  {
  }

  lemma CooldownMonotone(a: int, b: int, opts: CooldownOpts)
    requires a <= b && opts.capMin >= 0
    ensures CooldownMinForCount(a, opts) <= CooldownMinForCount(b, opts) <= opts.capMin
    ensures a >= 1 && opts.baseMin > 0 ==> CooldownMinForCount(a, opts) >= Min(opts.baseMin, opts.capMin)
  {
    if a >= 1 && opts.baseMin > 0 {
      var j, k := Min(a - 1, FAILURE_COOLDOWN_EXP_CAP), Min(b - 1, FAILURE_COOLDOWN_EXP_CAP);
      Pow2Monotone(0, j);
      Pow2Monotone(j, k);
      ScaleMonotone(opts.baseMin, 1, Pow2(j));
      ScaleMonotone(opts.baseMin, Pow2(j), Pow2(k));
    }
  }

  /** `latest` is the last of the failures, and no success covers it. */
  ghost predicate Uncovered(history: seq<int>, latest: int, lastSuccessAt: Option<int>) {
    && latest in history && (forall i | 0 <= i < |history| :: history[i] <= latest)
    && (lastSuccessAt.Some? ==> lastSuccessAt.value < latest)
  }

  /** Being held is a matter of the time since the last failure and of the failures still in the window. */
  lemma {:induction false} HeldExactly(history: seq<int>, latest: int, lastSuccessAt: Option<int>, now: int, opts: CooldownOpts)
    requires opts.baseMin > 0 && opts.capMin >= 1 && Uncovered(history, latest, lastSuccessAt) && latest <= now
    ensures Held(history, lastSuccessAt, now, opts)
            <==> now - latest
                 < CooldownMinForCount(CountAfter(history, now - opts.capMin * MS_PER_MIN), opts) * MS_PER_MIN
  {
    NoneAfter(history, now - opts.capMin * MS_PER_MIN);
  }

  /** The failures of the last `minutes` minutes. */
  ghost function Recent(history: seq<int>, now: int, minutes: int): set<int> {
    set i | 0 <= i < |history| && history[i] > now - minutes * 60_000
  }

  lemma {:induction false} CountAfterIsSize(history: seq<int>, now: int, minutes: int)
    ensures CountAfter(history, now - minutes * 60_000) == |Recent(history, now, minutes)|
  {
    if history != [] {
      var m := |history| - 1;
      CountAfterIsSize(history[..m], now, minutes);
      var before := Recent(history[..m], now, minutes);
      assert Recent(history, now, minutes) == if history[m] > now - minutes * 60_000 then before + {m} else before;
    }
  }

  lemma PowersWrittenOut()
    ensures Pow2(0) == 1 && Pow2(1) == 2 && Pow2(2) == 4 && Pow2(3) == 8 && Pow2(4) == 16
  {
    assert Pow2(1) == 2;
    assert Pow2(2) == 4;
    assert Pow2(3) == 8;
  }

  /** How often the base goes into the hold after `k` recent failures. */
  ghost predicate Doublings(k: nat, times: nat) {
    || (k == 1 && times == 1) || (k == 2 && times == 2) || (k == 3 && times == 4) || (k == 4 && times == 8)
    || (k >= 5 && times == 16)
  }

  /**
    The first failure holds for the base, each further one up to the fifth doubles that, a sixth
    changes nothing, and the cap is never passed. Without a recent failure nothing is held.
  */
  lemma {:induction false} HoldDoubles(history: seq<int>, latest: int, lastSuccessAt: Option<int>, now: int,
                                       opts: CooldownOpts, times: nat)
    requires opts.baseMin > 0 && Uncovered(history, latest, lastSuccessAt) && latest <= now
    ensures Recent(history, now, opts.capMin) == {} ==> !Held(history, lastSuccessAt, now, opts)
    ensures Doublings(|Recent(history, now, opts.capMin)|, times) ==>
              (Held(history, lastSuccessAt, now, opts)
               <==> now - latest < times * opts.baseMin * 60_000 && now - latest < opts.capMin * 60_000)
  {
    hide CooldownMinForCount, CountAfter;
    var k := |Recent(history, now, opts.capMin)|;
    CountAfterIsSize(history, now, opts.capMin);
    NoneAfter(history, now - opts.capMin * MS_PER_MIN);
    if Doublings(k, times) {
      CooldownWrittenOut(k, times, opts);
    }
  }

  lemma CooldownWrittenOut(k: nat, times: nat, opts: CooldownOpts)
    requires Doublings(k, times) && opts.baseMin > 0
    ensures CooldownMinForCount(k, opts) == Min(times * opts.baseMin, opts.capMin)
  {
    PowersWrittenOut();
  }

  /** Three failures hold for forty minutes under the default settings, not for thirty. */
  lemma ThirdFailureHoldsForty(now: int)
    requires 10 * 60_000 <= now
    ensures Held([0, 5 * 60_000, 10 * 60_000], None, now, CooldownOpts(10, 120)) <==> now < 50 * 60_000
  {
    var history := [0, 5 * 60_000, 10 * 60_000];
    assert history[0] == 0 && history[1] == 5 * 60_000 && history[2] == 10 * 60_000;
    var end := Min(now, 50 * 60_000);
    assert Recent(history, end, 120) == {0, 1, 2};
    HoldDoubles(history, 10 * 60_000, None, end, CooldownOpts(10, 120), 4);
    if end < now {
      ReleaseIsFinal(history, 10 * 60_000, None, end, now, CooldownOpts(10, 120));
    }
  }

  /** A failed source is held for at least the base (or the cap, if less) and never for the whole cap. */
  lemma HoldBounds(history: seq<int>, latest: int, lastSuccessAt: Option<int>, now: int, opts: CooldownOpts)
    requires opts.baseMin > 0 && opts.capMin >= 1 && Uncovered(history, latest, lastSuccessAt) && latest <= now
    ensures now - latest < Min(opts.baseMin, opts.capMin) * MS_PER_MIN ==> Held(history, lastSuccessAt, now, opts)
    ensures now - latest >= opts.capMin * MS_PER_MIN ==> !Held(history, lastSuccessAt, now, opts)
  {
    var count := CountAfter(history, now - opts.capMin * MS_PER_MIN);
    HeldExactly(history, latest, lastSuccessAt, now, opts);
    NoneAfter(history, now - opts.capMin * MS_PER_MIN);
    CooldownMonotone(count, count, opts);
  }

  /** Although failures drop out of the window as time passes, a released source stays released. */
  lemma ReleaseIsFinal(history: seq<int>, latest: int, lastSuccessAt: Option<int>, t: int, u: int, opts: CooldownOpts)
    requires opts.baseMin > 0 && opts.capMin >= 1 && Uncovered(history, latest, lastSuccessAt) && latest <= t <= u
    requires !Held(history, lastSuccessAt, t, opts)
    ensures !Held(history, lastSuccessAt, u, opts)
  {
    var window := opts.capMin * MS_PER_MIN;
    HeldExactly(history, latest, lastSuccessAt, t, opts);
    HeldExactly(history, latest, lastSuccessAt, u, opts);
    CountAfterShrinks(history, t - window, u - window);
    CooldownMonotone(CountAfter(history, u - window), CountAfter(history, t - window), opts);
  }

  /** So each failure opens one interval: the source is held up to a release time and not after it. */
  lemma ReleaseTime(history: seq<int>, latest: int, lastSuccessAt: Option<int>, opts: CooldownOpts) returns (release: int)
    requires opts.baseMin > 0 && opts.capMin >= 1 && Uncovered(history, latest, lastSuccessAt)
    ensures latest + Min(opts.baseMin, opts.capMin) * MS_PER_MIN <= release <= latest + opts.capMin * MS_PER_MIN
    ensures forall now | latest <= now :: Held(history, lastSuccessAt, now, opts) <==> now < release
  {
    release := latest + Min(opts.baseMin, opts.capMin) * MS_PER_MIN;
    var end := latest + opts.capMin * MS_PER_MIN;
    HoldBounds(history, latest, lastSuccessAt, end, opts);
    forall now | latest <= now < release ensures Held(history, lastSuccessAt, now, opts) {
      HoldBounds(history, latest, lastSuccessAt, now, opts);
    }
    while Held(history, lastSuccessAt, release, opts)
      invariant latest <= release <= end
      invariant forall now | latest <= now < release :: Held(history, lastSuccessAt, now, opts)
      decreases end - release
    {
      release := release + 1;
    }
    forall now | release <= now ensures !Held(history, lastSuccessAt, now, opts) {
      ReleaseIsFinal(history, latest, lastSuccessAt, release, now, opts);
    }
  }

  /** A success at or after the last failure releases the source at once. */
  lemma SuccessClears(history: seq<int>, lastSuccessAt: Option<int>, now: int, opts: CooldownOpts)
    requires lastSuccessAt.Some? && forall i | 0 <= i < |history| :: history[i] <= lastSuccessAt.value
    ensures !Held(history, lastSuccessAt, now, opts)
  {
  }

  /** The cooldown is not the plain exponential in all failures so far: old ones leave the window. */
  lemma WindowShortensCooldown()
    ensures exists history: seq<int>, now: int, opts: CooldownOpts ::
              && opts == CooldownOpts(10, 120) && Uncovered(history, 119 * MS_PER_MIN, None) && 119 * MS_PER_MIN <= now
              && now - 119 * MS_PER_MIN < CooldownMinForCount(|history|, opts) * MS_PER_MIN
              && !Held(history, None, now, opts)
  {
    var history, opts, now := [0, 119 * MS_PER_MIN], CooldownOpts(10, 120), 134 * MS_PER_MIN;
    assert history[1] == 119 * MS_PER_MIN && history[..1] == [0] && [0][..0] == [];
    assert CountAfter([0], 14 * MS_PER_MIN) == 0;
    assert CountAfter(history, 14 * MS_PER_MIN) == 1;
    HeldExactly(history, 119 * MS_PER_MIN, None, now, opts);
    assert Pow2(0) == 1 && Pow2(1) == 2;
  }

  // ----- choosing the sources of one tick

  /** Never-cycled sources first, then the oldest stamp, then the id. */
  predicate Older(a: Source, b: Source) {
    match (ReadLastFullCycleAt(a), ReadLastFullCycleAt(b))
    case (None, Some(_)) => true
    case (Some(_), None) => false
    case (None, None) => StringOrder.Leq(a.id, b.id)
    case (Some(x), Some(y)) => x < y || (x == y && StringOrder.Leq(a.id, b.id))
  }

  datatype Verdict = Fresh | Cooling | Eligible

  /** What a tick sees: the time, the floor, the cap, the recent failures and the cooldown knobs. */
  datatype Tick = Tick(now: int, floorMin: int, fanoutMax: int, failures: map<string, Failure>, opts: CooldownOpts)

  function FailureOf(tick: Tick, id: string): Option<Failure> {
    if id in tick.failures then Some(tick.failures[id]) else None
  }

  function Judge(s: Source, tick: Tick): Verdict {
    if !IsSourceStale(s, tick.now, tick.floorMin) then Fresh
    else if IsInFailureCooldown(FailureOf(tick, s.id), ReadLastSuccessAt(s), tick.now, tick.opts) then Cooling
    else Eligible
  }

  /** A source is fresh for less than the floor after its last full cycle; without a date it is never fresh. */
  lemma FreshBelowTheFloor(s: Source, tick: Tick)
    ensures s.lastFullCycle.At? ==> (Judge(s, tick) == Fresh <==> tick.now - s.lastFullCycle.ms < tick.floorMin * 60_000)
    ensures !s.lastFullCycle.At? ==> Judge(s, tick) != Fresh
  {
  }

  /**
    A stale source cools iff its history holds it against its last success: the per-source stamp
    where that is a non-empty string, whether a date or not, and else the full-cycle stamp.
  */
  lemma {:induction false} CoolsWhileHeld(s: Source, tick: Tick, history: seq<int>)
    requires Judge(s, tick) != Fresh
    requires FailureOf(tick, s.id) == RecentFailure(history, tick.now, tick.opts.capMin)
    ensures s.lastSourceCycle.At? ==>
              (Judge(s, tick) == Cooling <==> Held(history, Some(s.lastSourceCycle.ms), tick.now, tick.opts))
    ensures s.lastSourceCycle.Garbage? ==> (Judge(s, tick) == Cooling <==> Held(history, None, tick.now, tick.opts))
    ensures (s.lastSourceCycle.Absent? || s.lastSourceCycle.Blank?) && s.lastFullCycle.At? ==>
              (Judge(s, tick) == Cooling <==> Held(history, Some(s.lastFullCycle.ms), tick.now, tick.opts))
    ensures (s.lastSourceCycle.Absent? || s.lastSourceCycle.Blank?) && !s.lastFullCycle.At? ==>
              (Judge(s, tick) == Cooling <==> Held(history, None, tick.now, tick.opts))
  {
  }

  /** The sources judged `v`, in the order listed. */
  function Judged(sources: seq<Source>, v: Verdict, tick: Tick): seq<Source> {
    if sources == [] then []
    else
      Judged(sources[..|sources| - 1], v, tick)
      + if Judge(sources[|sources| - 1], tick) == v then [sources[|sources| - 1]] else []
  }

  /** Where `slice(0, k)` cuts a list of length `n`: a negative `k` counts from the end. */
  function Cut(n: nat, k: int): (c: nat)
    ensures c <= n && (k >= 0 ==> c == Min(n, k))
  {
    if k >= 0 then Min(n, k) else if n + k >= 0 then n + k else 0
  }

  datatype Selection = Selection(dispatch: seq<Source>, skippedFresh: seq<Source>,
                                 skippedCap: seq<Source>, skippedCooldown: seq<Source>)

  /** Everything that may go this tick, oldest first. */
  function Queue(sources: seq<Source>, tick: Tick): seq<Source> {
    Sort(Older, Judged(sources, Eligible, tick))
  }

  function Select(sources: seq<Source>, tick: Tick): Selection {
    var queue := Queue(sources, tick);
    var k := Cut(|queue|, tick.fanoutMax);
    Selection(queue[..k], Judged(sources, Fresh, tick), queue[k..], Judged(sources, Cooling, tick))
  }

  method SelectSourcesForDispatch(sources: seq<Source>, tick: Tick) returns (r: Selection)
    ensures r == Select(sources, tick)
  {
    var stale, recent, cooldown := [], [], [];
    for i := 0 to |sources|
      invariant stale == Judged(sources[..i], Eligible, tick)
      invariant recent == Judged(sources[..i], Fresh, tick) && cooldown == Judged(sources[..i], Cooling, tick)
    {
      var s := sources[i];
      assert sources[..i + 1][..i] == sources[..i];
      if !IsSourceStale(s, tick.now, tick.floorMin) {
        recent := recent + [s];
        continue;
      }
      if IsInFailureCooldown(FailureOf(tick, s.id), ReadLastSuccessAt(s), tick.now, tick.opts) {
        cooldown := cooldown + [s];
        continue;
      }
      stale := stale + [s];
    }
    assert sources[..|sources|] == sources;
    var queue := Sort(Older, stale);
    var k := Cut(|queue|, tick.fanoutMax);
    r := Selection(queue[..k], recent, queue[k..], cooldown);
  }

  lemma OlderIsTotalPreorder()
    ensures TotalPreorder(Older)
    ensures forall a, b :: Older(a, b) && Older(b, a) ==> a.id == b.id
  {
    StringOrder.LeqIsTotalOrder();
  }

  lemma {:induction false} JudgedMembers(sources: seq<Source>, v: Verdict, tick: Tick, s: Source)
    ensures s in Judged(sources, v, tick) <==> s in sources && Judge(s, tick) == v
  {
    if sources != [] {
      JudgedMembers(sources[..|sources| - 1], v, tick, s);
      assert sources == sources[..|sources| - 1] + [sources[|sources| - 1]];
    }
  }

  lemma {:induction false} JudgedSnoc(sources: seq<Source>, s: Source, v: Verdict, tick: Tick)
    ensures Judged(sources + [s], v, tick) == if Judge(s, tick) == v then Judged(sources, v, tick) + [s] else Judged(sources, v, tick)
  {
    assert (sources + [s])[..|sources|] == sources;
  }

  lemma {:induction false} VerdictsPartition(sources: seq<Source>, tick: Tick)
    ensures multiset(Judged(sources, Fresh, tick)) + multiset(Judged(sources, Cooling, tick))
            + multiset(Judged(sources, Eligible, tick)) == multiset(sources)
  {
    hide Judge, Judged;
    if sources == [] {
      NothingJudged(tick);
    } else {
      var pre, s := sources[..|sources| - 1], sources[|sources| - 1];
      VerdictsPartition(pre, tick);
      assert sources == pre + [s];
      VerdictsStep(pre, s, tick);
    }
  }

  lemma {:induction false} NothingJudged(tick: Tick)
    ensures Judged([], Fresh, tick) == Judged([], Cooling, tick) == Judged([], Eligible, tick) == []
  {
  }

  lemma {:induction false} VerdictsStep(pre: seq<Source>, s: Source, tick: Tick)
    requires multiset(Judged(pre, Fresh, tick)) + multiset(Judged(pre, Cooling, tick))
             + multiset(Judged(pre, Eligible, tick)) == multiset(pre)
    ensures multiset(Judged(pre + [s], Fresh, tick)) + multiset(Judged(pre + [s], Cooling, tick))
            + multiset(Judged(pre + [s], Eligible, tick)) == multiset(pre + [s])
  {
    hide Judge, Judged;
    JudgedSnoc(pre, s, Fresh, tick);
    JudgedSnoc(pre, s, Cooling, tick);
    JudgedSnoc(pre, s, Eligible, tick);
  }

  /** Each source goes into exactly one of the four lists. */
  lemma SelectionIsPartition(sources: seq<Source>, tick: Tick)
    ensures var r := Select(sources, tick);
            && multiset(r.dispatch) + multiset(r.skippedCap) + multiset(r.skippedFresh) + multiset(r.skippedCooldown)
               == multiset(sources)
            && (forall s | s in r.dispatch || s in r.skippedCap :: Judge(s, tick) == Eligible)
            && (forall s | s in r.skippedFresh :: Judge(s, tick) == Fresh)
            && (forall s | s in r.skippedCooldown :: Judge(s, tick) == Cooling)
            && (forall s, t | s in r.dispatch && t in r.skippedCap :: Older(s, t))
  {
    hide Judge, Judged, Sort, Older;
    var es, queue, k := Judged(sources, Eligible, tick), Queue(sources, tick), |Select(sources, tick).dispatch|;
    VerdictsPartition(sources, tick);
    SortMultiset(Older, es);
    assert queue == queue[..k] + queue[k..];
    forall s ensures s in queue ==> Judge(s, tick) == Eligible {
      JudgedMembers(sources, Eligible, tick, s);
      SortMembers(Older, es, s);
    }
    forall s, v ensures s in Judged(sources, v, tick) ==> Judge(s, tick) == v {
      JudgedMembers(sources, v, tick, s);
    }
    OlderIsTotalPreorder();
    SortSorted(Older, es);
    CutKeepsOrder(queue, k);
  }

  lemma CutKeepsOrder(queue: seq<Source>, k: nat)
    requires k <= |queue| && Sorted(Older, queue)
    ensures forall s, t | s in queue[..k] && t in queue[k..] :: Older(s, t)
  {
    hide Older;
    forall s, t | s in queue[..k] && t in queue[k..] ensures Older(s, t) {
      var i :| 0 <= i < k && queue[i] == s;
      var j :| k <= j < |queue| && queue[j] == t;
    }
  }

  // ----- who is dispatched

  ghost predicate DistinctIds(sources: seq<Source>) {
    forall i, j | 0 <= i < j < |sources| :: sources[i].id != sources[j].id
  }

  lemma {:induction false} JudgedDistinct(sources: seq<Source>, v: Verdict, tick: Tick)
    requires DistinctIds(sources)
    ensures DistinctIds(Judged(sources, v, tick))
  {
    hide Judge;
    if sources != [] {
      var pre, s := sources[..|sources| - 1], sources[|sources| - 1];
      JudgedDistinct(pre, v, tick);
      var js := Judged(pre, v, tick);
      forall i | 0 <= i < |js| ensures js[i].id != s.id {
        JudgedMembers(pre, v, tick, js[i]);
        var k :| 0 <= k < |pre| && pre[k] == js[i];
        assert sources[k].id != sources[|pre|].id;
      }
    }
  }

  /** The queue holds the eligible sources once each, each strictly older than all behind it. */
  lemma QueueOrder(sources: seq<Source>, tick: Tick)
    requires DistinctIds(sources)
    ensures var queue := Queue(sources, tick);
            && DistinctIds(queue) && Sorted(Older, queue)
            && (forall s :: s in queue <==> s in sources && Judge(s, tick) == Eligible)
  {
    var es, queue := Judged(sources, Eligible, tick), Queue(sources, tick);
    JudgedDistinct(sources, Eligible, tick);
    OlderIsTotalPreorder();
    SortSorted(Older, es);
    SortMultiset(Older, es);
    SortDistinct(es);
    forall s ensures s in queue <==> s in sources && Judge(s, tick) == Eligible {
      JudgedMembers(sources, Eligible, tick, s);
      assert s in queue <==> s in multiset(es);
    }
  }

  lemma {:induction false} InsertDistinct(x: Source, xs: seq<Source>)
    requires DistinctIds(xs) && forall i | 0 <= i < |xs| :: xs[i].id != x.id
    ensures DistinctIds(Insert(Older, x, xs))
  {
    if xs != [] && !Older(x, xs[0]) {
      InsertDistinct(x, xs[1..]);
      InsertMultiset(Older, x, xs[1..]);
      var r := Insert(Older, x, xs[1..]);
      forall i | 0 <= i < |r| ensures r[i].id != xs[0].id {
        assert r[i] in multiset(r);
        assert r[i] == x || r[i] in xs[1..];
      }
    }
  }

  lemma {:induction false} SortDistinct(xs: seq<Source>)
    requires DistinctIds(xs)
    ensures DistinctIds(Sort(Older, xs))
  {
    if xs != [] {
      SortDistinct(xs[1..]);
      SortMultiset(Older, xs[1..]);
      var r := Sort(Older, xs[1..]);
      forall i | 0 <= i < |r| ensures r[i].id != xs[0].id {
        assert r[i] in multiset(xs[1..]);
      }
      InsertDistinct(xs[0], r);
    }
  }

  // ----- no starvation

  /** The positions of the sources that come before position `p` in age. */
  ghost function Ahead(sources: seq<Source>, p: nat): (r: set<nat>)
    requires p < |sources|
  {
    set i: nat | i < |sources| && i != p && Older(sources[i], sources[p])
  }

  /** Those of them that may go this tick. */
  ghost function EligibleAhead(sources: seq<Source>, p: nat, tick: Tick): (r: set<nat>)
    requires p < |sources|
  {
    set i: nat | i in Ahead(sources, p) && Judge(sources[i], tick) == Eligible
  }

  /** Reading positions off a stretch of the queue. */
  ghost function Positions(sources: seq<Source>, xs: seq<Source>): set<nat> {
    set i: nat | i < |sources| && sources[i] in xs
  }

  lemma {:induction false} PositionsCount(sources: seq<Source>, xs: seq<Source>)
    requires DistinctIds(sources) && DistinctIds(xs) && forall i | 0 <= i < |xs| :: xs[i] in sources
    ensures |Positions(sources, xs)| == |xs|
  {
    if xs == [] {
      assert Positions(sources, xs) == {};
    } else {
      var pre, x := xs[..|xs| - 1], xs[|xs| - 1];
      PositionsCount(sources, pre);
      assert x in sources;
      var i: nat :| i < |sources| && sources[i] == x;
      assert Positions(sources, xs) == Positions(sources, pre) + {i};
      assert i !in Positions(sources, pre);
    }
  }

  /** An eligible source stands in the queue behind exactly the eligible sources ahead of it. */
  lemma QueuePosition(sources: seq<Source>, tick: Tick, p: nat) returns (q: nat)
    requires DistinctIds(sources) && p < |sources| && Judge(sources[p], tick) == Eligible
    ensures q < |Queue(sources, tick)| && Queue(sources, tick)[q] == sources[p]
    ensures Positions(sources, Queue(sources, tick)[..q]) == EligibleAhead(sources, p, tick)
    ensures |EligibleAhead(sources, p, tick)| == q
  {
    hide Judge, Queue;
    var queue := Queue(sources, tick);
    QueueOrder(sources, tick);
    assert sources[p] in sources;
    q :| 0 <= q < |queue| && queue[q] == sources[p];
    OlderIsTotalPreorder();
    forall i: nat | i < |sources|
      ensures i in Positions(sources, queue[..q]) <==> i in EligibleAhead(sources, p, tick)
    {
      assert sources[i] in sources;
      if sources[i] in queue[..q] {
        var k :| 0 <= k < q && queue[k] == sources[i];
        assert Older(queue[k], queue[q]) && queue[k].id != queue[q].id;
      }
      if i in EligibleAhead(sources, p, tick) {
        var k :| 0 <= k < |queue| && queue[k] == sources[i];
        assert sources[i].id != sources[p].id;
        assert k != q && !Older(queue[q], queue[k]);
        assert k < q;
        assert queue[..q][k] == sources[i];
      }
    }
    forall i | 0 <= i < q ensures queue[..q][i] in sources {
      assert queue[i] in queue;
    }
    PositionsCount(sources, queue[..q]);
  }

  /** A source goes this tick exactly when it is eligible and fewer than the cap are ahead of it. */
  lemma DispatchedExactly(sources: seq<Source>, tick: Tick, p: nat)
    requires DistinctIds(sources) && p < |sources| && tick.fanoutMax >= 1
    ensures sources[p] in Select(sources, tick).dispatch
            <==> Judge(sources[p], tick) == Eligible && |EligibleAhead(sources, p, tick)| < tick.fanoutMax
  {
    hide Judge, Queue;
    var queue := Queue(sources, tick);
    QueueOrder(sources, tick);
    var k := Cut(|queue|, tick.fanoutMax);
    if Judge(sources[p], tick) == Eligible {
      var q := QueuePosition(sources, tick, p);
      if sources[p] in queue[..k] {
        var j :| 0 <= j < k && queue[j] == sources[p];
        assert j == q;
      }
      if q < k {
        assert queue[..k][q] == sources[p];
      }
    }
    assert sources[p] in queue[..k] ==> sources[p] in queue;
  }

  /**
    From one tick to the next: ids stay; a source may be stamped, at the tick or later, and is if it
    was dispatched.
  */
  ghost predicate Progress(sources: seq<Source>, tick: Tick, next: seq<Source>) {
    && |next| == |sources|
    && forall i | 0 <= i < |sources| ::
         && next[i].id == sources[i].id
         && ((next[i].lastFullCycle == sources[i].lastFullCycle && sources[i] !in Select(sources, tick).dispatch)
             || (next[i].lastFullCycle.At? && next[i].lastFullCycle.ms >= tick.now))
  }

  /** Stamping moves a source behind a stale one; nothing else changes the order. */
  lemma NoNewcomers(sources: seq<Source>, tick: Tick, next: seq<Source>, p: nat, i: nat)
    requires p < |sources| && Progress(sources, tick, next) && tick.floorMin >= 1
    requires IsSourceStale(sources[p], tick.now, tick.floorMin)
    requires next[p].lastFullCycle == sources[p].lastFullCycle
    requires i in Ahead(next, p)
    ensures i in Ahead(sources, p) && sources[i] !in Select(sources, tick).dispatch
  {
    hide Select;
    assert next[i].id == sources[i].id && next[p].id == sources[p].id;
  }

  /** While an eligible source is passed over, a cap's worth of the sources ahead of it goes. */
  lemma DispatchedAhead(sources: seq<Source>, tick: Tick, p: nat)
    requires DistinctIds(sources) && p < |sources| && tick.fanoutMax >= 1
    requires Judge(sources[p], tick) == Eligible && sources[p] !in Select(sources, tick).dispatch
    ensures var gone := Positions(sources, Select(sources, tick).dispatch);
            gone <= EligibleAhead(sources, p, tick) && |gone| == tick.fanoutMax
  {
    hide Queue, Older, Judge;
    var queue := Queue(sources, tick);
    QueueOrder(sources, tick);
    var q := QueuePosition(sources, tick, p);
    DispatchedExactly(sources, tick, p);
    var first := queue[..tick.fanoutMax];
    assert Select(sources, tick).dispatch == first;
    forall i | 0 <= i < |first| ensures first[i] in sources {
      assert queue[i] in queue;
    }
    PositionsCount(sources, first);
    var gone := Positions(sources, first);
    forall i: nat | i in gone ensures i in EligibleAhead(sources, p, tick) {
      assert first <= queue[..q];
      assert i in Positions(sources, queue[..q]);
    }
  }

  /** Sources ahead of a waiting one are only ever lost: by the cap's worth a tick, and none joins. */
  lemma AheadShrinks(sources: seq<Source>, tick: Tick, next: seq<Source>, p: nat)
    requires DistinctIds(sources) && p < |sources| && Progress(sources, tick, next)
    requires tick.fanoutMax >= 1 && tick.floorMin >= 1
    requires Judge(sources[p], tick) == Eligible && sources[p] !in Select(sources, tick).dispatch
    requires next[p].lastFullCycle == sources[p].lastFullCycle
    ensures |Ahead(next, p)| + tick.fanoutMax <= |Ahead(sources, p)|
  {
    hide Select, Older;
    DispatchedAhead(sources, tick, p);
    var gone := Positions(sources, Select(sources, tick).dispatch);
    forall i: nat | i in Ahead(next, p) ensures i in Ahead(sources, p) && i !in gone {
      NoNewcomers(sources, tick, next, p, i);
    }
    CardinalityLe(Ahead(next, p), Ahead(sources, p) - gone);
  }

  lemma {:induction false} CardinalityLe(a: set<nat>, b: set<nat>)
    requires a <= b
    ensures |a| <= |b|
  {
    assert b == a + (b - a);
  }

  /** A sequence of ticks over the same sources; `states[k]` is what tick `k` sees. */
  ghost predicate Ticks(states: seq<seq<Source>>, ticks: seq<Tick>) {
    && |states| == |ticks|
    && (forall k | 0 <= k < |ticks| :: ticks[k].fanoutMax >= 1 && ticks[k].floorMin >= 1)
    && (forall k | 0 <= k < |ticks| - 1 :: ticks[k].now <= ticks[k + 1].now && Progress(states[k], ticks[k], states[k + 1]))
  }

  /** Source `p` waits through tick `k`: eligible, not stamped by anything else, and passed over. */
  ghost predicate Waits(states: seq<seq<Source>>, ticks: seq<Tick>, p: nat, k: nat)
    requires k < |states| == |ticks|
  {
    && p < |states[k]| && Judge(states[k][p], ticks[k]) == Eligible
    && states[k][p] !in Select(states[k], ticks[k]).dispatch
    && (k + 1 < |states| ==> p < |states[k + 1]| && states[k + 1][p].lastFullCycle == states[k][p].lastFullCycle)
  }

  lemma NextDistinct(sources: seq<Source>, tick: Tick, next: seq<Source>)
    requires DistinctIds(sources) && Progress(sources, tick, next)
    ensures DistinctIds(next)
  {
    forall i, j | 0 <= i < j < |next| ensures next[i].id != next[j].id {
      assert next[i].id == sources[i].id && next[j].id == sources[j].id;
    }
  }

  lemma {:induction false} WaitingShrinksAhead(states: seq<seq<Source>>, ticks: seq<Tick>, p: nat, k: nat, f: nat)
    requires k < |ticks| && Ticks(states, ticks) && p < |states[0]| && DistinctIds(states[0])
    requires forall j | 0 <= j < |ticks| :: ticks[j].fanoutMax == f
    requires forall j | 0 <= j < k :: Waits(states, ticks, p, j)
    ensures |states[k]| == |states[0]| && DistinctIds(states[k])
    ensures |Ahead(states[k], p)| <= |states[0]| - 1 - k * f
  {
    if k == 0 {
      AheadBound(states[0], p);
    } else {
      WaitingShrinksAhead(states, ticks, p, k - 1, f);
      NextDistinct(states[k - 1], ticks[k - 1], states[k]);
      assert Waits(states, ticks, p, k - 1);
      AheadShrinks(states[k - 1], ticks[k - 1], states[k], p);
      assert k * f == (k - 1) * f + f;
    }
  }

  lemma AheadBound(sources: seq<Source>, p: nat)
    requires p < |sources|
    ensures |Ahead(sources, p)| <= |sources| - 1
  {
    CardinalityLe(Ahead(sources, p), Below(|sources|) - {p});
  }

  ghost function Below(n: nat): (r: set<nat>)
    ensures |r| == n && forall i: nat :: i in r <==> i < n
  {
    if n == 0 then {} else Below(n - 1) + {n - 1}
  }

  // ----- a released source stays eligible

  lemma StaysReleased(history: seq<int>, lastSuccessAt: Option<int>, t: int, u: int, opts: CooldownOpts)
    requires opts.capMin >= 1 && t <= u && forall i | 0 <= i < |history| :: history[i] <= t
    requires !Held(history, lastSuccessAt, t, opts)
    ensures !Held(history, lastSuccessAt, u, opts)
  {
    NoneAfter(history, u - opts.capMin * MS_PER_MIN);
    if opts.baseMin > 0 && CountAfter(history, u - opts.capMin * MS_PER_MIN) > 0 {
      var latest := LatestAfter(history, u - opts.capMin * MS_PER_MIN);
      if !(lastSuccessAt.Some? && lastSuccessAt.value >= latest) {
        ReleaseIsFinal(history, latest, lastSuccessAt, t, u, opts);
      }
    }
  }

  /** The tick's failure record of source `id` is read off `history`. */
  ghost predicate ReadsHistory(tick: Tick, id: string, history: seq<int>) {
    FailureOf(tick, id) == RecentFailure(history, tick.now, tick.opts.capMin)
  }

  lemma StaysEligible(s: Source, history: seq<int>, tick: Tick, later: Tick)
    requires Judge(s, tick) == Eligible && tick.now <= later.now
    requires later.floorMin == tick.floorMin && later.opts == tick.opts && tick.opts.capMin >= 1
    requires ReadsHistory(tick, s.id, history) && ReadsHistory(later, s.id, history)
    requires forall i | 0 <= i < |history| :: history[i] <= tick.now
    ensures Judge(s, later) == Eligible
  {
    StaysReleased(history, ReadLastSuccessAt(s), tick.now, later.now, tick.opts);
  }

  /** The knobs are constant, and source `p`'s failures are those of `history` throughout. */
  ghost predicate Steady(states: seq<seq<Source>>, ticks: seq<Tick>, p: nat, f: nat, history: seq<int>)
    requires |states| == |ticks| > 0 && p < |states[0]|
  {
    && ticks[0].opts.capMin >= 1
    && (forall i | 0 <= i < |history| :: history[i] <= ticks[0].now)
    && (forall k | 0 <= k < |ticks| ::
          && ticks[k].fanoutMax == f && ticks[k].floorMin == ticks[0].floorMin && ticks[k].opts == ticks[0].opts
          && ReadsHistory(ticks[k], states[0][p].id, history))
  }

  /** Source `p`'s row changes only once it has been dispatched. */
  ghost predicate Patient(states: seq<seq<Source>>, ticks: seq<Tick>, p: nat)
    requires |states| == |ticks|
  {
    forall k | 0 <= k < |ticks| - 1 :: p < |states[k]| && states[k][p] !in Select(states[k], ticks[k]).dispatch ==>
      p < |states[k + 1]| && states[k + 1][p] == states[k][p]
  }

  lemma {:induction false} TimePasses(states: seq<seq<Source>>, ticks: seq<Tick>, k: nat)
    requires Ticks(states, ticks) && k < |ticks|
    ensures ticks[0].now <= ticks[k].now
  {
    if k > 0 {
      TimePasses(states, ticks, k - 1);
      assert ticks[k - 1].now <= ticks[k - 1 + 1].now;
    }
  }

  /**
    No starvation: with N sources and a cap of f, a source that is stale and out of cooldown is
    dispatched within N/f ticks, rounded up, whatever the other sources do, as long as dispatched
    sources get stamped.
  */
  lemma NoStarvation(states: seq<seq<Source>>, ticks: seq<Tick>, p: nat, f: nat, history: seq<int>) returns (k: nat)
    requires Ticks(states, ticks) && ticks != [] && p < |states[0]| && DistinctIds(states[0])
    requires Steady(states, ticks, p, f, history) && Patient(states, ticks, p)
    requires Judge(states[0][p], ticks[0]) == Eligible && |ticks| * f >= |states[0]|
    ensures k < |ticks| && p < |states[k]| && states[k][p] in Select(states[k], ticks[k]).dispatch
  {
    hide Judge, Select, Progress;
    k := 0;
    while k < |ticks| && states[k][p] !in Select(states[k], ticks[k]).dispatch
      invariant k <= |ticks|
      invariant k < |ticks| ==> p < |states[k]| && states[k][p] == states[0][p]
      invariant forall i: nat | i < k :: Waits(states, ticks, p, i)
    {
      TimePasses(states, ticks, k);
      assert ReadsHistory(ticks[0], states[0][p].id, history) && ReadsHistory(ticks[k], states[0][p].id, history);
      StaysEligible(states[0][p], history, ticks[0], ticks[k]);
      k := k + 1;
    }
    if k == |ticks| {
      OutOfOthers(states, ticks, p, f);
      assert false;
    }
  }

  lemma OutOfOthers(states: seq<seq<Source>>, ticks: seq<Tick>, p: nat, f: nat)
    requires Ticks(states, ticks) && ticks != [] && p < |states[0]| && DistinctIds(states[0])
    requires forall j | 0 <= j < |ticks| :: ticks[j].fanoutMax == f
    requires forall i: nat | i < |ticks| :: Waits(states, ticks, p, i)
    ensures |ticks| * f < |states[0]|
  {
    hide Judge, Select;
    var last := |ticks| - 1;
    WaitingShrinksAhead(states, ticks, p, last, f);
    assert Waits(states, ticks, p, last);
    DispatchedExactly(states[last], ticks[last], p);
    CardinalityLe(EligibleAhead(states[last], p, ticks[last]), Ahead(states[last], p));
    assert |ticks| * f == last * f + f;
  }

  // ----- submitting the jobs

  datatype Job = Job(key: string, sourceId: Option<string>)

  /** A job queue that keeps one row per idempotency key. */
  class JobQueue {
    var jobs: seq<Job>

    constructor ()
      ensures jobs == []
    {
      jobs := [];
    }

    method Add(job: Job)
      modifies this
      ensures jobs == Submitted(old(jobs), job)
    {
      if !HasKey(jobs, job.key) {
        jobs := jobs + [job];
      }
    }
  }

  predicate HasKey(jobs: seq<Job>, key: string) {
    exists i :: 0 <= i < |jobs| && jobs[i].key == key
  }

  function Submitted(jobs: seq<Job>, job: Job): seq<Job> {
    if HasKey(jobs, job.key) then jobs else jobs + [job]
  }

  function CycleKey(id: string, slot: string): string {
    "autopilot-cycle:" + id + ":" + slot
  }

  function CycleJob(s: Source, slot: string): Job {
    Job(CycleKey(s.id, slot), Some(s.id))
  }

  function LegacyJob(slot: string): Job {
    Job("autopilot-cycle:" + slot, None)
  }

  /** The queue after the accepted submissions; a refused one does not stop the rest. */
  function SubmittedAll(dispatch: seq<Source>, slot: string, accepts: Source -> bool, jobs: seq<Job>): seq<Job> {
    if dispatch == [] then jobs
    else
      var before, s := SubmittedAll(dispatch[..|dispatch| - 1], slot, accepts, jobs), dispatch[|dispatch| - 1];
      if accepts(s) then Submitted(before, CycleJob(s, slot)) else before
  }

  function Accepted(dispatch: seq<Source>, accepts: Source -> bool): seq<string> {
    if dispatch == [] then []
    else
      Accepted(dispatch[..|dispatch| - 1], accepts)
      + if accepts(dispatch[|dispatch| - 1]) then [dispatch[|dispatch| - 1].id] else []
  }

  datatype FanoutResult = FanoutResult(dispatched: seq<string>, skippedFresh: seq<string>, skippedCap: seq<string>,
                                       skippedCooldown: seq<string>, legacyFallback: bool)

  function Ids(sources: seq<Source>): (r: seq<string>)
    ensures |r| == |sources| && forall i | 0 <= i < |r| :: r[i] == sources[i].id
  {
    seq(|sources|, i requires 0 <= i < |sources| => sources[i].id)
  }

  /** One tick's dispatch; with no source rows it submits the single legacy job. */
  method DispatchPerSource(queue: JobQueue, sources: seq<Source>, tick: Tick, slot: string, accepts: Source -> bool)
    returns (r: FanoutResult)
    modifies queue
    ensures sources == [] ==> r == FanoutResult([], [], [], [], true) && queue.jobs == Submitted(old(queue.jobs), LegacyJob(slot))
    ensures sources != [] ==>
              var s := Select(sources, tick);
              && r == FanoutResult(Accepted(s.dispatch, accepts), Ids(s.skippedFresh), Ids(s.skippedCap),
                                   Ids(s.skippedCooldown), false)
              && queue.jobs == SubmittedAll(s.dispatch, slot, accepts, old(queue.jobs))
  {
    if |sources| == 0 {
      queue.Add(LegacyJob(slot));
      return FanoutResult([], [], [], [], true);
    }
    var dispatched := [];
    var selection := SelectSourcesForDispatch(sources, tick);
    var dispatch := selection.dispatch;
    for i := 0 to |dispatch|
      invariant dispatched == Accepted(dispatch[..i], accepts)
      invariant queue.jobs == SubmittedAll(dispatch[..i], slot, accepts, old(queue.jobs))
    {
      assert dispatch[..i + 1][..i] == dispatch[..i];
      if accepts(dispatch[i]) {
        queue.Add(CycleJob(dispatch[i], slot));
        dispatched := dispatched + [dispatch[i].id];
      }
    }
    assert dispatch[..|dispatch|] == dispatch;
    r := FanoutResult(dispatched, Ids(selection.skippedFresh), Ids(selection.skippedCap),
                      Ids(selection.skippedCooldown), false);
  }

  ghost predicate UniqueKeys(jobs: seq<Job>) {
    forall i, j | 0 <= i < j < |jobs| :: jobs[i].key != jobs[j].key
  }

  ghost predicate CycleJobOf(job: Job, dispatch: seq<Source>, slot: string, accepts: Source -> bool) {
    exists i :: 0 <= i < |dispatch| && accepts(dispatch[i]) && job == CycleJob(dispatch[i], slot)
  }

  lemma {:induction false} SubmitOnce(dispatch: seq<Source>, slot: string, accepts: Source -> bool, jobs: seq<Job>)
    requires UniqueKeys(jobs)
    ensures var after := SubmittedAll(dispatch, slot, accepts, jobs);
            && UniqueKeys(after) && jobs <= after
            && (forall i | 0 <= i < |dispatch| && accepts(dispatch[i]) :: HasKey(after, CycleKey(dispatch[i].id, slot)))
            && (forall i | |jobs| <= i < |after| :: CycleJobOf(after[i], dispatch, slot, accepts))
  {
    if dispatch != [] {
      var pre, s := dispatch[..|dispatch| - 1], dispatch[|dispatch| - 1];
      SubmitOnce(pre, slot, accepts, jobs);
      var before := SubmittedAll(pre, slot, accepts, jobs);
      var after := SubmittedAll(dispatch, slot, accepts, jobs);
      KeysStay(before, CycleJob(s, slot));
      forall i | 0 <= i < |dispatch| && accepts(dispatch[i]) ensures HasKey(after, CycleKey(dispatch[i].id, slot)) {
        if i < |pre| {
          assert dispatch[i] == pre[i];
        }
      }
      forall i | |jobs| <= i < |after| ensures CycleJobOf(after[i], dispatch, slot, accepts) {
        if i < |before| {
          assert after[i] == before[i];
          var j :| 0 <= j < |pre| && accepts(pre[j]) && before[i] == CycleJob(pre[j], slot);
          assert dispatch[j] == pre[j];
        } else {
          assert dispatch[|pre|] == s && accepts(s) && after[i] == CycleJob(s, slot);
        }
      }
    }
  }

  /** What one tick tries to submit. */
  datatype Round = Round(dispatch: seq<Source>, accepts: Source -> bool)

  /** The queue after several ticks of one slot. */
  function SubmittedInSlot(rounds: seq<Round>, slot: string, jobs: seq<Job>): seq<Job> {
    if rounds == [] then jobs
    else
      var last := rounds[|rounds| - 1];
      SubmittedAll(last.dispatch, slot, last.accepts, SubmittedInSlot(rounds[..|rounds| - 1], slot, jobs))
  }

  ghost predicate CycleJobOfSome(job: Job, rounds: seq<Round>, slot: string) {
    exists r :: 0 <= r < |rounds| && CycleJobOf(job, rounds[r].dispatch, slot, rounds[r].accepts)
  }

  /**
    However many ticks fall into one slot, the queue holds at most one job a key, every earlier job
    is kept, each source accepted at any of them has its job, and nothing else was added.
  */
  lemma {:induction false} SubmissionsCoalesce(rounds: seq<Round>, slot: string, jobs: seq<Job>)
    requires UniqueKeys(jobs)
    ensures var after := SubmittedInSlot(rounds, slot, jobs);
            && UniqueKeys(after) && jobs <= after
            && (forall r, s | 0 <= r < |rounds| && s in rounds[r].dispatch && rounds[r].accepts(s) ::
                  HasKey(after, CycleKey(s.id, slot)))
            && (forall i | |jobs| <= i < |after| :: CycleJobOfSome(after[i], rounds, slot))
  {
    hide SubmittedAll, CycleJobOf;
    if rounds != [] {
      var pre, last := rounds[..|rounds| - 1], rounds[|rounds| - 1];
      SubmissionsCoalesce(pre, slot, jobs);
      var before, after := SubmittedInSlot(pre, slot, jobs), SubmittedInSlot(rounds, slot, jobs);
      SubmitOnce(last.dispatch, slot, last.accepts, before);
      forall r, s | 0 <= r < |rounds| && s in rounds[r].dispatch && rounds[r].accepts(s)
        ensures HasKey(after, CycleKey(s.id, slot))
      {
        if r < |pre| {
          assert rounds[r] == pre[r];
          KeysGrow(before, after, CycleKey(s.id, slot));
        }
      }
      forall i | |jobs| <= i < |after| ensures CycleJobOfSome(after[i], rounds, slot) {
        if i < |before| {
          assert after[i] == before[i];
          var r :| 0 <= r < |pre| && CycleJobOf(before[i], pre[r].dispatch, slot, pre[r].accepts);
          assert rounds[r] == pre[r];
        } else {
          assert rounds[|pre|] == last;
        }
      }
    }
  }

  lemma KeysGrow(jobs: seq<Job>, more: seq<Job>, key: string)
    requires jobs <= more && HasKey(jobs, key)
    ensures HasKey(more, key)
  {
    var i :| 0 <= i < |jobs| && jobs[i].key == key;
    assert more[i].key == key;
  }

  lemma KeysStay(jobs: seq<Job>, job: Job)
    ensures HasKey(Submitted(jobs, job), job.key)
    ensures forall key | HasKey(jobs, key) :: HasKey(Submitted(jobs, job), key)
  {
    if !HasKey(jobs, job.key) {
      var after := jobs + [job];
      assert after[|jobs|] == job;
      forall key | HasKey(jobs, key) ensures HasKey(after, key) {
        var i :| 0 <= i < |jobs| && jobs[i].key == key;
        assert after[i].key == key;
      }
    }
  }

  /**
    Slots are stamps of one length, so a key names its source and its slot, and no source's key is
    the legacy one. Without that, source ids free of colons tell the keys apart.
  */
  lemma CycleKeysDiffer(a: string, b: string, slot: string, other: string)
    requires |slot| == |other| || (':' !in a && ':' !in b)
    ensures CycleKey(a, slot) == CycleKey(b, other) <==> a == b && slot == other
    ensures |slot| == |other| ==> CycleKey(a, slot) != LegacyJob(other).key
    ensures LegacyJob(slot).key == LegacyJob(other).key <==> slot == other
  {
    var prefix := "autopilot-cycle:";
    var k := CycleKey(a, slot);
    assert k == prefix + (a + ":" + slot);
    assert CycleKey(b, other) == prefix + (b + ":" + other);
    SamePrefix(prefix, a + ":" + slot, b + ":" + other);
    SamePrefix(prefix, a + ":" + slot, other);
    SamePrefix(prefix, slot, other);
    if a + ":" + slot == b + ":" + other {
      SameParts(a, b, slot, other);
    }
  }

  lemma SamePrefix(prefix: string, x: string, y: string)
    ensures prefix + x == prefix + y <==> x == y
  {
    assert (prefix + x)[|prefix|..] == x && (prefix + y)[|prefix|..] == y;
  }

  lemma SameParts(a: string, b: string, slot: string, other: string)
    requires |slot| == |other| || (':' !in a && ':' !in b)
    requires a + ":" + slot == b + ":" + other
    ensures a == b && slot == other
  {
    var t := a + ":" + slot;
    assert t[|a|] == ':' && t[|b|] == ':';
    assert forall i | 0 <= i < |a| :: t[i] in a;
    assert forall i | 0 <= i < |b| :: t[i] in b;
    assert |a| == |b|;
    assert a == t[..|a|] && b == t[..|b|];
    assert slot == t[|a| + 1..] && other == t[|b| + 1..];
  }

  /** The tick reports the ids whose submission was accepted, in dispatch order, and no others. */
  lemma {:induction false} AcceptedExactly(dispatch: seq<Source>, accepts: Source -> bool)
    ensures Accepted(dispatch, accepts) == Ids(Filter(accepts, dispatch))
  {
    if dispatch != [] {
      var pre, s := dispatch[..|dispatch| - 1], dispatch[|dispatch| - 1];
      AcceptedExactly(pre, accepts);
      assert dispatch == pre + [s];
      FilterSnoc(accepts, pre, s);
    }
  }

  /** The rows the sources get in a slot: one each, under its own key. */
  function RowsOf(sources: seq<Source>, slot: string): seq<Job> {
    seq(|sources|, i requires 0 <= i < |sources| =>
      Job("autopilot-cycle:" + sources[i].id + ":" + slot, Some(sources[i].id)))
  }

  /** In a slot none of whose keys is queued yet, every accepted source gets a row of its own, in order. */
  lemma {:induction false} NewSlotReopens(dispatch: seq<Source>, slot: string, accepts: Source -> bool, jobs: seq<Job>)
    requires DistinctIds(dispatch)
    requires forall i, s | 0 <= i < |jobs| && s in dispatch :: jobs[i].key != CycleKey(s.id, slot)
    ensures SubmittedAll(dispatch, slot, accepts, jobs) == jobs + RowsOf(Filter(accepts, dispatch), slot)
  {
    hide CycleKey;
    if dispatch != [] {
      var pre, s := dispatch[..|dispatch| - 1], dispatch[|dispatch| - 1];
      assert dispatch == pre + [s];
      NewSlotReopens(pre, slot, accepts, jobs);
      FilterSnoc(accepts, pre, s);
      RowsSnoc(Filter(accepts, pre), s, slot);
      assert SubmittedAll(pre, slot, accepts, jobs) == jobs + RowsOf(Filter(accepts, pre), slot);
      RowFree(pre, s, slot, accepts, jobs);
    }
  }

  lemma {:induction false} RowsSnoc(sources: seq<Source>, s: Source, slot: string)
    ensures RowsOf(sources + [s], slot) == RowsOf(sources, slot) + [CycleJob(s, slot)]
  {
  }

  lemma {:induction false} RowFree(pre: seq<Source>, s: Source, slot: string, accepts: Source -> bool, jobs: seq<Job>)
    requires DistinctIds(pre + [s])
    requires forall i | 0 <= i < |jobs| :: jobs[i].key != CycleKey(s.id, slot)
    ensures !HasKey(jobs + RowsOf(Filter(accepts, pre), slot), CycleKey(s.id, slot))
  {
    var mine, rows := Filter(accepts, pre), RowsOf(Filter(accepts, pre), slot);
    forall i | 0 <= i < |rows| ensures rows[i].key != CycleKey(s.id, slot) {
      FilterMembers(accepts, pre, mine[i]);
      var k :| 0 <= k < |pre| && pre[k] == mine[i];
      assert (pre + [s])[k].id != (pre + [s])[|pre|].id;
      CycleKeysDiffer(mine[i].id, s.id, slot, slot);
    }
  }
}
