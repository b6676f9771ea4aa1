/** The daily-capped automatic backlog drain of the autopilot loop (commands/autopilot.ts). */
module AutoDrain {
  import StringOrder
  import opened Sorting

  /** A drain job's row; `day` is the UTC date it was created on, as ten characters. */
  datatype Job = Job(key: string, day: string)

  datatype Backlog = Count(n: int) | Unknown | Unreadable

  /** A source as one tick finds it; `accepts` is false when the key lookup or the submission throws. */
  datatype Source = Source(id: string, hasPath: bool, backlog: Backlog, accepts: bool)

  /**
    One pass of the drain block. `active` stands for the enclosing gates (engine, switch, pack);
    `counted` is false when the count of today's jobs could not be read.
  */
  datatype Tick = Tick(day: string, active: bool, threshold: int, maxUsd: real, counted: bool, sources: seq<Source>)

  const PER_RUN_USD := 0.3

  function MaxJobs(maxUsd: real): nat {
    var n := (maxUsd / PER_RUN_USD).Floor;
    if n < 0 then 0 else n
  }

  /** The budget pays for the capped number of runs and for no run more. */
  lemma MaxJobsFillsBudget(maxUsd: real, n: nat)
    requires maxUsd >= 0.0
    ensures n <= MaxJobs(maxUsd) <==> n as real * 0.3 <= maxUsd
  {
    var q := maxUsd / 0.3;
    assert q * 0.3 == maxUsd && q >= 0.0;
    assert MaxJobs(maxUsd) == q.Floor;
    assert n <= q.Floor <==> n as real <= q;
  }

  function KeyFor(id: string, day: string): string {
    "autopilot-extract-atoms-drain:" + id + ":" + day
  }

  predicate HasKey(jobs: seq<Job>, key: string) {
    exists i :: 0 <= i < |jobs| && jobs[i].key == key
  }

  /** Rows created on `day` or later. */
  function CountFrom(jobs: seq<Job>, day: string): nat {
    if jobs == [] then 0
    else CountFrom(jobs[..|jobs| - 1], day) + if StringOrder.Leq(day, jobs[|jobs| - 1].day) then 1 else 0
  }

  /** Past the path and backlog checks. */
  predicate Overdue(s: Source, threshold: int) {
    s.hasPath && s.backlog.Count? && s.backlog.n > threshold
  }

  function Drain(jobs: seq<Job>, submitted: nat, t: Tick, sources: seq<Source>): seq<Job>
    decreases |sources|
  {
    if sources == [] || submitted >= MaxJobs(t.maxUsd) then jobs
    else
      var s, rest := sources[0], sources[1..];
      if s.hasPath && s.backlog.Unreadable? then jobs
      else if !Overdue(s, t.threshold) || !s.accepts || HasKey(jobs, KeyFor(s.id, t.day)) then
        Drain(jobs, submitted, t, rest)
      else Drain(jobs + [Job(KeyFor(s.id, t.day), t.day)], submitted + 1, t, rest)
  }

  function Submitted(jobs: seq<Job>, t: Tick): nat {
    if t.counted then CountFrom(jobs, t.day) else 0
  }

  function AfterTick(jobs: seq<Job>, t: Tick): seq<Job> {
    if t.active then Drain(jobs, Submitted(jobs, t), t, t.sources) else jobs
  }

  class JobTable {
    var jobs: seq<Job>

    constructor ()
      ensures jobs == []
    {
      jobs := [];
    }

    /** The queue keeps one row per idempotency key. */
    method Add(key: string, day: string)
      modifies this
      ensures jobs == if HasKey(old(jobs), key) then old(jobs) else old(jobs) + [Job(key, day)]
    {
      if !HasKey(jobs, key) {
        jobs := jobs + [Job(key, day)];
      }
    }

    method AutoDrain(t: Tick)
      modifies this
      ensures jobs == AfterTick(old(jobs), t)
    {
      if !t.active {
        return;
      }
      var submittedToday: nat := Submitted(jobs, t);
      ghost var final := Drain(jobs, submittedToday, t, t.sources);
      var i := 0;
      assert t.sources[0..] == t.sources;
      while i < |t.sources| && submittedToday < MaxJobs(t.maxUsd)
        invariant 0 <= i <= |t.sources|
        invariant Drain(jobs, submittedToday, t, t.sources[i..]) == final
      {
        var s := t.sources[i];
        assert t.sources[i..][0] == s && t.sources[i..][1..] == t.sources[i + 1..];
        i := i + 1;
        if !s.hasPath {
          continue;
        }
        if s.backlog.Unreadable? {
          return;
        }
        if s.backlog.Unknown? || s.backlog.n <= t.threshold {
          continue;
        }
        var key := KeyFor(s.id, t.day);
        if !s.accepts || HasKey(jobs, key) {
          continue;
        }
        Add(key, t.day);
        submittedToday := submittedToday + 1;
      }
    }
  }

  // ----- one tick

  ghost predicate OneRowPerKey(jobs: seq<Job>) {
    forall i, j | 0 <= i < j < |jobs| :: jobs[i].key != jobs[j].key
  }

  ghost predicate AllOn(jobs: seq<Job>, day: string) {
    forall i | 0 <= i < |jobs| :: jobs[i].day == day
  }

  lemma {:induction false} CountSnoc(jobs: seq<Job>, j: Job, day: string)
    ensures CountFrom(jobs + [j], day) == CountFrom(jobs, day) + if StringOrder.Leq(day, j.day) then 1 else 0
  {
    assert (jobs + [j])[..|jobs|] == jobs;
  }

  /** A pass only adds rows of its own day, one per new key, and no more than the cap leaves room for. */
  lemma {:induction false} DrainAddsWithinRoom(jobs: seq<Job>, submitted: nat, t: Tick, sources: seq<Source>)
    requires OneRowPerKey(jobs)
    ensures var r := Drain(jobs, submitted, t, sources);
            && jobs <= r && OneRowPerKey(r) && AllOn(r[|jobs|..], t.day)
            && CountFrom(r, t.day) == CountFrom(jobs, t.day) + |r| - |jobs|
            && |r| - |jobs| <= (if submitted < MaxJobs(t.maxUsd) then MaxJobs(t.maxUsd) - submitted else 0)
    decreases |sources|
  {
    hide HasKey, CountFrom, KeyFor, MaxJobs;
    if sources == [] || submitted >= MaxJobs(t.maxUsd) {
    } else {
      var s, rest := sources[0], sources[1..];
      if s.hasPath && s.backlog.Unreadable? {
      } else if !Overdue(s, t.threshold) || !s.accepts || HasKey(jobs, KeyFor(s.id, t.day)) {
        DrainAddsWithinRoom(jobs, submitted, t, rest);
      } else {
        var j := Job(KeyFor(s.id, t.day), t.day);
        NewKey(jobs, j);
        CountSnoc(jobs, j, t.day);
        StringOrder.Total(t.day, t.day);
        DrainAddsWithinRoom(jobs + [j], submitted + 1, t, rest);
        var r := Drain(jobs + [j], submitted + 1, t, rest);
        PrefixThrough(jobs, j, r, t.day);
      }
    }
  }

  lemma NewKey(jobs: seq<Job>, j: Job)
    requires OneRowPerKey(jobs) && !HasKey(jobs, j.key)
    ensures OneRowPerKey(jobs + [j])
  {
  }

  lemma PrefixThrough(jobs: seq<Job>, j: Job, r: seq<Job>, day: string)
    requires jobs + [j] <= r && j.day == day && AllOn(r[|jobs| + 1..], day)
    ensures jobs <= r && AllOn(r[|jobs|..], day)
  {
    assert r[|jobs|..] == [j] + r[|jobs| + 1..];
  }

  // ----- a day

  function Day(jobs: seq<Job>, ticks: seq<Tick>): seq<Job> {
    if ticks == [] then jobs else AfterTick(Day(jobs, ticks[..|ticks| - 1]), ticks[|ticks| - 1])
  }

  /** Passes that act on an unread count. */
  predicate ActsBlind(t: Tick) {
    t.active && !t.counted
  }

  function Blind(ticks: seq<Tick>): nat {
    if ticks == [] then 0 else Blind(ticks[..|ticks| - 1]) + if ActsBlind(ticks[|ticks| - 1]) then 1 else 0
  }

  ghost predicate SameDay(ticks: seq<Tick>, day: string, cap: nat) {
    forall i | 0 <= i < |ticks| :: ticks[i].day == day && MaxJobs(ticks[i].maxUsd) == cap
  }

  function Times(n: nat, cap: nat): nat {
    if n == 0 then 0 else Times(n - 1, cap) + cap
  }

  function Max(a: nat, b: nat): nat {
    if a < b then b else a
  }

  /**
    The day's jobs stay within the larger of the cap and what was there before, except that every
    pass on an unread count may add one more cap's worth. No source gets a second job.
  */
  lemma {:induction false} DayStaysWithinCap(jobs: seq<Job>, ticks: seq<Tick>, day: string, cap: nat)
    requires OneRowPerKey(jobs) && SameDay(ticks, day, cap)
    ensures var r := Day(jobs, ticks);
            && jobs <= r && OneRowPerKey(r) && AllOn(r[|jobs|..], day)
            && CountFrom(r, day) == CountFrom(jobs, day) + |r| - |jobs|
            && CountFrom(r, day) <= Max(CountFrom(jobs, day), cap) + Times(Blind(ticks), cap)
  {
    hide Drain, CountFrom, MaxJobs;
    if ticks != [] {
      var m := |ticks| - 1;
      DayStaysWithinCap(jobs, ticks[..m], day, cap);
      var before := Day(jobs, ticks[..m]);
      var t := ticks[m];
      DrainAddsWithinRoom(before, Submitted(before, t), t, t.sources);
      var r := AfterTick(before, t);
      assert jobs <= before <= r;
      assert r[|jobs|..] == before[|jobs|..] + r[|before|..];
    }
  }

  /** The cap in dollars: on a fresh day with readable counts the runs cost at most the budget. */
  lemma {:induction false} DayStaysWithinBudget(jobs: seq<Job>, ticks: seq<Tick>, day: string, maxUsd: real)
    requires OneRowPerKey(jobs) && maxUsd >= 0.0 && CountFrom(jobs, day) == 0
    requires forall i | 0 <= i < |ticks| :: ticks[i].day == day && ticks[i].maxUsd == maxUsd && ticks[i].counted
    ensures (|Day(jobs, ticks)| - |jobs|) as real * 0.3 <= maxUsd
  {
    hide Day, CountFrom, MaxJobs, Blind, OneRowPerKey, AllOn;
    DayStaysWithinCap(jobs, ticks, day, MaxJobs(maxUsd));
    NeverBlind(ticks);
    MaxJobsFillsBudget(maxUsd, |Day(jobs, ticks)| - |jobs|);
  }

  lemma {:induction false} NeverBlind(ticks: seq<Tick>)
    requires forall i | 0 <= i < |ticks| :: ticks[i].counted
    ensures Blind(ticks) == 0
  {
    if ticks != [] {
      NeverBlind(ticks[..|ticks| - 1]);
    }
  }

  /** The key is the source and the day: no two sources share one and a new day opens a new slot. */
  lemma KeysDiffer(id: string, day: string, id': string, day': string)
    requires |day| == 10 && |day'| == 10
    ensures KeyFor(id, day) == KeyFor(id', day') <==> id == id' && day == day'
  {
    var k, k' := KeyFor(id, day), KeyFor(id', day');
    var prefix := "autopilot-extract-atoms-drain:";
    if k == k' {
      assert k[|k| - 10..] == day && k'[|k'| - 10..] == day';
      assert k[|prefix|..|k| - 11] == id && k'[|prefix|..|k'| - 11] == id';
    }
  }

  /** Without the count a second pass can take the day past the cap. */
  lemma UnreadCountCanExceedCap()
    ensures exists ticks: seq<Tick>, day ::
              && SameDay(ticks, day, 1) && Blind(ticks) == 1
              && CountFrom(Day([], ticks), day) == 2
  {
    hide Drain, CountFrom, KeyFor, MaxJobs, Day, Blind, HasKey, StringOrder.Leq;
    var day := "2026-01-01";
    var a, b := Source("a", true, Count(9), true), Source("b", true, Count(9), true);
    var first, second := Tick(day, true, 1, 0.3, true, [a]), Tick(day, true, 1, 0.3, false, [b]);
    var ja, jb := Job(KeyFor("a", day), day), Job(KeyFor("b", day), day);
    MaxJobsFillsBudget(0.3, 1);
    MaxJobsFillsBudget(0.3, 2);
    KeysDiffer("a", day, "b", day);
    StringOrder.Total(day, day);
    NothingYet(day);
    KeyOfOne(ja, jb.key);
    OneSource([], 0, first, a);
    OneSource([ja], 0, second, b);
    CountSnoc([], ja, day);
    CountSnoc([ja], jb, day);
    DaySnoc([], [], first);
    DaySnoc([], [first], second);
    assert [] + [ja] == [ja] && [] + [first] == [first];
    assert SameDay([first] + [second], day, 1);
  }

  lemma {:induction false} NothingYet(day: string)
    ensures CountFrom([], day) == 0 && Day([], []) == [] && Blind([]) == 0
  {
  }

  lemma KeyOfOne(j: Job, key: string)
    ensures !HasKey([], j.key) && (HasKey([j], key) <==> j.key == key)
  {
    assert [j][0] == j;
  }

  lemma {:induction false} DaySnoc(jobs: seq<Job>, ticks: seq<Tick>, t: Tick)
    ensures Day(jobs, ticks + [t]) == AfterTick(Day(jobs, ticks), t)
    ensures Blind(ticks + [t]) == Blind(ticks) + if ActsBlind(t) then 1 else 0
  {
    assert (ticks + [t])[..|ticks|] == ticks;
  }

  lemma {:induction false} OneSource(jobs: seq<Job>, submitted: nat, t: Tick, s: Source)
    requires submitted < MaxJobs(t.maxUsd) && Overdue(s, t.threshold) && s.accepts
    requires !HasKey(jobs, KeyFor(s.id, t.day))
    ensures Drain(jobs, submitted, t, [s]) == jobs + [Job(KeyFor(s.id, t.day), t.day)]
  {
    assert [s][1..] == [];
  }

  // ----- which sources are drained

  /** The sources a pass would drain if there were room for all, in order; an unreadable backlog ends the pass. */
  function Due(jobs: seq<Job>, t: Tick, sources: seq<Source>): seq<Source> {
    if sources == [] || (sources[0].hasPath && sources[0].backlog.Unreadable?) then []
    else
      var s := sources[0];
      (if Overdue(s, t.threshold) && s.accepts && !HasKey(jobs, KeyFor(s.id, t.day)) then [s] else [])
      + Due(jobs, t, sources[1..])
  }

  function JobsFor(sources: seq<Source>, day: string): (r: seq<Job>) {
    if sources == [] then [] else [Job(KeyFor(sources[0].id, day), day)] + JobsFor(sources[1..], day)
  }

  function FirstOf(n: nat, sources: seq<Source>): seq<Source> {
    if n < |sources| then sources[..n] else sources
  }

  ghost predicate DistinctIds(sources: seq<Source>) {
    forall i, j | 0 <= i < j < |sources| :: sources[i].id != sources[j].id
  }

  /** A pass drains exactly the first due sources the cap has room for. */
  lemma {:induction false} DrainTakesFirstDue(jobs: seq<Job>, submitted: nat, t: Tick, sources: seq<Source>)
    requires |t.day| == 10 && DistinctIds(sources) && submitted <= MaxJobs(t.maxUsd)
    ensures Drain(jobs, submitted, t, sources)
         == jobs + JobsFor(FirstOf(MaxJobs(t.maxUsd) - submitted, Due(jobs, t, sources)), t.day)
    decreases |sources|
  {
    hide HasKey, KeyFor, MaxJobs, JobsFor, FirstOf;
    var room := MaxJobs(t.maxUsd) - submitted;
    NoneTaken(sources, t.day);
    if sources == [] || room == 0 {
      NoneTaken(Due(jobs, t, sources), t.day);
    } else if !(sources[0].hasPath && sources[0].backlog.Unreadable?) {
      var s, rest := sources[0], sources[1..];
      if !Overdue(s, t.threshold) || !s.accepts || HasKey(jobs, KeyFor(s.id, t.day)) {
        DrainTakesFirstDue(jobs, submitted, t, rest);
        assert Due(jobs, t, sources) == Due(jobs, t, rest);
      } else {
        var j := Job(KeyFor(s.id, t.day), t.day);
        DrainTakesFirstDue(jobs + [j], submitted + 1, t, rest);
        DueIgnoresOthers(jobs, j, s.id, t, rest);
        var due := Due(jobs, t, rest);
        OneTaken(jobs, room, s, due, t.day);
      }
    }
  }

  /** How far the pass reads the list: up to the first source with a path whose backlog cannot be read. */
  ghost predicate ReadsUpTo(sources: seq<Source>, c: nat) {
    && c <= |sources|
    && (forall i | 0 <= i < c :: !(sources[i].hasPath && sources[i].backlog.Unreadable?))
    && (c < |sources| ==> sources[c].hasPath && sources[c].backlog.Unreadable?)
  }

  /**
    Due is what has a path, a backlog above the threshold, no row under today's key and a queue that
    takes it, among the sources read.
  */
  lemma {:induction false} DueExactly(jobs: seq<Job>, t: Tick, sources: seq<Source>, c: nat)
    requires ReadsUpTo(sources, c)
    ensures Due(jobs, t, sources)
         == Filter((s: Source) =>
                     && s.hasPath && s.backlog.Count? && s.backlog.n > t.threshold && s.accepts
                     && forall i | 0 <= i < |jobs| :: jobs[i].key != "autopilot-extract-atoms-drain:" + s.id + ":" + t.day,
                   sources[..c])
    decreases c
  {
    if c > 0 {
      assert sources[..c][1..] == sources[1..][..c - 1];
      DueExactly(jobs, t, sources[1..], c - 1);
    }
  }

  /** The positions of the rows created on `day` or later. */
  ghost function RowsFrom(jobs: seq<Job>, day: string): set<int> {
    set i | 0 <= i < |jobs| && StringOrder.Leq(day, jobs[i].day)
  }

  lemma {:induction false} CountIsSize(jobs: seq<Job>, day: string)
    ensures CountFrom(jobs, day) == |RowsFrom(jobs, day)|
  {
    hide StringOrder.Leq;
    if jobs != [] {
      var m := |jobs| - 1;
      CountIsSize(jobs[..m], day);
      var before := RowsFrom(jobs[..m], day);
      assert RowsFrom(jobs, day) == if StringOrder.Leq(day, jobs[m].day) then before + {m} else before;
    }
  }

  /** The rows one pass leaves: today's rows, where they can be counted, are taken off the cap first. */
  lemma {:induction false} PassTakesFirstDue(jobs: seq<Job>, t: Tick, room: nat)
    requires |t.day| == 10 && DistinctIds(t.sources)
    requires var today := if t.counted then |RowsFrom(jobs, t.day)| else 0;
             room == if today <= MaxJobs(t.maxUsd) then MaxJobs(t.maxUsd) - today else 0
    ensures !t.active ==> AfterTick(jobs, t) == jobs
    ensures t.active ==> AfterTick(jobs, t) == jobs + JobsFor(FirstOf(room, Due(jobs, t, t.sources)), t.day)
  {
    hide Due, MaxJobs, JobsFor, FirstOf, CountFrom;
    CountIsSize(jobs, t.day);
    var submitted := Submitted(jobs, t);
    if submitted <= MaxJobs(t.maxUsd) {
      DrainTakesFirstDue(jobs, submitted, t, t.sources);
    } else {
      NoneTaken(Due(jobs, t, t.sources), t.day);
    }
  }

  lemma {:induction false} NoneTaken(due: seq<Source>, day: string)
    ensures JobsFor(FirstOf(0, due), day) == []
    ensures forall n: nat :: JobsFor(FirstOf(n, []), day) == []
  {
  }

  lemma {:induction false} OneTaken(jobs: seq<Job>, room: nat, s: Source, due: seq<Source>, day: string)
    requires room > 0
    ensures var j := Job(KeyFor(s.id, day), day);
            (jobs + [j]) + JobsFor(FirstOf(room - 1, due), day) == jobs + JobsFor(FirstOf(room, [s] + due), day)
  {
    var more := FirstOf(room - 1, due);
    assert FirstOf(room, [s] + due) == [s] + more;
    assert ([s] + more)[1..] == more;
  }

  lemma {:induction false} DueIgnoresOthers(jobs: seq<Job>, j: Job, id: string, t: Tick, sources: seq<Source>)
    requires |t.day| == 10 && j.key == KeyFor(id, t.day)
    requires forall i | 0 <= i < |sources| :: sources[i].id != id
    ensures Due(jobs + [j], t, sources) == Due(jobs, t, sources)
  {
    if sources != [] {
      var s := sources[0];
      DueIgnoresOthers(jobs, j, id, t, sources[1..]);
      OtherKey(jobs, j, id, s.id, t.day);
    }
  }

  lemma OtherKey(jobs: seq<Job>, j: Job, id: string, other: string, day: string)
    requires |day| == 10 && j.key == KeyFor(id, day) && other != id
    ensures HasKey(jobs + [j], KeyFor(other, day)) <==> HasKey(jobs, KeyFor(other, day))
  {
    hide KeyFor;
    KeysDiffer(id, day, other, day);
    var all := jobs + [j];
    assert all[|jobs|] == j && forall i | 0 <= i < |jobs| :: all[i] == jobs[i];
  }

  // ----- which schedules keep the cap

  /** No row of the day yet, and no key of it taken. */
  ghost predicate FreshDay(jobs: seq<Job>, day: string) {
    OneRowPerKey(jobs) && CountFrom(jobs, day) == 0 && forall id :: !HasKey(jobs, KeyFor(id, day))
  }

  /** The same passes over whatever sources. */
  ghost predicate SameSchedule(ticks: seq<Tick>, others: seq<Tick>) {
    |others| == |ticks| && forall i | 0 <= i < |ticks| :: others[i] == ticks[i].(sources := others[i].sources)
  }

  /** After the first active pass, an active one acts on an unread count. */
  ghost predicate Overlooks(ticks: seq<Tick>) {
    exists i, j :: 0 <= i < j < |ticks| && ticks[i].active && ActsBlind(ticks[j])
  }

  ghost predicate NoneActive(ticks: seq<Tick>) {
    forall i | 0 <= i < |ticks| :: !ticks[i].active
  }

  lemma {:induction false} WatchfulDayStaysWithinCap(jobs: seq<Job>, ticks: seq<Tick>, day: string, cap: nat)
    requires OneRowPerKey(jobs) && CountFrom(jobs, day) == 0 && SameDay(ticks, day, cap) && !Overlooks(ticks)
    ensures OneRowPerKey(Day(jobs, ticks)) && CountFrom(Day(jobs, ticks), day) <= cap
    ensures NoneActive(ticks) ==> Day(jobs, ticks) == jobs
  {
    hide Drain, CountFrom, MaxJobs;
    if ticks != [] {
      var m := |ticks| - 1;
      var before, t := Day(jobs, ticks[..m]), ticks[m];
      assert !Overlooks(ticks[..m]) by {
        assert forall i | 0 <= i < m :: ticks[..m][i] == ticks[i];
      }
      WatchfulDayStaysWithinCap(jobs, ticks[..m], day, cap);
      if ActsBlind(t) {
        forall i | 0 <= i < m ensures !ticks[..m][i].active {
          assert ticks[..m][i] == ticks[i];
        }
      }
      DrainAddsWithinRoom(before, Submitted(before, t), t, t.sources);
    }
  }

  lemma {:induction false} TimesZero(n: nat)
    ensures Times(n, 0) == 0
  {
    if n > 0 {
      TimesZero(n - 1);
    }
  }

  /** `n` sources with backlogs above the threshold, under names of different lengths. */
  function Name(n: nat): (r: string)
    ensures |r| == n
  {
    seq(n, _ => 'a')
  }

  function Behind(n: nat, threshold: int): Source {
    Source(Name(n), true, Count(threshold + 1), true)
  }

  function Crowd(n: nat, threshold: int): (r: seq<Source>)
    ensures |r| == n && forall i | 0 <= i < n :: r[i] == Behind(i, threshold)
  {
    seq(n, i requires 0 <= i < n => Behind(i, threshold))
  }

  /** The schedule with a cap's worth of sources at pass `i` and one more at pass `j`. */
  function Overrun(ticks: seq<Tick>, i: nat, j: nat, cap: nat): (r: seq<Tick>)
    ensures |r| == |ticks|
  {
    seq(|ticks|, k requires 0 <= k < |ticks| =>
      ticks[k].(sources := if k == i then Crowd(cap, ticks[k].threshold)
                           else if k == j then [Behind(cap, ticks[k].threshold)] else []))
  }

  lemma {:induction false} AllDue(jobs: seq<Job>, t: Tick, sources: seq<Source>)
    requires forall i | 0 <= i < |sources| ::
               Overdue(sources[i], t.threshold) && sources[i].accepts && !HasKey(jobs, KeyFor(sources[i].id, t.day))
    ensures Due(jobs, t, sources) == sources
  {
    hide HasKey, KeyFor;
    if sources != [] {
      assert forall i | 0 <= i < |sources[1..]| :: sources[1..][i] == sources[i + 1];
      AllDue(jobs, t, sources[1..]);
      assert sources == [sources[0]] + sources[1..];
    }
  }

  /** A pass whose count is zero or unread submits up to a cap's worth of new sources, all of them. */
  lemma {:induction false} PassSubmitsAll(jobs: seq<Job>, t: Tick, cap: nat)
    requires |t.day| == 10 && t.active && MaxJobs(t.maxUsd) == cap && |t.sources| <= cap && DistinctIds(t.sources)
    requires !t.counted || CountFrom(jobs, t.day) == 0
    requires forall i | 0 <= i < |t.sources| ::
               Overdue(t.sources[i], t.threshold) && t.sources[i].accepts && !HasKey(jobs, KeyFor(t.sources[i].id, t.day))
    ensures AfterTick(jobs, t) == jobs + JobsFor(t.sources, t.day)
  {
    hide Drain, CountFrom, MaxJobs, HasKey, KeyFor, JobsFor, Due;
    DrainTakesFirstDue(jobs, 0, t, t.sources);
    AllDue(jobs, t, t.sources);
    assert t.sources[..|t.sources|] == t.sources;
  }

  lemma {:induction false} JobsForAt(sources: seq<Source>, day: string)
    ensures |JobsFor(sources, day)| == |sources|
    ensures forall i | 0 <= i < |sources| :: JobsFor(sources, day)[i] == Job(KeyFor(sources[i].id, day), day)
  {
    if sources != [] {
      JobsForAt(sources[1..], day);
    }
  }

  lemma {:induction false} CountMore(jobs: seq<Job>, more: seq<Job>, day: string)
    requires AllOn(more, day)
    ensures CountFrom(jobs + more, day) == CountFrom(jobs, day) + |more|
  {
    hide CountFrom;
    if more == [] {
      assert jobs + more == jobs;
    } else {
      var m := |more| - 1;
      CountMore(jobs, more[..m], day);
      CountSnoc(jobs + more[..m], more[m], day);
      StringOrder.Total(day, day);
      assert jobs + more == (jobs + more[..m]) + [more[m]];
    }
  }

  lemma {:induction false} IdlePass(jobs: seq<Job>, t: Tick)
    requires t.sources == []
    ensures AfterTick(jobs, t) == jobs
  {
  }

  lemma {:induction false} CrowdPass(jobs: seq<Job>, t: Tick, cap: nat)
    requires |t.day| == 10 && FreshDay(jobs, t.day) && t.active && MaxJobs(t.maxUsd) == cap
    requires t.sources == Crowd(cap, t.threshold)
    ensures AfterTick(jobs, t) == jobs + JobsFor(t.sources, t.day)
  {
    hide CountFrom, MaxJobs, HasKey, KeyFor, JobsFor, AfterTick;
    forall i, j | 0 <= i < j < cap ensures t.sources[i].id != t.sources[j].id {
      assert |t.sources[i].id| == i && |t.sources[j].id| == j;
    }
    PassSubmitsAll(jobs, t, cap);
  }

  lemma {:induction false} OneMorePass(jobs: seq<Job>, crowd: seq<Source>, t: Tick, cap: nat)
    requires |t.day| == 10 && FreshDay(jobs, t.day) && ActsBlind(t) && MaxJobs(t.maxUsd) == cap >= 1
    requires |crowd| == cap && forall i | 0 <= i < cap :: crowd[i].id == Name(i)
    requires t.sources == [Behind(cap, t.threshold)]
    ensures AfterTick(jobs + JobsFor(crowd, t.day), t) == jobs + JobsFor(crowd, t.day) + [Job(KeyFor(Name(cap), t.day), t.day)]
  {
    hide CountFrom, MaxJobs, JobsFor, AfterTick, KeyFor;
    var before, key := jobs + JobsFor(crowd, t.day), KeyFor(Name(cap), t.day);
    JobsForAt(crowd, t.day);
    forall i | 0 <= i < |before| ensures before[i].key != key {
      if i < |jobs| {
        assert !HasKey(jobs, key) && before[i] == jobs[i];
      } else {
        KeysDiffer(Name(i - |jobs|), t.day, Name(cap), t.day);
      }
    }
    PassSubmitsAll(before, t, cap);
    JobsForAt(t.sources, t.day);
    assert JobsFor(t.sources, t.day) == [Job(key, t.day)];
  }

  lemma {:induction false} OverrunDay(jobs: seq<Job>, ticks: seq<Tick>, day: string, cap: nat, i: nat, j: nat, n: nat)
    requires |day| == 10 && FreshDay(jobs, day) && SameDay(ticks, day, cap) && cap >= 1
    requires i < j < |ticks| && ticks[i].active && ActsBlind(ticks[j]) && n <= |ticks|
    ensures Day(jobs, Overrun(ticks, i, j, cap)[..n])
         == jobs + (if n > i then JobsFor(Crowd(cap, ticks[i].threshold), day) else [])
          + (if n > j then [Job(KeyFor(Name(cap), day), day)] else [])
  {
    hide AfterTick, JobsFor, MaxJobs, KeyFor, FreshDay;
    var ts := Overrun(ticks, i, j, cap);
    if n == 0 {
      assert ts[..0] == [] && jobs + [] + [] == jobs;
    } else {
      OverrunDay(jobs, ticks, day, cap, i, j, n - 1);
      assert ts[..n][..n - 1] == ts[..n - 1];
      var before, t := Day(jobs, ts[..n - 1]), ts[n - 1];
      if n - 1 == i {
        assert before == jobs;
        CrowdPass(jobs, t, cap);
      } else if n - 1 == j {
        var crowd := Crowd(cap, ticks[i].threshold);
        assert before == jobs + JobsFor(crowd, day);
        OneMorePass(jobs, crowd, t, cap);
      } else {
        IdlePass(before, t);
      }
    }
  }

  /**
    The cap, exactly: from a fresh day a schedule keeps within it, whatever the sources, if and only
    if no active pass after the first acts on an unread count, or nothing may be submitted at all.
  */
  lemma {:induction false} CapHoldsExactly(jobs: seq<Job>, ticks: seq<Tick>, day: string, cap: nat)
    requires |day| == 10 && FreshDay(jobs, day) && SameDay(ticks, day, cap)
    ensures (forall ts | SameSchedule(ticks, ts) :: CountFrom(Day(jobs, ts), day) <= cap)
            <==> cap == 0 || !Overlooks(ticks)
  {
    hide Day, CountFrom, MaxJobs, HasKey;
    if cap == 0 || !Overlooks(ticks) {
      forall ts | SameSchedule(ticks, ts) ensures CountFrom(Day(jobs, ts), day) <= cap {
        if cap == 0 {
          DayStaysWithinCap(jobs, ts, day, cap);
          TimesZero(Blind(ts));
        } else {
          WatchfulDayStaysWithinCap(jobs, ts, day, cap);
        }
      }
    } else {
      var i, j :| 0 <= i < j < |ticks| && ticks[i].active && ActsBlind(ticks[j]);
      OverrunExceeds(jobs, ticks, day, cap, i, j);
    }
  }

  lemma {:induction false} OverrunExceeds(jobs: seq<Job>, ticks: seq<Tick>, day: string, cap: nat, i: nat, j: nat)
    requires |day| == 10 && FreshDay(jobs, day) && SameDay(ticks, day, cap) && cap >= 1
    requires i < j < |ticks| && ticks[i].active && ActsBlind(ticks[j])
    ensures var ts := Overrun(ticks, i, j, cap);
            SameSchedule(ticks, ts) && CountFrom(Day(jobs, ts), day) == cap + 1
  {
    hide Day, CountFrom, MaxJobs, HasKey, JobsFor, KeyFor;
    var ts, crowd := Overrun(ticks, i, j, cap), Crowd(cap, ticks[i].threshold);
    OverrunDay(jobs, ticks, day, cap, i, j, |ticks|);
    assert ts[..|ticks|] == ts;
    JobsForAt(crowd, day);
    var last := [Job(KeyFor(Name(cap), day), day)];
    CountMore(jobs, JobsFor(crowd, day), day);
    CountMore(jobs + JobsFor(crowd, day), last, day);
  }
}
