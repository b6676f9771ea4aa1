/** Mining per-file weights from a timing log (scripts/mine-shard-weights.ts). */
module MineWeights {
  import opened OrderedMaps
  import opened Grouping
  import opened Sorting
  import opened Rearrangements
  import StringOrder

  /** A file started in a job; times are whole milliseconds. */
  datatype Event = Event(job: string, at: int, file: string)

  /** How long a file was seen to run. */
  datatype Observation = Observation(file: string, ms: int)

  type Weights = OrderedMap<string, int>

  const JobOf := (e: Event) => e.job

  /** The events of one job, in log order. */
  function Stream(events: seq<Event>, job: string): seq<Event> {
    WithKey(JobOf, job, events)
  }

  /** The non-negative gaps between neighbouring events, charged to the earlier file. */
  function Deltas(stream: seq<Event>): seq<Observation> {
    if |stream| < 2 then []
    else
      var before, last := stream[|stream| - 2], stream[|stream| - 1];
      Deltas(stream[..|stream| - 1])
      + if last.at - before.at < 0 then [] else [Observation(before.file, last.at - before.at)]
  }

  function Observations(events: seq<Event>, jobs: seq<string>): seq<Observation> {
    if jobs == [] then []
    else Observations(events, jobs[..|jobs| - 1]) + Deltas(Stream(events, jobs[|jobs| - 1]))
  }

  /** The heavier of the stored and the new observation wins. */
  function Record(w: Weights, o: Observation): Weights {
    if o.file !in w.entries || o.ms > w.entries[o.file] then w.Set(o.file, o.ms) else w
  }

  function RecordAll(w: Weights, obs: seq<Observation>): Weights {
    if obs == [] then w else Record(RecordAll(w, obs[..|obs| - 1]), obs[|obs| - 1])
  }

  function WeightsOf(events: seq<Event>): Weights {
    RecordAll(Empty(), Observations(events, Groups(JobOf, events).keys))
  }

  // ----- the script

  method ComputeWeights(events: seq<Event>) returns (weights: Weights)
    ensures weights == WeightsOf(events)
  {
    hide WithKey, Groups, Deltas, Observations, RecordAll;
    var byJob: OrderedMap<string, seq<Event>> := Empty();
    NoEvents();
    for i := 0 to |events|
      invariant byJob == Groups(JobOf, events[..i])
    {
      GroupsSnoc(JobOf, events[..i], events[i]);
      assert events[..i + 1] == events[..i] + [events[i]];
      byJob := AddToGroup(byJob, events[i].job, events[i]);
    }
    assert events[..|events|] == events;
    GroupsAreClasses(JobOf, events, "");
    weights := Empty();
    var buckets := byJob.Values();
    for j := 0 to |buckets|
      invariant weights == RecordAll(Empty(), Observations(events, byJob.keys[..j]))
    {
      GroupsAreClasses(JobOf, events, byJob.keys[j]);
      assert byJob.keys[..j + 1] == byJob.keys[..j] + [byJob.keys[j]];
      weights := MineJob(weights, buckets[j]);
      RecordConcat(Empty(), Observations(events, byJob.keys[..j]), Deltas(buckets[j]));
      ObservationsSnoc(events, byJob.keys[..j], byJob.keys[j]);
    }
    assert byJob.keys[..|buckets|] == byJob.keys;
  }

  method MineJob(before: Weights, jobEvents: seq<Event>) returns (weights: Weights)
    ensures weights == RecordAll(before, Deltas(jobEvents))
  {
    hide RecordAll, Deltas;
    weights := before;
    ShortStream(before, jobEvents);
    var i := 0;
    while i + 1 < |jobEvents|
      invariant 0 <= i && (i < |jobEvents| || i == 0)
      invariant weights == RecordAll(before, Deltas(jobEvents[..if i < |jobEvents| then i + 1 else i]))
    {
      DeltasStep(before, jobEvents, i);
      var delta := jobEvents[i + 1].at - jobEvents[i].at;
      if delta >= 0 {
        weights := Record(weights, Observation(jobEvents[i].file, delta));
      }
      i := i + 1;
    }
    assert jobEvents[..|jobEvents|] == jobEvents;
  }

  lemma NoEvents()
    ensures Groups<string, Event>(JobOf, []) == Empty() && Observations([], []) == []
    ensures forall events :: RecordAll(Empty(), Observations(events, [])) == Empty()
  {
  }

  lemma ShortStream(w: Weights, stream: seq<Event>)
    ensures RecordAll(w, Deltas(stream[..if 0 < |stream| then 1 else 0])) == w
  {
  }

  lemma DeltasStep(w: Weights, stream: seq<Event>, i: nat)
    requires i + 1 < |stream|
    ensures var delta := stream[i + 1].at - stream[i].at;
            (var sofar := RecordAll(w, Deltas(stream[..i + 1]));
            RecordAll(w, Deltas(stream[..i + 2])) == (if delta < 0 then sofar else Record(sofar, Observation(stream[i].file, delta))))
  {
    hide RecordAll;
    var longer := stream[..i + 2];
    assert longer[..i + 1] == stream[..i + 1];
    var delta := stream[i + 1].at - stream[i].at;
    var o := Observation(stream[i].file, delta);
    RecordSnoc(w, Deltas(stream[..i + 1]), o);
    assert Deltas(stream[..i + 1]) + [] == Deltas(stream[..i + 1]);
  }

  lemma {:induction false} RecordSnoc(w: Weights, obs: seq<Observation>, o: Observation)
    ensures RecordAll(w, obs + [o]) == Record(RecordAll(w, obs), o)
  {
    assert (obs + [o])[..|obs|] == obs;
  }

  lemma {:induction false} ObservationsSnoc(events: seq<Event>, jobs: seq<string>, job: string)
    ensures Observations(events, jobs + [job]) == Observations(events, jobs) + Deltas(Stream(events, job))
  {
    assert (jobs + [job])[..|jobs|] == jobs;
  }

  lemma {:induction false} RecordConcat(w: Weights, xs: seq<Observation>, ys: seq<Observation>)
    ensures RecordAll(w, xs + ys) == RecordAll(RecordAll(w, xs), ys)
  {
    if ys == [] {
      assert xs + ys == xs;
    } else {
      RecordConcat(w, xs, ys[..|ys| - 1]);
      assert xs + ys == (xs + ys[..|ys| - 1]) + [ys[|ys| - 1]];
      RecordSnoc(w, xs + ys[..|ys| - 1], ys[|ys| - 1]);
    }
  }

  // ----- each weight is the largest gap seen

  /** Some job ran `file` for `ms` before it started its next file. */
  ghost predicate Seen(events: seq<Event>, file: string, ms: int) {
    exists job :: SeenIn(Stream(events, job), file, ms)
  }

  ghost predicate SeenIn(stream: seq<Event>, file: string, ms: int) {
    ms >= 0 && exists i :: 0 <= i < |stream| - 1 && stream[i].file == file && Gap(stream, i) == ms
  }

  function Gap(stream: seq<Event>, i: nat): int
    requires i + 1 < |stream|
  {
    stream[i + 1].at - stream[i].at
  }

  lemma {:induction false} DeltasAreSeen(stream: seq<Event>, o: Observation)
    ensures o in Deltas(stream) <==> SeenIn(stream, o.file, o.ms)
  {
    if |stream| >= 2 {
      var pre := stream[..|stream| - 1];
      DeltasAreSeen(pre, o);
      var m := |stream| - 2;
      if SeenIn(stream, o.file, o.ms) {
        var i :| 0 <= i < |stream| - 1 && stream[i].file == o.file && Gap(stream, i) == o.ms;
        assert i < m ==> Gap(pre, i) == o.ms && pre[i].file == o.file;
      }
      if SeenIn(pre, o.file, o.ms) {
        var i :| 0 <= i < |pre| - 1 && pre[i].file == o.file && Gap(pre, i) == o.ms;
        assert Gap(stream, i) == o.ms && stream[i].file == o.file;
      }
      assert Gap(stream, m) == stream[m + 1].at - stream[m].at;
    }
  }

  lemma {:induction false} ObservationsAreSeen(events: seq<Event>, jobs: seq<string>, o: Observation)
    ensures o in Observations(events, jobs) <==> exists job :: job in jobs && SeenIn(Stream(events, job), o.file, o.ms)
  {
    hide SeenIn, Deltas, WithKey;
    if jobs != [] {
      var m := |jobs| - 1;
      ObservationsAreSeen(events, jobs[..m], o);
      DeltasAreSeen(Stream(events, jobs[m]), o);
      assert jobs == jobs[..m] + [jobs[m]];
    }
  }

  ghost predicate Observed(obs: seq<Observation>, file: string) {
    exists i :: 0 <= i < |obs| && obs[i].file == file
  }

  /** `w` holds exactly the observed files, each at its largest observation. */
  ghost predicate Heaviest(w: Weights, obs: seq<Observation>) {
    && (forall f :: f in w.entries <==> Observed(obs, f))
    && (forall f | f in w.entries :: Observation(f, w.entries[f]) in obs)
    && (forall o | o in obs :: o.file in w.entries && o.ms <= w.entries[o.file])
  }

  lemma {:induction false} RecordKeepsHeaviest(obs: seq<Observation>)
    ensures RecordAll(Empty(), obs).Valid() && Heaviest(RecordAll(Empty(), obs), obs)
  {
    if obs != [] {
      var pre, o := obs[..|obs| - 1], obs[|obs| - 1];
      RecordKeepsHeaviest(pre);
      assert obs == pre + [o];
      HeaviestStep(RecordAll(Empty(), pre), pre, o);
    }
  }

  lemma ObservedSnoc(obs: seq<Observation>, o: Observation, f: string)
    ensures Observed(obs + [o], f) <==> Observed(obs, f) || f == o.file
  {
    var all := obs + [o];
    assert all[|obs|] == o && forall i | 0 <= i < |obs| :: all[i] == obs[i];
  }

  lemma HeaviestStep(w: Weights, obs: seq<Observation>, o: Observation)
    requires w.Valid() && Heaviest(w, obs)
    ensures Record(w, o).Valid() && Heaviest(Record(w, o), obs + [o])
  {
    hide Observed;
    forall f ensures Observed(obs + [o], f) <==> Observed(obs, f) || f == o.file {
      ObservedSnoc(obs, o, f);
    }
    assert o.file !in w.entries ==> Record(w, o).entries == w.entries[o.file := o.ms];
  }

  /**
    A file is given a weight iff some job ran it for a non-negative time before its next file, and
    the weight is the largest such time.
  */
  lemma WeightIsLargestGap(events: seq<Event>, file: string)
    ensures file in WeightsOf(events).entries <==> exists ms :: Seen(events, file, ms)
    ensures file in WeightsOf(events).entries ==>
              var w := WeightsOf(events).entries[file];
              Seen(events, file, w) && forall ms | Seen(events, file, ms) :: ms <= w
  {
    hide RecordAll, SeenIn;
    var jobs := Groups(JobOf, events).keys;
    var obs := Observations(events, jobs);
    RecordKeepsHeaviest(obs);
    var w := WeightsOf(events);
    assert Heaviest(w, obs);
    forall ms ensures Seen(events, file, ms) <==> Observation(file, ms) in obs {
      SeenIsObserved(events, file, ms);
    }
    if file in w.entries {
      assert Observation(file, w.entries[file]) in obs;
    }
    if ms :| Seen(events, file, ms) {
      assert Observation(file, ms) in obs;
    }
  }

  lemma {:induction false} SeenIsObserved(events: seq<Event>, file: string, ms: int)
    ensures Seen(events, file, ms) <==> Observation(file, ms) in Observations(events, Groups(JobOf, events).keys)
  {
    hide Observations;
    var jobs := Groups(JobOf, events);
    ObservationsAreSeen(events, jobs.keys, Observation(file, ms));
    GroupsAreClasses(JobOf, events, "");
    if Seen(events, file, ms) {
      var job :| SeenIn(Stream(events, job), file, ms);
      GroupsAreClasses(JobOf, events, job);
      assert job in jobs.keys;
    }
  }

  // ----- the committed file

  /** Sorting the entries by key and copying them into a fresh object. */
  method SerializeWeights(weights: Weights) returns (obj: Weights)
    requires weights.Valid()
    ensures obj.Valid() && obj.entries == weights.entries && obj.keys == Sort(StringOrder.Leq, weights.keys)
  {
    hide Sort;
    var sorted := Sort(StringOrder.Leq, weights.keys);
    SortKeepsDistinct(StringOrder.Leq, weights.keys);
    forall k ensures k in sorted <==> k in weights.keys { SortMembers(StringOrder.Leq, weights.keys, k); }
    obj := Empty();
    for i := 0 to |sorted|
      invariant obj.keys == sorted[..i] && obj.Valid()
      invariant forall k | k in obj.keys :: k in weights.entries && obj.entries[k] == weights.entries[k]
    {
      var k := sorted[i];
      assert k in sorted && k !in sorted[..i];
      assert sorted[..i + 1] == sorted[..i] + [k];
      obj := obj.Set(k, weights.entries[k]);
    }
    assert sorted[..|sorted|] == sorted;
    SameEntries(obj, weights);
  }

  lemma SameEntries(v: Weights, w: Weights)
    requires v.Valid() && w.Valid() && forall k :: k in v.keys <==> k in w.keys
    requires forall k | k in v.keys :: v.entries[k] == w.entries[k]
    ensures v.entries == w.entries
  {
  }

  /** However the jobs' streams are interleaved in the log, the same weights file is written. */
  lemma InterleavingIsIrrelevant(one: seq<Event>, other: seq<Event>)
    requires forall job :: Stream(one, job) == Stream(other, job)
    ensures WeightsOf(one).entries == WeightsOf(other).entries
    ensures Sort(StringOrder.Leq, WeightsOf(one).keys) == Sort(StringOrder.Leq, WeightsOf(other).keys)
  {
    hide RecordAll, WithKey, Groups, Sort, Observations;
    var v, w := WeightsOf(one), WeightsOf(other);
    forall file
      ensures file in v.entries <==> file in w.entries
      ensures file in v.entries ==> v.entries[file] == w.entries[file]
    {
      forall ms ensures Seen(one, file, ms) <==> Seen(other, file, ms) {}
      WeightIsLargestGap(one, file);
      WeightIsLargestGap(other, file);
    }
    RecordKeepsHeaviest(Observations(one, Groups(JobOf, one).keys));
    RecordKeepsHeaviest(Observations(other, Groups(JobOf, other).keys));
    forall k ensures k in v.keys <==> k in w.keys {}
    StringOrder.LeqIsTotalOrder();
    SameSetSameSort(StringOrder.Leq, v.keys, w.keys);
  }

  // ----- conservation of time

  ghost predicate EachFileOnce(events: seq<Event>) {
    forall i, j | 0 <= i < j < |events| :: events[i].file != events[j].file
  }

  ghost predicate NeverBackwards(stream: seq<Event>) {
    forall i | 0 <= i < |stream| - 1 :: stream[i].at <= stream[i + 1].at
  }

  function Total(obs: seq<int>): int {
    if obs == [] then 0 else Total(obs[..|obs| - 1]) + obs[|obs| - 1]
  }

  /** First start to last start, over all jobs. */
  function WallTime(events: seq<Event>, jobs: seq<string>): int {
    if jobs == [] then 0
    else WallTime(events, jobs[..|jobs| - 1]) + Span(Stream(events, jobs[|jobs| - 1]))
  }

  function Span(stream: seq<Event>): int {
    if stream == [] then 0 else stream[|stream| - 1].at - stream[0].at
  }

  const FileOf := (o: Observation) => o.file
  const MsOf := (o: Observation) => o.ms

  lemma {:induction false} TotalConcat(xs: seq<int>, ys: seq<int>)
    ensures Total(xs + ys) == Total(xs) + Total(ys)
  {
    if ys == [] {
      assert xs + ys == xs;
    } else {
      assert (xs + ys)[..|xs + ys| - 1] == xs + ys[..|ys| - 1];
      TotalConcat(xs, ys[..|ys| - 1]);
    }
  }

  lemma MapConcat<A, B>(f: A -> B, xs: seq<A>, ys: seq<A>)
    ensures Map(f, xs + ys) == Map(f, xs) + Map(f, ys)
  {
  }

  lemma {:induction false} DeltasSpan(stream: seq<Event>)
    requires NeverBackwards(stream)
    ensures Total(Map(MsOf, Deltas(stream))) == Span(stream)
    ensures |Deltas(stream)| == if stream == [] then 0 else |stream| - 1
  {
    hide Total;
    NoTime();
    if |stream| >= 2 {
      var m := |stream| - 1;
      DeltasSpan(stream[..m]);
      assert stream[m - 1].at <= stream[m - 1 + 1].at;
      var o := Observation(stream[m - 1].file, stream[m].at - stream[m - 1].at);
      MapConcat(MsOf, Deltas(stream[..m]), [o]);
      TotalConcat(Map(MsOf, Deltas(stream[..m])), Map(MsOf, [o]));
      OneTotal(o.ms);
      assert Map(MsOf, [o]) == [o.ms];
    }
  }

  lemma NoTime()
    ensures Total([]) == 0 && Total(Map(MsOf, [])) == 0
  {
  }

  lemma OneTotal(ms: int)
    ensures Total([ms]) == ms
  {
    assert [ms][..0] == [];
  }

  lemma {:induction false} ObservationsSpan(events: seq<Event>, jobs: seq<string>)
    requires forall job | job in jobs :: NeverBackwards(Stream(events, job)) && Stream(events, job) != []
    ensures Total(Map(MsOf, Observations(events, jobs))) == WallTime(events, jobs)
    ensures |Observations(events, jobs)| + |jobs| == |Gather(JobOf, jobs, events)|
  {
    hide Total, WithKey, Deltas, NeverBackwards;
    NoTime();
    if jobs != [] {
      var m := |jobs| - 1;
      ObservationsSpan(events, jobs[..m]);
      DeltasSpan(Stream(events, jobs[m]));
      MapConcat(MsOf, Observations(events, jobs[..m]), Deltas(Stream(events, jobs[m])));
      TotalConcat(Map(MsOf, Observations(events, jobs[..m])), Map(MsOf, Deltas(Stream(events, jobs[m]))));
    }
  }

  lemma RecordFresh(w: Weights, o: Observation)
    requires w.Valid() && o.file !in w.entries
    ensures Record(w, o).Valid() && Record(w, o).keys == w.keys + [o.file] && Record(w, o).Values() == w.Values() + [o.ms]
  {
  }

  lemma NothingRecorded()
    ensures RecordAll(Empty(), []) == Empty()
    ensures Map(FileOf, []) == [] && Map(MsOf, []) == [] && Empty<string, int>().Values() == []
  {
  }

  /** With one observation a file the map just lists the observations. */
  lemma {:induction false} RecordDistinct(obs: seq<Observation>)
    requires Distinct(Map(FileOf, obs))
    ensures var w := RecordAll(Empty(), obs);
            w.Valid() && w.keys == Map(FileOf, obs) && w.Values() == Map(MsOf, obs)
  {
    hide RecordAll, Record;
    if obs == [] {
      NothingRecorded();
    } else {
      var m := |obs| - 1;
      var pre, o := obs[..m], obs[m];
      assert obs == pre + [o];
      MapConcat(FileOf, pre, [o]);
      MapConcat(MsOf, pre, [o]);
      LastIsNew(Map(FileOf, pre), o.file);
      RecordDistinct(pre);
      RecordSnoc(Empty(), pre, o);
      RecordFresh(RecordAll(Empty(), pre), o);
    }
  }

  lemma LastIsNew(files: seq<string>, file: string)
    requires Distinct(files + [file])
    ensures Distinct(files) && file !in files
  {
    var all := files + [file];
    forall i, j | 0 <= i < j < |files| ensures files[i] != files[j] {
      assert all[i] != all[j];
    }
    forall i | 0 <= i < |files| ensures files[i] != file {
      assert all[i] != all[|files|];
    }
  }

  lemma {:induction false} StreamOfOnce(events: seq<Event>, job: string)
    requires EachFileOnce(events)
    ensures EachFileOnce(Stream(events, job))
  {
    if events != [] {
      var m := |events| - 1;
      StreamOfOnce(events[..m], job);
      forall e | e in Stream(events[..m], job) ensures e in events[..m] {
        WithKeyMembers(JobOf, job, events[..m], e);
      }
      forall e | e in events[..m] ensures e.file != events[m].file {}
    }
  }

  lemma {:induction false} DeltasOfOnce(stream: seq<Event>)
    requires EachFileOnce(stream)
    ensures Distinct(Map(FileOf, Deltas(stream)))
  {
    if |stream| >= 2 {
      var m := |stream| - 1;
      DeltasOfOnce(stream[..m]);
      forall o | o in Deltas(stream[..m]) ensures o.file != stream[m - 1].file {
        DeltasAreSeen(stream[..m], o);
      }
    }
  }

  /** An observed file was started in one of the jobs. */
  lemma ObservedFile(events: seq<Event>, jobs: seq<string>, o: Observation) returns (e: Event)
    requires o in Observations(events, jobs)
    ensures e in events && e.job in jobs && e.file == o.file
  {
    ObservationsAreSeen(events, jobs, o);
    var job :| job in jobs && SeenIn(Stream(events, job), o.file, o.ms);
    var stream := Stream(events, job);
    var i :| 0 <= i < |stream| - 1 && stream[i].file == o.file;
    e := stream[i];
    WithKeyMembers(JobOf, job, events, e);
  }

  lemma {:induction false} ObservationsOfOnce(events: seq<Event>, jobs: seq<string>)
    requires EachFileOnce(events) && Distinct(jobs)
    ensures Distinct(Map(FileOf, Observations(events, jobs)))
  {
    hide Deltas, WithKey;
    if jobs != [] {
      var m := |jobs| - 1;
      var pre, more := Observations(events, jobs[..m]), Deltas(Stream(events, jobs[m]));
      ObservationsOfOnce(events, jobs[..m]);
      StreamOfOnce(events, jobs[m]);
      DeltasOfOnce(Stream(events, jobs[m]));
      MapConcat(FileOf, pre, more);
      forall o, p | o in pre && p in more ensures o.file != p.file {
        JobsDoNotShareFiles(events, jobs, o, p);
      }
      DistinctConcat(Map(FileOf, pre), Map(FileOf, more));
    }
  }

  lemma DistinctConcat<T>(xs: seq<T>, ys: seq<T>)
    requires Distinct(xs) && Distinct(ys) && forall i, j | 0 <= i < |xs| && 0 <= j < |ys| :: xs[i] != ys[j]
    ensures Distinct(xs + ys)
  {
  }

  lemma {:induction false} JobsDoNotShareFiles(events: seq<Event>, jobs: seq<string>, o: Observation, p: Observation)
    requires EachFileOnce(events) && Distinct(jobs) && jobs != []
    requires o in Observations(events, jobs[..|jobs| - 1]) && p in Deltas(Stream(events, jobs[|jobs| - 1]))
    ensures o.file != p.file
  {
    hide Deltas;
    var job := jobs[|jobs| - 1];
    var d := ObservedFile(events, jobs[..|jobs| - 1], o);
    ObservationsSnoc(events, [], job);
    assert [] + [job] == [job];
    var e := ObservedFile(events, [job], p);
    SameFileSameEvent(events, d, e);
  }

  lemma SameFileSameEvent(events: seq<Event>, d: Event, e: Event)
    requires EachFileOnce(events) && d in events && e in events
    ensures d.file == e.file ==> d == e
  {
    var i :| 0 <= i < |events| && events[i] == d;
    var j :| 0 <= j < |events| && events[j] == e;
    assert d.file == e.file ==> i == j;
  }

  /**
    When every job's clock runs forwards and no file is started twice, the weights add up to the
    jobs' wall time, and one file a job (its last) goes without.
  */
  lemma {:induction false} WeightsAddUpToWallTime(events: seq<Event>)
    requires EachFileOnce(events) && forall job :: NeverBackwards(Stream(events, job))
    ensures var jobs, w := Groups(JobOf, events).keys, WeightsOf(events);
            && w.Valid() && Total(w.Values()) == WallTime(events, jobs)
            && |w.keys| + |jobs| == |events|
  {
    hide Observations, RecordAll, Total, WallTime, NeverBackwards, WithKey, Groups;
    var groups := Groups(JobOf, events);
    GroupsAreClasses(JobOf, events, "");
    forall job | job in groups.keys ensures Stream(events, job) != [] {
      GroupsAreClasses(JobOf, events, job);
    }
    forall e | e in events ensures JobOf(e) in groups.keys {
      GroupsAreClasses(JobOf, events, e.job);
      WithKeyMembers(JobOf, e.job, events, e);
    }
    var obs := Observations(events, groups.keys);
    ObservationsSpan(events, groups.keys);
    ObservationsOfOnce(events, groups.keys);
    RecordDistinct(obs);
    GatherIsRearrangement(JobOf, groups.keys, events);
    assert |multiset(Gather(JobOf, groups.keys, events))| == |multiset(events)|;
  }
}
