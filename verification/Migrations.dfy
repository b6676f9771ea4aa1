/**
  The migration runner and its append-only ledger
  (src/commands/apply-migrations.ts, src/core/preferences.ts).
*/
module Migrations {
  import opened Wrappers
  import opened OrderedMaps
  import opened Grouping
  import opened Sorting

  const MAX_CONSECUTIVE_PARTIALS := 3

  /** `Other` is any status a hand-edited ledger may hold; the runner never writes it. */
  datatype Status = Complete | Partial | Retry | Other
  datatype Entry = Entry(version: string, status: Status)
  datatype Resolution = IsComplete | IsPartial | IsPending | IsWedged

  function VersionOf(e: Entry): string { e.version }

  /** The entries of one version, in order. */
  function EntriesFor(v: string, entries: seq<Entry>): seq<Entry> {
    WithKey(VersionOf, v, entries)
  }

  // ----- status

  predicate Has(es: seq<Entry>, s: Status) {
    exists i :: 0 <= i < |es| && es[i].status == s
  }

  function Trailing(es: seq<Entry>): nat {
    if es == [] || es[|es| - 1].status != Partial then 0 else 1 + Trailing(es[..|es| - 1])
  }

  function StatusOf(es: seq<Entry>): Resolution {
    if es == [] then IsPending
    else if Has(es, Complete) then IsComplete
    else if es[|es| - 1].status == Retry then IsPending
    else if Trailing(es) >= MAX_CONSECUTIVE_PARTIALS then IsWedged
    else if Has(es, Partial) then IsPartial
    else IsPending
  }

  method IndexCompleted(entries: seq<Entry>) returns (byVersion: OrderedMap<string, seq<Entry>>)
    ensures byVersion == Groups(VersionOf, entries)
  {
    byVersion := Empty();
    for i := 0 to |entries|
      invariant byVersion == Groups(VersionOf, entries[..i])
    {
      GroupsSnoc(VersionOf, entries[..i], entries[i]);
      assert entries[..i + 1] == entries[..i] + [entries[i]];
      var list := byVersion.GetOr(entries[i].version, []);
      byVersion := byVersion.Set(entries[i].version, list + [entries[i]]);
    }
    assert entries[..|entries|] == entries;
  }

  method StatusForVersion(version: string, ghost ledger: seq<Entry>, idx: OrderedMap<string, seq<Entry>>)
    returns (status: Resolution)
    requires idx == Groups(VersionOf, ledger)
    ensures status == StatusOf(EntriesFor(version, ledger))
  {
    GroupsAreClasses(VersionOf, ledger, version);
    var entries := idx.GetOr(version, []);
    if |entries| == 0 {
      return IsPending;
    }
    if Has(entries, Complete) {
      return IsComplete;
    }
    if entries[|entries| - 1].status == Retry {
      return IsPending;
    }
    assert entries[..|entries|] == entries;
    var consecutive, i := 0, |entries|;
    while i > 0 && entries[i - 1].status == Partial
      invariant 0 <= i <= |entries|
      invariant Trailing(entries) == consecutive + Trailing(entries[..i])
    {
      assert entries[..i][..i - 1] == entries[..i - 1];
      consecutive := consecutive + 1;
      i := i - 1;
    }
    if consecutive >= MAX_CONSECUTIVE_PARTIALS {
      return IsWedged;
    }
    if Has(entries, Partial) {
      return IsPartial;
    }
    return IsPending;
  }

  // ----- the same status, one entry at a time

  /**
    The states: complete for good; no partial row yet; the last one, two or at least three rows
    partial; reset by the last row; or some other row after a partial one.
  */
  datatype Machine = Done | Untried | Once | Twice | Stuck | Reset | Loose

  function Advance(m: Machine, s: Status): Machine {
    if m == Done || s == Complete then Done
    else match s
      case Partial => if m == Once then Twice else if m == Twice || m == Stuck then Stuck else Once
      case Retry => if m == Untried then Untried else Reset
      case _ => if m == Untried then Untried else Loose
  }

  function Replay(es: seq<Entry>): Machine {
    if es == [] then Untried else Advance(Replay(es[..|es| - 1]), es[|es| - 1].status)
  }

  function Verdict(m: Machine): Resolution {
    match m
    case Done => IsComplete
    case Stuck => IsWedged
    case Once => IsPartial
    case Twice => IsPartial
    case Loose => IsPartial
    case _ => IsPending
  }

  lemma HasSnoc(es: seq<Entry>, e: Entry, s: Status)
    ensures Has(es + [e], s) <==> Has(es, s) || e.status == s
  {
    if Has(es, s) {
      var i :| 0 <= i < |es| && es[i].status == s;
      assert (es + [e])[i].status == s;
    }
    assert (es + [e])[|es|] == e;
  }

  lemma {:induction false} ReplayTracks(es: seq<Entry>)
    ensures Replay(es).Done? <==> Has(es, Complete)
    ensures !Replay(es).Done? ==>
              && (Replay(es).Untried? <==> !Has(es, Partial))
              && Replay(es) == (if !Has(es, Partial) then Untried
                                else if Trailing(es) >= 3 then Stuck
                                else if Trailing(es) == 2 then Twice
                                else if Trailing(es) == 1 then Once
                                else if es[|es| - 1].status == Retry then Reset
                                else Loose)
  {
    if es != [] {
      var pre, e := es[..|es| - 1], es[|es| - 1];
      ReplayTracks(pre);
      assert es == pre + [e];
      HasSnoc(pre, e, Complete);
      HasSnoc(pre, e, Partial);
      TrailingIsPartial(pre);
    }
  }

  lemma {:induction false} TrailingIsPartial(es: seq<Entry>)
    ensures Trailing(es) > 0 ==> Has(es, Partial) && es[|es| - 1].status == Partial
  {
  }

  /** `statusForVersion` scans the whole history, yet equals a seven-state automaton run over it. */
  lemma {:induction false} StatusIsAutomaton(es: seq<Entry>)
    ensures StatusOf(es) == Verdict(Replay(es))
  {
    ReplayTracks(es);
    TrailingIsPartial(es);
  }

  /** `complete` never regresses, whatever is appended later. */
  lemma {:induction false} CompleteIsTerminal(es: seq<Entry>, more: seq<Entry>)
    requires StatusOf(es) == IsComplete
    ensures StatusOf(es + more) == IsComplete
  {
    var i :| 0 <= i < |es| && es[i].status == Complete;
    assert (es + more)[i].status == Complete;
  }

  // ----- the plan

  type Order = (string, string) -> int

  datatype Bucket = Skipped | Future | Resolved(status: Resolution)

  function BucketOf(v: string, ledger: seq<Entry>, installed: string, compare: Order, only: string): Bucket {
    if only != "" && v != only then Skipped
    else if compare(v, installed) > 0 then Future
    else Resolved(StatusOf(EntriesFor(v, ledger)))
  }

  /** The registered versions in one bucket, in registry order. */
  function InBucket(registry: seq<string>, b: Bucket, ledger: seq<Entry>, installed: string, compare: Order, only: string): seq<string> {
    if registry == [] then []
    else
      InBucket(registry[..|registry| - 1], b, ledger, installed, compare, only)
      + if BucketOf(registry[|registry| - 1], ledger, installed, compare, only) == b then [registry[|registry| - 1]] else []
  }

  datatype Plan = Plan(applied: seq<string>, partial: seq<string>, pending: seq<string>,
                       skippedFuture: seq<string>, wedged: seq<string>)

  function PlanOf(registry: seq<string>, ledger: seq<Entry>, installed: string, compare: Order, only: string): Plan {
    Plan(InBucket(registry, Resolved(IsComplete), ledger, installed, compare, only),
         InBucket(registry, Resolved(IsPartial), ledger, installed, compare, only),
         InBucket(registry, Resolved(IsPending), ledger, installed, compare, only),
         InBucket(registry, Future, ledger, installed, compare, only),
         InBucket(registry, Resolved(IsWedged), ledger, installed, compare, only))
  }

  method BuildPlan(registry: seq<string>, ghost ledger: seq<Entry>, idx: OrderedMap<string, seq<Entry>>,
                   installed: string, compare: Order, only: string)
    returns (plan: Plan)
    requires idx == Groups(VersionOf, ledger)
    ensures plan == PlanOf(registry, ledger, installed, compare, only)
  {
    plan := Plan([], [], [], [], []);
    for i := 0 to |registry|
      invariant plan == PlanOf(registry[..i], ledger, installed, compare, only)
    {
      var v := registry[i];
      assert registry[..i + 1][..i] == registry[..i];
      if only != "" && v != only {
        continue;
      }
      if compare(v, installed) > 0 {
        plan := plan.(skippedFuture := plan.skippedFuture + [v]);
        continue;
      }
      var status := StatusForVersion(v, ledger, idx);
      match status {
        case IsComplete => plan := plan.(applied := plan.applied + [v]);
        case IsPartial => plan := plan.(partial := plan.partial + [v]);
        case IsWedged => plan := plan.(wedged := plan.wedged + [v]);
        case IsPending => plan := plan.(pending := plan.pending + [v]);
      }
    }
    assert registry[..|registry|] == registry;
  }

  // ----- commands and their history

  /**
    What an orchestrator call comes to. Some orchestrators write a ledger row of their own, with the
    status they return, before they return it; none does so when it fails or throws.
  */
  datatype Outcome = Succeeded(recorded: bool) | LeftPartial(recorded: bool) | Failed | Threw

  predicate Stops(o: Outcome) {
    o.Failed? || o.Threw?
  }

  predicate OwnRow(o: Outcome) {
    !Stops(o) && o.recorded
  }

  function RowOf(v: string, o: Outcome): Entry {
    Entry(v, if o.Succeeded? then Complete else Partial)
  }

  /** A history: orchestrator starts, and ledger rows written. */
  datatype Act = Start(v: string) | Write(e: Entry)
  type History = seq<Act>

  function LedgerOf(h: History): seq<Entry> {
    if h == [] then [] else LedgerOf(h[..|h| - 1]) + if h[|h| - 1].Write? then [h[|h| - 1].e] else []
  }

  /** `appendCompletedMigration`: a second `complete` in a row is not written. */
  function Appended(h: History, e: Entry): History {
    var prior := EntriesFor(e.version, LedgerOf(h));
    if e.status == Complete && prior != [] && prior[|prior| - 1].status == Complete then h else h + [Write(e)]
  }

  /** The rows one call leaves: the orchestrator's own, if it writes one, and the runner's. */
  function Recorded(h: History, v: string, o: Outcome): History {
    Appended(if OwnRow(o) then Appended(h, RowOf(v, o)) else h, RowOf(v, o))
  }

  /** The run loop: a failure or an exception is recorded as partial and stops the chain. */
  function RunAll(toRun: seq<string>, outcome: string -> Outcome, h: History): (History, bool)
    decreases |toRun|
  {
    if toRun == [] then (h, false)
    else
      var v := toRun[0];
      var g := Recorded(h + [Start(v)], v, outcome(v));
      if Stops(outcome(v)) then (g, true) else RunAll(toRun[1..], outcome, g)
  }

  function ResetAll(wedged: seq<string>, h: History): History {
    if wedged == [] then h else Appended(ResetAll(wedged[..|wedged| - 1], h), Entry(wedged[|wedged| - 1], Retry))
  }

  datatype Command =
    | Apply(only: string, report: bool, outcome: string -> Outcome)
    | ForceRetry(version: string)
    | ForceOrchestrator

  datatype Config = Config(registry: seq<string>, installed: string, compare: Order)

  /** The registered versions that `--force-orchestrator` resets: no installed-version test there. */
  function Wedged(registry: seq<string>, ledger: seq<Entry>): seq<string> {
    if registry == [] then []
    else
      Wedged(registry[..|registry| - 1], ledger)
      + if StatusOf(EntriesFor(registry[|registry| - 1], ledger)) == IsWedged then [registry[|registry| - 1]] else []
  }

  function ToRun(cfg: Config, ledger: seq<Entry>, only: string): seq<string> {
    var plan := PlanOf(cfg.registry, ledger, cfg.installed, cfg.compare, only);
    plan.partial + plan.pending
  }

  predicate NothingListed(plan: Plan) {
    |plan.applied| + |plan.partial| + |plan.pending| + |plan.skippedFuture| == 0
  }

  /** The new history and the exit code; `report` stands for `--list` and `--dry-run`. */
  function Execute(cfg: Config, h: History, cmd: Command): (History, int) {
    match cmd
    case ForceRetry(v) =>
      if v in cfg.registry then (Appended(h, Entry(v, Retry)), 0) else (h, 2)
    case ForceOrchestrator =>
      (ResetAll(Wedged(cfg.registry, LedgerOf(h)), h), 0)
    case Apply(only, report, outcome) =>
      var plan := PlanOf(cfg.registry, LedgerOf(h), cfg.installed, cfg.compare, only);
      if only != "" && NothingListed(plan) then (h, 2)
      else if report then (h, 0)
      else
        var r := RunAll(plan.partial + plan.pending, outcome, h);
        (r.0, if r.1 then 1 else 0)
  }

  /** The ledger file, with the ghost history of everything done to it. */
  class Runner {
    var entries: seq<Entry>
    ghost var history: History

    ghost predicate Valid()
      reads this
    {
      entries == LedgerOf(history)
    }

    constructor ()
      ensures Valid() && history == []
    {
      entries, history := [], [];
    }

    method Append(e: Entry)
      requires Valid()
      modifies this
      ensures Valid() && history == Appended(old(history), e)
    {
      if e.status == Complete {
        var prior := EntriesFor(e.version, entries);
        if prior != [] && prior[|prior| - 1].status == Complete {
          return;
        }
      }
      LedgerSnoc(history, Write(e));
      history := history + [Write(e)];
      entries := entries + [e];
    }

    method RunLoop(toRun: seq<string>, outcome: string -> Outcome) returns (failed: bool)
      requires Valid()
      modifies this
      ensures Valid() && (history, failed) == RunAll(toRun, outcome, old(history))
    {
      failed := false;
      var i := 0;
      while i < |toRun|
        invariant 0 <= i <= |toRun| && Valid()
        invariant RunAll(toRun[i..], outcome, history) == RunAll(toRun, outcome, old(history))
      {
        var v := toRun[i];
        LedgerSnoc(history, Start(v));
        history := history + [Start(v)];
        var result := outcome(v);
        if OwnRow(result) {
          Append(RowOf(v, result));
        }
        if Stops(result) {
          Append(Entry(v, Partial));
          return true;
        }
        Append(Entry(v, if result.Succeeded? then Complete else Partial));
        i := i + 1;
      }
    }

    method RunApply(cfg: Config, only: string, report: bool, outcome: string -> Outcome) returns (code: int)
      requires Valid()
      modifies this
      ensures Valid() && (history, code) == Execute(cfg, old(history), Apply(only, report, outcome))
    {
      var idx := IndexCompleted(entries);
      var plan := BuildPlan(cfg.registry, entries, idx, cfg.installed, cfg.compare, only);
      if only != "" && NothingListed(plan) {
        return 2;
      }
      if report {
        return 0;
      }
      var toRun := plan.partial + plan.pending;
      if |toRun| == 0 {
        return 0;
      }
      var failed := RunLoop(toRun, outcome);
      code := if failed then 1 else 0;
    }

    method RunForceRetry(cfg: Config, version: string) returns (code: int)
      requires Valid()
      modifies this
      ensures Valid() && (history, code) == Execute(cfg, old(history), ForceRetry(version))
    {
      if version !in cfg.registry {
        return 2;
      }
      Append(Entry(version, Retry));
      return 0;
    }

    method RunForceOrchestrator(cfg: Config) returns (code: int)
      requires Valid()
      modifies this
      ensures Valid() && (history, code) == Execute(cfg, old(history), ForceOrchestrator)
    {
      hide StatusOf, EntriesFor, LedgerOf, Appended, ResetAll, Wedged;
      var completed, registry := entries, cfg.registry;
      var idx := IndexCompleted(completed);
      ghost var before := history;
      NothingWedged(completed, before);
      for i := 0 to |registry|
        invariant Valid() && history == ResetAll(Wedged(registry[..i], completed), before)
      {
        assert registry[..i + 1] == registry[..i] + [registry[i]];
        WedgedSnoc(registry[..i], registry[i], completed);
        var status := StatusForVersion(registry[i], completed, idx);
        if status == IsWedged {
          ResetSnoc(Wedged(registry[..i], completed), registry[i], before);
          Append(Entry(registry[i], Retry));
        }
      }
      assert registry[..|registry|] == registry;
      return 0;
    }
  }

  lemma {:induction false} NothingWedged(ledger: seq<Entry>, h: History)
    ensures Wedged([], ledger) == [] && ResetAll([], h) == h
  {
  }

  lemma {:induction false} WedgedSnoc(registry: seq<string>, v: string, ledger: seq<Entry>)
    ensures Wedged(registry + [v], ledger)
         == if StatusOf(EntriesFor(v, ledger)) == IsWedged then Wedged(registry, ledger) + [v] else Wedged(registry, ledger)
  {
    assert (registry + [v])[..|registry|] == registry;
  }

  lemma {:induction false} ResetSnoc(wedged: seq<string>, v: string, h: History)
    ensures ResetAll(wedged + [v], h) == Appended(ResetAll(wedged, h), Entry(v, Retry))
  {
    assert (wedged + [v])[..|wedged|] == wedged;
  }

  lemma {:induction false} LedgerSnoc(h: History, a: Act)
    ensures LedgerOf(h + [a]) == LedgerOf(h) + if a.Write? then [a.e] else []
  {
    assert (h + [a])[..|h|] == h;
  }

  // ----- attempts are bounded

  /** Starts of `v` since its last retry marker. */
  function StartsSince(h: History, v: string): nat {
    if h == [] then 0
    else
      var a := h[|h| - 1];
      if a == Write(Entry(v, Retry)) then 0
      else StartsSince(h[..|h| - 1], v) + if a == Start(v) then 1 else 0
  }

  function EntriesAt(h: History, v: string): seq<Entry> {
    EntriesFor(v, LedgerOf(h))
  }

  lemma {:induction false} ActEffect(h: History, a: Act, v: string)
    ensures EntriesAt(h + [a], v) == EntriesAt(h, v) + if a.Write? && a.e.version == v then [a.e] else []
    ensures StartsSince(h + [a], v)
         == if a == Write(Entry(v, Retry)) then 0 else StartsSince(h, v) + if a == Start(v) then 1 else 0
  {
    assert (h + [a])[..|h|] == h;
    LedgerSnoc(h, a);
    if a.Write? {
      WithKeySnoc(VersionOf, v, LedgerOf(h), a.e);
    } else {
      assert LedgerOf(h) + [] == LedgerOf(h);
    }
  }

  lemma {:induction false} TrailingSnoc(es: seq<Entry>, e: Entry)
    ensures Trailing(es + [e]) == if e.status == Partial then Trailing(es) + 1 else 0
  {
    assert (es + [e])[..|es|] == es;
  }

  /** The trailing partials allowed: one more for a version whose orchestrator records its own. */
  function Cap(records: bool): nat {
    if records then MAX_CONSECUTIVE_PARTIALS + 1 else MAX_CONSECUTIVE_PARTIALS
  }

  /** While a version is not complete, each start since the last reset left at least one trailing partial. */
  ghost predicate Steady(h: History, v: string, cap: nat) {
    && Trailing(EntriesAt(h, v)) <= cap && StartsSince(h, v) <= MAX_CONSECUTIVE_PARTIALS
    && (StatusOf(EntriesAt(h, v)) != IsComplete ==> StartsSince(h, v) <= Trailing(EntriesAt(h, v)))
  }

  /** At every moment of the history: three starts since the last reset, and `cap` trailing partials, at most. */
  ghost predicate Bounded(h: History, v: string, cap: nat) {
    forall k | 0 <= k <= |h| ::
      StartsSince(h[..k], v) <= MAX_CONSECUTIVE_PARTIALS && Trailing(EntriesAt(h[..k], v)) <= cap
  }

  lemma {:induction false} BoundedSnoc(h: History, a: Act, v: string, cap: nat)
    requires Bounded(h, v, cap)
    requires StartsSince(h + [a], v) <= MAX_CONSECUTIVE_PARTIALS
    requires Trailing(EntriesAt(h + [a], v)) <= cap
    ensures Bounded(h + [a], v, cap)
  {
    hide StartsSince, Trailing, EntriesAt;
    var g := h + [a];
    forall k | 0 <= k <= |g|
      ensures StartsSince(g[..k], v) <= MAX_CONSECUTIVE_PARTIALS && Trailing(EntriesAt(g[..k], v)) <= cap
    {
      if k <= |h| {
        assert g[..k] == h[..k];
      } else {
        assert g[..k] == g;
      }
    }
  }

  lemma StatusSnoc(es: seq<Entry>, e: Entry)
    ensures StatusOf(es + [e]) == IsComplete <==> StatusOf(es) == IsComplete || e.status == Complete
  {
    HasSnoc(es, e, Complete);
  }

  /** An act that is neither a start of `v` nor a row of `v` is no concern of `v`'s. */
  lemma OtherAct(h: History, a: Act, v: string, cap: nat)
    requires Steady(h, v, cap) && Bounded(h, v, cap) && a != Start(v) && !(a.Write? && a.e.version == v)
    ensures Steady(h + [a], v, cap) && Bounded(h + [a], v, cap) && EntriesAt(h + [a], v) == EntriesAt(h, v)
  {
    ActEffect(h, a, v);
    assert EntriesAt(h, v) + [] == EntriesAt(h, v);
    BoundedSnoc(h, a, v, cap);
  }

  lemma OtherRow(h: History, e: Entry, v: string, cap: nat)
    requires Steady(h, v, cap) && Bounded(h, v, cap) && e.version != v
    ensures var g := Appended(h, e);
            Steady(g, v, cap) && Bounded(g, v, cap) && EntriesAt(g, v) == EntriesAt(h, v)
  {
    hide Steady, Bounded, EntriesAt;
    OtherAct(h, Write(e), v, cap);
  }

  lemma RetryAct(h: History, v: string, cap: nat)
    requires Steady(h, v, cap) && Bounded(h, v, cap)
    ensures var a := Write(Entry(v, Retry)); Steady(h + [a], v, cap) && Bounded(h + [a], v, cap)
  {
    var a := Write(Entry(v, Retry));
    ActEffect(h, a, v);
    TrailingSnoc(EntriesAt(h, v), a.e);
    StatusSnoc(EntriesAt(h, v), a.e);
    BoundedSnoc(h, a, v, cap);
  }

  lemma {:induction false} LastIsHeld(es: seq<Entry>)
    ensures es != [] ==> Has(es, es[|es| - 1].status)
  {
  }

  /** One more partial or complete row of `v`. */
  lemma {:induction false} RowAct(h: History, v: string, e: Entry, cap: nat)
    requires Bounded(h, v, cap) && e.version == v && (e.status == Complete || e.status == Partial)
    requires e.status == Partial ==> Trailing(EntriesAt(h, v)) < cap
    ensures var g := Appended(h, e);
            && Bounded(g, v, cap) && StartsSince(g, v) == StartsSince(h, v)
            && (e.status == Complete ==> StatusOf(EntriesAt(g, v)) == IsComplete && Trailing(EntriesAt(g, v)) == 0)
            && (e.status == Partial ==> Trailing(EntriesAt(g, v)) == Trailing(EntriesAt(h, v)) + 1)
            && (e.status == Partial ==> (StatusOf(EntriesAt(g, v)) == IsComplete <==> StatusOf(EntriesAt(h, v)) == IsComplete))
  {
    var es := EntriesAt(h, v);
    assert h[..|h|] == h;
    LastIsHeld(es);
    ActEffect(h, Write(e), v);
    TrailingSnoc(es, e);
    StatusSnoc(es, e);
    if Appended(h, e) != h {
      BoundedSnoc(h, Write(e), v, cap);
    }
  }

  /** A start of a runnable version followed by its rows. */
  lemma Attempt(h: History, v: string, o: Outcome, cap: nat)
    requires Steady(h, v, cap) && Bounded(h, v, cap) && cap >= Cap(OwnRow(o) && o.LeftPartial?)
    requires StatusOf(EntriesAt(h, v)) == IsPartial || StatusOf(EntriesAt(h, v)) == IsPending
    ensures var g := Recorded(h + [Start(v)], v, o); Steady(g, v, cap) && Bounded(g, v, cap)
  {
    hide Bounded, Appended;
    var es, started := EntriesAt(h, v), h + [Start(v)];
    FewTrailing(es);
    ActEffect(h, Start(v), v);
    assert es + [] == es;
    BoundedSnoc(h, Start(v), v, cap);
    var e := RowOf(v, o);
    RowAct(started, v, e, cap);
    if OwnRow(o) {
      RowAct(Appended(started, e), v, e, cap);
    }
  }

  lemma {:induction false} FewTrailing(es: seq<Entry>)
    requires StatusOf(es) == IsPartial || StatusOf(es) == IsPending
    ensures Trailing(es) < MAX_CONSECUTIVE_PARTIALS
  {
  }

  /** Every version is steady and bounded; those marked in `records` are allowed one more partial. */
  ghost predicate Settled(h: History, records: string -> bool) {
    forall v: string :: Steady(h, v, Cap(records(v))) && Bounded(h, v, Cap(records(v)))
  }

  lemma AttemptSettles(h: History, v: string, o: Outcome, records: string -> bool, w: string)
    requires Settled(h, records) && (OwnRow(o) && o.LeftPartial? ==> records(v))
    requires StatusOf(EntriesAt(h, v)) == IsPartial || StatusOf(EntriesAt(h, v)) == IsPending
    ensures var g := Recorded(h + [Start(v)], v, o);
            && Steady(g, w, Cap(records(w))) && Bounded(g, w, Cap(records(w)))
            && (w != v ==> EntriesAt(g, w) == EntriesAt(h, w))
  {
    hide Steady, Bounded, StatusOf, EntriesAt, Appended;
    var cap := Cap(records(w));
    assert Steady(h, w, cap) && Bounded(h, w, cap);
    if w == v {
      Attempt(h, v, o, cap);
    } else {
      var e := RowOf(v, o);
      OtherAct(h, Start(v), w, cap);
      OtherRow(h + [Start(v)], e, w, cap);
      if OwnRow(o) {
        OtherRow(Appended(h + [Start(v)], e), e, w, cap);
      }
    }
  }

  lemma {:induction false} RunAllSettles(toRun: seq<string>, outcome: string -> Outcome, h: History, records: string -> bool)
    requires Settled(h, records) && Distinct(toRun)
    requires forall i | 0 <= i < |toRun| ::
               && (StatusOf(EntriesAt(h, toRun[i])) == IsPartial || StatusOf(EntriesAt(h, toRun[i])) == IsPending)
               && (OwnRow(outcome(toRun[i])) && outcome(toRun[i]).LeftPartial? ==> records(toRun[i]))
    ensures Settled(RunAll(toRun, outcome, h).0, records)
    decreases |toRun|
  {
    if toRun != [] {
      hide Steady, Bounded, StatusOf, EntriesAt, Recorded;
      var v := toRun[0];
      var g := Recorded(h + [Start(v)], v, outcome(v));
      forall w: string
        ensures Steady(g, w, Cap(records(w))) && Bounded(g, w, Cap(records(w)))
        ensures w != v ==> EntriesAt(g, w) == EntriesAt(h, w)
      {
        AttemptSettles(h, v, outcome(v), records, w);
      }
      if !Stops(outcome(v)) {
        RunAllSettles(toRun[1..], outcome, g, records);
      }
    }
  }

  lemma {:induction false} ResetAllSettles(wedged: seq<string>, h: History, records: string -> bool)
    requires Settled(h, records)
    ensures Settled(ResetAll(wedged, h), records)
  {
    if wedged != [] {
      hide Steady, Bounded;
      var g, v := ResetAll(wedged[..|wedged| - 1], h), wedged[|wedged| - 1];
      ResetAllSettles(wedged[..|wedged| - 1], h, records);
      RetrySettles(g, v, records);
    }
  }

  lemma RetrySettles(h: History, v: string, records: string -> bool)
    requires Settled(h, records)
    ensures Settled(Appended(h, Entry(v, Retry)), records)
  {
    hide Steady, Bounded;
    var a := Write(Entry(v, Retry));
    forall w: string ensures Steady(h + [a], w, Cap(records(w))) && Bounded(h + [a], w, Cap(records(w))) {
      assert Steady(h, w, Cap(records(w))) && Bounded(h, w, Cap(records(w)));
      if w == v {
        RetryAct(h, v, Cap(records(w)));
      } else {
        OtherAct(h, a, w, Cap(records(w)));
      }
    }
  }

  lemma {:induction false} InBucketMembers(registry: seq<string>, b: Bucket, ledger: seq<Entry>, installed: string,
                                           compare: Order, only: string, v: string)
    ensures v in InBucket(registry, b, ledger, installed, compare, only)
            <==> v in registry && BucketOf(v, ledger, installed, compare, only) == b
  {
    if registry != [] {
      InBucketMembers(registry[..|registry| - 1], b, ledger, installed, compare, only, v);
      assert registry == registry[..|registry| - 1] + [registry[|registry| - 1]];
    }
  }

  lemma {:induction false} InBucketDistinct(registry: seq<string>, b: Bucket, ledger: seq<Entry>, installed: string,
                                            compare: Order, only: string)
    requires Distinct(registry)
    ensures Distinct(InBucket(registry, b, ledger, installed, compare, only))
  {
    hide BucketOf;
    if registry != [] {
      var pre, v := registry[..|registry| - 1], registry[|registry| - 1];
      InBucketDistinct(pre, b, ledger, installed, compare, only);
      InBucketMembers(pre, b, ledger, installed, compare, only, v);
    }
  }

  /** The versions an apply run may start at all. */
  predicate Startable(cfg: Config, v: string) {
    v in cfg.registry && cfg.compare(v, cfg.installed) <= 0
  }

  lemma ToRunIsRunnable(cfg: Config, ledger: seq<Entry>, only: string)
    requires Distinct(cfg.registry)
    ensures var toRun := ToRun(cfg, ledger, only);
            && Distinct(toRun)
            && forall i | 0 <= i < |toRun| ::
                 && Startable(cfg, toRun[i])
                 && (StatusOf(EntriesFor(toRun[i], ledger)) == IsPartial || StatusOf(EntriesFor(toRun[i], ledger)) == IsPending)
  {
    hide StatusOf, EntriesFor;
    var plan := PlanOf(cfg.registry, ledger, cfg.installed, cfg.compare, only);
    InBucketDistinct(cfg.registry, Resolved(IsPartial), ledger, cfg.installed, cfg.compare, only);
    InBucketDistinct(cfg.registry, Resolved(IsPending), ledger, cfg.installed, cfg.compare, only);
    forall i | 0 <= i < |plan.partial|
      ensures Startable(cfg, plan.partial[i]) && StatusOf(EntriesFor(plan.partial[i], ledger)) == IsPartial
    {
      InBucketMembers(cfg.registry, Resolved(IsPartial), ledger, cfg.installed, cfg.compare, only, plan.partial[i]);
    }
    forall i | 0 <= i < |plan.pending|
      ensures Startable(cfg, plan.pending[i]) && StatusOf(EntriesFor(plan.pending[i], ledger)) == IsPending
    {
      InBucketMembers(cfg.registry, Resolved(IsPending), ledger, cfg.installed, cfg.compare, only, plan.pending[i]);
    }
  }

  /** A run takes exactly the registered versions asked for that are installed and pending or partial. */
  lemma ToRunExactly(cfg: Config, ledger: seq<Entry>, only: string, v: string)
    ensures v in ToRun(cfg, ledger, only)
            <==> && v in cfg.registry && cfg.compare(v, cfg.installed) <= 0 && (only == "" || v == only)
                 && (StatusOf(EntriesFor(v, ledger)) == IsPartial || StatusOf(EntriesFor(v, ledger)) == IsPending)
  {
    hide StatusOf, EntriesFor;
    InBucketMembers(cfg.registry, Resolved(IsPartial), ledger, cfg.installed, cfg.compare, only, v);
    InBucketMembers(cfg.registry, Resolved(IsPending), ledger, cfg.installed, cfg.compare, only, v);
  }

  /** One command under the registry and the installed version of its day. */
  datatype Step = Step(cfg: Config, cmd: Command)

  /** The history after a sequence of commands, from an empty ledger. */
  function Session(steps: seq<Step>): History {
    Resumed([], steps)
  }

  function Resumed(h: History, steps: seq<Step>): History {
    if steps == [] then h
    else Execute(steps[|steps| - 1].cfg, Resumed(h, steps[..|steps| - 1]), steps[|steps| - 1].cmd).0
  }

  ghost predicate ProperRegistries(steps: seq<Step>) {
    forall i | 0 <= i < |steps| :: Distinct(steps[i].cfg.registry)
  }

  /** Of the versions a command may start, only those marked in `records` record a partial of their own. */
  ghost predicate StepRecords(step: Step, records: string -> bool) {
    step.cmd.Apply? ==>
      forall v | Startable(step.cfg, v) :: OwnRow(step.cmd.outcome(v)) && step.cmd.outcome(v).LeftPartial? ==> records(v)
  }

  ghost predicate OnlyThese(steps: seq<Step>, records: string -> bool) {
    forall i | 0 <= i < |steps| :: StepRecords(steps[i], records)
  }

  lemma ExecuteSettles(h: History, step: Step, records: string -> bool)
    requires Distinct(step.cfg.registry) && Settled(h, records) && StepRecords(step, records)
    ensures Settled(Execute(step.cfg, h, step.cmd).0, records)
  {
    hide Settled;
    match step.cmd {
      case ForceRetry(v) => RetrySettles(h, v, records);
      case ForceOrchestrator => ResetAllSettles(Wedged(step.cfg.registry, LedgerOf(h)), h, records);
      case Apply(only, report, outcome) =>
        ToRunIsRunnable(step.cfg, LedgerOf(h), only);
        RunAllSettles(ToRun(step.cfg, LedgerOf(h), only), outcome, h, records);
    }
  }

  lemma {:induction false} SessionSettles(steps: seq<Step>, records: string -> bool)
    requires ProperRegistries(steps) && OnlyThese(steps, records)
    ensures Settled(Session(steps), records)
  {
    if steps == [] {
      forall v: string ensures Steady([], v, Cap(records(v))) && Bounded([], v, Cap(records(v))) {
        var h: History := [];
        assert StartsSince(h, v) == 0 && EntriesAt(h, v) == [];
        assert forall k | 0 <= k <= |h| :: h[..k] == h;
      }
    } else {
      hide Settled;
      var m := |steps| - 1;
      SessionSettles(steps[..m], records);
      ExecuteSettles(Session(steps[..m]), steps[m], records);
    }
  }

  /**
    Whatever apply runs, retries and resets follow each other, while registry and installed version
    may change, at no moment has a version more than three starts since its last retry marker, or
    more than three trailing partials; four if its orchestrator records partials of its own.
  */
  lemma {:induction false} AttemptsAreBounded(steps: seq<Step>, records: string -> bool, v: string, k: nat)
    requires ProperRegistries(steps) && OnlyThese(steps, records) && k <= |Session(steps)|
    ensures StartsSince(Session(steps)[..k], v) <= 3
    ensures Trailing(EntriesAt(Session(steps)[..k], v)) <= if records(v) then 4 else 3
  {
    hide Session, StartsSince, EntriesAt, Trailing;
    SessionSettles(steps, records);
    assert Bounded(Session(steps), v, Cap(records(v)));
  }

  // ----- when the cap of three trailing partials is kept

  ghost predicate AtMostThree(h: History) {
    forall v: string, k | 0 <= k <= |h| :: Trailing(EntriesAt(h[..k], v)) <= MAX_CONSECUTIVE_PARTIALS
  }

  ghost predicate Within(steps: seq<Step>, allowed: Config -> bool) {
    forall i | 0 <= i < |steps| :: allowed(steps[i].cfg)
  }

  function OwnPartial(v: string): string -> Outcome {
    (w: string) => if w == v then LeftPartial(true) else Succeeded(false)
  }

  /** Two runs of one version that leave it partial, each time with a row of its own as well. */
  function TwoPartialRuns(cfg: Config, v: string): seq<Step> {
    var run := Step(cfg, Apply(v, false, OwnPartial(v)));
    [run, run]
  }

  lemma {:induction false} OneVersion(registry: seq<string>, b: Bucket, ledger: seq<Entry>, installed: string, compare: Order, v: string)
    requires Distinct(registry) && v != "" && b != Skipped
    ensures InBucket(registry, b, ledger, installed, compare, v)
         == if v in registry && BucketOf(v, ledger, installed, compare, v) == b then [v] else []
  {
    hide StatusOf, EntriesFor;
    if registry != [] {
      var m := |registry| - 1;
      OneVersion(registry[..m], b, ledger, installed, compare, v);
      assert registry == registry[..m] + [registry[m]];
    }
  }

  /** An apply run of one runnable version that leaves it partial and records that itself. */
  lemma PartialRun(cfg: Config, h: History, v: string)
    requires Distinct(cfg.registry) && v != "" && Startable(cfg, v)
    requires StatusOf(EntriesAt(h, v)) == IsPartial || StatusOf(EntriesAt(h, v)) == IsPending
    ensures var e := Write(Entry(v, Partial));
            Execute(cfg, h, Apply(v, false, OwnPartial(v))).0 == h + [Start(v)] + [e] + [e]
  {
    hide StatusOf, EntriesFor;
    var ledger := LedgerOf(h);
    OneVersion(cfg.registry, Resolved(IsComplete), ledger, cfg.installed, cfg.compare, v);
    OneVersion(cfg.registry, Resolved(IsPartial), ledger, cfg.installed, cfg.compare, v);
    OneVersion(cfg.registry, Resolved(IsPending), ledger, cfg.installed, cfg.compare, v);
    OneVersion(cfg.registry, Future, ledger, cfg.installed, cfg.compare, v);
    assert ToRun(cfg, ledger, v) == [v];
    PartialLoop(h, v);
  }

  lemma {:induction false} PartialLoop(h: History, v: string)
    ensures var e := Write(Entry(v, Partial));
            RunAll([v], OwnPartial(v), h) == (h + [Start(v)] + [e] + [e], false)
  {
    assert [v][1..] == [];
  }

  lemma PartialRunEffect(h: History, v: string)
    ensures var e := Write(Entry(v, Partial));
            EntriesAt(h + [Start(v)] + [e] + [e], v) == EntriesAt(h, v) + [e.e] + [e.e]
  {
    hide EntriesAt;
    var e := Write(Entry(v, Partial));
    ActEffect(h, Start(v), v);
    ActEffect(h + [Start(v)], e, v);
    ActEffect(h + [Start(v)] + [e], e, v);
    assert EntriesAt(h, v) + [] == EntriesAt(h, v);
  }

  lemma TrailingPartials(e: Entry)
    requires e.status == Partial
    ensures Trailing([e] + [e]) == 2 && StatusOf([e] + [e]) == IsPartial && StatusOf([]) == IsPending
    ensures Trailing([e] + [e] + [e] + [e]) == 4
  {
    TrailingSnoc([], e);
    TrailingSnoc([e], e);
    TrailingSnoc([e] + [e], e);
    TrailingSnoc([e] + [e] + [e], e);
    assert [] + [e] == [e];
    assert ([e] + [e])[1].status == Partial;
  }

  /** Two such runs leave four trailing partials. */
  lemma FourPartials(cfg: Config, v: string)
    requires Distinct(cfg.registry) && v != "" && Startable(cfg, v)
    ensures Trailing(EntriesAt(Session(TwoPartialRuns(cfg, v)), v)) == 4
  {
    hide StatusOf, EntriesAt, Trailing, Execute;
    var e, steps := Entry(v, Partial), TwoPartialRuns(cfg, v);
    TrailingPartials(e);
    NothingAt(v);
    PartialRun(cfg, [], v);
    PartialRunEffect([], v);
    assert [] + [e] + [e] == [e] + [e];
    var once := [] + [Start(v)] + [Write(e)] + [Write(e)];
    PartialRun(cfg, once, v);
    PartialRunEffect(once, v);
    assert steps[..1] == [steps[0]] && [steps[0]][..0] == [];
    assert Session(steps[..1]) == once;
  }

  lemma NothingAt(v: string)
    ensures EntriesAt([], v) == [] && Session([]) == []
  {
  }

  /**
    "Three consecutive partials at most" holds of every session over the allowed configurations if
    and only if no version they can start has an orchestrator that records its own partial.
  */
  lemma ThreePartialsExactly(allowed: Config -> bool, records: string -> bool)
    requires forall cfg | allowed(cfg) :: Distinct(cfg.registry) && "" !in cfg.registry
    ensures (forall steps | Within(steps, allowed) && OnlyThese(steps, records) :: AtMostThree(Session(steps)))
            <==> (forall cfg, v | allowed(cfg) && Startable(cfg, v) :: !records(v))
  {
    hide Session, EntriesAt, Trailing;
    if forall cfg, v | allowed(cfg) && Startable(cfg, v) :: !records(v) {
      forall steps | Within(steps, allowed) && OnlyThese(steps, records) ensures AtMostThree(Session(steps)) {
        NoneRecorded(steps, allowed, records);
      }
    }
    forall cfg, v | allowed(cfg) && Startable(cfg, v) && records(v)
      ensures exists steps :: Within(steps, allowed) && OnlyThese(steps, records) && !AtMostThree(Session(steps))
    {
      var steps := TwoPartialRuns(cfg, v);
      var h := Session(steps);
      FourPartials(cfg, v);
      assert h[..|h|] == h;
      assert Within(steps, allowed) && OnlyThese(steps, records) && !AtMostThree(h);
    }
  }

  lemma NoneRecorded(steps: seq<Step>, allowed: Config -> bool, records: string -> bool)
    requires forall cfg | allowed(cfg) :: Distinct(cfg.registry)
    requires Within(steps, allowed) && OnlyThese(steps, records)
    requires forall cfg, v | allowed(cfg) && Startable(cfg, v) :: !records(v)
    ensures AtMostThree(Session(steps))
  {
    hide Session, EntriesAt, Trailing;
    var none := (v: string) => false;
    forall i | 0 <= i < |steps| ensures StepRecords(steps[i], none) {
      assert StepRecords(steps[i], records) && allowed(steps[i].cfg);
    }
    SessionSettles(steps, none);
    var h := Session(steps);
    forall v: string, k | 0 <= k <= |h| ensures Trailing(EntriesAt(h[..k], v)) <= MAX_CONSECUTIVE_PARTIALS {
      assert Bounded(h, v, Cap(none(v)));
    }
  }

  /** The registered 0.16.0 records its own partial: two failed verifications leave four trailing partials. */
  lemma FourPartialsOf016()
    ensures exists steps :: ProperRegistries(steps) && |steps| == 2
              && Trailing(EntriesAt(Session(steps), "0.16.0")) == 4
  {
    hide Session, EntriesAt, Trailing;
    var cfg := Config(["0.16.0"], "0.16.0", (a: string, b: string) => 0);
    FourPartials(cfg, "0.16.0");
    assert ProperRegistries(TwoPartialRuns(cfg, "0.16.0"));
  }

  function CountStarts(h: History, v: string): nat {
    if h == [] then 0 else CountStarts(h[..|h| - 1], v) + if h[|h| - 1] == Start(v) then 1 else 0
  }

  lemma {:induction false} StartsSinceCovers(h: History, g: History, v: string)
    requires Write(Entry(v, Retry)) !in g
    ensures CountStarts(g, v) <= StartsSince(h + g, v)
  {
    if g != [] {
      var pre := g[..|g| - 1];
      StartsSinceCovers(h, pre, v);
      assert (h + g)[..|h + g| - 1] == h + pre;
    }
  }

  /** An orchestrator starts at most three times between two of its retry markers. */
  lemma {:induction false} AttemptsBetweenRetries(steps: seq<Step>, v: string, i: nat, j: nat)
    requires ProperRegistries(steps) && i <= j <= |Session(steps)|
    requires Write(Entry(v, Retry)) !in Session(steps)[i..j]
    ensures CountStarts(Session(steps)[i..j], v) <= MAX_CONSECUTIVE_PARTIALS
  {
    hide Session, StartsSince, CountStarts, EntriesAt;
    var h := Session(steps);
    var any := (w: string) => true;
    AttemptsAreBounded(steps, any, v, j);
    StartsSinceCovers(h[..i], h[i..j], v);
    assert h[..i] + h[i..j] == h[..j];
  }

  // ----- completed versions are left alone

  lemma {:induction false} RunAllExtends(toRun: seq<string>, outcome: string -> Outcome, h: History, v: string)
    ensures h <= RunAll(toRun, outcome, h).0
    ensures v !in toRun ==> CountStarts(RunAll(toRun, outcome, h).0, v) == CountStarts(h, v)
    decreases |toRun|
  {
    if toRun != [] {
      hide Appended;
      var w, o := toRun[0], outcome(toRun[0]);
      var started, e := h + [Start(w)], RowOf(w, o);
      assert started[..|h|] == h;
      AppendedStarts(started, e, v);
      AppendedStarts(Appended(started, e), e, v);
      if !Stops(o) {
        RunAllExtends(toRun[1..], outcome, Recorded(started, w, o), v);
      }
    }
  }

  lemma {:induction false} AppendedStarts(h: History, e: Entry, v: string)
    ensures h <= Appended(h, e) && CountStarts(Appended(h, e), v) == CountStarts(h, v)
  {
    assert (h + [Write(e)])[..|h|] == h;
  }

  lemma {:induction false} ResetAllExtends(wedged: seq<string>, h: History, v: string)
    ensures h <= ResetAll(wedged, h) && CountStarts(ResetAll(wedged, h), v) == CountStarts(h, v)
  {
    if wedged != [] {
      ResetAllExtends(wedged[..|wedged| - 1], h, v);
      AppendedStarts(ResetAll(wedged[..|wedged| - 1], h), Entry(wedged[|wedged| - 1], Retry), v);
    }
  }

  lemma {:induction false} EntriesGrow(h: History, g: History, v: string)
    requires h <= g
    ensures EntriesAt(h, v) <= EntriesAt(g, v)
  {
    if h == g {
    } else {
      var pre := g[..|g| - 1];
      EntriesGrow(h, pre, v);
      assert g == pre + [g[|g| - 1]];
      ActEffect(pre, g[|g| - 1], v);
    }
  }

  lemma {:induction false} CompletedStays(cfg: Config, h: History, cmd: Command, v: string)
    requires Distinct(cfg.registry) && StatusOf(EntriesAt(h, v)) == IsComplete
    ensures StatusOf(EntriesAt(Execute(cfg, h, cmd).0, v)) == IsComplete
    ensures CountStarts(Execute(cfg, h, cmd).0, v) == CountStarts(h, v)
  {
    var g := Execute(cfg, h, cmd).0;
    assert h <= g && CountStarts(g, v) == CountStarts(h, v) by {
      hide StatusOf, CountStarts, LedgerOf;
      match cmd {
        case ForceRetry(w) => AppendedStarts(h, Entry(w, Retry), v);
        case ForceOrchestrator => ResetAllExtends(Wedged(cfg.registry, LedgerOf(h)), h, v);
        case Apply(only, report, outcome) =>
          ToRunIsRunnable(cfg, LedgerOf(h), only);
          RunAllExtends(ToRun(cfg, LedgerOf(h), only), outcome, h, v);
      }
    }
    EntriesGrow(h, g, v);
    var es, fs := EntriesAt(h, v), EntriesAt(g, v);
    assert fs == es + fs[|es|..];
    CompleteIsTerminal(es, fs[|es|..]);
  }

  /** Once complete, a version stays complete through all later commands and never starts again. */
  lemma {:induction false} CompletedNeverReruns(h: History, steps: seq<Step>, v: string)
    requires ProperRegistries(steps) && StatusOf(EntriesAt(h, v)) == IsComplete
    ensures StatusOf(EntriesAt(Resumed(h, steps), v)) == IsComplete
    ensures CountStarts(Resumed(h, steps), v) == CountStarts(h, v)
  {
    hide StatusOf, EntriesAt, CountStarts, Execute;
    if steps != [] {
      var m := |steps| - 1;
      CompletedNeverReruns(h, steps[..m], v);
      CompletedStays(steps[m].cfg, Resumed(h, steps[..m]), steps[m].cmd, v);
    }
  }

  // ----- the order of a run

  /** The registered versions a run will start, in registry order. */
  function Runnable(registry: seq<string>, ledger: seq<Entry>, installed: string, compare: Order, only: string): seq<string> {
    if registry == [] then []
    else
      var v := registry[|registry| - 1];
      var b := BucketOf(v, ledger, installed, compare, only);
      Runnable(registry[..|registry| - 1], ledger, installed, compare, only)
      + if b == Resolved(IsPartial) || b == Resolved(IsPending) then [v] else []
  }

  /** A pending version registered before a partial one. */
  ghost predicate Inversion(vs: seq<string>, ledger: seq<Entry>) {
    exists i, j :: 0 <= i < j < |vs| && StatusOf(EntriesFor(vs[i], ledger)) == IsPending
                   && StatusOf(EntriesFor(vs[j], ledger)) == IsPartial
  }

  ghost predicate AllHave(vs: seq<string>, ledger: seq<Entry>, status: Resolution) {
    forall i | 0 <= i < |vs| :: StatusOf(EntriesFor(vs[i], ledger)) == status
  }

  lemma PartialsFirst(cfg: Config, ledger: seq<Entry>, only: string)
    ensures var plan := PlanOf(cfg.registry, ledger, cfg.installed, cfg.compare, only);
            AllHave(plan.partial, ledger, IsPartial) && AllHave(plan.pending, ledger, IsPending)
  {
    hide StatusOf, EntriesFor;
    var plan := PlanOf(cfg.registry, ledger, cfg.installed, cfg.compare, only);
    forall i | 0 <= i < |plan.partial| ensures StatusOf(EntriesFor(plan.partial[i], ledger)) == IsPartial {
      InBucketMembers(cfg.registry, Resolved(IsPartial), ledger, cfg.installed, cfg.compare, only, plan.partial[i]);
    }
    forall i | 0 <= i < |plan.pending| ensures StatusOf(EntriesFor(plan.pending[i], ledger)) == IsPending {
      InBucketMembers(cfg.registry, Resolved(IsPending), ledger, cfg.installed, cfg.compare, only, plan.pending[i]);
    }
  }

  lemma PendingThenPartial(partial: seq<string>, pending: seq<string>, v: string, ledger: seq<Entry>)
    requires AllHave(pending, ledger, IsPending) && pending != []
    requires StatusOf(EntriesFor(v, ledger)) == IsPartial
    ensures Inversion((partial + pending) + [v], ledger)
  {
    hide StatusOf, EntriesFor;
    var all := (partial + pending) + [v];
    assert all[|partial|] == pending[0] && all[|partial| + |pending|] == v;
  }

  lemma InversionStays(vs: seq<string>, more: seq<string>, ledger: seq<Entry>)
    requires Inversion(vs, ledger)
    ensures Inversion(vs + more, ledger)
  {
    hide StatusOf, EntriesFor;
    assert forall i | 0 <= i < |vs| :: (vs + more)[i] == vs[i];
  }

  lemma PartialsThenPendings(partial: seq<string>, pending: seq<string>, ledger: seq<Entry>)
    requires AllHave(partial, ledger, IsPartial) && AllHave(pending, ledger, IsPending)
    ensures !Inversion(partial + pending, ledger)
  {
    hide StatusOf, EntriesFor;
    var all := partial + pending;
    assert forall i | 0 <= i < |partial| :: all[i] == partial[i];
    assert forall i | |partial| <= i < |all| :: all[i] == pending[i - |partial|];
  }

  lemma {:induction false} NoInversionIsRegistryOrder(cfg: Config, ledger: seq<Entry>, only: string)
    requires !Inversion(Runnable(cfg.registry, ledger, cfg.installed, cfg.compare, only), ledger)
    ensures Runnable(cfg.registry, ledger, cfg.installed, cfg.compare, only) == ToRun(cfg, ledger, only)
    decreases |cfg.registry|
  {
    hide StatusOf, EntriesFor, Inversion, AllHave;
    if cfg.registry != [] {
      var m := |cfg.registry| - 1;
      var pre, v := cfg.(registry := cfg.registry[..m]), cfg.registry[m];
      var before := Runnable(pre.registry, ledger, cfg.installed, cfg.compare, only);
      var all := Runnable(cfg.registry, ledger, cfg.installed, cfg.compare, only);
      var b := BucketOf(v, ledger, cfg.installed, cfg.compare, only);
      if Inversion(before, ledger) {
        InversionStays(before, all[|before|..], ledger);
      }
      assert before + all[|before|..] == all;
      NoInversionIsRegistryOrder(pre, ledger, only);
      PartialsFirst(pre, ledger, only);
      var plan := PlanOf(pre.registry, ledger, cfg.installed, cfg.compare, only);
      if b == Resolved(IsPartial) {
        if plan.pending != [] {
          PendingThenPartial(plan.partial, plan.pending, v, ledger);
          assert false;
        }
        assert plan.partial + [] + [v] == (plan.partial + [v]) + [];
      } else if b == Resolved(IsPending) {
        assert (plan.partial + plan.pending) + [v] == plan.partial + (plan.pending + [v]);
      } else {
        assert before + [] == before && plan.partial + [] == plan.partial && plan.pending + [] == plan.pending;
      }
    }
  }

  /**
    The comment above the loop promises registry order. Partials in fact run before all pendings,
    which is registry order exactly when no pending version is registered before a partial one.
  */
  lemma {:induction false} RunIsInRegistryOrder(cfg: Config, ledger: seq<Entry>, only: string)
    ensures var runnable := Runnable(cfg.registry, ledger, cfg.installed, cfg.compare, only);
            ToRun(cfg, ledger, only) == runnable <==> !Inversion(runnable, ledger)
  {
    var runnable := Runnable(cfg.registry, ledger, cfg.installed, cfg.compare, only);
    if !Inversion(runnable, ledger) {
      NoInversionIsRegistryOrder(cfg, ledger, only);
    }
    PartialsFirst(cfg, ledger, only);
    var plan := PlanOf(cfg.registry, ledger, cfg.installed, cfg.compare, only);
    PartialsThenPendings(plan.partial, plan.pending, ledger);
  }

  /** A ledger on which the run starts a later-registered version first. */
  lemma RegistryOrderFails()
    ensures exists cfg: Config, ledger: seq<Entry> ::
              cfg.registry == ["1", "2"] && ToRun(cfg, ledger, "") == ["2", "1"]
  {
    hide StatusOf, EntriesFor;
    var ledger, compare := [Entry("2", Partial)], (a: string, b: string) => 0;
    OneEntry(Entry("2", Partial));
    OnlySecondPartial(ledger, compare);
    assert ToRun(Config(["1", "2"], "", compare), ledger, "") == ["2"] + ["1"];
  }

  lemma OneEntry(e: Entry)
    ensures EntriesFor(e.version, [e]) == [e]
    ensures forall v | v != e.version :: EntriesFor(v, [e]) == []
    ensures StatusOf([]) == IsPending
    ensures e.status == Partial ==> StatusOf([e]) == IsPartial
  {
    forall v ensures EntriesFor(v, [e]) == if v == e.version then [e] else [] {
      WithKeySnoc(VersionOf, v, [], e);
      assert [] + [e] == [e];
    }
    assert [e][..0] == [];
    assert e.status == Partial ==> [e][0].status == Partial && Trailing([e]) == 1;
  }

  lemma {:induction false} OnlySecondPartial(ledger: seq<Entry>, compare: Order)
    requires BucketOf("1", ledger, "", compare, "") == Resolved(IsPending)
    requires BucketOf("2", ledger, "", compare, "") == Resolved(IsPartial)
    ensures InBucket(["1", "2"], Resolved(IsPartial), ledger, "", compare, "") == ["2"]
    ensures InBucket(["1", "2"], Resolved(IsPending), ledger, "", compare, "") == ["1"]
  {
    hide BucketOf;
    var registry, one := ["1", "2"], ["1"];
    assert registry[..1] == one && one[..0] == [];
    assert InBucket(one, Resolved(IsPartial), ledger, "", compare, "") == [];
    assert InBucket(one, Resolved(IsPending), ledger, "", compare, "") == one;
  }

  // ----- resets and progress

  lemma {:induction false} WedgedMembers(registry: seq<string>, ledger: seq<Entry>, v: string)
    ensures v in Wedged(registry, ledger) <==> v in registry && StatusOf(EntriesFor(v, ledger)) == IsWedged
  {
    hide StatusOf, EntriesFor;
    if registry != [] {
      WedgedMembers(registry[..|registry| - 1], ledger, v);
      assert registry == registry[..|registry| - 1] + [registry[|registry| - 1]];
    }
  }

  lemma {:induction false} ResetAllOpens(wedged: seq<string>, h: History, v: string)
    requires StatusOf(EntriesAt(h, v)) != IsWedged || v in wedged
    ensures StatusOf(EntriesAt(ResetAll(wedged, h), v)) != IsWedged
  {
    if wedged != [] {
      hide EntriesAt, StatusOf;
      var pre, w := wedged[..|wedged| - 1], wedged[|wedged| - 1];
      var g := ResetAll(pre, h);
      assert wedged == pre + [w];
      if v != w {
        ResetAllOpens(pre, h, v);
      }
      RetryOpens(g, w, v);
    }
  }

  lemma RetryOpens(h: History, w: string, v: string)
    requires v == w || StatusOf(EntriesAt(h, v)) != IsWedged
    ensures StatusOf(EntriesAt(Appended(h, Entry(w, Retry)), v)) != IsWedged
  {
    hide EntriesAt;
    ActEffect(h, Write(Entry(w, Retry)), v);
    assert EntriesAt(h, v) + [] == EntriesAt(h, v);
  }

  /** After `--force-orchestrator` no registered version is wedged, and nothing has started. */
  lemma {:induction false} ForceOrchestratorUnwedges(cfg: Config, h: History, v: string)
    requires v in cfg.registry
    ensures var g := Execute(cfg, h, ForceOrchestrator).0;
            StatusOf(EntriesAt(g, v)) != IsWedged && CountStarts(g, v) == CountStarts(h, v)
  {
    hide StatusOf, CountStarts, EntriesFor, Wedged, ResetAll, LedgerOf;
    WedgedMembers(cfg.registry, LedgerOf(h), v);
    ResetAllOpens(Wedged(cfg.registry, LedgerOf(h)), h, v);
    ResetAllExtends(Wedged(cfg.registry, LedgerOf(h)), h, v);
  }

  lemma {:induction false} AllSucceed(toRun: seq<string>, outcome: string -> Outcome, h: History, v: string)
    requires forall w | w in toRun :: outcome(w).Succeeded?
    requires v in toRun || StatusOf(EntriesAt(h, v)) == IsComplete
    ensures !RunAll(toRun, outcome, h).1
    ensures StatusOf(EntriesAt(RunAll(toRun, outcome, h).0, v)) == IsComplete
    decreases |toRun|
  {
    if toRun != [] {
      hide StatusOf, EntriesAt, Appended;
      var w := toRun[0];
      var started, e := h + [Start(w)], Entry(w, Complete);
      assert toRun == [w] + toRun[1..];
      if v == w || StatusOf(EntriesAt(h, v)) == IsComplete {
        StartKeepsStatus(h, w, v);
        CompletedBy(started, w, v);
        CompletedBy(Appended(started, e), w, v);
      }
      AllSucceed(toRun[1..], outcome, Recorded(started, w, outcome(w)), v);
    }
  }

  lemma StartKeepsStatus(h: History, w: string, v: string)
    ensures EntriesAt(h + [Start(w)], v) == EntriesAt(h, v)
  {
    ActEffect(h, Start(w), v);
    assert EntriesAt(h, v) + [] == EntriesAt(h, v);
  }

  lemma CompletedBy(h: History, w: string, v: string)
    requires v == w || StatusOf(EntriesAt(h, v)) == IsComplete
    ensures StatusOf(EntriesAt(Appended(h, Entry(w, Complete)), v)) == IsComplete
  {
    hide EntriesAt, Trailing;
    var es := EntriesAt(h, v);
    ActEffect(h, Write(Entry(w, Complete)), v);
    assert es + [] == es;
    HasSnoc(es, Entry(w, Complete), Complete);
    LastIsHeld(es);
    SameEntries(h, v);
  }

  lemma {:induction false} SameEntries(h: History, v: string)
    ensures EntriesAt(h, v) == EntriesFor(v, LedgerOf(h))
  {
  }

  /** One full run with no failure completes every installed version that is not wedged. */
  lemma CleanRunCompletesAll(cfg: Config, h: History, outcome: string -> Outcome, v: string)
    requires v in cfg.registry && cfg.compare(v, cfg.installed) <= 0
    requires forall w | w in cfg.registry :: outcome(w).Succeeded?
    requires StatusOf(EntriesAt(h, v)) != IsWedged
    requires Distinct(cfg.registry)
    ensures var r := Execute(cfg, h, Apply("", false, outcome));
            StatusOf(EntriesAt(r.0, v)) == IsComplete && r.1 == 0
  {
    hide StatusOf, EntriesFor;
    var ledger := LedgerOf(h);
    ToRunIsRunnable(cfg, ledger, "");
    InBucketMembers(cfg.registry, Resolved(IsPartial), ledger, cfg.installed, cfg.compare, "", v);
    InBucketMembers(cfg.registry, Resolved(IsPending), ledger, cfg.installed, cfg.compare, "", v);
    AllSucceed(ToRun(cfg, ledger, ""), outcome, h, v);
  }

  lemma {:induction false} EmptyBucket(registry: seq<string>, b: Bucket, ledger: seq<Entry>, installed: string,
                                       compare: Order, only: string)
    ensures InBucket(registry, b, ledger, installed, compare, only) == []
            <==> forall v | v in registry :: BucketOf(v, ledger, installed, compare, only) != b
  {
    hide BucketOf;
    if registry != [] {
      EmptyBucket(registry[..|registry| - 1], b, ledger, installed, compare, only);
      assert registry == registry[..|registry| - 1] + [registry[|registry| - 1]];
    }
  }

  /**
    The message "No migration registered" and exit code 2 of `--migration v` appear exactly when `v`
    is unregistered or is installed and wedged: wedged versions are left out of the test.
  */
  lemma SpecificVersionRefused(cfg: Config, h: History, v: string, report: bool, outcome: string -> Outcome)
    requires v != ""
    ensures Execute(cfg, h, Apply(v, report, outcome)).1 == 2
            <==> v !in cfg.registry
                 || (cfg.compare(v, cfg.installed) <= 0 && StatusOf(EntriesAt(h, v)) == IsWedged)
  {
    hide StatusOf, EntriesFor;
    var ledger := LedgerOf(h);
    EmptyBucket(cfg.registry, Resolved(IsComplete), ledger, cfg.installed, cfg.compare, v);
    EmptyBucket(cfg.registry, Resolved(IsPartial), ledger, cfg.installed, cfg.compare, v);
    EmptyBucket(cfg.registry, Resolved(IsPending), ledger, cfg.installed, cfg.compare, v);
    EmptyBucket(cfg.registry, Future, ledger, cfg.installed, cfg.compare, v);
  }

  /** A registered version that three partials have wedged is refused as if it were not registered. */
  lemma WedgedVersionIsRefused()
    ensures exists cfg: Config, h: History, outcome ::
              "1" in cfg.registry && Execute(cfg, h, Apply("1", false, outcome)).1 == 2
  {
    hide StatusOf, EntriesAt, Execute;
    var e, cfg := Entry("1", Partial), Config(["1"], "", (a: string, b: string) => 0);
    var outcome := (v: string) => Succeeded(false);
    var h := [] + [Write(e)] + [Write(e)] + [Write(e)];
    ActEffect([], Write(e), "1");
    ActEffect([] + [Write(e)], Write(e), "1");
    ActEffect([] + [Write(e)] + [Write(e)], Write(e), "1");
    NothingAt("1");
    assert EntriesAt(h, "1") == [e, e, e];
    ThreePartials(e);
    SpecificVersionRefused(cfg, h, "1", false, outcome);
  }

  lemma ThreePartials(e: Entry)
    requires e.status == Partial
    ensures StatusOf([e, e, e]) == IsWedged
  {
    TrailingSnoc([], e);
    TrailingSnoc([] + [e], e);
    TrailingSnoc([] + [e] + [e], e);
    assert [] + [e] + [e] + [e] == [e, e, e];
  }

  // ----- what a run and a reset do, exactly

  /** The versions started, in order. */
  function StartsIn(h: History): seq<string> {
    if h == [] then []
    else StartsIn(h[..|h| - 1]) + if h[|h| - 1].Start? then [h[|h| - 1].v] else []
  }

  lemma {:induction false} StartsSnoc(h: History, a: Act)
    ensures StartsIn(h + [a]) == StartsIn(h) + if a.Start? then [a.v] else []
  {
    assert (h + [a])[..|h|] == h;
  }

  lemma {:induction false} AppendedKeepsStarts(h: History, e: Entry)
    ensures StartsIn(Appended(h, e)) == StartsIn(h)
  {
    StartsSnoc(h, Write(e));
    assert StartsIn(h) + [] == StartsIn(h);
  }

  lemma {:induction false} RecordedKeepsStarts(h: History, v: string, o: Outcome)
    ensures StartsIn(Recorded(h + [Start(v)], v, o)) == StartsIn(h) + [v]
  {
    hide Appended;
    var started, e := h + [Start(v)], RowOf(v, o);
    StartsSnoc(h, Start(v));
    AppendedKeepsStarts(started, e);
    AppendedKeepsStarts(Appended(started, e), e);
  }

  /**
    A run starts the versions given in the order given, up to and including the first that fails or
    throws, and reports a failure exactly if there is one.
  */
  lemma {:induction false} RunStopsAtFailure(toRun: seq<string>, outcome: string -> Outcome, h: History) returns (n: nat)
    ensures n <= |toRun| && StartsIn(RunAll(toRun, outcome, h).0) == StartsIn(h) + toRun[..n]
    ensures forall j | 0 <= j < n - 1 :: outcome(toRun[j]).Succeeded? || outcome(toRun[j]).LeftPartial?
    ensures RunAll(toRun, outcome, h).1 <==> n > 0 && (outcome(toRun[n - 1]).Failed? || outcome(toRun[n - 1]).Threw?)
    ensures !RunAll(toRun, outcome, h).1 ==> n == |toRun|
    decreases |toRun|
  {
    hide Recorded, StartsIn;
    if toRun == [] {
      n := 0;
      assert StartsIn(h) + [] == StartsIn(h);
    } else {
      var v, rest := toRun[0], toRun[1..];
      var g := Recorded(h + [Start(v)], v, outcome(v));
      RecordedKeepsStarts(h, v, outcome(v));
      if Stops(outcome(v)) {
        n := 1;
        assert toRun[..1] == [v];
      } else {
        var k := RunStopsAtFailure(rest, outcome, g);
        n := k + 1;
        assert toRun[..n] == [v] + rest[..k];
        assert (StartsIn(h) + [v]) + rest[..k] == StartsIn(h) + toRun[..n];
        assert forall j | 1 <= j < |toRun| :: toRun[j] == rest[j - 1];
      }
    }
  }

  /** The rows one call leaves for a version that is not complete. */
  function RowsLeft(v: string, o: Outcome): seq<Entry> {
    match o
    case Succeeded(_) => [Entry(v, Complete)]
    case LeftPartial(own) => if own then [Entry(v, Partial), Entry(v, Partial)] else [Entry(v, Partial)]
    case Failed => [Entry(v, Partial)]
    case Threw => [Entry(v, Partial)]
  }

  lemma {:induction false} AppendedEntries(h: History, e: Entry, v: string)
    ensures EntriesAt(Appended(h, e), v)
         == EntriesAt(h, v)
          + if e.version == v
               && !(e.status == Complete && EntriesAt(h, v) != [] && EntriesAt(h, v)[|EntriesAt(h, v)| - 1].status == Complete)
            then [e] else []
  {
    ActEffect(h, Write(e), v);
    SameEntries(h, e.version);
    assert EntriesAt(h, v) + [] == EntriesAt(h, v);
  }

  lemma {:induction false} RecordedEntries(h: History, v: string, o: Outcome, w: string)
    requires StatusOf(EntriesAt(h, v)) != IsComplete
    ensures EntriesAt(Recorded(h + [Start(v)], v, o), w) == EntriesAt(h, w) + if w == v then RowsLeft(v, o) else []
  {
    hide EntriesAt, Appended;
    var started, e := h + [Start(v)], RowOf(v, o);
    StartKeepsStatus(h, v, v);
    StartKeepsStatus(h, v, w);
    LastIsHeld(EntriesAt(h, v));
    AppendedEntries(started, e, w);
    AppendedEntries(started, e, v);
    AppendedEntries(Appended(started, e), e, w);
    assert EntriesAt(h, w) + [] == EntriesAt(h, w);
    if OwnRow(o) && w == v {
      assert (EntriesAt(h, v) + [e]) + [e] == EntriesAt(h, v) + [e, e];
      assert (EntriesAt(h, v) + [e])[|EntriesAt(h, v) + [e]| - 1] == e;
      assert (EntriesAt(h, v) + [e]) + [] == EntriesAt(h, v) + [e];
    }
  }

  /** Each version of a run that is started leaves the rows of its outcome; the others keep theirs. */
  lemma {:induction false} RunLeavesRows(toRun: seq<string>, outcome: string -> Outcome, h: History, v: string)
    requires Distinct(toRun) && forall i | 0 <= i < |toRun| :: StatusOf(EntriesAt(h, toRun[i])) != IsComplete
    ensures var g := RunAll(toRun, outcome, h).0;
            EntriesAt(g, v) == EntriesAt(h, v) + if Started(toRun, outcome, v) then RowsLeft(v, outcome(v)) else []
    decreases |toRun|
  {
    hide EntriesAt, Recorded, StatusOf, RowsLeft;
    assert EntriesAt(h, v) + [] == EntriesAt(h, v);
    if toRun != [] {
      var w, rest := toRun[0], toRun[1..];
      var g := Recorded(h + [Start(w)], w, outcome(w));
      RecordedEntries(h, w, outcome(w), v);
      assert forall i | 1 <= i < |toRun| :: toRun[i] == rest[i - 1];
      assert forall i | 0 <= i < |rest| :: rest[i] == toRun[i + 1];
      if !Stops(outcome(w)) {
        forall i | 0 <= i < |rest| ensures StatusOf(EntriesAt(g, rest[i])) != IsComplete {
          RecordedEntries(h, w, outcome(w), rest[i]);
          assert EntriesAt(h, rest[i]) + [] == EntriesAt(h, rest[i]);
        }
        RunLeavesRows(rest, outcome, g, v);
        RestStarted(toRun, outcome, v);
      } else {
        OnlyFirstStarted(toRun, outcome, v);
      }
    }
  }

  ghost predicate Started(toRun: seq<string>, outcome: string -> Outcome, v: string) {
    exists i :: 0 <= i < |toRun| && toRun[i] == v
                && forall j | 0 <= j < i :: outcome(toRun[j]).Succeeded? || outcome(toRun[j]).LeftPartial?
  }

  lemma RestStarted(toRun: seq<string>, outcome: string -> Outcome, v: string)
    requires toRun != [] && Distinct(toRun) && !Stops(outcome(toRun[0]))
    ensures Started(toRun, outcome, v) <==> v == toRun[0] || Started(toRun[1..], outcome, v)
    ensures v == toRun[0] ==> !Started(toRun[1..], outcome, v)
  {
    var rest := toRun[1..];
    assert forall i | 0 <= i < |rest| :: rest[i] == toRun[i + 1];
    if Started(toRun, outcome, v) && v != toRun[0] {
      var i :| 0 <= i < |toRun| && toRun[i] == v
               && forall j | 0 <= j < i :: outcome(toRun[j]).Succeeded? || outcome(toRun[j]).LeftPartial?;
      assert rest[i - 1] == v;
      forall j | 0 <= j < i - 1 ensures outcome(rest[j]).Succeeded? || outcome(rest[j]).LeftPartial? {
        assert rest[j] == toRun[j + 1];
      }
    }
    if Started(rest, outcome, v) {
      var i :| 0 <= i < |rest| && rest[i] == v
               && forall j | 0 <= j < i :: outcome(rest[j]).Succeeded? || outcome(rest[j]).LeftPartial?;
      assert toRun[i + 1] == v && toRun[i + 1] != toRun[0];
      forall j | 0 <= j < i + 1 ensures outcome(toRun[j]).Succeeded? || outcome(toRun[j]).LeftPartial? {
        assert j > 0 ==> toRun[j] == rest[j - 1];
      }
    }
  }

  lemma OnlyFirstStarted(toRun: seq<string>, outcome: string -> Outcome, v: string)
    requires toRun != [] && Stops(outcome(toRun[0]))
    ensures Started(toRun, outcome, v) <==> v == toRun[0]
  {
    if v == toRun[0] {
      assert toRun[0] == v;
    }
  }

  /** Refused or report-only commands change nothing; otherwise exit code 1 says that some start failed. */
  lemma {:induction false} ApplyChangesOnlyByRunning(cfg: Config, h: History, only: string, report: bool, outcome: string -> Outcome)
    ensures var r := Execute(cfg, h, Apply(only, report, outcome));
            && (r.1 == 0 || r.1 == 1 || r.1 == 2) && (report || r.1 == 2 ==> r.0 == h && r.1 != 1)
            && (!report && r.1 != 2 ==> r.0 == RunAll(ToRun(cfg, LedgerOf(h), only), outcome, h).0
                                        && (r.1 == 1 <==> exists v :: v in ToRun(cfg, LedgerOf(h), only)
                                                                      && (outcome(v).Failed? || outcome(v).Threw?)))
  {
    hide LedgerOf, StatusOf, EntriesFor;
    var toRun := ToRun(cfg, LedgerOf(h), only);
    var n := RunStopsAtFailure(toRun, outcome, h);
    if !RunAll(toRun, outcome, h).1 && n > 0 {
      forall v | v in toRun ensures outcome(v).Succeeded? || outcome(v).LeftPartial? {
        var i :| 0 <= i < |toRun| && toRun[i] == v;
      }
    }
  }

  /** `--force-retry` of a registered version adds one retry row and nothing else, and reopens the version unless it is complete. */
  lemma {:induction false} ForceRetryReopens(cfg: Config, h: History, v: string)
    ensures v !in cfg.registry ==> Execute(cfg, h, ForceRetry(v)) == (h, 2)
    ensures v in cfg.registry ==>
              var r := Execute(cfg, h, ForceRetry(v));
              && r.1 == 0 && LedgerOf(r.0) == LedgerOf(h) + [Entry(v, Retry)] && StartsIn(r.0) == StartsIn(h)
              && StatusOf(EntriesAt(r.0, v)) == if StatusOf(EntriesAt(h, v)) == IsComplete then IsComplete else IsPending
  {
    hide EntriesAt, LedgerOf, StatusOf, EntriesFor, StartsIn;
    var e := Entry(v, Retry);
    LedgerSnoc(h, Write(e));
    AppendedKeepsStarts(h, e);
    ActEffect(h, Write(e), v);
    RetryStatus(EntriesAt(h, v), e);
  }

  lemma RetryStatus(es: seq<Entry>, e: Entry)
    requires e.status == Retry
    ensures StatusOf(es + [e]) == if StatusOf(es) == IsComplete then IsComplete else IsPending
  {
    hide Trailing;
    HasSnoc(es, e, Complete);
  }

  /** After it, the next full run starts an installed version again, wedged or not, unless an earlier one in its order fails. */
  lemma {:induction false} RetryStartsAgain(cfg: Config, h: History, v: string, outcome: string -> Outcome)
    requires Distinct(cfg.registry) && Startable(cfg, v) && StatusOf(EntriesAt(h, v)) != IsComplete
    ensures var g := Execute(cfg, h, ForceRetry(v)).0;
            var toRun := ToRun(cfg, LedgerOf(g), "");
            && v in toRun
            && (Started(toRun, outcome, v) ==>
                  CountStarts(Execute(cfg, g, Apply("", false, outcome)).0, v) == CountStarts(h, v) + 1)
            && ((forall w | w in toRun && w != v :: outcome(w).Succeeded? || outcome(w).LeftPartial?) ==> Started(toRun, outcome, v))
  {
    hide StatusOf, EntriesFor, LedgerOf, RunAll, StartsIn, Appended, CountStarts;
    var g := Execute(cfg, h, ForceRetry(v)).0;
    ForceRetryReopens(cfg, h, v);
    AppendedStarts(h, Entry(v, Retry), v);
    var ledger := LedgerOf(g);
    SameEntries(g, v);
    InBucketMembers(cfg.registry, Resolved(IsPending), ledger, cfg.installed, cfg.compare, "", v);
    ToRunIsRunnable(cfg, ledger, "");
    var toRun := ToRun(cfg, ledger, "");
    assert v in toRun;
    FirstOccurrence(toRun, v);
    RunCountsStart(toRun, outcome, g, v);
  }

  lemma FirstOccurrence(toRun: seq<string>, v: string)
    requires v in toRun && Distinct(toRun)
    ensures exists i :: 0 <= i < |toRun| && toRun[i] == v && forall j | 0 <= j < i :: toRun[j] in toRun && toRun[j] != v
  {
    var i :| 0 <= i < |toRun| && toRun[i] == v;
    assert forall j | 0 <= j < i :: toRun[j] in toRun && toRun[j] != v;
  }

  /** A run counts one start for each version it reaches. */
  lemma {:induction false} RunCountsStart(toRun: seq<string>, outcome: string -> Outcome, h: History, v: string)
    requires Distinct(toRun)
    ensures CountStarts(RunAll(toRun, outcome, h).0, v) == CountStarts(h, v) + if Started(toRun, outcome, v) then 1 else 0
    decreases |toRun|
  {
    hide Appended, Started;
    NobodyStarted(outcome, v);
    if toRun != [] {
      var w, o := toRun[0], outcome(toRun[0]);
      var started, e := h + [Start(w)], RowOf(w, o);
      assert started[..|h|] == h;
      AppendedStarts(started, e, v);
      AppendedStarts(Appended(started, e), e, v);
      if !Stops(o) {
        RunCountsStart(toRun[1..], outcome, Recorded(started, w, o), v);
        RestStarted(toRun, outcome, v);
      } else {
        OnlyFirstStarted(toRun, outcome, v);
      }
    }
  }

  lemma NobodyStarted(outcome: string -> Outcome, v: string)
    ensures !Started([], outcome, v)
  {
  }

  /** `--force-orchestrator` adds one retry row to each registered version that is wedged, and no other row. */
  lemma {:induction false} ForceOrchestratorResetsWedged(cfg: Config, h: History, v: string)
    requires Distinct(cfg.registry)
    ensures var r := Execute(cfg, h, ForceOrchestrator);
            && r.1 == 0
            && EntriesAt(r.0, v)
               == EntriesAt(h, v) + if v in cfg.registry && StatusOf(EntriesAt(h, v)) == IsWedged then [Entry(v, Retry)] else []
  {
    hide StatusOf, LedgerOf, Wedged, ResetAll;
    var wedged := Wedged(cfg.registry, LedgerOf(h));
    WedgedMembers(cfg.registry, LedgerOf(h), v);
    WedgedDistinct(cfg.registry, LedgerOf(h));
    ResetAllEntries(wedged, h, v);
    SameEntries(h, v);
  }

  lemma {:induction false} WedgedDistinct(registry: seq<string>, ledger: seq<Entry>)
    requires Distinct(registry)
    ensures Distinct(Wedged(registry, ledger))
  {
    hide StatusOf, EntriesFor;
    if registry != [] {
      var m := |registry| - 1;
      WedgedDistinct(registry[..m], ledger);
      WedgedMembers(registry[..m], ledger, registry[m]);
    }
  }

  lemma {:induction false} ResetAllEntries(wedged: seq<string>, h: History, v: string)
    requires Distinct(wedged)
    ensures EntriesAt(ResetAll(wedged, h), v) == EntriesAt(h, v) + if v in wedged then [Entry(v, Retry)] else []
  {
    hide EntriesAt, Appended;
    assert EntriesAt(h, v) + [] == EntriesAt(h, v);
    if wedged != [] {
      var m := |wedged| - 1;
      ResetAllEntries(wedged[..m], h, v);
      AppendedEntries(ResetAll(wedged[..m], h), Entry(wedged[m], Retry), v);
      assert wedged == wedged[..m] + [wedged[m]];
    }
  }
}
