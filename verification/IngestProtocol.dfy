/**
  Concurrent ingest runs sharing one lockfile and one ledger
  (source-mock/ingest/ledger.py, source-mock/ingest/cli.py).
*/
module IngestProtocol {
  import opened Wrappers
  import opened Ledger

  type Pid = nat

  /**
    A run: not started; refused the lock; holding it before the ledger is read; sending, with the
    ledger position and index it read and the number of rows appended since; ended; or killed.
  */
  datatype Proc =
    | Idle
    | Refused
    | Acquired
    | Sending(start: nat, index: Index, sent: nat)
    | Ended(held: Option<Span>)
    | Killed(held: Option<Span>)

  /** What a run that read the ledger did: its index, and the rows it appended from `start`. */
  datatype Span = Span(start: nat, index: Index, sent: nat)

  /** `log` is the ledger as tagged appends; a pid without an entry in `procs` is idle. */
  datatype State = State(lock: Option<Pid>, log: seq<(Pid, Event)>, procs: map<Pid, Proc>)

  /** What each run appends once it has read a given index: one row for each record it sends. */
  type Plan = (Pid, Index) -> seq<Row>

  function ProcOf(s: State, p: Pid): Proc {
    if p in s.procs then s.procs[p] else Idle
  }

  function Events(log: seq<(Pid, Event)>): (es: seq<Event>)
    ensures |es| == |log| && forall i | 0 <= i < |log| :: es[i] == log[i].1
  {
    seq(|log|, i requires 0 <= i < |log| => log[i].1)
  }

  // ----- steps

  datatype Action =
    | Acquire | BeRefused | ReadLedger | AppendRow | Release
    | Kill | KillMidAppend(k: nat)
    | DeleteStaleLock

  predicate Holding(proc: Proc) {
    proc.Acquired? || proc.Sending?
  }

  function SpanOf(proc: Proc): Option<Span> {
    match proc
    case Sending(start, index, sent) => Some(Span(start, index, sent))
    case Ended(held) => held
    case Killed(held) => held
    case _ => None
  }

  /**
    One step of run `p`. Creating the lockfile is atomic; releasing unlinks it; a kill leaves it
    behind, with or without a partly written row. A stale lockfile may be deleted by hand, but
    only once the run that created it is dead.
  */
  ghost predicate Step(c: Codec, plan: Plan, s: State, p: Pid, a: Action, s': State) {
    var proc := ProcOf(s, p);
    match a
    case Acquire =>
      proc.Idle? && s.lock == None && s' == s.(lock := Some(p), procs := s.procs[p := Acquired])
    case BeRefused =>
      proc.Idle? && s.lock.Some? && s' == s.(procs := s.procs[p := Refused])
    case ReadLedger =>
      proc.Acquired?
      && s' == s.(procs := s.procs[p := Sending(|s.log|, LoadIndex(c, Content(c, Events(s.log))), 0)])
    case AppendRow =>
      proc.Sending? && proc.sent < |plan(p, proc.index)|
      && s' == s.(log := s.log + [(p, Written(plan(p, proc.index)[proc.sent]))],
                  procs := s.procs[p := proc.(sent := proc.sent + 1)])
    case Release =>
      Holding(proc) && s' == s.(lock := None, procs := s.procs[p := Ended(SpanOf(proc))])
    case Kill =>
      (proc.Idle? || Holding(proc)) && s' == s.(procs := s.procs[p := Killed(SpanOf(proc))])
    case KillMidAppend(k) =>
      proc.Sending? && proc.sent < |plan(p, proc.index)|
      && var row := plan(p, proc.index)[proc.sent];
         s' == s.(log := s.log + [(p, Torn(row, k))],
                     procs := s.procs[p := Killed(Some(Span(proc.start, proc.index, proc.sent + 1)))])
    case DeleteStaleLock =>
      proc.Killed? && s.lock == Some(p) && s' == s.(lock := None)
  }

  const START := State(None, [], map[])

  /** A finite run of the system: any interleaving of the steps of any number of ingest runs. */
  datatype Move = Move(p: Pid, a: Action)

  ghost predicate Execution(c: Codec, plan: Plan, states: seq<State>, moves: seq<Move>) {
    && |states| == |moves| + 1 && states[0] == START
    && forall i | 0 <= i < |moves| :: Step(c, plan, states[i], moves[i].p, moves[i].a, states[i + 1])
  }

  // ----- the invariant

  /** The lock names the one run between acquire and release, or a killed one. */
  ghost predicate LockInvariant(s: State) {
    forall p: Pid | Holding(ProcOf(s, p)) :: s.lock == Some(p)
  }

  /** The `n` appends from `start` are run `p`'s rows in order, the last one possibly cut short. */
  ghost predicate Block(plan: Plan, log: seq<(Pid, Event)>, p: Pid, span: Span, cut: bool) {
    && span.start + span.sent <= |log|
    && span.sent <= |plan(p, span.index)|
    && forall i | span.start <= i < span.start + span.sent ::
         && log[i].0 == p
         && log[i].1.row == plan(p, span.index)[i - span.start]
         && (log[i].1.Torn? ==> cut && i == span.start + span.sent - 1)
  }

  /** Run `p`'s appends are exactly its block, and its index is what the ledger held before it. */
  ghost predicate SpanInvariant(c: Codec, plan: Plan, s: State, p: Pid) {
    match SpanOf(ProcOf(s, p))
    case None => forall i | 0 <= i < |s.log| :: s.log[i].0 != p
    case Some(span) =>
      && Block(plan, s.log, p, span, ProcOf(s, p).Killed?)
      && (forall i | 0 <= i < |s.log| && s.log[i].0 == p :: span.start <= i < span.start + span.sent)
      && span.index == LoadIndex(c, Content(c, Events(s.log[..span.start])))
      && (ProcOf(s, p).Sending? ==> span.start + span.sent == |s.log|)
  }

  ghost predicate Invariant(c: Codec, plan: Plan, s: State) {
    LockInvariant(s) && forall p: Pid :: SpanInvariant(c, plan, s, p)
  }

  /** Nothing was appended, or nothing by `q`, and `q` did nothing but end, die or be refused. */
  lemma SpanKept(c: Codec, plan: Plan, s: State, s': State, q: Pid)
    requires SpanInvariant(c, plan, s, q) && SpanOf(ProcOf(s', q)) == SpanOf(ProcOf(s, q))
    requires ProcOf(s, q).Killed? ==> ProcOf(s', q).Killed?
    requires s.log <= s'.log && forall i | |s.log| <= i < |s'.log| :: s'.log[i].0 != q
    requires ProcOf(s', q).Sending? ==> s'.log == s.log && ProcOf(s, q).Sending?
    ensures SpanInvariant(c, plan, s', q)
  {
    hide LoadIndex, Content;
    match SpanOf(ProcOf(s, q)) {
      case Some(span) => assert s'.log[..span.start] == s.log[..span.start];
      case None =>
    }
  }

  lemma ReadingStartsSpan(c: Codec, plan: Plan, s: State, p: Pid, s': State)
    requires SpanInvariant(c, plan, s, p) && Step(c, plan, s, p, ReadLedger, s')
    ensures SpanInvariant(c, plan, s', p)
  {
    hide LoadIndex, Content;
    assert s.log[..|s.log|] == s.log;
  }

  lemma AppendingExtendsSpan(c: Codec, plan: Plan, s: State, p: Pid, a: Action, s': State)
    requires SpanInvariant(c, plan, s, p) && Step(c, plan, s, p, a, s') && (a.AppendRow? || a.KillMidAppend?)
    ensures SpanInvariant(c, plan, s', p)
  {
    hide LoadIndex, Content;
    var span := SpanOf(ProcOf(s, p)).value;
    assert s'.log[..span.start] == s.log[..span.start];
  }

  /** One step of `p` keeps every run's part of the invariant. */
  lemma StepKeepsSpan(c: Codec, plan: Plan, s: State, p: Pid, a: Action, s': State, q: Pid)
    requires Invariant(c, plan, s) && Step(c, plan, s, p, a, s')
    ensures SpanInvariant(c, plan, s', q)
  {
    hide SpanInvariant;
    assert SpanInvariant(c, plan, s, q);
    if p == q && a.ReadLedger? {
      ReadingStartsSpan(c, plan, s, p, s');
    } else if p == q && (a.AppendRow? || a.KillMidAppend?) {
      AppendingExtendsSpan(c, plan, s, p, a, s');
    } else {
      SpanKept(c, plan, s, s', q);
    }
  }

  lemma StepKeepsInvariant(c: Codec, plan: Plan, s: State, p: Pid, a: Action, s': State)
    requires Invariant(c, plan, s) && Step(c, plan, s, p, a, s')
    ensures Invariant(c, plan, s')
  {
    forall q: Pid ensures SpanInvariant(c, plan, s', q) {
      StepKeepsSpan(c, plan, s, p, a, s', q);
    }
  }

  lemma {:induction false} ExecutionKeepsInvariant(c: Codec, plan: Plan, states: seq<State>, moves: seq<Move>)
    requires Execution(c, plan, states, moves)
    ensures Invariant(c, plan, states[|moves|])
  {
    if moves != [] {
      var m := |moves| - 1;
      ExecutionKeepsInvariant(c, plan, states[..|moves|], moves[..m]);
      StepKeepsInvariant(c, plan, states[m], moves[m].p, moves[m].a, states[m + 1]);
    }
  }

  // ----- what it means for the runs

  /** At most one run is ever between acquiring and releasing the lock. */
  lemma MutualExclusion(c: Codec, plan: Plan, states: seq<State>, moves: seq<Move>, i: nat, p: Pid, q: Pid)
    requires Execution(c, plan, states, moves) && i <= |moves|
    requires Holding(ProcOf(states[i], p)) && Holding(ProcOf(states[i], q))
    ensures p == q
  {
    ExecutionKeepsInvariant(c, plan, states[..i + 1], moves[..i]);
  }

  /** The rows of different runs never interleave: a run's appends form one stretch of the ledger. */
  lemma RowsDoNotInterleave(c: Codec, plan: Plan, states: seq<State>, moves: seq<Move>, i: nat, j: nat, k: nat)
    requires Execution(c, plan, states, moves)
    requires i <= j <= k < |states[|moves|].log|
    requires states[|moves|].log[i].0 == states[|moves|].log[k].0
    ensures states[|moves|].log[j].0 == states[|moves|].log[i].0
  {
    var s := states[|moves|];
    ExecutionKeepsInvariant(c, plan, states, moves);
    var p := s.log[i].0;
    assert SpanInvariant(c, plan, s, p);
    assert SpanOf(ProcOf(s, p)).Some?;
  }

  /**
    A run that read the ledger saw every loadable row of every append before its own, and appended
    the rows its plan makes of that index, in order. Only a killed run's last row can be cut short.
  */
  lemma RunReflectsEarlierRuns(c: Codec, plan: Plan, states: seq<State>, moves: seq<Move>, p: Pid)
    requires Lawful(c) && Execution(c, plan, states, moves)
    requires SpanOf(ProcOf(states[|moves|], p)).Some?
    ensures var s := states[|moves|];
            var span := SpanOf(ProcOf(s, p)).value;
            && Block(plan, s.log, p, span, ProcOf(s, p).Killed?)
            && span.index == IndexOf(Survivors(c, Events(s.log[..span.start])))
            && forall i | 0 <= i < |s.log| && s.log[i].0 == p :: span.start <= i < span.start + span.sent
  {
    var s := states[|moves|];
    ExecutionKeepsInvariant(c, plan, states, moves);
    assert SpanInvariant(c, plan, s, p);
    LoadSeesSurvivors(c, Events(s.log[..SpanOf(ProcOf(s, p)).value.start]));
  }

  /** A run that lost the race for the lock, or died before reading the ledger, wrote nothing. */
  lemma LoserWritesNothing(c: Codec, plan: Plan, states: seq<State>, moves: seq<Move>, p: Pid, i: nat)
    requires Execution(c, plan, states, moves)
    requires SpanOf(ProcOf(states[|moves|], p)) == None && i < |states[|moves|].log|
    ensures states[|moves|].log[i].0 != p
  {
    ExecutionKeepsInvariant(c, plan, states, moves);
    assert SpanInvariant(c, plan, states[|moves|], p);
  }

  /** A run refused the lock stays refused. */
  lemma RefusedIsFinal(c: Codec, plan: Plan, states: seq<State>, moves: seq<Move>, i: nat, p: Pid)
    requires Execution(c, plan, states, moves) && i <= |moves| && ProcOf(states[i], p).Refused?
    ensures ProcOf(states[|moves|], p).Refused?
    decreases |moves| - i
  {
    if i < |moves| {
      assert Step(c, plan, states[i], moves[i].p, moves[i].a, states[i + 1]);
      RefusedIsFinal(c, plan, states, moves, i + 1, p);
    }
  }
}
