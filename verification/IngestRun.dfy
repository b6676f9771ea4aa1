/** One run of the ingest command (source-mock/ingest/cli.py). */
module IngestRun {
  import opened Wrappers
  import opened Ledger
  import opened Scanner
  import opened Sender
  import opened IngestProtocol
  import opened Sorting
  import LedgerCodec

  datatype Summary = Summary(sent: nat, skippedUnchanged: nat, skippedInvalid: nat,
                             tooLarge: nat, error: nat, wouldSend: nat)

  const EMPTY_SUMMARY := Summary(0, 0, 0, 0, 0, 0)

  /**
    What the environment gives a run: whether the configuration loads and the sources directory
    exists, the explicit paths (`None` for one that does not resolve to a record), what a scan
    finds, the flags, whether a token can be minted, and each upload's outcome.
  */
  datatype Input = Input(configOk: bool, sourcesExist: bool, files: seq<Option<FileRecord>>, scan: ScanResult,
                         force: bool, dryRun: bool, tokenOk: bool, upload: (nat, FileRecord) -> SendOutcome, describe: SendOutcome -> string)

  /** Exit code, summary and appended rows. */
  datatype Output = Output(code: int, summary: Summary, rows: seq<Row>)

  predicate ExplicitMode(inp: Input) {
    inp.files != []
  }

  function NeedsSend(r: FileRecord, index: Index, force: bool): bool {
    force || r.relPath !in index || index[r.relPath].contentHash != Some(r.contentHash)
  }

  function Selected(rs: seq<FileRecord>, index: Index, force: bool): seq<FileRecord> {
    if rs == [] then []
    else
      Selected(rs[..|rs| - 1], index, force)
      + if NeedsSend(rs[|rs| - 1], index, force) then [rs[|rs| - 1]] else []
  }

  /** The records not in `chosen`, by value. */
  function Rest(rs: seq<FileRecord>, chosen: seq<FileRecord>): seq<FileRecord> {
    if rs == [] then []
    else Rest(rs[..|rs| - 1], chosen) + if rs[|rs| - 1] in chosen then [] else [rs[|rs| - 1]]
  }

  function BuildEntry(r: FileRecord, outcome: SendOutcome, describe: SendOutcome -> string): Row {
    Row(r.relPath, Some(r.contentHash), outcome.result, describe(outcome))
  }

  function Count(s: Summary, result: SendResult): Summary {
    match result
    case Sent => s.(sent := s.sent + 1)
    case TooLarge => s.(tooLarge := s.tooLarge + 1)
    case Error => s.(error := s.error + 1)
  }

  /** Counters and rows after the first `n` uploads. */
  function Tally(inp: Input, chosen: seq<FileRecord>, n: nat, s: Summary): Summary
    requires n <= |chosen|
  {
    if n == 0 then s else Count(Tally(inp, chosen, n - 1, s), inp.upload(n - 1, chosen[n - 1]).result)
  }

  function Entries(inp: Input, chosen: seq<FileRecord>, n: nat): (rows: seq<Row>)
    requires n <= |chosen|
    ensures |rows| == n
  {
    if n == 0 then []
    else Entries(inp, chosen, n - 1) + [BuildEntry(chosen[n - 1], inp.upload(n - 1, chosen[n - 1]), inp.describe)]
  }

  function Resolved(files: seq<Option<FileRecord>>): Option<seq<FileRecord>> {
    if files == [] then Some([])
    else match (Resolved(files[..|files| - 1]), files[|files| - 1])
      case (Some(rs), Some(r)) => Some(rs + [r])
      case _ => None
  }

  function WorkList(inp: Input): Option<seq<FileRecord>> {
    if ExplicitMode(inp) then Resolved(inp.files) else Some(inp.scan.records)
  }

  function SkippedCount(inp: Input): nat {
    if ExplicitMode(inp) then 0 else |inp.scan.skipped|
  }

  function ForceFlag(inp: Input): bool {
    inp.force || ExplicitMode(inp)
  }

  /** What a run does once it holds the lock and has read `index`. */
  function LockedRun(inp: Input, index: Index): Output {
    match WorkList(inp)
    case None => Output(2, EMPTY_SUMMARY, [])
    case Some(records) =>
      var chosen := Selected(records, index, ForceFlag(inp));
      var s := EMPTY_SUMMARY.(skippedInvalid := SkippedCount(inp), skippedUnchanged := |Rest(records, chosen)|);
      if inp.dryRun then Output(0, s.(wouldSend := |chosen|), [])
      else if chosen != [] && !inp.tokenOk then Output(2, s, [])
      else
        var t := Tally(inp, chosen, |chosen|, s);
        Output(if t.error != 0 then 1 else 0, t, Entries(inp, chosen, |chosen|))
  }

  /** The log directory: a lockfile and a ledger. */
  class LogDir {
    var locked: bool
    const ledger: LedgerFile

    constructor (ledger: LedgerFile)
      ensures !locked && this.ledger == ledger
    {
      locked := false;
      this.ledger := ledger;
    }

    method AcquireLock() returns (ok: bool)
      modifies this
      ensures locked && ok == !old(locked)
    {
      ok := !locked;
      locked := true;
    }

    method ReleaseLock()
      modifies this
      ensures !locked
    {
      locked := false;
    }

    /**
      `run`. A run that is refused early or loses the lock changes nothing; any other appends its
      rows to the ledger and leaves the lock free.
    */
    method Run(inp: Input) returns (code: int, summary: Summary)
      modifies this, ledger
      ensures !inp.configOk ==> code == 2 && summary == EMPTY_SUMMARY
      ensures inp.configOk && !ExplicitMode(inp) && !inp.sourcesExist ==> code == 0 && summary == EMPTY_SUMMARY
      ensures var reached := inp.configOk && (ExplicitMode(inp) || inp.sourcesExist);
              && (!reached || old(locked) ==> locked == old(locked) && ledger.content == old(ledger.content))
              && (reached && old(locked) ==> code == 2 && summary == EMPTY_SUMMARY)
              && (reached && !old(locked) ==>
                    && !locked
                    && var out := LockedRun(inp, LoadIndex(ledger.codec, old(ledger.content)));
                       code == out.code && summary == out.summary
                       && ledger.content == old(ledger.content) + Lines(ledger.codec, out.rows))
    {
      summary := EMPTY_SUMMARY;
      if !inp.configOk {
        return 2, summary;
      }
      if !ExplicitMode(inp) && !inp.sourcesExist {
        return 0, summary;
      }
      var ok := AcquireLock();
      if !ok {
        return 2, summary;
      }
      code, summary := RunLocked(inp);
      ReleaseLock();
    }

    method RunLocked(inp: Input) returns (code: int, summary: Summary)
      modifies ledger
      ensures var out := LockedRun(inp, LoadIndex(ledger.codec, old(ledger.content)));
              code == out.code && summary == out.summary
              && ledger.content == old(ledger.content) + Lines(ledger.codec, out.rows)
    {
      hide LoadIndex;
      summary := EMPTY_SUMMARY;
      var work := WorkList(inp);
      if work.None? {
        NoLines(ledger.codec, ledger.content);
        return 2, summary;
      }
      var records := work.value;
      summary := summary.(skippedInvalid := SkippedCount(inp));
      var index := ledger.Load();
      var toSend := Selected(records, index, ForceFlag(inp));
      var rest := Rest(records, toSend);
      summary := summary.(skippedUnchanged := |rest|);
      if inp.dryRun {
        NoLines(ledger.codec, ledger.content);
        return 0, summary.(wouldSend := |toSend|);
      }
      if toSend != [] && !inp.tokenOk {
        NoLines(ledger.codec, ledger.content);
        return 2, summary;
      }
      summary := SendAll(inp, toSend, summary);
      code := if summary.error != 0 then 1 else 0;
    }

    /** The send loop: one upload, one count and one ledger row a record. */
    method SendAll(inp: Input, toSend: seq<FileRecord>, start: Summary) returns (summary: Summary)
      modifies ledger
      ensures summary == Tally(inp, toSend, |toSend|, start)
      ensures ledger.content == old(ledger.content) + Lines(ledger.codec, Entries(inp, toSend, |toSend|))
    {
      summary := start;
      NoLines(ledger.codec, ledger.content);
      for i := 0 to |toSend|
        invariant summary == Tally(inp, toSend, i, start)
        invariant ledger.content == old(ledger.content) + Lines(ledger.codec, Entries(inp, toSend, i))
      {
        var outcome := inp.upload(i, toSend[i]);
        summary := Count(summary, outcome.result);
        var entry := BuildEntry(toSend[i], outcome, inp.describe);
        LinesSnoc(ledger.codec, Entries(inp, toSend, i), entry);
        ledger.Append(entry);
      }
    }
  }

  function Lines(c: Codec, rows: seq<Row>): string {
    if rows == [] then "" else Lines(c, rows[..|rows| - 1]) + Line(c, rows[|rows| - 1])
  }

  lemma {:induction false} LinesSnoc(c: Codec, rows: seq<Row>, row: Row)
    ensures Lines(c, rows + [row]) == Lines(c, rows) + Line(c, row)
  {
    assert (rows + [row])[..|rows|] == rows;
  }

  lemma {:induction false} NoLines(c: Codec, content: string)
    ensures Lines(c, []) == "" && content + Lines(c, []) == content
  {
  }

  // ----- accounting

  lemma {:induction false} SelectedMembers(rs: seq<FileRecord>, index: Index, force: bool, r: FileRecord)
    ensures r in Selected(rs, index, force) <==> r in rs && NeedsSend(r, index, force)
  {
    if rs != [] {
      SelectedMembers(rs[..|rs| - 1], index, force, r);
      assert rs == rs[..|rs| - 1] + [rs[|rs| - 1]];
    }
  }

  lemma {:induction false} RestIsComplement(all: seq<FileRecord>, rs: seq<FileRecord>, index: Index, force: bool)
    requires forall r | r in rs :: r in all
    ensures |Rest(rs, Selected(all, index, force))| + |Selected(rs, index, force)| == |rs|
  {
    if rs != [] {
      RestIsComplement(all, rs[..|rs| - 1], index, force);
      SelectedMembers(all, index, force, rs[|rs| - 1]);
    }
  }

  /** The uploads among the first `n` with the given result. */
  ghost function With(result: SendResult, inp: Input, chosen: seq<FileRecord>, n: nat): (r: set<nat>)
    requires n <= |chosen|
    ensures forall i: nat :: i in r <==> i < n && inp.upload(i, chosen[i]).result == result
  {
    set i: nat | i < |chosen| && i < n && inp.upload(i, chosen[i]).result == result
  }

  lemma {:induction false} WithOneMore(result: SendResult, inp: Input, chosen: seq<FileRecord>, n: nat)
    requires 0 < n <= |chosen|
    ensures |With(result, inp, chosen, n)|
         == |With(result, inp, chosen, n - 1)| + if inp.upload(n - 1, chosen[n - 1]).result == result then 1 else 0
  {
    var before, after := With(result, inp, chosen, n - 1), With(result, inp, chosen, n);
    if inp.upload(n - 1, chosen[n - 1]).result == result {
      assert after == before + {n - 1};
    } else {
      assert after == before;
    }
  }

  lemma {:induction false} WithNone(result: SendResult, inp: Input, chosen: seq<FileRecord>)
    ensures |With(result, inp, chosen, 0)| == 0
  {
    assert With(result, inp, chosen, 0) == {};
  }

  lemma {:induction false} TallyCounts(inp: Input, chosen: seq<FileRecord>, n: nat, s: Summary)
    requires n <= |chosen|
    ensures var t := Tally(inp, chosen, n, s);
            && t.sent + t.tooLarge + t.error == s.sent + s.tooLarge + s.error + n
            && t.sent == s.sent + |With(Sent, inp, chosen, n)| && t.tooLarge == s.tooLarge + |With(TooLarge, inp, chosen, n)|
            && t.error == s.error + |With(Error, inp, chosen, n)|
            && t.skippedUnchanged == s.skippedUnchanged && t.skippedInvalid == s.skippedInvalid
            && t.wouldSend == s.wouldSend
            && (t.error > s.error <==> exists i :: 0 <= i < n && inp.upload(i, chosen[i]).result.Error?)
            && t.error >= s.error
  {
    hide With;
    if n == 0 {
      WithNone(Sent, inp, chosen);
      WithNone(TooLarge, inp, chosen);
      WithNone(Error, inp, chosen);
    } else {
      TallyCounts(inp, chosen, n - 1, s);
      WithOneMore(Sent, inp, chosen, n);
      WithOneMore(TooLarge, inp, chosen, n);
      WithOneMore(Error, inp, chosen, n);
      assert inp.upload(n - 1, chosen[n - 1]).result.Error?
        ==> exists i :: 0 <= i < n && inp.upload(i, chosen[i]).result.Error?;
    }
  }

  /** The run got as far as its summary line. */
  predicate Completed(inp: Input, index: Index) {
    && WorkList(inp).Some?
    && (inp.dryRun || inp.tokenOk || Selected(WorkList(inp).value, index, ForceFlag(inp)) == [])
  }

  /**
    Every record of a completed run is counted once; a run that sends nothing for lack of work or a
    token, or only reports, appends nothing; and the exit code says whether an upload failed.
  */
  lemma {:induction false} RunAccounting(inp: Input, index: Index)
    ensures var out := LockedRun(inp, index);
            var s := out.summary;
            && (Completed(inp, index) ==>
                  var records := WorkList(inp).value;
                  var chosen := Selected(records, index, ForceFlag(inp));
                  && s.skippedUnchanged + |chosen| == |records| && s.skippedInvalid == SkippedCount(inp)
                  && (if inp.dryRun then s.wouldSend == |chosen| && out.rows == [] && out.code == 0
                      else s.sent + s.tooLarge + s.error == |chosen| == |out.rows|
                           && s.sent == |With(Sent, inp, chosen, |chosen|)|
                           && s.tooLarge == |With(TooLarge, inp, chosen, |chosen|)|
                           && s.error == |With(Error, inp, chosen, |chosen|)|
                           && (out.code == if exists i :: 0 <= i < |chosen| && inp.upload(i, chosen[i]).result.Error?
                                           then 1 else 0)))
            && (!Completed(inp, index) ==> out.code == 2 && out.rows == [])
  {
    if WorkList(inp).Some? {
      var records := WorkList(inp).value;
      var chosen := Selected(records, index, ForceFlag(inp));
      RestIsComplement(records, records, index, ForceFlag(inp));
      TallyCounts(inp, chosen, |chosen|,
                  EMPTY_SUMMARY.(skippedInvalid := SkippedCount(inp), skippedUnchanged := |Rest(records, chosen)|));
    }
  }

  // ----- which records are sent

  /** The last ledger row with the record's path holds its hash. */
  ghost predicate UpToDate(rows: seq<Row>, r: FileRecord) {
    && r.relPath != ""
    && exists i :: 0 <= i < |rows| && rows[i].relPath == r.relPath && rows[i].contentHash == Some(r.contentHash)
                   && forall j | i < j < |rows| :: rows[j].relPath != r.relPath
  }

  lemma {:induction false} IndexHoldsLast(rows: seq<Row>, p: string)
    ensures p in IndexOf(rows) <==> p != "" && exists i :: 0 <= i < |rows| && rows[i].relPath == p
    ensures p in IndexOf(rows) ==>
              exists i :: 0 <= i < |rows| && rows[i].relPath == p && IndexOf(rows)[p] == rows[i]
                && forall j | i < j < |rows| :: rows[j].relPath != p
  {
    if rows != [] {
      var m := |rows| - 1;
      IndexHoldsLast(rows[..m], p);
      assert rows == rows[..m] + [rows[m]];
      if p in IndexOf(rows[..m]) && rows[m].relPath != p {
        var i :| 0 <= i < m && rows[..m][i].relPath == p && IndexOf(rows[..m])[p] == rows[..m][i]
                 && forall j | i < j < m :: rows[..m][j].relPath != p;
        assert rows[i].relPath == p && IndexOf(rows)[p] == rows[i];
        forall j | i < j < |rows| ensures rows[j].relPath != p {
          assert j < m ==> rows[..m][j] == rows[j];
        }
      }
    }
  }

  lemma {:induction false} NeedsSendExactly(rows: seq<Row>, r: FileRecord)
    ensures NeedsSend(r, IndexOf(rows), false) <==> !UpToDate(rows, r)
  {
    hide IndexOf;
    IndexHoldsLast(rows, r.relPath);
    if r.relPath in IndexOf(rows) {
      var i :| 0 <= i < |rows| && rows[i].relPath == r.relPath && IndexOf(rows)[r.relPath] == rows[i]
               && forall j | i < j < |rows| :: rows[j].relPath != r.relPath;
      forall k | 0 <= k < |rows| && rows[k].relPath == r.relPath && forall j | k < j < |rows| :: rows[j].relPath != r.relPath
        ensures k == i
      {
      }
    }
  }

  /** What a run over these ledger rows sends, in order. */
  ghost function ToSend(inp: Input, records: seq<FileRecord>, rows: seq<Row>): seq<FileRecord> {
    if inp.force || inp.files != [] then records else Filter((r: FileRecord) => !UpToDate(rows, r), records)
  }

  lemma {:induction false} SelectedIsToSend(inp: Input, records: seq<FileRecord>, rows: seq<Row>)
    ensures Selected(records, IndexOf(rows), ForceFlag(inp)) == ToSend(inp, records, rows)
  {
    hide UpToDate, IndexOf, Filter;
    NoneToSend(rows);
    if records != [] {
      var m := |records| - 1;
      SelectedIsToSend(inp, records[..m], rows);
      NeedsSendExactly(rows, records[m]);
      assert records == records[..m] + [records[m]];
      FilterSnoc((r: FileRecord) => !UpToDate(rows, r), records[..m], records[m]);
    }
  }

  lemma NoneToSend(rows: seq<Row>)
    ensures Filter((r: FileRecord) => !UpToDate(rows, r), []) == []
  {
  }

  /** Explicit paths resolve to a work list exactly when each of them does, in order. */
  lemma {:induction false} WorkListOfFiles(files: seq<Option<FileRecord>>, records: seq<FileRecord>)
    ensures Resolved(files) == Some(records) <==> |files| == |records| && forall i | 0 <= i < |files| :: files[i] == Some(records[i])
  {
    if files == [] {
    } else if records == [] {
      assert Resolved(files).Some? ==> Resolved(files).value != [];
    } else {
      var m := |files| - 1;
      WorkListOfFiles(files[..m], records[..|records| - 1]);
      assert records == records[..|records| - 1] + [records[|records| - 1]];
      if Resolved(files) == Some(records) {
        var pre := Resolved(files[..m]).value;
        assert records == pre + [files[m].value];
        assert records[..|records| - 1] == pre;
      }
    }
  }

  lemma {:induction false} EntryAt(inp: Input, chosen: seq<FileRecord>, n: nat, i: nat)
    requires i < n <= |chosen|
    ensures var outcome := inp.upload(i, chosen[i]);
            Entries(inp, chosen, n)[i]
            == Row(chosen[i].relPath, Some(chosen[i].contentHash), outcome.result, inp.describe(outcome))
  {
    if i < n - 1 {
      EntryAt(inp, chosen, n - 1, i);
    }
  }

  /**
    An unforced run sends exactly the records that the ledger's last row for their path does not
    show with their present hash; a forced one sends all. Each gets a row with its path, its hash
    and the outcome of its own upload, in order.
  */
  lemma {:induction false} RunSendsExactly(inp: Input, rows: seq<Row>)
    requires WorkList(inp).Some? && !inp.dryRun && inp.tokenOk
    ensures var sent, added := ToSend(inp, WorkList(inp).value, rows), LockedRun(inp, IndexOf(rows)).rows;
            && |added| == |sent|
            && forall i | 0 <= i < |sent| ::
                 var outcome := inp.upload(i, sent[i]);
                 added[i] == Row(sent[i].relPath, Some(sent[i].contentHash), outcome.result, inp.describe(outcome))
  {
    hide UpToDate, IndexOf;
    var records := WorkList(inp).value;
    SelectedIsToSend(inp, records, rows);
    var sent := ToSend(inp, records, rows);
    forall i | 0 <= i < |sent|
      ensures var outcome := inp.upload(i, sent[i]);
              Entries(inp, sent, |sent|)[i] == Row(sent[i].relPath, Some(sent[i].contentHash), outcome.result, inp.describe(outcome))
    {
      EntryAt(inp, sent, |sent|, i);
    }
  }

  // ----- a second run over the same files

  lemma {:induction false} IndexUntouched(rows: seq<Row>, more: seq<Row>, p: string)
    requires forall i | 0 <= i < |more| :: more[i].relPath != p
    ensures p in IndexOf(rows + more) <==> p in IndexOf(rows)
    ensures p in IndexOf(rows) ==> IndexOf(rows + more)[p] == IndexOf(rows)[p]
  {
    if more == [] {
      assert rows + more == rows;
    } else {
      var pre := more[..|more| - 1];
      IndexUntouched(rows, pre, p);
      assert rows + more == rows + pre + [more[|more| - 1]];
      IndexSnoc(rows + pre, more[|more| - 1]);
    }
  }

  lemma {:induction false} IndexTouched(rows: seq<Row>, more: seq<Row>, i: nat)
    requires i < |more| && more[i].relPath != ""
    requires forall j | i < j < |more| :: more[j].relPath != more[i].relPath
    ensures var p := more[i].relPath; p in IndexOf(rows + more) && IndexOf(rows + more)[p] == more[i]
  {
    hide IndexOf;
    var upTo := rows + more[..i] + [more[i]];
    assert rows + more == upTo + more[i + 1..];
    IndexSnoc(rows + more[..i], more[i]);
    IndexUntouched(upTo, more[i + 1..], more[i].relPath);
  }

  lemma {:induction false} EntriesOf(inp: Input, chosen: seq<FileRecord>, n: nat, i: nat)
    requires i < n <= |chosen|
    ensures Entries(inp, chosen, n)[i].relPath == chosen[i].relPath
    ensures Entries(inp, chosen, n)[i].contentHash == Some(chosen[i].contentHash)
  {
    if i < n - 1 {
      EntriesOf(inp, chosen, n - 1, i);
    }
  }

  lemma {:induction false} SelectedDistinct(rs: seq<FileRecord>, index: Index)
    requires DistinctPaths(rs)
    ensures DistinctPaths(Selected(rs, index, false))
  {
    if rs != [] {
      var pre, r := rs[..|rs| - 1], rs[|rs| - 1];
      var chosen := Selected(pre, index, false);
      SelectedDistinct(pre, index);
      forall i | 0 <= i < |chosen| ensures chosen[i].relPath != r.relPath {
        SelectedMembers(pre, index, false, chosen[i]);
        var k :| 0 <= k < |pre| && pre[k] == chosen[i];
        assert rs[k].relPath != rs[|pre|].relPath;
      }
    }
  }

  lemma {:induction false} NothingSelected(rs: seq<FileRecord>, index: Index)
    ensures Selected(rs, index, false) == [] <==> forall r | r in rs :: !NeedsSend(r, index, false)
  {
    if rs != [] {
      NothingSelected(rs[..|rs| - 1], index);
      assert rs == rs[..|rs| - 1] + [rs[|rs| - 1]];
    }
  }

  /** An unforced scan run over `records` that sends everything it selects. */
  ghost predicate PlainScanRun(inp: Input, records: seq<FileRecord>) {
    inp.files == [] && inp.scan.records == records && !inp.force && !inp.dryRun && inp.tokenOk
  }

  lemma {:induction false} PlainRunRows(inp: Input, records: seq<FileRecord>, index: Index, r: FileRecord)
    requires PlainScanRun(inp, records) && DistinctPaths(records)
    ensures var chosen, rows := Selected(records, index, false), LockedRun(inp, index).rows;
            && rows == Entries(inp, chosen, |chosen|) && |rows| == |chosen| && DistinctPaths(chosen)
            && (forall i | 0 <= i < |rows| :: rows[i].relPath == chosen[i].relPath
                                              && rows[i].contentHash == Some(chosen[i].contentHash))
            && (r in records && !NeedsSend(r, index, false) ==>
                  forall i | 0 <= i < |rows| :: rows[i].relPath != r.relPath)
  {
    var chosen, rows := Selected(records, index, false), LockedRun(inp, index).rows;
    SelectedDistinct(records, index);
    forall i | 0 <= i < |rows|
      ensures rows[i].relPath == chosen[i].relPath && rows[i].contentHash == Some(chosen[i].contentHash)
      ensures r in records && !NeedsSend(r, index, false) ==> rows[i].relPath != r.relPath
    {
      EntriesOf(inp, chosen, |chosen|, i);
      SelectedMembers(records, index, false, chosen[i]);
      SamePathSameRecord(records, r, chosen[i]);
    }
  }

  lemma SamePathSameRecord(records: seq<FileRecord>, q: FileRecord, r: FileRecord)
    requires DistinctPaths(records)
    ensures q in records && r in records && q.relPath == r.relPath ==> q == r
  {
    if q in records && r in records {
      var k :| 0 <= k < |records| && records[k] == q;
      var l :| 0 <= l < |records| && records[l] == r;
      assert q.relPath == r.relPath ==> k == l;
    }
  }

  /** With the rows of a plain run appended to `rows`, no record needs sending any more. */
  lemma {:induction false} SettledAfterRun(inp: Input, records: seq<FileRecord>, rows: seq<Row>, r: FileRecord)
    requires PlainScanRun(inp, records) && DistinctPaths(records) && r in records && r.relPath != ""
    ensures !NeedsSend(r, IndexOf(rows + LockedRun(inp, IndexOf(rows)).rows), false)
  {
    var index := IndexOf(rows);
    var chosen, added := Selected(records, index, false), LockedRun(inp, index).rows;
    PlainRunRows(inp, records, index, r);
    SelectedMembers(records, index, false, r);
    if NeedsSend(r, index, false) {
      var i :| 0 <= i < |chosen| && chosen[i] == r;
      IndexTouched(rows, added, i);
    } else {
      IndexUntouched(rows, added, r.relPath);
    }
  }

  lemma {:induction false} ContentSnoc(c: Codec, events: seq<Event>, e: Event)
    ensures Content(c, events + [e]) == Content(c, events) + EventText(c, e)
  {
    assert (events + [e])[..|events|] == events;
  }

  lemma {:induction false} LinesAreContent(c: Codec, events: seq<Event>, rows: seq<Row>)
    ensures Content(c, events + WrittenAll(rows)) == Content(c, events) + Lines(c, rows)
  {
    hide Content, Lines;
    if rows == [] {
      assert events + WrittenAll(rows) == events;
      NoLines(c, Content(c, events));
    } else {
      var pre, row := rows[..|rows| - 1], rows[|rows| - 1];
      LinesAreContent(c, events, pre);
      ContentSnoc(c, events + WrittenAll(pre), Written(row));
      LinesSnoc(c, pre, row);
      assert events + WrittenAll(rows) == events + WrittenAll(pre) + [Written(row)];
      assert rows == pre + [row];
    }
  }

  /** With the first appended row lost to a torn tail, the first record sent decides. */
  lemma {:induction false} SettledDespiteTornTail(inp: Input, records: seq<FileRecord>, rows: seq<Row>, index: Index, r: FileRecord)
    requires PlainScanRun(inp, records) && DistinctPaths(records) && r in records && r.relPath != ""
    requires var chosen := Selected(records, index, false); chosen != [] && chosen[0] in records
    requires index == IndexOf(rows) || exists w :: index == IndexOf(rows + [w])
    ensures var first, added := Selected(records, index, false)[0], LockedRun(inp, index).rows;
            && |added| > 0
            && (r == first || !NeedsSend(first, IndexOf(rows), false) ==>
                  (NeedsSend(r, IndexOf(rows + added[1..]), false) <==> r == first && NeedsSend(r, IndexOf(rows), false)))
  {
    hide IndexOf, Selected;
    var chosen, added := Selected(records, index, false), LockedRun(inp, index).rows;
    var first := chosen[0];
    PlainRunRows(inp, records, index, r);
    SelectedMembers(records, index, false, first);
    SelectedMembers(records, index, false, r);
    if r == first {
      IndexUntouched(rows, added[1..], r.relPath);
    } else if !NeedsSend(first, IndexOf(rows), false) {
      var w :| index == IndexOf(rows + [w]);
      IndexSnoc(rows, w);
      assert w.relPath == first.relPath;
      DifferentRecords(records, r, first);
      if NeedsSend(r, index, false) {
        var i :| 0 <= i < |chosen| && chosen[i] == r;
        IndexTouched(rows, added[1..], i - 1);
      } else {
        IndexUntouched(rows, added[1..], r.relPath);
      }
    }
  }

  lemma DifferentRecords(records: seq<FileRecord>, r: FileRecord, q: FileRecord)
    requires DistinctPaths(records) && r in records && q in records && r != q
    ensures r.relPath != q.relPath
  {
    var k :| 0 <= k < |records| && records[k] == r;
    var l :| 0 <= l < |records| && records[l] == q;
  }

  /**
    A second plain run over the same files sends nothing, whatever the first run's uploads came to,
    exactly when the first run sent nothing, or the ledger it opened ended in a newline, or the
    complete lines of that ledger already held the first record it sent. Otherwise the row of that
    record was glued to the unterminated tail and lost.
  */
  lemma {:induction false} SecondRunIsQuiet(c: Codec, events: seq<Event>, records: seq<FileRecord>, first: Input)
    requires Lawful(c) && PlainScanRun(first, records) && DistinctPaths(records)
    requires forall r | r in records :: r.relPath != ""
    ensures var content := Content(c, events);
            var index := LoadIndex(c, content);
            var chosen := Selected(records, index, false);
            var after := LoadIndex(c, content + Lines(c, LockedRun(first, index).rows));
            Selected(records, after, false) == []
            <==> chosen == [] || Terminated(content) || !NeedsSend(chosen[0], IndexOfLines(c, content), false)
  {
    hide LoadIndex, Content, IndexOf, Recover, Selected, IndexOfLines;
    var content := Content(c, events);
    var index := LoadIndex(c, content);
    var chosen, added := Selected(records, index, false), LockedRun(first, index).rows;
    LinesAreContent(c, events, added);
    LoadSeesSurvivors(c, events);
    LoadSeesSurvivors(c, events + WrittenAll(added));
    RecoverWritten(c, events, added);
    TailIsUnterminated(c, events);
    var s := Recover(c, events);
    var after := LoadIndex(c, content + Lines(c, added));
    NothingSelected(records, after);
    NothingSelected(records, index);
    forall r | r in records ensures |added| == |chosen| {
      PlainRunRows(first, records, index, r);
    }
    if s.tail == [] {
      forall r | r in records ensures !NeedsSend(r, after, false) {
        SettledAfterRun(first, records, s.rows, r);
        assert added == [] ==> s.rows + added == s.rows;
      }
    } else if chosen != [] {
      SelectedMembers(records, index, false, chosen[0]);
      assert after == IndexOf(s.rows + added[1..]);
      SettledDespiteTornTail(first, records, s.rows, index, chosen[0]);
      forall r | r in records && !NeedsSend(chosen[0], IndexOf(s.rows), false) ensures !NeedsSend(r, after, false) {
        SettledDespiteTornTail(first, records, s.rows, index, r);
      }
    }
  }

  /** One character of a torn row left behind: the next run's only row is lost, and the run after it sends again. */
  lemma TornTailMakesSecondRunSend()
    ensures exists events, records: seq<FileRecord>, first: Input ::
              && PlainScanRun(first, records) && DistinctPaths(records) && (forall r | r in records :: r.relPath != "")
              && var c := LedgerCodec.ROWS;
                 var content := Content(c, events);
                 var rows := LockedRun(first, LoadIndex(c, content)).rows;
                 Selected(records, LoadIndex(c, content + Lines(c, rows)), false) != []
  {
    hide LoadIndex, Content, Recover, LockedRun, Lines, IndexOfLines, Selected, Survivors, IndexOf, Terminated, Lawful;
    var c := LedgerCodec.ROWS;
    var row := Row("x", None, Sent, "");
    var r := FileRecord("s/d/a.md", "s", "d", "a", "s/d-a", "h", 1);
    var upload := (i: nat, f: FileRecord) => SendOutcome(Sent, Some(202), None);
    var first := Input(true, true, [], ScanResult([r], []), false, false, true, upload, (o: SendOutcome) => "");
    var events := [Torn(row, 1)];
    LedgerCodec.LawfulCodecExists();
    LedgerCodec.EncodingShape(row);
    TornFirstRow(c, row);
    LoadSeesSurvivors(c, events);
    TailIsUnterminated(c, events);
    NewRecordSelected(r);
    SecondRunIsQuiet(c, events, [r], first);
  }

  lemma {:induction false} NewRecordSelected(r: FileRecord)
    ensures Selected([r], map[], false) == [r] && NeedsSend(r, map[], false)
  {
    assert [r][..0] == [];
  }

  lemma {:induction false} TornFirstRow(c: Codec, row: Row)
    requires |c.encode(row)| > 1
    ensures Recover(c, [Torn(row, 1)]) == Recovery([], [Fragment(row, 1)])
    ensures Survivors(c, [Torn(row, 1)]) == [] && IndexOf([]) == map[]
  {
    assert [Torn(row, 1)][..0] == [];
    assert [] + [Fragment(row, 1)] == [Fragment(row, 1)];
  }

  lemma {:induction false} SelectedOne(rs: seq<FileRecord>, index: Index, k: nat)
    requires k < |rs| && NeedsSend(rs[k], index, false)
    requires forall i | 0 <= i < |rs| && i != k :: !NeedsSend(rs[i], index, false)
    ensures Selected(rs, index, false) == [rs[k]]
  {
    var m := |rs| - 1;
    if k < m {
      SelectedOne(rs[..m], index, k);
      assert Selected(rs, index, false) == [rs[k]] + [];
    } else {
      forall r | r in rs[..m] ensures !NeedsSend(r, index, false) {
        var i :| 0 <= i < m && rs[..m][i] == r;
        assert r == rs[i];
      }
      NothingSelected(rs[..m], index);
      assert rs[..m] + [rs[m]] == rs;
    }
  }

  /** After a plain run on a terminated ledger the index holds each record with its hash. */
  lemma {:induction false} IndexAfterRun(c: Codec, events: seq<Event>, records: seq<FileRecord>, first: Input, r: FileRecord)
    requires Lawful(c) && PlainScanRun(first, records) && DistinctPaths(records) && r in records && r.relPath != ""
    requires Terminated(Content(c, events))
    ensures var content := Content(c, events);
            var after := LoadIndex(c, content + Lines(c, LockedRun(first, LoadIndex(c, content)).rows));
            r.relPath in after && after[r.relPath].contentHash == Some(r.contentHash)
  {
    hide LoadIndex, Content, IndexOf, Recover, Selected, IndexOfLines, LockedRun;
    var content := Content(c, events);
    var added := LockedRun(first, LoadIndex(c, content)).rows;
    LinesAreContent(c, events, added);
    LoadSeesSurvivors(c, events);
    LoadSeesSurvivors(c, events + WrittenAll(added));
    RecoverWritten(c, events, added);
    TailIsUnterminated(c, events);
    var s := Recover(c, events);
    SettledAfterRun(first, records, s.rows, r);
    assert added == [] ==> s.rows + added == s.rows;
  }

  /** A file edited after a plain run is sent by the next one, under its new hash, and nothing else is. */
  lemma {:induction false} EditedFileIsSentAlone(c: Codec, events: seq<Event>, records: seq<FileRecord>, first: Input,
                                                 second: Input, k: nat, hash: string)
    requires Lawful(c) && PlainScanRun(first, records) && DistinctPaths(records) && Terminated(Content(c, events))
    requires forall r | r in records :: r.relPath != ""
    requires k < |records| && hash != records[k].contentHash
    requires PlainScanRun(second, records[k := records[k].(contentHash := hash)])
    ensures var content := Content(c, events);
            var after := LoadIndex(c, content + Lines(c, LockedRun(first, LoadIndex(c, content)).rows));
            var rows := LockedRun(second, after).rows;
            |rows| == 1 && rows[0].relPath == records[k].relPath && rows[0].contentHash == Some(hash)
  {
    hide LoadIndex, Content, Selected;
    var content := Content(c, events);
    var after := LoadIndex(c, content + Lines(c, LockedRun(first, LoadIndex(c, content)).rows));
    var edited := records[k := records[k].(contentHash := hash)];
    forall i | 0 <= i < |records| ensures NeedsSend(edited[i], after, false) <==> i == k {
      IndexAfterRun(c, events, records, first, records[i]);
    }
    SelectedOne(edited, after, k);
    EntryAt(second, [edited[k]], 1, 0);
  }

  // ----- many runs at once

  /**
    However ingest runs interleave, crash and have stale locks cleared, each run that read the
    ledger appended, in order and in one stretch, a prefix of the rows it would have appended
    alone on the surviving rows of everything before; only a killed run's last row can be cut.
  */
  lemma ConcurrentRunsActAlone(c: Codec, inputs: Pid -> Input, plan: Plan, states: seq<State>, moves: seq<Move>, p: Pid)
    requires Lawful(c) && forall q: Pid, index :: plan(q, index) == LockedRun(inputs(q), index).rows
    requires Execution(c, plan, states, moves)
    requires SpanOf(ProcOf(states[|moves|], p)).Some?
    ensures var s := states[|moves|];
            var span := SpanOf(ProcOf(s, p)).value;
            && span.start + span.sent <= |s.log|
            && var alone := LockedRun(inputs(p), IndexOf(Survivors(c, Events(s.log[..span.start])))).rows;
            span.sent <= |alone|
            && (forall i | 0 <= i < span.sent ::
                  s.log[span.start + i] == (p, Written(alone[i]))
                  || (ProcOf(s, p).Killed? && i == span.sent - 1 && s.log[span.start + i].0 == p
                      && s.log[span.start + i].1.row == alone[i]))
            && (forall i | 0 <= i < |s.log| && s.log[i].0 == p :: span.start <= i < span.start + span.sent)
  {
    RunReflectsEarlierRuns(c, plan, states, moves, p);
  }
}
