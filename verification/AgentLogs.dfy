/** Merging and following a job's two event sources (commands/agent-logs.ts). */
module AgentLogs {
  import opened Wrappers
  import opened Sorting
  import opened Rearrangements
  import StringOrder

  /** One printed line and its timestamp, an ISO-8601 string. */
  datatype Event = Event(ts: string, line: string)

  /** What a poll can read: the audit file in append order, the messages in index order. */
  datatype History = History(audits: seq<Event>, messages: seq<Event>) {
    ghost function Events(): multiset<Event> {
      multiset(audits) + multiset(messages)
    }

    ghost predicate Stamped() {
      forall e | e in audits || e in messages :: e.ts != ""
    }
  }

  /** What a poll finds, and the job's status should it ask; a job without a row has none. */
  datatype Poll = Poll(history: History, status: Option<string>)

  /** One turn of the follow loop: whether it was aborted before, its poll, and the status after it. */
  datatype Round = Round(aborted: bool, poll: Poll, after: Option<string>)

  predicate Terminal(status: Option<string>) {
    status.Some? && status.value in ["completed", "failed", "dead", "cancelled"]
  }

  /** What is written: event lines, the rendered transcript, and the line that ends a followed run. */
  datatype Shown = Logged(event: Event) | Transcript(messages: seq<Event>) | Closed(status: string)

  const ByTs := (a: Event, b: Event) => StringOrder.Leq(a.ts, b.ts)

  /** Later than the cursor; the empty cursor is the unset one. */
  function After(cursor: string): Event -> bool {
    (e: Event) => cursor == "" || !StringOrder.Leq(e.ts, cursor)
  }

  /** The reader's own, weaker filter. */
  function NotBefore(cursor: string): Event -> bool {
    (e: Event) => cursor == "" || StringOrder.Leq(cursor, e.ts)
  }

  function ReadAudits(audits: seq<Event>, cursor: string): seq<Event> {
    Sort(ByTs, Filter(NotBefore(cursor), audits))
  }

  function Dump(h: History, cursor: string): seq<Event> {
    Sort(ByTs, Filter(After(cursor), ReadAudits(h.audits, cursor)) + Filter(After(cursor), h.messages))
  }

  /** The cursor after printing `items`. */
  function Advance(cursor: string, items: seq<Event>): string {
    if items == [] then cursor
    else
      var c := Advance(cursor, items[..|items| - 1]);
      var ts := items[|items| - 1].ts;
      if c == "" || !StringOrder.Leq(ts, c) then ts else c
  }

  const AsLogged := (e: Event) => Logged(e)

  /** The transcript follows the first events of a finished job, while no cursor was set. */
  function Tail(p: Poll, cursor: string): seq<Shown> {
    if p.history.messages != [] && cursor == "" && Terminal(p.status) then [Transcript(p.history.messages)] else []
  }

  function Render(p: Poll, cursor: string): seq<Shown> {
    Map(AsLogged, Dump(p.history, cursor)) + Tail(p, cursor)
  }

  /** One timeline of both sources, past the cursor. */
  method Merge(h: History, since: string) returns (merged: seq<Event>)
    ensures merged == Dump(h, since)
  {
    hide Filter, Sort;
    var audit := ReadAudits(h.audits, since);
    merged := [];
    NothingFiltered(After(since));
    for i := 0 to |audit|
      invariant merged == Filter(After(since), audit[..i])
    {
      FilterSnoc(After(since), audit[..i], audit[i]);
      assert audit[..i + 1] == audit[..i] + [audit[i]];
      if since != "" && StringOrder.Leq(audit[i].ts, since) {
        continue;
      }
      merged := merged + [audit[i]];
    }
    assert audit[..|audit|] == audit;
    ghost var audits := merged;
    for i := 0 to |h.messages|
      invariant merged == audits + Filter(After(since), h.messages[..i])
    {
      FilterSnoc(After(since), h.messages[..i], h.messages[i]);
      assert h.messages[..i + 1] == h.messages[..i] + [h.messages[i]];
      if since != "" && StringOrder.Leq(h.messages[i].ts, since) {
        continue;
      }
      merged := merged + [h.messages[i]];
    }
    assert h.messages[..|h.messages|] == h.messages;
    merged := Sort(ByTs, merged);
  }

  method DumpSince(p: Poll, since: string) returns (out: seq<Shown>, maxTs: string)
    ensures out == Render(p, since) && maxTs == Advance(since, Dump(p.history, since))
  {
    hide Dump, Advance;
    var merged := Merge(p.history, since);
    out, maxTs := [], since;
    NothingPrinted(since);
    for i := 0 to |merged|
      invariant out == Map(AsLogged, merged[..i]) && maxTs == Advance(since, merged[..i])
    {
      var item := merged[i];
      AdvanceSnoc(since, merged[..i], item);
      assert merged[..i + 1] == merged[..i] + [item];
      out := out + [Logged(item)];
      if maxTs == "" || !StringOrder.Leq(item.ts, maxTs) {
        maxTs := item.ts;
      }
    }
    assert merged[..|merged|] == merged;
    if |p.history.messages| > 0 && since == "" && Terminal(p.status) {
      out := out + [Transcript(p.history.messages)];
    }
  }

  lemma {:induction false} NothingPrinted(cursor: string)
    ensures Advance(cursor, []) == cursor
  {
  }

  lemma NothingFiltered<T>(p: T -> bool)
    ensures Filter(p, []) == []
  {
  }

  lemma {:induction false} AdvanceSnoc(cursor: string, items: seq<Event>, item: Event)
    ensures var c := Advance(cursor, items);
            Advance(cursor, items + [item]) == if c == "" || !StringOrder.Leq(item.ts, c) then item.ts else c
  {
    assert (items + [item])[..|items|] == items;
  }

  /** All that is printed by polling the histories in turn, and the final cursor. */
  function Follow(polls: seq<History>, since: string): (seq<Event>, string) {
    if polls == [] then ([], since)
    else
      var (out, cursor) := Follow(polls[..|polls| - 1], since);
      var more := Dump(polls[|polls| - 1], cursor);
      (out + more, Advance(cursor, more))
  }

  /** The same with everything else that is written. */
  function Console(polls: seq<Poll>, since: string): (seq<Shown>, string) {
    if polls == [] then ([], since)
    else
      var (shown, cursor) := Console(polls[..|polls| - 1], since);
      var p := polls[|polls| - 1];
      (shown + Render(p, cursor), Advance(cursor, Dump(p.history, cursor)))
  }

  /** The polls a run of the follow loop makes. */
  function Polled(rounds: seq<Round>): seq<Poll> {
    if rounds == [] || rounds[0].aborted then []
    else [rounds[0].poll] + if Terminal(rounds[0].after) then [] else Polled(rounds[1..])
  }

  /** Its last line, if the job ends before the run is aborted. */
  function Closing(rounds: seq<Round>): seq<Shown> {
    if rounds == [] || rounds[0].aborted then []
    else if Terminal(rounds[0].after) then [Closed(rounds[0].after.value)]
    else Closing(rounds[1..])
  }

  method RunAgentLogs(now: Poll, rounds: seq<Round>, since: string, follow: bool) returns (out: seq<Shown>)
    ensures out == if follow then Console([now] + Polled(rounds), since).0 + Closing(rounds) else Console([now], since).0
  {
    hide Console, Polled, Closing, Render;
    ghost var polls := [now];
    var lastTs;
    out, lastTs := DumpSince(now, since);
    ConsoleSnoc([], now, since);
    assert [] + [now] == [now] && [] + out == out;
    if !follow {
      return;
    }
    var i := 0;
    assert rounds[0..] == rounds;
    while i < |rounds| && !rounds[i].aborted
      invariant 0 <= i <= |rounds|
      invariant Console(polls, since) == (out, lastTs)
      invariant polls + Polled(rounds[i..]) == [now] + Polled(rounds) && Closing(rounds[i..]) == Closing(rounds)
    {
      var more, cursor := DumpSince(rounds[i].poll, lastTs);
      ConsoleSnoc(polls, rounds[i].poll, since);
      RoundStep(rounds, i);
      out, lastTs := out + more, cursor;
      if Terminal(rounds[i].after) {
        assert polls + [rounds[i].poll] == polls + Polled(rounds[i..]);
        return out + [Closed(rounds[i].after.value)];
      }
      assert polls + ([rounds[i].poll] + Polled(rounds[i + 1..])) == (polls + [rounds[i].poll]) + Polled(rounds[i + 1..]);
      polls := polls + [rounds[i].poll];
      i := i + 1;
    }
    RoundsEnd(rounds, i);
    assert polls + [] == polls && out + [] == out;
  }

  lemma {:induction false} ConsoleSnoc(polls: seq<Poll>, p: Poll, since: string)
    ensures Console([], since) == ([], since)
    ensures var (shown, cursor) := Console(polls, since);
            Console(polls + [p], since) == (shown + Render(p, cursor), Advance(cursor, Dump(p.history, cursor)))
  {
    assert (polls + [p])[..|polls|] == polls;
  }

  lemma RoundStep(rounds: seq<Round>, i: nat)
    requires i < |rounds| && !rounds[i].aborted
    ensures var ends := Terminal(rounds[i].after);
            && Polled(rounds[i..]) == [rounds[i].poll] + (if ends then [] else Polled(rounds[i + 1..]))
            && Closing(rounds[i..]) == if ends then [Closed(rounds[i].after.value)] else Closing(rounds[i + 1..])
  {
    assert rounds[i..][1..] == rounds[i + 1..];
  }

  lemma RoundsEnd(rounds: seq<Round>, i: nat)
    requires i <= |rounds| && (i < |rounds| ==> rounds[i].aborted)
    ensures Polled(rounds[i..]) == [] && Closing(rounds[i..]) == []
  {
  }

  lemma {:induction false} FollowSnoc(polls: seq<History>, h: History, since: string)
    ensures Follow([], since) == ([], since)
    ensures var (out, cursor) := Follow(polls, since);
            Follow(polls + [h], since) == (out + Dump(h, cursor), Advance(cursor, Dump(h, cursor)))
  {
    assert (polls + [h])[..|polls|] == polls;
  }

  // ----- stable sorting and filtering

  lemma ByTsIsPreorder()
    ensures TotalPreorder(ByTs)
  {
    StringOrder.LeqIsTotalOrder();
  }

  lemma {:induction false} FilterCons<T>(p: T -> bool, x: T, xs: seq<T>)
    ensures Filter(p, [x] + xs) == if p(x) then [x] + Filter(p, xs) else Filter(p, xs)
  {
    assert ([x] + xs)[1..] == xs;
  }

  lemma {:induction false} SortCons<T>(le: (T, T) -> bool, x: T, xs: seq<T>)
    ensures Sort(le, [x] + xs) == Insert(le, x, Sort(le, xs))
  {
    assert ([x] + xs)[1..] == xs;
  }

  lemma {:induction false} InsertCons<T>(le: (T, T) -> bool, x: T, y: T, ys: seq<T>)
    ensures Insert(le, x, [y] + ys) == if le(x, y) then [x] + ([y] + ys) else [y] + Insert(le, x, ys)
  {
    assert ([y] + ys)[1..] == ys;
  }

  lemma NothingToSort<T>(le: (T, T) -> bool, p: T -> bool)
    ensures Filter(p, []) == [] && Sort(le, []) == [] && forall x :: Insert(le, x, []) == [x]
  {
  }

  lemma {:induction false} FilterInsert<T(!new)>(le: (T, T) -> bool, p: T -> bool, x: T, xs: seq<T>)
    requires TotalPreorder(le) && Sorted(le, xs)
    ensures Filter(p, Insert(le, x, xs)) == if p(x) then Insert(le, x, Filter(p, xs)) else Filter(p, xs)
  {
    hide Filter, Insert;
    NothingToSort(le, p);
    if xs == [] {
      FilterCons(p, x, []);
      assert [x] + [] == [x];
    } else {
      var y, ys := xs[0], xs[1..];
      assert xs == [y] + ys;
      InsertCons(le, x, y, ys);
      FilterCons(p, y, ys);
      if le(x, y) {
        FilterCons(p, x, xs);
        InsertFirst(le, p, x, xs);
      } else {
        FilterInsert(le, p, x, ys);
        FilterCons(p, y, Insert(le, x, ys));
        InsertCons(le, x, y, Filter(p, ys));
      }
    }
  }

  lemma {:induction false} InsertFirst<T(!new)>(le: (T, T) -> bool, p: T -> bool, x: T, xs: seq<T>)
    requires TotalPreorder(le) && Sorted(le, xs) && xs != [] && le(x, xs[0])
    ensures Insert(le, x, Filter(p, xs)) == [x] + Filter(p, xs)
  {
    hide Filter;
    if Filter(p, xs) != [] {
      FilterMembers(p, xs, Filter(p, xs)[0]);
    }
  }

  /** A stable sort commutes with filtering. */
  lemma {:induction false} FilterSort<T(!new)>(le: (T, T) -> bool, p: T -> bool, xs: seq<T>)
    requires TotalPreorder(le)
    ensures Filter(p, Sort(le, xs)) == Sort(le, Filter(p, xs))
  {
    hide Filter, Sort, Insert;
    NothingToSort(le, p);
    if xs != [] {
      var x, rest := xs[0], xs[1..];
      assert xs == [x] + rest;
      FilterSort(le, p, rest);
      SortCons(le, x, rest);
      SortSorted(le, rest);
      FilterInsert(le, p, x, Sort(le, rest));
      FilterCons(p, x, rest);
      SortCons(le, x, Filter(p, rest));
    }
  }

  lemma {:induction false} FilterFilter<T>(p: T -> bool, q: T -> bool, xs: seq<T>)
    requires forall x | q(x) :: p(x)
    ensures Filter(q, Filter(p, xs)) == Filter(q, xs)
  {
    hide Filter;
    NothingFiltered(p);
    NothingFiltered(q);
    if xs != [] {
      var x, rest := xs[0], xs[1..];
      assert xs == [x] + rest;
      FilterFilter(p, q, rest);
      FilterCons(p, x, rest);
      FilterCons(q, x, rest);
      FilterCons(q, x, Filter(p, rest));
    }
  }

  lemma {:induction false} FilterNone<T>(p: T -> bool, xs: seq<T>)
    requires forall x | x in xs :: !p(x)
    ensures Filter(p, xs) == []
  {
    if xs != [] {
      assert xs[0] in xs && forall x | x in xs[1..] :: x in xs;
      FilterNone(p, xs[1..]);
    }
  }

  lemma ConsConcat<T>(x: T, xs: seq<T>, ys: seq<T>)
    ensures [x] + (xs + ys) == ([x] + xs) + ys
  {
  }

  lemma {:induction false} InsertBefore<T(!new)>(le: (T, T) -> bool, x: T, low: seq<T>, high: seq<T>)
    requires forall y | y in high :: le(x, y)
    ensures Insert(le, x, low + high) == Insert(le, x, low) + high
  {
    hide Insert;
    if low == [] {
      InsertFront(le, x, high);
      assert low + high == high;
    } else {
      var y, ys := low[0], low[1..];
      assert low == [y] + ys;
      InsertBefore(le, x, ys, high);
      InsertCons(le, x, y, ys);
      InsertCons(le, x, y, ys + high);
      ConsConcat(y, ys, high);
      ConsConcat(x, low, high);
      ConsConcat(y, Insert(le, x, ys), high);
    }
  }

  lemma {:induction false} InsertFront<T(!new)>(le: (T, T) -> bool, x: T, xs: seq<T>)
    ensures Insert(le, x, []) == [x]
    ensures (forall y | y in xs :: le(x, y)) ==> Insert(le, x, xs) == [x] + xs
  {
    assert xs != [] ==> xs[0] in xs;
  }

  lemma {:induction false} InsertBehind<T(!new)>(le: (T, T) -> bool, x: T, low: seq<T>, high: seq<T>)
    requires forall y | y in low :: !le(x, y)
    ensures Insert(le, x, low + high) == low + Insert(le, x, high)
  {
    hide Insert;
    var after := Insert(le, x, high);
    if low == [] {
      assert low + high == high && low + after == after;
    } else {
      var y, ys := low[0], low[1..];
      assert y in low && forall z | z in ys :: z in low;
      InsertBehind(le, x, ys, high);
      InsertCons(le, x, y, ys + high);
      assert low == [y] + ys;
      assert low + high == [y] + (ys + high) && low + after == [y] + (ys + after);
    }
  }

  /** Sorting puts a lower class first and sorts each class on its own. */
  lemma {:induction false} SortSplit<T(!new)>(le: (T, T) -> bool, p: T -> bool, q: T -> bool, xs: seq<T>)
    requires forall x | x in xs :: p(x) != q(x)
    requires forall x, y | x in xs && y in xs && p(x) && q(y) :: le(x, y) && !le(y, x)
    ensures Sort(le, xs) == Sort(le, Filter(p, xs)) + Sort(le, Filter(q, xs))
  {
    hide Filter, Sort, Insert;
    NothingToSort(le, p);
    NothingToSort(le, q);
    if xs != [] {
      var x, rest := xs[0], xs[1..];
      assert xs == [x] + rest;
      assert x in xs && forall y | y in rest :: y in xs;
      SortSplit(le, p, q, rest);
      var low, high := Sort(le, Filter(p, rest)), Sort(le, Filter(q, rest));
      forall y ensures y in low <==> y in rest && p(y) {
        SortMembers(le, Filter(p, rest), y);
        FilterMembers(p, rest, y);
      }
      forall y ensures y in high <==> y in rest && q(y) {
        SortMembers(le, Filter(q, rest), y);
        FilterMembers(q, rest, y);
      }
      if p(x) {
        InsertBefore(le, x, low, high);
      } else {
        InsertBehind(le, x, low, high);
      }
      SortCons(le, x, rest);
      FilterCons(p, x, rest);
      FilterCons(q, x, rest);
      SortCons(le, x, Filter(p, rest));
      SortCons(le, x, Filter(q, rest));
    }
  }

  lemma {:induction false} FilterEvery<T>(p: T -> bool, xs: seq<T>)
    requires forall x | x in xs :: p(x)
    ensures Filter(p, xs) == xs
  {
    if xs != [] {
      assert xs[0] in xs && forall x | x in xs[1..] :: x in xs;
      FilterEvery(p, xs[1..]);
    }
  }

  // ----- one poll

  /** A poll prints the events later than the cursor: audits before messages where times are equal. */
  lemma DumpIsSortedHistory(h: History, cursor: string)
    ensures Dump(h, cursor)
         == Sort(ByTs, Sort(ByTs, Filter(After(cursor), h.audits)) + Filter(After(cursor), h.messages))
  {
    hide Sort, Filter;
    ByTsIsPreorder();
    StringOrder.LeqIsTotalOrder();
    FilterSort(ByTs, After(cursor), Filter(NotBefore(cursor), h.audits));
    FilterFilter(NotBefore(cursor), After(cursor), h.audits);
  }

  lemma DumpMembers(h: History, cursor: string, e: Event)
    ensures Sorted(ByTs, Dump(h, cursor))
    ensures multiset(Dump(h, cursor))[e] == if After(cursor)(e) then h.Events()[e] else 0
    ensures e in Dump(h, cursor) <==> After(cursor)(e) && (e in h.audits || e in h.messages)
  {
    hide Sort, Filter;
    DumpIsSortedHistory(h, cursor);
    ByTsIsPreorder();
    var audits, messages := Filter(After(cursor), h.audits), Filter(After(cursor), h.messages);
    SortMultiset(ByTs, audits);
    SortMultiset(ByTs, Sort(ByTs, audits) + messages);
    SortSorted(ByTs, Sort(ByTs, audits) + messages);
    FilterCount(After(cursor), h.audits, e);
    FilterCount(After(cursor), h.messages, e);
    assert e in Dump(h, cursor) <==> multiset(Dump(h, cursor))[e] > 0;
    assert e in h.audits <==> multiset(h.audits)[e] > 0;
    assert e in h.messages <==> multiset(h.messages)[e] > 0;
  }

  lemma {:induction false} FilterCount<T>(p: T -> bool, xs: seq<T>, x: T)
    ensures multiset(Filter(p, xs))[x] == if p(x) then multiset(xs)[x] else 0
  {
    if xs != [] {
      FilterCount(p, xs[1..], x);
      assert xs == [xs[0]] + xs[1..];
    }
  }

  /** The cursor never goes back and ends at or after every printed event. */
  lemma {:induction false} AdvanceBounds(cursor: string, items: seq<Event>)
    requires forall e | e in items :: e.ts != ""
    ensures StringOrder.Leq(cursor, Advance(cursor, items))
    ensures forall e | e in items :: StringOrder.Leq(e.ts, Advance(cursor, items))
    ensures Advance(cursor, items) == cursor || exists e :: e in items && e.ts == Advance(cursor, items)
  {
    hide StringOrder.Leq;
    StringOrder.Total(cursor, cursor);
    if items != [] {
      var m := |items| - 1;
      var before, ts := Advance(cursor, items[..m]), items[m].ts;
      AdvanceBounds(cursor, items[..m]);
      assert items == items[..m] + [items[m]];
      var next := Advance(cursor, items);
      NextCursor(before, ts);
      StringOrder.Transitive(cursor, before, next);
      forall e | e in items[..m] ensures StringOrder.Leq(e.ts, next) {
        StringOrder.Transitive(e.ts, before, next);
      }
    }
  }

  lemma NextCursor(cursor: string, ts: string)
    ensures var next := if cursor == "" || !StringOrder.Leq(ts, cursor) then ts else cursor;
            StringOrder.Leq(cursor, next) && StringOrder.Leq(ts, next)
  {
    StringOrder.Total(ts, cursor);
    StringOrder.Total(ts, ts);
    StringOrder.Total(cursor, cursor);
  }

  // ----- whole runs

  ghost predicate AllStamped(polls: seq<History>) {
    forall i | 0 <= i < |polls| :: polls[i].Stamped()
  }

  /** The cursor before poll `i`. */
  function CursorAt(polls: seq<History>, since: string, i: nat): string
    requires i <= |polls|
  {
    Follow(polls[..i], since).1
  }

  /** The state of a run: `out` printed so far, the cursor at `cursor`. */
  ghost predicate Chronological(out: seq<Event>, since: string, cursor: string) {
    && Sorted(ByTs, out) && StringOrder.Leq(since, cursor)
    && forall e | e in out :: StringOrder.Leq(e.ts, cursor) && After(since)(e) && e.ts != ""
  }

  /** Whatever the polls return, the whole output is in time order, later than `since` and not past the cursor. */
  lemma {:induction false} OutputIsChronological(polls: seq<History>, since: string)
    requires AllStamped(polls)
    ensures Chronological(Follow(polls, since).0, since, Follow(polls, since).1)
  {
    hide Dump, Advance, Follow;
    if polls == [] {
      StringOrder.LeqIsTotalOrder();
      FollowSnoc([], History([], []), since);
    } else {
      var m := |polls| - 1;
      OutputIsChronological(polls[..m], since);
      assert polls == polls[..m] + [polls[m]];
      FollowSnoc(polls[..m], polls[m], since);
      var (out, cursor) := Follow(polls[..m], since);
      PollKeepsOrder(out, polls[m], since, cursor);
    }
  }

  lemma {:induction false} PollKeepsOrder(out: seq<Event>, h: History, since: string, cursor: string)
    requires h.Stamped() && Chronological(out, since, cursor)
    ensures Chronological(out + Dump(h, cursor), since, Advance(cursor, Dump(h, cursor)))
  {
    hide Dump, Advance;
    StringOrder.LeqIsTotalOrder();
    var more := Dump(h, cursor);
    DumpMembers(h, cursor, Event("", ""));
    forall e | e in more ensures After(cursor)(e) && e.ts != "" {
      DumpMembers(h, cursor, e);
    }
    AdvanceBounds(cursor, more);
    forall a, b | a in out && b in more ensures ByTs(a, b) {
      assert a.ts != "" && StringOrder.Leq(a.ts, cursor);
      assert cursor != "";
    }
    SortedConcat(ByTs, out, more);
  }

  lemma SortedConcat<T>(le: (T, T) -> bool, xs: seq<T>, ys: seq<T>)
    requires Sorted(le, xs) && Sorted(le, ys) && forall a, b | a in xs && b in ys :: le(a, b)
    ensures Sorted(le, xs + ys)
  {
  }

  /**
    An event first readable at poll `k` is printed then, as often as it is there, if it is later
    than the cursor; otherwise it is never printed.
  */
  lemma {:induction false} PrintedOnceOrNever(polls: seq<History>, since: string, k: nat, e: Event)
    requires AllStamped(polls) && k < |polls| && e.ts != ""
    requires e in polls[k].Events() && forall j | 0 <= j < k :: e !in polls[j].Events()
    ensures multiset(Follow(polls, since).0)[e]
         == if After(CursorAt(polls, since, k))(e) then polls[k].Events()[e] else 0
    ensures StringOrder.Leq(e.ts, Follow(polls, since).1)
    decreases |polls|
  {
    hide Follow, Dump, Advance;
    var m := |polls| - 1;
    var (out, cursor) := Follow(polls[..m], since);
    assert polls == polls[..m] + [polls[m]];
    FollowSnoc(polls[..m], polls[m], since);
    DumpMembers(polls[m], cursor, e);
    var more := Dump(polls[m], cursor);
    forall x | x in more ensures x.ts != "" {
      DumpMembers(polls[m], cursor, x);
    }
    AdvanceBounds(cursor, more);
    StringOrder.LeqIsTotalOrder();
    if k == m {
      NotYetPrinted(polls[..m], since, e);
      assert polls[..k] == polls[..m];
    } else {
      assert polls[..m][..k] == polls[..k];
      PrintedOnceOrNever(polls[..m], since, k, e);
      assert !After(cursor)(e);
    }
  }

  lemma {:induction false} NotYetPrinted(polls: seq<History>, since: string, e: Event)
    requires forall j | 0 <= j < |polls| :: e !in polls[j].Events()
    ensures e !in Follow(polls, since).0
  {
    hide Dump, Advance;
    if polls != [] {
      var m := |polls| - 1;
      NotYetPrinted(polls[..m], since, e);
      DumpMembers(polls[m], Follow(polls[..m], since).1, e);
    }
  }

  ghost predicate Grows(polls: seq<History>) {
    forall i, j | 0 <= i <= j < |polls| :: polls[i].Events() <= polls[j].Events()
  }

  /** On a history that only grows, no event is written twice. */
  lemma {:induction false} NothingIsPrintedTwice(polls: seq<History>, since: string)
    requires AllStamped(polls) && Grows(polls) && polls != []
    ensures multiset(Follow(polls, since).0) <= polls[|polls| - 1].Events()
  {
    hide Follow;
    var m := |polls| - 1;
    var out := Follow(polls, since).0;
    forall e | e in out ensures multiset(out)[e] <= polls[m].Events()[e] {
      if forall j | 0 <= j < |polls| :: e !in polls[j].Events() {
        NotYetPrinted(polls, since, e);
      } else {
        var k := FirstPollWith(polls, e);
        assert e.ts != "" by {
          assert polls[k].Stamped();
        }
        PrintedOnceOrNever(polls, since, k, e);
        assert polls[k].Events() <= polls[m].Events();
      }
    }
  }

  lemma FirstPollWith(polls: seq<History>, e: Event) returns (k: nat)
    requires exists j :: 0 <= j < |polls| && e in polls[j].Events()
    ensures k < |polls| && e in polls[k].Events() && forall j | 0 <= j < k :: e !in polls[j].Events()
  {
    k := 0;
    while e !in polls[k].Events()
      invariant k < |polls| && forall j | 0 <= j < k :: e !in polls[j].Events()
      decreases |polls| - k
    {
      k := k + 1;
    }
  }

  /**
    An event that arrives late with the very time of the cursor is never printed, although the
    reader is said to print events at or after it.
  */
  lemma LateEventIsLost()
    ensures exists polls: seq<History>, e ::
              && AllStamped(polls) && Grows(polls) && polls != []
              && e in polls[|polls| - 1].Events() && e !in Follow(polls, "").0
  {
    hide Follow, StringOrder.Leq;
    var e, late := Event("2026", "e"), Event("2026", "late");
    var before, after := History([e], []), History([e, late], []);
    var polls := [before, after];
    assert after.audits[0] == e && after.audits[1] == late;
    assert e in before.Events() && late !in before.Events() && late in after.Events();
    assert polls[..1] == [before];
    PrintedOnceOrNever([before], "", 0, e);
    EmptyFirst("2026");
    PrintedOnceOrNever(polls, "", 1, late);
    assert !After(CursorAt(polls, "", 1))(late);
    var out := Follow(polls, "").0;
    assert late in out <==> late in multiset(out);
    assert AllStamped(polls) && Grows(polls);
    assert late in polls[|polls| - 1].Events() && late !in Follow(polls, "").0;
  }

  lemma {:induction false} EmptyFirst(s: string)
    ensures s != "" ==> !StringOrder.Leq(s, "")
  {
  }

  // ----- everything that is written

  const HistoryOf := (p: Poll) => p.history

  function EventsIn(shown: seq<Shown>): seq<Event> {
    if shown == [] then []
    else
      EventsIn(shown[..|shown| - 1])
      + if shown[|shown| - 1].Logged? then [shown[|shown| - 1].event] else []
  }

  function Transcripts(shown: seq<Shown>): nat {
    if shown == [] then 0
    else Transcripts(shown[..|shown| - 1]) + if shown[|shown| - 1].Transcript? then 1 else 0
  }

  lemma {:induction false} ShownConcat(xs: seq<Shown>, ys: seq<Shown>)
    ensures EventsIn(xs + ys) == EventsIn(xs) + EventsIn(ys)
    ensures Transcripts(xs + ys) == Transcripts(xs) + Transcripts(ys)
  {
    if ys == [] {
      assert xs + ys == xs;
    } else {
      ShownConcat(xs, ys[..|ys| - 1]);
      assert (xs + ys)[..|xs + ys| - 1] == xs + ys[..|ys| - 1];
    }
  }

  lemma {:induction false} LoggedOnly(es: seq<Event>)
    ensures EventsIn(Map(AsLogged, es)) == es && Transcripts(Map(AsLogged, es)) == 0
  {
    if es != [] {
      var m := |es| - 1;
      LoggedOnly(es[..m]);
      assert Map(AsLogged, es)[..m] == Map(AsLogged, es[..m]);
      assert es == es[..m] + [es[m]];
    }
  }

  lemma {:induction false} RenderParts(p: Poll, cursor: string)
    ensures EventsIn(Render(p, cursor)) == Dump(p.history, cursor)
    ensures Transcripts(Render(p, cursor)) == |Tail(p, cursor)|
  {
    hide Dump;
    var es := Dump(p.history, cursor);
    ShownConcat(Map(AsLogged, es), Tail(p, cursor));
    LoggedOnly(es);
    if Tail(p, cursor) != [] {
      assert Tail(p, cursor)[..0] == [];
    }
    assert es + [] == es;
  }

  /** The event lines of a run are those of following the histories, so all of the above is about them. */
  lemma {:induction false} ConsoleLogsFollow(polls: seq<Poll>, since: string)
    ensures EventsIn(Console(polls, since).0) == Follow(Map(HistoryOf, polls), since).0
    ensures Console(polls, since).1 == Follow(Map(HistoryOf, polls), since).1
  {
    hide Dump, Advance, Render, EventsIn;
    NothingShown();
    if polls != [] {
      var m := |polls| - 1;
      ConsoleLogsFollow(polls[..m], since);
      assert Map(HistoryOf, polls)[..m] == Map(HistoryOf, polls[..m]);
      var (shown, cursor) := Console(polls[..m], since);
      RenderParts(polls[m], cursor);
      ShownConcat(shown, Render(polls[m], cursor));
    }
  }

  lemma NothingShown()
    ensures EventsIn([]) == [] && Transcripts([]) == 0
  {
  }

  /** The transcript is written at most once a run, and never when a start time was given. */
  lemma {:induction false} TranscriptAtMostOnce(polls: seq<Poll>, since: string)
    requires AllStamped(Map(HistoryOf, polls))
    ensures var (shown, cursor) := Console(polls, since);
            && Transcripts(shown) <= (if cursor == "" || since != "" then 0 else 1)
            && (since != "" ==> cursor != "")
  {
    hide Dump, Advance, Render, Transcripts, StringOrder.Leq;
    NothingShown();
    if polls != [] {
      var m := |polls| - 1;
      var p := polls[m];
      var (shown, cursor) := Console(polls[..m], since);
      assert Map(HistoryOf, polls)[m].Stamped();
      forall i | 0 <= i < m ensures Map(HistoryOf, polls[..m])[i].Stamped() {
        assert Map(HistoryOf, polls)[i].Stamped();
      }
      TranscriptAtMostOnce(polls[..m], since);
      RenderParts(p, cursor);
      ShownConcat(shown, Render(p, cursor));
      CursorStaysSet(p.history, cursor);
    }
  }

  /** A set cursor stays set, and a message sets it. */
  lemma {:induction false} CursorStaysSet(h: History, cursor: string)
    requires h.Stamped()
    ensures cursor != "" || h.messages != [] ==> Advance(cursor, Dump(h, cursor)) != ""
  {
    hide Dump, Advance, StringOrder.Leq;
    var next := Advance(cursor, Dump(h, cursor));
    CursorMoves(h, cursor);
    EmptyFirst(cursor);
    if h.messages != [] {
      var e := h.messages[0];
      assert e in h.messages && e.ts != "";
      DumpCoversHistory(h, cursor, e);
    }
  }

  // ----- following is dumping once

  /** `next` adds events to `h`, all of them later than `cursor`. */
  ghost predicate ArrivesLater(h: History, next: History, cursor: string) {
    && h.audits <= next.audits && h.messages <= next.messages
    && (forall e | e in next.audits[|h.audits|..] :: After(cursor)(e))
    && (forall e | e in next.messages[|h.messages|..] :: After(cursor)(e))
  }

  ghost predicate InOrder(polls: seq<History>, since: string) {
    forall i | 0 <= i < |polls| - 1 :: ArrivesLater(polls[i], polls[i + 1], CursorAt(polls, since, i + 1))
  }

  /** If events arrive later than the cursor, a followed run prints the sorted history so far. */
  lemma {:induction false} FollowingIsDumpingOnce(polls: seq<History>, since: string)
    requires AllStamped(polls) && InOrder(polls, since) && polls != []
    ensures var last := polls[|polls| - 1];
            Follow(polls, since) == (Dump(last, since), Advance(since, Dump(last, since)))
  {
    hide Follow, Dump, Advance;
    var m := |polls| - 1;
    assert polls == polls[..m] + [polls[m]];
    FollowSnoc(polls[..m], polls[m], since);
    FollowSnoc([], polls[0], since);
    if m == 0 {
      assert polls[..0] == [] && [] + Dump(polls[0], since) == Dump(polls[0], since);
    } else {
      forall i | 0 <= i < m - 1
        ensures ArrivesLater(polls[..m][i], polls[..m][i + 1], CursorAt(polls[..m], since, i + 1))
      {
        assert polls[..m][..i + 1] == polls[..i + 1];
        assert ArrivesLater(polls[i], polls[i + 1], CursorAt(polls, since, i + 1));
      }
      FollowingIsDumpingOnce(polls[..m], since);
      var h, next := polls[m - 1], polls[m];
      assert ArrivesLater(polls[m - 1], polls[m - 1 + 1], CursorAt(polls, since, m - 1 + 1));
      DumpInTwoSteps(h, next, since);
      AdvanceConcat(since, Dump(h, since), Dump(next, Advance(since, Dump(h, since))));
    }
  }

  lemma {:induction false} AdvanceConcat(cursor: string, xs: seq<Event>, ys: seq<Event>)
    ensures Advance(cursor, xs + ys) == Advance(Advance(cursor, xs), ys)
  {
    if ys == [] {
      assert xs + ys == xs;
    } else {
      var m := |ys| - 1;
      AdvanceConcat(cursor, xs, ys[..m]);
      assert (xs + ys)[..|xs + ys| - 1] == xs + ys[..m];
    }
  }

  function NotAfter(cursor: string): Event -> bool {
    (e: Event) => !After(cursor)(e)
  }

  /** Of the events later than `since`, those not later than `cursor` are the ones known before. */
  lemma {:induction false} OldPart(known: seq<Event>, events: seq<Event>, since: string, cursor: string)
    requires known <= events && forall e | e in known :: !After(cursor)(e)
    requires forall e | e in events[|known|..] :: After(cursor)(e)
    ensures Filter(NotAfter(cursor), Filter(After(since), events)) == Filter(After(since), known)
  {
    hide Filter;
    var tail := events[|known|..];
    assert events == known + tail;
    FilterConcat(After(since), known, tail);
    FilterConcat(NotAfter(cursor), Filter(After(since), known), Filter(After(since), tail));
    forall e ensures e in Filter(After(since), known) ==> NotAfter(cursor)(e) {
      FilterMembers(After(since), known, e);
    }
    FilterEvery(NotAfter(cursor), Filter(After(since), known));
    forall e ensures e in Filter(After(since), tail) ==> !NotAfter(cursor)(e) {
      FilterMembers(After(since), tail, e);
    }
    FilterNone(NotAfter(cursor), Filter(After(since), tail));
  }

  lemma {:induction false} NewPart(events: seq<Event>, since: string, cursor: string)
    requires StringOrder.Leq(since, cursor)
    ensures Filter(After(cursor), Filter(After(since), events)) == Filter(After(cursor), events)
  {
    StringOrder.LeqIsTotalOrder();
    FilterFilter(After(since), After(cursor), events);
  }

  /** Events the first dump could see are not later than the cursor it leaves. */
  lemma {:induction false} DumpCoversHistory(h: History, since: string, e: Event)
    requires h.Stamped() && (e in h.audits || e in h.messages)
    ensures !After(Advance(since, Dump(h, since)))(e)
    ensures StringOrder.Leq(since, Advance(since, Dump(h, since)))
  {
    hide Dump, Advance;
    StringOrder.LeqIsTotalOrder();
    forall x ensures x in Dump(h, since) ==> x.ts != "" {
      DumpMembers(h, since, x);
    }
    AdvanceBounds(since, Dump(h, since));
    DumpMembers(h, since, e);
    assert e.ts != "";
  }

  lemma {:induction false} DumpInTwoSteps(h: History, next: History, since: string)
    requires h.Stamped() && next.Stamped()
    requires ArrivesLater(h, next, Advance(since, Dump(h, since)))
    ensures Dump(next, since) == Dump(h, since) + Dump(next, Advance(since, Dump(h, since)))
  {
    hide Sort, Filter, Dump, Advance;
    ByTsIsPreorder();
    var cursor := Advance(since, Dump(h, since));
    CursorMoves(h, since);
    forall e | e in h.audits || e in h.messages ensures !After(cursor)(e) {
      DumpCoversHistory(h, since, e);
    }
    DumpIsSortedHistory(h, since);
    DumpIsSortedHistory(next, since);
    DumpIsSortedHistory(next, cursor);
    var kept, messages := Filter(After(since), next.audits), Filter(After(since), next.messages);
    var audits := Sort(ByTs, kept);
    LaterSortsLater(audits + messages, cursor);
    FilterConcat(NotAfter(cursor), audits, messages);
    FilterConcat(After(cursor), audits, messages);
    FilterSort(ByTs, NotAfter(cursor), kept);
    FilterSort(ByTs, After(cursor), kept);
    OldPart(h.audits, next.audits, since, cursor);
    OldPart(h.messages, next.messages, since, cursor);
    NewPart(next.audits, since, cursor);
    NewPart(next.messages, since, cursor);
  }

  lemma {:induction false} CursorMoves(h: History, since: string)
    requires h.Stamped()
    ensures StringOrder.Leq(since, Advance(since, Dump(h, since)))
  {
    forall x ensures x in Dump(h, since) ==> x.ts != "" {
      DumpMembers(h, since, x);
    }
    AdvanceBounds(since, Dump(h, since));
  }

  lemma {:induction false} LaterSortsLater(events: seq<Event>, cursor: string)
    ensures Sort(ByTs, events)
         == Sort(ByTs, Filter(NotAfter(cursor), events)) + Sort(ByTs, Filter(After(cursor), events))
  {
    hide Sort, Filter;
    StringOrder.LeqIsTotalOrder();
    SortSplit(ByTs, NotAfter(cursor), After(cursor), events);
  }

  // ----- what a run writes, in plain terms

  lemma TerminalStatuses(status: Option<string>)
    ensures Terminal(status) <==>
              || status == Some("completed") || status == Some("failed")
              || status == Some("dead") || status == Some("cancelled")
  {
  }

  function AtTime(ts: string): Event -> bool {
    (e: Event) => e.ts == ts
  }

  /**
    A poll prints all events if no cursor is set, and else those strictly later; at one time the
    audit events come first, and each source keeps its order.
  */
  lemma {:induction false} DumpExactly(h: History, cursor: string, ts: string)
    ensures Filter(AtTime(ts), Dump(h, cursor))
         == if cursor == "" || (StringOrder.Leq(cursor, ts) && ts != cursor)
            then Filter(AtTime(ts), h.audits) + Filter(AtTime(ts), h.messages) else []
  {
    hide Sort, Filter, Dump;
    ByTsIsPreorder();
    DumpIsSortedHistory(h, cursor);
    var at := AtTime(ts);
    var audits, messages := Filter(After(cursor), h.audits), Filter(After(cursor), h.messages);
    FilterSort(ByTs, at, Sort(ByTs, audits) + messages);
    FilterConcat(at, Sort(ByTs, audits), messages);
    FilterSort(ByTs, at, audits);
    OneTime(audits, ts);
    OneTime(audits + messages, ts);
    FilterConcat(at, audits, messages);
    TimeAfter(h.audits, cursor, ts);
    TimeAfter(h.messages, cursor, ts);
  }

  /** Events of one time are in order as they stand. */
  lemma {:induction false} OneTime(events: seq<Event>, ts: string)
    ensures Sort(ByTs, Filter(AtTime(ts), events)) == Filter(AtTime(ts), events)
  {
    hide Insert, Sort, Filter;
    NothingToSort(ByTs, AtTime(ts));
    if events != [] {
      var e, later := events[0], Filter(AtTime(ts), events[1..]);
      OneTime(events[1..], ts);
      assert events == [e] + events[1..];
      FilterCons(AtTime(ts), e, events[1..]);
      SortCons(ByTs, e, later);
      StringOrder.Total(ts, ts);
      forall y ensures y in later ==> y.ts == ts {
        FilterMembers(AtTime(ts), events[1..], y);
      }
      InsertFront(ByTs, e, later);
    }
  }

  lemma {:induction false} TimeAfter(events: seq<Event>, cursor: string, ts: string)
    ensures Filter(AtTime(ts), Filter(After(cursor), events))
         == if cursor == "" || (StringOrder.Leq(cursor, ts) && ts != cursor) then Filter(AtTime(ts), events) else []
  {
    hide StringOrder.Leq, Filter;
    NothingFiltered(After(cursor));
    NothingFiltered(AtTime(ts));
    StringOrder.LeqIsTotalOrder();
    if events != [] {
      var e, rest := events[0], events[1..];
      assert events == [e] + rest;
      TimeAfter(rest, cursor, ts);
      FilterCons(After(cursor), e, rest);
      FilterCons(AtTime(ts), e, rest);
      FilterCons(AtTime(ts), e, Filter(After(cursor), rest));
    }
  }

  /**
    Following ends with the first poll after which the job is completed, failed, dead or cancelled,
    and says so; else it goes on until the run is aborted, and ends without a word.
  */
  lemma {:induction false} FollowEnds(rounds: seq<Round>) returns (n: nat)
    ensures n <= |rounds| && |Polled(rounds)| == n
    ensures forall i | 0 <= i < n :: Polled(rounds)[i] == rounds[i].poll && !rounds[i].aborted
    ensures forall i | 0 <= i < n - 1 :: !Terminal(rounds[i].after)
    ensures if n > 0 && Terminal(rounds[n - 1].after) then Closing(rounds) == [Closed(rounds[n - 1].after.value)]
            else Closing(rounds) == [] && (n < |rounds| ==> rounds[n].aborted)
  {
    hide Terminal;
    n := 0;
    if rounds != [] && !rounds[0].aborted {
      if Terminal(rounds[0].after) {
        n := 1;
      } else {
        var k := FollowEnds(rounds[1..]);
        n := k + 1;
        forall i | 0 <= i < n ensures Polled(rounds)[i] == rounds[i].poll && !rounds[i].aborted {
          assert i > 0 ==> rounds[i] == rounds[1..][i - 1];
        }
        forall i | 0 <= i < n - 1 ensures !Terminal(rounds[i].after) {
          assert i > 0 ==> rounds[i] == rounds[1..][i - 1];
        }
      }
    }
  }

  ghost predicate Quiet(h: History) {
    h.audits == [] && h.messages == []
  }

  /**
    The transcript is written iff the first poll that finds any event finds messages and a finished
    job. If that poll comes earlier, it is never written.
  */
  lemma {:induction false} TranscriptExactly(polls: seq<Poll>, k: nat)
    requires k <= |polls| && (forall j | 0 <= j < k :: Quiet(polls[j].history))
    requires k < |polls| ==> !Quiet(polls[k].history)
    requires AllStamped(Map(HistoryOf, polls))
    ensures var (shown, cursor) := Console(polls, "");
            && (cursor == "" <==> k == |polls|)
            && Transcripts(shown)
               == if k < |polls| && polls[k].history.messages != [] && Terminal(polls[k].status) then 1 else 0
  {
    hide Dump, Advance, Render, Transcripts, StringOrder.Leq, Terminal, Filter, Sort;
    NothingShown();
    if polls != [] {
      var m := |polls| - 1;
      var p := polls[m];
      var (shown, cursor) := Console(polls[..m], "");
      assert Map(HistoryOf, polls)[m].Stamped();
      forall i | 0 <= i < m ensures Map(HistoryOf, polls[..m])[i].Stamped() {
        assert Map(HistoryOf, polls)[i].Stamped();
      }
      TranscriptExactly(polls[..m], if k <= m then k else m);
      RenderParts(p, cursor);
      ShownConcat(shown, Render(p, cursor));
      CursorSetByEvents(p.history, cursor);
    }
  }

  lemma {:induction false} CursorSetByEvents(h: History, cursor: string)
    requires h.Stamped()
    ensures Advance(cursor, Dump(h, cursor)) == "" <==> cursor == "" && Quiet(h)
  {
    hide Dump, Advance, StringOrder.Leq;
    CursorStaysSet(h, cursor);
    if h.audits != [] {
      DumpCoversHistory(h, cursor, h.audits[0]);
    } else if h.messages == [] {
      if Dump(h, cursor) != [] {
        DumpMembers(h, cursor, Dump(h, cursor)[0]);
      }
      NothingPrinted(cursor);
    }
  }
}
