/** The append-only ledger of the ingest uploader (source-mock/ingest/ledger.py). */
module Ledger {
  import opened Wrappers

  datatype SendResult = Sent | TooLarge | Error

  /** One ledger row; a missing or empty `rel_path` reads as "". */
  datatype Row = Row(relPath: string, contentHash: Option<string>, result: SendResult, details: string)

  type Index = map<string, Row>

  /**
    How rows are written and lines are read. `decode` covers stripping, blank lines and JSON:
    it gives `None` for every line `load_index` skips.
  */
  datatype Codec = Codec(encode: Row -> string, decode: string -> Option<Row>)

  // ----- reading

  /** The newline-terminated lines of a text and what follows the last newline. */
  datatype Text = Text(lines: seq<string>, tail: string)

  function Split(s: string): Text {
    if s == [] then Text([], "")
    else
      var t, c := Split(s[..|s| - 1]), s[|s| - 1];
      if c == '\n' then Text(t.lines + [t.tail], "") else Text(t.lines, t.tail + [c])
  }

  function Record(index: Index, row: Row): Index {
    if row.relPath != "" then index[row.relPath := row] else index
  }

  /** Last write wins. */
  function IndexOf(rows: seq<Row>): Index {
    if rows == [] then map[] else Record(IndexOf(rows[..|rows| - 1]), rows[|rows| - 1])
  }

  function Decoded(c: Codec, lines: seq<string>): seq<Row> {
    if lines == [] then []
    else
      Decoded(c, lines[..|lines| - 1])
      + match c.decode(lines[|lines| - 1]) { case Some(r) => [r] case None => [] }
  }

  /** The rows that can be read back from a ledger's text, its unterminated tail included. */
  function RowsIn(c: Codec, content: string): seq<Row> {
    var t := Split(content);
    Decoded(c, t.lines + [t.tail])
  }

  function LoadIndex(c: Codec, content: string): Index {
    IndexOf(RowsIn(c, content))
  }

  /** The ledger file. */
  class LedgerFile {
    const codec: Codec
    var content: string

    constructor (codec: Codec, content: string)
      ensures this.codec == codec && this.content == content
    {
      this.codec := codec;
      this.content := content;
    }

    /** `load_index`: one dictionary update a readable line. */
    method Load() returns (index: Index)
      ensures index == LoadIndex(codec, content)
    {
      index := map[];
      var text := Split(content);
      var lines := text.lines + [text.tail];
      for i := 0 to |lines|
        invariant index == IndexOf(Decoded(codec, lines[..i]))
      {
        DecodedSnoc(codec, lines[..i], lines[i]);
        assert lines[..i + 1] == lines[..i] + [lines[i]];
        match codec.decode(lines[i]) {
          case None =>
            assert Decoded(codec, lines[..i]) + [] == Decoded(codec, lines[..i]);
          case Some(entry) =>
            IndexSnoc(Decoded(codec, lines[..i]), entry);
            if entry.relPath != "" {
              index := index[entry.relPath := entry];
            }
        }
      }
      assert lines[..|lines|] == lines;
    }

    method Append(entry: Row)
      modifies this`content
      ensures content == old(content) + Line(codec, entry)
    {
      content := content + Line(codec, entry);
    }
  }

  // ----- writing, and crashes in the middle of it

  function Line(c: Codec, row: Row): string {
    c.encode(row) + "\n"
  }

  /** An append that completed, or one cut off after its first `k` characters. */
  datatype Event = Written(row: Row) | Torn(row: Row, k: nat)

  function EventText(c: Codec, e: Event): string {
    match e
    case Written(row) => Line(c, row)
    case Torn(row, k) => if k < |Line(c, row)| then Line(c, row)[..k] else Line(c, row)
  }

  function Content(c: Codec, events: seq<Event>): string {
    if events == [] then "" else Content(c, events[..|events| - 1]) + EventText(c, events[|events| - 1])
  }

  /** A non-empty piece of an encoding, without its newline. */
  datatype Fragment = Fragment(row: Row, k: nat)

  ghost predicate ValidFragment(c: Codec, f: Fragment) {
    0 < f.k <= |c.encode(f.row)|
  }

  ghost predicate ValidFragments(c: Codec, fs: seq<Fragment>) {
    forall i | 0 <= i < |fs| :: ValidFragment(c, fs[i])
  }

  function Glued(c: Codec, fs: seq<Fragment>): string
    requires ValidFragments(c, fs)
  {
    if fs == [] then ""
    else Glued(c, fs[..|fs| - 1]) + c.encode(fs[|fs| - 1].row)[..fs[|fs| - 1].k]
  }

  ghost predicate Whole(c: Codec, fs: seq<Fragment>) {
    |fs| == 1 && fs[0].k == |c.encode(fs[0].row)|
  }

  /**
    What is needed of the JSON encoding: rows read back, they fit on one line, and no text that
    is cut short or made of several objects parses.
  */
  ghost predicate Lawful(c: Codec) {
    && (forall r :: c.decode(c.encode(r)) == Some(r))
    && (forall r :: c.encode(r) != "" && '\n' !in c.encode(r))
    && (forall fs: seq<Fragment> | ValidFragments(c, fs) && !Whole(c, fs) :: c.decode(Glued(c, fs)) == None)
  }

  // ----- what survives

  /** Rows on their own terminated line, and the fragments run together after the last newline. */
  datatype Recovery = Recovery(rows: seq<Row>, tail: seq<Fragment>)

  function AfterEvent(c: Codec, s: Recovery, e: Event): Recovery {
    if e.Torn? && e.k == 0 then s
    else if e.Torn? && e.k <= |c.encode(e.row)| then Recovery(s.rows, s.tail + [Fragment(e.row, e.k)])
    else Recovery(if s.tail == [] then s.rows + [e.row] else s.rows, [])
  }

  function Recover(c: Codec, events: seq<Event>): Recovery {
    if events == [] then Recovery([], [])
    else AfterEvent(c, Recover(c, events[..|events| - 1]), events[|events| - 1])
  }

  /** The rows `load_index` sees: a tail counts exactly when it is one whole row. */
  function Survivors(c: Codec, events: seq<Event>): seq<Row> {
    var s := Recover(c, events);
    if |s.tail| == 1 && s.tail[0].k == |c.encode(s.tail[0].row)| then s.rows + [s.tail[0].row] else s.rows
  }

  // ----- splitting a text as it grows

  lemma {:induction false} SplitAppend(s: string, p: string)
    requires '\n' !in p
    ensures Split(s + p) == Text(Split(s).lines, Split(s).tail + p)
  {
    if p == "" {
      assert s + p == s;
    } else {
      var q := p[..|p| - 1];
      SplitAppend(s, q);
      assert (s + p)[..|s + p| - 1] == s + q;
      assert Split(s).tail + p == Split(s).tail + q + [p[|p| - 1]];
    }
  }

  lemma {:induction false} SplitLine(s: string, p: string)
    requires '\n' !in p
    ensures Split(s + (p + "\n")) == Text(Split(s).lines + [Split(s).tail + p], "")
  {
    SplitAppend(s, p);
    assert (s + (p + "\n"))[..|s + p|] == s + p;
  }

  /** The recovery state read off the text that the events left behind. */
  ghost predicate Describes(c: Codec, s: Recovery, content: string) {
    && ValidFragments(c, s.tail)
    && Decoded(c, Split(content).lines) == s.rows
    && Split(content).tail == Glued(c, s.tail)
  }

  lemma {:induction false} DecodedSnoc(c: Codec, lines: seq<string>, line: string)
    ensures Decoded(c, lines + [line])
         == Decoded(c, lines) + match c.decode(line) { case Some(r) => [r] case None => [] }
  {
    assert (lines + [line])[..|lines|] == lines;
  }

  lemma {:induction false} IndexSnoc(rows: seq<Row>, row: Row)
    ensures IndexOf(rows + [row]) == Record(IndexOf(rows), row)
  {
    assert (rows + [row])[..|rows|] == rows;
  }

  lemma {:induction false} GluedSnoc(c: Codec, fs: seq<Fragment>, f: Fragment)
    requires ValidFragments(c, fs) && ValidFragment(c, f)
    ensures ValidFragments(c, fs + [f]) && Glued(c, fs + [f]) == Glued(c, fs) + c.encode(f.row)[..f.k]
  {
    assert (fs + [f])[..|fs|] == fs;
  }

  lemma FragmentKeepsDescription(c: Codec, s: Recovery, content: string, f: Fragment)
    requires Lawful(c) && Describes(c, s, content) && ValidFragment(c, f)
    ensures Describes(c, Recovery(s.rows, s.tail + [f]), content + c.encode(f.row)[..f.k])
  {
    hide Split, Decoded, Glued;
    var piece := c.encode(f.row)[..f.k];
    assert '\n' !in piece;
    SplitAppend(content, piece);
    GluedSnoc(c, s.tail, f);
  }

  lemma LineKeepsDescription(c: Codec, s: Recovery, content: string, row: Row)
    requires Lawful(c) && Describes(c, s, content)
    ensures Describes(c, Recovery(if s.tail == [] then s.rows + [row] else s.rows, []), content + Line(c, row))
  {
    hide Split, Decoded;
    var enc, whole := c.encode(row), Fragment(row, |c.encode(row)|);
    SplitLine(content, enc);
    DecodedSnoc(c, Split(content).lines, Split(content).tail + enc);
    GluedSnoc(c, s.tail, whole);
    assert enc[..|enc|] == enc;
    assert "" + enc == enc;
    assert s.tail != [] ==> !Whole(c, s.tail + [whole]);
  }

  lemma EventKeepsDescription(c: Codec, s: Recovery, content: string, e: Event)
    requires Lawful(c) && Describes(c, s, content)
    ensures Describes(c, AfterEvent(c, s, e), content + EventText(c, e))
  {
    hide Describes, Lawful, Glued;
    var enc := c.encode(e.row);
    if e.Torn? && e.k == 0 {
      assert content + EventText(c, e) == content;
    } else if e.Torn? && e.k <= |enc| {
      assert EventText(c, e) == enc[..e.k];
      FragmentKeepsDescription(c, s, content, Fragment(e.row, e.k));
    } else {
      assert EventText(c, e) == Line(c, e.row);
      LineKeepsDescription(c, s, content, e.row);
    }
  }

  lemma {:induction false} RecoveryDescribes(c: Codec, events: seq<Event>)
    requires Lawful(c)
    ensures Describes(c, Recover(c, events), Content(c, events))
  {
    if events != [] {
      var m := |events| - 1;
      RecoveryDescribes(c, events[..m]);
      EventKeepsDescription(c, Recover(c, events[..m]), Content(c, events[..m]), events[m]);
    }
  }

  /**
    Crash tolerance: whatever appends completed or were cut short, at any character and any
    number of times, the rows read back are the survivors, in the order they were written.
  */
  lemma {:induction false} LoadSeesSurvivors(c: Codec, events: seq<Event>)
    requires Lawful(c)
    ensures RowsIn(c, Content(c, events)) == Survivors(c, events)
    ensures LoadIndex(c, Content(c, events)) == IndexOf(Survivors(c, events))
  {
    hide Split, Decoded, Content, Recover;
    var s, text := Recover(c, events), Split(Content(c, events));
    RecoveryDescribes(c, events);
    DecodedSnoc(c, text.lines, text.tail);
    if Whole(c, s.tail) {
      WholeTail(c, s.tail);
    }
  }

  lemma {:induction false} WholeTail(c: Codec, fs: seq<Fragment>)
    requires ValidFragments(c, fs) && Whole(c, fs)
    ensures Glued(c, fs) == c.encode(fs[0].row)
  {
    var enc := c.encode(fs[0].row);
    assert fs[..0] == [] && enc[..|enc|] == enc && "" + enc == enc;
  }

  // ----- one crash

  function WrittenAll(rows: seq<Row>): (es: seq<Event>)
    ensures |es| == |rows| && forall i | 0 <= i < |es| :: es[i] == Written(rows[i])
  {
    seq(|rows|, i requires 0 <= i < |rows| => Written(rows[i]))
  }

  lemma {:induction false} RecoverSnoc(c: Codec, events: seq<Event>, e: Event)
    ensures Recover(c, events + [e]) == AfterEvent(c, Recover(c, events), e)
  {
    assert (events + [e])[..|events|] == events;
  }

  lemma {:induction false} RecoverWritten(c: Codec, events: seq<Event>, rows: seq<Row>)
    ensures var s := Recover(c, events);
            Recover(c, events + WrittenAll(rows))
            == if rows == [] then s
               else Recovery(s.rows + (if s.tail == [] then rows else rows[1..]), [])
  {
    hide Recover;
    if rows == [] {
      assert events + WrittenAll(rows) == events;
    } else {
      var pre, row := rows[..|rows| - 1], rows[|rows| - 1];
      RecoverWritten(c, events, pre);
      RecoverSnoc(c, events + WrittenAll(pre), Written(row));
      assert events + WrittenAll(rows) == events + WrittenAll(pre) + [Written(row)];
      assert rows == pre + [row];
      assert pre != [] ==> rows[1..] == pre[1..] + [row];
    }
  }

  /** How far into the line the cut falls decides what is lost. */
  lemma {:induction false} OneCrash(c: Codec, before: seq<Row>, torn: Row, k: nat, after: seq<Row>)
    requires Lawful(c)
    ensures var events := WrittenAll(before) + [Torn(torn, k)] + WrittenAll(after);
            RowsIn(c, Content(c, events))
               == if k == 0 then before + after
                  else if k >= |Line(c, torn)| then before + [torn] + after
                  else if after != [] then before + after[1..]
                  else if k == |c.encode(torn)| then before + [torn]
                  else before
  {
    hide Recover, Content, RowsIn, Lawful;
    var pre := WrittenAll(before) + [Torn(torn, k)];
    RecoverWritten(c, [], before);
    assert [] + WrittenAll(before) == WrittenAll(before);
    assert Recover(c, []) == Recovery([], []) by { NothingRecovered(c); }
    assert [] + before == before;
    RecoverSnoc(c, WrittenAll(before), Torn(torn, k));
    RecoverWritten(c, pre, after);
    LoadSeesSurvivors(c, pre + WrittenAll(after));
  }

  lemma {:induction false} NothingRecovered(c: Codec)
    ensures Recover(c, []) == Recovery([], [])
  {
  }

  // ----- nothing on a finished line is ever lost

  lemma {:induction false} TerminatedRowsStay(c: Codec, events: seq<Event>, more: seq<Event>)
    ensures Recover(c, events).rows <= Recover(c, events + more).rows <= Survivors(c, events + more)
  {
    if more == [] {
      assert events + more == events;
    } else {
      var m := |more| - 1;
      TerminatedRowsStay(c, events, more[..m]);
      assert (events + more)[..|events + more| - 1] == events + more[..m];
    }
  }

  function CountTorn(events: seq<Event>): nat {
    if events == [] then 0 else CountTorn(events[..|events| - 1]) + if events[|events| - 1].Torn? then 1 else 0
  }

  /** Each crash costs at most its own row and the row glued to it. */
  lemma {:induction false} LossPerCrash(c: Codec, events: seq<Event>)
    ensures |events| <= |Survivors(c, events)| + 2 * CountTorn(events)
    ensures Recover(c, events).tail != [] ==> |events| + 1 <= |Recover(c, events).rows| + 2 * CountTorn(events)
    ensures |events| <= |Recover(c, events).rows| + 2 * CountTorn(events)
  {
    if events != [] {
      LossPerCrash(c, events[..|events| - 1]);
    }
  }

  // ----- the end of the file

  predicate Terminated(content: string) {
    content == "" || content[|content| - 1] == '\n'
  }

  /** The index of the newline-terminated lines alone. */
  function IndexOfLines(c: Codec, content: string): Index {
    IndexOf(Decoded(c, Split(content).lines))
  }

  /** A fragment is left over exactly when the file does not end in a newline. */
  lemma {:induction false} TailIsUnterminated(c: Codec, events: seq<Event>)
    requires Lawful(c)
    ensures Recover(c, events).tail == [] <==> Terminated(Content(c, events))
    ensures IndexOf(Recover(c, events).rows) == IndexOfLines(c, Content(c, events))
  {
    var fs := Recover(c, events).tail;
    RecoveryDescribes(c, events);
    if fs != [] {
      assert Glued(c, fs) != "" by {
        var f := fs[|fs| - 1];
        assert |c.encode(f.row)[..f.k]| > 0;
      }
    }
  }
}
