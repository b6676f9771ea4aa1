/** The source tree walk and its slugs (source-mock/ingest/scanner.py). */
module Scanner {
  import opened Wrappers
  import opened OrderedMaps
  import opened Grouping
  import opened Rearrangements

  // ----- slugify

  predicate Alnum(c: char) { 'a' <= c <= 'z' || '0' <= c <= '9' }

  /** The part of `s` after its leading run of other characters. */
  function DropJunk(s: string): (r: string)
    ensures |r| <= |s| && (s != "" && !Alnum(s[0]) ==> |r| < |s|)
    ensures r != "" ==> Alnum(r[0])
  {
    if s == "" || Alnum(s[0]) then s else DropJunk(s[1..])
  }

  predicate AlnumRun(r: string) {
    r != "" && forall i | 0 <= i < |r| :: Alnum(r[i])
  }

  predicate AlnumRuns(rs: seq<string>) {
    forall i | 0 <= i < |rs| :: AlnumRun(rs[i])
  }

  /** The leading alphanumeric run of `s`. */
  function TakeRun(s: string): (r: string)
    ensures r <= s
    ensures if s != "" && Alnum(s[0]) then AlnumRun(r) else r == ""
    ensures |r| < |s| ==> !Alnum(s[|r|])
  {
    if s == "" || !Alnum(s[0]) then "" else [s[0]] + TakeRun(s[1..])
  }

  /** Every maximal run of other characters becomes one dash. */
  function Collapse(s: string): string
    decreases |s|
  {
    if s == "" then ""
    else if Alnum(s[0]) then [s[0]] + Collapse(s[1..])
    else "-" + Collapse(DropJunk(s))
  }

  function StripLeft(s: string): string {
    if s != "" && s[0] == '-' then StripLeft(s[1..]) else s
  }

  function StripRight(s: string): string {
    if s != "" && s[|s| - 1] == '-' then StripRight(s[..|s| - 1]) else s
  }

  /** `lower` is the language's own lower-casing. */
  function Slugify(lower: string -> string, title: string): string {
    StripRight(StripLeft(Collapse(lower(title))))
  }

  // ----- the independent description of a slug

  /** The maximal alphanumeric runs of `s`, in order. */
  function Runs(s: string): (rs: seq<string>)
    ensures AlnumRuns(rs)
    decreases |s|
  {
    if s == "" then []
    else if Alnum(s[0]) then [TakeRun(s)] + Runs(s[|TakeRun(s)|..])
    else Runs(DropJunk(s))
  }

  function Join(rs: seq<string>): string {
    if rs == [] then "" else if |rs| == 1 then rs[0] else rs[0] + "-" + Join(rs[1..])
  }

  lemma {:induction false} CollapseRun(s: string)
    ensures Collapse(s) == TakeRun(s) + Collapse(s[|TakeRun(s)|..])
  {
    if s != "" && Alnum(s[0]) {
      CollapseRun(s[1..]);
      assert s[1..][|TakeRun(s[1..])|..] == s[|TakeRun(s)|..];
    }
  }

  lemma {:induction false} CollapseJunk(s: string)
    requires s != "" && !Alnum(s[0])
    ensures Collapse(s) == "-" + Collapse(DropJunk(s)) && Runs(s) == Runs(DropJunk(s))
  {
  }

  lemma CollapseNothing()
    ensures Collapse("") == "" && Runs("") == []
  {
  }

  lemma {:induction false} RunsOfRunFirst(s: string)
    requires s != "" && Alnum(s[0])
    ensures Runs(s) == [TakeRun(s)] + Runs(s[|TakeRun(s)|..])
  {
  }

  lemma {:induction false} JoinCons(r: string, rs: seq<string>)
    ensures Join([r] + rs) == if rs == [] then r else r + "-" + Join(rs)
  {
    assert ([r] + rs)[1..] == rs;
  }

  /** Starting at an alphanumeric, collapsing gives the runs joined, and a dash if junk ends the text. */
  lemma {:induction false} CollapseIsJoin(s: string)
    requires s == "" || Alnum(s[0])
    ensures s == "" ==> Collapse(s) == "" && Runs(s) == []
    ensures s != "" ==> Runs(s) != [] && (Collapse(s) == Join(Runs(s)) || Collapse(s) == Join(Runs(s)) + "-")
    decreases |s|
  {
    hide Collapse, DropJunk, TakeRun, Runs, Join;
    CollapseNothing();
    if s != "" {
      var run, rest := TakeRun(s), s[|TakeRun(s)|..];
      CollapseRun(s);
      RunsOfRunFirst(s);
      JoinCons(run, Runs(rest));
      if rest == "" {
        assert run + "" == run;
      } else {
        var t := DropJunk(rest);
        CollapseJunk(rest);
        CollapseIsJoin(t);
        if t != "" {
          var j := Join(Runs(t));
          assert run + ("-" + j) == run + "-" + j;
          assert run + ("-" + (j + "-")) == (run + "-" + j) + "-";
        }
      }
    }
  }

  /** A join of non-empty runs neither starts nor ends with a dash. */
  lemma {:induction false} JoinEnds(rs: seq<string>)
    requires AlnumRuns(rs)
    ensures rs != [] ==> Join(rs) != "" && Alnum(Join(rs)[0]) && Alnum(Join(rs)[|Join(rs)| - 1])
  {
    if rs != [] {
      assert AlnumRun(rs[0]);
      if |rs| > 1 {
        JoinEnds(rs[1..]);
      }
    }
  }

  /** A slug is the dash-join of the lower-cased title's alphanumeric runs. */
  lemma SlugIsJoinedRuns(lower: string -> string, title: string)
    ensures Slugify(lower, title) == Join(Runs(lower(title)))
  {
    hide Collapse, DropJunk, TakeRun, Runs, Join;
    var s := lower(title);
    CollapseNothing();
    if s != "" && Alnum(s[0]) {
      CollapseIsJoin(s);
      JoinEnds(Runs(s));
      StripEnds(Join(Runs(s)));
    } else if s != "" {
      var t := DropJunk(s);
      CollapseJunk(s);
      CollapseIsJoin(t);
      if t == "" {
        assert "-" + "" == "-" && "-"[1..] == "";
      } else {
        JoinEnds(Runs(t));
        StripEnds(Join(Runs(t)));
      }
    }
    JoinNothing();
  }

  lemma JoinNothing()
    ensures Join([]) == ""
  {
  }

  lemma {:induction false} StripEnds(j: string)
    requires j != "" && j[0] != '-' && j[|j| - 1] != '-'
    ensures StripRight(StripLeft(j)) == StripRight(StripLeft(j + "-")) == j
    ensures StripRight(StripLeft("-" + j)) == StripRight(StripLeft("-" + (j + "-"))) == j
  {
    assert (j + "-")[..|j|] == j && ("-" + j)[1..] == j && ("-" + (j + "-"))[1..] == j + "-";
  }

  lemma {:induction false} RunsOfRun(r: string, s: string)
    requires AlnumRun(r) && (s == "" || !Alnum(s[0]))
    ensures TakeRun(r + s) == r
  {
    assert (r + s)[1..] == r[1..] + s;
    if |r| == 1 {
      assert r[1..] + s == s;
    } else {
      RunsOfRun(r[1..], s);
    }
  }

  lemma {:induction false} RunsOfJoin(rs: seq<string>)
    requires AlnumRuns(rs)
    ensures Runs(Join(rs)) == rs
  {
    if |rs| == 1 {
      RunsOfRun(rs[0], "");
      assert rs[0] + "" == rs[0] && rs[0][|rs[0]|..] == "";
    } else if |rs| > 1 {
      RunsOfJoin(rs[1..]);
      JoinEnds(rs[1..]);
      RunsAfterDash(rs[0], Join(rs[1..]));
      assert rs == [rs[0]] + rs[1..];
    }
  }

  lemma {:induction false} RunsAfterDash(r: string, j: string)
    requires AlnumRun(r) && j != "" && Alnum(j[0])
    ensures Runs(r + "-" + j) == [r] + Runs(j)
  {
    hide Runs, DropJunk, TakeRun;
    RunsOfRun(r, "-" + j);
    assert r + "-" + j == r + ("-" + j);
    RunsOfRunFirst(r + "-" + j);
    assert (r + "-" + j)[|r|..] == "-" + j;
    CollapseJunk("-" + j);
    DropDash(j);
  }

  lemma {:induction false} DropDash(j: string)
    requires j != "" && Alnum(j[0])
    ensures DropJunk("-" + j) == j
  {
    assert ("-" + j)[1..] == j;
  }

  lemma {:induction false} JoinAlphabet(rs: seq<string>)
    requires AlnumRuns(rs)
    ensures SlugText(Join(rs))
  {
    if rs != [] {
      assert AlnumRun(rs[0]);
      if |rs| > 1 {
        JoinAlphabet(rs[1..]);
      }
    }
  }

  predicate SlugText(s: string) {
    forall i | 0 <= i < |s| :: Alnum(s[i]) || s[i] == '-'
  }

  /** Lower-casing leaves texts over lower-case ASCII letters, digits and dashes alone. */
  ghost predicate KeepsSlugs(lower: string -> string) {
    forall s | SlugText(s) :: lower(s) == s
  }

  lemma SlugifyIsIdempotent(lower: string -> string, title: string)
    requires KeepsSlugs(lower)
    ensures Slugify(lower, Slugify(lower, title)) == Slugify(lower, title)
  {
    var slug := Slugify(lower, title);
    SlugIsJoinedRuns(lower, title);
    SlugIsJoinedRuns(lower, slug);
    JoinAlphabet(Runs(lower(title)));
    RunsOfJoin(Runs(lower(title)));
  }

  // ----- page slugs

  function PageSlug(source: string, date: string, slugTitle: string): string {
    source + "/" + date + "-" + slugTitle
  }

  /** What the date pattern lets through: ten characters, and `$` also matches before a last newline. */
  predicate DateLength(date: string) {
    |date| == 10 || (|date| == 11 && date[10] == '\n')
  }

  /** Pages of different sources or dates never share a slug. */
  lemma PageSlugInjective(source: string, date: string, title: string, source': string, date': string, title': string)
    requires '/' !in source && '/' !in source' && DateLength(date) && DateLength(date')
    requires PageSlug(source, date, title) == PageSlug(source', date', title')
    ensures source == source' && date == date' && title == title'
  {
    var s := PageSlug(source, date, title);
    var n, n' := |source|, |source'|;
    assert s[n] == '/' && s[n'] == '/';
    assert forall i | 0 <= i < n :: s[i] == source[i];
    assert forall i | 0 <= i < n' :: s[i] == source'[i];
    assert n == n';
    assert source == s[..n] && source' == s[..n'];
    assert s[n + 11] == if |date| == 10 then '-' else '\n';
    assert s[n' + 11] == if |date'| == 10 then '-' else '\n';
    assert date == s[n + 1..n + 1 + |date|] && date' == s[n + 1..n + 1 + |date'|];
    assert title == s[n + 2 + |date|..] && title' == s[n + 2 + |date'|..];
  }

  // ----- the walk

  datatype FileRecord = FileRecord(relPath: string, source: string, date: string, title: string,
                                   slug: string, contentHash: string, size: nat)

  datatype Reason = NoDateDir | BadDate | NotMd | TooDeep | EmptySlug | SlugCollision | NonUtf8

  datatype SkippedFile = SkippedFile(relPath: string, reason: Reason)

  datatype ScanResult = ScanResult(records: seq<FileRecord>, skipped: seq<SkippedFile>)

  /** A directory tree two levels below a source; listings come sorted and without duplicates. */
  datatype Child = SubDir(name: string) | Document(name: string, utf8: bool, contentHash: string, size: nat)
  datatype Entry = Loose(name: string) | Folder(name: string, children: seq<Child>)
  datatype Source = Stray(name: string) | Root(name: string, entries: seq<Entry>)

  /** Walking over one item either yields a record or a reason to skip it. */
  datatype Visit = Found(record: FileRecord) | Skip(file: SkippedFile)

  /** The zeros of the other blocks of ten decimal digits of Unicode 14, all of which `\d` accepts. */
  const ZEROS := [
    0x660, 0x6F0, 0x7C0, 0x966, 0x9E6, 0xA66, 0xAE6, 0xB66, 0xBE6, 0xC66, 0xCE6, 0xD66, 0xDE6, 0xE50,
    0xED0, 0xF20, 0x1040, 0x1090, 0x17E0, 0x1810, 0x1946, 0x19D0, 0x1A80, 0x1A90, 0x1B50, 0x1BB0, 0x1C40,
    0x1C50, 0xA620, 0xA8D0, 0xA900, 0xA9D0, 0xA9F0, 0xAA50, 0xABF0, 0xFF10, 0x104A0, 0x10D30, 0x11066, 0x110F0,
    0x11136, 0x111D0, 0x112F0, 0x11450, 0x114D0, 0x11650, 0x116C0, 0x11730, 0x118E0, 0x11950, 0x11C50, 0x11D50,
    0x11DA0, 0x16A60, 0x16AC0, 0x16B50, 0x1D7CE, 0x1D7D8, 0x1D7E2, 0x1D7EC, 0x1D7F6, 0x1E140, 0x1E2F0, 0x1E950,
    0x1FBF0
  ]

  predicate Digit(c: char) {
    '0' <= c <= '9' || (c >= '\U{660}' && exists i :: 0 <= i < |ZEROS| && ZEROS[i] <= c as int < ZEROS[i] + 10)
  }

  /** `^\d{4}-\d{2}-\d{2}$`. */
  predicate IsDate(name: string) {
    && DateLength(name) && name[4] == '-' && name[7] == '-'
    && forall i | 0 <= i < 10 && i != 4 && i != 7 :: Digit(name[i])
  }

  predicate IsMarkdown(name: string) {
    |name| >= 3 && name[|name| - 3..] == ".md"
  }

  function VisitChild(lower: string -> string, source: string, date: string, child: Child): Visit {
    var rel := source + "/" + date + "/" + child.name;
    if child.SubDir? then Skip(SkippedFile(rel, TooDeep))
    else if !IsMarkdown(child.name) then Skip(SkippedFile(rel, NotMd))
    else if !child.utf8 then Skip(SkippedFile(rel, NonUtf8))
    else
      var title := child.name[..|child.name| - 3];
      var slug := Slugify(lower, title);
      if slug == "" then Skip(SkippedFile(rel, EmptySlug))
      else Found(FileRecord(rel, source, date, title, PageSlug(source, date, slug), child.contentHash, child.size))
  }

  function VisitChildren(lower: string -> string, source: string, date: string, children: seq<Child>): seq<Visit> {
    if children == [] then []
    else VisitChildren(lower, source, date, children[..|children| - 1])
         + [VisitChild(lower, source, date, children[|children| - 1])]
  }

  function VisitEntry(lower: string -> string, source: string, entry: Entry): seq<Visit> {
    if entry.Loose? then [Skip(SkippedFile(source + "/" + entry.name, NoDateDir))]
    else if !IsDate(entry.name) then [Skip(SkippedFile(source + "/" + entry.name, BadDate))]
    else VisitChildren(lower, source, entry.name, entry.children)
  }

  function VisitEntries(lower: string -> string, source: string, entries: seq<Entry>): seq<Visit> {
    if entries == [] then []
    else VisitEntries(lower, source, entries[..|entries| - 1]) + VisitEntry(lower, source, entries[|entries| - 1])
  }

  function VisitSources(lower: string -> string, sources: seq<Source>, only: Option<string>): seq<Visit> {
    if sources == [] then []
    else
      VisitSources(lower, sources[..|sources| - 1], only)
      + var s := sources[|sources| - 1];
        if s.Stray? || (only.Some? && s.name != only.value) then [] else VisitEntries(lower, s.name, s.entries)
  }

  function Provisional(vs: seq<Visit>): seq<FileRecord> {
    if vs == [] then []
    else Provisional(vs[..|vs| - 1]) + if vs[|vs| - 1].Found? then [vs[|vs| - 1].record] else []
  }

  function Skipped(vs: seq<Visit>): seq<SkippedFile> {
    if vs == [] then []
    else Skipped(vs[..|vs| - 1]) + if vs[|vs| - 1].Skip? then [vs[|vs| - 1].file] else []
  }

  // ----- collisions

  function SlugOf(r: FileRecord): string { r.slug }

  predicate UniqueSlug(all: seq<FileRecord>, r: FileRecord) {
    |WithKey(SlugOf, r.slug, all)| == 1
  }

  /** The records whose slug no other record shares, in order. */
  function Unshared(all: seq<FileRecord>, rs: seq<FileRecord>): seq<FileRecord> {
    if rs == [] then []
    else Unshared(all, rs[..|rs| - 1]) + if UniqueSlug(all, rs[|rs| - 1]) then [rs[|rs| - 1]] else []
  }

  function Shared(all: seq<FileRecord>, rs: seq<FileRecord>): seq<FileRecord> {
    if rs == [] then []
    else Shared(all, rs[..|rs| - 1]) + if UniqueSlug(all, rs[|rs| - 1]) then [] else [rs[|rs| - 1]]
  }

  /** The records kept and those rejected, slug by slug. */
  function Kept(all: seq<FileRecord>, slugs: seq<string>): seq<FileRecord> {
    if slugs == [] then []
    else
      var group := WithKey(SlugOf, slugs[|slugs| - 1], all);
      Kept(all, slugs[..|slugs| - 1]) + if |group| == 1 then group else []
  }

  function Collided(all: seq<FileRecord>, slugs: seq<string>): seq<FileRecord> {
    if slugs == [] then []
    else
      var group := WithKey(SlugOf, slugs[|slugs| - 1], all);
      Collided(all, slugs[..|slugs| - 1]) + if |group| == 1 then [] else group
  }

  function AsCollisions(rs: seq<FileRecord>): (r: seq<SkippedFile>)
    ensures |r| == |rs|
  {
    seq(|rs|, i requires 0 <= i < |rs| => SkippedFile(rs[i].relPath, SlugCollision))
  }

  function RejectCollisions(provisional: seq<FileRecord>, skipped: seq<SkippedFile>): ScanResult {
    var slugs := Groups(SlugOf, provisional).keys;
    ScanResult(Kept(provisional, slugs), skipped + AsCollisions(Collided(provisional, slugs)))
  }

  function ScanSpec(lower: string -> string, sources: seq<Source>, only: Option<string>): ScanResult {
    var vs := VisitSources(lower, sources, only);
    RejectCollisions(Provisional(vs), Skipped(vs))
  }

  // ----- the loops

  /** The three nested loops over the tree. */
  method Walk(lower: string -> string, sources: seq<Source>, only: Option<string>)
    returns (provisional: seq<FileRecord>, skipped: seq<SkippedFile>)
    ensures provisional == Provisional(VisitSources(lower, sources, only))
    ensures skipped == Skipped(VisitSources(lower, sources, only))
  {
    provisional, skipped := [], [];
    ghost var seen := [];
    for i := 0 to |sources|
      invariant seen == VisitSources(lower, sources[..i], only)
      invariant provisional == Provisional(seen) && skipped == Skipped(seen)
    {
      assert sources[..i + 1][..i] == sources[..i];
      if sources[i].Stray? || (only.Some? && sources[i].name != only.value) {
        assert seen + [] == seen;
        continue;
      }
      var found, rejected, visits := WalkSource(lower, sources[i].name, sources[i].entries);
      AppendVisits(seen, visits);
      seen := seen + visits;
      provisional, skipped := provisional + found, skipped + rejected;
    }
    assert sources[..|sources|] == sources;
  }

  method WalkSource(lower: string -> string, source: string, entries: seq<Entry>)
    returns (provisional: seq<FileRecord>, skipped: seq<SkippedFile>, ghost visits: seq<Visit>)
    ensures visits == VisitEntries(lower, source, entries)
    ensures provisional == Provisional(visits) && skipped == Skipped(visits)
  {
    hide Provisional, Skipped;
    NoVisits();
    provisional, skipped, visits := [], [], [];
    for i := 0 to |entries|
      invariant visits == VisitEntries(lower, source, entries[..i])
      invariant provisional == Provisional(visits) && skipped == Skipped(visits)
    {
      assert entries[..i + 1][..i] == entries[..i];
      var entry := entries[i];
      if entry.Loose? {
        VisitSnoc(visits, Skip(SkippedFile(source + "/" + entry.name, NoDateDir)));
        visits := visits + [Skip(SkippedFile(source + "/" + entry.name, NoDateDir))];
        skipped := skipped + [SkippedFile(source + "/" + entry.name, NoDateDir)];
        continue;
      }
      if !IsDate(entry.name) {
        VisitSnoc(visits, Skip(SkippedFile(source + "/" + entry.name, BadDate)));
        visits := visits + [Skip(SkippedFile(source + "/" + entry.name, BadDate))];
        skipped := skipped + [SkippedFile(source + "/" + entry.name, BadDate)];
        continue;
      }
      var found, rejected, more := WalkFolder(lower, source, entry.name, entry.children);
      AppendVisits(visits, more);
      visits := visits + more;
      provisional, skipped := provisional + found, skipped + rejected;
    }
    assert entries[..|entries|] == entries;
  }

  method WalkFolder(lower: string -> string, source: string, date: string, children: seq<Child>)
    returns (provisional: seq<FileRecord>, skipped: seq<SkippedFile>, ghost visits: seq<Visit>)
    ensures visits == VisitChildren(lower, source, date, children)
    ensures provisional == Provisional(visits) && skipped == Skipped(visits)
  {
    hide Provisional, Skipped;
    NoVisits();
    provisional, skipped, visits := [], [], [];
    for i := 0 to |children|
      invariant visits == VisitChildren(lower, source, date, children[..i])
      invariant provisional == Provisional(visits) && skipped == Skipped(visits)
    {
      assert children[..i + 1][..i] == children[..i];
      var visit := VisitChild(lower, source, date, children[i]);
      VisitSnoc(visits, visit);
      visits := visits + [visit];
      match visit {
        case Found(record) => provisional := provisional + [record];
        case Skip(file) => skipped := skipped + [file];
      }
    }
    assert children[..|children|] == children;
  }

  lemma NoVisits()
    ensures Provisional([]) == [] && Skipped([]) == []
  {
  }

  lemma {:induction false} VisitSnoc(vs: seq<Visit>, v: Visit)
    ensures Provisional(vs + [v]) == Provisional(vs) + if v.Found? then [v.record] else []
    ensures Skipped(vs + [v]) == Skipped(vs) + if v.Skip? then [v.file] else []
  {
    assert (vs + [v])[..|vs|] == vs;
  }

  lemma {:induction false} AppendVisits(vs: seq<Visit>, ws: seq<Visit>)
    ensures Provisional(vs + ws) == Provisional(vs) + Provisional(ws)
    ensures Skipped(vs + ws) == Skipped(vs) + Skipped(ws)
  {
    if ws == [] {
      assert vs + ws == vs;
    } else {
      AppendVisits(vs, ws[..|ws| - 1]);
      assert (vs + ws)[..|vs + ws| - 1] == vs + ws[..|ws| - 1];
    }
  }

  method GroupBySlug(provisional: seq<FileRecord>) returns (bySlug: OrderedMap<string, seq<FileRecord>>)
    ensures bySlug == Groups(SlugOf, provisional)
  {
    bySlug := Empty();
    for i := 0 to |provisional|
      invariant bySlug == Groups(SlugOf, provisional[..i])
    {
      GroupsSnoc(SlugOf, provisional[..i], provisional[i]);
      assert provisional[..i + 1] == provisional[..i] + [provisional[i]];
      bySlug := AddToGroup(bySlug, provisional[i].slug, provisional[i]);
    }
    assert provisional[..|provisional|] == provisional;
  }

  /** Keeps the groups of one and reports every member of the others. */
  method SplitGroups(ghost provisional: seq<FileRecord>, bySlug: OrderedMap<string, seq<FileRecord>>)
    returns (records: seq<FileRecord>, collided: seq<FileRecord>)
    requires bySlug == Groups(SlugOf, provisional)
    ensures records == Kept(provisional, bySlug.keys) && collided == Collided(provisional, bySlug.keys)
  {
    hide Groups, WithKey;
    var slugs := bySlug.keys;
    records, collided := [], [];
    for i := 0 to |slugs|
      invariant records == Kept(provisional, slugs[..i]) && collided == Collided(provisional, slugs[..i])
    {
      assert slugs[..i + 1][..i] == slugs[..i];
      assert slugs[i] in bySlug.keys;
      GroupsAreClasses(SlugOf, provisional, slugs[i]);
      var recs := bySlug.entries[slugs[i]];
      assert records + [] == records && collided + [] == collided;
      if |recs| > 1 {
        collided := collided + recs;
      } else {
        assert [recs[0]] == recs;
        records := records + [recs[0]];
      }
    }
    assert slugs[..|slugs|] == slugs;
  }

  /** Every page under the tree, and every reason to leave one out. */
  method Scan(lower: string -> string, isDir: bool, sources: seq<Source>, only: Option<string>)
    returns (result: ScanResult)
    ensures result == if isDir then ScanSpec(lower, sources, only) else ScanResult([], [])
  {
    if !isDir {
      return ScanResult([], []);
    }
    var provisional, skipped := Walk(lower, sources, only);
    var bySlug := GroupBySlug(provisional);
    var records, collided := SplitGroups(provisional, bySlug);
    result := ScanResult(records, skipped + AsCollisions(collided));
  }

  // ----- what the collision filter does

  lemma {:induction false} KeptSnoc(all: seq<FileRecord>, slugs: seq<string>, slug: string)
    ensures var group := WithKey(SlugOf, slug, all);
            Kept(all, slugs + [slug]) == Kept(all, slugs) + if |group| == 1 then group else []
  {
    assert (slugs + [slug])[..|slugs|] == slugs;
  }

  lemma {:induction false} UnsharedSnoc(all: seq<FileRecord>, rs: seq<FileRecord>, r: FileRecord)
    ensures Unshared(all, rs + [r]) == Unshared(all, rs) + if UniqueSlug(all, r) then [r] else []
    ensures Shared(all, rs + [r]) == Shared(all, rs) + if UniqueSlug(all, r) then [] else [r]
  {
    assert (rs + [r])[..|rs|] == rs;
  }

  /** One more record adds its group if its slug is new, and an already shared slug otherwise. */
  lemma {:induction false} KeptStep(pre: seq<FileRecord>, r: FileRecord, post: seq<FileRecord>)
    requires var all := pre + [r] + post; Kept(all, Groups(SlugOf, pre).keys) == Unshared(all, pre)
    ensures var all := pre + [r] + post; Kept(all, Groups(SlugOf, pre + [r]).keys) == Unshared(all, pre + [r])
  {
    hide Groups, WithKey, Kept, Unshared;
    var all := pre + [r] + post;
    GroupsSnoc(SlugOf, pre, r);
    GroupsAreClasses(SlugOf, pre, r.slug);
    WithKeySnoc(SlugOf, r.slug, pre, r);
    WithKeyConcat(SlugOf, r.slug, pre + [r], post);
    KeptSnoc(all, Groups(SlugOf, pre).keys, r.slug);
    UnsharedSnoc(all, pre, r);
    assert Unshared(all, pre) + [] == Unshared(all, pre);
    if |WithKey(SlugOf, r.slug, all)| == 1 {
      assert WithKey(SlugOf, r.slug, all)[0] == r;
    }
  }

  lemma {:induction false} NothingKept(all: seq<FileRecord>)
    ensures Groups<string, FileRecord>(SlugOf, []).keys == [] && Kept(all, []) == [] && Unshared(all, []) == []
  {
  }

  /** The kept records are, in order, those whose slug nobody else has. */
  lemma {:induction false} KeptIsUnshared(all: seq<FileRecord>, n: nat)
    requires n <= |all|
    ensures Kept(all, Groups(SlugOf, all[..n]).keys) == Unshared(all, all[..n])
  {
    hide Kept, Groups, Unshared;
    if n == 0 {
      assert all[..0] == [];
      NothingKept(all);
    } else {
      KeptIsUnshared(all, n - 1);
      assert all == all[..n - 1] + [all[n - 1]] + all[n..];
      assert all[..n] == all[..n - 1] + [all[n - 1]];
      KeptStep(all[..n - 1], all[n - 1], all[n..]);
    }
  }

  lemma {:induction false} KeptAndCollided(all: seq<FileRecord>, slugs: seq<string>)
    ensures multiset(Kept(all, slugs)) + multiset(Collided(all, slugs)) == multiset(Gather(SlugOf, slugs, all))
  {
    hide WithKey;
    if slugs != [] {
      KeptAndCollided(all, slugs[..|slugs| - 1]);
    }
  }

  lemma {:induction false} UnsharedAndShared(all: seq<FileRecord>, rs: seq<FileRecord>)
    ensures multiset(Unshared(all, rs)) + multiset(Shared(all, rs)) == multiset(rs)
  {
    hide UniqueSlug;
    if rs != [] {
      var pre, r := rs[..|rs| - 1], rs[|rs| - 1];
      UnsharedAndShared(all, pre);
      assert rs == pre + [r];
      UnsharedSnoc(all, pre, r);
    }
  }

  /** Exactly the records with a slug of their own are kept; all others are reported as collisions. */
  lemma {:induction false} CollisionsAreRejected(provisional: seq<FileRecord>, skipped: seq<SkippedFile>)
    ensures RejectCollisions(provisional, skipped).records == Unshared(provisional, provisional)
    ensures var collided := Collided(provisional, Groups(SlugOf, provisional).keys);
            && RejectCollisions(provisional, skipped).skipped == skipped + AsCollisions(collided)
            && multiset(collided) == multiset(Shared(provisional, provisional))
            && multiset(Unshared(provisional, provisional)) + multiset(collided) == multiset(provisional)
  {
    hide Groups, WithKey, Kept, Collided, Unshared, Shared, Gather;
    var slugs := Groups(SlugOf, provisional).keys;
    assert provisional[..|provisional|] == provisional;
    KeptIsUnshared(provisional, |provisional|);
    GroupsAreClasses(SlugOf, provisional, "");
    forall r | r in provisional ensures SlugOf(r) in slugs {
      GroupsAreClasses(SlugOf, provisional, r.slug);
      WithKeyMembers(SlugOf, r.slug, provisional, r);
    }
    GatherIsRearrangement(SlugOf, slugs, provisional);
    KeptAndCollided(provisional, slugs);
    UnsharedAndShared(provisional, provisional);
    var kept := multiset(Unshared(provisional, provisional));
    assert multiset(Collided(provisional, slugs)) + kept == multiset(provisional);
    assert multiset(Shared(provisional, provisional)) + kept == multiset(provisional);
    CancelMultiset(multiset(Collided(provisional, slugs)), multiset(Shared(provisional, provisional)), kept);
  }

  function PathOf(r: FileRecord): string { r.relPath }

  function SkippedPath(f: SkippedFile): string { f.relPath }

  function VisitedPath(v: Visit): string {
    match v case Found(r) => r.relPath case Skip(f) => f.relPath
  }

  lemma {:induction false} VisitsAreSplit(vs: seq<Visit>)
    ensures multiset(Map(PathOf, Provisional(vs))) + multiset(Map(SkippedPath, Skipped(vs))) == multiset(Map(VisitedPath, vs))
  {
    hide Map;
    NoPaths();
    if vs != [] {
      var m := |vs| - 1;
      VisitsAreSplit(vs[..m]);
      assert vs == vs[..m] + [vs[m]];
      MapConcatMultiset(VisitedPath, vs[..m], [vs[m]]);
      OnePath(VisitedPath, vs[m]);
      match vs[m] {
        case Found(r) =>
          MapConcatMultiset(PathOf, Provisional(vs[..m]), [r]);
          OnePath(PathOf, r);
          assert Skipped(vs[..m]) + [] == Skipped(vs[..m]);
        case Skip(f) =>
          MapConcatMultiset(SkippedPath, Skipped(vs[..m]), [f]);
          OnePath(SkippedPath, f);
          assert Provisional(vs[..m]) + [] == Provisional(vs[..m]);
      }
    }
  }

  lemma NoPaths()
    ensures Map(PathOf, []) == [] && Map(SkippedPath, []) == [] && Map(VisitedPath, []) == []
  {
  }

  lemma OnePath<T>(path: T -> string, x: T)
    ensures Map(path, [x]) == [path(x)]
  {
  }

  /**
    Every visited item ends up, under its own path, either as a record or as a skip, once; and what
    the walk skipped stays skipped for the reason it gave.
  */
  lemma {:induction false} ScanAccountsForEveryItem(lower: string -> string, sources: seq<Source>, only: Option<string>)
    ensures var vs, r := VisitSources(lower, sources, only), ScanSpec(lower, sources, only);
            && multiset(Map(PathOf, r.records)) + multiset(Map(SkippedPath, r.skipped)) == multiset(Map(VisitedPath, vs))
            && Skipped(vs) <= r.skipped
            && forall i | |Skipped(vs)| <= i < |r.skipped| :: r.skipped[i].reason == SlugCollision
  {
    hide VisitSources, Provisional, Skipped, Collided, Unshared, Groups, Kept, Map;
    var vs := VisitSources(lower, sources, only);
    var provisional := Provisional(vs);
    CollisionsAreRejected(provisional, Skipped(vs));
    VisitsAreSplit(vs);
    var kept, collided := Unshared(provisional, provisional), Collided(provisional, Groups(SlugOf, provisional).keys);
    MapMultiset(PathOf, kept + collided, provisional);
    MapConcatMultiset(PathOf, kept, collided);
    MapConcatMultiset(SkippedPath, Skipped(vs), AsCollisions(collided));
    CollisionPaths(collided);
  }

  lemma CollisionPaths(rs: seq<FileRecord>)
    ensures Map(SkippedPath, AsCollisions(rs)) == Map(PathOf, rs)
    ensures forall i | 0 <= i < |rs| :: AsCollisions(rs)[i].reason == SlugCollision
  {
  }

  // ----- records of one scan have different paths

  /** Directory listings: no name twice, and no name with a slash. */
  ghost predicate Listing(names: seq<string>) {
    && (forall i, j | 0 <= i < j < |names| :: names[i] != names[j])
    && (forall i | 0 <= i < |names| :: '/' !in names[i])
  }

  function ChildNames(children: seq<Child>): (r: seq<string>)
    ensures |r| == |children|
  {
    seq(|children|, i requires 0 <= i < |children| => children[i].name)
  }

  function EntryNames(entries: seq<Entry>): (r: seq<string>)
    ensures |r| == |entries|
  {
    seq(|entries|, i requires 0 <= i < |entries| => entries[i].name)
  }

  function SourceNames(sources: seq<Source>): (r: seq<string>)
    ensures |r| == |sources|
  {
    seq(|sources|, i requires 0 <= i < |sources| => sources[i].name)
  }

  ghost predicate ListedEntry(e: Entry) {
    e.Folder? ==> Listing(ChildNames(e.children))
  }

  ghost predicate ListedSource(s: Source) {
    s.Root? ==> Listing(EntryNames(s.entries)) && forall i | 0 <= i < |s.entries| :: ListedEntry(s.entries[i])
  }

  ghost predicate ListedTree(sources: seq<Source>) {
    Listing(SourceNames(sources)) && forall i | 0 <= i < |sources| :: ListedSource(sources[i])
  }

  /** How the walk names a record. */
  ghost predicate WellNamed(lower: string -> string, r: FileRecord) {
    && r.relPath == r.source + "/" + r.date + "/" + (r.title + ".md")
    && r.slug == PageSlug(r.source, r.date, Slugify(lower, r.title)) && Slugify(lower, r.title) != ""
    && '/' !in r.source && '/' !in r.date && DateLength(r.date) && '/' !in r.title
  }

  ghost predicate SameFile(r: FileRecord, q: FileRecord) {
    r.source == q.source && r.date == q.date && r.title == q.title
  }

  ghost predicate AllDifferent(rs: seq<FileRecord>) {
    forall i, j | 0 <= i < j < |rs| :: !SameFile(rs[i], rs[j])
  }

  lemma ListingPrefix(names: seq<string>, name: string)
    requires Listing(names + [name])
    ensures Listing(names) && name !in names && '/' !in name
  {
    var all := names + [name];
    assert forall i | 0 <= i < |names| :: all[i] == names[i];
    assert all[|names|] == name;
  }

  /** The records of one folder: well named, of different titles, all listed there. */
  ghost predicate OfFolder(lower: string -> string, rs: seq<FileRecord>, source: string, date: string, names: seq<string>) {
    && AllDifferent(rs)
    && forall i | 0 <= i < |rs| ::
         WellNamed(lower, rs[i]) && rs[i].source == source && rs[i].date == date && rs[i].title + ".md" in names
  }

  lemma FoundIsWellNamed(lower: string -> string, source: string, date: string, child: Child)
    requires '/' !in source && IsDate(date) && '/' !in child.name && VisitChild(lower, source, date, child).Found?
    ensures OfFolder(lower, [VisitChild(lower, source, date, child).record], source, date, [child.name])
  {
    var r := VisitChild(lower, source, date, child).record;
    assert r.title + ".md" == child.name;
    assert child.name in [child.name];
    forall i | 0 <= i < |date| ensures date[i] != '/' {
    }
  }

  lemma FolderConcat(lower: string -> string, rs: seq<FileRecord>, qs: seq<FileRecord>, source: string, date: string,
                     names: seq<string>, more: seq<string>)
    requires OfFolder(lower, rs, source, date, names) && OfFolder(lower, qs, source, date, more)
    requires forall n | n in more :: n !in names
    ensures OfFolder(lower, rs + qs, source, date, names + more)
  {
    var all := rs + qs;
    forall i, j | 0 <= i < j < |all| ensures !SameFile(all[i], all[j]) {
      if i < |rs| <= j {
        assert rs[i].title + ".md" in names && qs[j - |rs|].title + ".md" in more;
      }
    }
  }

  lemma {:induction false} FolderWellNamed(lower: string -> string, source: string, date: string, children: seq<Child>)
    requires '/' !in source && IsDate(date) && Listing(ChildNames(children))
    ensures OfFolder(lower, Provisional(VisitChildren(lower, source, date, children)), source, date, ChildNames(children))
  {
    if children != [] {
      var pre, child := children[..|children| - 1], children[|children| - 1];
      assert ChildNames(children) == ChildNames(pre) + [child.name];
      ListingPrefix(ChildNames(pre), child.name);
      FolderWellNamed(lower, source, date, pre);
      var visits, visit := VisitChildren(lower, source, date, pre), VisitChild(lower, source, date, child);
      VisitSnoc(visits, visit);
      if visit.Found? {
        FoundIsWellNamed(lower, source, date, child);
        FolderConcat(lower, Provisional(visits), [visit.record], source, date, ChildNames(pre), [child.name]);
      } else {
        FolderConcat(lower, Provisional(visits), [], source, date, ChildNames(pre), [child.name]);
        assert Provisional(visits) + [] == Provisional(visits);
      }
    }
  }

  /** The records of one source: well named, different, of dates listed there. */
  ghost predicate OfSource(lower: string -> string, rs: seq<FileRecord>, source: string, dates: seq<string>) {
    && AllDifferent(rs)
    && forall i | 0 <= i < |rs| :: WellNamed(lower, rs[i]) && rs[i].source == source && rs[i].date in dates
  }

  lemma SourceConcat(lower: string -> string, rs: seq<FileRecord>, qs: seq<FileRecord>, source: string,
                     dates: seq<string>, more: seq<string>)
    requires OfSource(lower, rs, source, dates) && OfSource(lower, qs, source, more)
    requires forall d | d in more :: d !in dates
    ensures OfSource(lower, rs + qs, source, dates + more)
  {
    var all := rs + qs;
    forall i, j | 0 <= i < j < |all| ensures !SameFile(all[i], all[j]) {
      if i < |rs| <= j {
        assert rs[i].date in dates && qs[j - |rs|].date in more;
      }
    }
  }

  lemma EntryWellNamed(lower: string -> string, source: string, entry: Entry)
    requires '/' !in source && ListedEntry(entry)
    ensures OfSource(lower, Provisional(VisitEntry(lower, source, entry)), source, [entry.name])
  {
    if entry.Folder? && IsDate(entry.name) {
      FolderWellNamed(lower, source, entry.name, entry.children);
      assert entry.name in [entry.name];
    } else {
      var visits := VisitEntry(lower, source, entry);
      assert |visits| == 1 && visits[0].Skip?;
      NoVisits();
      VisitSnoc([], visits[0]);
      assert visits == [] + [visits[0]];
    }
  }

  lemma {:induction false} SourceWellNamed(lower: string -> string, source: string, entries: seq<Entry>)
    requires '/' !in source && Listing(EntryNames(entries)) && forall i | 0 <= i < |entries| :: ListedEntry(entries[i])
    ensures OfSource(lower, Provisional(VisitEntries(lower, source, entries)), source, EntryNames(entries))
  {
    if entries != [] {
      var pre, entry := entries[..|entries| - 1], entries[|entries| - 1];
      assert EntryNames(entries) == EntryNames(pre) + [entry.name];
      ListingPrefix(EntryNames(pre), entry.name);
      SourceWellNamed(lower, source, pre);
      EntryWellNamed(lower, source, entry);
      AppendVisits(VisitEntries(lower, source, pre), VisitEntry(lower, source, entry));
      SourceConcat(lower, Provisional(VisitEntries(lower, source, pre)), Provisional(VisitEntry(lower, source, entry)),
                   source, EntryNames(pre), [entry.name]);
    }
  }

  ghost predicate OfTree(lower: string -> string, rs: seq<FileRecord>, sources: seq<string>) {
    && AllDifferent(rs)
    && forall i | 0 <= i < |rs| :: WellNamed(lower, rs[i]) && rs[i].source in sources
  }

  lemma TreeConcat(lower: string -> string, rs: seq<FileRecord>, qs: seq<FileRecord>, sources: seq<string>, more: seq<string>)
    requires OfTree(lower, rs, sources) && OfTree(lower, qs, more)
    requires forall s | s in more :: s !in sources
    ensures OfTree(lower, rs + qs, sources + more)
  {
    var all := rs + qs;
    forall i, j | 0 <= i < j < |all| ensures !SameFile(all[i], all[j]) {
      if i < |rs| <= j {
        assert rs[i].source in sources && qs[j - |rs|].source in more;
      }
    }
  }

  lemma {:induction false} TreeWellNamed(lower: string -> string, sources: seq<Source>, only: Option<string>)
    requires ListedTree(sources)
    ensures OfTree(lower, Provisional(VisitSources(lower, sources, only)), SourceNames(sources))
  {
    if sources != [] {
      var pre, s := sources[..|sources| - 1], sources[|sources| - 1];
      assert SourceNames(sources) == SourceNames(pre) + [s.name];
      ListingPrefix(SourceNames(pre), s.name);
      TreeWellNamed(lower, pre, only);
      var before := VisitSources(lower, pre, only);
      if s.Stray? || (only.Some? && s.name != only.value) {
        TreeConcat(lower, Provisional(before), [], SourceNames(pre), [s.name]);
        assert Provisional(before) + [] == Provisional(before) && before + [] == before;
      } else {
        assert ListedSource(s);
        SourceWellNamed(lower, s.name, s.entries);
        AppendVisits(before, VisitEntries(lower, s.name, s.entries));
        assert s.name in [s.name];
        TreeConcat(lower, Provisional(before), Provisional(VisitEntries(lower, s.name, s.entries)), SourceNames(pre), [s.name]);
      }
    }
  }

  lemma PathInjective(lower: string -> string, r: FileRecord, q: FileRecord)
    requires WellNamed(lower, r) && WellNamed(lower, q) && r.relPath == q.relPath
    ensures SameFile(r, q)
  {
    var p := r.relPath;
    var n, m := |r.source|, |q.source|;
    assert p[n] == '/' && p[m] == '/';
    assert forall i | 0 <= i < n :: p[i] == r.source[i];
    assert forall i | 0 <= i < m :: p[i] == q.source[i];
    assert n == m;
    assert r.source == p[..n] && q.source == p[..m];
    var d, e := n + 1 + |r.date|, n + 1 + |q.date|;
    assert p[d] == '/' && p[e] == '/';
    assert forall i | n < i < d :: p[i] == r.date[i - n - 1];
    assert forall i | n < i < e :: p[i] == q.date[i - n - 1];
    assert d == e;
    assert r.date == p[n + 1..d] && q.date == p[n + 1..e];
    assert r.title + ".md" == p[d + 1..] && q.title + ".md" == p[d + 1..];
    assert r.title == (r.title + ".md")[..|r.title|] && q.title == (q.title + ".md")[..|q.title|];
  }

  ghost predicate DistinctPaths(rs: seq<FileRecord>) {
    forall i, j | 0 <= i < j < |rs| :: rs[i].relPath != rs[j].relPath
  }

  /** No two records of a scan share a path, and two share a slug only within one source and date. */
  lemma {:induction false} ScannedPathsDiffer(lower: string -> string, sources: seq<Source>, only: Option<string>)
    requires ListedTree(sources)
    ensures var found := Provisional(VisitSources(lower, sources, only));
            && DistinctPaths(found) && DistinctPaths(ScanSpec(lower, sources, only).records)
            && forall i, j | 0 <= i < j < |found| && found[i].slug == found[j].slug ::
                 found[i].source == found[j].source && found[i].date == found[j].date
                 && Slugify(lower, found[i].title) == Slugify(lower, found[j].title)
  {
    hide VisitSources, Provisional, Skipped, Groups, Kept;
    var found := Provisional(VisitSources(lower, sources, only));
    TreeWellNamed(lower, sources, only);
    forall i, j | 0 <= i < j < |found| ensures found[i].relPath != found[j].relPath {
      if found[i].relPath == found[j].relPath {
        PathInjective(lower, found[i], found[j]);
      }
    }
    forall i, j | 0 <= i < j < |found| && found[i].slug == found[j].slug
      ensures found[i].source == found[j].source && found[i].date == found[j].date
      ensures Slugify(lower, found[i].title) == Slugify(lower, found[j].title)
    {
      PageSlugInjective(found[i].source, found[i].date, Slugify(lower, found[i].title),
                        found[j].source, found[j].date, Slugify(lower, found[j].title));
    }
    CollisionsAreRejected(found, Skipped(VisitSources(lower, sources, only)));
    UnsharedDistinct(found, found);
  }

  lemma {:induction false} UnsharedDistinct(all: seq<FileRecord>, rs: seq<FileRecord>)
    requires DistinctPaths(rs)
    ensures DistinctPaths(Unshared(all, rs))
    ensures forall r | r in Unshared(all, rs) :: r in rs
  {
    hide UniqueSlug;
    if rs != [] {
      var pre, r := rs[..|rs| - 1], rs[|rs| - 1];
      var kept := Unshared(all, pre);
      UnsharedDistinct(all, pre);
      forall i | 0 <= i < |kept| ensures kept[i].relPath != r.relPath {
        assert kept[i] in pre;
        var k :| 0 <= k < |pre| && pre[k] == kept[i];
        assert rs[k].relPath != rs[|pre|].relPath;
      }
    }
  }

  // ----- what the walk finds and why it skips

  lemma {:induction false} SplitMembers(vs: seq<Visit>, r: FileRecord, f: SkippedFile)
    ensures r in Provisional(vs) <==> Found(r) in vs
    ensures f in Skipped(vs) <==> Skip(f) in vs
  {
    if vs != [] {
      SplitMembers(vs[..|vs| - 1], r, f);
      assert vs == vs[..|vs| - 1] + [vs[|vs| - 1]];
    }
  }

  /** The entry stands in the directory of a source that is walked. */
  ghost predicate EntryAt(sources: seq<Source>, only: Option<string>, source: string, entry: Entry) {
    && (only == None || only == Some(source))
    && exists entries :: Root(source, entries) in sources && entry in entries
  }

  lemma {:induction false} ChildVisits(lower: string -> string, source: string, date: string, children: seq<Child>, v: Visit)
    ensures v in VisitChildren(lower, source, date, children)
            <==> exists child :: child in children && v == VisitChild(lower, source, date, child)
  {
    hide VisitChild;
    if children != [] {
      var pre, last := children[..|children| - 1], children[|children| - 1];
      ChildVisits(lower, source, date, pre, v);
      assert children == pre + [last];
    }
  }

  lemma {:induction false} EntryVisits(lower: string -> string, source: string, entries: seq<Entry>, v: Visit)
    ensures v in VisitEntries(lower, source, entries)
            <==> exists entry :: entry in entries && v in VisitEntry(lower, source, entry)
  {
    hide VisitEntry;
    if entries != [] {
      var pre, last := entries[..|entries| - 1], entries[|entries| - 1];
      EntryVisits(lower, source, pre, v);
      assert entries == pre + [last];
    }
  }

  /** An entry of a walked source, with one of the visits it gives rise to. */
  ghost predicate VisitAt(lower: string -> string, sources: seq<Source>, only: Option<string>, v: Visit,
                          source: string, entry: Entry) {
    EntryAt(sources, only, source, entry) && v in VisitEntry(lower, source, entry)
  }

  lemma {:induction false} SourceVisits(lower: string -> string, sources: seq<Source>, only: Option<string>, v: Visit)
    ensures v in VisitSources(lower, sources, only) <==> exists source, entry :: VisitAt(lower, sources, only, v, source, entry)
  {
    hide VisitEntry, VisitEntries;
    if sources != [] {
      var pre, last := sources[..|sources| - 1], sources[|sources| - 1];
      SourceVisits(lower, pre, only, v);
      assert sources == pre + [last];
      if source, entry :| VisitAt(lower, sources, only, v, source, entry) {
        var entries :| Root(source, entries) in sources && entry in entries;
        if Root(source, entries) in pre {
          assert VisitAt(lower, pre, only, v, source, entry);
        } else {
          EntryVisits(lower, source, entries, v);
        }
      }
      if source, entry :| VisitAt(lower, pre, only, v, source, entry) {
        assert VisitAt(lower, sources, only, v, source, entry);
      }
      if last.Root? && (only == None || only == Some(last.name)) {
        EntryVisits(lower, last.name, last.entries, v);
        if entry :| entry in last.entries && v in VisitEntry(lower, last.name, entry) {
          assert Root(last.name, last.entries) in sources;
          assert VisitAt(lower, sources, only, v, last.name, entry);
        }
      }
    }
  }

  /** A slug is empty iff the lower-cased title has no ASCII letter or digit. */
  lemma {:induction false} SlugIsEmpty(lower: string -> string, title: string)
    ensures Slugify(lower, title) == "" <==> forall c | c in lower(title) :: !('a' <= c <= 'z') && !('0' <= c <= '9')
  {
    SlugIsJoinedRuns(lower, title);
    NoRuns(lower(title));
    JoinEnds(Runs(lower(title)));
    JoinNothing();
  }

  lemma {:induction false} NoRuns(s: string)
    ensures Runs(s) == [] <==> forall c | c in s :: !Alnum(c)
    decreases |s|
  {
    hide DropJunk;
    if s != "" && !Alnum(s[0]) {
      var junk := DropJunkDrops(s);
      NoRuns(DropJunk(s));
    } else if s != "" {
      assert s[0] in s;
    }
  }

  lemma {:induction false} DropJunkDrops(s: string) returns (junk: string)
    ensures s == junk + DropJunk(s) && forall c | c in junk :: !Alnum(c)
  {
    junk := "";
    if s != "" && !Alnum(s[0]) {
      var rest := DropJunkDrops(s[1..]);
      junk := [s[0]] + rest;
    }
  }

  /** The file of a record: a UTF-8 Markdown document, with a letter or digit in its name, in a date directory. */
  ghost predicate RecordOf(lower: string -> string, r: FileRecord, source: string, date: string, child: Child) {
    && child.Document? && child.utf8 && child.name == r.title + ".md"
    && (exists c :: c in lower(r.title) && ('a' <= c <= 'z' || '0' <= c <= '9'))
    && r.source == source && r.date == date && r.contentHash == child.contentHash && r.size == child.size
    && r.relPath == source + "/" + date + "/" + child.name
    && r.slug == source + "/" + date + "-" + Slugify(lower, r.title)
  }

  /** Why a document or directory inside a date directory is passed over. */
  ghost predicate ReasonFor(lower: string -> string, child: Child, reason: Reason) {
    match reason
    case TooDeep => child.SubDir?
    case NotMd => child.Document? && !exists title :: child.name == title + ".md"
    case NonUtf8 => child.Document? && !child.utf8 && exists title :: child.name == title + ".md"
    case EmptySlug =>
      && child.Document? && child.utf8
      && exists title :: child.name == title + ".md"
                         && forall c | c in lower(title) :: !('a' <= c <= 'z') && !('0' <= c <= '9')
    case _ => false
  }

  lemma MarkdownEnds(name: string, title: string)
    ensures IsMarkdown(name) ==> name == name[..|name| - 3] + ".md"
    ensures name == title + ".md" ==> IsMarkdown(name) && name[..|name| - 3] == title
  {
  }

  lemma VisitIsRecord(lower: string -> string, r: FileRecord, source: string, date: string, child: Child)
    ensures VisitChild(lower, source, date, child) == Found(r) <==> RecordOf(lower, r, source, date, child)
    ensures VisitChild(lower, source, date, child) == Found(r) ==> r.source == source && r.date == date
  {
    hide Slugify;
    MarkdownEnds(child.name, r.title);
    SlugIsEmpty(lower, r.title);
  }

  lemma VisitIsSkip(lower: string -> string, f: SkippedFile, source: string, date: string, child: Child)
    ensures VisitChild(lower, source, date, child) == Skip(f)
            <==> f.relPath == source + "/" + date + "/" + child.name && ReasonFor(lower, child, f.reason)
  {
    hide Slugify;
    var title := if IsMarkdown(child.name) then child.name[..|child.name| - 3] else "";
    MarkdownEnds(child.name, title);
    forall t | child.name == t + ".md" ensures t == title && IsMarkdown(child.name) {
      MarkdownEnds(child.name, t);
    }
    SlugIsEmpty(lower, title);
  }

  /** The records before collision checks are those of the files in date directories of the walked sources. */
  lemma {:induction false} ScanFinds(lower: string -> string, sources: seq<Source>, only: Option<string>, r: FileRecord)
    ensures r in Provisional(VisitSources(lower, sources, only))
            <==> exists children, child ::
                   && EntryAt(sources, only, r.source, Folder(r.date, children)) && IsDate(r.date)
                   && child in children && RecordOf(lower, r, r.source, r.date, child)
  {
    hide VisitSources, Provisional, Skipped, VisitChild, VisitChildren, EntryAt, RecordOf, IsDate;
    var vs := VisitSources(lower, sources, only);
    SplitMembers(vs, r, SkippedFile("", NotMd));
    SourceVisits(lower, sources, only, Found(r));
    if source, entry :| VisitAt(lower, sources, only, Found(r), source, entry) {
      ChildVisits(lower, source, entry.name, entry.children, Found(r));
      var child :| child in entry.children && Found(r) == VisitChild(lower, source, entry.name, child);
      VisitIsRecord(lower, r, source, entry.name, child);
      assert entry == Folder(r.date, entry.children);
    }
    if children, child :| EntryAt(sources, only, r.source, Folder(r.date, children)) && IsDate(r.date)
                          && child in children && RecordOf(lower, r, r.source, r.date, child) {
      VisitIsRecord(lower, r, r.source, r.date, child);
      ChildVisits(lower, r.source, r.date, children, Found(r));
      assert VisitAt(lower, sources, only, Found(r), r.source, Folder(r.date, children));
    }
  }

  /** Skipped are loose files, directories that are no dates, and in date directories what `ReasonFor` says. */
  ghost predicate SkippedAt(lower: string -> string, f: SkippedFile, source: string, entry: Entry) {
    match entry
    case Loose(name) => f == SkippedFile(source + "/" + name, NoDateDir)
    case Folder(name, children) =>
      if !IsDate(name) then f == SkippedFile(source + "/" + name, BadDate)
      else exists child :: && child in children && f.relPath == source + "/" + name + "/" + child.name
                           && ReasonFor(lower, child, f.reason)
  }

  lemma {:induction false} ScanSkips(lower: string -> string, sources: seq<Source>, only: Option<string>, f: SkippedFile)
    ensures f in Skipped(VisitSources(lower, sources, only))
            <==> exists source, entry :: EntryAt(sources, only, source, entry) && SkippedAt(lower, f, source, entry)
  {
    hide VisitSources, Provisional, Skipped, VisitEntry, EntryAt, SkippedAt;
    var vs := VisitSources(lower, sources, only);
    SplitMembers(vs, FileRecord("", "", "", "", "", "", 0), f);
    SourceVisits(lower, sources, only, Skip(f));
    forall source, entry
      ensures VisitAt(lower, sources, only, Skip(f), source, entry)
              <==> EntryAt(sources, only, source, entry) && SkippedAt(lower, f, source, entry)
    {
      EntrySkips(lower, f, source, entry);
    }
  }

  lemma EntrySkips(lower: string -> string, f: SkippedFile, source: string, entry: Entry)
    ensures Skip(f) in VisitEntry(lower, source, entry) <==> SkippedAt(lower, f, source, entry)
  {
    hide VisitChild, VisitChildren, ReasonFor, IsDate;
    if entry.Folder? && IsDate(entry.name) {
      ChildVisits(lower, source, entry.name, entry.children, Skip(f));
      forall child | child in entry.children
        ensures VisitChild(lower, source, entry.name, child) == Skip(f)
                <==> f.relPath == source + "/" + entry.name + "/" + child.name && ReasonFor(lower, child, f.reason)
      {
        VisitIsSkip(lower, f, source, entry.name, child);
      }
    }
  }

  /** Sources are walked in the order listed. */
  lemma {:induction false} WalkInOrder(lower: string -> string, sources: seq<Source>, more: seq<Source>, only: Option<string>)
    ensures VisitSources(lower, sources + more, only) == VisitSources(lower, sources, only) + VisitSources(lower, more, only)
  {
    hide VisitSources;
    if more == [] {
      assert sources + more == sources;
      SourcesSnoc(lower, [], Stray(""), only);
    } else {
      var m := |more| - 1;
      WalkInOrder(lower, sources, more[..m], only);
      assert sources + more == (sources + more[..m]) + [more[m]] && more == more[..m] + [more[m]];
      SourcesSnoc(lower, sources + more[..m], more[m], only);
      SourcesSnoc(lower, more[..m], more[m], only);
    }
  }

  lemma {:induction false} SourcesSnoc(lower: string -> string, sources: seq<Source>, s: Source, only: Option<string>)
    ensures VisitSources(lower, [], only) == []
    ensures VisitSources(lower, sources + [s], only)
         == VisitSources(lower, sources, only)
          + if s.Stray? || (only.Some? && s.name != only.value) then [] else VisitEntries(lower, s.name, s.entries)
  {
    hide VisitEntries;
    assert (sources + [s])[..|sources|] == sources;
  }

  /** On ASCII names the pattern asks for eight digits and two dashes, with room for a last newline. */
  lemma AsciiDates(name: string)
    requires forall c | c in name :: c < '\U{80}'
    ensures IsDate(name)
            <==> && (|name| == 10 || (|name| == 11 && name[10] == '\n')) && name[4] == '-' && name[7] == '-'
                 && forall i | 0 <= i < 10 && i != 4 && i != 7 :: '0' <= name[i] <= '9'
  {
    if |name| >= 10 {
      assert forall i | 0 <= i < 10 :: name[i] in name;
    }
  }

  /** The positions of the records with a slug. */
  ghost function Sharing(all: seq<FileRecord>, slug: string): set<int> {
    set i | 0 <= i < |all| && all[i].slug == slug
  }

  lemma {:induction false} SharingSize(all: seq<FileRecord>, slug: string)
    ensures |WithKey(SlugOf, slug, all)| == |Sharing(all, slug)|
  {
    hide WithKey;
    if all == [] {
      NothingShared(slug);
    } else {
      var m := |all| - 1;
      SharingSize(all[..m], slug);
      WithKeySnoc(SlugOf, slug, all[..m], all[m]);
      assert all == all[..m] + [all[m]];
      var before := Sharing(all[..m], slug);
      assert Sharing(all, slug) == if all[m].slug == slug then before + {m} else before;
    }
  }

  lemma {:induction false} NothingShared(slug: string)
    ensures WithKey(SlugOf, slug, []) == [] && Sharing([], slug) == {}
  {
  }

  /** A record is kept iff no other one has its slug. */
  lemma KeptIffAlone(all: seq<FileRecord>, i: nat)
    requires i < |all|
    ensures UniqueSlug(all, all[i]) <==> forall j | 0 <= j < |all| && j != i :: all[j].slug != all[i].slug
  {
    var sharing := Sharing(all, all[i].slug);
    SharingSize(all, all[i].slug);
    assert i in sharing;
    var others := sharing - {i};
    assert |others| == |sharing| - 1;
    if others == {} {
      forall j | 0 <= j < |all| && j != i ensures all[j].slug != all[i].slug {
        assert j !in others;
      }
    } else {
      var j :| j in others;
    }
  }
}
