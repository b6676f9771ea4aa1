/** Finding and adding missing back-links between pages (commands/backlinks.ts). */
module Backlinks {
  import opened Wrappers
  import opened OrderedMaps
  import opened Grouping
  import opened PageText

  datatype Ref = Ref(name: string, slug: string, dir: string)
  datatype Gap = Gap(sourcePage: string, targetPage: string, entityName: string, sourceTitle: string)

  /** Page texts by path relative to the brain directory. */
  type Files = map<string, string>

  const TargetOf := (g: Gap) => g.targetPage

  predicate HasBacklink(targetContent: string, sourceFilename: string) {
    Includes(targetContent, sourceFilename)
  }

  // ----- the links

  /** The part after the last slash. */
  function Basename(path: string): string {
    if '/' in path then Basename(path[1..]) else path
  }

  function Ups(n: nat): string {
    if n == 0 then "" else "../" + Ups(n - 1)
  }

  /** The source page's path as seen from the target's directory. */
  function RelPath(target: string, source: string): string {
    Ups(|Split('/', target)| - 1) + source
  }

  function BuildBacklinkEntry(sourceTitle: string, sourcePath: string, date: string): string {
    "- **" + date + "** | Referenced in [" + sourceTitle + "](" + sourcePath + ")"
  }

  function EntryFor(g: Gap, today: string): string {
    BuildBacklinkEntry(g.sourceTitle, RelPath(g.targetPage, g.sourcePage), today)
  }

  /** Walking a relative path from a directory; leaving the brain directory leads nowhere. */
  function Resolve(dir: seq<string>, path: seq<string>): Option<seq<string>>
    decreases |path|
  {
    if path == [] then Some(dir)
    else if path[0] == "." || path[0] == "" then Resolve(dir, path[1..])
    else if path[0] != ".." then Resolve(dir + [path[0]], path[1..])
    else if dir == [] then None
    else Resolve(dir[..|dir| - 1], path[1..])
  }

  /** The directory a page stands in. */
  function DirOf(page: string): seq<string> {
    Split('/', page)[..|Split('/', page)| - 1]
  }

  predicate IsName(part: string) {
    part != "" && part != "." && part != ".."
  }

  /** Followed from the target's directory, the link leads to the source page. */
  lemma {:induction false} LinkLeadsToSource(target: string, source: string)
    ensures Resolve(DirOf(target), Split('/', RelPath(target, source))) == Resolve([], Split('/', source))
    ensures (forall part | part in DirOf(target) :: IsName(part)) ==> Resolve([], DirOf(target)) == Some(DirOf(target))
  {
    hide Resolve, Split, IsName;
    ClimbOut(DirOf(target), source);
    if forall part | part in DirOf(target) :: IsName(part) {
      NamesLeadDown([], DirOf(target));
      assert [] + DirOf(target) == DirOf(target);
    }
  }

  lemma {:induction false} NamesLeadDown(dir: seq<string>, names: seq<string>)
    requires forall part | part in names :: IsName(part)
    ensures Resolve(dir, names) == Some(dir + names)
    decreases |names|
  {
    if names != [] {
      assert names[0] in names && forall part | part in names[1..] :: part in names;
      NamesLeadDown(dir + [names[0]], names[1..]);
      assert dir + [names[0]] + names[1..] == dir + names;
    } else {
      assert dir + names == dir;
    }
  }

  lemma {:induction false} ClimbOut(dir: seq<string>, source: string)
    ensures Resolve(dir, Split('/', Ups(|dir|) + source)) == Resolve([], Split('/', source))
  {
    hide Resolve, Split;
    if dir == [] {
      assert "" + source == source;
    } else {
      var up := dir[..|dir| - 1];
      var rest := Ups(|up|) + source;
      assert Ups(|dir|) + source == ".." + ['/'] + rest;
      SplitJoin('/', "..", rest);
      SplitDots();
      ResolveUp(dir, Split('/', rest));
      ClimbOut(up, source);
    }
  }

  lemma SplitDots()
    ensures Split('/', "..") == [".."]
  {
    assert ".." == ("" + ['.']) + ['.'];
    SplitEmpty('/');
    SplitSnoc('/', "", '.');
    SplitSnoc('/', "" + ['.'], '.');
  }

  lemma {:induction false} ResolveUp(dir: seq<string>, path: seq<string>)
    requires dir != []
    ensures Resolve(dir, [".."] + path) == Resolve(dir[..|dir| - 1], path)
  {
    assert ([".."] + path)[1..] == path;
  }

  // ----- inserting one entry

  const TIMELINE := "## Timeline"
  const SECTION := "\n## "

  /** `content.split("## Timeline")[1]`, given where the heading stands. */
  function AfterTimeline(content: string, h: nat): string
    requires h + |TIMELINE| <= |content|
  {
    var rest := content[h + |TIMELINE|..];
    match IndexOf(rest, TIMELINE) case None => rest case Some(k) => rest[..k]
  }

  /** Where the section after the timeline starts, if the split text shows one. */
  function SectionEnd(content: string): (r: Option<nat>)
    ensures r.Some? ==> r.value < |content|
  {
    match IndexOf(content, TIMELINE)
    case None => None
    case Some(h) =>
      match IndexOf(AfterTimeline(content, h), SECTION)
      case None => None
      case Some(k) => Some(h + |TIMELINE| + k)
  }

  lemma SectionEndIsLineBreak(content: string)
    requires SectionEnd(content).Some?
    ensures var k := SectionEnd(content).value;
            content[k] == '\n' && k + 1 < |content| && content[k + 1] == '#'
  {
    var h := IndexOf(content, TIMELINE).value;
    var after := AfterTimeline(content, h);
    var k := IndexOf(after, SECTION).value;
    assert after[k] == after[k..k + |SECTION|][0] == '\n';
    assert after[k + 1] == after[k..k + |SECTION|][1] == '#';
    assert after[k] == content[h + |TIMELINE|..][k] && after[k + 1] == content[h + |TIMELINE|..][k + 1];
  }

  function InsertEntry(content: string, entry: string): string {
    if !Includes(content, TIMELINE) then TrimEnd(content) + "\n\n## Timeline\n\n" + entry + "\n"
    else
      match SectionEnd(content)
      case None => TrimEnd(content) + "\n" + entry + "\n"
      case Some(k) => content[..k] + "\n" + entry + content[k..]
  }

  function InsertAll(content: string, gaps: seq<Gap>, today: string): string {
    if gaps == [] then content
    else InsertEntry(InsertAll(content, gaps[..|gaps| - 1], today), EntryFor(gaps[|gaps| - 1], today))
  }

  lemma {:induction false} InsertAllSnoc(content: string, gaps: seq<Gap>, g: Gap, today: string)
    ensures InsertAll(content, gaps + [g], today) == InsertEntry(InsertAll(content, gaps, today), EntryFor(g, today))
  {
    assert (gaps + [g])[..|gaps|] == gaps;
  }

  /** The three shapes of the result, as text around the entry. */
  lemma InsertEntryShape(content: string, entry: string) returns (a: string, b: string)
    ensures InsertEntry(content, entry) == a + "\n" + entry + "\n" + b
    ensures Includes(content, TIMELINE) && SectionEnd(content).Some? ==>
              content == a + "\n" + b && b != "" && b[0] == '#'
    ensures Includes(content, TIMELINE) && SectionEnd(content).None? ==> a == TrimEnd(content) && b == ""
    ensures !Includes(content, TIMELINE) ==> a == TrimEnd(content) + "\n" + "" + "\n" + TIMELINE + "\n" + "" && b == ""
  {
    hide IndexOf, TrimEnd, Includes, SectionEnd;
    if !Includes(content, TIMELINE) {
      a, b := TrimEnd(content) + "\n" + "" + "\n" + TIMELINE + "\n" + "", "";
      NewTimelineText(TrimEnd(content), entry);
    } else {
      match SectionEnd(content) {
        case None => a, b := TrimEnd(content), "";
        case Some(k) =>
          SectionEndIsLineBreak(content);
          a, b := content[..k], content[k + 1..];
          assert content[k..] == "\n" + b;
      }
    }
  }

  lemma NewTimelineText(text: string, entry: string)
    ensures text + "\n\n## Timeline\n\n" + entry + "\n"
         == (text + "\n" + "" + "\n" + TIMELINE + "\n" + "") + "\n" + entry + "\n" + ""
  {
    assert "\n\n## Timeline\n\n" == "\n" + "" + "\n" + TIMELINE + "\n" + "" + "\n";
  }

  /** The entry itself arrives, and what was on one line before stays. */
  lemma InsertKeepsAndAdds(content: string, entry: string, t: string)
    ensures Includes(entry, t) ==> Includes(InsertEntry(content, entry), t)
    ensures Solid(t) && Includes(content, t) ==> Includes(InsertEntry(content, entry), t)
  {
    hide IndexOf, TrimEnd, InsertEntry, Includes, SectionEnd;
    var a, b := InsertEntryShape(content, entry);
    var r := InsertEntry(content, entry);
    if Includes(entry, t) {
      IncludesInContext(a + "\n", entry, "\n" + b, t);
      assert (a + "\n") + entry + ("\n" + b) == r;
    }
    if Solid(t) && Includes(content, t) {
      if Includes(content, TIMELINE) && SectionEnd(content).Some? {
        SolidOnOneSide(a, b, t);
        if Includes(a, t) {
          IncludesInContext("", a, "\n" + entry + "\n" + b, t);
          assert "" + a + ("\n" + entry + "\n" + b) == r;
        } else {
          IncludesInContext(a + "\n" + entry + "\n", b, "", t);
          assert (a + "\n" + entry + "\n") + b + "" == r;
        }
      } else {
        TrimEndKeeps(content, t);
        var tail := r[|TrimEnd(content)|..];
        IncludesInContext("", TrimEnd(content), tail, t);
        assert "" + TrimEnd(content) + tail == r;
      }
    }
  }

  /** The name is the path without its directory. */
  lemma {:induction false} BasenameEnds(path: string) returns (dir: string)
    ensures path == dir + Basename(path) && '/' !in Basename(path)
    ensures dir == "" || dir[|dir| - 1] == '/'
  {
    if '/' in path {
      var rest := BasenameEnds(path[1..]);
      dir := [path[0]] + rest;
    } else {
      dir := "";
    }
  }

  lemma EntryNamesSource(g: Gap, today: string)
    ensures Includes(EntryFor(g, today), Basename(g.sourcePage))
  {
    hide IndexOf, Basename;
    var dir := BasenameEnds(g.sourcePage);
    var name := Basename(g.sourcePage);
    var front := "- **" + today + "** | Referenced in [" + g.sourceTitle + "](" + Ups(|Split('/', g.targetPage)| - 1);
    assert (front + dir) + name + ")" == EntryFor(g, today);
    assert Occurs(name, name, 0);
    OccursIncludes(name, name, 0);
    IncludesInContext(front + dir, name, ")", name);
  }

  // ----- the fix pass

  function Fixed(files: Files, gaps: seq<Gap>, today: string): Files {
    map p | p in files :: InsertAll(files[p], WithKey(TargetOf, p, gaps), today)
  }

  /** The gaps whose target exists. */
  function CountFixable(gaps: seq<Gap>, files: Files): nat {
    if gaps == [] then 0
    else CountFixable(gaps[..|gaps| - 1], files) + if gaps[|gaps| - 1].targetPage in files then 1 else 0
  }

  /** The positions of the gaps whose target exists. */
  ghost function Fixable(gaps: seq<Gap>, files: Files): set<int> {
    set i | 0 <= i < |gaps| && gaps[i].targetPage in files
  }

  lemma {:induction false} CountFixableIsSize(gaps: seq<Gap>, files: Files)
    ensures CountFixable(gaps, files) == |Fixable(gaps, files)|
  {
    if gaps != [] {
      var m := |gaps| - 1;
      CountFixableIsSize(gaps[..m], files);
      var before := Fixable(gaps[..m], files);
      assert Fixable(gaps, files) == if gaps[m].targetPage in files then before + {m} else before;
    }
  }

  class BrainDir {
    var files: Files

    constructor (files: Files)
      ensures this.files == files
    {
      this.files := files;
    }

    method FixBacklinkGaps(gaps: seq<Gap>, dryRun: bool, today: string) returns (fixed: nat)
      modifies this
      ensures files == if dryRun then old(files) else Fixed(old(files), gaps, today)
      ensures fixed == CountFixable(gaps, old(files))
    {
      hide Groups, WithKey, InsertAll, CountFixable, CountByTarget, FixedFor, Fixed;
      var byTarget: OrderedMap<string, seq<Gap>> := Empty();
      NoGaps();
      for i := 0 to |gaps|
        invariant byTarget == Groups(TargetOf, gaps[..i])
        invariant files == old(files)
      {
        GroupsSnoc(TargetOf, gaps[..i], gaps[i]);
        assert gaps[..i + 1] == gaps[..i] + [gaps[i]];
        byTarget := AddToGroup(byTarget, gaps[i].targetPage, gaps[i]);
      }
      assert gaps[..|gaps|] == gaps;
      EveryTargetListed(gaps);
      var buckets := byTarget.Values();
      fixed := 0;
      NothingFixed(gaps, files, today);
      for j := 0 to |buckets|
        invariant files == if dryRun then old(files) else FixedFor(byTarget.keys[..j], old(files), gaps, today)
        invariant fixed == CountByTarget(byTarget.keys[..j], gaps, old(files))
      {
        var targetPage := byTarget.keys[j];
        GroupsAreClasses(TargetOf, gaps, targetPage);
        CountByTargetSnoc(byTarget.keys[..j], targetPage, gaps, old(files));
        FixedForSnoc(byTarget.keys[..j], targetPage, old(files), gaps, today);
        assert byTarget.keys[..j + 1] == byTarget.keys[..j] + [targetPage];
        if targetPage !in files {
          continue;
        }
        var content := AddEntries(files[targetPage], buckets[j], today);
        fixed := fixed + |buckets[j]|;
        if !dryRun {
          files := files[targetPage := content];
        }
      }
      assert byTarget.keys[..|buckets|] == byTarget.keys;
      CountByTargetIsCount(byTarget.keys, gaps, old(files));
      FixedForAll(byTarget.keys, old(files), gaps, today);
    }
  }

  /** The pass over one target page's gaps. */
  method AddEntries(before: string, targetGaps: seq<Gap>, today: string) returns (content: string)
    ensures content == InsertAll(before, targetGaps, today)
  {
    hide InsertAll, InsertEntry, EntryFor;
    content := before;
    NoGaps();
    for i := 0 to |targetGaps|
      invariant content == InsertAll(before, targetGaps[..i], today)
    {
      InsertAllSnoc(before, targetGaps[..i], targetGaps[i], today);
      assert targetGaps[..i + 1] == targetGaps[..i] + [targetGaps[i]];
      content := InsertEntry(content, EntryFor(targetGaps[i], today));
    }
    assert targetGaps[..|targetGaps|] == targetGaps;
  }

  /** The files once the listed targets are written. */
  function FixedFor(targets: seq<string>, files: Files, gaps: seq<Gap>, today: string): Files {
    map p | p in files :: if p in targets then InsertAll(files[p], WithKey(TargetOf, p, gaps), today) else files[p]
  }

  lemma {:induction false} FixedForSnoc(targets: seq<string>, t: string, files: Files, gaps: seq<Gap>, today: string)
    ensures FixedFor(targets, files, gaps, today).Keys == files.Keys
    ensures t in files && t !in targets ==> FixedFor(targets, files, gaps, today)[t] == files[t]
    ensures FixedFor(targets + [t], files, gaps, today)
         == if t !in files then FixedFor(targets, files, gaps, today)
            else FixedFor(targets, files, gaps, today)[t := InsertAll(files[t], WithKey(TargetOf, t, gaps), today)]
  {
    hide InsertAll, WithKey;
  }

  lemma {:induction false} NothingFixed(gaps: seq<Gap>, files: Files, today: string)
    ensures FixedFor([], files, gaps, today) == files
    ensures CountByTarget([], gaps, files) == 0
  {
    hide InsertAll, WithKey;
  }

  lemma FixedForAll(targets: seq<string>, files: Files, gaps: seq<Gap>, today: string)
    requires forall g | g in gaps :: g.targetPage in targets
    ensures FixedFor(targets, files, gaps, today) == Fixed(files, gaps, today)
  {
    hide InsertAll, WithKey;
    NoGaps();
    forall p | p in files && p !in targets ensures WithKey(TargetOf, p, gaps) == [] {
      NoneForTarget(gaps, p);
    }
  }

  lemma {:induction false} NoneForTarget(gaps: seq<Gap>, p: string)
    requires forall g | g in gaps :: g.targetPage != p
    ensures WithKey(TargetOf, p, gaps) == []
  {
    hide WithKey;
    var mine := WithKey(TargetOf, p, gaps);
    if mine != [] {
      WithKeyMembers(TargetOf, p, gaps, mine[0]);
      assert false;
    }
  }

  lemma NoGaps()
    ensures Groups<string, Gap>(TargetOf, []) == Empty()
    ensures forall c, today :: InsertAll(c, [], today) == c
    ensures forall files :: CountFixable([], files) == 0
  {
  }

  function CountByTarget(targets: seq<string>, gaps: seq<Gap>, files: Files): nat {
    if targets == [] then 0
    else
      var t := targets[|targets| - 1];
      CountByTarget(targets[..|targets| - 1], gaps, files) + if t in files then |WithKey(TargetOf, t, gaps)| else 0
  }

  lemma {:induction false} CountByTargetSnoc(targets: seq<string>, t: string, gaps: seq<Gap>, files: Files)
    ensures CountByTarget(targets + [t], gaps, files)
         == CountByTarget(targets, gaps, files) + if t in files then |WithKey(TargetOf, t, gaps)| else 0
  {
    assert (targets + [t])[..|targets|] == targets;
  }

  lemma {:induction false} CountByTargetGrows(targets: seq<string>, gaps: seq<Gap>, g: Gap, files: Files)
    requires forall i, j | 0 <= i < j < |targets| :: targets[i] != targets[j]
    ensures CountByTarget(targets, gaps + [g], files)
         == CountByTarget(targets, gaps, files) + if g.targetPage in targets && g.targetPage in files then 1 else 0
  {
    hide WithKey;
    if targets != [] {
      var m := |targets| - 1;
      CountByTargetGrows(targets[..m], gaps, g, files);
      WithKeySnoc(TargetOf, targets[m], gaps, g);
      assert targets == targets[..m] + [targets[m]];
    }
  }

  lemma {:induction false} CountByTargetOfNone(targets: seq<string>, files: Files)
    ensures CountByTarget(targets, [], files) == 0
  {
    if targets != [] {
      CountByTargetOfNone(targets[..|targets| - 1], files);
    }
  }

  /** Counting target by target counts every fixable gap once. */
  lemma {:induction false} CountByTargetIsCount(targets: seq<string>, gaps: seq<Gap>, files: Files)
    requires forall i, j | 0 <= i < j < |targets| :: targets[i] != targets[j]
    requires forall g | g in gaps :: g.targetPage in targets
    ensures CountByTarget(targets, gaps, files) == CountFixable(gaps, files)
  {
    hide CountByTarget;
    if gaps == [] {
      CountByTargetOfNone(targets, files);
    } else {
      var m := |gaps| - 1;
      assert gaps == gaps[..m] + [gaps[m]];
      CountByTargetIsCount(targets, gaps[..m], files);
      CountByTargetGrows(targets, gaps[..m], gaps[m], files);
    }
  }

  lemma {:induction false} EveryTargetListed(gaps: seq<Gap>)
    ensures Groups(TargetOf, gaps).Valid()
    ensures forall g | g in gaps :: g.targetPage in Groups(TargetOf, gaps).keys
  {
    hide WithKey, Groups;
    GroupsAreClasses(TargetOf, gaps, "");
    forall g | g in gaps ensures g.targetPage in Groups(TargetOf, gaps).keys {
      GroupsAreClasses(TargetOf, gaps, g.targetPage);
      WithKeyMembers(TargetOf, g.targetPage, gaps, g);
    }
  }

  // ----- fixed gaps stay fixed

  lemma {:induction false} InsertAllKeepsAndAdds(content: string, gaps: seq<Gap>, today: string, t: string)
    requires Solid(t)
    ensures Includes(content, t) ==> Includes(InsertAll(content, gaps, today), t)
    ensures (exists g :: g in gaps && Basename(g.sourcePage) == t) ==> Includes(InsertAll(content, gaps, today), t)
  {
    hide Includes, InsertEntry, EntryFor, Basename, Solid;
    if gaps != [] {
      var m := |gaps| - 1;
      InsertAllKeepsAndAdds(content, gaps[..m], today, t);
      assert gaps == gaps[..m] + [gaps[m]];
      EntryNamesSource(gaps[m], today);
      InsertKeepsAndAdds(InsertAll(content, gaps[..m], today), EntryFor(gaps[m], today), t);
    }
  }

  /** After one pass every gap whose target exists is closed, and no back-link that was there is lost. */
  lemma FixedGapsStayFixed(files: Files, gaps: seq<Gap>, today: string, target: string, name: string)
    requires target in files && Solid(name)
    requires HasBacklink(files[target], name)
          || exists g :: g in gaps && g.targetPage == target && Basename(g.sourcePage) == name
    ensures HasBacklink(Fixed(files, gaps, today)[target], name)
  {
    hide Includes, InsertAll, WithKey, Basename, Solid;
    InsertAllKeepsAndAdds(files[target], WithKey(TargetOf, target, gaps), today, name);
    if !Includes(files[target], name) {
      var g :| g in gaps && g.targetPage == target && Basename(g.sourcePage) == name;
      WithKeyMembers(TargetOf, target, gaps, g);
    }
  }

  /** Pages that no gap points to are left as they are, and no page appears or disappears. */
  lemma OtherPagesUntouched(files: Files, gaps: seq<Gap>, today: string, path: string)
    requires path in files && forall g | g in gaps :: g.targetPage != path
    ensures Fixed(files, gaps, today).Keys == files.Keys
    ensures Fixed(files, gaps, today)[path] == files[path]
  {
    hide InsertAll, WithKey;
    NoGaps();
    NoneForTarget(gaps, path);
  }

  // ----- nothing is lost and nothing else is added

  lemma InsertEntryText(content: string, entry: string)
    ensures Text(InsertEntry(content, entry))
         == Text(content) + Text(entry) + if Includes(content, TIMELINE) then multiset{} else Text(TIMELINE)
  {
    hide TextOf, Lines, InsertEntry, TrimEnd, Includes, SectionEnd, Text;
    var a, b := InsertEntryShape(content, entry);
    TextJoin(a + "\n" + entry, b);
    TextJoin(a, entry);
    TextOfNothing();
    TextOfTrimmed(content);
    if Includes(content, TIMELINE) {
      TextJoin(a, b);
    } else {
      var t := TrimEnd(content);
      TextJoin(t + "\n" + "" + "\n" + TIMELINE, "");
      TextJoin(t + "\n" + "", TIMELINE);
      TextJoin(t, "");
    }
  }

  function EntriesText(gaps: seq<Gap>, today: string): multiset<string> {
    if gaps == [] then multiset{}
    else EntriesText(gaps[..|gaps| - 1], today) + Text(EntryFor(gaps[|gaps| - 1], today))
  }

  /**
    The non-blank lines of the result are those of the page, one entry for each gap, and one heading
    if the page had none.
  */
  lemma {:induction false} TextIsConserved(content: string, gaps: seq<Gap>, today: string)
    ensures Text(InsertAll(content, gaps, today))
         == Text(content) + EntriesText(gaps, today)
          + if gaps == [] || Includes(content, TIMELINE) then multiset{} else Text(TIMELINE)
    ensures gaps != [] || Includes(content, TIMELINE) ==> Includes(InsertAll(content, gaps, today), TIMELINE)
  {
    hide Text, InsertEntry, EntryFor, Includes;
    if gaps != [] {
      var m := |gaps| - 1;
      TextIsConserved(content, gaps[..m], today);
      var before, entry := InsertAll(content, gaps[..m], today), EntryFor(gaps[m], today);
      InsertEntryText(before, entry);
      HeadingStays(before, entry);
      if gaps[..m] == [] {
        assert before == content;
      }
    }
  }

  lemma HeadingStays(content: string, entry: string)
    ensures Includes(InsertEntry(content, entry), TIMELINE)
  {
    hide IndexOf, TrimEnd, InsertEntry, Includes, SectionEnd;
    InsertKeepsAndAdds(content, entry, TIMELINE);
    if !Includes(content, TIMELINE) {
      var a, b := InsertEntryShape(content, entry);
      var tail := "\n" + "" + "\n" + entry + "\n" + b;
      var front := TrimEnd(content) + "\n" + "" + "\n";
      HeadingIncludesItself();
      IncludesInContext(front, TIMELINE, tail, TIMELINE);
      assert front + TIMELINE + tail == InsertEntry(content, entry);
    }
  }

  lemma HeadingIncludesItself()
    ensures Includes(TIMELINE, TIMELINE) && Occurs(TIMELINE, TIMELINE, 0)
  {
  }

  lemma {:induction false} InsertEntryKeepsLines(xs: seq<string>, content: string, entry: string)
    requires EndsInText(xs) && Within(xs, Lines(TrimEnd(content)))
    ensures Within(xs, Lines(TrimEnd(InsertEntry(content, entry))))
  {
    hide Within, Lines, InsertEntry, TrimEnd, Includes, SectionEnd, EndsInText, Space;
    var a, b := InsertEntryShape(content, entry);
    if Includes(content, TIMELINE) && SectionEnd(content).Some? {
      HashIsText(b);
      TrimEndOfConcat(a + "\n", b);
      TrimEndOfConcat(a + "\n" + entry + "\n", b);
      LinesJoin(a + "\n" + entry, TrimEnd(b));
      LinesJoin(a, entry);
      LinesJoin(a, TrimEnd(b));
      WithinInserted(xs, Lines(a), Lines(entry), Lines(TrimEnd(b)));
    } else {
      LinesJoin(a + "\n" + entry, b);
      LinesJoin(a, entry);
      if !Includes(content, TIMELINE) {
        var t := TrimEnd(content);
        LinesJoin(t + "\n" + "" + "\n" + TIMELINE, "");
        LinesJoin(t + "\n" + "", TIMELINE);
        LinesJoin(t, "");
        WithinAppended(xs, Lines(t), Lines(""));
        WithinAppended(xs, Lines(t) + Lines(""), Lines(TIMELINE));
        WithinAppended(xs, Lines(t) + Lines("") + Lines(TIMELINE), Lines(""));
      }
      WithinAppended(xs, Lines(a), Lines(entry));
      WithinAppended(xs, Lines(a) + Lines(entry), Lines(b));
      WithinTrimmed(xs, InsertEntry(content, entry));
    }
  }

  lemma {:induction false} HashIsText(s: string)
    requires s != "" && s[0] == '#'
    ensures TrimEnd(s) != ""
  {
  }

  /** Up to white space at its end, the page's lines survive whole and in order. */
  lemma {:induction false} OriginalLinesSurvive(content: string, gaps: seq<Gap>, today: string)
    ensures Within(OriginalLines(content), Lines(TrimEnd(InsertAll(content, gaps, today))))
  {
    hide Within, InsertEntry, EntryFor, Lines, TrimEnd, EndsInText;
    if gaps == [] {
      if TrimEnd(content) == "" {
        NothingWithin(Lines(""));
      } else {
        WithinItself(Lines(TrimEnd(content)));
      }
    } else {
      var m := |gaps| - 1;
      OriginalLinesSurvive(content, gaps[..m], today);
      OriginalLinesEndInText(content);
      InsertEntryKeepsLines(OriginalLines(content), InsertAll(content, gaps[..m], today), EntryFor(gaps[m], today));
    }
  }

  // ----- the entry as a reader sees it

  datatype Parts = Parts(before: string, after: string)

  /** The text before and after the first `mark`. */
  function Around(s: string, mark: string): Option<Parts> {
    match IndexOf(s, mark)
    case None => None
    case Some(i) => Some(Parts(s[..i], s[i + |mark|..]))
  }

  datatype Reference = Reference(date: string, text: string, target: string)

  /** A line with a date in bold and then an inline Markdown link. */
  function ReadReference(line: string): Option<Reference> {
    match Around(line, "**") case None => None case Some(bold) =>
    match Around(bold.after, "**") case None => None case Some(dated) =>
    match Around(dated.after, "[") case None => None case Some(bracket) =>
    match Around(bracket.after, "](") case None => None case Some(text) =>
    match Around(text.after, ")") case None => None case Some(target) =>
    Some(Reference(dated.before, text.before, target.before))
  }

  lemma AroundFirst(a: string, mark: string, b: string)
    requires mark != "" && mark[0] !in a
    ensures Around(a + mark + b, mark) == Some(Parts(a, b))
  {
    hide IndexOf;
    var s := a + mark + b;
    assert Occurs(s, mark, |a|);
    forall i | 0 <= i < |a| ensures !Occurs(s, mark, i) {
      assert s[i] == a[i] && a[i] in a;
      if Occurs(s, mark, i) {
        CharAt(s, mark, i, 0);
        assert false;
      }
    }
    FirstIndex(s, mark, |a|);
    assert s[..|a|] == a && s[|a| + |mark|..] == b;
  }

  /** A gap whose entry stays on one line and whose link no bracket of its own cuts short. */
  predicate Linkable(g: Gap, today: string) {
    && '*' !in today && '\n' !in today
    && '[' !in g.sourceTitle && ']' !in g.sourceTitle && '\n' !in g.sourceTitle
    && '(' !in g.sourcePage && ')' !in g.sourcePage && '\n' !in g.sourcePage
  }

  lemma {:induction false} UpsArePlain(n: nat)
    ensures forall c | c in Ups(n) :: c == '.' || c == '/'
  {
    if n > 0 {
      UpsArePlain(n - 1);
    }
  }

  lemma {:induction false} EntryReadsBack(g: Gap, today: string)
    requires Linkable(g, today)
    ensures ReadReference(EntryFor(g, today)) == Some(Reference(today, g.sourceTitle, RelPath(g.targetPage, g.sourcePage)))
    ensures '\n' !in EntryFor(g, today)
  {
    hide RelPath, BuildBacklinkEntry, ReadReference;
    var path := RelPath(g.targetPage, g.sourcePage);
    PathIsPlain(g.targetPage, g.sourcePage);
    EntryInParts(g.sourceTitle, path, today);
    EntryParts(today, g.sourceTitle, path);
  }

  lemma EntryParts(date: string, title: string, path: string)
    requires '*' !in date && ']' !in title && ')' !in path
    ensures ReadReference(BuildBacklinkEntry(title, path, date)) == Some(Reference(date, title, path))
  {
    hide Around, BuildBacklinkEntry, ReadReference;
    var target := path + ")" + "";
    var named := title + "](" + target;
    var dated := " | Referenced in " + "[" + named;
    EntryInParts(title, path, date);
    AroundFirst("- ", "**", date + "**" + dated);
    AroundFirst(date, "**", dated);
    AroundFirst(" | Referenced in ", "[", named);
    AroundFirst(title, "](", target);
    AroundFirst(path, ")", "");
    assert "- " + "**" + (date + "**" + dated) == BuildBacklinkEntry(title, path, date);
    ReadInParts(BuildBacklinkEntry(title, path, date), date, dated, title, named, path, target);
  }

  lemma PathIsPlain(target: string, source: string)
    ensures forall c | c in RelPath(target, source) :: c == '.' || c == '/' || c in source
  {
    UpsArePlain(|Split('/', target)| - 1);
  }

  lemma ReadInParts(line: string, date: string, dated: string, title: string, named: string, path: string, target: string)
    requires Around(line, "**") == Some(Parts("- ", date + "**" + dated))
    requires Around(date + "**" + dated, "**") == Some(Parts(date, dated))
    requires Around(dated, "[") == Some(Parts(" | Referenced in ", named))
    requires Around(named, "](") == Some(Parts(title, target)) && Around(target, ")") == Some(Parts(path, ""))
    ensures ReadReference(line) == Some(Reference(date, title, path))
  {
    hide Around;
  }

  lemma EntryInParts(title: string, path: string, date: string)
    ensures BuildBacklinkEntry(title, path, date)
         == "- " + "**" + (date + "**" + (" | Referenced in " + "[" + (title + "](" + (path + ")" + ""))))
    ensures forall c | c in BuildBacklinkEntry(title, path, date) ::
              c in date || c in title || c in path || c in "- *| Referenced in [](" || c == ')'
  {
    var e := BuildBacklinkEntry(title, path, date);
    assert "- " + "**" == "- **";
    assert "** | Referenced in [" == "**" + (" | Referenced in " + "[");
    assert e == "- **" + (date + ("** | Referenced in [" + (title + ("](" + (path + ")")))));
  }

  lemma {:induction false} OneLine(s: string)
    requires '\n' !in s
    ensures Lines(s) == [s]
  {
    if s != "" {
      var m := |s| - 1;
      OneLine(s[..m]);
      assert s == s[..m] + [s[m]];
    }
  }

  lemma {:induction false} EntryIsText(g: Gap, today: string)
    requires Linkable(g, today)
    ensures Text(EntryFor(g, today)) == multiset{EntryFor(g, today)}
  {
    hide Split, TrimEnd, TextOf, ReadReference, Linkable;
    var e := EntryFor(g, today);
    EntryReadsBack(g, today);
    OneLine(e);
    assert e[|e| - 1] == ')';
    assert TrimEnd(e) == e;
    assert [] + [e] == [e];
    TextOfSnoc([], e);
    TextOfNothing();
  }

  lemma {:induction false} EntryAmongAll(gaps: seq<Gap>, today: string, g: Gap)
    requires g in gaps && Linkable(g, today)
    ensures EntryFor(g, today) in EntriesText(gaps, today)
  {
    hide Text, EntryFor, Linkable;
    var m := |gaps| - 1;
    assert gaps == gaps[..m] + [gaps[m]];
    if g == gaps[m] {
      EntryIsText(g, today);
    } else {
      EntryAmongAll(gaps[..m], today, g);
    }
  }

  /**
    The target page receives a line whose bold text is the day and whose link, called by the source's
    title, leads from the target's directory to the source page.
  */
  lemma EntryLeadsToSource(files: Files, gaps: seq<Gap>, today: string, g: Gap) returns (line: string, read: Reference)
    requires g in gaps && g.targetPage in files && Linkable(g, today)
    ensures line in Text(Fixed(files, gaps, today)[g.targetPage]) && ReadReference(line) == Some(read)
    ensures read.date == today && read.text == g.sourceTitle
    ensures Resolve(DirOf(g.targetPage), Split('/', read.target)) == Resolve([], Split('/', g.sourcePage))
  {
    hide Text, EntryFor, Linkable, InsertAll, WithKey, EntriesText, Includes, Resolve, DirOf, Split, ReadReference;
    var mine := WithKey(TargetOf, g.targetPage, gaps);
    WithKeyMembers(TargetOf, g.targetPage, gaps, g);
    EntryAmongAll(mine, today, g);
    TextIsConserved(files[g.targetPage], mine, today);
    EntryReadsBack(g, today);
    LinkLeadsToSource(g.targetPage, g.sourcePage);
    line, read := EntryFor(g, today), Reference(today, g.sourceTitle, RelPath(g.targetPage, g.sourcePage));
  }
}
