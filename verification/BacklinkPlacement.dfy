/** Where in a page a back-link entry lands (commands/backlinks.ts). */
module BacklinkPlacement {
  import opened Wrappers
  import opened PageText
  import opened Backlinks

  // ----- sections, line by line

  const MARK := "## "

  /** A section starts at a line that starts with its mark, a timeline at one that starts with the heading. */
  predicate IsSection(line: string) {
    MARK <= line
  }

  predicate IsTimeline(line: string) {
    TIMELINE <= line
  }

  function LastSection(lines: seq<string>): Option<string> {
    if lines == [] then None
    else if IsSection(lines[|lines| - 1]) then Some(lines[|lines| - 1])
    else LastSection(lines[..|lines| - 1])
  }

  /** The nearest section line is a timeline heading. */
  predicate EndsInTimeline(lines: seq<string>) {
    match LastSection(lines)
    case None => false
    case Some(line) => IsTimeline(line)
  }

  /** Position `at` starts a line of a timeline section. */
  predicate InTimeline(s: string, at: nat)
    requires at <= |s|
  {
    LineStart(s, at) && EndsInTimeline(Lines(s[..at]))
  }

  predicate LineStart(s: string, i: nat)
    requires i <= |s|
  {
    i == 0 || s[i - 1] == '\n'
  }

  /** Where the code puts the entry. */
  function EntryPosition(content: string): nat {
    if !Includes(content, TIMELINE) then |TrimEnd(content)| + 15
    else
      match SectionEnd(content)
      case None => |TrimEnd(content)| + 1
      case Some(k) => k + 1
  }

  /**
    The pages on which the entry misses the timeline. The first heading text decides as long as the
    code sees the section after it, or no other heading text follows: it must start a line.
    Otherwise the entry goes to the end of the page, and the last section there decides.
  */
  predicate Misleads(content: string) {
    match IndexOf(content, TIMELINE)
    case None => false
    case Some(h) =>
      if SectionEnd(content).Some? || !Includes(content[h + |TIMELINE|..], TIMELINE) then !LineStart(content, h)
      else !EndsInTimeline(Lines(TrimEnd(content)))
  }

  // ----- lines and breaks

  lemma FirstBreak(s: string) returns (a: string, b: string)
    requires '\n' in s
    ensures s == a + "\n" + b && '\n' !in a
  {
    var i := 0;
    while s[i] != '\n'
      invariant i < |s| && '\n' !in s[..i] && '\n' in s[i..]
      decreases |s| - i
    {
      assert s[i..] == [s[i]] + s[i + 1..] && s[..i + 1] == s[..i] + [s[i]];
      i := i + 1;
    }
    a, b := s[..i], s[i + 1..];
  }

  lemma {:induction false} LastBreak(s: string) returns (a: string, b: string)
    requires '\n' in s
    ensures s == a + "\n" + b && '\n' !in b
  {
    var m := |s| - 1;
    if s[m] == '\n' {
      a, b := s[..m], "";
    } else {
      assert s == s[..m] + [s[m]];
      a, b := LastBreak(s[..m]);
      b := b + [s[m]];
    }
  }

  lemma {:induction false} LinesOfLine(s: string)
    requires '\n' !in s
    ensures Lines(s) == [s]
  {
    if s != "" {
      var m := |s| - 1;
      assert s == s[..m] + [s[m]];
      LinesOfLine(s[..m]);
    }
  }

  /** Text before the first line break joins the first line. */
  lemma {:induction false} LinesAfter(x: string, s: string)
    requires '\n' !in x
    ensures Lines(s)[0] <= s
    ensures Lines(x + s) == [x + Lines(s)[0]] + Lines(s)[1..]
  {
    hide Split;
    if '\n' in s {
      var a, b := FirstBreak(s);
      LinesJoin(a, b);
      LinesOfLine(a);
      LinesOfLine(x + a);
      LinesJoin(x + a, b);
      assert (x + a) + "\n" + b == x + s;
    } else {
      LinesOfLine(s);
      LinesOfLine(x + s);
    }
  }

  lemma {:induction false} LineOfText(s: string, line: string, t: string)
    requires line in Lines(s) && Includes(line, t)
    ensures Includes(s, t)
    decreases |s|
  {
    hide Split, IndexOf;
    if '\n' in s {
      var a, b := FirstBreak(s);
      LinesJoin(a, b);
      LinesOfLine(a);
      if line == a {
        IncludesInContext("", a, "\n" + b, t);
        assert "" + a + ("\n" + b) == s;
      } else {
        LineOfText(b, line, t);
        IncludesInContext(a + "\n", b, "", t);
        assert (a + "\n") + b + "" == s;
      }
    } else {
      LinesOfLine(s);
    }
  }

  lemma {:induction false} LastSectionConcat(xs: seq<string>, ys: seq<string>)
    ensures LastSection(xs + ys) == if LastSection(ys).Some? then LastSection(ys) else LastSection(xs)
  {
    hide IsSection;
    if ys == [] {
      assert xs + ys == xs;
    } else {
      var m := |ys| - 1;
      LastSectionConcat(xs, ys[..m]);
      assert (xs + ys)[..|xs + ys| - 1] == xs + ys[..m];
    }
  }

  lemma {:induction false} LastSectionOfOne(line: string)
    ensures LastSection([line]) == if IsSection(line) then Some(line) else None
  {
    assert [line][..0] == [];
    assert LastSection([]) == None;
  }

  lemma {:induction false} LastSectionIsLine(lines: seq<string>)
    ensures LastSection(lines).Some? ==> LastSection(lines).value in lines
  {
    if lines != [] {
      LastSectionIsLine(lines[..|lines| - 1]);
    }
  }

  lemma {:induction false} BreakChangesNothing(s: string)
    ensures EndsInTimeline(Lines(s + "\n")) <==> EndsInTimeline(Lines(s))
  {
    hide Split, LastSection;
    LinesJoin(s, "");
    assert s + "\n" + "" == s + "\n";
    LinesOfLine("");
    LastSectionConcat(Lines(s), [""]);
    LastSectionOfOne("");
  }

  /** Without the mark after a line break, no line but the first can start a section. */
  lemma {:induction false} NoLaterSection(s: string)
    requires !Includes(s, SECTION)
    ensures LastSection(Lines(s)[1..]) == None
    decreases |s|
  {
    hide Split, IndexOf, LastSection;
    if '\n' !in s {
      LinesOfLine(s);
      NoLines();
      assert Lines(s)[1..] == [];
    } else {
      var a, b := FirstBreak(s);
      LinesJoin(a, b);
      LinesOfLine(a);
      assert Lines(s)[1..] == Lines(b);
      MarkAfterBreak(a, b);
      NoLaterSection(b);
      LinesAfter("", b);
      LastSectionConcat([Lines(b)[0]], Lines(b)[1..]);
      assert [Lines(b)[0]] + Lines(b)[1..] == Lines(b);
      LastSectionOfOne(Lines(b)[0]);
    }
  }

  lemma NoLines()
    ensures LastSection([]) == None
  {
  }

  lemma {:induction false} MarkAfterBreak(a: string, b: string)
    requires !Includes(a + "\n" + b, SECTION)
    ensures !IsSection(b) && !Includes(b, SECTION)
    ensures forall line | line <= b :: !IsSection(line)
  {
    hide IndexOf;
    var s := a + "\n" + b;
    assert (a + "\n") + b + "" == s;
    if Includes(b, SECTION) {
      IncludesInContext(a + "\n", b, "", SECTION);
      assert false;
    }
    if MARK <= b {
      assert s == a + SECTION + b[3..];
      assert Occurs(s, SECTION, |a|) by {
        assert s[|a|..|a| + 4] == SECTION;
      }
      OccursIncludes(s, SECTION, |a|);
      assert false;
    }
  }

  // ----- the first heading text

  /**
    Where the first heading text is followed by no section mark, it decides alone whether the text
    ends in a timeline: by starting a line.
  */
  lemma {:induction false} FirstHeadingDecides(front: string, mid: string)
    requires IndexOf(front + TIMELINE + mid, TIMELINE) == Some(|front|) && !Includes(mid, SECTION)
    ensures EndsInTimeline(Lines(front + TIMELINE + mid)) <==> LineStart(front, |front|)
  {
    hide IndexOf, Split, LastSection, Occurs;
    if '\n' in front {
      var a, p := LastBreak(front);
      HeadingLine(a + "\n", p, mid);
      LinesJoin(a, p + TIMELINE + mid);
      assert a + "\n" + (p + TIMELINE + mid) == front + TIMELINE + mid;
      LastSectionConcat(Lines(a), Lines(p + TIMELINE + mid));
      LastSectionIsLine(Lines(a));
      if EndsInTimeline(Lines(a)) {
        NoEarlierHeading(a, p, mid);
        assert false;
      }
      assert p != "" ==> front[|front| - 1] == p[|p| - 1];
    } else {
      assert "" + front == front;
      HeadingLine("", front, mid);
    }
  }

  /** The line that holds the first heading text, `before` being what ends the line before it. */
  lemma {:induction false} HeadingLine(before: string, p: string, mid: string)
    requires '\n' !in p && !Includes(mid, SECTION)
    requires IndexOf((before + p) + TIMELINE + mid, TIMELINE) == Some(|before + p|)
    ensures p == "" ==> EndsInTimeline(Lines(p + TIMELINE + mid))
    ensures p != "" ==> !EndsInTimeline(Lines(p + TIMELINE + mid))
  {
    hide IndexOf, Split, LastSection, Occurs;
    var q, rest := Lines(mid)[0], Lines(mid)[1..];
    var line := (p + TIMELINE) + q;
    LinesAfter(p + TIMELINE, mid);
    NoLaterSection(mid);
    LastSectionConcat([line], rest);
    LastSectionOfOne(line);
    if p == "" {
      assert line == TIMELINE + q;
      HeadingIsSection(line);
    } else if IsTimeline(line) {
      assert (before + p) + TIMELINE + mid == before + (line + mid[|q|..]);
      HeadingAt(before, line + mid[|q|..]);
      assert false;
    }
  }

  lemma HeadingIsSection(line: string)
    requires IsTimeline(line)
    ensures IsSection(line)
  {
    assert line[..3] == TIMELINE[..3] == MARK;
  }

  lemma HeadingAt(before: string, s: string)
    requires TIMELINE <= s
    ensures Occurs(before + s, TIMELINE, |before|)
  {
    assert (before + s)[|before|..|before| + |TIMELINE|] == s[..|TIMELINE|];
  }

  lemma {:induction false} NoEarlierHeading(a: string, p: string, mid: string)
    requires IndexOf((a + "\n" + p) + TIMELINE + mid, TIMELINE) == Some(|a + "\n" + p|)
    ensures !EndsInTimeline(Lines(a))
  {
    hide IndexOf, Split, LastSection, Occurs;
    LastSectionIsLine(Lines(a));
    var b := "\n" + p + TIMELINE + mid;
    assert "" + a + b == (a + "\n" + p) + TIMELINE + mid;
    if EndsInTimeline(Lines(a)) {
      var line := LastSection(Lines(a)).value;
      HeadingAt("", line);
      assert "" + line == line;
      OccursIncludes(line, TIMELINE, 0);
      LineOfText(a, line, TIMELINE);
      var i := IndexOf(a, TIMELINE).value;
      InRange(a, TIMELINE, i);
      OccursInContext("", a, b, TIMELINE, i);
      assert false;
    }
  }

  // ----- the entry

  lemma EntryStandsAtPosition(content: string, entry: string)
    ensures Occurs(InsertEntry(content, entry), entry, EntryPosition(content))
  {
    hide IndexOf, TrimEnd, SectionEnd, Includes;
    var r, at := InsertEntry(content, entry), EntryPosition(content);
    if !Includes(content, TIMELINE) {
      assert r == (TrimEnd(content) + "\n\n## Timeline\n\n") + entry + "\n";
      assert |TrimEnd(content) + "\n\n## Timeline\n\n"| == at;
    } else {
      match SectionEnd(content) {
        case None =>
          assert r == (TrimEnd(content) + "\n") + entry + "\n";
        case Some(k) =>
          assert r == (content[..k] + "\n") + entry + content[k..];
      }
    }
    assert r[at..at + |entry|] == entry;
  }

  lemma {:induction false} HeadingFitsTrimmed(content: string)
    requires Includes(content, TIMELINE)
    ensures Includes(TrimEnd(content), TIMELINE) && IndexOf(TrimEnd(content), TIMELINE) == IndexOf(content, TIMELINE)
    ensures IndexOf(content, TIMELINE).value + |TIMELINE| <= |TrimEnd(content)|
  {
    hide IndexOf, TrimEnd, Space;
    SolidHeading();
    TrimEndKeeps(content, TIMELINE);
    var t := TrimEnd(content);
    SameFirstIndex(t, content[|t|..], TIMELINE);
    assert t + content[|t|..] == content;
    InRange(t, TIMELINE, IndexOf(t, TIMELINE).value);
  }

  lemma SolidHeading()
    ensures Solid(TIMELINE)
  {
  }

  lemma {:induction false} SectionEndIsFirst(content: string)
    requires SectionEnd(content).Some?
    ensures var k := SectionEnd(content).value;
            && Includes(content, TIMELINE) && IndexOf(content, TIMELINE).value + |TIMELINE| <= k
            && !Includes(content[IndexOf(content, TIMELINE).value + |TIMELINE|..k], SECTION)
            && Includes(content[..k], TIMELINE)
  {
    hide IndexOf, Occurs, AfterTimeline;
    var h := IndexOf(content, TIMELINE).value;
    InRange(content, TIMELINE, h);
    var start, after := h + |TIMELINE|, AfterTimeline(content, h);
    NoneBeforeFirst(after, SECTION);
    var k := IndexOf(after, SECTION).value;
    AfterTimelineText(content, h);
    assert after[..k] == content[start..start + k];
    assert content == "" + content[..start + k] + content[start + k..];
    OccursInPart("", content[..start + k], content[start + k..], TIMELINE, h);
  }

  lemma AfterTimelineText(content: string, h: nat)
    requires h + |TIMELINE| <= |content|
    ensures AfterTimeline(content, h) <= content[h + |TIMELINE|..]
  {
  }

  /** The entry lands in a timeline section exactly when the page does not mislead. */
  lemma EntryLandsInTimeline(content: string, entry: string)
    ensures EntryPosition(content) <= |InsertEntry(content, entry)|
    ensures InTimeline(InsertEntry(content, entry), EntryPosition(content)) <==> !Misleads(content)
  {
    hide IndexOf, TrimEnd, SectionEnd, Occurs, InTimeline, InsertEntry, EntryPosition, Misleads;
    EntryStandsAtPosition(content, entry);
    InRange(InsertEntry(content, entry), entry, EntryPosition(content));
    if !Includes(content, TIMELINE) {
      LandsUnderNewHeading(content, entry);
    } else if SectionEnd(content).None? {
      LandsAtEnd(content, entry);
    } else {
      LandsBeforeNextSection(content, entry);
    }
  }

  /** What stands above the entry. */
  lemma {:induction false} AboveEntry(s: string, b: string)
    requires s != "" && s[|s| - 1] == '\n'
    ensures InTimeline(s + b, |s|) <==> EndsInTimeline(Lines(s[..|s| - 1]))
  {
    hide EndsInTimeline, Split;
    assert (s + b)[..|s|] == s;
    assert s == s[..|s| - 1] + "\n";
    BreakChangesNothing(s[..|s| - 1]);
  }

  lemma {:induction false} LandsUnderNewHeading(content: string, entry: string)
    requires !Includes(content, TIMELINE)
    ensures EntryPosition(content) <= |InsertEntry(content, entry)|
    ensures InTimeline(InsertEntry(content, entry), EntryPosition(content)) && !Misleads(content)
  {
    hide IndexOf, TrimEnd, SectionEnd, Occurs, Split, LastSection, InTimeline;
    var t := TrimEnd(content);
    var s := t + "\n\n## Timeline\n\n";
    AboveEntry(s, entry + "\n");
    assert s + (entry + "\n") == InsertEntry(content, entry);
    NewHeadingText(t);
    LinesJoin((t + "\n" + "") + "\n" + TIMELINE, "");
    LinesJoin(t + "\n" + "", TIMELINE);
    LinesOfLine(TIMELINE);
    LinesOfLine("");
    LastSectionConcat(Lines(t + "\n" + "") + [TIMELINE], [""]);
    LastSectionConcat(Lines(t + "\n" + ""), [TIMELINE]);
    LastSectionOfOne(TIMELINE);
    LastSectionOfOne("");
    HeadingIsSection(TIMELINE);
  }

  lemma NewHeadingText(text: string)
    ensures var s := text + "\n\n## Timeline\n\n";
            && |s| == |text| + 15 && s[|s| - 1] == '\n'
            && s[..|s| - 1] == (text + "\n" + "") + "\n" + TIMELINE + "\n" + ""
  {
    assert "\n\n## Timeline\n\n" == "\n" + "\n" + TIMELINE + "\n" + "\n";
  }

  lemma {:induction false} LandsBeforeNextSection(content: string, entry: string)
    requires Includes(content, TIMELINE) && SectionEnd(content).Some?
    ensures EntryPosition(content) <= |InsertEntry(content, entry)|
    ensures InTimeline(InsertEntry(content, entry), EntryPosition(content)) <==> !Misleads(content)
  {
    hide IndexOf, TrimEnd, SectionEnd, Occurs, InTimeline, EndsInTimeline, Split;
    var k, h := SectionEnd(content).value, IndexOf(content, TIMELINE).value;
    SectionEndIsFirst(content);
    var top := content[..k];
    AboveEntry(top + "\n", entry + content[k..]);
    assert (top + "\n") + (entry + content[k..]) == InsertEntry(content, entry);
    assert (top + "\n")[..k] == top;
    SameFirstIndex(top, content[k..], TIMELINE);
    assert top + content[k..] == content;
    AroundHeading(top, h);
    FirstHeadingDecides(top[..h], top[h + |TIMELINE|..]);
    assert top[h + |TIMELINE|..] == content[h + |TIMELINE|..k];
  }

  lemma {:induction false} AroundHeading(s: string, h: nat)
    requires IndexOf(s, TIMELINE) == Some(h)
    ensures h + |TIMELINE| <= |s| && s == s[..h] + TIMELINE + s[h + |TIMELINE|..]
  {
  }

  lemma {:induction false} LandsAtEnd(content: string, entry: string)
    requires Includes(content, TIMELINE) && SectionEnd(content).None?
    ensures EntryPosition(content) <= |InsertEntry(content, entry)|
    ensures InTimeline(InsertEntry(content, entry), EntryPosition(content)) <==> !Misleads(content)
  {
    hide IndexOf, TrimEnd, SectionEnd, Occurs, InTimeline, EndsInTimeline, Split;
    var t, h := TrimEnd(content), IndexOf(content, TIMELINE).value;
    AboveEntry(t + "\n", entry + "\n");
    assert (t + "\n") + (entry + "\n") == InsertEntry(content, entry);
    assert (t + "\n")[..|t|] == t;
    HeadingFitsTrimmed(content);
    AroundHeading(content, h);
    if !Includes(content[h + |TIMELINE|..], TIMELINE) {
      AroundHeading(t, h);
      NoSectionLeft(content, h);
      FirstHeadingDecides(t[..h], t[h + |TIMELINE|..]);
    }
  }

  /** With a single heading text and no section after it, trimming leaves none either. */
  lemma {:induction false} NoSectionLeft(content: string, h: nat)
    requires IndexOf(content, TIMELINE) == Some(h) && SectionEnd(content).None?
    requires h + |TIMELINE| <= |TrimEnd(content)| && !Includes(content[h + |TIMELINE|..], TIMELINE)
    ensures !Includes(TrimEnd(content)[h + |TIMELINE|..], SECTION)
  {
    hide IndexOf, TrimEnd;
    var rest, mid := content[h + |TIMELINE|..], TrimEnd(content)[h + |TIMELINE|..];
    assert AfterTimeline(content, h) == rest;
    assert rest == "" + mid + rest[|mid|..];
    if Includes(mid, SECTION) {
      IncludesInContext("", mid, rest[|mid|..], SECTION);
      assert false;
    }
  }

  // ----- pages that mislead

  /** A timeline section that quotes its own heading: the entry goes under the next section. */
  lemma {:induction false} QuotedHeadingMisleads(entry: string)
    ensures var content := "## Timeline ## Timeline\n## Notes";
            && EntryPosition(content) <= |InsertEntry(content, entry)|
            && !InTimeline(InsertEntry(content, entry), EntryPosition(content))
  {
    hide IndexOf, TrimEnd, Split, LastSection;
    var content, rest := "## Timeline ## Timeline\n## Notes", " ## Timeline\n## Notes";
    assert content[..11] == TIMELINE && content[11..] == rest;
    FirstIndex(content, TIMELINE, 0);
    SecondHeading(rest);
    ShortTextHasNoSection(" ");
    assert AfterTimeline(content, 0) == " ";
    assert !Space(content[|content| - 1]) && TrimEnd(content) == content;
    NotesAtEnd("## Timeline ## Timeline");
    assert content == "## Timeline ## Timeline" + "\n" + "## Notes";
    EntryLandsInTimeline(content, entry);
  }

  lemma {:induction false} NotesAtEnd(s: string)
    ensures !EndsInTimeline(Lines(s + "\n" + "## Notes"))
  {
    hide Split, LastSection;
    LinesJoin(s, "## Notes");
    LinesOfLine("## Notes");
    LastSectionConcat(Lines(s), ["## Notes"]);
    LastSectionOfOne("## Notes");
    assert "## Notes"[..3] == MARK && "## Notes"[3] != TIMELINE[3];
  }

  lemma {:induction false} SecondHeading(rest: string)
    requires rest == " ## Timeline\n## Notes"
    ensures IndexOf(rest, TIMELINE) == Some(1) && rest[..1] == " " && Includes(rest, TIMELINE)
  {
    hide IndexOf;
    assert rest[1..12] == TIMELINE && rest[0..11][0] == ' ';
    FirstIndex(rest, TIMELINE, 1);
  }

  /** A sentence that mentions the heading: the page has no timeline, gets none, and takes the entry under it. */
  lemma {:induction false} MentionedHeadingMisleads(entry: string)
    ensures var content := "see ## Timeline below\n\n## Notes";
            && EntryPosition(content) <= |InsertEntry(content, entry)|
            && !InTimeline(InsertEntry(content, entry), EntryPosition(content))
  {
    hide IndexOf, TrimEnd, Split;
    var content, rest := "see ## Timeline below\n\n## Notes", " below\n\n## Notes";
    assert content == "see " + TIMELINE + rest;
    assert content[4..15] == TIMELINE && content[15..] == rest;
    forall j | 0 <= j < 4 ensures !Occurs(content, TIMELINE, j) {
      assert content[j..j + 11][0] == content[j] != '#';
    }
    FirstIndex(content, TIMELINE, 4);
    SolidHeading();
    if Includes(rest, TIMELINE) {
      assert rest == " below" + "\n" + "\n## Notes";
      SolidOnOneSide(" below", "\n## Notes", TIMELINE);
      ShortTextHasNoHeading(" below");
      ShortTextHasNoHeading("\n## Notes");
      assert false;
    }
    assert content[3] == ' ';
    EntryLandsInTimeline(content, entry);
  }

  lemma ShortTextHasNoHeading(s: string)
    requires |s| < |TIMELINE|
    ensures !Includes(s, TIMELINE)
  {
  }

  lemma ShortTextHasNoSection(s: string)
    requires |s| < |SECTION|
    ensures !Includes(s, SECTION)
  {
  }
}
