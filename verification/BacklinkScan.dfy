/** Scanning the pages for missing back-links (commands/backlinks.ts). */
module BacklinkScan {
  import opened Wrappers
  import opened Grouping
  import opened Sorting
  import opened Rearrangements
  import opened PageText
  import opened Backlinks

  // ----- the references that count

  predicate EntityDir(dir: string) {
    dir == "people" || dir == "companies"
  }

  /** The slug without its directory, when it carries one. */
  function Strip(r: Ref): Ref {
    var prefix := r.dir + "/";
    if prefix <= r.slug then r.(slug := r.slug[|prefix|..]) else r
  }

  /** Of all references in a text, those to people and companies. */
  function ExtractEntityRefs(refs: seq<Ref>): (r: seq<Ref>)
    ensures forall x | x in r :: EntityDir(x.dir)
  {
    if refs == [] then []
    else
      ExtractEntityRefs(refs[..|refs| - 1])
      + if EntityDir(refs[|refs| - 1].dir) then [Strip(refs[|refs| - 1])] else []
  }

  function EntityRefsOf(extract: string -> seq<Ref>): string -> seq<Ref> {
    (content: string) => ExtractEntityRefs(extract(content))
  }

  // ----- finding the gaps

  /** `path.replace(".md", "")`: the first occurrence goes, wherever it is. */
  function Slug(path: string): string {
    match IndexOf(path, ".md")
    case None => path
    case Some(i) => path[..i] + path[i + 3..]
  }

  function TargetSlug(r: Ref): string {
    r.dir + "/" + r.slug
  }

  /** The contents by slug; a later page replaces an earlier one. */
  function BySlug(pages: seq<string>, files: Files): map<string, string>
    requires forall p | p in pages :: p in files
  {
    if pages == [] then map[]
    else
      var p := pages[|pages| - 1];
      assert p in pages;
      BySlug(pages[..|pages| - 1], files)[Slug(p) := files[p]]
  }

  predicate Mentions(refs: seq<Ref>, slug: string) {
    exists i :: 0 <= i < |refs| && TargetSlug(refs[i]) == slug
  }

  /** What one page's references leave to report; only the first mention of a target counts. */
  function PageGaps(page: string, title: string, refs: seq<Ref>, bySlug: map<string, string>): seq<Gap> {
    if refs == [] then []
    else
      var before, r := refs[..|refs| - 1], refs[|refs| - 1];
      var slug := TargetSlug(r);
      PageGaps(page, title, before, bySlug)
      + if Mentions(before, slug) || slug !in bySlug || HasBacklink(bySlug[slug], Basename(page)) then []
        else [Gap(page, slug + ".md", r.name, title)]
  }

  /** All gaps, page by page, given what a text refers to and how it is titled. */
  function Gaps(pages: seq<string>, bySlug: map<string, string>, files: Files,
                refsOf: string -> seq<Ref>, titleOf: string -> string): seq<Gap>
    requires forall p | p in pages :: p in files
  {
    if pages == [] then []
    else
      var p := pages[|pages| - 1];
      assert p in pages;
      Gaps(pages[..|pages| - 1], bySlug, files, refsOf, titleOf)
      + PageGaps(p, titleOf(files[p]), refsOf(files[p]), bySlug)
  }

  function AllGaps(pages: seq<string>, files: Files, refsOf: string -> seq<Ref>, titleOf: string -> string): seq<Gap>
    requires forall p | p in pages :: p in files
  {
    Gaps(pages, BySlug(pages, files), files, refsOf, titleOf)
  }

  method FindBacklinkGaps(pages: seq<string>, files: Files, extract: string -> seq<Ref>, titleOf: string -> string)
    returns (gaps: seq<Gap>)
    requires forall p | p in pages :: p in files
    ensures gaps == AllGaps(pages, files, EntityRefsOf(extract), titleOf)
  {
    hide BySlug, Gaps, PageGaps, Slug, ExtractEntityRefs;
    ghost var refsOf := EntityRefsOf(extract);
    var pagesBySlug: map<string, string> := map[];
    NothingFound(files, refsOf, titleOf);
    for i := 0 to |pages|
      invariant pagesBySlug == BySlug(pages[..i], files)
    {
      BySlugSnoc(pages[..i], pages[i], files);
      assert pages[..i + 1] == pages[..i] + [pages[i]];
      pagesBySlug := pagesBySlug[Slug(pages[i]) := files[pages[i]]];
    }
    assert pages[..|pages|] == pages;
    gaps := [];
    for i := 0 to |pages|
      invariant gaps == Gaps(pages[..i], pagesBySlug, files, refsOf, titleOf)
    {
      GapsSnoc(pages[..i], pages[i], pagesBySlug, files, refsOf, titleOf);
      assert pages[..i + 1] == pages[..i] + [pages[i]];
      var content := files[pages[i]];
      var refs := ExtractEntityRefs(extract(content));
      var found := FindInPage(pages[i], titleOf(content), refs, pagesBySlug);
      gaps := gaps + found;
    }
  }

  method FindInPage(page: string, title: string, refs: seq<Ref>, pagesBySlug: map<string, string>) returns (gaps: seq<Gap>)
    ensures gaps == PageGaps(page, title, refs, pagesBySlug)
  {
    hide PageGaps, Basename, IndexOf, TargetSlug;
    var seen: set<string> := {};
    gaps := [];
    NoRefs(page, title, pagesBySlug);
    for i := 0 to |refs|
      invariant forall t :: t in seen <==> Mentions(refs[..i], t)
      invariant gaps == PageGaps(page, title, refs[..i], pagesBySlug)
    {
      var targetSlug := TargetSlug(refs[i]);
      PageGapsSnoc(page, title, refs[..i], refs[i], pagesBySlug);
      assert refs[..i + 1] == refs[..i] + [refs[i]];
      if targetSlug in seen {
        continue;
      }
      seen := seen + {targetSlug};
      if targetSlug !in pagesBySlug {
        continue;
      }
      if !HasBacklink(pagesBySlug[targetSlug], Basename(page)) {
        gaps := gaps + [Gap(page, targetSlug + ".md", refs[i].name, title)];
      }
    }
    assert refs[..|refs|] == refs;
  }

  lemma {:induction false} NothingFound(files: Files, refsOf: string -> seq<Ref>, titleOf: string -> string)
    ensures BySlug([], files) == map[]
    ensures forall bySlug :: Gaps([], bySlug, files, refsOf, titleOf) == []
  {
  }

  lemma {:induction false} NoRefs(page: string, title: string, bySlug: map<string, string>)
    ensures PageGaps(page, title, [], bySlug) == [] && forall t :: !Mentions([], t)
  {
  }

  lemma {:induction false} BySlugSnoc(pages: seq<string>, p: string, files: Files)
    requires p in files && forall q | q in pages :: q in files
    ensures BySlug(pages + [p], files) == BySlug(pages, files)[Slug(p) := files[p]]
  {
    assert (pages + [p])[..|pages|] == pages;
  }

  lemma {:induction false} GapsSnoc(pages: seq<string>, p: string, bySlug: map<string, string>, files: Files,
                 refsOf: string -> seq<Ref>, titleOf: string -> string)
    requires p in files && forall q | q in pages :: q in files
    ensures Gaps(pages + [p], bySlug, files, refsOf, titleOf)
         == Gaps(pages, bySlug, files, refsOf, titleOf) + PageGaps(p, titleOf(files[p]), refsOf(files[p]), bySlug)
  {
    assert (pages + [p])[..|pages|] == pages;
  }

  lemma {:induction false} PageGapsSnoc(page: string, title: string, refs: seq<Ref>, r: Ref, bySlug: map<string, string>)
    ensures PageGaps(page, title, refs + [r], bySlug)
         == PageGaps(page, title, refs, bySlug)
          + if Mentions(refs, TargetSlug(r)) || TargetSlug(r) !in bySlug || HasBacklink(bySlug[TargetSlug(r)], Basename(page)) then []
            else [Gap(page, TargetSlug(r) + ".md", r.name, title)]
    ensures forall t :: Mentions(refs + [r], t) <==> Mentions(refs, t) || t == TargetSlug(r)
  {
    var all := refs + [r];
    assert all[..|refs|] == refs && all[|refs|] == r && forall i | 0 <= i < |refs| :: all[i] == refs[i];
  }

  // ----- what is found, and what a fix closes

  ghost predicate Reported(gaps: seq<Gap>, page: string, slug: string) {
    exists g :: g in gaps && g.sourcePage == page && g.targetPage == slug + ".md"
  }

  /** A page mentions a page that has no link back. */
  ghost predicate Open(page: string, slug: string, refs: seq<Ref>, bySlug: map<string, string>) {
    Mentions(refs, slug) && slug in bySlug && !HasBacklink(bySlug[slug], Basename(page))
  }

  lemma {:induction false} PageGapsAreOpen(page: string, title: string, refs: seq<Ref>, bySlug: map<string, string>, slug: string)
    ensures Reported(PageGaps(page, title, refs, bySlug), page, slug) <==> Open(page, slug, refs, bySlug)
    ensures forall g | g in PageGaps(page, title, refs, bySlug) :: g.sourcePage == page
  {
    hide HasBacklink, TargetSlug, PageGaps, Mentions;
    NoRefs(page, title, bySlug);
    if refs != [] {
      var m := |refs| - 1;
      PageGapsAreOpen(page, title, refs[..m], bySlug, slug);
      assert refs == refs[..m] + [refs[m]];
      PageGapsSnoc(page, title, refs[..m], refs[m], bySlug);
      var old_, t := PageGaps(page, title, refs[..m], bySlug), TargetSlug(refs[m]);
      var g := Gap(page, t + ".md", refs[m].name, title);
      ReportedSnoc(old_, g, page, slug);
      SameSlug(t, slug);
      assert old_ + [] == old_;
    }
  }

  lemma ReportedSnoc(gaps: seq<Gap>, g: Gap, page: string, slug: string)
    ensures Reported(gaps + [g], page, slug)
        <==> Reported(gaps, page, slug) || (g.sourcePage == page && g.targetPage == slug + ".md")
  {
    assert forall x :: x in gaps + [g] <==> x in gaps || x == g;
  }

  lemma SameSlug(a: string, b: string)
    ensures a + ".md" == b + ".md" <==> a == b
  {
    if a + ".md" == b + ".md" {
      assert (a + ".md")[..|a|] == a && (b + ".md")[..|b|] == b;
    }
  }

  lemma {:induction false} GapsAreOpen(pages: seq<string>, bySlug: map<string, string>, files: Files,
                                       refsOf: string -> seq<Ref>, titleOf: string -> string, page: string, slug: string)
    requires forall p | p in pages :: p in files
    ensures Reported(Gaps(pages, bySlug, files, refsOf, titleOf), page, slug)
        <==> page in pages && Open(page, slug, refsOf(files[page]), bySlug)
    ensures forall g | g in Gaps(pages, bySlug, files, refsOf, titleOf) :: g.sourcePage in pages
  {
    hide PageGaps, Open, Gaps;
    NothingFound(files, refsOf, titleOf);
    if pages != [] {
      var m := |pages| - 1;
      var p := pages[m];
      assert pages == pages[..m] + [p];
      GapsAreOpen(pages[..m], bySlug, files, refsOf, titleOf, page, slug);
      GapsSnoc(pages[..m], p, bySlug, files, refsOf, titleOf);
      PageGapsAreOpen(p, titleOf(files[p]), refsOf(files[p]), bySlug, slug);
      var old_, more := Gaps(pages[..m], bySlug, files, refsOf, titleOf), PageGaps(p, titleOf(files[p]), refsOf(files[p]), bySlug);
      assert forall x :: x in old_ + more <==> x in old_ || x in more;
    }
  }

  /** A gap is reported exactly where a page mentions an existing page that does not name it. */
  lemma {:induction false} ReportedIffOpen(pages: seq<string>, files: Files, refsOf: string -> seq<Ref>, titleOf: string -> string,
                        page: string, slug: string)
    requires forall p | p in pages :: p in files
    ensures Reported(AllGaps(pages, files, refsOf, titleOf), page, slug)
        <==> page in pages && Open(page, slug, refsOf(files[page]), BySlug(pages, files))
  {
    GapsAreOpen(pages, BySlug(pages, files), files, refsOf, titleOf, page, slug);
  }

  /** The page a slug leads to: the last one listed that goes by it. */
  function PageOf(pages: seq<string>, slug: string): Option<string> {
    if pages == [] then None
    else if Slug(pages[|pages| - 1]) == slug then Some(pages[|pages| - 1])
    else PageOf(pages[..|pages| - 1], slug)
  }

  lemma {:induction false} BySlugIsPageOf(pages: seq<string>, files: Files, slug: string)
    requires forall p | p in pages :: p in files
    ensures slug in BySlug(pages, files) <==> PageOf(pages, slug).Some?
    ensures PageOf(pages, slug).Some? ==>
              var q := PageOf(pages, slug).value;
              q in pages && Slug(q) == slug && BySlug(pages, files)[slug] == files[q]
    ensures PageOf(pages, slug) == None ==> forall p | p in pages :: Slug(p) != slug
  {
    hide Slug;
    if pages != [] {
      var m := |pages| - 1;
      assert pages == pages[..m] + [pages[m]];
      if Slug(pages[m]) != slug {
        BySlugIsPageOf(pages[..m], files, slug);
      }
    }
  }

  /**
    A gap that was found and fixed is not found again, whatever the new entries refer to, if the
    target's slug leads to the page the fix writes to.
  */
  lemma {:induction false} FixedGapsAreNotFoundAgain(pages: seq<string>, files: Files, refsOf: string -> seq<Ref>,
                                                     titleOf: string -> string, today: string, page: string, slug: string)
    requires (forall p | p in pages :: p in files) && PageOf(pages, slug) == Some(slug + ".md")
    requires Solid(Basename(page)) && Reported(AllGaps(pages, files, refsOf, titleOf), page, slug)
    ensures var after := Fixed(files, AllGaps(pages, files, refsOf, titleOf), today);
            !Reported(AllGaps(pages, after, refsOf, titleOf), page, slug)
  {
    hide Gaps, Basename, Slug, Solid, HasBacklink, InsertAll, WithKey, BySlug, AllGaps, PageOf;
    var gaps := AllGaps(pages, files, refsOf, titleOf);
    var after := Fixed(files, gaps, today);
    ReportedIffOpen(pages, after, refsOf, titleOf, page, slug);
    var g :| g in gaps && g.sourcePage == page && g.targetPage == slug + ".md";
    BySlugIsPageOf(pages, files, slug);
    BySlugIsPageOf(pages, after, slug);
    FixedGapsStayFixed(files, gaps, today, slug + ".md", Basename(page));
  }

  // ----- which gaps can be fixed at all

  /** What the walk lists. */
  predicate IsPage(path: string) {
    |path| >= 3 && path[|path| - 3..] == ".md"
  }

  predicate EntityPath(slug: string) {
    "people/" <= slug || "companies/" <= slug
  }

  /** The extractor's slugs start with the directory they are filed under. */
  ghost predicate DirsLeadSlugs(extract: string -> seq<Ref>) {
    forall content, r | r in extract(content) && EntityDir(r.dir) :: r.dir + "/" <= r.slug
  }

  /** A fix right after the scan counts every gap found. */
  ghost predicate AllCounted(pages: seq<string>, files: Files, extract: string -> seq<Ref>, titleOf: string -> string)
    requires forall p | p in pages :: p in files
  {
    var gaps := AllGaps(pages, files, EntityRefsOf(extract), titleOf);
    CountFixable(gaps, files) == |gaps|
  }

  lemma {:induction false} CountAll(gaps: seq<Gap>, files: Files)
    ensures CountFixable(gaps, files) <= |gaps|
    ensures CountFixable(gaps, files) == |gaps| <==> forall g | g in gaps :: g.targetPage in files
  {
    hide CountFixable;
    NothingToCount(files);
    if gaps != [] {
      var pre, last := gaps[..|gaps| - 1], gaps[|gaps| - 1];
      CountAll(pre, files);
      CountLast(gaps, files);
      forall g ensures g in gaps <==> g in pre || g == last {
        assert gaps == pre + [last];
      }
    }
  }

  lemma {:induction false} NothingToCount(files: Files)
    ensures CountFixable([], files) == 0
  {
  }

  lemma {:induction false} CountLast(gaps: seq<Gap>, files: Files)
    requires gaps != []
    ensures CountFixable(gaps, files)
         == CountFixable(gaps[..|gaps| - 1], files) + if gaps[|gaps| - 1].targetPage in files then 1 else 0
  {
  }

  /** Every gap comes from a reference to a slug that some page goes by. */
  lemma {:induction false} RefOfFound(pages: seq<string>, bySlug: map<string, string>, files: Files,
                                      refsOf: string -> seq<Ref>, titleOf: string -> string, g: Gap) returns (p: string, r: Ref)
    requires forall p | p in pages :: p in files
    requires g in Gaps(pages, bySlug, files, refsOf, titleOf)
    ensures p in pages && r in refsOf(files[p]) && TargetSlug(r) in bySlug && g.targetPage == TargetSlug(r) + ".md"
  {
    hide PageGaps;
    var m := |pages| - 1;
    p := pages[m];
    assert p in pages;
    var more := PageGaps(p, titleOf(files[p]), refsOf(files[p]), bySlug);
    if g in more {
      r := RefOfReported(p, titleOf(files[p]), refsOf(files[p]), bySlug, g);
    } else {
      p, r := RefOfFound(pages[..m], bySlug, files, refsOf, titleOf, g);
    }
  }

  lemma {:induction false} RefOfReported(page: string, title: string, refs: seq<Ref>, bySlug: map<string, string>, g: Gap)
    returns (r: Ref)
    requires g in PageGaps(page, title, refs, bySlug)
    ensures r in refs && TargetSlug(r) in bySlug && g.targetPage == TargetSlug(r) + ".md"
  {
    hide HasBacklink, Mentions, TargetSlug;
    var m := |refs| - 1;
    if g in PageGaps(page, title, refs[..m], bySlug) {
      r := RefOfReported(page, title, refs[..m], bySlug, g);
    } else {
      r := refs[m];
    }
  }

  lemma EntityTarget(r: Ref)
    requires EntityDir(r.dir)
    ensures EntityPath(TargetSlug(r))
  {
    assert "people" + "/" == "people/" && "companies" + "/" == "companies/";
  }

  /** A canonical reference to an entity slug, and what the wrapper makes of it. */
  function RefTo(slug: string): Ref {
    Ref("n", slug, if "people/" <= slug then "people" else "companies")
  }

  lemma RefToEntity(slug: string)
    requires EntityPath(slug)
    ensures var r := RefTo(slug);
            && EntityDir(r.dir) && r.dir + "/" <= r.slug
            && ExtractEntityRefs([r]) == [Strip(r)] && TargetSlug(Strip(r)) == slug
  {
    var r := RefTo(slug);
    assert "people" + "/" == "people/" && "companies" + "/" == "companies/";
    assert [r][..0] == [];
    assert slug == slug[..|r.dir| + 1] + slug[|r.dir| + 1..];
  }

  /** Pages that all hold one text, which refers to the slug of `p` and does not name it: the gap at `p` itself is found. */
  lemma {:induction false} SelfGap(pages: seq<string>, files: Files, p: string, text: string,
                                   extract: string -> seq<Ref>, titleOf: string -> string)
    requires forall q | q in pages :: q in files && files[q] == text
    requires p in pages && EntityPath(Slug(p)) && extract(text) == [RefTo(Slug(p))] && !HasBacklink(text, Basename(p))
    ensures Reported(AllGaps(pages, files, EntityRefsOf(extract), titleOf), p, Slug(p))
  {
    hide Slug, Basename, AllGaps, ExtractEntityRefs, IndexOf, TargetSlug;
    var slug := Slug(p);
    RefToEntity(slug);
    BySlugIsPageOf(pages, files, slug);
    var refs := EntityRefsOf(extract)(files[p]);
    assert refs == [Strip(RefTo(slug))];
    assert TargetSlug(refs[0]) == slug;
    ReportedIffOpen(pages, files, EntityRefsOf(extract), titleOf, p, slug);
  }

  /**
    For a given set of files, a fix counts every gap the scan before it found, whatever the pages
    say, exactly when every listed page with a person's or company's slug has a file at that slug
    plus ".md".
  */
  lemma EveryFoundGapIsCounted(pages: seq<string>, paths: set<string>)
    requires forall p | p in pages :: p in paths && IsPage(p)
    ensures (forall files: Files, extract, titleOf | files.Keys == paths && DirsLeadSlugs(extract) ::
               AllCounted(pages, files, extract, titleOf))
            <==> (forall p | p in pages && EntityPath(Slug(p)) :: Slug(p) + ".md" in paths)
  {
    hide Slug, AllGaps, EntityPath, TargetSlug;
    if forall p | p in pages && EntityPath(Slug(p)) :: Slug(p) + ".md" in paths {
      forall files: Files, extract, titleOf | files.Keys == paths && DirsLeadSlugs(extract)
        ensures AllCounted(pages, files, extract, titleOf)
      {
        EveryTargetExists(pages, files, extract, titleOf);
      }
    }
    forall p | p in pages && EntityPath(Slug(p)) && Slug(p) + ".md" !in paths
      ensures exists files: Files, extract, titleOf ::
                files.Keys == paths && DirsLeadSlugs(extract) && !AllCounted(pages, files, extract, titleOf)
    {
      var files: Files := map q | q in paths :: "";
      var extract := (content: string) => [RefTo(Slug(p))];
      var titleOf := (content: string) => "";
      RefToEntity(Slug(p));
      BasenameNotEmpty(p);
      EmptyHasNoBacklink(Basename(p));
      SelfGap(pages, files, p, "", extract, titleOf);
      CountAll(AllGaps(pages, files, EntityRefsOf(extract), titleOf), files);
      assert files.Keys == paths && DirsLeadSlugs(extract);
      assert !AllCounted(pages, files, extract, titleOf);
    }
  }

  lemma {:induction false} EveryTargetExists(pages: seq<string>, files: Files, extract: string -> seq<Ref>, titleOf: string -> string)
    requires forall p | p in pages :: p in files
    requires forall p | p in pages && EntityPath(Slug(p)) :: Slug(p) + ".md" in files
    ensures AllCounted(pages, files, extract, titleOf)
  {
    hide Slug, Gaps, EntityPath, TargetSlug, BySlug;
    var refsOf := EntityRefsOf(extract);
    var gaps := AllGaps(pages, files, refsOf, titleOf);
    forall g | g in gaps ensures g.targetPage in files {
      var p, r := RefOfFound(pages, BySlug(pages, files), files, refsOf, titleOf, g);
      EntityTarget(r);
      BySlugIsPageOf(pages, files, TargetSlug(r));
    }
    CountAll(gaps, files);
  }

  // ----- which fixes hold

  /** No gap that the scan before a fix found is found by the scan after it. */
  ghost predicate AllClosed(pages: seq<string>, files: Files, extract: string -> seq<Ref>, titleOf: string -> string, today: string)
    requires forall p | p in pages :: p in files
  {
    var refsOf := EntityRefsOf(extract);
    var after := Fixed(files, AllGaps(pages, files, refsOf, titleOf), today);
    forall page, slug | Reported(AllGaps(pages, files, refsOf, titleOf), page, slug) ::
      !Reported(AllGaps(pages, after, refsOf, titleOf), page, slug)
  }

  /**
    For a given set of files, a fix closes every gap the scan before it found, whatever the pages
    say, exactly when every person's or company's slug leads to the page of that name: of the pages
    that go by it, the one listed last.
  */
  lemma EveryFoundGapIsClosed(pages: seq<string>, paths: set<string>)
    requires forall p | p in pages :: p in paths && IsPage(p) && '\n' !in p
    ensures (forall files: Files, extract, titleOf, today | files.Keys == paths && DirsLeadSlugs(extract) ::
               AllClosed(pages, files, extract, titleOf, today))
            <==> (forall p | p in pages && EntityPath(Slug(p)) :: PageOf(pages, Slug(p)) == Some(Slug(p) + ".md"))
  {
    hide Slug, AllGaps, EntityPath, TargetSlug, PageOf, AllClosed;
    if forall p | p in pages && EntityPath(Slug(p)) :: PageOf(pages, Slug(p)) == Some(Slug(p) + ".md") {
      forall files: Files, extract, titleOf, today | files.Keys == paths && DirsLeadSlugs(extract)
        ensures AllClosed(pages, files, extract, titleOf, today)
      {
        NamesakesClose(pages, files, extract, titleOf, today);
      }
    }
    forall p | p in pages && EntityPath(Slug(p)) && PageOf(pages, Slug(p)) != Some(Slug(p) + ".md")
      ensures exists files: Files, extract, titleOf, today ::
                files.Keys == paths && DirsLeadSlugs(extract) && !AllClosed(pages, files, extract, titleOf, today)
    {
      var files: Files := map q | q in paths :: "";
      var extract := (content: string) => [RefTo(Slug(p))];
      var titleOf := (content: string) => "";
      BlankPagesStayOpen(pages, files, p, extract, titleOf);
      assert files.Keys == paths && DirsLeadSlugs(extract) && !AllClosed(pages, files, extract, titleOf, "");
    }
  }

  lemma {:induction false} BlankPagesStayOpen(pages: seq<string>, files: Files, p: string, extract: string -> seq<Ref>, titleOf: string -> string)
    requires forall q | q in pages :: q in files && files[q] == ""
    requires p in pages && IsPage(p) && EntityPath(Slug(p)) && PageOf(pages, Slug(p)) != Some(Slug(p) + ".md")
    requires forall content :: extract(content) == [RefTo(Slug(p))]
    ensures DirsLeadSlugs(extract) && !AllClosed(pages, files, extract, titleOf, "")
  {
    hide Slug, AllGaps, EntityPath, TargetSlug, PageOf, Basename, InsertAll, WithKey, HasBacklink, ExtractEntityRefs;
    var slug := Slug(p);
    RefToEntity(slug);
    BasenameNotEmpty(p);
    EmptyHasNoBacklink(Basename(p));
    SelfGap(pages, files, p, "", extract, titleOf);
    BySlugIsPageOf(pages, files, slug);
    WrongPageStaysOpen(pages, files, extract, titleOf, "", p, slug);
  }

  lemma {:induction false} NamesakesClose(pages: seq<string>, files: Files, extract: string -> seq<Ref>, titleOf: string -> string, today: string)
    requires forall p | p in pages :: p in files && IsPage(p) && '\n' !in p
    requires forall p | p in pages && EntityPath(Slug(p)) :: PageOf(pages, Slug(p)) == Some(Slug(p) + ".md")
    ensures AllClosed(pages, files, extract, titleOf, today)
  {
    hide Slug, Gaps, EntityPath, TargetSlug, BySlug, PageOf, InsertAll, WithKey, Basename, IsPage, Solid, HasBacklink;
    var refsOf := EntityRefsOf(extract);
    var gaps := AllGaps(pages, files, refsOf, titleOf);
    forall page, slug | Reported(gaps, page, slug)
      ensures !Reported(AllGaps(pages, Fixed(files, gaps, today), refsOf, titleOf), page, slug)
    {
      ReportedIffOpen(pages, files, refsOf, titleOf, page, slug);
      var g :| g in gaps && g.sourcePage == page && g.targetPage == slug + ".md";
      var p, r := RefOfFound(pages, BySlug(pages, files), files, refsOf, titleOf, g);
      SameSlug(TargetSlug(r), slug);
      EntityTarget(r);
      BySlugIsPageOf(pages, files, slug);
      PageNameIsSolid(page);
      FixedGapsAreNotFoundAgain(pages, files, refsOf, titleOf, today, page, slug);
    }
  }

  lemma {:induction false} PageNameIsSolid(path: string)
    requires IsPage(path) && '\n' !in path
    ensures Solid(Basename(path))
  {
    hide Basename;
    var dir := BasenameEnds(path);
    var name := Basename(path);
    BasenameNotEmpty(path);
    assert path[|path| - 3..][2] == 'd' && path[|path| - 3..][2] == path[|path| - 1];
    assert name[|name| - 1] == path[|path| - 1];
    assert forall i | 0 <= i < |name| :: name[i] == path[|dir| + i];
  }

  /** Where the slug leads to a page the fix does not write to, the gap is there again. */
  lemma {:induction false} WrongPageStaysOpen(pages: seq<string>, files: Files, extract: string -> seq<Ref>, titleOf: string -> string,
                                              today: string, page: string, slug: string)
    requires forall p | p in pages :: p in files
    requires EntityPath(slug) && (forall content, r | r in extract(content) :: extract(content) == [RefTo(slug)])
    requires PageOf(pages, slug).Some? && PageOf(pages, slug).value != slug + ".md"
    requires Reported(AllGaps(pages, files, EntityRefsOf(extract), titleOf), page, slug)
    requires page != slug + ".md" || forall content :: extract(content) != []
    ensures var after := Fixed(files, AllGaps(pages, files, EntityRefsOf(extract), titleOf), today);
            Reported(AllGaps(pages, after, EntityRefsOf(extract), titleOf), page, slug)
  {
    hide Slug, AllGaps, EntityPath, TargetSlug, BySlug, PageOf, InsertAll, WithKey, ExtractEntityRefs, Basename, HasBacklink;
    var refsOf := EntityRefsOf(extract);
    var gaps := AllGaps(pages, files, refsOf, titleOf);
    var after, q := Fixed(files, gaps, today), PageOf(pages, slug).value;
    forall g | g in gaps ensures g.targetPage == slug + ".md" {
      OnlyTarget(pages, files, extract, titleOf, slug, g);
    }
    ReportedIffOpen(pages, files, refsOf, titleOf, page, slug);
    ReportedIffOpen(pages, after, refsOf, titleOf, page, slug);
    BySlugIsPageOf(pages, files, slug);
    BySlugIsPageOf(pages, after, slug);
    OtherPagesUntouched(files, gaps, today, q);
    NoRefsExtracted();
    NothingMentioned(slug);
    if page == slug + ".md" {
      assert extract(files[page])[0] in extract(files[page]);
      assert extract(after[page])[0] in extract(after[page]);
      assert refsOf(after[page]) == refsOf(files[page]);
    } else {
      OtherPagesUntouched(files, gaps, today, page);
    }
  }

  lemma NothingMentioned(slug: string)
    ensures !Mentions([], slug)
  {
  }

  const LINK := "[Ax](people/ax.md.md)"
  const INNER := ["people/a.mdx.md"]
  const INNER_FILES: Files := map["people/a.mdx.md" := LINK]
  const INNER_REFS := (content: string) => if content == LINK then [RefTo("people/ax.md")] else []
  const UNTITLED := (content: string) => "t"

  /** A page with an inner ".md" whose slug a link spells out: a gap that every fix leaves open. */
  lemma {:induction false} InnerExtensionStaysOpen(today: string)
    ensures (forall p | p in INNER :: p in INNER_FILES && IsPage(p)) && DirsLeadSlugs(INNER_REFS)
    ensures var gaps := AllGaps(INNER, INNER_FILES, EntityRefsOf(INNER_REFS), UNTITLED);
            gaps != [] && Fixed(INNER_FILES, gaps, today) == INNER_FILES
  {
    hide IndexOf, Basename, AllGaps, BySlug, Slug, TargetSlug, ExtractEntityRefs, InsertAll, WithKey, HasBacklink;
    var page, slug := "people/a.mdx.md", "people/ax.md";
    assert INNER[0] == page && page[12..] == ".md";
    IsEntity(slug);
    SlugOfPage();
    RefToEntity(slug);
    LinkDoesNotNamePage();
    SelfGap(INNER, INNER_FILES, page, LINK, INNER_REFS, UNTITLED);
    var gaps := AllGaps(INNER, INNER_FILES, EntityRefsOf(INNER_REFS), UNTITLED);
    forall g | g in gaps ensures g.targetPage != page {
      OnlyTarget(INNER, INNER_FILES, INNER_REFS, UNTITLED, slug, g);
      assert (slug + ".md")[8] == 'x' && page[8] == '.';
    }
    OtherPagesUntouched(INNER_FILES, gaps, today, page);
  }

  const LINK_TO_NAMESAKE := "[X](people/a-x.md.md)"
  const NAMESAKES := ["people/a-x.md.md", "people/a.md-x.md", "r.md"]
  const NAMESAKE_FILES: Files := map["people/a-x.md.md" := "", "people/a.md-x.md" := "", "r.md" := LINK_TO_NAMESAKE]
  const NAMESAKE_REFS := (content: string) => if content == LINK_TO_NAMESAKE then [RefTo("people/a-x.md")] else []

  /** Two pages that go by one slug: the fix writes to the first and counts the gap, the scan reads the second. */
  lemma {:induction false} NamesakeStaysOpen(today: string)
    ensures (forall p | p in NAMESAKES :: p in NAMESAKE_FILES) && DirsLeadSlugs(NAMESAKE_REFS)
    ensures AllCounted(NAMESAKES, NAMESAKE_FILES, NAMESAKE_REFS, UNTITLED)
    ensures !AllClosed(NAMESAKES, NAMESAKE_FILES, NAMESAKE_REFS, UNTITLED, today)
  {
    hide IndexOf, Basename, AllGaps, BySlug, Slug, TargetSlug, ExtractEntityRefs, InsertAll, WithKey, HasBacklink;
    var slug := "people/a-x.md";
    IsEntity(slug);
    RefToEntity(slug);
    NamesakeGap();
    PageOfNamesakes();
    WrongPageStaysOpen(NAMESAKES, NAMESAKE_FILES, NAMESAKE_REFS, UNTITLED, today, "r.md", slug);
    var gaps := AllGaps(NAMESAKES, NAMESAKE_FILES, EntityRefsOf(NAMESAKE_REFS), UNTITLED);
    forall g | g in gaps ensures g.targetPage in NAMESAKE_FILES {
      OnlyTarget(NAMESAKES, NAMESAKE_FILES, NAMESAKE_REFS, UNTITLED, slug, g);
      assert slug + ".md" == "people/a-x.md.md";
    }
    CountAll(gaps, NAMESAKE_FILES);
  }

  lemma IsEntity(slug: string)
    requires |slug| >= 7 && slug[..7] == "people/"
    ensures EntityPath(slug)
  {
  }

  lemma {:induction false} NamesakeGap()
    ensures Reported(AllGaps(NAMESAKES, NAMESAKE_FILES, EntityRefsOf(NAMESAKE_REFS), UNTITLED), "r.md", "people/a-x.md")
  {
    hide IndexOf, Basename, AllGaps, BySlug, Slug, TargetSlug, ExtractEntityRefs, HasBacklink;
    var slug, source, refsOf := "people/a-x.md", "r.md", EntityRefsOf(NAMESAKE_REFS);
    IsEntity(slug);
    RefToEntity(slug);
    PageOfNamesakes();
    BySlugIsPageOf(NAMESAKES, NAMESAKE_FILES, slug);
    BasenameNotEmpty(source) by { assert source[1..] == ".md"; }
    EmptyHasNoBacklink(Basename(source));
    var refs := refsOf(NAMESAKE_FILES[source]);
    assert refs == [Strip(RefTo(slug))];
    assert TargetSlug(refs[0]) == slug;
    assert NAMESAKES[2] == source;
    ReportedIffOpen(NAMESAKES, NAMESAKE_FILES, refsOf, UNTITLED, source, slug);
  }

  lemma {:induction false} PageOfNamesakes()
    ensures PageOf(NAMESAKES, "people/a-x.md") == Some("people/a.md-x.md")
    ensures "people/a.md-x.md" != "people/a-x.md" + ".md"
  {
    hide Slug;
    SlugsOfNamesakes();
    assert NAMESAKES[..2][1] == NAMESAKES[1] && |"r"| != |"people/a-x.md"|;
    assert "people/a.md-x.md"[8] != ("people/a-x.md" + ".md")[8];
  }

  lemma {:induction false} SlugsOfNamesakes()
    ensures Slug("people/a.md-x.md") == "people/a-x.md" && Slug("r.md") == "r"
  {
    hide IndexOf;
    var page := "people/a.md-x.md";
    assert page[8..11] == ".md";
    forall j | 0 <= j < 8 ensures !Occurs(page, ".md", j) {
      assert page[j..j + 3][0] == page[j] != '.';
    }
    FirstIndex(page, ".md", 8);
    assert page[..8] + page[11..] == "people/a-x.md";
    var source := "r.md";
    assert source[1..4] == ".md" && source[0..3][0] == 'r';
    FirstIndex(source, ".md", 1);
    assert source[..1] + source[4..] == "r";
  }

  lemma {:induction false} OnlyTarget(pages: seq<string>, files: Files, extract: string -> seq<Ref>, titleOf: string -> string,
                                      slug: string, g: Gap)
    requires forall p | p in pages :: p in files
    requires EntityPath(slug) && forall content, r | r in extract(content) :: extract(content) == [RefTo(slug)]
    requires g in AllGaps(pages, files, EntityRefsOf(extract), titleOf)
    ensures g.targetPage == slug + ".md"
  {
    hide Gaps, BySlug, TargetSlug, ExtractEntityRefs;
    RefToEntity(slug);
    var p, r := RefOfFound(pages, BySlug(pages, files), files, EntityRefsOf(extract), titleOf, g);
    assert extract(files[p]) != [] by { NoRefsExtracted(); }
    assert extract(files[p])[0] in extract(files[p]);
    assert EntityRefsOf(extract)(files[p]) == [Strip(RefTo(slug))];
  }

  lemma {:induction false} SlugOfPage()
    ensures Slug("people/a.mdx.md") == "people/ax.md"
  {
    hide IndexOf;
    var page := "people/a.mdx.md";
    assert page[8..11] == ".md";
    forall j | 0 <= j < 8 ensures !Occurs(page, ".md", j) {
      assert page[j..j + 3][0] == page[j] != '.';
    }
    FirstIndex(page, ".md", 8);
    assert page[..8] + page[11..] == "people/ax.md";
  }

  lemma NoRefsExtracted()
    ensures ExtractEntityRefs([]) == []
  {
  }

  lemma {:induction false} LinkDoesNotNamePage()
    ensures !HasBacklink(LINK, Basename("people/a.mdx.md"))
  {
    hide IndexOf, Basename;
    var name := "a.mdx.md";
    assert "people/a.mdx.md" == "people" + "/" + name;
    BasenameAfter("people", name);
    forall j ensures !Occurs(LINK, name, j) {
      if 0 <= j && j + |name| <= |LINK| {
        assert LINK[j..j + |name|][0] == LINK[j] && LINK[j..j + |name|][1] == LINK[j + 1];
        assert name[0] == 'a' && name[1] == '.';
        assert LINK[j] == 'a' ==> j == 12;
        assert LINK[13] == 'x';
      }
    }
  }

  lemma {:induction false} BasenameAfter(dir: string, name: string)
    requires '/' !in name
    ensures Basename(dir + "/" + name) == name
  {
    var path := dir + "/" + name;
    assert path[|dir|] == '/';
    if dir == "" {
      assert path[1..] == name;
    } else {
      assert path[1..] == dir[1..] + "/" + name;
      BasenameAfter(dir[1..], name);
    }
  }

  lemma {:induction false} BasenameNotEmpty(path: string)
    requires IsPage(path) || (path != "" && path[|path| - 1] != '/')
    ensures Basename(path) != ""
  {
    assert IsPage(path) ==> path[|path| - 3..][2] == path[|path| - 1];
    if '/' in path {
      var k :| 0 <= k < |path| && path[k] == '/';
      assert k < |path| - 1;
      BasenameNotEmpty(path[1..]);
    }
  }

  lemma {:induction false} EmptyHasNoBacklink(name: string)
    ensures name != "" ==> !HasBacklink("", name)
  {
  }

  // ----- what a gap says

  const OfEntity := (r: Ref) => r.dir == "people" || r.dir == "companies"
  const Stripped := (r: Ref) => Strip(r)

  /** References to people and companies, in order, under the slug that follows the directory. */
  lemma {:induction false} EntityRefsExactly(refs: seq<Ref>)
    ensures ExtractEntityRefs(refs) == Map(Stripped, Filter(OfEntity, refs))
  {
    hide Strip;
    if refs != [] {
      var pre, r := refs[..|refs| - 1], refs[|refs| - 1];
      EntityRefsExactly(pre);
      assert refs == pre + [r];
      FilterSnoc(OfEntity, pre, r);
    }
  }

  /** A reference leads to its slug, with its directory in front unless it is there already. */
  lemma TargetOfReference(r: Ref)
    ensures Strip(r).name == r.name && Strip(r).dir == r.dir
    ensures TargetSlug(Strip(r)) == if r.dir + "/" <= r.slug then r.slug else r.dir + "/" + r.slug
  {
    var prefix := r.dir + "/";
    if prefix <= r.slug {
      assert r.slug == prefix + r.slug[|prefix|..];
    }
  }

  /** The first of a page's references to a slug. */
  ghost predicate FirstMention(refs: seq<Ref>, i: int, slug: string) {
    0 <= i < |refs| && TargetSlug(refs[i]) == slug && forall j | 0 <= j < i :: TargetSlug(refs[j]) != slug
  }

  ghost predicate GapAt(g: Gap, page: string, title: string, refs: seq<Ref>, bySlug: map<string, string>, i: int, slug: string) {
    && FirstMention(refs, i, slug) && slug in bySlug && !Includes(bySlug[slug], Basename(page))
    && g == Gap(page, slug + ".md", refs[i].name, title)
  }

  ghost predicate OpenGap(g: Gap, page: string, title: string, refs: seq<Ref>, bySlug: map<string, string>) {
    exists i, slug :: GapAt(g, page, title, refs, bySlug, i, slug)
  }

  /** One more reference makes one more gap, at its own place. */
  lemma {:induction false} OpenGapSnoc(g: Gap, page: string, title: string, refs: seq<Ref>, r: Ref, bySlug: map<string, string>)
    ensures OpenGap(g, page, title, refs + [r], bySlug)
            <==> OpenGap(g, page, title, refs, bySlug)
                 || (!Mentions(refs, TargetSlug(r)) && TargetSlug(r) in bySlug && !Includes(bySlug[TargetSlug(r)], Basename(page))
                     && g == Gap(page, TargetSlug(r) + ".md", r.name, title))
  {
    hide TargetSlug, Includes, Basename;
    var m, more := |refs|, refs + [r];
    assert more[m] == r && forall j | 0 <= j < m :: more[j] == refs[j];
    if i, slug :| GapAt(g, page, title, refs, bySlug, i, slug) {
      assert GapAt(g, page, title, more, bySlug, i, slug);
    }
    if i, slug :| GapAt(g, page, title, more, bySlug, i, slug) {
      assert i < m ==> GapAt(g, page, title, refs, bySlug, i, slug);
    }
    assert FirstMention(more, m, TargetSlug(r)) <==> !Mentions(refs, TargetSlug(r));
    if FirstMention(more, m, TargetSlug(r)) && TargetSlug(r) in bySlug && !Includes(bySlug[TargetSlug(r)], Basename(page))
       && g == Gap(page, TargetSlug(r) + ".md", r.name, title) {
      assert GapAt(g, page, title, more, bySlug, m, TargetSlug(r));
    }
  }

  /** A page's gaps carry its title and the name of the first mention, and no target is reported twice. */
  lemma {:induction false} PageGapsExactly(page: string, title: string, refs: seq<Ref>, bySlug: map<string, string>, g: Gap)
    ensures g in PageGaps(page, title, refs, bySlug) <==> OpenGap(g, page, title, refs, bySlug)
    ensures multiset(PageGaps(page, title, refs, bySlug))[g] <= 1
  {
    hide TargetSlug, PageGaps, Includes, Basename, OpenGap, Mentions;
    NoRefs(page, title, bySlug);
    if refs == [] {
      assert !OpenGap(g, page, title, [], bySlug) by { NoOpenGap(g, page, title, bySlug); }
    } else {
      var m := |refs| - 1;
      var pre, r := refs[..m], refs[m];
      PageGapsExactly(page, title, pre, bySlug, g);
      assert refs == pre + [r];
      PageGapsSnoc(page, title, pre, r, bySlug);
      OpenGapSnoc(g, page, title, pre, r, bySlug);
      var before := PageGaps(page, title, pre, bySlug);
      assert before + [] == before;
      if g in before {
        OpenGapMentions(g, page, title, pre, r, bySlug);
      }
    }
  }

  lemma NoOpenGap(g: Gap, page: string, title: string, bySlug: map<string, string>)
    ensures !OpenGap(g, page, title, [], bySlug)
  {
  }

  lemma OpenGapMentions(g: Gap, page: string, title: string, refs: seq<Ref>, r: Ref, bySlug: map<string, string>)
    requires OpenGap(g, page, title, refs, bySlug)
    ensures g.targetPage == TargetSlug(r) + ".md" ==> Mentions(refs, TargetSlug(r))
  {
    hide TargetSlug, Includes, Basename;
    var i, slug :| GapAt(g, page, title, refs, bySlug, i, slug);
    SameSlug(slug, TargetSlug(r));
  }

  /** The gaps of a scan are those of its pages, read as they are titled. */
  lemma {:induction false} GapsExactly(pages: seq<string>, files: Files, refsOf: string -> seq<Ref>, titleOf: string -> string, g: Gap)
    requires forall p | p in pages :: p in files
    ensures g in AllGaps(pages, files, refsOf, titleOf)
            <==> g.sourcePage in pages
                 && OpenGap(g, g.sourcePage, titleOf(files[g.sourcePage]), refsOf(files[g.sourcePage]), BySlug(pages, files))
  {
    hide OpenGap, BySlug, Gaps;
    GapOfPages(pages, BySlug(pages, files), files, refsOf, titleOf, g);
    if g.sourcePage in pages {
      PageGapsExactly(g.sourcePage, titleOf(files[g.sourcePage]), refsOf(files[g.sourcePage]), BySlug(pages, files), g);
    }
  }

  lemma {:induction false} GapOfPages(pages: seq<string>, bySlug: map<string, string>, files: Files,
                                      refsOf: string -> seq<Ref>, titleOf: string -> string, g: Gap)
    requires forall p | p in pages :: p in files
    ensures g in Gaps(pages, bySlug, files, refsOf, titleOf)
            <==> g.sourcePage in pages
                 && g in PageGaps(g.sourcePage, titleOf(files[g.sourcePage]), refsOf(files[g.sourcePage]), bySlug)
  {
    hide PageGaps, Gaps;
    NothingFound(files, refsOf, titleOf);
    if pages != [] {
      var m := |pages| - 1;
      var p := pages[m];
      assert pages == pages[..m] + [p];
      GapOfPages(pages[..m], bySlug, files, refsOf, titleOf, g);
      GapsSnoc(pages[..m], p, bySlug, files, refsOf, titleOf);
      PageGapsAreOpen(p, titleOf(files[p]), refsOf(files[p]), bySlug, "");
    }
  }
}
