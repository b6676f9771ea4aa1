/** Diff-based selection of end-to-end tests (scripts/select-e2e.ts). */
module SelectE2e {
  import opened Wrappers
  import opened Sorting
  import StringOrder

  // ----- globs

  /** The glob's language: `**` any text within a line, `*` any text within a path segment, else itself. */
  predicate GlobMatches(glob: string, path: string)
    decreases |glob|
  {
    if glob == "" then path == ""
    else if glob[0] == '*' && |glob| > 1 && glob[1] == '*' then
      exists k :: 0 <= k <= |path| && InLine(path[..k]) && GlobMatches(glob[2..], path[k..])
    else if glob[0] == '*' then
      exists k :: 0 <= k <= |path| && InSegment(path[..k]) && GlobMatches(glob[1..], path[k..])
    else path != "" && path[0] == glob[0] && GlobMatches(glob[1..], path[1..])
  }

  predicate LineTerminator(c: char) {
    c == '\n' || c == '\r' || c == '\U{2028}' || c == '\U{2029}'
  }

  predicate InLine(s: string) {
    forall i | 0 <= i < |s| :: !LineTerminator(s[i])
  }

  predicate InSegment(s: string) {
    forall i | 0 <= i < |s| :: s[i] != '/'
  }

  predicate Supported(glob: string) {
    forall i | 0 <= i < |glob| :: glob[i] != '?' && glob[i] != '[' && glob[i] != '{'
  }

  // ----- the regular expressions it is compiled to

  datatype CharClass = AnyInLine | NotSlash | Literal(c: char)
  datatype Item = One(cls: CharClass) | Star(cls: CharClass)

  predicate InClass(cls: CharClass, c: char) {
    match cls
    case AnyInLine => !LineTerminator(c)
    case NotSlash => c != '/'
    case Literal(d) => c == d
  }

  predicate AllInClass(cls: CharClass, s: string) {
    forall i | 0 <= i < |s| :: InClass(cls, s[i])
  }

  /** The texts an anchored sequence of items matches. */
  predicate RegexMatches(items: seq<Item>, s: string)
    decreases |items|
  {
    if items == [] then s == ""
    else match items[0]
      case One(cls) => s != "" && InClass(cls, s[0]) && RegexMatches(items[1..], s[1..])
      case Star(cls) => exists k :: 0 <= k <= |s| && AllInClass(cls, s[..k]) && RegexMatches(items[1..], s[k..])
  }

  /** `[.+^${}()|\\]`, the characters the compiler escapes. */
  predicate Meta(c: char) {
    || c == '.' || c == '+' || c == '^' || c == '$' || c == '{' || c == '}' || c == '(' || c == ')'
    || c == '|' || c == '\\'
  }

  /** Characters that quantify what stands before them. */
  predicate Quantifier(c: char) {
    c == '*' || c == '+' || c == '?' || c == '{'
  }

  /** One atom of a pattern and its length; `None` for syntax outside the fragment. */
  function ParseAtom(src: string): Option<(CharClass, nat)>
    requires src != ""
  {
    if src[0] == '.' then Some((AnyInLine, 1))
    else if src[0] == '\\' then (if |src| > 1 && Meta(src[1]) then Some((Literal(src[1]), 2)) else None)
    else if src[0] == '[' then (if |src| >= 4 && src[..4] == "[^/]" then Some((NotSlash, 4)) else None)
    else if Meta(src[0]) || Quantifier(src[0]) then None
    else Some((Literal(src[0]), 1))
  }

  /** Reading a pattern: atoms, each possibly starred. */
  function ParseRegex(src: string): Option<seq<Item>>
    decreases |src|
  {
    if src == "" then Some([])
    else match ParseAtom(src)
      case None => None
      case Some((cls, n)) =>
        if n < |src| && src[n] == '*' then
          if n + 1 < |src| && Quantifier(src[n + 1]) then None
          else match ParseRegex(src[n + 1..])
            case None => None
            case Some(items) => Some([Star(cls)] + items)
        else if n > |src| || (n < |src| && Quantifier(src[n])) then None
        else match ParseRegex(src[n..])
          case None => None
          case Some(items) => Some([One(cls)] + items)
  }

  // ----- the compiler

  function CompileGlob(glob: string): string
    decreases |glob|
  {
    if glob == "" then ""
    else if glob[0] == '*' && |glob| > 1 && glob[1] == '*' then ".*" + CompileGlob(glob[2..])
    else if glob[0] == '*' then "[^/]*" + CompileGlob(glob[1..])
    else if Meta(glob[0]) then ['\\', glob[0]] + CompileGlob(glob[1..])
    else [glob[0]] + CompileGlob(glob[1..])
  }

  function ItemsOf(glob: string): seq<Item>
    decreases |glob|
  {
    if glob == "" then []
    else if glob[0] == '*' && |glob| > 1 && glob[1] == '*' then [Star(AnyInLine)] + ItemsOf(glob[2..])
    else if glob[0] == '*' then [Star(NotSlash)] + ItemsOf(glob[1..])
    else [One(Literal(glob[0]))] + ItemsOf(glob[1..])
  }

  lemma {:induction false} NoLeadingQuantifier(glob: string)
    requires Supported(glob) && CompileGlob(glob) != ""
    ensures !Quantifier(CompileGlob(glob)[0])
  {
  }

  lemma SupportedTail(glob: string, k: nat)
    requires Supported(glob) && k <= |glob|
    ensures Supported(glob[k..])
  {
  }

  /** A starred atom in front of a compiled rest. */
  lemma {:induction false} ParseStar(atom: string, cls: CharClass, glob: string)
    requires Supported(glob) && ((atom == "." && cls == AnyInLine) || (atom == "[^/]" && cls == NotSlash))
    ensures ParseRegex(atom + "*" + CompileGlob(glob))
         == match ParseRegex(CompileGlob(glob)) { case None => None case Some(items) => Some([Star(cls)] + items) }
  {
    var rest := CompileGlob(glob);
    var src := atom + "*" + rest;
    if rest != "" {
      NoLeadingQuantifier(glob);
    }
    assert src[|atom|] == '*' && src[|atom| + 1..] == rest;
    assert |atom| == 4 ==> src[..4] == atom;
  }

  lemma {:induction false} ParseLiteral(c: char, glob: string)
    requires Supported([c] + glob) && c != '*'
    ensures ParseRegex((if Meta(c) then ['\\', c] else [c]) + CompileGlob(glob))
         == match ParseRegex(CompileGlob(glob)) { case None => None case Some(items) => Some([One(Literal(c))] + items) }
  {
    var rest := CompileGlob(glob);
    var atom := if Meta(c) then ['\\', c] else [c];
    assert ([c] + glob)[0] == c;
    assert ([c] + glob)[1..] == glob;
    SupportedTail([c] + glob, 1);
    if rest != "" {
      NoLeadingQuantifier(glob);
    }
    assert (atom + rest)[|atom|..] == rest;
  }

  /** The compiled text is read back as the intended items. */
  lemma {:induction false} CompiledParses(glob: string)
    requires Supported(glob)
    ensures ParseRegex(CompileGlob(glob)) == Some(ItemsOf(glob))
    decreases |glob|
  {
    if glob == "" {
    } else if glob[0] == '*' && |glob| > 1 && glob[1] == '*' {
      SupportedTail(glob, 2);
      CompiledParses(glob[2..]);
      ParseStar(".", AnyInLine, glob[2..]);
      assert "." + "*" == ".*";
    } else if glob[0] == '*' {
      SupportedTail(glob, 1);
      CompiledParses(glob[1..]);
      ParseStar("[^/]", NotSlash, glob[1..]);
      assert "[^/]" + "*" == "[^/]*";
    } else {
      SupportedTail(glob, 1);
      CompiledParses(glob[1..]);
      assert glob == [glob[0]] + glob[1..];
      ParseLiteral(glob[0], glob[1..]);
    }
  }

  lemma {:induction false} ItemsMatchGlob(glob: string, path: string)
    ensures RegexMatches(ItemsOf(glob), path) <==> GlobMatches(glob, path)
    decreases |glob|
  {
    if glob == "" {
    } else if glob[0] == '*' {
      var wide := |glob| > 1 && glob[1] == '*';
      var rest := if wide then glob[2..] else glob[1..];
      var cls := if wide then AnyInLine else NotSlash;
      assert ItemsOf(glob)[1..] == ItemsOf(rest) && ItemsOf(glob)[0] == Star(cls);
      forall k | 0 <= k <= |path|
        ensures AllInClass(cls, path[..k]) <==> if wide then InLine(path[..k]) else InSegment(path[..k])
        ensures RegexMatches(ItemsOf(rest), path[k..]) <==> GlobMatches(rest, path[k..])
      {
        ItemsMatchGlob(rest, path[k..]);
      }
    } else if path != "" {
      assert ItemsOf(glob)[1..] == ItemsOf(glob[1..]);
      ItemsMatchGlob(glob[1..], path[1..]);
    }
  }

  /** `new RegExp("^" + regex + "$").test(path)`. */
  predicate Test(regex: string, path: string) {
    match ParseRegex(regex)
    case None => false
    case Some(items) => RegexMatches(items, path)
  }

  /** What the loop appends at the head of `glob`, and how far it moves. */
  function Piece(glob: string): (string, nat)
    requires glob != ""
  {
    if glob[0] == '*' && |glob| > 1 && glob[1] == '*' then (".*", 2)
    else if glob[0] == '*' then ("[^/]*", 1)
    else if Meta(glob[0]) then (['\\', glob[0]], 1)
    else ([glob[0]], 1)
  }

  lemma {:induction false} CompileUnfolds(glob: string)
    requires glob != ""
    ensures Piece(glob).1 <= |glob|
    ensures CompileGlob(glob) == Piece(glob).0 + CompileGlob(glob[Piece(glob).1..])
  {
  }

  lemma {:induction false} CompilePiece(regex: string, glob: string, i: nat)
    requires i < |glob| && regex + CompileGlob(glob[i..]) == CompileGlob(glob)
    ensures var p := Piece(glob[i..]);
            i + p.1 <= |glob| && (regex + p.0) + CompileGlob(glob[i + p.1..]) == CompileGlob(glob)
  {
    hide CompileGlob, Piece;
    var rest := glob[i..];
    CompileUnfolds(rest);
    DropTwice(glob, i, Piece(rest).1);
    Reassociate(regex, Piece(rest).0, CompileGlob(glob[i + Piece(rest).1..]));
  }

  lemma DropTwice(s: string, i: nat, n: nat)
    requires i <= |s| && n <= |s[i..]|
    ensures i + n <= |s| && s[i..][n..] == s[i + n..]
  {
  }

  lemma Reassociate(a: string, b: string, c: string)
    ensures (a + b) + c == a + (b + c)
  {
  }

  /** The index loop over the glob. */
  method Compile(glob: string) returns (regex: string)
    ensures regex == CompileGlob(glob)
  {
    hide CompileGlob;
    regex := "";
    var i := 0;
    assert glob[0..] == glob && "" + CompileGlob(glob) == CompileGlob(glob);
    while i < |glob|
      invariant 0 <= i <= |glob|
      invariant regex + CompileGlob(glob[i..]) == CompileGlob(glob)
    {
      CompilePiece(regex, glob, i);
      var c := glob[i];
      if c == '*' && i + 1 < |glob| && glob[i + 1] == '*' {
        regex := regex + ".*";
        i := i + 2;
      } else if c == '*' {
        regex := regex + "[^/]*";
        i := i + 1;
      } else if Meta(c) {
        regex := regex + ['\\', c];
        i := i + 1;
      } else {
        regex := regex + [c];
        i := i + 1;
      }
    }
    NothingToCompile();
    assert glob[|glob|..] == "" && regex + "" == regex;
  }

  lemma NothingToCompile()
    ensures CompileGlob("") == ""
  {
  }

  /** Compiling and testing decides exactly the glob's language; `None` stands for the thrown error. */
  method MatchGlob(glob: string, path: string) returns (r: Option<bool>)
    ensures r == if Supported(glob) then Some(GlobMatches(glob, path)) else None
  {
    if !Supported(glob) {
      return None;
    }
    var regex := Compile(glob);
    CompiledTestIsGlob(glob, path);
    r := Some(Test(regex, path));
  }

  lemma {:induction false} CompiledTestIsGlob(glob: string, path: string)
    requires Supported(glob)
    ensures Test(CompileGlob(glob), path) <==> GlobMatches(glob, path)
  {
    CompiledParses(glob);
    ItemsMatchGlob(glob, path);
  }

  /** On one-line paths `**` matches any text at all. */
  lemma {:induction false} DoubleStarOnOneLine(glob: string, path: string)
    requires InLine(path)
    ensures GlobMatches("**" + glob, path) <==> exists k :: 0 <= k <= |path| && GlobMatches(glob, path[k..])
  {
    assert ("**" + glob)[2..] == glob;
    forall k | 0 <= k <= |path| ensures InLine(path[..k]) {}
  }

  // ----- the selection

  const DOC_ROOT_FILES := ["README.md", "CLAUDE.md", "AGENTS.md", "CHANGELOG.md", "TODOS.md", "LICENSE", "VERSION"]

  const ESCAPE_HATCH_FILES := [
    "src/schema.sql", "src/core/migrate.ts", "src/core/db.ts", "src/core/engine-factory.ts", "src/core/operations.ts",
    "package.json", "bun.lock", "Dockerfile.ci", "docker-compose.ci.yml", "scripts/ci-local.sh", "scripts/run-e2e.sh",
    "scripts/select-e2e.ts", "scripts/e2e-test-map.ts", "test/e2e/helpers.ts"]

  const ESCAPE_HATCH_PREFIXES := ["src/commands/migrations/", "test/e2e/fixtures/", "skills/", ".github/workflows/"]

  predicate EndsWith(s: string, suffix: string) {
    |suffix| <= |s| && s[|s| - |suffix|..] == suffix
  }

  predicate IsDocPath(p: string) {
    p in DOC_ROOT_FILES || ('/' !in p && EndsWith(p, ".md")) || "docs/" <= p
  }

  predicate IsEscapeHatch(p: string) {
    p in ESCAPE_HATCH_FILES || exists i :: 0 <= i < |ESCAPE_HATCH_PREFIXES| && ESCAPE_HATCH_PREFIXES[i] <= p
  }

  predicate IsTestFile(p: string) {
    "test/e2e/" <= p && EndsWith(p, ".test.ts")
  }

  datatype Classification = EMPTY | DOC_ONLY | SRC

  method Classify(changed: seq<string>) returns (c: Classification)
    ensures c == ClassOf(changed)
  {
    if |changed| == 0 {
      return EMPTY;
    }
    for i := 0 to |changed|
      invariant forall j | 0 <= j < i :: IsDocPath(changed[j])
    {
      if !IsDocPath(changed[i]) {
        return SRC;
      }
    }
    return DOC_ONLY;
  }

  function ClassOf(changed: seq<string>): Classification {
    if changed == [] then EMPTY
    else if exists i :: 0 <= i < |changed| && !IsDocPath(changed[i]) then SRC
    else DOC_ONLY
  }

  type TestMap = seq<(string, seq<string>)>

  /** A changed file that is looked up in the map. */
  predicate Mapped(f: string) {
    !IsDocPath(f) && !IsTestFile(f)
  }

  /** Changed file `f` calls for test `t`: it is that test, or a glob of the map leads to it. */
  predicate CallsFor(f: string, map_: TestMap, t: string) {
    || (!IsDocPath(f) && IsTestFile(f) && t == f)
    || (Mapped(f) && exists i :: 0 <= i < |map_| && GlobMatches(map_[i].0, f) && t in map_[i].1)
  }

  ghost predicate Required(changed: seq<string>, map_: TestMap, t: string) {
    exists i :: 0 <= i < |changed| && CallsFor(changed[i], map_, t)
  }

  predicate AnyUnsupported(map_: TestMap) {
    exists i :: 0 <= i < |map_| && !Supported(map_[i].0)
  }

  /** A set in insertion order. */
  function AddTo(acc: seq<string>, t: string): seq<string> {
    if t in acc then acc else acc + [t]
  }

  function AddEach(acc: seq<string>, tests: seq<string>): seq<string> {
    if tests == [] then acc else AddTo(AddEach(acc, tests[..|tests| - 1]), tests[|tests| - 1])
  }

  /** The tests the map lists for `f`, added to `acc`. */
  function Listed(f: string, map_: TestMap, acc: seq<string>): seq<string> {
    if map_ == [] then acc
    else
      var before, (glob, tests) := Listed(f, map_[..|map_| - 1], acc), map_[|map_| - 1];
      if GlobMatches(glob, f) then AddEach(before, tests) else before
  }

  /** The tests the changed files call for, in the order in which they are first called for. */
  function Collected(changed: seq<string>, map_: TestMap): seq<string> {
    if changed == [] then []
    else
      var before, f := Collected(changed[..|changed| - 1], map_), changed[|changed| - 1];
      if IsDocPath(f) then before
      else if IsTestFile(f) then AddTo(before, f)
      else Listed(f, map_, before)
  }

  predicate AnyEscapeHatch(changed: seq<string>) {
    exists i :: 0 <= i < |changed| && IsEscapeHatch(changed[i])
  }

  predicate NeedsMap(changed: seq<string>) {
    exists i :: 0 <= i < |changed| && Mapped(changed[i])
  }

  function SelectSpec(changed: seq<string>, all: seq<string>, map_: TestMap): Option<seq<string>> {
    var everything := Some(Sort(StringOrder.Leq, all));
    match ClassOf(changed)
    case EMPTY => everything
    case DOC_ONLY => Some([])
    case SRC =>
      if AnyEscapeHatch(changed) then everything
      else if NeedsMap(changed) && AnyUnsupported(map_) then None
      else if Collected(changed, map_) == [] then everything
      else Some(Sort(StringOrder.Leq, Collected(changed, map_)))
  }

  // ----- the loops

  method AddAll(acc: seq<string>, tests: seq<string>) returns (r: seq<string>)
    ensures r == AddEach(acc, tests)
  {
    r := acc;
    for i := 0 to |tests|
      invariant r == AddEach(acc, tests[..i])
    {
      assert tests[..i + 1][..i] == tests[..i];
      r := AddTo(r, tests[i]);
    }
    assert tests[..|tests|] == tests;
  }

  /** The map loop for one file; `None` when an unsupported glob stops it. */
  method LookUp(f: string, map_: TestMap, acc: seq<string>) returns (r: Option<seq<string>>)
    ensures r == if AnyUnsupported(map_) then None else Some(Listed(f, map_, acc))
  {
    hide GlobMatches, AddEach;
    var found := acc;
    for i := 0 to |map_|
      invariant found == Listed(f, map_[..i], acc) && forall j | 0 <= j < i :: Supported(map_[j].0)
    {
      assert map_[..i + 1][..i] == map_[..i];
      var m := MatchGlob(map_[i].0, f);
      if m.None? {
        return None;
      }
      if m.value {
        found := AddAll(found, map_[i].1);
      }
    }
    assert map_[..|map_|] == map_;
    r := Some(found);
  }

  /** `None` stands for the error of an unsupported glob. */
  method SelectTests(changed: seq<string>, all: seq<string>, map_: TestMap) returns (r: Option<seq<string>>)
    ensures r == SelectSpec(changed, all, map_)
  {
    hide GlobMatches, Supported, Sort, IsDocPath, IsTestFile, IsEscapeHatch, Listed, AnyUnsupported;
    var cls := Classify(changed);
    var allSorted := Sort(StringOrder.Leq, all);
    if cls == EMPTY {
      return Some(allSorted);
    }
    if cls == DOC_ONLY {
      return Some([]);
    }
    if AnyEscapeHatch(changed) {
      return Some(allSorted);
    }
    var result: seq<string> := [];
    for i := 0 to |changed|
      invariant result == Collected(changed[..i], map_)
      invariant NeedsMap(changed[..i]) ==> !AnyUnsupported(map_)
    {
      var f := changed[i];
      assert changed[..i + 1][..i] == changed[..i];
      NeedsMapSnoc(changed, i);
      if IsDocPath(f) {
        continue;
      }
      if IsTestFile(f) {
        result := AddTo(result, f);
        continue;
      }
      var found := LookUp(f, map_, result);
      if found.None? {
        assert Mapped(changed[i]);
        return None;
      }
      result := found.value;
    }
    assert changed[..|changed|] == changed;
    if |result| == 0 {
      return Some(allSorted);
    }
    r := Some(Sort(StringOrder.Leq, result));
  }

  lemma NeedsMapSnoc(changed: seq<string>, i: nat)
    requires i < |changed|
    ensures NeedsMap(changed[..i + 1]) <==> NeedsMap(changed[..i]) || Mapped(changed[i])
  {
    hide Mapped;
    var more := changed[..i + 1];
    assert more[i] == changed[i] && forall j | 0 <= j < i :: more[j] == changed[..i][j];
  }

  // ----- what is selected

  lemma {:induction false} AddEachMembers(acc: seq<string>, tests: seq<string>)
    requires Distinct(acc)
    ensures Distinct(AddEach(acc, tests)) && forall t :: t in AddEach(acc, tests) <==> t in acc || t in tests
  {
    if tests != [] {
      AddEachMembers(acc, tests[..|tests| - 1]);
      assert tests == tests[..|tests| - 1] + [tests[|tests| - 1]];
    }
  }

  ghost predicate ListedFor(f: string, map_: TestMap, t: string) {
    exists i :: 0 <= i < |map_| && GlobMatches(map_[i].0, f) && t in map_[i].1
  }

  lemma {:induction false} ListedMembers(f: string, map_: TestMap, acc: seq<string>)
    requires Distinct(acc)
    ensures Distinct(Listed(f, map_, acc)) && forall t :: t in Listed(f, map_, acc) <==> t in acc || ListedFor(f, map_, t)
  {
    hide GlobMatches, AddEach;
    if map_ != [] {
      var m := |map_| - 1;
      ListedMembers(f, map_[..m], acc);
      AddEachMembers(Listed(f, map_[..m], acc), map_[m].1);
      forall t ensures ListedFor(f, map_, t) <==> ListedFor(f, map_[..m], t) || (GlobMatches(map_[m].0, f) && t in map_[m].1) {
        assert forall i | 0 <= i < m :: map_[..m][i] == map_[i];
      }
    }
  }

  lemma {:induction false} CollectedMembers(changed: seq<string>, map_: TestMap)
    ensures Distinct(Collected(changed, map_))
    ensures forall t :: t in Collected(changed, map_) <==> Required(changed, map_, t)
  {
    hide GlobMatches, Listed, IsDocPath, IsTestFile;
    if changed != [] {
      var m := |changed| - 1;
      var before, f := Collected(changed[..m], map_), changed[m];
      CollectedMembers(changed[..m], map_);
      ListedMembers(f, map_, before);
      forall t ensures t in Collected(changed, map_) <==> Required(changed, map_, t) {
        RequiredSnoc(changed, map_, t);
      }
    }
  }

  lemma RequiredSnoc(changed: seq<string>, map_: TestMap, t: string)
    requires changed != []
    ensures var m := |changed| - 1;
            Required(changed, map_, t) <==> Required(changed[..m], map_, t) || CallsFor(changed[m], map_, t)
  {
    hide CallsFor;
    var m := |changed| - 1;
    assert forall i | 0 <= i < m :: changed[..m][i] == changed[i];
  }

  /**
    Everything is run for an empty diff, for an escape hatch, and when no changed file calls for any
    test; nothing exactly for documentation alone; otherwise exactly the tests called for, sorted.
    An unsupported glob is an error as soon as one file has to be looked up.
  */
  lemma {:induction false} SelectionMeaning(changed: seq<string>, all: seq<string>, map_: TestMap)
    ensures var r, everything := SelectSpec(changed, all, map_), Some(Sort(StringOrder.Leq, all));
            && (ClassOf(changed) == EMPTY || (ClassOf(changed) == SRC && AnyEscapeHatch(changed)) ==> r == everything)
            && (ClassOf(changed) == SRC && !AnyEscapeHatch(changed) ==>
                  && (r == None <==> NeedsMap(changed) && AnyUnsupported(map_))
                  && (r.Some? && (forall t :: !Required(changed, map_, t)) ==> r == everything)
                  && (r.Some? && (exists t :: Required(changed, map_, t)) ==>
                        && Sorted(StringOrder.Leq, r.value) && Distinct(r.value)
                        && forall t :: t in r.value <==> Required(changed, map_, t)))
            && (all != [] && r.Some? ==> (r.value == [] <==> ClassOf(changed) == DOC_ONLY))
  {
    hide Sort, Collected, AnyUnsupported, IsEscapeHatch, Mapped, IsDocPath, Required;
    var ts := Collected(changed, map_);
    CollectedMembers(changed, map_);
    SortMultiset(StringOrder.Leq, all);
    SortMultiset(StringOrder.Leq, ts);
    StringOrder.LeqIsTotalOrder();
    SortSorted(StringOrder.Leq, ts);
    SortKeepsDistinct(StringOrder.Leq, ts);
    forall t ensures t in Sort(StringOrder.Leq, ts) <==> t in ts {
      SortMembers(StringOrder.Leq, ts, t);
    }
    assert ts != [] ==> ts[0] in ts;
  }

  // ----- a change that no glob and no test answers for

  ghost predicate CalledByOther(changed: seq<string>, map_: TestMap, f: string, t: string) {
    exists g :: g in changed && g != f && CallsFor(g, map_, t)
  }

  /**
    The header promises that an unmapped source change runs everything. Without an escape hatch it
    does exactly when the globs are supported and the other changed files call for no test at all,
    or for precisely all of them.
  */
  lemma {:induction false} UnmappedChangeFallsBack(changed: seq<string>, all: seq<string>, map_: TestMap, f: string)
    requires f in changed && Mapped(f) && (forall t :: !CallsFor(f, map_, t)) && !AnyEscapeHatch(changed)
    ensures SelectSpec(changed, all, map_) == Some(Sort(StringOrder.Leq, all))
            <==> && !AnyUnsupported(map_)
                 && ((forall t :: !CalledByOther(changed, map_, f, t))
                     || (Distinct(all) && forall t :: t in all <==> CalledByOther(changed, map_, f, t)))
  {
    hide Sort, Collected, AnyUnsupported, IsEscapeHatch, IsDocPath, IsTestFile, CallsFor;
    var ts := Collected(changed, map_);
    var i :| 0 <= i < |changed| && changed[i] == f;
    assert !IsDocPath(changed[i]) && Mapped(changed[i]);
    CollectedMembers(changed, map_);
    forall t ensures t in ts <==> CalledByOther(changed, map_, f, t) {
      OthersCall(changed, map_, f, t);
    }
    assert ts != [] ==> ts[0] in ts;
    StringOrder.LeqIsTotalOrder();
    SameSetSameSort(StringOrder.Leq, ts, all);
  }

  lemma OthersCall(changed: seq<string>, map_: TestMap, f: string, t: string)
    requires !CallsFor(f, map_, t)
    ensures Required(changed, map_, t) <==> CalledByOther(changed, map_, f, t)
  {
    hide CallsFor;
    if g :| g in changed && g != f && CallsFor(g, map_, t) {
      var i :| 0 <= i < |changed| && changed[i] == g;
    }
  }

  /** An unmapped change next to a mapped one: a test of the full list is left out. */
  lemma UnmappedChangeCanBeNarrowed()
    ensures exists changed: seq<string>, all, map_: TestMap ::
              && !AnyEscapeHatch(changed) && "b" in changed && Mapped("b") && (forall t :: !CallsFor("b", map_, t))
              && "u" in all && SelectSpec(changed, all, map_).Some? && "u" !in SelectSpec(changed, all, map_).value
  {
    hide GlobMatches, IsDocPath, IsTestFile, IsEscapeHatch, Supported, SelectSpec;
    var changed, all, map_: TestMap := ["a", "b"], ["t", "u"], [("a", ["t"])];
    OneLetterNames();
    assert map_[0].0 == "a" && map_[0].1 == ["t"] && "t" in map_[0].1 && "u" !in map_[0].1;
    assert changed[0] == "a" && changed[1] == "b" && !IsDocPath(changed[0]) && all[1] == "u";
    assert CallsFor(changed[0], map_, "t");
    assert Required(changed, map_, "t");
    assert !CallsFor(changed[0], map_, "u") && !CallsFor(changed[1], map_, "u");
    SelectionMeaning(changed, all, map_);
  }

  lemma OneLetterNames()
    ensures !IsDocPath("a") && !IsDocPath("b") && !IsTestFile("a") && !IsTestFile("b")
    ensures !IsEscapeHatch("a") && !IsEscapeHatch("b")
    ensures GlobMatches("a", "a") && !GlobMatches("a", "b") && Supported("a")
  {
  }

  // ----- the three kinds of path

  /** Below a directory only docs/ is documentation; at the root every Markdown file, the licence and the version. */
  lemma DocsExactly(p: string)
    ensures '/' in p ==> (IsDocPath(p) <==> "docs/" <= p)
    ensures '/' !in p ==> (IsDocPath(p) <==> EndsWith(p, ".md") || p == "LICENSE" || p == "VERSION")
  {
    assert "docs/"[4] == '/';
    assert EndsWith("README.md", ".md") && EndsWith("CLAUDE.md", ".md") && EndsWith("AGENTS.md", ".md");
    assert EndsWith("CHANGELOG.md", ".md") && EndsWith("TODOS.md", ".md");
  }

  /** Question marks, brackets and braces anywhere in a glob make it unsupported. */
  lemma UnsupportedExactly(map_: TestMap)
    ensures AnyUnsupported(map_) <==> exists i :: 0 <= i < |map_| && ('?' in map_[i].0 || '[' in map_[i].0 || '{' in map_[i].0)
  {
  }

  /** An end-to-end test is a file of that directory, at any depth, with the test ending. */
  lemma TestsExactly(p: string)
    ensures IsTestFile(p) <==> exists name :: p == "test/e2e/" + name + ".test.ts"
  {
    var front, back := "test/e2e/", ".test.ts";
    if IsTestFile(p) {
      assert p[8] == '/' && '/' !in back;
      assert forall i | |p| - 8 <= i < |p| :: p[i] in p[|p| - 8..];
      assert |p| >= 17;
      var name := p[9..|p| - 8];
      assert p == front + name + back;
    }
    if name :| p == front + name + back {
      assert front <= p && p[|p| - 8..] == back;
    }
  }

  /** The shared ground of the tests: dependencies and containers, ... */
  ghost predicate GroundAtRoot(p: string) {
    p == "package.json" || p == "bun.lock" || p == "Dockerfile.ci" || p == "docker-compose.ci.yml"
  }

  /** ... the schema and the engine core, the scripts that run the tests, their helpers and fixtures, ... */
  ghost predicate GroundFile(p: string) {
    || p == "src/schema.sql" || p == "src/core/migrate.ts" || p == "src/core/db.ts"
    || p == "src/core/engine-factory.ts" || p == "src/core/operations.ts"
    || p == "scripts/ci-local.sh" || p == "scripts/run-e2e.sh" || p == "scripts/select-e2e.ts"
    || p == "scripts/e2e-test-map.ts" || p == "test/e2e/helpers.ts"
  }

  /** ... and all migrations, fixtures, skills and workflows. */
  ghost predicate SharedGround(p: string) {
    || GroundAtRoot(p) || GroundFile(p)
    || "src/commands/migrations/" <= p || "test/e2e/fixtures/" <= p || "skills/" <= p || ".github/workflows/" <= p
  }

  lemma HatchIsSharedGround(p: string)
    ensures IsEscapeHatch(p) <==> SharedGround(p)
  {
    assert ESCAPE_HATCH_PREFIXES[0] == "src/commands/migrations/" && ESCAPE_HATCH_PREFIXES[1] == "test/e2e/fixtures/";
    assert ESCAPE_HATCH_PREFIXES[2] == "skills/" && ESCAPE_HATCH_PREFIXES[3] == ".github/workflows/";
  }

  lemma SharedGroundIsNoDoc(p: string)
    requires SharedGround(p)
    ensures !IsDocPath(p)
  {
    hide IsDocPath, EndsWith, GroundAtRoot, GroundFile;
    DocsExactly(p);
    EndsInD(p);
    RootIsNoDoc(p);
    FileIsNoDoc(p);
    Prefixes(p);
  }

  lemma Prefixes(p: string)
    ensures "docs/" <= p ==> p[0] == 'd' && '/' in p
    ensures "src/commands/migrations/" <= p ==> p[0] == 's' && '/' in p
    ensures "test/e2e/fixtures/" <= p ==> p[0] == 't' && '/' in p
    ensures "skills/" <= p ==> p[0] == 's' && '/' in p
    ensures ".github/workflows/" <= p ==> p[0] == '.' && '/' in p
  {
    assert "docs/" <= p ==> p[4] == '/';
    assert "src/commands/migrations/" <= p ==> p[3] == '/';
    assert "test/e2e/fixtures/" <= p ==> p[4] == '/';
    assert "skills/" <= p ==> p[6] == '/';
    assert ".github/workflows/" <= p ==> p[7] == '/';
  }

  lemma RootIsNoDoc(p: string)
    ensures GroundAtRoot(p) ==> '/' !in p && p[|p| - 1] != 'd' && p != "LICENSE" && p != "VERSION"
  {
  }

  lemma FileIsNoDoc(p: string)
    ensures GroundFile(p) ==> '/' in p && (p[0] == 's' || p[0] == 't')
  {
    assert GroundFile(p) ==> p[3] == '/' || p[4] == '/' || p[7] == '/';
  }

  lemma EndsInD(p: string)
    ensures EndsWith(p, ".md") ==> p[|p| - 1] == 'd'
  {
    if EndsWith(p, ".md") {
      assert p[|p| - 1] == p[|p| - 3..][2];
    }
  }

  /** A change to the shared ground runs every test, whatever else is changed and whatever the map says. */
  lemma {:induction false} SharedGroundRunsEverything(changed: seq<string>, all: seq<string>, map_: TestMap, p: string)
    requires p in changed && SharedGround(p)
    ensures SelectSpec(changed, all, map_) == Some(Sort(StringOrder.Leq, all))
  {
    hide IsDocPath, IsEscapeHatch, Sort, Collected;
    var i :| 0 <= i < |changed| && changed[i] == p;
    HatchIsSharedGround(changed[i]);
    SharedGroundIsNoDoc(changed[i]);
  }
}
