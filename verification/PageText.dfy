/** Strings as pages hold them: searching, trimming, splitting into lines. */
module PageText {
  import opened Wrappers

  /** `t` stands in `s` at index `i`. */
  predicate Occurs(s: string, t: string, i: int) {
    0 <= i && i + |t| <= |s| && s[i..i + |t|] == t
  }

  /** `s.indexOf(t)`. */
  function IndexOf(s: string, t: string): (r: Option<nat>)
    ensures r.Some? ==> Occurs(s, t, r.value) && forall i | i < r.value :: !Occurs(s, t, i)
    ensures r.None? ==> forall i :: !Occurs(s, t, i)
  {
    if |s| < |t| then None
    else if s[..|t|] == t then Some(0)
    else
      OccursLater(s, t);
      match IndexOf(s[1..], t)
      case None => None
      case Some(i) => Some(i + 1)
  }

  lemma OccursLater(s: string, t: string)
    requires |t| <= |s| && s[..|t|] != t
    ensures forall i :: Occurs(s, t, i) <==> Occurs(s[1..], t, i - 1)
  {
    forall i ensures Occurs(s, t, i) <==> Occurs(s[1..], t, i - 1) {
      if i > 0 && i + |t| <= |s| {
        assert s[1..][i - 1..i - 1 + |t|] == s[i..i + |t|];
      }
    }
  }

  predicate Includes(s: string, t: string) {
    IndexOf(s, t).Some?
  }

  predicate Space(c: char) {
    || c == '\t' || c == '\n' || c == '\U{b}' || c == '\U{c}' || c == '\r' || c == ' ' || c == '\U{a0}'
    || c == '\U{1680}' || ('\U{2000}' <= c <= '\U{200a}') || c == '\U{2028}' || c == '\U{2029}'
    || c == '\U{202f}' || c == '\U{205f}' || c == '\U{3000}' || c == '\U{feff}'
  }

  function TrimEnd(s: string): (r: string)
    ensures r <= s && (r == "" || !Space(r[|r| - 1]))
    ensures forall i | |r| <= i < |s| :: Space(s[i])
  {
    if s != "" && Space(s[|s| - 1]) then TrimEnd(s[..|s| - 1]) else s
  }

  /** `s.split(c)`. */
  function Split(c: char, s: string): (r: seq<string>)
    ensures r != []
  {
    if s == "" then [""]
    else
      var parts, last := Split(c, s[..|s| - 1]), s[|s| - 1];
      if last == c then parts + [""] else parts[..|parts| - 1] + [parts[|parts| - 1] + [last]]
  }

  lemma {:induction false} SplitSnoc(c: char, s: string, last: char)
    ensures var parts := Split(c, s);
            Split(c, s + [last]) == if last == c then parts + [""] else parts[..|parts| - 1] + [parts[|parts| - 1] + [last]]
  {
    assert (s + [last])[..|s|] == s;
  }

  lemma {:induction false} SplitJoin(c: char, a: string, b: string)
    ensures Split(c, a + [c] + b) == Split(c, a) + Split(c, b)
  {
    hide Split;
    if b == "" {
      SplitSnoc(c, a, c);
      assert a + [c] + b == a + [c];
      SplitEmpty(c);
    } else {
      var m := |b| - 1;
      SplitJoin(c, a, b[..m]);
      assert a + [c] + b == (a + [c] + b[..m]) + [b[m]];
      SplitSnoc(c, a + [c] + b[..m], b[m]);
      assert b == b[..m] + [b[m]];
      SplitSnoc(c, b[..m], b[m]);
    }
  }

  lemma {:induction false} SplitEmpty(c: char)
    ensures Split(c, "") == [""]
  {
  }

  lemma OccursIncludes(s: string, t: string, i: int)
    requires Occurs(s, t, i)
    ensures Includes(s, t)
  {
  }

  /** A text that insertion cannot tear apart: on one line and not ending in white space. */
  predicate Solid(t: string) {
    t != "" && '\n' !in t && !Space(t[|t| - 1])
  }

  lemma OccursInContext(a: string, s: string, b: string, t: string, i: int)
    requires Occurs(s, t, i)
    ensures Occurs(a + s + b, t, |a| + i)
  {
    assert (a + s + b)[|a| + i..|a| + i + |t|] == s[i..i + |t|];
  }

  lemma OccursInPart(a: string, s: string, b: string, t: string, i: int)
    requires Occurs(a + s + b, t, i) && |a| <= i && i + |t| <= |a| + |s|
    ensures Occurs(s, t, i - |a|)
  {
    assert (a + s + b)[i..i + |t|] == s[i - |a|..i - |a| + |t|];
  }

  lemma CharAt(s: string, t: string, i: int, k: int)
    requires Occurs(s, t, i) && 0 <= k < |t|
    ensures s[i + k] == t[k]
  {
    assert s[i..i + |t|][k] == t[k];
  }

  lemma {:induction false} TrimEndKeeps(s: string, t: string)
    requires Solid(t)
    ensures Includes(TrimEnd(s), t) <==> Includes(s, t)
  {
    hide IndexOf, Occurs, TrimEnd, Space;
    var r := TrimEnd(s);
    if Includes(r, t) {
      OccursInContext("", r, s[|r|..], t, IndexOf(r, t).value);
      assert s == "" + r + s[|r|..];
    }
    if Includes(s, t) {
      SolidInTrimmed(s, t, IndexOf(s, t).value);
    }
  }

  lemma {:induction false} SolidInTrimmed(s: string, t: string, i: int)
    requires Solid(t) && Occurs(s, t, i)
    ensures Occurs(TrimEnd(s), t, i)
  {
    hide Occurs, TrimEnd, Space;
    var r := TrimEnd(s);
    InRange(s, t, i);
    CharAt(s, t, i, |t| - 1);
    assert !Space(s[i + |t| - 1]);
    assert s == "" + r + s[|r|..];
    OccursInPart("", r, s[|r|..], t, i);
  }

  lemma IncludesInContext(a: string, s: string, b: string, t: string)
    requires Includes(s, t)
    ensures Includes(a + s + b, t)
  {
    hide IndexOf, Occurs;
    OccursInContext(a, s, b, t, IndexOf(s, t).value);
  }

  /** A solid text in `a + "\n" + b` lies on one side of the line break. */
  lemma SolidSide(a: string, b: string, t: string, i: int)
    requires Solid(t) && Occurs(a + "\n" + b, t, i)
    ensures i + |t| <= |a| || i > |a|
  {
    hide Occurs, Space;
    var s := a + "\n" + b;
    InRange(s, t, i);
    assert s[|a|] == '\n';
    if i <= |a| < i + |t| {
      CharAt(s, t, i, |a| - i);
      assert false;
    }
  }

  lemma SolidOnOneSide(a: string, b: string, t: string)
    requires Solid(t) && Includes(a + "\n" + b, t)
    ensures Includes(a, t) || Includes(b, t)
  {
    hide IndexOf, Occurs, Solid;
    var s := a + "\n" + b;
    var i := IndexOf(s, t).value;
    InRange(s, t, i);
    SolidSide(a, b, t, i);
    if i + |t| <= |a| {
      assert s == "" + a + ("\n" + b);
      OccursInPart("", a, "\n" + b, t, i);
    } else {
      assert s == (a + "\n") + b + "";
      OccursInPart(a + "\n", b, "", t, i);
    }
  }

  lemma InRange(s: string, t: string, i: int)
    requires Occurs(s, t, i)
    ensures 0 <= i && i + |t| <= |s|
  {
  }

  function Lines(s: string): (r: seq<string>)
    ensures r != []
  {
    Split('\n', s)
  }

  /** The lines with any text, without trailing white space. */
  function TextOf(lines: seq<string>): multiset<string> {
    if lines == [] then multiset{}
    else
      var last := TrimEnd(lines[|lines| - 1]);
      TextOf(lines[..|lines| - 1]) + if last == "" then multiset{} else multiset{last}
  }

  function Text(s: string): multiset<string> {
    TextOf(Lines(s))
  }

  lemma {:induction false} TextOfSnoc(lines: seq<string>, line: string)
    ensures TextOf(lines + [line]) == TextOf(lines) + if TrimEnd(line) == "" then multiset{} else multiset{TrimEnd(line)}
  {
    assert (lines + [line])[..|lines|] == lines;
  }

  lemma {:induction false} TextOfConcat(xs: seq<string>, ys: seq<string>)
    ensures TextOf(xs + ys) == TextOf(xs) + TextOf(ys)
  {
    hide TextOf;
    if ys == [] {
      assert xs + ys == xs;
      TextOfNothing();
    } else {
      var m := |ys| - 1;
      TextOfConcat(xs, ys[..m]);
      assert xs + ys == (xs + ys[..m]) + [ys[m]] && ys == ys[..m] + [ys[m]];
      TextOfSnoc(xs + ys[..m], ys[m]);
      TextOfSnoc(ys[..m], ys[m]);
    }
  }

  lemma TextOfNothing()
    ensures TextOf([]) == multiset{} && Text("") == multiset{}
  {
    assert [""][..0] == [];
  }

  lemma TextJoin(a: string, b: string)
    ensures Text(a + "\n" + b) == Text(a) + Text(b)
  {
    hide TextOf;
    SplitJoin('\n', a, b);
    TextOfConcat(Lines(a), Lines(b));
  }

  lemma {:induction false} TextOfTrimmed(s: string)
    ensures Text(TrimEnd(s)) == Text(s)
  {
    hide TextOf, Split;
    if s != "" && Space(s[|s| - 1]) {
      var m := |s| - 1;
      TextOfTrimmed(s[..m]);
      SpaceAddsNoText(s[..m], s[m]);
      assert s == s[..m] + [s[m]];
    }
  }

  lemma SpaceAddsNoText(s: string, c: char)
    requires Space(c)
    ensures Text(s + [c]) == Text(s)
  {
    hide TextOf, Split;
    SplitSnoc('\n', s, c);
    var lines := Lines(s);
    if c == '\n' {
      TextOfSnoc(lines, "");
    } else {
      var m := |lines| - 1;
      assert (lines[m] + [c])[..|lines[m]|] == lines[m];
      assert lines == lines[..m] + [lines[m]];
      TextOfSnoc(lines[..m], lines[m]);
      TextOfSnoc(lines[..m], lines[m] + [c]);
    }
  }

  /** `xs` with elements left out of `ys`. */
  predicate Within(xs: seq<string>, ys: seq<string>) {
    xs == [] || (ys != [] &&
      ((xs[|xs| - 1] == ys[|ys| - 1] && Within(xs[..|xs| - 1], ys[..|ys| - 1])) || Within(xs, ys[..|ys| - 1])))
  }

  lemma {:induction false} WithinAppended(xs: seq<string>, ys: seq<string>, zs: seq<string>)
    requires Within(xs, ys)
    ensures Within(xs, ys + zs)
  {
    if zs == [] {
      assert ys + zs == ys;
    } else {
      WithinAppended(xs, ys, zs[..|zs| - 1]);
      assert (ys + zs)[..|ys + zs| - 1] == ys + zs[..|zs| - 1];
    }
  }

  lemma {:induction false} WithinInserted(xs: seq<string>, ys: seq<string>, mid: seq<string>, zs: seq<string>)
    requires Within(xs, ys + zs)
    ensures Within(xs, ys + mid + zs)
    decreases |zs|, |xs|
  {
    if zs == [] {
      assert ys + zs == ys && ys + mid + zs == ys + mid;
      WithinAppended(xs, ys, mid);
    } else if xs != [] {
      var n := |zs| - 1;
      var all := ys + mid + zs;
      assert (ys + zs)[..|ys + zs| - 1] == ys + zs[..n];
      assert all[..|all| - 1] == ys + mid + zs[..n];
      if Within(xs, ys + zs[..n]) {
        WithinInserted(xs, ys, mid, zs[..n]);
      } else {
        WithinInserted(xs[..|xs| - 1], ys, mid, zs[..n]);
      }
    }
  }

  lemma {:induction false} WithinItself(xs: seq<string>)
    ensures Within(xs, xs)
  {
    if xs != [] {
      WithinItself(xs[..|xs| - 1]);
    }
  }

  /** The lines up to the last text. */
  function OriginalLines(s: string): seq<string> {
    if TrimEnd(s) == "" then [] else Lines(TrimEnd(s))
  }

  predicate EndsInText(lines: seq<string>) {
    lines == [] || (var last := lines[|lines| - 1]; last != "" && !Space(last[|last| - 1]))
  }

  lemma {:induction false} LastLine(s: string)
    ensures s != "" && s[|s| - 1] != '\n' ==>
              var last := Lines(s)[|Lines(s)| - 1]; last != "" && last[|last| - 1] == s[|s| - 1]
  {
  }

  lemma OriginalLinesEndInText(s: string)
    ensures EndsInText(OriginalLines(s))
  {
    LastLine(TrimEnd(s));
  }

  /** Trimming the end loses no line list that ends in text. */
  lemma {:induction false} WithinTrimmed(xs: seq<string>, s: string)
    requires EndsInText(xs) && Within(xs, Lines(s))
    ensures Within(xs, Lines(TrimEnd(s)))
  {
    hide Split;
    if s != "" && Space(s[|s| - 1]) {
      var m := |s| - 1;
      assert s == s[..m] + [s[m]];
      WithinDropSpace(xs, s[..m], s[m]);
      WithinTrimmed(xs, s[..m]);
    }
  }

  lemma {:induction false} WithinDropSpace(xs: seq<string>, s: string, c: char)
    requires EndsInText(xs) && Space(c) && Within(xs, Lines(s + [c]))
    ensures Within(xs, Lines(s))
  {
    hide Split;
    SplitSnoc('\n', s, c);
    var lines, longer := Lines(s), Lines(s + [c]);
    var m := |lines| - 1;
    if xs == [] {
    } else if c == '\n' {
      assert longer[..|longer| - 1] == lines;
    } else {
      assert longer[..|longer| - 1] == lines[..m];
      var last := lines[m] + [c];
      assert last[|last| - 1] == c && longer[|longer| - 1] == last;
      assert Within(xs, lines[..m]);
    }
  }

  lemma {:induction false} TrimEndOfConcat(a: string, b: string)
    requires TrimEnd(b) != ""
    ensures TrimEnd(a + b) == a + TrimEnd(b)
  {
    hide TrimEnd;
    var t, n := TrimEnd(b), |a| + |TrimEnd(b)|;
    var s := a + b;
    assert s[n - 1] == t[|t| - 1];
    assert forall i | n <= i < |s| :: s[i] == b[i - |a|] && Space(b[i - |a|]);
    var r := TrimEnd(s);
    assert |r| == n;
    assert s[..n] == a + t;
  }

  lemma LinesJoin(a: string, b: string)
    ensures Lines(a + "\n" + b) == Lines(a) + Lines(b)
  {
    SplitJoin('\n', a, b);
  }

  lemma {:induction false} NothingWithin(ys: seq<string>)
    ensures Within([], ys)
  {
  }

  lemma {:induction false} FirstIndex(s: string, t: string, i: nat)
    requires Occurs(s, t, i) && forall j | 0 <= j < i :: !Occurs(s, t, j)
    ensures IndexOf(s, t) == Some(i)
  {
  }

  /** What follows an occurrence does not change where the first one is. */
  lemma {:induction false} SameFirstIndex(s: string, b: string, t: string)
    requires Includes(s, t)
    ensures IndexOf(s + b, t) == IndexOf(s, t)
  {
    hide IndexOf, Occurs;
    var i := IndexOf(s, t).value;
    OccursInContext("", s, b, t, i);
    assert "" + s + b == s + b;
    forall j | 0 <= j < i ensures !Occurs(s + b, t, j) {
      if Occurs(s + b, t, j) {
        InRange(s, t, i);
        OccursInPart("", s, b, t, j);
      }
    }
    FirstIndex(s + b, t, i);
  }

  lemma {:induction false} NoneBeforeFirst(s: string, t: string)
    requires Includes(s, t) && t != ""
    ensures IndexOf(s, t).value <= |s| && !Includes(s[..IndexOf(s, t).value], t)
  {
    hide IndexOf, Occurs;
    var k := IndexOf(s, t).value;
    InRange(s, t, k);
    var front := s[..k];
    assert "" + front + s[k..] == s;
    if Includes(front, t) {
      var j := IndexOf(front, t).value;
      InRange(front, t, j);
      OccursInContext("", front, s[k..], t, j);
      assert false;
    }
  }
}
