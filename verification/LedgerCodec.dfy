/** A small row encoding with every property the ledger asks of JSON: those properties are consistent. */
module LedgerCodec {
  import opened Wrappers
  import opened Ledger

  /** One character, with braces, line breaks and the two marks written as two letters. */
  function EscapeChar(c: char): string {
    if c == '{' then "%l" else if c == '}' then "%r" else if c == '\n' then "%n"
    else if c == '%' then "%p" else if c == ';' then "%s" else [c]
  }

  function UnescapeChar(c: char): char {
    if c == 'l' then '{' else if c == 'r' then '}' else if c == 'n' then '\n' else if c == 'p' then '%' else ';'
  }

  function Field(s: string): string {
    if s == "" then ";" else EscapeChar(s[0]) + Field(s[1..])
  }

  /** A field and what follows it. */
  function TakeField(s: string): (string, string)
    decreases |s|
  {
    if s == "" then ("", "")
    else if s[0] == ';' then ("", s[1..])
    else if s[0] == '%' && |s| > 1 then
      var (x, rest) := TakeField(s[2..]);
      ([UnescapeChar(s[1])] + x, rest)
    else
      var (x, rest) := TakeField(s[1..]);
      ([s[0]] + x, rest)
  }

  function Tag(r: SendResult): string {
    match r case Sent => "a" case TooLarge => "b" case Error => "c"
  }

  function TagOf(s: string): SendResult {
    if s == "a" then Sent else if s == "b" then TooLarge else Error
  }

  function HashField(h: Option<string>): string {
    match h case None => "" case Some(s) => "h" + s
  }

  function HashOf(s: string): Option<string> {
    if s == "" then None else Some(s[1..])
  }

  function Body(r: Row): string {
    Field(r.relPath) + (Field(HashField(r.contentHash)) + (Field(Tag(r.result)) + Field(r.details)))
  }

  function Encode(r: Row): string {
    "{" + Body(r) + "}"
  }

  function ParseBody(s: string): Row {
    var (path, s1) := TakeField(s);
    var (hash, s2) := TakeField(s1);
    var (tag, s3) := TakeField(s2);
    Row(path, HashOf(hash), TagOf(tag), TakeField(s3).0)
  }

  function Decode(s: string): Option<Row> {
    if |s| < 2 then None
    else
      var r := ParseBody(s[1..|s| - 1]);
      if Encode(r) == s then Some(r) else None
  }

  const ROWS := Codec((r: Row) => Encode(r), (s: string) => Decode(s))

  lemma {:induction false} TakeEscaped(c: char, more: string)
    ensures TakeField(EscapeChar(c) + more) == ([c] + TakeField(more).0, TakeField(more).1)
  {
    hide TakeField;
    if EscapeChar(c) == [c] {
      TakePlain(c, more);
    } else {
      TakeMarked(EscapeChar(c)[1], more);
      assert EscapeChar(c) == ['%', EscapeChar(c)[1]];
    }
  }

  lemma {:induction false} TakePlain(c: char, more: string)
    requires c != ';' && c != '%'
    ensures TakeField([c] + more) == ([c] + TakeField(more).0, TakeField(more).1)
  {
    assert ([c] + more)[1..] == more;
  }

  lemma {:induction false} TakeMarked(c: char, more: string)
    ensures TakeField(['%', c] + more) == ([UnescapeChar(c)] + TakeField(more).0, TakeField(more).1)
  {
    assert (['%', c] + more)[2..] == more;
  }

  lemma {:induction false} FieldRoundTrip(s: string, rest: string)
    ensures TakeField(Field(s) + rest) == (s, rest)
  {
    hide TakeField, EscapeChar;
    if s == "" {
      TakeEnd(rest);
    } else {
      FieldRoundTrip(s[1..], rest);
      TakeEscaped(s[0], Field(s[1..]) + rest);
      assert Field(s) + rest == EscapeChar(s[0]) + (Field(s[1..]) + rest);
      assert s == [s[0]] + s[1..];
    }
  }

  lemma {:induction false} TakeEnd(rest: string)
    ensures TakeField(";" + rest) == ("", rest)
  {
    assert (";" + rest)[1..] == rest;
  }

  lemma RowRoundTrip(r: Row)
    ensures Decode(Encode(r)) == Some(r)
  {
    hide TakeField, Field;
    var tail := Field(Tag(r.result)) + Field(r.details);
    FieldRoundTrip(r.relPath, Field(HashField(r.contentHash)) + tail);
    FieldRoundTrip(HashField(r.contentHash), tail);
    FieldRoundTrip(Tag(r.result), Field(r.details));
    FieldRoundTrip(r.details, "");
    assert Field(r.details) + "" == Field(r.details);
    var s := Encode(r);
    assert s[1..|s| - 1] == Body(r);
    assert r.contentHash.Some? ==> HashField(r.contentHash)[1..] == r.contentHash.value;
  }

  predicate Plain(s: string) {
    '{' !in s && '}' !in s && '\n' !in s
  }

  lemma {:induction false} FieldIsPlain(s: string)
    ensures Plain(Field(s))
  {
    if s != "" {
      FieldIsPlain(s[1..]);
    }
  }

  lemma BodyIsPlain(r: Row)
    ensures Plain(Body(r))
  {
    hide Field;
    FieldIsPlain(r.relPath);
    FieldIsPlain(HashField(r.contentHash));
    FieldIsPlain(Tag(r.result));
    FieldIsPlain(r.details);
  }

  lemma EncodingShape(r: Row)
    ensures var s := Encode(r);
            && |s| >= 2 && s[0] == '{' && s[|s| - 1] == '}' && '\n' !in s
            && forall i | 0 < i < |s| - 1 :: s[i] != '{' && s[i] != '}'
  {
    BodyIsPlain(r);
    var s := Encode(r);
    assert forall i | 0 < i < |s| - 1 :: s[i] == Body(r)[i - 1];
  }

  lemma DecodedIsEncoding(s: string)
    requires Decode(s).Some?
    ensures s == Encode(Decode(s).value)
  {
  }

  /** Several fragments hold several opening braces. */
  lemma {:induction false} GluedBraces(fs: seq<Fragment>)
    requires ValidFragments(ROWS, fs)
    ensures fs == [] <==> Glued(ROWS, fs) == ""
    ensures fs != [] ==> Glued(ROWS, fs)[0] == '{'
    ensures |fs| > 1 ==> exists i :: 0 < i < |Glued(ROWS, fs)| && Glued(ROWS, fs)[i] == '{'
  {
    if fs != [] {
      var m := |fs| - 1;
      GluedBraces(fs[..m]);
      EncodingShape(fs[m].row);
      assert ValidFragment(ROWS, fs[m]);
      var front, piece := Glued(ROWS, fs[..m]), ROWS.encode(fs[m].row)[..fs[m].k];
      assert piece[0] == '{';
      assert Glued(ROWS, fs) == front + piece;
      assert Glued(ROWS, fs)[|front|] == piece[0];
    }
  }

  lemma {:induction false} NonWholeIsNoEncoding(fs: seq<Fragment>)
    requires ValidFragments(ROWS, fs) && !Whole(ROWS, fs)
    ensures ROWS.decode(Glued(ROWS, fs)) == None
  {
    hide Encode, Decode;
    var g := Glued(ROWS, fs);
    if Decode(g).Some? {
      var r := Decode(g).value;
      DecodedIsEncoding(g);
      EncodingShape(r);
      GluedBraces(fs);
      if |fs| == 1 {
        OneFragment(fs[0], fs);
        assert false;
      } else {
        assert false;
      }
    }
  }

  lemma {:induction false} OneFragment(f: Fragment, fs: seq<Fragment>)
    requires fs == [f] && ValidFragments(ROWS, fs) && !Whole(ROWS, fs)
    ensures Glued(ROWS, fs) != "" && Glued(ROWS, fs)[|Glued(ROWS, fs)| - 1] != '}'
  {
    EncodingShape(f.row);
    assert fs[..0] == [] && ValidFragment(ROWS, fs[0]);
    assert Glued(ROWS, fs) == "" + ROWS.encode(f.row)[..f.k];
    assert Glued(ROWS, fs) == ROWS.encode(f.row)[..f.k];
  }

  /** The requirements on the codec can be met together. */
  lemma LawfulCodecExists()
    ensures Lawful(ROWS)
  {
    hide Encode, Decode, Glued;
    forall r: Row ensures Decode(Encode(r)) == Some(r) && Encode(r) != "" && '\n' !in Encode(r) {
      RowRoundTrip(r);
      EncodingShape(r);
    }
    forall fs: seq<Fragment> | ValidFragments(ROWS, fs) && !Whole(ROWS, fs) ensures ROWS.decode(Glued(ROWS, fs)) == None {
      NonWholeIsNoEncoding(fs);
    }
  }
}
