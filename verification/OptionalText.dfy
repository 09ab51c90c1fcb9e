// What the two optional texts of a manifest hold when their JSON strings have a mistake
// (core/src/manifest.c:139-179; core/src/util/json.c:100-183).

module OptionalText {
  import opened Common
  import opened Strbuf
  import opened Json
  import opened Manifest
  import Utf8

  // ------------------------------------------------------------------ one field's buffer

  lemma {:induction false} CStringEndsAtNul(s: Bytes)
    ensures CString(s) == s[..|CString(s)|]
    ensures |CString(s)| < |s| ==> s[|CString(s)|] == 0
  {
    if s != [] && s[0] != 0 {
      CStringEndsAtNul(s[1..]);
    }
  }

  lemma CStringIsValid(s: Bytes)
    requires Utf8.Valid(s)
    ensures Utf8.Valid(CString(s))
  {
    hide CString;
    CStringEndsAtNul(s);
    if |CString(s)| < |s| {
      Utf8.AsciiIsABoundary(s, |CString(s)|);
    } else {
      assert s[..|s|] == s;
    }
  }

  // A string between quotes that is readable into cap bytes: free of mistakes, or short
  // enough, or with a character or a NUL where the buffer ends.
  predicate ReadsWell(raw: Bytes, cap: nat)
    requires cap > 0
  {
    var d := Decode(raw);
    d.ok || |d.text| < cap || Utf8.Cut(d.text, cap - 1) == cap - 1 || 0 in d.text[..cap - 1]
  }

  lemma FieldIsValidExactlyWhen(raw: Bytes, cap: nat)
    requires cap > 0 && Utf8.Valid(raw)
    ensures Utf8.Valid(CString(Received(raw, cap))) <==> ReadsWell(raw, cap)
  {
    hide Decode, CString, Utf8.Valid, Utf8.Cut, Utf8.Trim;
    var d, r := Decode(raw), Received(raw, cap);
    DecodeIsValid(raw);
    ReceivedIsValidExactlyWhen(raw, cap);
    if Utf8.Valid(r) {
      CStringIsValid(r);
    } else if 0 in r {
      CStringEndsAtNul(r);
      var n := |CString(r)|;
      assert CString(r) == d.text[..n] && d.text[n] == r[n];
      Utf8.AsciiIsABoundary(d.text, n);
    } else {
      CStringWhole(r);
    }
  }

  // -------------------------------------------------------- strings inside a valid text

  lemma QuotedIsValid(s: Bytes, n: nat)
    requires Utf8.Valid(s) && s != [] && s[0] == QUOTE && StringEnd(s[1..]) == Some(n)
    ensures Utf8.Valid(s[1..1 + n]) && Utf8.Valid(s[n + 2..])
  {
    hide StringEnd, Utf8.Valid;
    var t := s[1..];
    Utf8.DropAscii(s, 1);
    Utf8.AsciiIsABoundary(t, n);
    Utf8.DropAscii(t[n..], 1);
    assert s[1..1 + n] == t[..n] && s[n + 2..] == t[n..][1..];
  }

  lemma {:induction false} WordIsAscii(s: Bytes)
    ensures forall i :: 0 <= i < WordEnd(s) ==> s[i] < 0x80
  {
    if WordEnd(s) > 0 {
      WordIsAscii(s[1..]);
      assert forall i :: 1 <= i < WordEnd(s) ==> s[i] == s[1..][i - 1];
    }
  }

  lemma ValueIsValid(s: Bytes)
    requires Utf8.Valid(s) && ScanValue(s).Some?
    ensures Utf8.Valid(ScanValue(s).value.0.raw) && Utf8.Valid(ScanValue(s).value.1)
  {
    hide StringEnd, WordEnd, Utf8.Valid;
    if s[0] == QUOTE {
      QuotedIsValid(s, StringEnd(s[1..]).value);
    } else {
      WordIsAscii(s);
      Utf8.AsciiIsValid(s[..WordEnd(s)]);
      Utf8.DropAscii(s, WordEnd(s));
    }
  }

  lemma MemberIsValid(s: Bytes)
    requires Utf8.Valid(s) && ScanMember(s).Some?
    ensures Utf8.Valid(ScanMember(s).value.0.value.raw) && Utf8.Valid(ScanMember(s).value.1)
  {
    hide StringEnd, ScanValue, Utf8.Valid;
    var n := StringEnd(s[1..]).value;
    QuotedIsValid(s, n);
    Utf8.DropAscii(s[n + 2..], 1);
    assert s[n + 3..] == s[n + 2..][1..];
    ValueIsValid(s[n + 3..]);
  }

  lemma {:induction false} MembersAreValid(s: Bytes)
    requires Utf8.Valid(s) && ScanMembers(s).Some?
    ensures forall m :: m in ScanMembers(s).value ==> Utf8.Valid(m.value.raw)
    decreases |s|
  {
    hide ScanMember, Utf8.Valid;
    MemberIsValid(s);
    var rest := ScanMember(s).value.1;
    if rest != [CLOSE] {
      Utf8.DropAscii(rest, 1);
      MembersAreValid(rest[1..]);
    }
  }

  lemma {:induction false} FoundIsThere(ms: seq<Member>, key: Bytes)
    requires Find(ms, key).Some?
    ensures Member(key, Find(ms, key).value) in ms
  {
    if ms[0].key != key {
      FoundIsThere(ms[1..], key);
    } else {
      assert ms[0] == Member(key, Find(ms, key).value);
    }
  }

  // What stands in a valid text under a key is valid itself.
  lemma RawIsValid(text: Bytes, key: string)
    requires Utf8.Valid(text) && ScanObject(text).Some? && Find(ScanObject(text).value, Ascii(key)).Some?
    ensures Utf8.Valid(Find(ScanObject(text).value, Ascii(key)).value.raw)
  {
    hide Find, ScanMembers, Utf8.Valid;
    FoundIsThere(ScanObject(text).value, Ascii(key));
    Utf8.DropAscii(text, 1);
    if text != [OPEN, CLOSE] {
      MembersAreValid(text[1..]);
    }
  }

  // ------------------------------------------------------------------- the two fields

  predicate Readable(v: Option<Value>, cap: nat)
    requires cap > 0
  {
    v.Some? && v.value.Quoted? ==> ReadsWell(v.value.raw, cap)
  }

  lemma FieldOf(text: Bytes, key: string, cap: nat)
    requires cap > 0 && Utf8.Valid(text) && ScanObject(text).Some?
    ensures Utf8.Valid(GetStr(ScanObject(text).value, key, cap).1) <==> Readable(Find(ScanObject(text).value, Ascii(key)), cap)
  {
    hide Decode, Find, ScanObject, CString, ReadsWell, Received;
    var v := Find(ScanObject(text).value, Ascii(key));
    if v.Some? && v.value.Quoted? {
      RawIsValid(text, key);
      FieldIsValidExactlyWhen(v.value.raw, cap);
    }
  }

  // Whoever reads a manifest from valid UTF-8 gets valid UTF-8 in every field, except in
  // the title's name and the time: those are valid exactly when their strings are readable
  // into 128 and 32 bytes.
  lemma ParsedTextsAreValidExactlyWhen(text: Bytes)
    requires Utf8.Valid(text) && ParseManifest(text).Done?
    ensures
      var m, ms := ParseManifest(text).value, ScanObject(text).value;
      && Utf8.Valid(m.titleId) && Utf8.Valid(m.sha256) && Utf8.Valid(m.deviceLabel)
      && (Utf8.Valid(m.titleName) <==> Readable(Find(ms, Ascii("title_name")), NAME_MAX))
      && (Utf8.Valid(m.createdAt) <==> Readable(Find(ms, Ascii("created_at")), TIMESTAMP_MAX))
  {
    hide Find, GetStr, ScanObject, NeedStr, UintOf, ParentOf, Utf8.Valid, Readable;
    var m := ParseManifest(text).value;
    FieldOf(text, "title_name", NAME_MAX);
    FieldOf(text, "created_at", TIMESTAMP_MAX);
    Utf8.AsciiIsValid(m.titleId);
    Utf8.AsciiIsValid(m.sha256);
  }

  // -------------------------------------------------------------- a manifest that is not

  // The name's string replaced by any other one.
  function Renamed(m: Manifest, raw: Bytes): (ms: seq<Member>)
    requires m.titleName != []
    ensures |ms| == |Members(m)|
  {
    Members(m)[10 := Member(Ascii("title_name"), Quoted(raw))]
  }

  lemma {:induction false} FindElsewhere(ms: seq<Member>, i: nat, v: Value, key: Bytes)
    requires i < |ms| && ms[i].key != key
    ensures Find(ms[i := Member(ms[i].key, v)], key) == Find(ms, key)
  {
    var ns := ms[i := Member(ms[i].key, v)];
    if i > 0 {
      assert ns[1..] == ms[1..][i - 1 := Member(ms[1..][i - 1].key, v)];
      FindElsewhere(ms[1..], i - 1, v, key);
    } else {
      assert ns[1..] == ms[1..];
    }
  }

  lemma NameStandsEleventh(m: Manifest)
    requires m.titleName != []
    ensures |Members(m)| > 10 && Members(m)[10] == Member(Ascii("title_name"), Quoted(Escape(m.titleName)))
  {
    hide Ascii, Escape;
  }

  lemma OtherKeysKeepTheirValues(m: Manifest, raw: Bytes, k: nat)
    requires m.titleName != [] && k < |KEYS| && k != 10
    ensures Find(Renamed(m, raw), Ascii(KEYS[k])) == Find(Members(m), Ascii(KEYS[k]))
  {
    hide Find, Ascii, Members;
    NameStandsEleventh(m);
    KeysDiffer(if k < 10 then k else 10, if k < 10 then 10 else k);
    FindElsewhere(Members(m), 10, Quoted(raw), Ascii(KEYS[k]));
  }

  lemma OtherFieldsKeepTheirValues(m: Manifest, raw: Bytes, k: nat, cap: nat)
    requires m.titleName != [] && k < |KEYS| && k != 10 && cap > 0
    ensures GetStr(Renamed(m, raw), KEYS[k], cap) == GetStr(Members(m), KEYS[k], cap)
    ensures NeedStr(Renamed(m, raw), KEYS[k], cap) == NeedStr(Members(m), KEYS[k], cap)
    ensures NeedUint(Renamed(m, raw), KEYS[k]) == NeedUint(Members(m), KEYS[k])
  {
    hide Find, Ascii, Members, Renamed, Decode, CString, Received;
    OtherKeysKeepTheirValues(m, raw, k);
  }

  lemma NewNameIsFound(m: Manifest, raw: Bytes)
    requires m.titleName != []
    ensures Find(Renamed(m, raw), Ascii("title_name")) == Some(Quoted(raw))
  {
    hide Find, Ascii, Members;
    var ns := Renamed(m, raw);
    NameStandsEleventh(m);
    forall j | 0 <= j < 10
      ensures ns[j].key != ns[10].key
    {
      PlacesAreKeys(m, j);
      KeysDiffer(j, 10);
    }
    FindAt(ns, 10);
  }

  lemma NameField(ns: seq<Member>, raw: Bytes)
    requires Find(ns, Ascii("title_name")) == Some(Quoted(raw))
    ensures GetStr(ns, "title_name", NAME_MAX).1 == CString(Received(raw, NAME_MAX))
  {
  }

  // All but the name is read as before, and nothing about a name is checked.
  lemma RenamedReadsBack(m: Manifest, raw: Bytes)
    requires Storable(m) && Valid(m) && m.titleName != []
    ensures FromMembers(Renamed(m, raw)) == Done(m.(titleName := CString(Received(raw, NAME_MAX))))
  {
    hide Find, Ascii, GetStr, NeedStr, NeedUint, UintOf, ParentOf, Members, Renamed, IsTitleId, IsDigest, Utf8.Valid, Received, CString;
    FromMembersReadsBack(m);
    OtherFieldsKeepTheirValues(m, raw, 0, 64);
    OtherFieldsKeepTheirValues(m, raw, 1, 64);
    OtherFieldsKeepTheirValues(m, raw, 2, TITLE_ID_MAX);
    OtherFieldsKeepTheirValues(m, raw, 3, 64);
    OtherFieldsKeepTheirValues(m, raw, 4, 64);
    OtherKeysKeepTheirValues(m, raw, 5);
    OtherFieldsKeepTheirValues(m, raw, 6, SHA256_HEX);
    OtherFieldsKeepTheirValues(m, raw, 7, 64);
    OtherFieldsKeepTheirValues(m, raw, 8, LABEL_MAX);
    OtherFieldsKeepTheirValues(m, raw, 9, TIMESTAMP_MAX);
    OtherKeysKeepTheirValues(m, raw, 11);
    NewNameIsFound(m, raw);
    NameField(Renamed(m, raw), raw);
  }

  lemma {:induction false} RoomOfReplaced(ms: seq<Member>, i: nat, x: Member)
    requires i < |ms|
    ensures Room(ms[i := x]) + |RenderMember(ms[i])| == Room(ms) + |RenderMember(x)|
  {
    hide RenderMember;
    var ns := ms[i := x];
    if i > 0 {
      assert ns[1..] == ms[1..][i - 1 := x];
      RoomOfReplaced(ms[1..], i - 1, x);
    } else {
      assert ns[1..] == ms[1..];
    }
  }

  lemma {:induction false} ReplacedIsPrintable(ms: seq<Member>, i: nat, x: Member)
    requires i < |ms| && AllPrintable(ms) && Printable(x)
    ensures AllPrintable(ms[i := x])
  {
    hide Printable;
    var ns := ms[i := x];
    if i > 0 {
      assert ns[1..] == ms[1..][i - 1 := x];
      ReplacedIsPrintable(ms[1..], i - 1, x);
    } else {
      assert ns[1..] == ms[1..];
    }
  }

  lemma NameMember(raw: Bytes)
    requires RawString(raw)
    ensures Printable(Member(Ascii("title_name"), Quoted(raw)))
    ensures |RenderMember(Member(Ascii("title_name"), Quoted(raw)))| == 15 + |raw|
  {
    hide RawString, Ascii;
    KeyIsPlain(10);
    PlainIsRaw(Ascii(KEYS[10]));
  }

  // A manifest whose name stands in the text as some other string that is no longer: the
  // text is still a manifest, and its name is what the buffer keeps of that string.
  lemma RenamedParses(m: Manifest, raw: Bytes)
    requires Storable(m) && Valid(m) && m.titleName != []
    requires RawString(raw) && |raw| <= |Escape(m.titleName)|
    ensures ParseManifest(RenderObject(Renamed(m, raw))) == Done(m.(titleName := CString(Received(raw, NAME_MAX))))
  {
    hide Members, Room, RenderMember, Printable, AllPrintable, RenderObject, ScanObject, FromMembers, RawString, Escape, Received, CString, Valid;
    var ms, ns := Members(m), Renamed(m, raw);
    NameStandsEleventh(m);
    NameMember(raw);
    EscapedIsRaw(m.titleName);
    NameMember(Escape(m.titleName));
    MembersArePrintable(m);
    ReplacedIsPrintable(ms, 10, ns[10]);
    RoomOfReplaced(ms, 10, ns[10]);
    RenderFitsRoom(ms);
    RenderFitsRoom(ns);
    ManifestFits(m);
    ScanRendered(ns);
    RenamedReadsBack(m, raw);
  }

  // A text with 126 letters, a character of two bytes and half of a surrogate pair for a
  // name is accepted, and leaves a name that ends inside a character.
  const LETTERS: Bytes := seq(126, _ => 0x61)
  const BROKEN_NAME: Bytes := LETTERS + E_ACUTE + HALF_A_PAIR
  const QUOTED: Manifest := SAMPLE.(titleName := seq(127, _ => QUOTE))

  lemma QuotedIsStorable()
    ensures Storable(QUOTED) && Valid(QUOTED) && QUOTED.titleName != []
  {
    SampleIsValid();
  }

  lemma {:induction false} QuotesEscapeToTwo(s: Bytes)
    requires forall i :: 0 <= i < |s| ==> s[i] == QUOTE
    ensures |Escape(s)| == 2 * |s|
  {
    if s != [] {
      QuotesEscapeToTwo(s[1..]);
    }
  }

  lemma {:induction false} StringEndBehind(run: Bytes, rest: Bytes)
    requires Plain(run)
    ensures StringEnd(run + rest) == Shifted(StringEnd(rest), |run|)
  {
    if run == [] {
      assert run + rest == rest;
    } else {
      assert (run + rest)[1..] == run[1..] + rest;
      StringEndBehind(run[1..], rest);
    }
  }

  lemma BrokenNameDecodes()
    ensures RawString(BROKEN_NAME) && Utf8.Valid(BROKEN_NAME)
    ensures Decode(BROKEN_NAME) == Decoded(LETTERS + E_ACUTE, false)
  {
    hide StringEnd, Decode, DecodeOne;
    var run := LETTERS + E_ACUTE;
    TwoMistakes();
    StringEndBehind(run, HALF_A_PAIR + [QUOTE]);
    assert run + (HALF_A_PAIR + [QUOTE]) == BROKEN_NAME + [QUOTE];
    DecodeRun(run, HALF_A_PAIR);
    MistakeLeavesHalfACharacter(HALF_A_PAIR);
    Utf8.AsciiIsValid(LETTERS);
    Utf8.ValidConcat(LETTERS, E_ACUTE + HALF_A_PAIR);
    assert LETTERS + (E_ACUTE + HALF_A_PAIR) == BROKEN_NAME;
    DecodeRun(E_ACUTE, HALF_A_PAIR);
    assert Decode(HALF_A_PAIR) == Decoded([], false);
  }

  lemma AcceptedNameEndsInsideACharacter()
    ensures Utf8.Valid(BROKEN_NAME)
    ensures
      var cut := LETTERS + [0xC3];
      && ParseManifest(RenderObject(Renamed(QUOTED, BROKEN_NAME))) == Done(QUOTED.(titleName := cut))
      && !Utf8.Valid(cut)
  {
    hide Decode, RenderObject, ParseManifest, Renamed, RawString, Valid, Storable, Escape, CString;
    var cut := LETTERS + [0xC3];
    QuotedIsStorable();
    BrokenNameDecodes();
    QuotesEscapeToTwo(QUOTED.titleName);
    RenamedParses(QUOTED, BROKEN_NAME);
    assert Received(BROKEN_NAME, NAME_MAX) == cut;
    CStringWhole(cut);
    Utf8.AsciiIsValid(LETTERS);
    Utf8.ValidConcat(LETTERS, [0xC3]);
  }
}
