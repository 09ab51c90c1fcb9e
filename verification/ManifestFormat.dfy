// What manifest.json and the state file look like from outside, spelled out byte by byte,
// and what becomes of them when a member is missing (core/src/manifest.c,
// core/src/sync.c:142-255, core/src/backend.c:8-73).

module ManifestFormat {
  import opened Common
  import opened Strbuf
  import opened Json
  import opened Manifest
  import Utf8

  // ---------------------------------------------------------------------------- names

  const CODE_3DS: Bytes := [0x33, 0x64, 0x73]
  const CODE_NX: Bytes := [0x6E, 0x78]
  const CODE_NDS: Bytes := [0x6E, 0x64, 0x73]
  const CODE_SAVEDATA: Bytes := [0x73, 0x61, 0x76, 0x65, 0x64, 0x61, 0x74, 0x61]
  const CODE_EXTDATA: Bytes := [0x65, 0x78, 0x74, 0x64, 0x61, 0x74, 0x61]

  // Which code stands for which platform, in both directions and for every string.
  lemma PlatformCodes(s: Bytes)
    ensures PlatformName(Nintendo3ds) == CODE_3DS && PlatformName(NintendoSwitch) == CODE_NX && PlatformName(NintendoDs) == CODE_NDS
    ensures PlatformParse(s) == Nintendo3ds <==> s == CODE_3DS
    ensures PlatformParse(s) == NintendoSwitch <==> s == CODE_NX
    ensures PlatformParse(s) == NintendoDs <==> s == CODE_NDS
    ensures PlatformParse(s) == UnknownPlatform <==> s !in [CODE_3DS, CODE_NX, CODE_NDS]
  {
    assert Ascii("3ds") == CODE_3DS && Ascii("nx") == CODE_NX && Ascii("nds") == CODE_NDS;
    assert CODE_3DS[0] != CODE_NDS[0];
  }

  lemma SaveTypeCodes(s: Bytes)
    ensures SaveTypeName(Savedata) == CODE_SAVEDATA && SaveTypeName(Extdata) == CODE_EXTDATA && SaveTypeName(NdsSave) == CODE_NDS
    ensures SaveTypeParse(s) == Savedata <==> s == CODE_SAVEDATA
    ensures SaveTypeParse(s) == Extdata <==> s == CODE_EXTDATA
    ensures SaveTypeParse(s) == NdsSave <==> s == CODE_NDS
    ensures SaveTypeParse(s) == UnknownSave <==> s !in [CODE_SAVEDATA, CODE_EXTDATA, CODE_NDS]
  {
    assert Ascii("savedata") == CODE_SAVEDATA && Ascii("extdata") == CODE_EXTDATA && Ascii("nds") == CODE_NDS;
    assert |CODE_SAVEDATA| == 8 && |CODE_EXTDATA| == 7 && |CODE_NDS| == 3;
  }

  // ------------------------------------------------------------------------ validation

  const DIGITS: Bytes := Ascii("0123456789")
  const CAPITALS: Bytes := Ascii("ABCDEFGHIJKLM") + Ascii("NOPQRSTUVWXYZ")
  const TITLE_CHARACTERS: Bytes := DIGITS + CAPITALS + Ascii("_-")
  const DIGEST_CHARACTERS: Bytes := DIGITS + Ascii("abcdef")

  // A run of characters one after another.
  lemma InRun(b: Byte, s: Bytes, first: nat)
    requires forall i :: 0 <= i < |s| ==> s[i] == first + i
    ensures b in s <==> first <= b < first + |s|
  {
    if first <= b < first + |s| {
      assert s[b - first] == b;
    }
  }

  lemma DigitRun(b: Byte)
    ensures b in DIGITS <==> 0x30 <= b <= 0x39
  {
    InRun(b, DIGITS, 0x30);
  }

  lemma CapitalRuns(b: Byte)
    ensures b in CAPITALS <==> 0x41 <= b <= 0x5A
  {
    InRun(b, Ascii("ABCDEFGHIJKLM"), 0x41);
    InRun(b, Ascii("NOPQRSTUVWXYZ"), 0x4E);
  }

  lemma TitleCharacters(b: Byte)
    ensures TitleByte(b) <==> b in TITLE_CHARACTERS
  {
    DigitRun(b);
    CapitalRuns(b);
    assert Ascii("_-") == [0x5F, 0x2D];
  }

  lemma DigestCharacters(b: Byte)
    ensures LowerHex(b) <==> b in DIGEST_CHARACTERS
  {
    DigitRun(b);
    InRun(b, Ascii("abcdef"), 0x61);
  }

  // What each field of an otherwise valid manifest may be.
  lemma FieldDecides(m: Manifest, n: nat, k: nat, p: Platform, t: SaveType, s: Bytes)
    requires Valid(m)
    ensures Valid(m.(formatVersion := n)) <==> n == 1
    ensures Valid(m.(platform := p)) <==> p in {Nintendo3ds, NintendoSwitch, NintendoDs}
    ensures Valid(m.(saveType := t)) <==> t in {Savedata, Extdata, NdsSave}
    ensures Valid(m.(titleId := s)) <==> 4 <= |s| <= 32 && forall b :: b in s ==> b in TITLE_CHARACTERS
    ensures Valid(m.(sha256 := s)) <==> |s| == 64 && forall b :: b in s ==> b in DIGEST_CHARACTERS
    ensures Valid(m.(deviceLabel := s)) <==> s != [] && Utf8.Valid(s)
    ensures Valid(m.(version := n, parentVersion := k)) <==> n == 0 || k < n
    ensures Valid(m.(size := n, titleName := s, secureValue := Some(n), createdAt := s))
  {
    hide TitleByte, LowerHex;
    forall b: Byte
      ensures TitleByte(b) <==> b in TITLE_CHARACTERS
      ensures LowerHex(b) <==> b in DIGEST_CHARACTERS
    {
      TitleCharacters(b);
      DigestCharacters(b);
    }
  }

  // ---------------------------------------------------------------------- the two texts

  // A member with a string, and one with a number, behind what separates it from the one before.
  function TextPiece(key: string, s: Bytes): Bytes {
    Ascii(",\"") + Ascii(key) + Ascii("\":\"") + Escape(s) + Ascii("\"")
  }

  function NumberPiece(separator: string, key: string, v: nat): Bytes {
    Ascii(separator) + Ascii(key) + Ascii("\":") + Decimal(v)
  }

  // The pieces of manifest.json with everything around the values written out.
  ghost function IdentityLayout(m: Manifest): Bytes {
    NumberPiece("{\"", "format_version", m.formatVersion)
    + TextPiece("platform", PlatformName(m.platform))
    + TextPiece("title_id", m.titleId)
    + TextPiece("save_type", SaveTypeName(m.saveType))
    + NumberPiece(",\"", "version", m.version)
  }

  ghost function ParentLayout(parent: nat): Bytes {
    if parent == 0 then Ascii(",\"") + Ascii("parent_version") + Ascii("\":") + Ascii("null")
    else NumberPiece(",\"", "parent_version", parent)
  }

  ghost function Layout(m: Manifest): Bytes {
    IdentityLayout(m)
    + ParentLayout(m.parentVersion)
    + TextPiece("sha256", m.sha256)
    + NumberPiece(",\"", "size", m.size)
    + TextPiece("device_label", m.deviceLabel)
    + TextPiece("created_at", m.createdAt)
    + (if m.titleName == [] then [] else TextPiece("title_name", m.titleName))
    + (if m.secureValue.None? then [] else NumberPiece(",\"", "secure_value", m.secureValue.value))
    + [0x7D]
  }

  lemma Marks()
    ensures Ascii("{\"") == [0x7B, 0x22] && Ascii(",\"") == [0x2C, 0x22] && Ascii("\"") == [0x22]
    ensures Ascii("\":\"") == [0x22, 0x3A, 0x22] && Ascii("\":") == [0x22, 0x3A]
  {
  }

  lemma AddedText(ms: seq<Member>, key: string, s: Bytes)
    requires ms != []
    ensures OpenText(ms + [Text(key, s)]) == OpenText(ms) + TextPiece(key, s)
  {
    hide OpenText, Ascii, Escape;
    Marks();
    OpenOneMore(ms, key, Quoted(Escape(s)));
  }

  lemma AddedNumber(ms: seq<Member>, key: string, v: nat)
    ensures OpenText(ms + [Number(key, v)]) == OpenText(ms) + NumberPiece(if ms == [] then "{\"" else ",\"", key, v)
  {
    hide OpenText, Ascii, Decimal;
    Marks();
    OpenOneMore(ms, key, Bare(Decimal(v)));
  }

  lemma AddedParent(ms: seq<Member>, parent: nat)
    requires ms != []
    ensures OpenText(ms + [ParentMember(parent)]) == OpenText(ms) + ParentLayout(parent)
  {
    hide OpenText, Ascii, Decimal;
    Marks();
    if parent == 0 {
      OpenOneMore(ms, "parent_version", Bare(Ascii("null")));
    } else {
      AddedNumber(ms, "parent_version", parent);
    }
  }

  lemma IdentityIsLaidOut(m: Manifest)
    ensures OpenText(FixedMembers(m)[..5]) == IdentityLayout(m)
  {
    hide OpenText, TextPiece, NumberPiece, Text, Number, PlatformName, SaveTypeName, Ascii;
    var all := FixedMembers(m);
    OpenNothing();
    AddedNumber([], "format_version", m.formatVersion);
    assert [] + [all[0]] == all[..1];
    AddedText(all[..1], "platform", PlatformName(m.platform));
    assert all[..1] + [all[1]] == all[..2];
    AddedText(all[..2], "title_id", m.titleId);
    assert all[..2] + [all[2]] == all[..3];
    AddedText(all[..3], "save_type", SaveTypeName(m.saveType));
    assert all[..3] + [all[3]] == all[..4];
    AddedNumber(all[..4], "version", m.version);
    assert all[..4] + [all[4]] == all[..5];
  }

  lemma FixedIsLaidOut(m: Manifest)
    ensures OpenText(FixedMembers(m)) ==
      IdentityLayout(m) + ParentLayout(m.parentVersion) + TextPiece("sha256", m.sha256)
      + NumberPiece(",\"", "size", m.size) + TextPiece("device_label", m.deviceLabel)
      + TextPiece("created_at", m.createdAt)
  {
    hide OpenText, TextPiece, NumberPiece, Text, Number, ParentMember, ParentLayout, IdentityLayout, PlatformName, SaveTypeName, Ascii;
    var all := FixedMembers(m);
    IdentityIsLaidOut(m);
    AddedParent(all[..5], m.parentVersion);
    assert all[..5] + [all[5]] == all[..6];
    AddedText(all[..6], "sha256", m.sha256);
    assert all[..6] + [all[6]] == all[..7];
    AddedNumber(all[..7], "size", m.size);
    assert all[..7] + [all[7]] == all[..8];
    AddedText(all[..8], "device_label", m.deviceLabel);
    assert all[..8] + [all[8]] == all[..9];
    AddedText(all[..9], "created_at", m.createdAt);
    assert all[..9] + [all[9]] == all;
  }

  // Every manifest's text is this one, byte for byte.
  lemma ManifestIsLaidOut(m: Manifest)
    ensures ManifestText(m) == Layout(m)
  {
    hide OpenText, TextPiece, NumberPiece, Text, Number, FixedMembers, ParentLayout, IdentityLayout, RenderObject, Ascii;
    FixedIsLaidOut(m);
    var ms := FixedMembers(m);
    if m.titleName != [] {
      AddedText(ms, "title_name", m.titleName);
    } else {
      assert ms + [] == ms;
    }
    ms := ms + NameMembers(m.titleName);
    if m.secureValue.Some? {
      AddedNumber(ms, "secure_value", m.secureValue.value);
    } else {
      assert ms + [] == ms;
    }
    SomeMembers(m);
    CloseText(Members(m));
  }

  // And so is every state file's.
  lemma StateIsLaidOut(p: Platform, titleId: Bytes, version: nat, digest: Bytes)
    ensures StateText(p, titleId, version, digest) ==
      NumberPiece("{\"", "format_version", 1) + TextPiece("platform", PlatformName(p)) + TextPiece("title_id", titleId)
      + NumberPiece(",\"", "base_version", version) + TextPiece("base_sha256", digest) + [0x7D]
  {
    hide OpenText, TextPiece, NumberPiece, Text, Number, PlatformName, RenderObject, Ascii;
    var all := StateMembers(p, titleId, version, digest);
    OpenNothing();
    AddedNumber([], "format_version", 1);
    assert [] + [all[0]] == all[..1];
    AddedText(all[..1], "platform", PlatformName(p));
    assert all[..1] + [all[1]] == all[..2];
    AddedText(all[..2], "title_id", titleId);
    assert all[..2] + [all[2]] == all[..3];
    AddedNumber(all[..3], "base_version", version);
    assert all[..3] + [all[3]] == all[..4];
    AddedText(all[..4], "base_sha256", digest);
    assert all[..4] + [all[4]] == all;
    CloseText(all);
  }

  // ------------------------------------------------------------------ a member missing

  function Without(ms: seq<Member>, key: Bytes): (r: seq<Member>)
    ensures |r| <= |ms|
  {
    if ms == [] then []
    else if ms[0].key == key then Without(ms[1..], key)
    else [ms[0]] + Without(ms[1..], key)
  }

  lemma {:induction false} FindWithout(ms: seq<Member>, gone: Bytes, key: Bytes)
    ensures Find(Without(ms, gone), key) == if key == gone then None else Find(ms, key)
  {
    if ms != [] {
      FindWithout(ms[1..], gone, key);
      assert ([ms[0]] + Without(ms[1..], gone))[1..] == Without(ms[1..], gone);
    }
  }

  // What is left out of a manifest when it is read without one of its members.
  function Lacking(m: Manifest, k: nat): Manifest {
    if k == 5 then m.(parentVersion := 0)
    else if k == 9 then m.(createdAt := [])
    else if k == 10 then m.(titleName := [])
    else m.(secureValue := None)
  }

  // The members a manifest is refused without, and the others.
  const OPTIONAL: set<nat> := {5, 9, 10, 11}

  // What a field reads as when member k is gone.
  lemma ReadsWithout(ms: seq<Member>, k: nat, j: nat, key: string, cap: nat)
    requires k < |KEYS| && j < |KEYS| && key == KEYS[j] && cap > 0
    ensures
      var r := Without(ms, Ascii(KEYS[k]));
      && Find(r, Ascii(key)) == (if j == k then None else Find(ms, Ascii(key)))
      && NeedUint(r, key) == (if j == k then Failed(ParseError) else NeedUint(ms, key))
      && GetStr(r, key, cap) == (if j == k then (ParseError, []) else GetStr(ms, key, cap))
      && NeedStr(r, key, cap) == (if j == k then Failed(ParseError) else NeedStr(ms, key, cap))
  {
    hide Find, Ascii, Decode, NumberOf, Received, Without;
    FindWithout(ms, Ascii(KEYS[k]), Ascii(KEYS[j]));
    if j < k {
      KeysDiffer(j, k);
    } else if k < j {
      KeysDiffer(k, j);
    }
  }

  lemma MissingParent()
    ensures ParentOf(None) == Done(0) && SecureOf(None) == None
  {
  }

  lemma LackingIsValid(m: Manifest, k: nat)
    requires Valid(m)
    ensures Valid(Lacking(m, k))
  {
  }

  lemma KeyNames()
    ensures |KEYS| == 14
    ensures KEYS[0] == "format_version" && KEYS[1] == "platform" && KEYS[2] == "title_id" && KEYS[3] == "save_type"
    ensures KEYS[4] == "version" && KEYS[5] == "parent_version" && KEYS[6] == "sha256" && KEYS[7] == "size"
    ensures KEYS[8] == "device_label" && KEYS[9] == "created_at" && KEYS[10] == "title_name" && KEYS[11] == "secure_value"
  {
  }

  // Any one member may be missing from a manifest: without the parent, the time, the name
  // or the secure value it reads as one that has none, and without any other it is refused.
  lemma ReadWithout(m: Manifest, k: nat)
    requires Storable(m) && Valid(m) && k < 12
    ensures FromMembers(Without(Members(m), Ascii(KEYS[k]))) ==
      if k in OPTIONAL then Done(Lacking(m, k)) else Failed(ParseError)
  {
    hide Find, Ascii, Members, PlatformParse, SaveTypeParse, PlatformName, SaveTypeName, Valid, Without;
    hide GetStr, NeedStr, NeedUint, ParentOf, SecureOf;
    var ms := Members(m);
    var r := Without(ms, Ascii(KEYS[k]));
    IdentityReadsBack(m);
    PayloadReadsBack(m);
    OptionalMembers(m);
    NamesParseBack(m.platform, m.saveType);
    LackingIsValid(m, k);
    MissingParent();
    KeyNames();
    ReadsWithout(ms, k, 0, "format_version", 1);
    ReadsWithout(ms, k, 1, "platform", 64);
    ReadsWithout(ms, k, 2, "title_id", TITLE_ID_MAX);
    ReadsWithout(ms, k, 3, "save_type", 64);
    ReadsWithout(ms, k, 4, "version", 1);
    ReadsWithout(ms, k, 5, "parent_version", 1);
    ReadsWithout(ms, k, 6, "sha256", SHA256_HEX);
    ReadsWithout(ms, k, 7, "size", 1);
    ReadsWithout(ms, k, 8, "device_label", LABEL_MAX);
    ReadsWithout(ms, k, 9, "created_at", TIMESTAMP_MAX);
    ReadsWithout(ms, k, 10, "title_name", NAME_MAX);
    ReadsWithout(ms, k, 11, "secure_value", 1);
  }

  // A manifest of another format is refused, whatever else it says.
  lemma OtherFormatIsRefused(ms: seq<Member>, format: nat)
    requires Find(ms, Ascii("format_version")) == Some(Bare(Decimal(format))) && format < U64_LIMIT && format != 1
    ensures FromMembers(ms) == Failed(InvalidManifest)
  {
    hide Find, GetStr, ParentOf, Decimal, NumberOf;
    ReadNumber(ms, "format_version", format);
  }

  // What is too long, no object, or has too many members is refused before it is read.
  lemma RefusedUnread(text: Bytes)
    ensures |text| > 2048 ==> ParseManifest(text) == Failed(InvalidManifest)
    ensures |text| <= 2048 && ScanObject(text).None? ==> ParseManifest(text) == Failed(ParseError)
    ensures |text| <= 2048 && ScanObject(text).Some? && |ScanObject(text).value| > 31 ==> ParseManifest(text) == Failed(BufferTooSmall)
  {
    hide ScanObject, FromMembers;
  }

  // ------------------------------------------------------------------------ the record

  // No state file means no record; one that fills the buffer or is no object is an error
  // that leaves the record empty.
  lemma NoRecord(text: Bytes)
    ensures LoadedState(None) == (Success, 0, [])
    ensures |text| >= 511 ==> LoadedState(Some(text)) == (ParseError, 0, [])
    ensures |text| < 511 && ScanObject(text).None? ==> LoadedState(Some(text)) == (ParseError, 0, [])
    ensures |text| < 511 && ScanObject(text).Some? && |ScanObject(text).value| > 15 ==> LoadedState(Some(text)) == (BufferTooSmall, 0, [])
  {
    hide ScanObject, GetStr, NeedUint;
  }

  // Everything else is read as far as it goes: a version that is missing, not a number or
  // not below 2^32 counts as none.
  lemma RecordIsRead(text: Bytes, ms: seq<Member>, version: nat)
    requires |text| < 511 && ScanObject(text) == Some(ms) && |ms| <= 15
    ensures LoadedState(Some(text)).0 == Success
    ensures Find(ms, Ascii("base_version")) == None ==> LoadedState(Some(text)).1 == 0
    ensures Find(ms, Ascii("base_version")) == Some(Bare(Decimal(version))) && version < U32_LIMIT ==>
      LoadedState(Some(text)).1 == version
    ensures Find(ms, Ascii("base_version")) == Some(Bare(Decimal(version))) && version >= U32_LIMIT ==>
      LoadedState(Some(text)).1 == 0
    ensures Find(ms, Ascii("base_sha256")) == None ==> LoadedState(Some(text)).2 == []
  {
    hide ScanObject, Find, Decimal, NumberOf, Decode;
    NumberOfDecimal(version);
  }
}
