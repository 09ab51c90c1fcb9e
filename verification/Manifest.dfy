// manifest.json and the state file of a title: printers, parsers and why they undo each
// other (core/src/manifest.c; core/src/sync.c:142-255).

module Manifest {
  import opened Common
  import opened Strbuf
  import opened Json
  import Utf8

  // ------------------------------------------------------------------------- entities

  datatype Platform = UnknownPlatform | Nintendo3ds | NintendoSwitch | NintendoDs

  datatype SaveType = UnknownSave | Savedata | Extdata | NdsSave

  function PlatformName(p: Platform): Bytes {
    match p
    case UnknownPlatform => Ascii("unknown")
    case Nintendo3ds => Ascii("3ds")
    case NintendoSwitch => Ascii("nx")
    case NintendoDs => Ascii("nds")
  }

  function PlatformParse(s: Bytes): Platform {
    if s == Ascii("3ds") then Nintendo3ds
    else if s == Ascii("nx") then NintendoSwitch
    else if s == Ascii("nds") then NintendoDs
    else UnknownPlatform
  }

  function SaveTypeName(t: SaveType): Bytes {
    match t
    case UnknownSave => Ascii("unknown")
    case Savedata => Ascii("savedata")
    case Extdata => Ascii("extdata")
    case NdsSave => Ascii("nds")
  }

  function SaveTypeParse(s: Bytes): SaveType {
    if s == Ascii("savedata") then Savedata
    else if s == Ascii("extdata") then Extdata
    else if s == Ascii("nds") then NdsSave
    else UnknownSave
  }

  // daemoon_manifest_t. The flag and the secure value are one optional field here; the
  // text fields are what their buffers hold before the NUL.
  datatype Manifest = Manifest(
    formatVersion: nat, platform: Platform, titleId: Bytes, saveType: SaveType,
    version: nat, parentVersion: nat, sha256: Bytes, size: nat,
    deviceLabel: Bytes, titleName: Bytes, secureValue: Option<nat>, createdAt: Bytes)

  const FORMAT_VERSION: nat := 1
  const MAX_BYTES: nat := 2048
  const MAX_TOKENS: nat := 64
  const TITLE_ID_MAX: nat := 33
  const SHA256_HEX: nat := 65
  const LABEL_MAX: nat := 65
  const TIMESTAMP_MAX: nat := 32

  predicate Fits(s: Bytes, cap: nat) { NulFree(s) && |s| < cap }

  // What the C struct can hold.
  predicate Storable(m: Manifest) {
    && Fits(m.titleId, TITLE_ID_MAX) && Fits(m.sha256, SHA256_HEX) && Fits(m.deviceLabel, LABEL_MAX)
    && Fits(m.titleName, NAME_MAX) && Fits(m.createdAt, TIMESTAMP_MAX)
    && m.version < U32_LIMIT && m.parentVersion < U32_LIMIT && m.size < U64_LIMIT
    && (m.secureValue.Some? ==> m.secureValue.value < U64_LIMIT)
  }

  predicate LowerHex(b: Byte) { 0x30 <= b <= 0x39 || 0x61 <= b <= 0x66 }

  predicate IsDigest(s: Bytes) {
    |s| == 64 && forall i :: 0 <= i < |s| ==> LowerHex(s[i])
  }

  predicate TitleByte(b: Byte) { 0x30 <= b <= 0x39 || 0x41 <= b <= 0x5A || b == 0x5F || b == 0x2D }

  predicate IsTitleId(s: Bytes) {
    4 <= |s| < TITLE_ID_MAX && forall i :: 0 <= i < |s| ==> TitleByte(s[i])
  }

  predicate Valid(m: Manifest) {
    && m.formatVersion == FORMAT_VERSION
    && m.platform != UnknownPlatform && m.saveType != UnknownSave
    && IsTitleId(m.titleId) && IsDigest(m.sha256)
    && m.deviceLabel != [] && Utf8.Valid(m.deviceLabel)
    && (m.version != 0 ==> m.parentVersion < m.version)
  }

  // The smallest of them, for examples.
  const SAMPLE: Manifest := Manifest(
    FORMAT_VERSION, Nintendo3ds, seq(16, _ => 0x30), Savedata, 1, 0, seq(64, _ => 0x30), 0, [0x61], [], None, [])

  lemma SampleIsValid()
    ensures Storable(SAMPLE) && Valid(SAMPLE)
  {
    Utf8.AsciiIsValid([0x61]);
  }

  // ----------------------------------------------------------------------- validation

  // is_lower_hex64 on a NUL-terminated buffer
  method CheckDigest(s: Bytes) returns (ok: bool)
    ensures ok <==> IsDigest(s)
  {
    var i := 0;
    while i < 64
      invariant 0 <= i <= 64 && i <= |s| && forall j :: 0 <= j < i ==> LowerHex(s[j])
    {
      if i == |s| || !LowerHex(s[i]) {
        return false;
      }
      i := i + 1;
    }
    ok := |s| == 64;
  }

  // is_valid_title_id
  method CheckTitleId(s: Bytes) returns (ok: bool)
    ensures ok <==> IsTitleId(s)
  {
    if |s| < 4 || |s| > TITLE_ID_MAX - 1 {
      return false;
    }
    var i := 0;
    while i < |s|
      invariant 0 <= i <= |s| && forall j :: 0 <= j < i ==> TitleByte(s[j])
    {
      if !TitleByte(s[i]) {
        return false;
      }
      i := i + 1;
    }
    ok := true;
  }

  // daemoon_manifest_validate
  method Validate(m: Manifest) returns (r: Status)
    ensures r == if Valid(m) then Success else InvalidManifest
  {
    if m.formatVersion != FORMAT_VERSION || m.platform == UnknownPlatform || m.saveType == UnknownSave {
      return InvalidManifest;
    }
    var ok := CheckTitleId(m.titleId);
    if !ok {
      return InvalidManifest;
    }
    ok := CheckDigest(m.sha256);
    if !ok {
      return InvalidManifest;
    }
    ok := Utf8.IsValid(m.deviceLabel);
    if m.deviceLabel == [] || !ok {
      return InvalidManifest;
    }
    if m.version != 0 && m.parentVersion >= m.version {
      return InvalidManifest;
    }
    r := Success;
  }

  // ------------------------------------------------------------------------- printing

  function Text(key: string, s: Bytes): Member { Member(Ascii(key), Quoted(Escape(s))) }

  function Number(key: string, v: nat): Member { Member(Ascii(key), Bare(Decimal(v))) }

  function Null(key: string): Member { Member(Ascii(key), Bare(Ascii("null"))) }

  function ParentMember(parent: nat): Member {
    if parent == 0 then Null("parent_version") else Number("parent_version", parent)
  }

  function NameMembers(name: Bytes): seq<Member> {
    if name == [] then [] else [Text("title_name", name)]
  }

  function SecureMembers(secure: Option<nat>): seq<Member> {
    if secure.None? then [] else [Number("secure_value", secure.value)]
  }

  // The members of manifest.json in their fixed order.
  function FixedMembers(m: Manifest): (ms: seq<Member>)
    ensures |ms| == 10
  {
    [Number("format_version", m.formatVersion), Text("platform", PlatformName(m.platform)),
     Text("title_id", m.titleId), Text("save_type", SaveTypeName(m.saveType)),
     Number("version", m.version), ParentMember(m.parentVersion), Text("sha256", m.sha256),
     Number("size", m.size), Text("device_label", m.deviceLabel), Text("created_at", m.createdAt)]
  }

  function Members(m: Manifest): seq<Member> {
    FixedMembers(m) + NameMembers(m.titleName) + SecureMembers(m.secureValue)
  }

  function ManifestText(m: Manifest): Bytes { RenderObject(Members(m)) }

  // The text of an object that is still open.
  ghost function OpenText(ms: seq<Member>): Bytes {
    if ms == [] then [] else [OPEN] + RenderMembers(ms)
  }

  lemma {:induction false} RenderOneMore(ms: seq<Member>, m: Member)
    requires ms != []
    ensures RenderMembers(ms + [m]) == RenderMembers(ms) + [COMMA] + RenderMember(m)
  {
    hide RenderMember;
    if |ms| == 1 {
      assert (ms + [m])[1..] == [m];
    } else {
      assert (ms + [m])[1..] == ms[1..] + [m];
      RenderOneMore(ms[1..], m);
    }
  }

  // What stands before a member's value, and what separates it from the piece before.
  function Head(first: bool, key: string): Bytes {
    [if first then OPEN else COMMA, QUOTE] + Ascii(key) + [QUOTE, COLON]
  }

  lemma HeadStartsMember(separator: Byte, key: Bytes, value: Bytes)
    ensures [separator] + ([QUOTE] + key + [QUOTE, COLON] + value) == [separator, QUOTE] + key + [QUOTE, COLON] + value
  {
  }

  lemma OpenOneMore(ms: seq<Member>, key: string, v: Value)
    ensures OpenText(ms + [Member(Ascii(key), v)]) == OpenText(ms) + (Head(ms == [], key) + RenderValue(v))
  {
    hide RenderValue, RenderMembers, Ascii;
    var m := Member(Ascii(key), v);
    HeadStartsMember(if ms == [] then OPEN else COMMA, Ascii(key), RenderValue(v));
    if ms != [] {
      RenderOneMore(ms, m);
      assert [OPEN] + (RenderMembers(ms) + [COMMA] + RenderMember(m)) == [OPEN] + RenderMembers(ms) + ([COMMA] + RenderMember(m));
    } else {
      RenderOnly(m);
      assert ms + [m] == [m];
    }
  }

  lemma RenderOnly(m: Member)
    ensures RenderMembers([m]) == RenderMember(m)
  {
  }

  lemma QuotedPieces(a: Bytes, h: Bytes, e: Bytes)
    ensures a + h + [QUOTE] + e + [QUOTE] == a + (h + ([QUOTE] + e + [QUOTE]))
  {
  }

  // A string member: its head, the escaped text, the closing quote.
  method AddText(sb: Builder, ghost ms: seq<Member>, key: string, s: Bytes)
    requires sb.Valid() && NulFree(s) && ms != [] && sb.ideal == OpenText(ms)
    modifies sb, sb.buf
    ensures sb.Valid() && sb.ideal == OpenText(ms + [Text(key, s)])
  {
    hide OpenText, Head, Escape, Ascii;
    sb.Add(Head(false, key));
    sb.AddChar(QUOTE);
    sb.AddJson(s);
    sb.AddChar(QUOTE);
    QuotedPieces(OpenText(ms), Head(false, key), Escape(s));
    OpenOneMore(ms, key, Quoted(Escape(s)));
  }

  // A number member.
  method AddNumber(sb: Builder, ghost ms: seq<Member>, first: bool, key: string, v: U64)
    requires sb.Valid() && sb.ideal == OpenText(ms) && first == (ms == [])
    modifies sb, sb.buf
    ensures sb.Valid() && sb.ideal == OpenText(ms + [Number(key, v)])
  {
    hide OpenText, Head, Decimal, Ascii;
    sb.Add(Head(first, key));
    sb.AddUint(v);
    OpenOneMore(ms, key, Bare(Decimal(v)));
  }

  lemma OpenNothing()
    ensures OpenText([]) == []
  {
  }

  lemma CloseText(ms: seq<Member>)
    requires ms != []
    ensures OpenText(ms) + [CLOSE] == RenderObject(ms)
  {
  }

  lemma NamesAreNulFree(p: Platform, t: SaveType)
    ensures NulFree(PlatformName(p)) && NulFree(SaveTypeName(t))
  {
  }

  // The first members, up to the version.
  method WriteIdentity(m: Manifest, sb: Builder)
    requires Storable(m) && m.formatVersion < U64_LIMIT && sb.Valid() && sb.ideal == []
    modifies sb, sb.buf
    ensures sb.Valid() && sb.ideal == OpenText(FixedMembers(m)[..5])
  {
    hide OpenText, Text, Number, PlatformName, SaveTypeName;
    NamesAreNulFree(m.platform, m.saveType);
    OpenNothing();
    ghost var all := FixedMembers(m);
    AddNumber(sb, [], true, "format_version", m.formatVersion);
    assert [] + [all[0]] == all[..1];
    AddText(sb, all[..1], "platform", PlatformName(m.platform));
    assert all[..1] + [all[1]] == all[..2];
    AddText(sb, all[..2], "title_id", m.titleId);
    assert all[..2] + [all[2]] == all[..3];
    AddText(sb, all[..3], "save_type", SaveTypeName(m.saveType));
    assert all[..3] + [all[3]] == all[..4];
    AddNumber(sb, all[..4], false, "version", m.version);
    assert all[..4] + [all[4]] == all[..5];
  }

  method WriteParent(sb: Builder, ghost ms: seq<Member>, parent: U64)
    requires sb.Valid() && ms != [] && sb.ideal == OpenText(ms)
    modifies sb, sb.buf
    ensures sb.Valid() && sb.ideal == OpenText(ms + [ParentMember(parent)])
  {
    hide OpenText, Head;
    if parent == 0 {
      sb.Add(Head(false, "parent_version"));
      sb.Add(Ascii("null"));
      OpenOneMore(ms, "parent_version", Bare(Ascii("null")));
    } else {
      AddNumber(sb, ms, false, "parent_version", parent);
    }
  }

  // The rest of the members every manifest has.
  method WritePayload(m: Manifest, sb: Builder)
    requires Storable(m) && sb.Valid() && sb.ideal == OpenText(FixedMembers(m)[..5])
    modifies sb, sb.buf
    ensures sb.Valid() && sb.ideal == OpenText(FixedMembers(m))
  {
    hide OpenText, Text, Number, ParentMember, PlatformName, SaveTypeName;
    ghost var all := FixedMembers(m);
    WriteParent(sb, all[..5], m.parentVersion);
    assert all[..5] + [all[5]] == all[..6];
    AddText(sb, all[..6], "sha256", m.sha256);
    assert all[..6] + [all[6]] == all[..7];
    AddNumber(sb, all[..7], false, "size", m.size);
    assert all[..7] + [all[7]] == all[..8];
    AddText(sb, all[..8], "device_label", m.deviceLabel);
    assert all[..8] + [all[8]] == all[..9];
    AddText(sb, all[..9], "created_at", m.createdAt);
    assert all[..9] + [all[9]] == all;
  }

  // Name and secure value are written only when there is one.
  method WriteOptional(m: Manifest, sb: Builder)
    requires Storable(m) && sb.Valid() && sb.ideal == OpenText(FixedMembers(m))
    modifies sb, sb.buf
    ensures sb.Valid() && sb.ideal == OpenText(Members(m))
  {
    hide OpenText, Text, Number, FixedMembers;
    ghost var ms := FixedMembers(m);
    if m.titleName != [] {
      AddText(sb, ms, "title_name", m.titleName);
    } else {
      assert ms + [] == ms;
    }
    ms := ms + NameMembers(m.titleName);
    if m.secureValue.Some? {
      AddNumber(sb, ms, false, "secure_value", m.secureValue.value);
    } else {
      assert ms + [] == ms;
    }
  }

  // daemoon_manifest_write
  method Write(m: Manifest, buf: array<Byte>) returns (r: Status, outLen: nat)
    requires Storable(m)
    modifies buf
    ensures r == (if !Valid(m) then InvalidManifest
                  else if |ManifestText(m)| < buf.Length then Success
                  else BufferTooSmall)
    ensures r.Success? ==> outLen == |ManifestText(m)| && buf[..outLen] == ManifestText(m)
  {
    hide OpenText, Members, Valid;
    outLen := 0;
    r := Validate(m);
    if r != Success {
      return;
    }
    FormatIsKnown(m);
    var sb := new Builder(buf);
    WriteIdentity(m, sb);
    WritePayload(m, sb);
    WriteOptional(m, sb);
    sb.AddChar(CLOSE);
    SomeMembers(m);
    CloseText(Members(m));
    r := sb.Result();
    outLen := sb.len;
  }

  lemma FormatIsKnown(m: Manifest)
    requires Valid(m)
    ensures m.formatVersion == FORMAT_VERSION
  {
  }

  lemma SomeMembers(m: Manifest)
    ensures |Members(m)| >= 10
  {
  }

  // -------------------------------------------------------------------------- parsing

  // A value, or the code a parser gives up with.
  datatype Outcome<+T> = Done(value: T) | Failed(error: Status) {
    predicate IsFailure() { Failed? }

    function PropagateFailure<U>(): Outcome<U>
      requires Failed?
    {
      Failed(error)
    }

    function Extract(): T
      requires Done?
    {
      value
    }
  }

  // daemoon_json_get_str into a cleared buffer of cap bytes: what comes back, and what the
  // buffer reads as afterwards.
  function GetStr(ms: seq<Member>, key: string, cap: nat): (Status, Bytes)
    requires cap > 0
  {
    var v := Find(ms, Ascii(key));
    if v.None? || v.value.Bare? then (ParseError, [])
    else
      var d := Decode(v.value.raw);
      (if !d.ok then ParseError else if |d.text| < cap then Success else BufferTooSmall,
       CString(Received(v.value.raw, cap)))
  }

  function NeedStr(ms: seq<Member>, key: string, cap: nat): Outcome<Bytes>
    requires cap > 0
  {
    var (r, s) := GetStr(ms, key, cap);
    if r == Success then Done(s) else Failed(r)
  }

  function UintOf(v: Option<Value>): Outcome<nat> {
    if v.Some? && v.value.Bare? && IsU64(v.value.raw) then Done(NumberOf(v.value.raw)) else Failed(ParseError)
  }

  function NeedUint(ms: seq<Member>, key: string): Outcome<nat> { UintOf(Find(ms, Ascii(key))) }

  function Check(ok: bool): Outcome<()> { if ok then Done(()) else Failed(InvalidManifest) }

  function ParseText(text: Bytes, tokens: nat): Outcome<seq<Member>> {
    var ms := ScanObject(text);
    if ms.None? then Failed(ParseError)
    else if Tokens(ms.value) > tokens then Failed(BufferTooSmall)
    else Done(ms.value)
  }

  // parent_version may be missing or null, which both mean a first upload.
  function ParentOf(v: Option<Value>): Outcome<nat> {
    if v.None? || (v.value.Bare? && v.value.raw != [] && v.value.raw[0] == 0x6E) then Done(0)
    else
      var n :- UintOf(v);
      var _ :- Check(n < U32_LIMIT);
      Done(n)
  }

  function SecureOf(v: Option<Value>): Option<nat> {
    var n := UintOf(v);
    if n.Done? then Some(n.value) else None
  }

  // The manifest an object stands for. What is optional is taken as far as it can be read.
  function FromMembers(ms: seq<Member>): Outcome<Manifest> {
    var format :- NeedUint(ms, "format_version");
    var _ :- Check(format == FORMAT_VERSION);
    var platform :- NeedStr(ms, "platform", 64);
    var saveType :- NeedStr(ms, "save_type", 64);
    var titleId :- NeedStr(ms, "title_id", TITLE_ID_MAX);
    var sha256 :- NeedStr(ms, "sha256", SHA256_HEX);
    var device :- NeedStr(ms, "device_label", LABEL_MAX);
    var name := GetStr(ms, "title_name", NAME_MAX).1;
    var secure := SecureOf(Find(ms, Ascii("secure_value")));
    var version :- NeedUint(ms, "version");
    var _ :- Check(version < U32_LIMIT);
    var size :- NeedUint(ms, "size");
    var parent :- ParentOf(Find(ms, Ascii("parent_version")));
    var created := GetStr(ms, "created_at", TIMESTAMP_MAX).1;
    var m := Manifest(format, PlatformParse(platform), titleId, SaveTypeParse(saveType), version, parent,
                      sha256, size, device, name, secure, created);
    var _ :- Check(Valid(m));
    Done(m)
  }

  function ParseManifest(text: Bytes): Outcome<Manifest> {
    var _ :- Check(|text| <= MAX_BYTES);
    var ms :- ParseText(text, MAX_TOKENS);
    FromMembers(ms)
  }

  method GetString(ms: seq<Member>, key: string, cap: nat) returns (r: Status, s: Bytes)
    requires cap > 0
    ensures (r, s) == GetStr(ms, key, cap)
  {
    var v := FindMember(ms, Ascii(key));
    if v.None? || v.value.Bare? {
      return ParseError, [];
    }
    var out := new Byte[cap](_ => 0);
    r := JsonStr(v.value.raw, out);
    ghost var text := Received(v.value.raw, cap);
    assert out[..][..|text|] == text;
    CStringStops(out[..], |text|);
    s := CString(out[..]);
  }

  method GetUint(ms: seq<Member>, key: string) returns (r: Outcome<nat>)
    ensures r == NeedUint(ms, key)
  {
    var v := FindMember(ms, Ascii(key));
    if v.None? || v.value.Quoted? {
      return Failed(ParseError);
    }
    var status, n := JsonUint(v.value.raw);
    r := if status == Success then Done(n) else Failed(ParseError);
  }

  method GetParent(ms: seq<Member>) returns (r: Outcome<nat>)
    ensures r == ParentOf(Find(ms, Ascii("parent_version")))
  {
    var v := FindMember(ms, Ascii("parent_version"));
    if v.None? || (v.value.Bare? && v.value.raw != [] && v.value.raw[0] == 0x6E) {
      return Done(0);
    }
    r := GetUint(ms, "parent_version");
    if r.Done? && r.value >= U32_LIMIT {
      r := Failed(InvalidManifest);
    }
  }

  // daemoon_manifest_parse: the struct is filled field by field and handed out at the end.
  method Parse(text: Bytes) returns (r: Outcome<Manifest>)
    ensures r == ParseManifest(text)
  {
    hide GetStr, NeedUint, ParentOf, Valid, ScanObject, Find;
    if |text| > MAX_BYTES {
      return Failed(InvalidManifest);
    }
    var members := ScanObject(text);
    if members.None? {
      return Failed(ParseError);
    }
    var ms := members.value;
    if Tokens(ms) > MAX_TOKENS {
      return Failed(BufferTooSmall);
    }
    r := Fill(ms);
  }

  method Fill(ms: seq<Member>) returns (r: Outcome<Manifest>)
    ensures r == FromMembers(ms)
  {
    hide GetStr, UintOf, ParentOf, Valid, Find;
    var format := GetUint(ms, "format_version");
    if format.Failed? {
      return Failed(format.error);
    }
    if format.value > 0x7FFF_FFFF || format.value != FORMAT_VERSION {
      return Failed(InvalidManifest);
    }
    var status, platform, saveType, titleId, sha256, device, name, created;
    status, platform := GetString(ms, "platform", 64);
    if status != Success {
      return Failed(status);
    }
    status, saveType := GetString(ms, "save_type", 64);
    if status != Success {
      return Failed(status);
    }
    status, titleId := GetString(ms, "title_id", TITLE_ID_MAX);
    if status != Success {
      return Failed(status);
    }
    status, sha256 := GetString(ms, "sha256", SHA256_HEX);
    if status != Success {
      return Failed(status);
    }
    status, device := GetString(ms, "device_label", LABEL_MAX);
    if status != Success {
      return Failed(status);
    }
    status, name := GetString(ms, "title_name", NAME_MAX);
    var secure := GetUint(ms, "secure_value");
    var version := GetUint(ms, "version");
    if version.Failed? {
      return Failed(version.error);
    }
    if version.value >= U32_LIMIT {
      return Failed(InvalidManifest);
    }
    var size := GetUint(ms, "size");
    if size.Failed? {
      return Failed(size.error);
    }
    var parent := GetParent(ms);
    if parent.Failed? {
      return Failed(parent.error);
    }
    status, created := GetString(ms, "created_at", TIMESTAMP_MAX);
    var m := Manifest(format.value, PlatformParse(platform), titleId, SaveTypeParse(saveType), version.value,
                      parent.value, sha256, size.value, device, name,
                      if secure.Done? then Some(secure.value) else None, created);
    status := Validate(m);
    if status != Success {
      return Failed(status);
    }
    r := Done(m);
  }

  // ------------------------------------------------------------ printing, then parsing

  // The keys of manifests in their order, then the two only a state file has.
  const KEYS: seq<string> := [
    "format_version", "platform", "title_id", "save_type", "version", "parent_version",
    "sha256", "size", "device_label", "created_at", "title_name", "secure_value",
    "base_version", "base_sha256"]

  lemma KeysDiffer(i: nat, j: nat)
    requires i < j < |KEYS|
    ensures Ascii(KEYS[i]) != Ascii(KEYS[j])
  {
    if |KEYS[i]| == |KEYS[j]| {
      assert KEYS[i][0] != KEYS[j][0];
      assert Ascii(KEYS[i])[0] != Ascii(KEYS[j])[0];
    }
  }

  predicate PlainByte(b: Byte) { b != 0 && b != QUOTE && b != BACKSLASH }

  predicate Plain(s: Bytes) { forall i :: 0 <= i < |s| ==> PlainByte(s[i]) }

  lemma {:induction false} PlainIsRaw(s: Bytes)
    requires Plain(s)
    ensures RawString(s)
  {
    if s != [] {
      assert (s + [QUOTE])[1..] == s[1..] + [QUOTE];
      PlainIsRaw(s[1..]);
    }
  }

  lemma KeyIsPlain(k: nat)
    requires k < |KEYS|
    ensures Plain(Ascii(KEYS[k]))
  {
    if k < 7 {
      assert forall i :: 0 <= i < |KEYS[k]| ==> KeyChar(KEYS[k][i]);
    } else {
      assert forall i :: 0 <= i < |KEYS[k]| ==> KeyChar(KEYS[k][i]);
    }
    CharsArePlain(KEYS[k]);
  }

  predicate KeyChar(c: char) { 'a' <= c <= 'z' || c == '_' || '2' <= c <= '6' }

  lemma CharsArePlain(key: string)
    requires forall i :: 0 <= i < |key| ==> KeyChar(key[i])
    ensures Plain(Ascii(key))
  {
  }

  // Where a member of a manifest stands in the fixed order of keys.
  function Place(m: Manifest, i: nat): (k: nat)
    requires i < |Members(m)|
    ensures k < |KEYS| && i <= k
  {
    if i == 10 && m.titleName == [] then 11 else i
  }

  lemma PlacesAreKeys(m: Manifest, i: nat)
    requires i < |Members(m)|
    ensures Members(m)[i].key == Ascii(KEYS[Place(m, i)])
  {
    hide Ascii;
    assert FixedMembers(m)[5].key == Ascii("parent_version");
  }

  lemma PlaceIncreases(m: Manifest, j: nat, i: nat)
    requires j < i < |Members(m)|
    ensures Place(m, j) < Place(m, i)
  {
  }

  lemma {:induction false} FindAt(ms: seq<Member>, i: nat)
    requires i < |ms| && forall j :: 0 <= j < i ==> ms[j].key != ms[i].key
    ensures Find(ms, ms[i].key) == Some(ms[i].value)
  {
    if i > 0 {
      assert ms[0].key != ms[i].key && ms[1..][i - 1] == ms[i];
      FindAt(ms[1..], i - 1);
    }
  }

  lemma {:induction false} FindNothing(ms: seq<Member>, key: Bytes)
    requires forall j :: 0 <= j < |ms| ==> ms[j].key != key
    ensures Find(ms, key) == None
  {
    if ms != [] {
      assert ms[0].key != key;
      FindNothing(ms[1..], key);
    }
  }

  // No two members share a key, so each is found under its own.
  lemma MemberIsFound(m: Manifest, i: nat)
    requires i < |Members(m)|
    ensures Find(Members(m), Ascii(KEYS[Place(m, i)])) == Some(Members(m)[i].value)
  {
    hide Ascii, Members, Find;
    var ms := Members(m);
    PlacesAreKeys(m, i);
    forall j | 0 <= j < i
      ensures ms[j].key != ms[i].key
    {
      PlacesAreKeys(m, j);
      PlaceIncreases(m, j, i);
      KeysDiffer(Place(m, j), Place(m, i));
    }
    FindAt(ms, i);
  }

  // An optional member that is not written is not found.
  lemma MemberIsMissing(m: Manifest, k: nat)
    requires k < |KEYS| && forall i :: 0 <= i < |Members(m)| ==> Place(m, i) != k
    ensures Find(Members(m), Ascii(KEYS[k])) == None
  {
    hide Ascii, Members, Find, Place;
    var ms := Members(m);
    forall j | 0 <= j < |ms|
      ensures ms[j].key != Ascii(KEYS[k])
    {
      PlacesAreKeys(m, j);
      if Place(m, j) < k {
        KeysDiffer(Place(m, j), k);
      } else {
        KeysDiffer(k, Place(m, j));
      }
    }
    FindNothing(ms, Ascii(KEYS[k]));
  }

  lemma ReadText(ms: seq<Member>, key: string, cap: nat, s: Bytes)
    requires Find(ms, Ascii(key)) == Some(Quoted(Escape(s))) && Fits(s, cap)
    ensures GetStr(ms, key, cap) == (Success, s) && NeedStr(ms, key, cap) == Done(s)
  {
    hide Decode, Escape, Utf8.Trim;
    DecodeEscaped(s);
    CStringWhole(s);
  }

  lemma ReadNumber(ms: seq<Member>, key: string, v: nat)
    requires Find(ms, Ascii(key)) == Some(Bare(Decimal(v))) && v < U64_LIMIT
    ensures NeedUint(ms, key) == Done(v)
  {
    hide NumberOf, Decimal;
    NumberOfDecimal(v);
  }

  lemma ReadParent(v: nat)
    requires v < U32_LIMIT
    ensures ParentOf(Some(ParentMember(v).value)) == Done(v)
  {
    hide NumberOf, Decimal;
    NumberOfDecimal(v);
  }

  lemma NamesParseBack(p: Platform, t: SaveType)
    ensures PlatformParse(PlatformName(p)) == p && SaveTypeParse(SaveTypeName(t)) == t
    ensures Fits(PlatformName(p), 64) && Fits(SaveTypeName(t), 64)
  {
    assert Ascii("unknown")[0] == 0x75 && Ascii("3ds")[0] == 0x33 && Ascii("nx")[0] == 0x6E && Ascii("nds")[0] == 0x6E;
    assert |Ascii("savedata")| == 8 && |Ascii("extdata")| == 7 && Ascii("extdata")[0] == 0x65;
  }

  lemma OptionalMembers(m: Manifest)
    requires Storable(m)
    ensures GetStr(Members(m), "title_name", NAME_MAX).1 == m.titleName
    ensures SecureOf(Find(Members(m), Ascii("secure_value"))) == m.secureValue
  {
    hide Find, Ascii, GetStr, UintOf, FixedMembers, Text, Number;
    var ms := Members(m);
    if m.titleName == [] {
      MemberIsMissing(m, 10);
      MissingText(ms, "title_name", NAME_MAX);
    } else {
      MemberIsFound(m, 10);
      TextValue("title_name", m.titleName);
      ReadText(ms, "title_name", NAME_MAX, m.titleName);
    }
    if m.secureValue.None? {
      MemberIsMissing(m, 11);
      MissingNumber();
    } else {
      var v := m.secureValue.value;
      MemberIsFound(m, |ms| - 1);
      NumberValue("secure_value", v);
      ReadNumber(ms, "secure_value", v);
    }
  }

  lemma TextValue(key: string, s: Bytes)
    ensures Text(key, s).value == Quoted(Escape(s))
  {
  }

  lemma NumberValue(key: string, v: nat)
    ensures Number(key, v).value == Bare(Decimal(v))
  {
  }

  lemma MissingText(ms: seq<Member>, key: string, cap: nat)
    requires cap > 0 && Find(ms, Ascii(key)) == None
    ensures GetStr(ms, key, cap) == (ParseError, [])
  {
  }

  lemma MissingNumber()
    ensures UintOf(None) == Failed(ParseError)
  {
  }

  // What the fields of a manifest's members read back as.
  lemma IdentityReadsBack(m: Manifest)
    requires Storable(m) && Valid(m)
    ensures NeedUint(Members(m), "format_version") == Done(FORMAT_VERSION)
    ensures NeedStr(Members(m), "platform", 64) == Done(PlatformName(m.platform))
    ensures NeedStr(Members(m), "title_id", TITLE_ID_MAX) == Done(m.titleId)
    ensures NeedStr(Members(m), "save_type", 64) == Done(SaveTypeName(m.saveType))
    ensures NeedUint(Members(m), "version") == Done(m.version)
  {
    hide Find, Ascii, GetStr, UintOf, NeedStr, NeedUint, PlatformName, SaveTypeName, Escape, Decimal;
    var ms := Members(m);
    NamesParseBack(m.platform, m.saveType);
    MemberIsFound(m, 0);
    ReadNumber(ms, "format_version", FORMAT_VERSION);
    MemberIsFound(m, 1);
    ReadText(ms, "platform", 64, PlatformName(m.platform));
    MemberIsFound(m, 2);
    ReadText(ms, "title_id", TITLE_ID_MAX, m.titleId);
    MemberIsFound(m, 3);
    ReadText(ms, "save_type", 64, SaveTypeName(m.saveType));
    MemberIsFound(m, 4);
    ReadNumber(ms, "version", m.version);
  }

  lemma PayloadReadsBack(m: Manifest)
    requires Storable(m) && Valid(m)
    ensures ParentOf(Find(Members(m), Ascii("parent_version"))) == Done(m.parentVersion)
    ensures NeedStr(Members(m), "sha256", SHA256_HEX) == Done(m.sha256)
    ensures NeedUint(Members(m), "size") == Done(m.size)
    ensures NeedStr(Members(m), "device_label", LABEL_MAX) == Done(m.deviceLabel)
    ensures GetStr(Members(m), "created_at", TIMESTAMP_MAX).1 == m.createdAt
  {
    hide Find, Ascii, GetStr, UintOf, NeedStr, NeedUint, ParentOf, PlatformName, SaveTypeName, Escape, Decimal;
    var ms := Members(m);
    MemberIsFound(m, 5);
    ReadParent(m.parentVersion);
    MemberIsFound(m, 6);
    ReadText(ms, "sha256", SHA256_HEX, m.sha256);
    MemberIsFound(m, 7);
    ReadNumber(ms, "size", m.size);
    MemberIsFound(m, 8);
    ReadText(ms, "device_label", LABEL_MAX, m.deviceLabel);
    MemberIsFound(m, 9);
    ReadText(ms, "created_at", TIMESTAMP_MAX, m.createdAt);
  }

  lemma FromMembersReadsBack(m: Manifest)
    requires Storable(m) && Valid(m)
    ensures FromMembers(Members(m)) == Done(m)
  {
    hide Find, Ascii, GetStr, UintOf, NeedStr, NeedUint, ParentOf, Members, PlatformParse, SaveTypeParse;
    IdentityReadsBack(m);
    PayloadReadsBack(m);
    OptionalMembers(m);
    NamesParseBack(m.platform, m.saveType);
  }

  lemma {:induction false} AllArePrintable(ms: seq<Member>)
    requires forall i :: 0 <= i < |ms| ==> Printable(ms[i])
    ensures AllPrintable(ms)
  {
    hide Printable;
    if ms != [] {
      AllArePrintable(ms[1..]);
    }
  }

  lemma {:induction false} DigitsAreAWord(s: Bytes)
    requires AllDigits(s)
    ensures WordEnd(s) == |s|
  {
    if s != [] {
      DigitsAreAWord(s[1..]);
    }
  }

  lemma TextIsPrintable(k: nat, s: Bytes)
    requires k < |KEYS|
    ensures Printable(Text(KEYS[k], s))
  {
    hide Ascii, RawString, Escape;
    KeyIsPlain(k);
    PlainIsRaw(Ascii(KEYS[k]));
    EscapedIsRaw(s);
  }

  lemma NumberIsPrintable(k: nat, v: nat)
    requires k < |KEYS|
    ensures Printable(Number(KEYS[k], v))
  {
    hide Ascii, RawString, Decimal;
    KeyIsPlain(k);
    PlainIsRaw(Ascii(KEYS[k]));
    DigitsAreAWord(Decimal(v));
  }

  lemma ParentIsPrintable(parent: nat)
    ensures Printable(ParentMember(parent))
  {
    hide RawString, Number;
    if parent == 0 {
      KeyIsPlain(5);
      PlainIsRaw(Ascii(KEYS[5]));
      WordIsNull();
    } else {
      NumberIsPrintable(5, parent);
    }
  }

  lemma WordIsNull()
    ensures RawWord(Ascii("null"))
  {
    var s := Ascii("null");
    assert s == [0x6E, 0x75, 0x6C, 0x6C] && s[1..] == [0x75, 0x6C, 0x6C];
    assert s[1..][1..] == [0x6C, 0x6C] && s[1..][1..][1..] == [0x6C] && s[1..][1..][1..][1..] == [];
    assert WordEnd([0x6C]) == 1 && WordEnd([0x6C, 0x6C]) == 2;
  }

  lemma MembersArePrintable(m: Manifest)
    ensures AllPrintable(Members(m))
  {
    hide Printable, Text, Number, ParentMember, PlatformName, SaveTypeName;
    var ms := Members(m);
    NumberIsPrintable(0, m.formatVersion);
    TextIsPrintable(1, PlatformName(m.platform));
    TextIsPrintable(2, m.titleId);
    TextIsPrintable(3, SaveTypeName(m.saveType));
    NumberIsPrintable(4, m.version);
    ParentIsPrintable(m.parentVersion);
    TextIsPrintable(6, m.sha256);
    NumberIsPrintable(7, m.size);
    TextIsPrintable(8, m.deviceLabel);
    TextIsPrintable(9, m.createdAt);
    TextIsPrintable(10, m.titleName);
    if m.secureValue.Some? {
      NumberIsPrintable(11, m.secureValue.value);
    }
    AllArePrintable(ms);
  }

  // How long a member may get; the comma in front of it is counted.
  ghost function Room(ms: seq<Member>): nat {
    if ms == [] then 0 else 1 + |RenderMember(ms[0])| + Room(ms[1..])
  }

  lemma {:induction false} RenderFitsRoom(ms: seq<Member>)
    requires ms != []
    ensures |RenderObject(ms)| == Room(ms) + 1
  {
    hide RenderMember;
    if |ms| > 1 {
      RenderFitsRoom(ms[1..]);
    }
  }

  lemma {:induction false} RoomConcat(a: seq<Member>, b: seq<Member>)
    ensures Room(a + b) == Room(a) + Room(b)
  {
    hide RenderMember;
    if a == [] {
      assert a + b == b;
    } else {
      assert (a + b)[1..] == a[1..] + b;
      RoomConcat(a[1..], b);
    }
  }

  lemma TextRoom(key: string, s: Bytes)
    ensures Room([Text(key, s)]) <= |key| + 6 + 6 * |s|
  {
    EscapeLength(s);
  }

  lemma {:induction false} PlainEscape(s: Bytes)
    requires forall i :: 0 <= i < |s| ==> LowerHex(s[i])
    ensures Escape(s) == s
  {
    if s != [] {
      PlainEscape(s[1..]);
    }
  }

  lemma DigestRoom(key: string, s: Bytes)
    requires IsDigest(s)
    ensures Room([Text(key, s)]) <= |key| + 70
  {
    PlainEscape(s);
  }

  lemma NumberRoom(key: string, v: U64)
    ensures Room([Number(key, v)]) <= |key| + 24
  {
    hide Decimal;
    U64Digits(v);
  }

  lemma ParentRoom(v: U64)
    ensures Room([ParentMember(v)]) <= 38
  {
    hide Number;
    if v == 0 {
      assert ParentMember(0) == Null("parent_version");
    } else {
      NumberRoom("parent_version", v);
    }
  }

  lemma NameRoom(p: Platform, t: SaveType)
    ensures Room([Text("platform", PlatformName(p))]) <= 56
    ensures Room([Text("save_type", SaveTypeName(t))]) <= 63
  {
    hide Text, Room;
    TextRoom("platform", PlatformName(p));
    TextRoom("save_type", SaveTypeName(t));
    assert |PlatformName(p)| <= 7 && |SaveTypeName(t)| <= 8;
  }

  lemma RoomFrom(ms: seq<Member>, i: nat)
    requires i < |ms|
    ensures Room(ms[i..]) == Room([ms[i]]) + Room(ms[i + 1..])
  {
    hide Room;
    assert ms[i..] == [ms[i]] + ms[i + 1..];
    RoomConcat([ms[i]], ms[i + 1..]);
  }

  lemma NoRoom()
    ensures Room([]) == 0
  {
  }

  lemma FixedRoom(m: Manifest)
    requires Storable(m) && Valid(m)
    ensures Room(FixedMembers(m)) <= 1140
  {
    hide Room, Text, Number, ParentMember, PlatformName, SaveTypeName;
    var ms := FixedMembers(m);
    NumberRoom("format_version", m.formatVersion);
    NameRoom(m.platform, m.saveType);
    TextRoom("title_id", m.titleId);
    NumberRoom("version", m.version);
    ParentRoom(m.parentVersion);
    DigestRoom("sha256", m.sha256);
    NumberRoom("size", m.size);
    TextRoom("device_label", m.deviceLabel);
    TextRoom("created_at", m.createdAt);
    assert ms[0..] == ms && ms[10..] == [];
    NoRoom();
    RoomFrom(ms, 0);
    RoomFrom(ms, 1);
    RoomFrom(ms, 2);
    RoomFrom(ms, 3);
    RoomFrom(ms, 4);
    RoomFrom(ms, 5);
    RoomFrom(ms, 6);
    RoomFrom(ms, 7);
    RoomFrom(ms, 8);
    RoomFrom(ms, 9);
  }

  // Every manifest fits the buffer it is written to, whatever has to be escaped in it.
  lemma ManifestFits(m: Manifest)
    requires Storable(m) && Valid(m)
    ensures |ManifestText(m)| < MAX_BYTES && Tokens(Members(m)) <= MAX_TOKENS
  {
    hide Room, Text, Number, FixedMembers, Valid, RenderObject;
    var fixed, name, secure := FixedMembers(m), NameMembers(m.titleName), SecureMembers(m.secureValue);
    FixedRoom(m);
    NoRoom();
    if m.titleName != [] {
      TextRoom("title_name", m.titleName);
    }
    if m.secureValue.Some? {
      NumberRoom("secure_value", m.secureValue.value);
    }
    RoomConcat(fixed, name);
    RoomConcat(fixed + name, secure);
    RenderFitsRoom(Members(m));
  }

  // Parsing undoes writing, for every valid manifest.
  lemma ParseUndoesWrite(m: Manifest)
    requires Storable(m) && Valid(m)
    ensures ParseManifest(ManifestText(m)) == Done(m)
  {
    hide ScanObject, FromMembers, RenderObject, Members, AllPrintable;
    ManifestFits(m);
    MembersArePrintable(m);
    ScanRendered(Members(m));
    FromMembersReadsBack(m);
  }

  // What the parser hands out can be written again.
  lemma ParsedIsValid(text: Bytes, m: Manifest)
    requires ParseManifest(text) == Done(m)
    ensures Storable(m) && Valid(m)
  {
    hide Find, Valid, ScanObject, Decode, NumberOf;
  }

  // So reading a manifest normalises it once and for all: what is written from it reads
  // back as the same manifest, and is the same text every time.
  lemma ReadingNormalises(text: Bytes, m: Manifest)
    requires ParseManifest(text) == Done(m)
    ensures ParseManifest(ManifestText(m)) == Done(m)
  {
    hide ParseManifest;
    ParsedIsValid(text, m);
    ParseUndoesWrite(m);
  }

  // -------------------------------------------------------------------- the state file

  const STATE_MAX_BYTES: nat := 512
  const STATE_TOKENS: nat := 32

  function StateMembers(p: Platform, titleId: Bytes, version: nat, digest: Bytes): seq<Member> {
    [Number("format_version", 1), Text("platform", PlatformName(p)), Text("title_id", titleId),
     Number("base_version", version), Text("base_sha256", digest)]
  }

  function StateText(p: Platform, titleId: Bytes, version: nat, digest: Bytes): Bytes {
    RenderObject(StateMembers(p, titleId, version, digest))
  }

  // The text daemoon_sync_state_save puts into its buffer before it opens a file.
  method WriteState(p: Platform, titleId: Bytes, version: nat, digest: Bytes) returns (r: Status, text: Bytes)
    requires NulFree(titleId) && NulFree(digest) && version < U32_LIMIT
    ensures r == if |StateText(p, titleId, version, digest)| < STATE_MAX_BYTES then Success else BufferTooSmall
    ensures r.Success? ==> text == StateText(p, titleId, version, digest)
  {
    hide OpenText, Text, Number, PlatformName;
    NamesAreNulFree(p, UnknownSave);
    OpenNothing();
    var json := new Byte[STATE_MAX_BYTES](_ => 0);
    var sb := new Builder(json);
    ghost var all := StateMembers(p, titleId, version, digest);
    AddNumber(sb, [], true, "format_version", 1);
    assert [] + [all[0]] == all[..1];
    AddText(sb, all[..1], "platform", PlatformName(p));
    assert all[..1] + [all[1]] == all[..2];
    AddText(sb, all[..2], "title_id", titleId);
    assert all[..2] + [all[2]] == all[..3];
    AddNumber(sb, all[..3], false, "base_version", version);
    assert all[..3] + [all[3]] == all[..4];
    AddText(sb, all[..4], "base_sha256", digest);
    assert all[..4] + [all[4]] == all;
    sb.AddChar(CLOSE);
    CloseText(all);
    r := sb.Result();
    text := json[..sb.len];
  }

  // daemoon_sync_state_load on what the file holds, if there is one: the code that comes
  // back and the two fields of the record. A file that fills the buffer is refused.
  function LoadedState(file: Option<Bytes>): (Status, nat, Bytes) {
    if file.None? then (Success, 0, [])
    else if |file.value| >= STATE_MAX_BYTES - 1 then (ParseError, 0, [])
    else
      var ms := ParseText(file.value, STATE_TOKENS);
      if ms.Failed? then (ms.error, 0, [])
      else
        var n := NeedUint(ms.value, "base_version");
        (Success, if n.Done? && n.value < U32_LIMIT then n.value else 0, GetStr(ms.value, "base_sha256", SHA256_HEX).1)
  }

  method LoadState(file: Option<Bytes>) returns (r: Status, version: nat, digest: Bytes)
    ensures (r, version, digest) == LoadedState(file)
  {
    hide GetStr, NeedUint, ScanObject;
    version, digest := 0, [];
    if file.None? {
      return Success, 0, [];
    }
    var json := file.value;
    if |json| >= STATE_MAX_BYTES - 1 {
      return ParseError, 0, [];
    }
    var members := ScanObject(json);
    if members.None? {
      return ParseError, 0, [];
    }
    if Tokens(members.value) > STATE_TOKENS {
      return BufferTooSmall, 0, [];
    }
    var n := GetUint(members.value, "base_version");
    if n.Done? && n.value <= U32_LIMIT - 1 {
      version := n.value;
    }
    r, digest := GetString(members.value, "base_sha256", SHA256_HEX);
    r := Success;
  }

  lemma StateFits(p: Platform, titleId: Bytes, version: nat, digest: Bytes)
    requires Fits(titleId, TITLE_ID_MAX) && version < U32_LIMIT && (digest == [] || IsDigest(digest))
    ensures |StateText(p, titleId, version, digest)| < STATE_MAX_BYTES - 1
  {
    hide Room, Text, Number, PlatformName, RenderObject;
    var ms := StateMembers(p, titleId, version, digest);
    NumberRoom("format_version", 1);
    NameRoom(p, UnknownSave);
    TextRoom("title_id", titleId);
    NumberRoom("base_version", version);
    if digest == [] {
      TextRoom("base_sha256", digest);
    } else {
      DigestRoom("base_sha256", digest);
    }
    assert ms[0..] == ms && ms[5..] == [];
    NoRoom();
    RoomFrom(ms, 0);
    RoomFrom(ms, 1);
    RoomFrom(ms, 2);
    RoomFrom(ms, 3);
    RoomFrom(ms, 4);
    RenderFitsRoom(ms);
  }

  lemma StateMembersFound(p: Platform, titleId: Bytes, version: nat, digest: Bytes)
    ensures Find(StateMembers(p, titleId, version, digest), Ascii("base_version")) == Some(Bare(Decimal(version)))
    ensures Find(StateMembers(p, titleId, version, digest), Ascii("base_sha256")) == Some(Quoted(Escape(digest)))
    ensures AllPrintable(StateMembers(p, titleId, version, digest))
  {
    hide Find, Ascii, Printable, PlatformName, Escape, Decimal;
    var ms := StateMembers(p, titleId, version, digest);
    KeysDiffer(0, 12);
    KeysDiffer(1, 12);
    KeysDiffer(2, 12);
    FindAt(ms, 3);
    KeysDiffer(0, 13);
    KeysDiffer(1, 13);
    KeysDiffer(2, 13);
    KeysDiffer(12, 13);
    FindAt(ms, 4);
    NumberIsPrintable(0, 1);
    TextIsPrintable(1, PlatformName(p));
    TextIsPrintable(2, titleId);
    NumberIsPrintable(12, version);
    TextIsPrintable(13, digest);
    AllArePrintable(ms);
  }

  // Loading undoes saving: both fields of the record come back exactly.
  lemma LoadUndoesSave(p: Platform, titleId: Bytes, version: nat, digest: Bytes)
    requires Fits(titleId, TITLE_ID_MAX) && version < U32_LIMIT && (digest == [] || IsDigest(digest))
    ensures LoadedState(Some(StateText(p, titleId, version, digest))) == (Success, version, digest)
  {
    hide Find, ScanObject, RenderObject, GetStr, NeedUint, AllPrintable;
    var ms := StateMembers(p, titleId, version, digest);
    StateFits(p, titleId, version, digest);
    StateMembersFound(p, titleId, version, digest);
    ScanRendered(ms);
    ReadNumber(ms, "base_version", version);
    assert Fits(digest, SHA256_HEX);
    ReadText(ms, "base_sha256", SHA256_HEX, digest);
  }
}
