// JSON strings, numbers and flat objects (core/src/util/json.c; RFC 8259). The tokenizer
// the C code takes from a library is replaced by a scanner over flat objects.

module Json {
  import opened Common
  import opened Strbuf
  import Utf8

  const QUOTE: Byte := 0x22
  const BACKSLASH: Byte := 0x5C
  const COLON: Byte := 0x3A
  const COMMA: Byte := 0x2C
  const OPEN: Byte := 0x7B
  const CLOSE: Byte := 0x7D
  const LETTER_U: Byte := 0x75

  // --------------------------------------------------------------------- string escapes

  // hex_val
  function HexVal(b: Byte): (v: int)
    ensures -1 <= v < 16
  {
    if 0x30 <= b <= 0x39 then b - 0x30
    else if 0x61 <= b <= 0x66 then b - 0x61 + 10
    else if 0x41 <= b <= 0x46 then b - 0x41 + 10
    else -1
  }

  // What a one letter escape stands for; 0 when there is no such escape.
  function Unletter(b: Byte): Byte {
    if b == 0x22 || b == 0x5C || b == 0x2F then b
    else if b == 0x62 then 0x08
    else if b == 0x66 then 0x0C
    else if b == 0x6E then 0x0A
    else if b == 0x72 then 0x0D
    else if b == 0x74 then 0x09
    else 0
  }

  predicate FourHex(s: Bytes) {
    |s| >= 4 && HexVal(s[0]) >= 0 && HexVal(s[1]) >= 0 && HexVal(s[2]) >= 0 && HexVal(s[3]) >= 0
  }

  // A code unit written as four hexadecimal digits.
  function CodeUnit(s: Bytes): (u: nat)
    requires FourHex(s)
    ensures u < 0x1_0000
  {
    0x1000 * HexVal(s[0]) + 0x100 * HexVal(s[1]) + 0x10 * HexVal(s[2]) + HexVal(s[3])
  }

  predicate HighSurrogate(u: int) { 0xD800 <= u <= 0xDBFF }

  predicate LowSurrogate(u: int) { 0xDC00 <= u <= 0xDFFF }

  // The scalar value a surrogate pair stands for.
  function Combine(high: nat, low: nat): (cp: nat)
    requires HighSurrogate(high) && LowSurrogate(low)
    ensures 0x1_0000 <= cp <= 0x10_FFFF
  {
    0x1_0000 + (high - 0xD800) * 0x400 + (low - 0xDC00)
  }

  // The pair that stands for a scalar value above the basic plane.
  function Split(cp: nat): (p: (nat, nat))
    requires 0x1_0000 <= cp <= 0x10_FFFF
    ensures HighSurrogate(p.0) && LowSurrogate(p.1)
  {
    (0xD800 + (cp - 0x1_0000) / 0x400, 0xDC00 + (cp - 0x1_0000) % 0x400)
  }

  // Pairs and the scalar values U+10000 to U+10FFFF correspond one to one.
  lemma SurrogatesAreABijection(high: nat, low: nat, cp: nat)
    requires HighSurrogate(high) && LowSurrogate(low) && 0x1_0000 <= cp <= 0x10_FFFF
    ensures Combine(high, low) == cp <==> Split(cp) == (high, low)
  {
  }

  // One step of decoding: the bytes it gives and how much it reads.
  datatype Piece = Piece(text: Bytes, read: nat)

  // A \u escape at the start of s, with its second half when it needs one.
  function DecodeUnicode(s: Bytes): (r: Option<Piece>)
    requires |s| >= 2
    ensures r.Some? ==> 2 <= r.value.read <= |s|
  {
    if !FourHex(s[2..]) then None
    else
      var u := CodeUnit(s[2..]);
      if HighSurrogate(u) then
        if |s| < 12 || s[6] != BACKSLASH || s[7] != LETTER_U || !FourHex(s[8..]) then None
        else if !LowSurrogate(CodeUnit(s[8..])) then None
        else Some(Piece(Utf8.Encode(Combine(u, CodeUnit(s[8..]))), 12))
      else if LowSurrogate(u) then None
      else Some(Piece(Utf8.Encode(u), 6))
  }

  function DecodeOne(s: Bytes): (r: Option<Piece>)
    requires s != []
    ensures r.Some? ==> 1 <= r.value.read <= |s|
  {
    if s[0] != BACKSLASH then Some(Piece([s[0]], 1))
    else if |s| == 1 then None
    else if Unletter(s[1]) != 0 then Some(Piece([Unletter(s[1])], 2))
    else if s[1] == LETTER_U then DecodeUnicode(s)
    else None
  }

  // What a JSON string stands for: the text up to the end or up to the first mistake, and
  // whether there was none.
  datatype Decoded = Decoded(text: Bytes, ok: bool)

  function Decode(raw: Bytes): Decoded
    decreases |raw|
  {
    if raw == [] then Decoded([], true)
    else
      var piece := DecodeOne(raw);
      if piece.None? then Decoded([], false)
      else
        var rest := Decode(raw[piece.value.read..]);
        Decoded(piece.value.text + rest.text, rest.ok)
  }

  // ------------------------------------------------------------------- escape, decode

  lemma DecodeEscapedByte(b: Byte, rest: Bytes)
    ensures DecodeOne(EscapeByte(b) + rest) == Some(Piece([b], |EscapeByte(b)|))
  {
    var s := EscapeByte(b) + rest;
    if Letter(b) == 0 && b < 0x20 {
      assert s[2..] == [0x30, 0x30, HexDigit(b / 16), HexDigit(b % 16)] + rest;
      assert HexVal(HexDigit(b / 16)) == b / 16 && HexVal(HexDigit(b % 16)) == b % 16;
      assert CodeUnit(s[2..]) == b;
    }
  }

  // Decoding undoes escaping, for every byte string.
  lemma {:induction false} DecodeEscaped(s: Bytes)
    ensures Decode(Escape(s)) == Decoded(s, true)
  {
    if s != [] {
      var e, rest := EscapeByte(s[0]), Escape(s[1..]);
      DecodeEscapedByte(s[0], rest);
      assert (e + rest)[|e|..] == rest;
      DecodeEscaped(s[1..]);
      assert [s[0]] + s[1..] == s;
    }
  }

  // ------------------------------------------------------------ what an escape stands for

  // The digits of section 7 of RFC 8259, in either case.
  const LOWER_DIGITS: Bytes := Ascii("0123456789abcdef")
  const UPPER_DIGITS: Bytes := Ascii("0123456789ABCDEF")

  predicate DigitFor(b: Byte, v: nat) {
    v < 16 && (b == LOWER_DIGITS[v] || b == UPPER_DIGITS[v])
  }

  lemma DigitMeans(b: Byte, v: nat)
    requires DigitFor(b, v)
    ensures HexVal(b) == v
  {
  }

  // No other byte is a digit.
  lemma DigitExists(b: Byte)
    requires HexVal(b) >= 0
    ensures DigitFor(b, HexVal(b))
  {
  }

  // Four digits that spell a code unit.
  predicate Spells(ds: Bytes, u: nat) {
    && |ds| == 4 && u < 0x1_0000
    && DigitFor(ds[0], u / 0x1000) && DigitFor(ds[1], u / 0x100 % 0x10)
    && DigitFor(ds[2], u / 0x10 % 0x10) && DigitFor(ds[3], u % 0x10)
  }

  lemma SpelledUnit(s: Bytes, u: nat)
    requires |s| >= 4 && Spells(s[..4], u)
    ensures FourHex(s) && CodeUnit(s) == u
  {
    hide DigitFor;
    assert s[..4][0] == s[0] && s[..4][1] == s[1] && s[..4][2] == s[2] && s[..4][3] == s[3];
    DigitMeans(s[0], u / 0x1000);
    DigitMeans(s[1], u / 0x100 % 0x10);
    DigitMeans(s[2], u / 0x10 % 0x10);
    DigitMeans(s[3], u % 0x10);
    assert u / 0x1000 == u / 0x100 / 0x10 && u / 0x100 == u / 0x10 / 0x10;
  }

  function UnicodeEscape(ds: Bytes): Bytes { [BACKSLASH, LETTER_U] + ds }

  // A \u escape of a character of the basic plane, with any rest behind it, gives that
  // character's UTF-8 and then what the rest gives.
  lemma UnicodeEscapeGives(u: nat, ds: Bytes, rest: Bytes)
    requires Spells(ds, u) && Utf8.Scalar(u)
    ensures Decode(UnicodeEscape(ds) + rest) == Decoded(Utf8.Encode(u) + Decode(rest).text, Decode(rest).ok)
  {
    hide Spells, FourHex, CodeUnit, Utf8.Encode;
    var s := UnicodeEscape(ds) + rest;
    SpelledLength(ds, u);
    assert s[2..][..4] == ds && s[6..] == rest;
    SpelledUnit(s[2..], u);
    assert DecodeOne(s) == Some(Piece(Utf8.Encode(u), 6));
  }

  lemma SpelledLength(ds: Bytes, u: nat)
    requires Spells(ds, u)
    ensures |ds| == 4 && u < 0x1_0000
  {
  }

  // A character beyond the basic plane is written as two escapes, of its surrogates.
  lemma SurrogateEscapesGive(u: nat, high: Bytes, low: Bytes, rest: Bytes)
    requires 0x1_0000 <= u <= 0x10_FFFF
    requires Spells(high, 0xD800 + (u - 0x1_0000) / 0x400) && Spells(low, 0xDC00 + (u - 0x1_0000) % 0x400)
    ensures Decode(UnicodeEscape(high) + UnicodeEscape(low) + rest) == Decoded(Utf8.Encode(u) + Decode(rest).text, Decode(rest).ok)
  {
    hide Spells, FourHex, CodeUnit, Utf8.Encode;
    var h, l := 0xD800 + (u - 0x1_0000) / 0x400, 0xDC00 + (u - 0x1_0000) % 0x400;
    var s := UnicodeEscape(high) + UnicodeEscape(low) + rest;
    SpelledLength(high, h);
    SpelledLength(low, l);
    assert s[2..][..4] == high && s[8..][..4] == low && s[12..] == rest;
    SpelledUnit(s[2..], h);
    SpelledUnit(s[8..], l);
    assert s[6] == BACKSLASH && s[7] == LETTER_U;
    assert DecodeOne(s) == Some(Piece(Utf8.Encode(u), 12));
  }

  lemma UnitIsSpelled(s: Bytes)
    requires FourHex(s)
    ensures Spells(s[..4], CodeUnit(s))
  {
    hide DigitFor;
    DigitExists(s[0]);
    DigitExists(s[1]);
    DigitExists(s[2]);
    DigitExists(s[3]);
    DigitsOf(HexVal(s[0]), HexVal(s[1]), HexVal(s[2]), HexVal(s[3]));
  }

  lemma DigitsOf(a: nat, b: nat, c: nat, d: nat)
    requires a < 16 && b < 16 && c < 16 && d < 16
    ensures
      var u := 0x1000 * a + 0x100 * b + 0x10 * c + d;
      u / 0x1000 == a && u / 0x100 % 0x10 == b && u / 0x10 % 0x10 == c && u % 0x10 == d
  {
    var u := 0x1000 * a + 0x100 * b + 0x10 * c + d;
    assert u / 0x10 == 0x100 * a + 0x10 * b + c;
    assert u / 0x100 == 0x10 * a + b;
  }

  // Fewer than four digits are a mistake.
  lemma UnspelledIsAMistake(rest: Bytes)
    requires forall u :: |rest| < 4 || !Spells(rest[..4], u)
    ensures Decode(UnicodeEscape(rest)) == Decoded([], false)
  {
    hide Spells, FourHex, CodeUnit;
    var s := UnicodeEscape(rest);
    assert s[2..] == rest;
    if FourHex(rest) {
      FourHexIsLong(rest);
      UnitIsSpelled(rest);
    }
  }

  lemma FourHexIsLong(s: Bytes)
    requires FourHex(s)
    ensures |s| >= 4
  {
  }

  predicate LowFollows(rest: Bytes) {
    |rest| >= 6 && rest[0] == BACKSLASH && rest[1] == LETTER_U && FourHex(rest[2..]) && LowSurrogate(CodeUnit(rest[2..]))
  }

  lemma LowIsSpelled(rest: Bytes)
    requires LowFollows(rest)
    ensures |rest| >= 6 && rest[..2] == [BACKSLASH, LETTER_U]
    ensures exists v: nat :: 0xDC00 <= v <= 0xDFFF && Spells(rest[2..6], v)
  {
    hide Spells, FourHex, CodeUnit;
    UnitIsSpelled(rest[2..]);
    assert rest[2..][..4] == rest[2..6];
  }

  // A high surrogate is a mistake unless the escape of a low one follows.
  lemma HighSurrogateAlone(u: nat, ds: Bytes, rest: Bytes)
    requires Spells(ds, u) && 0xD800 <= u <= 0xDBFF
    requires forall v: nat :: 0xDC00 <= v <= 0xDFFF ==>
      |rest| < 6 || rest[..2] != [BACKSLASH, LETTER_U] || !Spells(rest[2..6], v)
    ensures Decode(UnicodeEscape(ds) + rest) == Decoded([], false)
  {
    hide Spells, FourHex, CodeUnit, Utf8.Encode;
    var s := UnicodeEscape(ds) + rest;
    SpelledLength(ds, u);
    assert s[2..][..4] == ds && s[6..] == rest;
    SpelledUnit(s[2..], u);
    if LowFollows(rest) {
      LowIsSpelled(rest);
    }
    assert |rest| >= 6 ==> s[8..] == rest[2..] && s[6] == rest[0] && s[7] == rest[1];
    assert DecodeOne(s).None?;
  }

  // A low surrogate in front is a mistake.
  lemma LoneSurrogateIsAMistake(u: nat, ds: Bytes, rest: Bytes)
    requires Spells(ds, u) && 0xDC00 <= u <= 0xDFFF
    ensures Decode(UnicodeEscape(ds) + rest) == Decoded([], false)
  {
    hide Spells, FourHex, CodeUnit;
    var s := UnicodeEscape(ds) + rest;
    SpelledLength(ds, u);
    assert s[2..][..4] == ds;
    SpelledUnit(s[2..], u);
  }

  // The escapes of two characters: what stands behind the backslash, and what it gives.
  const SHORT_ESCAPES: Bytes := [0x22, 0x5C, 0x2F, 0x62, 0x66, 0x6E, 0x72, 0x74]
  const SHORT_MEANINGS: Bytes := [0x22, 0x5C, 0x2F, 0x08, 0x0C, 0x0A, 0x0D, 0x09]

  lemma ShortEscapeGives(k: nat, rest: Bytes)
    requires k < |SHORT_ESCAPES|
    ensures Decode([BACKSLASH, SHORT_ESCAPES[k]] + rest) == Decoded([SHORT_MEANINGS[k]] + Decode(rest).text, Decode(rest).ok)
  {
    var s := [BACKSLASH, SHORT_ESCAPES[k]] + rest;
    assert s[2..] == rest;
  }

  // Nothing else may stand behind a backslash.
  lemma OtherEscapesAreMistakes(c: Byte, rest: Bytes)
    requires c !in SHORT_ESCAPES && c != LETTER_U
    ensures Decode([BACKSLASH, c] + rest) == Decoded([], false)
    ensures Decode([BACKSLASH]) == Decoded([], false)
  {
    var s := [BACKSLASH, c] + rest;
    assert Unletter(c) == 0 by {
      assert SHORT_ESCAPES[0] == 0x22 && SHORT_ESCAPES[1] == 0x5C && SHORT_ESCAPES[2] == 0x2F && SHORT_ESCAPES[3] == 0x62;
      assert SHORT_ESCAPES[4] == 0x66 && SHORT_ESCAPES[5] == 0x6E && SHORT_ESCAPES[6] == 0x72 && SHORT_ESCAPES[7] == 0x74;
    }
  }

  // ----------------------------------------------------------------- daemoon_json_str

  // The four digits behind a \u, or -1.
  method ReadUnit(s: Bytes, at: nat) returns (u: int)
    requires at + 4 <= |s|
    ensures u == if FourHex(s[at..]) then CodeUnit(s[at..]) else -1
  {
    u := 0;
    var i := 0;
    ghost var t := s[at..];
    while i < 4
      invariant 0 <= i <= 4 && t == s[at..]
      invariant forall j :: 0 <= j < i ==> HexVal(t[j]) >= 0
      invariant i == 1 ==> u == HexVal(t[0])
      invariant i == 2 ==> u == 0x10 * HexVal(t[0]) + HexVal(t[1])
      invariant i == 3 ==> u == 0x100 * HexVal(t[0]) + 0x10 * HexVal(t[1]) + HexVal(t[2])
      invariant i == 4 ==> u == 0x1000 * HexVal(t[0]) + 0x100 * HexVal(t[1]) + 0x10 * HexVal(t[2]) + HexVal(t[3])
      invariant i == 0 ==> u == 0
    {
      var v := HexVal(s[at + i]);
      assert s[at + i] == t[i];
      if v < 0 {
        return -1;
      }
      u := 0x10 * u + v;
      i := i + 1;
    }
  }

  // append_utf8
  method AppendUtf8(sb: Builder, cp: nat)
    requires sb.Valid() && cp <= 0x10_FFFF
    modifies sb, sb.buf
    ensures sb.Valid() && sb.ideal == old(sb.ideal) + Utf8.Encode(cp)
  {
    if cp < 0x80 {
      sb.AddChar(cp);
    } else if cp < 0x800 {
      sb.AddChar(0xC0 + cp / 0x40);
      sb.AddChar(Utf8.Low(cp));
    } else if cp < 0x1_0000 {
      sb.AddChar(0xE0 + cp / 0x40 / 0x40);
      sb.AddChar(Utf8.Low(cp / 0x40));
      sb.AddChar(Utf8.Low(cp));
    } else {
      sb.AddChar(0xF0 + cp / 0x40 / 0x40 / 0x40);
      sb.AddChar(Utf8.Low(cp / 0x40 / 0x40));
      sb.AddChar(Utf8.Low(cp / 0x40));
      sb.AddChar(Utf8.Low(cp));
    }
  }

  // The case 'u' of the escape switch; p is at the backslash. Returns where to go on.
  method EmitUnicode(sb: Builder, raw: Bytes, p: nat) returns (ok: bool, q: nat)
    requires sb.Valid() && p + 2 <= |raw|
    modifies sb, sb.buf
    ensures sb.Valid()
    ensures ok <==> DecodeUnicode(raw[p..]).Some?
    ensures !ok ==> sb.ideal == old(sb.ideal)
    ensures ok ==> q == p + DecodeUnicode(raw[p..]).value.read
    ensures ok ==> sb.ideal == old(sb.ideal) + DecodeUnicode(raw[p..]).value.text
  {
    hide Utf8.Encode;
    ok, q := false, p;
    ghost var s := raw[p..];
    assert s[2..] == raw[p + 2..];
    if |raw| - p < 6 {
      return;
    }
    var cp := ReadUnit(raw, p + 2);
    if cp < 0 {
      return;
    }
    q := p + 6;
    if HighSurrogate(cp) {
      if |raw| - q < 6 || raw[q] != BACKSLASH || raw[q + 1] != LETTER_U {
        return;
      }
      assert s[8..] == raw[q + 2..] && s[6] == raw[q] && s[7] == raw[q + 1];
      var low := ReadUnit(raw, q + 2);
      if low < 0 || !LowSurrogate(low) {
        return;
      }
      cp := Combine(cp, low);
      q := q + 6;
    } else if LowSurrogate(cp) {
      return;
    }
    AppendUtf8(sb, cp);
    ok := true;
  }

  // One turn of the decoding loop.
  method EmitOne(sb: Builder, raw: Bytes, p: nat) returns (ok: bool, q: nat)
    requires sb.Valid() && p < |raw|
    modifies sb, sb.buf
    ensures sb.Valid()
    ensures ok <==> DecodeOne(raw[p..]).Some?
    ensures !ok ==> sb.ideal == old(sb.ideal)
    ensures ok ==> q == p + DecodeOne(raw[p..]).value.read
    ensures ok ==> sb.ideal == old(sb.ideal) + DecodeOne(raw[p..]).value.text
  {
    ok, q := true, p;
    if raw[p] != BACKSLASH {
      sb.AddChar(raw[p]);
      q := p + 1;
      return;
    }
    if p + 1 >= |raw| {
      ok := false;
      return;
    }
    var c := raw[p + 1];
    if c == 0x22 || c == 0x5C || c == 0x2F {
      sb.AddChar(c);
    } else if c == 0x62 {
      sb.AddChar(0x08);
    } else if c == 0x66 {
      sb.AddChar(0x0C);
    } else if c == 0x6E {
      sb.AddChar(0x0A);
    } else if c == 0x72 {
      sb.AddChar(0x0D);
    } else if c == 0x74 {
      sb.AddChar(0x09);
    } else if c == LETTER_U {
      ok, q := EmitUnicode(sb, raw, p);
      return;
    } else {
      ok := false;
      return;
    }
    q := p + 2;
  }

  // What the caller's buffer reads as afterwards. After a mistake it holds what was decoded
  // so far, cut at the buffer's end; otherwise the text or its part up to a boundary.
  function Received(raw: Bytes, cap: nat): (r: Bytes)
    requires cap > 0
    ensures |r| < cap && r <= Decode(raw).text
  {
    var d := Decode(raw);
    if !d.ok || |d.text| < cap then Take(d.text, cap - 1)
    else d.text[..Utf8.Trim(d.text[..cap - 1])]
  }

  // d is what raw decodes to; done of it has been decoded up to position p.
  ghost predicate DecodesFrom(d: Decoded, done: Bytes, raw: Bytes, p: nat)
    requires p <= |raw|
  {
    d.text == done + Decode(raw[p..]).text && d.ok == Decode(raw[p..]).ok
  }

  lemma DecodeStep(d: Decoded, done: Bytes, raw: Bytes, p: nat)
    requires p < |raw| && DecodesFrom(d, done, raw, p)
    ensures
      var one := DecodeOne(raw[p..]);
      if one.None? then d == Decoded(done, false)
      else DecodesFrom(d, done + one.value.text, raw, p + one.value.read)
  {
    var one := DecodeOne(raw[p..]);
    if one.Some? {
      assert raw[p..][one.value.read..] == raw[p + one.value.read..];
    }
  }

  // The decoding loop.
  method DecodeInto(sb: Builder, raw: Bytes) returns (ok: bool)
    requires sb.Valid() && sb.ideal == []
    modifies sb, sb.buf
    ensures sb.Valid() && sb.ideal == Decode(raw).text && ok == Decode(raw).ok
  {
    var p := 0;
    ghost var d := Decode(raw);
    assert raw[0..] == raw;
    while p < |raw|
      invariant 0 <= p <= |raw| && sb.Valid()
      invariant DecodesFrom(d, sb.ideal, raw, p)
    {
      DecodeStep(d, sb.ideal, raw, p);
      var more, q := EmitOne(sb, raw, p);
      if !more {
        return false;
      }
      p := q;
    }
    ok := true;
  }

  method JsonStr(raw: Bytes, out: array<Byte>) returns (r: Status)
    modifies out
    ensures out.Length == 0 ==> r == BufferTooSmall
    ensures out.Length > 0 ==>
      r == (if !Decode(raw).ok then ParseError
            else if |Decode(raw).text| < out.Length then Success
            else BufferTooSmall)
    ensures out.Length > 0 ==>
      var text := Received(raw, out.Length);
      out[..|text|] == text && out[|text|] == 0
  {
    hide Decode, Utf8.Trim;
    if out.Length == 0 {
      return BufferTooSmall;
    }
    var sb := new Builder(out);
    var ok := DecodeInto(sb, raw);
    if !ok {
      return ParseError;
    }
    r := sb.Result();
    if r != Success {
      var n := sb.CutBack();
    }
  }

  // ---------------------------------------------------------------- validity of the text

  lemma DecodePlain(raw: Bytes)
    requires raw != [] && raw[0] != BACKSLASH
    ensures Decode(raw) == Decoded([raw[0]] + Decode(raw[1..]).text, Decode(raw[1..]).ok)
  {
  }

  lemma {:induction false} DecodeRun(run: Bytes, rest: Bytes)
    requires BACKSLASH !in run
    ensures Decode(run + rest) == Decoded(run + Decode(rest).text, Decode(rest).ok)
  {
    hide Decode;
    if run == [] {
      assert run + rest == rest;
    } else {
      assert (run + rest)[1..] == run[1..] + rest;
      DecodePlain(run + rest);
      DecodeRun(run[1..], rest);
      assert run == [run[0]] + run[1..];
    }
  }

  lemma EncodeIsValid(cp: nat, rest: Bytes)
    requires Utf8.Scalar(cp) && Utf8.Valid(rest)
    ensures Utf8.Valid(Utf8.Encode(cp) + rest)
  {
    Utf8.EncodeThenDecode(cp, rest);
    assert (Utf8.Encode(cp) + rest)[|Utf8.Encode(cp)|..] == rest;
  }

  // An escape is read from ASCII bytes and gives one character.
  lemma EscapeIsOneChar(raw: Bytes)
    requires raw != [] && raw[0] == BACKSLASH && DecodeOne(raw).Some?
    ensures forall i :: 0 <= i < DecodeOne(raw).value.read ==> raw[i] < 0x80
    ensures exists cp: nat :: Utf8.Scalar(cp) && DecodeOne(raw).value.text == Utf8.Encode(cp)
  {
    if Unletter(raw[1]) != 0 {
      assert Utf8.Encode(Unletter(raw[1])) == [Unletter(raw[1])];
    } else {
      var u := CodeUnit(raw[2..]);
      assert forall i :: 2 <= i < 6 ==> raw[i] == raw[2..][i - 2];
      if HighSurrogate(u) {
        assert forall i :: 8 <= i < 12 ==> raw[i] == raw[8..][i - 8];
        assert Utf8.Scalar(Combine(u, CodeUnit(raw[8..])));
      } else {
        assert Utf8.Scalar(u);
      }
    }
  }

  // Decoding valid UTF-8 gives valid UTF-8, also up to the first mistake.
  lemma {:induction false} DecodeIsValid(raw: Bytes)
    requires Utf8.Valid(raw)
    ensures Utf8.Valid(Decode(raw).text)
    decreases |raw|
  {
    if raw == [] {
    } else if raw[0] == BACKSLASH {
      if DecodeOne(raw).Some? {
        EscapeIsOneChar(raw);
        var piece := DecodeOne(raw).value;
        Utf8.DropAscii(raw, piece.read);
        DecodeIsValid(raw[piece.read..]);
        var cp: nat :| Utf8.Scalar(cp) && piece.text == Utf8.Encode(cp);
        EncodeIsValid(cp, Decode(raw[piece.read..]).text);
      }
    } else {
      var n := Utf8.CharLen(raw);
      assert raw == raw[..n] + raw[n..];
      DecodeRun(raw[..n], raw[n..]);
      DecodeIsValid(raw[n..]);
      Utf8.CharLenPrefix(raw, n);
      Utf8.CharLenExtend(raw[..n], Decode(raw[n..]).text);
      assert (raw[..n] + Decode(raw[n..]).text)[n..] == Decode(raw[n..]).text;
    }
  }

  // From valid UTF-8 without a mistake the caller receives the longest valid prefix that
  // fits, which is the whole text whenever the call succeeds.
  lemma ReceivedIsLongestFit(raw: Bytes, cap: nat)
    requires cap > 0 && Utf8.Valid(raw) && Decode(raw).ok
    ensures Utf8.LongestFit(Decode(raw).text, cap - 1, |Received(raw, cap)|)
    ensures |Decode(raw).text| < cap ==> Received(raw, cap) == Decode(raw).text
  {
    hide Decode, Utf8.Valid, Utf8.Trim, Utf8.LongestFit;
    var text := Decode(raw).text;
    DecodeIsValid(raw);
    Utf8.CutIsLongestFit(text, cap - 1);
    if |text| >= cap {
      Utf8.TrimFindsTheCut(text, cap - 1);
    }
  }

  // With a mistake what fits is kept as it is. So the buffer holds valid UTF-8 unless the
  // string has a mistake behind more text than fits and the buffer ends inside a
  // character: then, and only then, what the caller is left with is broken.
  lemma ReceivedIsValidExactlyWhen(raw: Bytes, cap: nat)
    requires cap > 0 && Utf8.Valid(raw)
    ensures
      var d := Decode(raw);
      Utf8.Valid(Received(raw, cap)) <==> d.ok || |d.text| < cap || Utf8.Cut(d.text, cap - 1) == cap - 1
  {
    hide Decode, Utf8.Trim;
    var text := Decode(raw).text;
    DecodeIsValid(raw);
    Utf8.CutIsLongestFit(text, cap - 1);
    if Decode(raw).ok {
      ReceivedIsLongestFit(raw, cap);
    }
    assert text[..|text|] == text;
  }

  // Such strings: an e with an acute accent, then a mistake, read into two bytes. The buffer
  // keeps the first half of the character.
  const E_ACUTE: Bytes := [0xC3, 0xA9]

  lemma MistakeLeavesHalfACharacter(mistake: Bytes)
    requires mistake != [] && mistake[0] == BACKSLASH && DecodeOne(mistake).None? && Utf8.Valid(mistake)
    ensures Utf8.Valid(E_ACUTE + mistake) && Decode(E_ACUTE + mistake) == Decoded(E_ACUTE, false)
    ensures Received(E_ACUTE + mistake, 2) == [0xC3] && !Utf8.Valid(Received(E_ACUTE + mistake, 2))
  {
    DecodeRun(E_ACUTE, mistake);
    assert Utf8.CharLen(E_ACUTE) == 2;
    Utf8.ValidConcat(E_ACUTE, mistake);
  }

  // An escape that does not exist, and half of a surrogate pair. A tokenizer that only
  // looks for four hexadecimal digits lets the second one through.
  lemma TwoMistakes()
    ensures DecodeOne([BACKSLASH, 0x78]).None? && Utf8.Valid([BACKSLASH, 0x78])
    ensures DecodeOne(HALF_A_PAIR).None? && Utf8.Valid(HALF_A_PAIR) && RawString(HALF_A_PAIR)
  {
    assert Unletter(0x78) == 0;
    Utf8.AsciiIsValid([BACKSLASH, 0x78]);
    Utf8.AsciiIsValid(HALF_A_PAIR);
    assert HALF_A_PAIR[2..] == [0x64, 0x63, 0x30, 0x30] && CodeUnit(HALF_A_PAIR[2..]) == 0xDC00;
    var s := HALF_A_PAIR + [QUOTE];
    assert s[2..] == [0x64, 0x63, 0x30, 0x30, QUOTE] && s[6..] == [QUOTE];
    assert StringEnd([QUOTE]) == Some(0);
  }

  const HALF_A_PAIR: Bytes := [BACKSLASH, LETTER_U, 0x64, 0x63, 0x30, 0x30]

  // ----------------------------------------------------------------- daemoon_json_uint

  predicate AllDigits(s: Bytes) {
    forall i :: 0 <= i < |s| ==> 0x30 <= s[i] <= 0x39
  }

  function NumberOf(s: Bytes): nat
    requires AllDigits(s)
  {
    if s == [] then 0 else 10 * NumberOf(s[..|s| - 1]) + (s[|s| - 1] - 0x30)
  }

  predicate IsU64(s: Bytes) {
    s != [] && AllDigits(s) && NumberOf(s) < U64_LIMIT
  }

  lemma {:induction false} NumberGrows(s: Bytes, i: nat)
    requires AllDigits(s) && i <= |s|
    ensures NumberOf(s[..i]) <= NumberOf(s)
    decreases |s| - i
  {
    if i == |s| {
      assert s[..i] == s;
    } else {
      assert s[..i + 1][..i] == s[..i];
      NumberGrows(s, i + 1);
    }
  }

  // Every number is accepted exactly when it fits 64 bits, and comes back as it is.
  method JsonUint(raw: Bytes) returns (r: Status, v: nat)
    ensures r == if IsU64(raw) then Success else ParseError
    ensures IsU64(raw) ==> v == NumberOf(raw)
  {
    v := 0;
    if |raw| == 0 {
      return ParseError, 0;
    }
    var i := 0;
    while i < |raw|
      invariant 0 <= i <= |raw| && AllDigits(raw[..i]) && v == NumberOf(raw[..i]) < U64_LIMIT
    {
      var c := raw[i];
      if c < 0x30 || c > 0x39 {
        return ParseError, 0;
      }
      ghost var next := raw[..i + 1];
      assert next[..i] == raw[..i] && next[i] == c;
      assert NumberOf(next) == 10 * v + (c - 0x30);
      if v > (U64_LIMIT - 1 - (c - 0x30)) / 10 {
        if AllDigits(raw) {
          NumberGrows(raw, i + 1);
        }
        return ParseError, 0;
      }
      v := 10 * v + (c - 0x30);
      i := i + 1;
    }
    assert raw[..i] == raw;
    r := Success;
  }

  lemma {:induction false} NumberOfDigits(w: nat)
    ensures AllDigits(Digits(w)) && NumberOf(Digits(w)) == w
  {
    if w > 0 {
      var s := Digits(w);
      assert s[..|s| - 1] == Digits(w / 10);
      NumberOfDigits(w / 10);
    }
  }

  // Reading undoes printing, for every number.
  lemma NumberOfDecimal(v: nat)
    ensures AllDigits(Decimal(v)) && NumberOf(Decimal(v)) == v
  {
    NumberOfDigits(v);
    assert [0x30][..0] == [];
  }

  // --------------------------------------------------------------------- flat objects

  // A member's value as it stands in the text: what is between the quotes, or a bare word.
  datatype Value = Quoted(raw: Bytes) | Bare(raw: Bytes)

  datatype Member = Member(key: Bytes, value: Value)

  // Where the closing quote is, for s behind the opening one.
  function StringEnd(s: Bytes): (r: Option<nat>)
    ensures r.Some? ==> r.value < |s| && s[r.value] == QUOTE
    decreases |s|
  {
    if s == [] || s[0] == 0 then None
    else if s[0] == QUOTE then Some(0)
    else if s[0] != BACKSLASH then Shifted(StringEnd(s[1..]), 1)
    else if |s| >= 2 && Unletter(s[1]) != 0 then Shifted(StringEnd(s[2..]), 2)
    else if |s| >= 2 && s[1] == LETTER_U && FourHex(s[2..]) then Shifted(StringEnd(s[6..]), 6)
    else None
  }

  function Shifted(r: Option<nat>, n: nat): Option<nat> {
    if r.Some? then Some(r.value + n) else None
  }

  predicate Delimiter(b: Byte) {
    b == COLON || b == 0x09 || b == 0x0D || b == 0x0A || b == 0x20 || b == COMMA || b == 0x5D || b == CLOSE
  }

  // How long the bare word at the start of s is; it consists of printable ASCII.
  function WordEnd(s: Bytes): (n: nat)
    ensures n <= |s|
  {
    if s == [] || Delimiter(s[0]) || s[0] < 0x20 || s[0] >= 0x7F then 0 else 1 + WordEnd(s[1..])
  }

  function ScanValue(s: Bytes): (r: Option<(Value, Bytes)>)
    ensures r.Some? ==> |r.value.1| < |s|
  {
    if s == [] then None
    else if s[0] == QUOTE then
      var n := StringEnd(s[1..]);
      if n.None? then None else Some((Quoted(s[1..1 + n.value]), s[n.value + 2..]))
    else
      var n := WordEnd(s);
      if n == 0 then None else Some((Bare(s[..n]), s[n..]))
  }

  function ScanMember(s: Bytes): (r: Option<(Member, Bytes)>)
    ensures r.Some? ==> |r.value.1| < |s|
  {
    if s == [] || s[0] != QUOTE then None
    else
      var n := StringEnd(s[1..]);
      if n.None? || n.value + 2 >= |s| || s[n.value + 2] != COLON then None
      else
        var v := ScanValue(s[n.value + 3..]);
        if v.None? then None else Some((Member(s[1..1 + n.value], v.value.0), v.value.1))
  }

  function ScanMembers(s: Bytes): Option<seq<Member>>
    decreases |s|
  {
    var m := ScanMember(s);
    if m.None? || m.value.1 == [] then None
    else if m.value.1 == [CLOSE] then Some([m.value.0])
    else if m.value.1[0] != COMMA then None
    else
      var rest := ScanMembers(m.value.1[1..]);
      if rest.None? then None else Some([m.value.0] + rest.value)
  }

  function ScanObject(s: Bytes): Option<seq<Member>> {
    if s == [OPEN, CLOSE] then Some([])
    else if s == [] || s[0] != OPEN then None
    else ScanMembers(s[1..])
  }

  // An object is one token, and every member is two.
  function Tokens(ms: seq<Member>): nat { 1 + 2 * |ms| }

  // daemoon_json_find: the value of the first member with that key.
  function Find(ms: seq<Member>, key: Bytes): Option<Value> {
    if ms == [] then None else if ms[0].key == key then Some(ms[0].value) else Find(ms[1..], key)
  }

  method FindMember(ms: seq<Member>, key: Bytes) returns (r: Option<Value>)
    ensures r == Find(ms, key)
  {
    var i := 0;
    assert ms[0..] == ms;
    while i < |ms|
      invariant 0 <= i <= |ms| && Find(ms, key) == Find(ms[i..], key)
    {
      if ms[i].key == key {
        return Some(ms[i].value);
      }
      assert ms[i..][1..] == ms[i + 1..];
      i := i + 1;
    }
    r := None;
  }

  // ------------------------------------------------------------- printing flat objects

  function RenderValue(v: Value): Bytes {
    if v.Quoted? then [QUOTE] + v.raw + [QUOTE] else v.raw
  }

  function RenderMember(m: Member): Bytes {
    [QUOTE] + m.key + [QUOTE, COLON] + RenderValue(m.value)
  }

  function RenderMembers(ms: seq<Member>): Bytes
    requires ms != []
  {
    if |ms| == 1 then RenderMember(ms[0]) else RenderMember(ms[0]) + [COMMA] + RenderMembers(ms[1..])
  }

  function RenderObject(ms: seq<Member>): Bytes {
    if ms == [] then [OPEN, CLOSE] else [OPEN] + RenderMembers(ms) + [CLOSE]
  }

  // The contents of a string whose first unescaped quote is the one behind it.
  predicate RawString(raw: Bytes) {
    StringEnd(raw + [QUOTE]) == Some(|raw|)
  }

  predicate RawWord(raw: Bytes) {
    raw != [] && WordEnd(raw) == |raw| && raw[0] != QUOTE
  }

  predicate Printable(m: Member) {
    RawString(m.key) && if m.value.Quoted? then RawString(m.value.raw) else RawWord(m.value.raw)
  }

  predicate AllPrintable(ms: seq<Member>) {
    ms == [] || (Printable(ms[0]) && AllPrintable(ms[1..]))
  }

  lemma {:induction false} StringEndExtends(s: Bytes, rest: Bytes)
    requires StringEnd(s).Some?
    ensures StringEnd(s + rest) == StringEnd(s)
    decreases |s|
  {
    if s[0] == QUOTE {
    } else if s[0] != BACKSLASH {
      assert (s + rest)[1..] == s[1..] + rest;
      StringEndExtends(s[1..], rest);
    } else if Unletter(s[1]) != 0 {
      assert (s + rest)[2..] == s[2..] + rest;
      StringEndExtends(s[2..], rest);
    } else {
      assert (s + rest)[2..] == s[2..] + rest && (s + rest)[6..] == s[6..] + rest;
      StringEndExtends(s[6..], rest);
    }
  }

  lemma StringEndEscaped(b: Byte, rest: Bytes)
    ensures StringEnd(EscapeByte(b) + rest) == Shifted(StringEnd(rest), |EscapeByte(b)|)
  {
    var e := EscapeByte(b);
    var s := e + rest;
    if |e| == 1 {
      assert s[1..] == rest;
    } else if |e| == 2 {
      assert s[2..] == rest;
    } else {
      assert s[2..] == [0x30, 0x30, HexDigit(b / 16), HexDigit(b % 16)] + rest && s[6..] == rest;
    }
  }

  lemma EscapedStep(b: Byte, raw: Bytes)
    requires RawString(raw)
    ensures RawString(EscapeByte(b) + raw)
  {
    hide EscapeByte, StringEnd;
    StringEndEscaped(b, raw + [QUOTE]);
    assert EscapeByte(b) + raw + [QUOTE] == EscapeByte(b) + (raw + [QUOTE]);
  }

  // Escaped text never ends a string early, whatever it was escaped from.
  lemma {:induction false} EscapedIsRaw(s: Bytes)
    ensures RawString(Escape(s))
  {
    if s != [] {
      hide RawString, EscapeByte;
      EscapedIsRaw(s[1..]);
      EscapedStep(s[0], Escape(s[1..]));
    }
  }

  lemma {:induction false} WordEndExtends(s: Bytes, rest: Bytes)
    requires WordEnd(s) == |s| && (rest == [] || Delimiter(rest[0]))
    ensures WordEnd(s + rest) == |s|
  {
    if s != [] {
      assert (s + rest)[1..] == s[1..] + rest;
      WordEndExtends(s[1..], rest);
    } else {
      assert s + rest == rest;
    }
  }

  lemma ScanQuoted(raw: Bytes, rest: Bytes)
    requires RawString(raw)
    ensures StringEnd(raw + [QUOTE] + rest) == Some(|raw|)
  {
    StringEndExtends(raw + [QUOTE], rest);
  }

  lemma ScanQuotedValue(raw: Bytes, rest: Bytes)
    requires RawString(raw)
    ensures ScanValue([QUOTE] + raw + [QUOTE] + rest) == Some((Quoted(raw), rest))
  {
    hide StringEnd, WordEnd;
    var s := [QUOTE] + raw + [QUOTE] + rest;
    ScanQuoted(raw, rest);
    assert s[1..] == raw + [QUOTE] + rest;
    assert s[1..1 + |raw|] == raw && s[|raw| + 2..] == rest;
  }

  lemma ScanBareValue(raw: Bytes, rest: Bytes)
    requires RawWord(raw) && rest != [] && Delimiter(rest[0])
    ensures ScanValue(raw + rest) == Some((Bare(raw), rest))
  {
    hide StringEnd, WordEnd, Delimiter;
    WordEndExtends(raw, rest);
    assert (raw + rest)[..|raw|] == raw && (raw + rest)[|raw|..] == rest;
  }

  lemma ScanRenderedValue(v: Value, rest: Bytes)
    requires if v.Quoted? then RawString(v.raw) else RawWord(v.raw)
    requires rest != [] && Delimiter(rest[0])
    ensures ScanValue(RenderValue(v) + rest) == Some((v, rest))
  {
    hide ScanValue, RawString, RawWord, Delimiter;
    if v.Quoted? {
      ScanQuotedValue(v.raw, rest);
    } else {
      ScanBareValue(v.raw, rest);
    }
  }

  lemma ScanRenderedMember(m: Member, rest: Bytes)
    requires Printable(m) && rest != [] && Delimiter(rest[0])
    ensures ScanMember(RenderMember(m) + rest) == Some((m, rest))
  {
    hide StringEnd, WordEnd, ScanValue, RenderValue;
    var s := RenderMember(m) + rest;
    var after := RenderValue(m.value) + rest;
    ScanQuoted(m.key, [COLON] + after);
    assert s[1..] == m.key + [QUOTE] + ([COLON] + after);
    assert s[|m.key| + 2] == COLON && s[|m.key| + 3..] == after && s[1..1 + |m.key|] == m.key;
    ScanRenderedValue(m.value, rest);
  }

  lemma ScanFirstMember(m: Member, rest: Bytes)
    requires Printable(m) && rest != [] && ScanMembers(rest).Some?
    ensures ScanMembers(RenderMember(m) + ([COMMA] + rest)) == Some([m] + ScanMembers(rest).value)
  {
    hide Printable, ScanMember, RenderMember;
    ScanRenderedMember(m, [COMMA] + rest);
    assert ([COMMA] + rest)[1..] == rest && ([COMMA] + rest)[0] == COMMA;
  }

  lemma ScanLastMember(ms: seq<Member>)
    requires |ms| == 1 && Printable(ms[0])
    ensures ScanMembers(RenderMembers(ms) + [CLOSE]) == Some(ms)
  {
    hide Printable, ScanMember, RenderMember;
    ScanRenderedMember(ms[0], [CLOSE]);
    assert ms == [ms[0]];
  }

  lemma ScanMoreMembers(ms: seq<Member>)
    requires |ms| > 1 && Printable(ms[0])
    requires ScanMembers(RenderMembers(ms[1..]) + [CLOSE]) == Some(ms[1..])
    ensures ScanMembers(RenderMembers(ms) + [CLOSE]) == Some(ms)
  {
    hide Printable, ScanMembers, RenderMember;
    var rest := RenderMembers(ms[1..]) + [CLOSE];
    assert RenderMembers(ms) + [CLOSE] == RenderMember(ms[0]) + ([COMMA] + rest);
    ScanFirstMember(ms[0], rest);
    assert ms == [ms[0]] + ms[1..];
  }

  lemma {:induction false} ScanRenderedMembers(ms: seq<Member>)
    requires ms != [] && AllPrintable(ms)
    ensures ScanMembers(RenderMembers(ms) + [CLOSE]) == Some(ms)
  {
    hide Printable, ScanMembers, RenderMember;
    if |ms| == 1 {
      ScanLastMember(ms);
    } else {
      ScanRenderedMembers(ms[1..]);
      ScanMoreMembers(ms);
    }
  }

  lemma ScanNonEmpty(body: Bytes)
    requires body != []
    ensures ScanObject([OPEN] + body + [CLOSE]) == ScanMembers(body + [CLOSE])
  {
    hide ScanMembers;
    var s := [OPEN] + body + [CLOSE];
    assert |s| > 2 && s[0] == OPEN && s[1..] == body + [CLOSE];
  }

  // Scanning undoes printing, for every flat object.
  lemma ScanRendered(ms: seq<Member>)
    requires AllPrintable(ms)
    ensures ScanObject(RenderObject(ms)) == Some(ms)
  {
    if ms != [] {
      hide ScanMembers, ScanObject, RenderMember, AllPrintable;
      assert RenderMembers(ms) != [];
      ScanNonEmpty(RenderMembers(ms));
      ScanRenderedMembers(ms);
    }
  }
}
