// The bounded string builder (core/src/util/strbuf.c) against the text it would hold if
// it had no bound.

module Strbuf {
  import opened Arithmetic
  import opened Common
  import Utf8

  // The result codes the text layer and the archive layer return (result.h).
  datatype Status =
    | Success
    | BufferTooSmall
    | ParseError
    | InvalidManifest
    | ArchiveError
    | IoError
    | NotFound
    | ChecksumMismatch

  // A code that says something failed.
  type Code = s: Status | s != Success witness IoError

  // ------------------------------------------------------------- what is written

  predicate NulFree(s: Bytes) { 0 !in s }

  // What a reader of a C string sees of a buffer: everything before the first NUL.
  function CString(s: Bytes): (r: Bytes)
    ensures NulFree(r) && r <= s
  {
    if s == [] || s[0] == 0 then [] else [s[0]] + CString(s[1..])
  }

  lemma {:induction false} CStringWhole(s: Bytes)
    requires NulFree(s)
    ensures CString(s) == s
  {
    if s != [] {
      CStringWhole(s[1..]);
    }
  }

  function Ten(n: nat): (r: nat)
    ensures r > 0
  {
    if n == 0 then 1 else 10 * Ten(n - 1)
  }

  // The digits of a number; none for zero.
  function Digits(w: nat): (r: Bytes)
    ensures forall i :: 0 <= i < |r| ==> 0x30 <= r[i] <= 0x39
  {
    if w == 0 then [] else Digits(w / 10) + [0x30 + w % 10]
  }

  // A number in decimal, without leading zeros.
  function Decimal(v: nat): (r: Bytes)
    ensures |r| > 0
    ensures forall i :: 0 <= i < |r| ==> 0x30 <= r[i] <= 0x39
  {
    if v == 0 then [0x30] else Digits(v)
  }

  lemma {:induction false} DigitsAt(w: nat, k: nat)
    requires k < |Digits(w)|
    ensures Digits(w)[|Digits(w)| - 1 - k] == 0x30 + w / Ten(k) % 10
    ensures Digits(w)[0] != 0x30
  {
    if k > 0 {
      DigitsAt(w / 10, k - 1);
      Shorten(w, Ten(k - 1));
    }
    if w >= 10 {
      DigitsAt(w / 10, 0);
    }
  }

  lemma Shorten(w: nat, d: nat)
    requires d > 0
    ensures w / 10 / d == w / (10 * d)
  {
    var q, r := w / 10, w / 10 % d;
    assert q == d * (q / d) + r;
    assert w == (q / d) * (10 * d) + (10 * r + w % 10);
    Divide(w, 10 * d, q / d, 10 * r + w % 10);
  }

  // Place k from the right has the digit with the weight 10^k, and the first digit is zero
  // only for zero.
  lemma DecimalMeans(v: nat, k: nat)
    requires k < |Decimal(v)|
    ensures Decimal(v)[|Decimal(v)| - 1 - k] == Ascii("0")[0] + v / Ten(k) % 10
    ensures Decimal(v)[0] == Ascii("0")[0] <==> v == 0
    ensures Ten(0) == 1 && Ten(1) == 10 && Ten(k + 1) == 10 * Ten(k)
  {
    if v > 0 {
      DigitsAt(v, k);
    }
  }

  lemma {:induction false} DigitsLength(w: nat, n: nat)
    requires w < Ten(n)
    ensures |Digits(w)| <= n
  {
    if w > 0 {
      DigitsLength(w / 10, n - 1);
    }
  }

  lemma {:induction false} TenSum(m: nat, n: nat)
    ensures Ten(m + n) == Ten(m) * Ten(n)
  {
    if m > 0 {
      TenSum(m - 1, n);
      assert Ten(m + n) == 10 * (Ten(m - 1) * Ten(n)) == Ten(m) * Ten(n);
    }
  }

  // A 64 bit number has at most twenty digits.
  lemma U64Digits(v: U64)
    ensures |Decimal(v)| <= 20
  {
    assert Ten(5) == 100_000;
    TenSum(5, 5);
    TenSum(10, 10);
    DigitsLength(v, 20);
  }

  // How the low digit moves from the number to the digits laid out so far.
  lemma DigitsStep(w: nat, rest: Bytes)
    requires w > 0
    ensures Digits(w) + rest == Digits(w / 10) + ([0x30 + w % 10] + rest)
  {
  }

  // The digits are laid out from the end of a small table. They always fit it, so the
  // guard i > 0 of the loop never ends it early.
  method LayDigits(tmp: array<Byte>, v: U64) returns (i: nat)
    requires tmp.Length == 24
    modifies tmp
    ensures i <= 24 && tmp[i..] == Decimal(v)
  {
    ghost var all := Decimal(v);
    U64Digits(v);
    var w: nat := v / 10;
    i := 23;
    tmp[i] := 0x30 + v % 10;
    assert tmp[i..] == [0x30 + v % 10];
    while w != 0 && i > 0
      invariant 0 < i <= 23
      invariant Digits(w) + tmp[i..] == all
      decreases i
    {
      ghost var rest := tmp[i..];
      DigitsStep(w, rest);
      assert |Digits(w)| > 0;
      i := i - 1;
      tmp[i] := 0x30 + w % 10;
      assert tmp[i..] == [0x30 + w % 10] + rest;
      w := w / 10;
    }
  }

  // The letter behind the backslash of a short escape; 0 when the byte has none.
  function Letter(b: Byte): Byte {
    if b == 0x22 then 0x22
    else if b == 0x5C then 0x5C
    else if b == 0x0A then 0x6E
    else if b == 0x0D then 0x72
    else if b == 0x09 then 0x74
    else if b == 0x08 then 0x62
    else if b == 0x0C then 0x66
    else 0
  }

  // A byte inside a JSON string: section 7 of RFC 8259.
  function EscapeByte(b: Byte): (r: Bytes)
    ensures 1 <= |r| <= 6
  {
    if Letter(b) != 0 then [0x5C, Letter(b)]
    else if b < 0x20 then [0x5C, 0x75, 0x30, 0x30, HexDigit(b / 16), HexDigit(b % 16)]
    else [b]
  }

  // The short escapes of section 7 of RFC 8259 are used where there is one, four digits for
  // the other control characters, and everything else stays as it is.
  const WITH_LETTER: Bytes := [0x22, 0x5C, 0x08, 0x0C, 0x0A, 0x0D, 0x09]
  const LETTERS_FOR: Bytes := [0x22, 0x5C, 0x62, 0x66, 0x6E, 0x72, 0x74]

  lemma EscapeForms(b: Byte, k: nat)
    requires k < |WITH_LETTER|
    ensures EscapeByte(WITH_LETTER[k]) == [0x5C, LETTERS_FOR[k]]
    ensures b !in WITH_LETTER && b < 0x10 ==> EscapeByte(b) == Ascii("\\u000") + [HexDigit(b)]
    ensures b !in WITH_LETTER && 0x10 <= b < 0x20 ==> EscapeByte(b) == Ascii("\\u001") + [HexDigit(b - 0x10)]
    ensures b !in WITH_LETTER && b >= 0x20 ==> EscapeByte(b) == [b]
  {
    var s := WITH_LETTER;
    assert s[0] == 0x22 && s[1] == 0x5C && s[2] == 0x08 && s[3] == 0x0C && s[4] == 0x0A && s[5] == 0x0D && s[6] == 0x09;
  }

  // The digits HexDigit gives are the lower case ones.
  lemma HexDigitMeans(n: nat)
    requires n < 16
    ensures [HexDigit(n)] == Ascii("0123456789abcdef")[n..n + 1]
  {
  }

  function Escape(s: Bytes): Bytes {
    if s == [] then [] else EscapeByte(s[0]) + Escape(s[1..])
  }

  lemma {:induction false} EscapeConcat(a: Bytes, b: Bytes)
    ensures Escape(a + b) == Escape(a) + Escape(b)
  {
    if a == [] {
      assert a + b == b;
    } else {
      assert (a + b)[1..] == a[1..] + b;
      EscapeConcat(a[1..], b);
    }
  }

  lemma EscapeNext(s: Bytes, i: nat)
    requires i < |s|
    ensures Escape(s[..i + 1]) == Escape(s[..i]) + EscapeByte(s[i])
  {
    assert s[..i + 1] == s[..i] + [s[i]] && [s[i]][1..] == [];
    EscapeConcat(s[..i], [s[i]]);
  }

  lemma {:induction false} EscapeLength(s: Bytes)
    ensures |s| <= |Escape(s)| <= 6 * |s|
  {
    if s != [] {
      EscapeLength(s[1..]);
    }
  }

  // The first limit bytes.
  function Take(s: Bytes, limit: nat): (r: Bytes)
    ensures r <= s && |r| <= limit
  {
    if |s| <= limit then s else s[..limit]
  }

  // ------------------------------------------------------------------- the builder

  // daemoon_strbuf_t. The buffer belongs to the caller.
  class Builder {
    const buf: array<Byte>
    var len: nat
    var overflow: bool
    ghost var ideal: Bytes // everything added since the last start

    ghost predicate Valid()
      reads this, buf
    {
      && (overflow <==> |ideal| >= buf.Length)
      && len <= |ideal| && len <= buf.Length && buf[..len] == ideal[..len]
      && (buf.Length == 0 ==> len == 0)
      && (buf.Length > 0 ==> len < buf.Length && buf[len] == 0)
      && (overflow && buf.Length > 0 ==> len == buf.Length - 1)
      && (!overflow ==> len == |ideal|)
    }

    // daemoon_strbuf_init
    constructor (buf: array<Byte>)
      modifies buf
      ensures Valid() && this.buf == buf && ideal == []
    {
      this.buf := buf;
      len := 0;
      overflow := buf.Length == 0;
      ideal := [];
      new;
      if buf.Length > 0 {
        buf[0] := 0;
      }
    }

    // daemoon_strbuf_addn, and daemoon_strbuf_add for a whole C string. A NULL pointer
    // adds what an empty string adds.
    method Add(s: Bytes)
      requires Valid()
      modifies this, buf
      ensures Valid() && ideal == old(ideal) + s
    {
      ideal := ideal + s;
      if |s| == 0 {
        return;
      }
      if buf.Length == 0 {
        overflow := true;
        return;
      }
      var n := |s|;
      var room := buf.Length - len - 1;
      if n > room {
        n := room;
        overflow := true;
      }
      Copy(s[..n]);
      len := len + n;
      buf[len] := 0;
    }

    // memcpy behind the text.
    method Copy(s: Bytes)
      requires len + |s| <= buf.Length
      modifies buf
      ensures buf[..len + |s|] == old(buf[..len]) + s
    {
      var i := 0;
      while i < |s|
        invariant 0 <= i <= |s|
        invariant buf[..len + i] == old(buf[..len]) + s[..i]
      {
        buf[len + i] := s[i];
        i := i + 1;
      }
    }

    // daemoon_strbuf_addc
    method AddChar(c: Byte)
      requires Valid()
      modifies this, buf
      ensures Valid() && ideal == old(ideal) + [c]
    {
      Add([c]);
    }

    // daemoon_strbuf_add_uint
    method AddUint(v: U64)
      requires Valid()
      modifies this, buf
      ensures Valid() && ideal == old(ideal) + Decimal(v)
    {
      var tmp := new Byte[24](_ => 0);
      var i := LayDigits(tmp, v);
      Add(tmp[i..]);
    }

    // daemoon_strbuf_add_json
    method AddJson(s: Bytes)
      requires Valid() && NulFree(s)
      modifies this, buf
      ensures Valid() && ideal == old(ideal) + Escape(s)
    {
      var p := 0;
      while p < |s|
        invariant 0 <= p <= |s| && Valid()
        invariant ideal == old(ideal) + Escape(s[..p])
      {
        EscapeNext(s, p);
        AddEscaped(s[p]);
        p := p + 1;
      }
      assert s[..p] == s;
    }

    method AddEscaped(b: Byte)
      requires Valid()
      modifies this, buf
      ensures Valid() && ideal == old(ideal) + EscapeByte(b)
    {
      if b == 0x22 {
        Add([0x5C, 0x22]);
      } else if b == 0x5C {
        Add([0x5C, 0x5C]);
      } else if b == 0x0A {
        Add([0x5C, 0x6E]);
      } else if b == 0x0D {
        Add([0x5C, 0x72]);
      } else if b == 0x09 {
        Add([0x5C, 0x74]);
      } else if b == 0x08 {
        Add([0x5C, 0x62]);
      } else if b == 0x0C {
        Add([0x5C, 0x66]);
      } else if b < 0x20 {
        Add([0x5C, 0x75, 0x30, 0x30]);
        AddChar(HexDigit(b / 16));
        AddChar(HexDigit(b % 16));
      } else {
        AddChar(b);
      }
    }

    // What a caller does with a full buffer: the text is cut back to a boundary that
    // trim_partial finds.
    method CutBack() returns (n: nat)
      requires Valid() && overflow && buf.Length > 0
      modifies buf
      ensures n == Utf8.Trim(ideal[..buf.Length - 1]) && n < buf.Length
      ensures buf[..n] == ideal[..n] && buf[n] == 0
    {
      n := Utf8.TrimPartial(buf[..len]);
      assert buf[..n] == buf[..len][..n] == ideal[..n];
      buf[n] := 0;
    }

    // daemoon_strbuf_result
    method Result() returns (r: Status)
      requires Valid()
      ensures r == if |ideal| < buf.Length then Success else BufferTooSmall
      ensures r.Success? ==> buf[..len] == ideal && len == |ideal|
    {
      r := if overflow then BufferTooSmall else Success;
    }
  }

  // memcpy and the NUL behind it.
  method Terminate(dst: array<Byte>, src: Bytes)
    requires |src| < dst.Length
    modifies dst
    ensures dst[..|src|] == src && dst[|src|] == 0
  {
    var i := 0;
    while i < |src|
      invariant 0 <= i <= |src|
      invariant dst[..i] == src[..i]
    {
      dst[i] := src[i];
      i := i + 1;
    }
    dst[|src|] := 0;
  }

  // What of a string survives copying into cap bytes.
  function Copied(src: Bytes, cap: nat): (r: Bytes)
    requires cap > 0
    ensures |r| < cap && r <= src
    ensures |src| < cap ==> r == src
  {
    src[..Utf8.Cut(src, cap - 1)]
  }

  // daemoon_strlcpy: the whole string, or its part up to a character boundary.
  method CopyString(dst: array<Byte>, src: Bytes) returns (r: Status)
    requires NulFree(src)
    modifies dst
    ensures r == if |src| < dst.Length then Success else BufferTooSmall
    ensures dst.Length > 0 ==> CString(dst[..]) == Copied(src, dst.Length)
  {
    if dst.Length == 0 {
      return BufferTooSmall;
    }
    var n := |src|;
    r := Success;
    if n >= dst.Length {
      n := Utf8.Truncate(src, dst.Length - 1);
      r := BufferTooSmall;
    }
    Terminate(dst, src[..n]);
    CStringEnds(dst[..], n);
    assert dst[..][..n] == src[..n];
  }

  // A buffer with a NUL in it reads as the part before it does.
  lemma {:induction false} CStringStops(s: Bytes, n: nat)
    requires n < |s| && s[n] == 0
    ensures CString(s) == CString(s[..n])
  {
    if n > 0 {
      assert s[..n][0] == s[0] && s[1..][..n - 1] == s[..n][1..];
      CStringStops(s[1..], n - 1);
    }
  }

  lemma CStringEnds(s: Bytes, n: nat)
    requires n < |s| && s[n] == 0 && NulFree(s[..n])
    ensures CString(s) == s[..n]
  {
    CStringStops(s, n);
    CStringWhole(s[..n]);
  }
}
