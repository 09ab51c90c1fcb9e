// The LZ11 layout digit by digit, and a stream decoded by hand
// (tools/fix-banner-texture.py:33-83).

module Lz11Format {
  import opened Arithmetic
  import opened Common
  import opened Lz11

  // The three forms of a reference, in hexadecimal digits: the first digit tells the form,
  // the last three are the distance less one.
  lemma ReadForms(k: nat, a: nat, b: nat, mid: Byte, high: nat, low: Byte, rest: Bytes)
    requires 2 <= k < 16 && a < 16 && b < 16 && high < 16
    ensures ReadToken([16 * k + high, low] + rest, true) == Some((Copy(k + 1, 256 * high + low), 2))
    ensures ReadToken([a, 16 * b + high, low] + rest, true) == Some((Copy(16 * a + b + 17, 256 * high + low), 3))
    ensures ReadToken([16 + a, mid, 16 * b + high, low] + rest, true) ==
      Some((Copy(4096 * a + 16 * mid as int + b + 273, 256 * high + low), 4))
    ensures ReadToken([low] + rest, false) == Some((Literal(low), 1))
  {
    Divide(16 * k + high, 16, k, high);
    Divide(16 * b + high, 16, b, high);
    Divide(16 + a, 16, 1, a);
  }

  // The first byte is 0x11 and the next three are the size, least significant first.
  lemma HeaderMeans(size: nat, data: Bytes, rest: Bytes)
    requires size < 0x100_0000
    ensures Decompressed([0x11, size % 0x100, size / 0x100 % 0x100, size / 0x1_0000] + rest) == DecodeFrom(rest, 0, 8, [], size)
    ensures |data| < 4 || data[0] != 0x11 ==> Decompressed(data) == None
  {
    var s := [0x11, size % 0x100, size / 0x100 % 0x100, size / 0x1_0000] + rest;
    assert s[4..] == rest;
    assert size == size % 0x100 + 0x100 * (size / 0x100 % 0x100) + 0x1_0000 * (size / 0x1_0000) by {
      assert size / 0x1_0000 == size / 0x100 / 0x100;
    }
  }

  lemma TakeFlags(flags: Byte, rest: Bytes, out: Bytes, size: nat)
    requires |out| < size
    ensures DecodeFrom([flags] + rest, 0, 8, out, size) == DecodeFrom(rest, flags, 0, out, size)
  {
    assert ([flags] + rest)[1..] == rest;
  }

  lemma TakeLiteral(b: Byte, rest: Bytes, flags: Byte, bit: nat, out: Bytes, size: nat)
    requires bit < 8 && !Flagged(flags, bit) && |out| < size
    ensures DecodeFrom([b] + rest, flags, bit, out, size) == DecodeFrom(rest, flags, bit + 1, out + [b], size)
  {
    assert ([b] + rest)[1..] == rest;
  }

  lemma TakeCopy(first: Byte, second: Byte, count: nat, disp: nat, flags: Byte, bit: nat, out: Bytes, size: nat)
    requires bit < 8 && Flagged(flags, bit) && |out| < size && disp < |out| && count > 0
    requires ReadToken([first, second], true) == Some((Copy(count, disp), 2))
    ensures DecodeFrom([first, second], flags, bit, out, size) == DecodeFrom([], flags, bit + 1, CopyBack(out, disp, count), size)
  {
    hide ReadToken, CopyBack;
    PythonCopyIsCopyBack(out, disp, count);
  }

  // Three literals and a reference three bytes back: abc, then five bytes from there on. The
  // highest bit of the flag byte is the first token's.
  lemma SampleStream()
    ensures Decompressed([0x11, 8, 0, 0, 0x10, 0x61, 0x62, 0x63, 0x40, 0x02]) == Some([0x61, 0x62, 0x63, 0x61, 0x62, 0x63, 0x61, 0x62])
  {
    hide DecodeFrom, ReadToken;
    var tail: Bytes := [0x40, 0x02];
    var body: Bytes := [0x10, 0x61, 0x62, 0x63];
    assert [0x10] + ([0x61, 0x62, 0x63] + tail) == body + tail;
    assert [0x61] + ([0x62, 0x63] + tail) == [0x61, 0x62, 0x63] + tail;
    assert [0x62] + ([0x63] + tail) == [0x62, 0x63] + tail;
    assert [0x11, 8, 0, 0] + (body + tail) == [0x11, 8, 0, 0, 0x10, 0x61, 0x62, 0x63, 0x40, 0x02];
    assert !Flagged(0x10, 0) && !Flagged(0x10, 1) && !Flagged(0x10, 2);
    HeaderMeans(8, [], body + tail);
    TakeFlags(0x10, [0x61, 0x62, 0x63] + tail, [], 8);
    assert [] + [0x61] == [0x61] && [0x61] + [0x62] == [0x61, 0x62] && [0x61, 0x62] + [0x63] == [0x61, 0x62, 0x63];
    TakeLiteral(0x61, [0x62, 0x63] + tail, 0x10, 0, [], 8);
    TakeLiteral(0x62, [0x63] + tail, 0x10, 1, [0x61], 8);
    TakeLiteral(0x63, tail, 0x10, 2, [0x61, 0x62], 8);
    SampleReference();
  }

  lemma SampleReference()
    ensures DecodeFrom([0x40, 0x02], 0x10, 3, [0x61, 0x62, 0x63], 8) == Some([0x61, 0x62, 0x63, 0x61, 0x62, 0x63, 0x61, 0x62])
  {
    hide DecodeFrom, ReadToken;
    assert Flagged(0x10, 3);
    ReadForms(4, 0, 0, 0, 0, 2, []);
    assert [0x40, 0x02] + [] == [0x40, 0x02];
    TakeCopy(0x40, 0x02, 5, 2, 0x10, 3, [0x61, 0x62, 0x63], 8);
    CopySample();
    Enough([], 0x10, 4, [0x61, 0x62, 0x63, 0x61, 0x62, 0x63, 0x61, 0x62]);
  }

  lemma Enough(s: Bytes, flags: Byte, bit: nat, out: Bytes)
    requires bit <= 8
    ensures DecodeFrom(s, flags, bit, out, |out|) == Some(out)
  {
    assert out[..|out|] == out;
  }

  lemma CopySample()
    ensures CopyBack([0x61, 0x62, 0x63], 2, 5) == [0x61, 0x62, 0x63, 0x61, 0x62, 0x63, 0x61, 0x62]
  {
    var out: Bytes := [0x61, 0x62, 0x63];
    var r := CopyBack(out, 2, 5);
    assert r[..3] == out;
    CopyBackIsPeriodic(out, 2, 5, 3);
    CopyBackIsPeriodic(out, 2, 5, 4);
    CopyBackIsPeriodic(out, 2, 5, 5);
    CopyBackIsPeriodic(out, 2, 5, 6);
    CopyBackIsPeriodic(out, 2, 5, 7);
    assert r[0] == 0x61 && r[1] == 0x62 && r[2] == 0x63;
  }

  // A stored stream: byte i stands behind one zero for every eight bytes begun.
  lemma {:induction false} StoredByte(raw: Bytes, i: nat)
    requires i < |raw|
    ensures |StoredGroups(raw)| == |raw| + (|raw| + 7) / 8
    ensures i + i / 8 + 1 < |StoredGroups(raw)| && StoredGroups(raw)[i + i / 8 + 1] == raw[i]
    ensures StoredGroups(raw)[i / 8 * 9] == 0
    decreases |raw|
  {
    if |raw| > 8 {
      if i < 8 {
        StoredByte(raw[8..], 0);
      } else {
        StoredByte(raw[8..], i - 8);
        assert i / 8 == (i - 8) / 8 + 1;
      }
    } else {
      assert StoredGroups([]) == [];
      assert raw[|raw|..] == [];
    }
  }

  // Which references can be written, and which mean something behind given bytes.
  lemma TokensCovered(b: Byte, count: nat, disp: nat, out: Bytes)
    ensures Encodable(Literal(b)) && CanApply(Literal(b), out)
    ensures Encodable(Copy(count, disp)) <==> 3 <= count <= 65808 && disp <= 4095
    ensures CanApply(Copy(count, disp), out) <==> 3 <= count <= 65808 && disp <= 4095 && disp < |out|
  {
  }

  // A reference in front of the start counts from the end, as Python does, and raises when
  // that is in front of the start as well.
  lemma WrappedReference(out: Bytes, disp: nat, count: nat)
    requires count > 0 && disp >= |out|
    ensures ApplyRead(Copy(count, disp), out).None? <== disp >= 2 * |out|
    ensures disp < 2 * |out| && ApplyRead(Copy(count, disp), out).Some? ==>
      ApplyRead(Copy(count, disp), out).value[|out|] == out[2 * |out| - disp - 1]
  {
    if disp < 2 * |out| {
      CopyKeeps(out + [out[2 * |out| - disp - 1]], |out| - disp, count - 1);
    }
  }

  lemma {:induction false} CopyKeeps(out: Bytes, start: int, count: nat)
    ensures PythonCopy(out, start, count).Some? ==> out <= PythonCopy(out, start, count).value
    decreases count
  {
    var j := PythonIndex(start, |out|);
    if count > 0 && 0 <= j < |out| {
      CopyKeeps(out + [out[j]], start + 1, count - 1);
    }
  }

  // The rebuilt header is 0x88 bytes long and differs from the old one only in the offset of
  // the stream at 0x08 and that of the audio at 0x84, least significant byte first.
  lemma HeaderFields(banner: Bytes, cgfxOff: nat, cwavOff: nat, i: nat)
    requires |banner| >= 0x88 && cgfxOff < U32_LIMIT && cwavOff < U32_LIMIT && i < 0x88
    ensures
      var h := RebuiltHeader(banner, cgfxOff, cwavOff);
      && |h| == 0x88
      && (!(0x08 <= i < 0x0C) && !(0x84 <= i < 0x88) ==> h[i] == banner[i])
      && h[0x08] as int + 0x100 * h[0x09] as int + 0x1_0000 * h[0x0A] as int + 0x100_0000 * h[0x0B] as int == cgfxOff
      && h[0x84] as int + 0x100 * h[0x85] as int + 0x1_0000 * h[0x86] as int + 0x100_0000 * h[0x87] as int == cwavOff
  {
    FourDigits(cgfxOff);
    FourDigits(cwavOff);
    FieldSet(banner[..0x88], 0x08, cgfxOff);
    FieldSet(PutLe32(banner[..0x88], 0x08, cgfxOff), 0x84, cwavOff);
  }

  lemma FieldSet(s: Bytes, at: nat, n: nat)
    requires at + 4 <= |s| && n < U32_LIMIT
    ensures
      var r := PutLe32(s, at, n);
      && |r| == |s| && (forall i :: 0 <= i < |s| && !(at <= i < at + 4) ==> r[i] == s[i])
      && r[at] == n % 0x100 && r[at + 1] == n / 0x100 % 0x100 && r[at + 2] == n / 0x1_0000 % 0x100 && r[at + 3] == n / 0x100_0000
  {
  }
}
