// LZ11 streams (tools/fix-banner-texture.py:33-83) and the banner rebuilt around one
// (lines 123-145).

module Lz11 {
  import opened Arithmetic
  import opened Common

  const MAGIC: Byte := 0x11
  const SIZE_LIMIT: nat := 0x100_0000

  // ------------------------------------------------------------------------- tokens

  // A literal byte, or count bytes copied from disp + 1 places back.
  datatype Token = Literal(b: Byte) | Copy(count: nat, disp: nat)

  // count bytes, each the one disp + 1 places before it; the copy may overlap itself.
  function CopyBack(out: Bytes, disp: nat, count: nat): (r: Bytes)
    requires disp < |out|
    ensures |r| == |out| + count && r[..|out|] == out
    decreases count
  {
    if count == 0 then out else CopyBack(out + [out[|out| - disp - 1]], disp, count - 1)
  }

  lemma {:induction false} CopyBackIsPeriodic(out: Bytes, disp: nat, count: nat, j: nat)
    requires disp < |out| && |out| <= j < |out| + count
    ensures CopyBack(out, disp, count)[j] == CopyBack(out, disp, count)[j - disp - 1]
    decreases count
  {
    var next := out + [out[|out| - disp - 1]];
    var r := CopyBack(next, disp, count - 1);
    if j == |out| {
      assert r[..|next|] == next;
      assert r[j] == next[j] && r[j - disp - 1] == next[j - disp - 1];
    } else {
      CopyBackIsPeriodic(next, disp, count - 1, j);
    }
  }

  predicate CanApply(t: Token, out: Bytes) {
    t.Copy? ==> 3 <= t.count <= 65808 && t.disp < 4096 && t.disp < |out|
  }

  function Apply(t: Token, out: Bytes): (r: Bytes)
    requires CanApply(t, out)
    ensures |r| > |out| && r[..|out|] == out
  {
    if t.Literal? then out + [t.b] else CopyBack(out, t.disp, t.count)
  }

  predicate CanExpand(ts: seq<Token>, out: Bytes) {
    ts == [] || (CanApply(ts[0], out) && CanExpand(ts[1..], Apply(ts[0], out)))
  }

  // What a list of tokens stands for.
  function Expand(ts: seq<Token>, out: Bytes): (r: Bytes)
    requires CanExpand(ts, out)
    ensures |r| >= |out| + |ts| && r[..|out|] == out
  {
    if ts == [] then out else Expand(ts[1..], Apply(ts[0], out))
  }

  // ----------------------------------------------------------------- the bit layout

  // The three forms of a back reference. Each covers its own lengths.
  predicate ShortForm(count: nat) { 3 <= count <= 0x10 }

  predicate MiddleForm(count: nat) { 0x11 <= count <= 0x110 }

  predicate LongForm(count: nat) { 0x111 <= count <= 65808 }

  function TokenBytes(t: Token): (r: Bytes)
    requires t.Copy? ==> 3 <= t.count <= 65808 && t.disp < 4096
    ensures |r| > 0
  {
    if t.Literal? then [t.b]
    else if ShortForm(t.count) then [(t.count - 1) * 16 + t.disp / 256, t.disp % 256]
    else if MiddleForm(t.count) then
      var c := t.count - 0x11;
      [c / 16, c % 16 * 16 + t.disp / 256, t.disp % 256]
    else
      var c := t.count - 0x111;
      [0x10 + c / 4096, c / 16 % 256, c % 16 * 16 + t.disp / 256, t.disp % 256]
  }

  // The weight of bit number b of a flag byte, most significant first: 0x80 >> b.
  function Weight(b: nat): nat
    requires b < 8
  {
    match b
    case 0 => 0x80
    case 1 => 0x40
    case 2 => 0x20
    case 3 => 0x10
    case 4 => 0x08
    case 5 => 0x04
    case 6 => 0x02
    case 7 => 0x01
  }

  predicate Flagged(flags: Byte, b: nat)
    requires b < 8
  {
    flags / Weight(b) % 2 == 1
  }

  function One(ts: seq<Token>, b: nat): nat {
    if b < |ts| && ts[b].Copy? then 1 else 0
  }

  // The flag byte of a group of at most eight tokens.
  function FlagByte(ts: seq<Token>): Byte {
    0x80 * One(ts, 0) + 0x40 * One(ts, 1) + 0x20 * One(ts, 2) + 0x10 * One(ts, 3)
    + 0x08 * One(ts, 4) + 0x04 * One(ts, 5) + 0x02 * One(ts, 6) + One(ts, 7)
  }

  // A bit is found by dividing away what is below it: high carries the bits above, bit is
  // the one asked for, low what is below.
  lemma BitOf(high: nat, bit: nat, low: nat, weight: nat)
    requires weight > 0 && bit <= 1 && low < weight
    ensures ((2 * high + bit) * weight + low) / weight % 2 == bit
  {
    var q := 2 * high + bit;
    assert (q * weight + low) / weight == q by {
      Divide(q * weight + low, weight, q, low);
    }
  }

  // Eight bits by their weights.
  ghost predicate Bits(f: seq<nat>, n: nat) {
    && |f| == 8 && (forall i :: 0 <= i < 8 ==> f[i] <= 1)
    && n == 0x80 * f[0] + 0x40 * f[1] + 0x20 * f[2] + 0x10 * f[3] + 8 * f[4] + 4 * f[5] + 2 * f[6] + f[7]
  }

  lemma UpperBit(f: seq<nat>, n: nat, b: nat)
    requires Bits(f, n) && b < 4
    ensures n / Weight(b) % 2 == f[b]
  {
    if b == 0 {
      BitOf(0, f[0], n - 0x80 * f[0], 0x80);
    } else if b == 1 {
      BitOf(f[0], f[1], n - 0x80 * f[0] - 0x40 * f[1], 0x40);
    } else if b == 2 {
      BitOf(2 * f[0] + f[1], f[2], 0x10 * f[3] + 8 * f[4] + 4 * f[5] + 2 * f[6] + f[7], 0x20);
    } else {
      BitOf(4 * f[0] + 2 * f[1] + f[2], f[3], 8 * f[4] + 4 * f[5] + 2 * f[6] + f[7], 0x10);
    }
  }

  lemma LowerBit(f: seq<nat>, n: nat, b: nat)
    requires Bits(f, n) && 4 <= b < 8
    ensures n / Weight(b) % 2 == f[b]
  {
    var high := 8 * f[0] + 4 * f[1] + 2 * f[2] + f[3];
    if b == 4 {
      BitOf(high, f[4], 4 * f[5] + 2 * f[6] + f[7], 8);
    } else if b == 5 {
      BitOf(2 * high + f[4], f[5], 2 * f[6] + f[7], 4);
    } else if b == 6 {
      BitOf(4 * high + 2 * f[4] + f[5], f[6], f[7], 2);
    } else {
      BitOf(8 * high + 4 * f[4] + 2 * f[5] + f[6], f[7], 0, 1);
    }
  }

  lemma OneSaysCopy(ts: seq<Token>, b: nat)
    ensures One(ts, b) == 1 <==> b < |ts| && ts[b].Copy?
  {
  }

  lemma FlagsSayWhichAreCopies(ts: seq<Token>, b: nat)
    requires b < 8
    ensures Flagged(FlagByte(ts), b) <==> b < |ts| && ts[b].Copy?
  {
    var f: seq<nat> := [One(ts, 0), One(ts, 1), One(ts, 2), One(ts, 3), One(ts, 4), One(ts, 5), One(ts, 6), One(ts, 7)];
    assert f[b] == One(ts, b);
    hide One, Weight;
    OneSaysCopy(ts, b);
    if b < 4 {
      UpperBit(f, FlagByte(ts), b);
    } else {
      LowerBit(f, FlagByte(ts), b);
    }
  }

  predicate Encodable(t: Token) {
    t.Copy? ==> 3 <= t.count <= 65808 && t.disp < 4096
  }

  predicate AllEncodable(ts: seq<Token>) { forall i :: 0 <= i < |ts| ==> Encodable(ts[i]) }

  function TokensBytes(ts: seq<Token>): Bytes
    requires AllEncodable(ts)
  {
    if ts == [] then [] else TokenBytes(ts[0]) + TokensBytes(ts[1..])
  }

  // Groups of eight tokens, each behind its flag byte.
  function GroupsBytes(ts: seq<Token>): Bytes
    requires AllEncodable(ts)
  {
    if ts == [] then []
    else
      var group := if |ts| < 8 then ts else ts[..8];
      [FlagByte(group)] + TokensBytes(group) + GroupsBytes(ts[|group|..])
  }

  function HeaderBytes(size: nat): Bytes
    requires size < SIZE_LIMIT
  {
    [MAGIC, size % 256, size / 256 % 256, size / 0x1_0000]
  }

  function Stream(ts: seq<Token>, size: nat): Bytes
    requires AllEncodable(ts) && size < SIZE_LIMIT
  {
    HeaderBytes(size) + GroupsBytes(ts)
  }

  // ----------------------------------------------------------------------- decoding

  // A token read from the front of s, and how many bytes it takes; None where the data
  // ends too early.
  function ReadToken(s: Bytes, flagged: bool): (r: Option<(Token, nat)>)
    ensures r.Some? ==> 1 <= r.value.1 <= |s| && (r.value.0.Copy? ==> r.value.0.count > 0)
  {
    if s == [] then None
    else if !flagged then Some((Literal(s[0]), 1))
    else if s[0] / 16 == 0 then
      if |s| < 3 then None
      else Some((Copy((s[0] % 16) as int * 16 + s[1] / 16 + 0x11, (s[1] % 16) as int * 256 + s[2]), 3))
    else if s[0] / 16 == 1 then
      if |s| < 4 then None
      else Some((Copy((s[0] % 16) as int * 4096 + s[1] as int * 16 + s[2] / 16 + 0x111, (s[2] % 16) as int * 256 + s[3]), 4))
    else if |s| < 2 then None
    else Some((Copy(s[0] / 16 + 1, (s[0] % 16) as int * 256 + s[1]), 2))
  }

  // An index of a Python sequence of n items: negative ones count from the end.
  function PythonIndex(i: int, n: nat): int { if i < 0 then n + i else i }

  // The copy loop as Python runs it: the source index moves on from start, and the
  // sequence it indexes grows. None where the index is outside.
  function PythonCopy(out: Bytes, start: int, count: nat): (r: Option<Bytes>)
    ensures r.Some? ==> |r.value| == |out| + count
    decreases count
  {
    if count == 0 then Some(out)
    else
      var j := PythonIndex(start, |out|);
      if 0 <= j < |out| then PythonCopy(out + [out[j]], start + 1, count - 1) else None
  }

  function ApplyRead(t: Token, out: Bytes): (r: Option<Bytes>)
    requires t.Copy? ==> t.count > 0
    ensures r.Some? ==> |r.value| > |out|
  {
    if t.Literal? then Some(out + [t.b]) else PythonCopy(out, |out| - t.disp - 1, t.count)
  }

  // Decoding the rest s of the data, at bit number bit of the current flag byte; bit 8
  // stands for the next flag byte being due.
  function DecodeFrom(s: Bytes, flags: Byte, bit: nat, out: Bytes, size: nat): Option<Bytes>
    requires bit <= 8
    decreases if size > |out| then size - |out| else 0, bit
  {
    if |out| >= size then Some(out[..size])
    else if bit == 8 then
      if s == [] then None else DecodeFrom(s[1..], s[0], 0, out, size)
    else
      var t := ReadToken(s, Flagged(flags, bit));
      if t.None? then None
      else
        var next := ApplyRead(t.value.0, out);
        if next.None? then None else DecodeFrom(s[t.value.1..], flags, bit + 1, next.value, size)
  }

  // What lz11_decompress returns; None where it raises.
  function Decompressed(data: Bytes): Option<Bytes> {
    if data == [] || data[0] != MAGIC || |data| < 4 then None
    else DecodeFrom(data[4..], 0, 8, [], data[1] as int + 0x100 * data[2] as int + 0x1_0000 * data[3] as int)
  }

  method CopyLoop(out: Bytes, start: int, count: nat) returns (r: Option<Bytes>)
    ensures r == PythonCopy(out, start, count)
  {
    var buffer := out;
    var k := 0;
    while k < count
      invariant 0 <= k <= count
      invariant PythonCopy(out, start, count) == PythonCopy(buffer, start + k, count - k)
    {
      var j := PythonIndex(start + k, |buffer|);
      if !(0 <= j < |buffer|) {
        return None;
      }
      buffer := buffer + [buffer[j]];
      k := k + 1;
    }
    r := Some(buffer);
  }

  // The body of the inner loop: one token at position i.
  method DecodeToken(data: Bytes, i: nat, flagged: bool, out: Bytes) returns (r: Option<Bytes>, next: nat)
    requires i <= |data|
    ensures
      var t := ReadToken(data[i..], flagged);
      r == (if t.None? then None else ApplyRead(t.value.0, out)) && (r.Some? ==> next == i + t.value.1)
  {
    hide PythonCopy;
    ghost var s := data[i..];
    next := i;
    if i >= |data| {
      return None, i;
    }
    var b := data[i];
    assert s[0] == b;
    if !flagged {
      return Some(out + [b]), i + 1;
    }
    var count, disp;
    var kind := b / 16;
    if kind == 0 {
      if i + 3 > |data| {
        return None, i;
      }
      assert s[1] == data[i + 1] && s[2] == data[i + 2];
      count := (b % 16) as int * 16 + data[i + 1] / 16 + 0x11;
      disp := (data[i + 1] % 16) as int * 256 + data[i + 2];
      next := i + 3;
    } else if kind == 1 {
      if i + 4 > |data| {
        return None, i;
      }
      assert s[1] == data[i + 1] && s[2] == data[i + 2] && s[3] == data[i + 3];
      count := (b % 16) as int * 4096 + data[i + 1] as int * 16 + data[i + 2] / 16 + 0x111;
      disp := (data[i + 2] % 16) as int * 256 + data[i + 3];
      next := i + 4;
    } else {
      if i + 2 > |data| {
        return None, i;
      }
      assert s[1] == data[i + 1];
      count := kind + 1;
      disp := (b % 16) as int * 256 + data[i + 1];
      next := i + 2;
    }
    r := CopyLoop(out, |out| - disp - 1, count);
  }

  // lz11_decompress
  method Decompress(data: Bytes) returns (r: Option<Bytes>)
    ensures r == Decompressed(data)
  {
    hide ReadToken, ApplyRead, Flagged;
    if |data| == 0 || data[0] != MAGIC || |data| < 4 {
      return None;
    }
    var size := data[1] as int + 0x100 * data[2] as int + 0x1_0000 * data[3] as int;
    var i: nat, out: Bytes := 4, [];
    ghost var all := Decompressed(data);
    while |out| < size
      invariant i <= |data| && all == DecodeFrom(data[i..], 0, 8, out, size)
      decreases size - |out|
    {
      if i >= |data| {
        return None;
      }
      var flags := data[i];
      assert data[i..][1..] == data[i + 1..];
      i := i + 1;
      ghost var before := |out|;
      var bit := 0;
      while bit < 8 && |out| < size
        invariant 0 <= bit <= 8 && i <= |data| && |out| >= before && (bit > 0 ==> |out| > before)
        invariant all == DecodeFrom(data[i..], flags, bit, out, size)
      {
        var next, j := DecodeToken(data, i, Flagged(flags, bit), out);
        if next.None? {
          return None;
        }
        assert data[i..][j - i..] == data[j..];
        out := next.value;
        i := j;
        bit := bit + 1;
      }
      FlagsForgotten(data[i..], flags, bit, out, size);
    }
    r := Some(out[..size]);
  }

  // At a group's end, or with everything decoded, the old flags do not matter.
  lemma FlagsForgotten(s: Bytes, flags: Byte, bit: nat, out: Bytes, size: nat)
    requires bit <= 8 && (bit == 8 || |out| >= size)
    ensures DecodeFrom(s, flags, bit, out, size) == DecodeFrom(s, 0, 8, out, size)
  {
  }

  // ---------------------------------------------------------------------- properties

  // The three forms cover the lengths 3 to 65808 and never overlap.
  lemma FormsPartition(count: nat)
    ensures 3 <= count <= 65808 <==> ShortForm(count) || MiddleForm(count) || LongForm(count)
    ensures !(ShortForm(count) && MiddleForm(count)) && !(MiddleForm(count) && LongForm(count))
    ensures !(ShortForm(count) && LongForm(count))
  {
  }

  lemma Nibbles(high: nat, low: nat)
    requires low < 16
    ensures (high * 16 + low) / 16 == high && (high * 16 + low) % 16 == low
  {
    Divide(high * 16 + low, 16, high, low);
  }

  lemma ReadShort(t: Token, s: Bytes)
    requires t.Copy? && t.disp < 4096 && ShortForm(t.count) && TokenBytes(t) <= s
    ensures ReadToken(s, true) == Some((t, 2))
  {
    Nibbles(t.count - 1, t.disp / 256);
    assert s[0] == TokenBytes(t)[0] && s[1] == TokenBytes(t)[1];
  }

  lemma ReadMiddle(t: Token, s: Bytes)
    requires t.Copy? && t.disp < 4096 && MiddleForm(t.count) && TokenBytes(t) <= s
    ensures ReadToken(s, true) == Some((t, 3))
  {
    var c := t.count - 0x11;
    Nibbles(0, c / 16);
    Nibbles(c % 16, t.disp / 256);
    assert s[0] == TokenBytes(t)[0] && s[1] == TokenBytes(t)[1] && s[2] == TokenBytes(t)[2];
  }

  lemma ReadLong(t: Token, s: Bytes)
    requires t.Copy? && t.disp < 4096 && LongForm(t.count) && TokenBytes(t) <= s
    ensures ReadToken(s, true) == Some((t, 4))
  {
    var c := t.count - 0x111;
    Nibbles(1, c / 4096);
    Nibbles(c % 16, t.disp / 256);
    ThreeDigits(c);
    assert s[0] == TokenBytes(t)[0] && s[1] == TokenBytes(t)[1] && s[2] == TokenBytes(t)[2] && s[3] == TokenBytes(t)[3];
  }

  lemma ThreeDigits(c: nat)
    ensures c == c / 4096 * 4096 + c / 16 % 256 * 16 + c % 16
  {
    assert c / 4096 == c / 16 / 256;
  }

  // Reading a token undoes writing it, in every form.
  lemma ReadUndoesWrite(t: Token, rest: Bytes)
    requires Encodable(t)
    ensures ReadToken(TokenBytes(t) + rest, t.Copy?) == Some((t, |TokenBytes(t)|))
  {
    var s := TokenBytes(t) + rest;
    assert TokenBytes(t) <= s;
    if t.Literal? {
      assert s[0] == t.b;
    } else {
      hide ReadToken;
      FormsPartition(t.count);
      if ShortForm(t.count) {
        ReadShort(t, s);
      } else if MiddleForm(t.count) {
        ReadMiddle(t, s);
      } else {
        ReadLong(t, s);
      }
    }
  }

  // For an in-range reference the Python loop copies what the token means.
  lemma {:induction false} PythonCopyIsCopyBack(out: Bytes, disp: nat, count: nat)
    requires disp < |out|
    ensures PythonCopy(out, |out| - disp - 1, count) == Some(CopyBack(out, disp, count))
    decreases count
  {
    if count > 0 {
      PythonCopyIsCopyBack(out + [out[|out| - disp - 1]], disp, count - 1);
    }
  }

  lemma ApplyReadIsApply(t: Token, out: Bytes)
    requires CanApply(t, out)
    ensures ApplyRead(t, out) == Some(Apply(t, out))
  {
    if t.Copy? {
      PythonCopyIsCopyBack(out, t.disp, t.count);
    }
  }

  lemma ExpandStep(ts: seq<Token>, out: Bytes)
    requires CanExpand(ts, out) && ts != []
    ensures CanApply(ts[0], out) && CanExpand(ts[1..], Apply(ts[0], out))
    ensures Expand(ts, out) == Expand(ts[1..], Apply(ts[0], out)) && |Expand(ts, out)| > |out|
  {
  }

  // Decoding one token of a group.
  lemma DecodeOneToken(t: Token, rest: Bytes, flags: Byte, bit: nat, out: Bytes, size: nat)
    requires Encodable(t) && CanApply(t, out) && bit < 8 && |out| < size && Flagged(flags, bit) == t.Copy?
    ensures DecodeFrom(TokenBytes(t) + rest, flags, bit, out, size) == DecodeFrom(rest, flags, bit + 1, Apply(t, out), size)
  {
    hide ReadToken, TokenBytes, ApplyRead, Apply;
    ReadUndoesWrite(t, rest);
    ApplyReadIsApply(t, out);
    assert (TokenBytes(t) + rest)[|TokenBytes(t)|..] == rest;
  }

  // Decoding what is left of a group, from bit number bit on.
  lemma {:induction false} DecodeGroup(group: seq<Token>, bit: nat, rest: Bytes, out: Bytes, size: nat)
    requires bit <= |group| <= 8 && AllEncodable(group) && CanExpand(group[bit..], out)
    requires |Expand(group[bit..], out)| <= size
    ensures DecodeFrom(TokensBytes(group[bit..]) + rest, FlagByte(group), bit, out, size) ==
            DecodeFrom(rest, FlagByte(group), |group|, Expand(group[bit..], out), size)
    decreases |group| - bit
  {
    hide DecodeFrom, TokenBytes, FlagByte, Apply, Flagged;
    var ts := group[bit..];
    if ts == [] {
      assert TokensBytes(ts) + rest == rest;
    } else {
      ExpandStep(ts, out);
      assert ts[1..] == group[bit + 1..] && ts[0] == group[bit];
      FlagsSayWhichAreCopies(group, bit);
      var tail := TokensBytes(ts[1..]) + rest;
      assert TokensBytes(ts) + rest == TokenBytes(ts[0]) + tail;
      DecodeOneToken(ts[0], tail, FlagByte(group), bit, out, size);
      DecodeGroup(group, bit + 1, rest, Apply(ts[0], out), size);
    }
  }

  lemma {:induction false} ExpandConcat(a: seq<Token>, b: seq<Token>, out: Bytes)
    requires CanExpand(a + b, out)
    ensures CanExpand(a, out) && CanExpand(b, Expand(a, out)) && Expand(a + b, out) == Expand(b, Expand(a, out))
  {
    hide Apply;
    if a == [] {
      assert a + b == b;
    } else {
      assert (a + b)[1..] == a[1..] + b;
      ExpandConcat(a[1..], b, Apply(a[0], out));
    }
  }

  // Decoding the groups of any expandable list, with anything behind them.
  lemma {:induction false} DecodeGroups(ts: seq<Token>, pad: Bytes, out: Bytes)
    requires AllEncodable(ts) && CanExpand(ts, out)
    ensures DecodeFrom(GroupsBytes(ts) + pad, 0, 8, out, |Expand(ts, out)|) == Some(Expand(ts, out))
    decreases |ts|
  {
    hide FlagByte, Apply, TokensBytes;
    var size := |Expand(ts, out)|;
    if ts == [] {
      assert out[..size] == out;
    } else {
      var group := if |ts| < 8 then ts else ts[..8];
      var later := ts[|group|..];
      assert ts == group + later && group[0..] == group;
      ExpandConcat(group, later, out);
      var rest := GroupsBytes(later) + pad;
      var mid := Expand(group, out);
      var body := TokensBytes(group) + rest;
      assert GroupsBytes(ts) + pad == [FlagByte(group)] + body;
      assert ([FlagByte(group)] + body)[1..] == body;
      DecodeGroup(group, 0, rest, out, size);
      GroupEnd(rest, FlagByte(group), |group|, mid, size);
      DecodeGroups(later, pad, mid);
    }
  }

  lemma GroupEnd(s: Bytes, flags: Byte, bit: nat, out: Bytes, size: nat)
    requires bit <= 8 && (bit == 8 || |out| == size)
    ensures DecodeFrom(s, flags, bit, out, size) == DecodeFrom(s, 0, 8, out, size)
  {
    FlagsForgotten(s, flags, bit, out, size);
  }

  lemma HeaderReadsBack(size: nat, rest: Bytes)
    requires size < SIZE_LIMIT
    ensures
      var s := HeaderBytes(size) + rest;
      |s| >= 4 && s[0] == MAGIC && s[4..] == rest
      && s[1] as int + 0x100 * s[2] as int + 0x1_0000 * s[3] as int == size
  {
    var h := HeaderBytes(size);
    var s := h + rest;
    assert s[0] == h[0] && s[1] == h[1] && s[2] == h[2] && s[3] == h[3];
  }

  // Decoding undoes encoding, for every list of tokens whose references are in range and
  // with any bytes after the stream.
  lemma DecompressUndoesEncode(ts: seq<Token>, pad: Bytes)
    requires AllEncodable(ts) && CanExpand(ts, []) && |Expand(ts, [])| < SIZE_LIMIT
    ensures Decompressed(Stream(ts, |Expand(ts, [])|) + pad) == Some(Expand(ts, []))
  {
    hide DecodeFrom, GroupsBytes, Expand, HeaderBytes;
    var size := |Expand(ts, [])|;
    HeaderReadsBack(size, GroupsBytes(ts) + pad);
    assert Stream(ts, size) + pad == HeaderBytes(size) + (GroupsBytes(ts) + pad);
    DecodeGroups(ts, pad, []);
  }

  // ---------------------------------------------------------------------- storing

  // A stream of literals only.
  function Literals(raw: Bytes): (ts: seq<Token>)
    ensures |ts| == |raw| && AllEncodable(ts)
  {
    seq(|raw|, i requires 0 <= i < |raw| => Literal(raw[i]))
  }

  lemma {:induction false} LiteralsExpand(raw: Bytes, out: Bytes)
    ensures CanExpand(Literals(raw), out) && Expand(Literals(raw), out) == out + raw
  {
    if raw != [] {
      assert Literals(raw)[1..] == Literals(raw[1..]);
      LiteralsExpand(raw[1..], out + [raw[0]]);
      assert out + [raw[0]] + raw[1..] == out + raw;
    } else {
      assert out + raw == out;
    }
  }

  lemma {:induction false} LiteralsBytes(raw: Bytes)
    ensures TokensBytes(Literals(raw)) == raw
  {
    if raw != [] {
      assert Literals(raw)[1..] == Literals(raw[1..]);
      LiteralsBytes(raw[1..]);
      assert raw == [raw[0]] + raw[1..];
    }
  }

  // Eight literals at a time, each group behind a zero byte.
  function StoredGroups(raw: Bytes): Bytes {
    if raw == [] then []
    else
      var n := if |raw| < 8 then |raw| else 8;
      [0] + raw[..n] + StoredGroups(raw[n..])
  }

  lemma LiteralsHaveNoFlags(ts: seq<Token>)
    requires forall i :: 0 <= i < |ts| ==> ts[i].Literal?
    ensures FlagByte(ts) == 0
  {
    assert forall b :: One(ts, b) == 0;
  }

  lemma {:induction false} StoredGroupsAreGroups(raw: Bytes)
    ensures StoredGroups(raw) == GroupsBytes(Literals(raw))
    decreases |raw|
  {
    if raw != [] {
      var n := if |raw| < 8 then |raw| else 8;
      var ts := Literals(raw);
      var group := if |ts| < 8 then ts else ts[..8];
      assert group == Literals(raw[..n]) && ts[|group|..] == Literals(raw[n..]);
      LiteralsBytes(raw[..n]);
      LiteralsHaveNoFlags(group);
      StoredGroupsAreGroups(raw[n..]);
    }
  }

  // lz11_store; None where it raises.
  method Store(raw: Bytes) returns (r: Option<Bytes>)
    ensures r == if |raw| >= SIZE_LIMIT then None else Some(Stream(Literals(raw), |raw|))
  {
    if |raw| >= SIZE_LIMIT {
      return None;
    }
    var out := HeaderBytes(|raw|);
    var i := 0;
    ghost var all := HeaderBytes(|raw|) + StoredGroups(raw);
    assert raw[0..] == raw;
    while i < |raw|
      invariant 0 <= i <= |raw| && out + StoredGroups(raw[i..]) == all
    {
      var n := if |raw| - i < 8 then |raw| - i else 8;
      ghost var s := raw[i..];
      assert s[..n] == raw[i..i + n] && s[n..] == raw[i + n..];
      ghost var before := out;
      out := out + [0] + raw[i..i + n];
      assert before + ([0] + s[..n] + StoredGroups(s[n..])) == out + StoredGroups(raw[i + n..]);
      i := i + n;
    }
    StoredGroupsAreGroups(raw);
    assert out + [] == out;
    r := Some(out);
  }

  // Decompressing undoes storing, with any padding behind it.
  lemma DecompressUndoesStore(raw: Bytes, pad: Bytes)
    requires |raw| < SIZE_LIMIT
    ensures Decompressed(Stream(Literals(raw), |raw|) + pad) == Some(raw)
  {
    LiteralsExpand(raw, []);
    assert [] + raw == raw;
    DecompressUndoesEncode(Literals(raw), pad);
  }

  // ------------------------------------------------------------ the rebuilt container

  const HEADER_END: nat := 0x88
  const CGFX_FIELD: nat := 0x08
  const CWAV_FIELD: nat := 0x84

  function Le32At(s: Bytes, at: nat): nat
    requires at + 4 <= |s|
  {
    s[at] as int + 0x100 * s[at + 1] as int + 0x1_0000 * s[at + 2] as int + 0x100_0000 * s[at + 3] as int
  }

  function PutLe32(s: Bytes, at: nat, n: nat): (r: Bytes)
    requires at + 4 <= |s| && n < U32_LIMIT
    ensures |r| == |s|
  {
    s[..at] + [n % 0x100, n / 0x100 % 0x100, n / 0x1_0000 % 0x100, n / 0x100_0000] + s[at + 4..]
  }

  lemma FourDigits(n: nat)
    ensures n == n % 0x100 + 0x100 * (n / 0x100 % 0x100) + 0x1_0000 * (n / 0x1_0000 % 0x100) + 0x100_0000 * (n / 0x100_0000)
  {
    assert n / 0x1_0000 == n / 0x100 / 0x100 && n / 0x100_0000 == n / 0x1_0000 / 0x100;
  }

  lemma Le32ReadsBack(s: Bytes, at: nat, n: nat)
    requires at + 4 <= |s| && n < U32_LIMIT
    ensures Le32At(PutLe32(s, at, n), at) == n
  {
    var r := PutLe32(s, at, n);
    assert r[at] == n % 0x100 && r[at + 1] == n / 0x100 % 0x100 && r[at + 2] == n / 0x1_0000 % 0x100;
    assert r[at + 3] == n / 0x100_0000;
    FourDigits(n);
    assert n / 0x1_0000 % 0x100 == r[at + 2];
  }

  lemma Le32Elsewhere(s: Bytes, at: nat, n: nat, other: nat)
    requires at + 4 <= |s| && n < U32_LIMIT && other + 4 <= |s| && (other + 4 <= at || at + 4 <= other)
    ensures Le32At(PutLe32(s, at, n), other) == Le32At(s, other)
  {
    var r := PutLe32(s, at, n);
    assert forall i :: other <= i < other + 4 ==> r[i] == s[i];
  }

  // A Python slice: bounds beyond the end are cut back to it.
  function Slice(s: Bytes, from: nat, upto: nat): Bytes {
    var hi := if upto < |s| then upto else |s|;
    if from < hi then s[from..hi] else []
  }

  // How many zero bytes bring n to a multiple of 32.
  function PadFor(n: nat): (k: nat)
    ensures k < 32 && (n + k) % 32 == 0
  {
    (32 - n % 32) % 32
  }

  // The header with the two offsets set.
  function RebuiltHeader(banner: Bytes, cgfxOff: nat, cwavOff: nat): (r: Bytes)
    requires |banner| >= HEADER_END && cgfxOff < U32_LIMIT && cwavOff < U32_LIMIT
    ensures |r| == HEADER_END
  {
    PutLe32(PutLe32(banner[..HEADER_END], CGFX_FIELD, cgfxOff), CWAV_FIELD, cwavOff)
  }

  // How long a stored stream gets.
  lemma {:induction false} StoredLength(raw: Bytes)
    ensures |StoredGroups(raw)| <= 2 * |raw|
    decreases |raw|
  {
    if raw != [] {
      StoredLength(raw[if |raw| < 8 then |raw| else 8..]);
    }
  }

  method Pad(body: Bytes, offset: nat) returns (r: Bytes)
    ensures r == body + Zeros(PadFor(offset + |body|))
  {
    r := body;
    ghost var k := 0;
    while (offset + |r|) % 32 != 0
      invariant k <= PadFor(offset + |body|) && r == body + Zeros(k)
      decreases PadFor(offset + |body|) - k
    {
      r := r + [0];
      k := k + 1;
    }
  }

  // The end of main: store, pad, put the header, the stream and the audio together, and
  // read everything back the way the console would. None where it gives up.
  method Rebuild(banner: Bytes, cgfx: Bytes) returns (r: Option<Bytes>)
    requires |banner| >= HEADER_END
    ensures
      var cwav := Slice(banner, Le32At(banner, CWAV_FIELD), |banner|);
      && (r.Some? ==>
            && |r.value| >= HEADER_END
            && Decompressed(Slice(r.value, Le32At(r.value, CGFX_FIELD), Le32At(r.value, CWAV_FIELD))) == Some(cgfx)
            && Slice(r.value, Le32At(r.value, CWAV_FIELD), |r.value|) == cwav
            && Le32At(r.value, CWAV_FIELD) % 32 == 0)
      && (Le32At(banner, CGFX_FIELD) == HEADER_END && |cgfx| < SIZE_LIMIT ==> r.Some?)
  {
    hide Le32At, PutLe32, Decompressed, Stream;
    var cgfxOff, cwavOff := Le32At(banner, CGFX_FIELD), Le32At(banner, CWAV_FIELD);
    var cwav := Slice(banner, cwavOff, |banner|);
    var packed := Store(cgfx);
    if packed.None? {
      return None;
    }
    DecompressUndoesStore(cgfx, []);
    StreamLength(cgfx);
    assert packed.value + [] == packed.value;
    var first := Decompress(packed.value);
    if first != Some(cgfx) {
      return None;
    }
    var body := Pad(packed.value, cgfxOff);
    if cgfxOff + |body| >= U32_LIMIT || cgfxOff >= U32_LIMIT {
      return None;
    }
    var out := RebuiltHeader(banner, cgfxOff, cgfxOff + |body|) + body + cwav;
    RebuiltOffsets(banner, cgfxOff, cgfxOff + |body|, body + cwav);
    assert out == RebuiltHeader(banner, cgfxOff, cgfxOff + |body|) + (body + cwav);
    var check := Decompress(Slice(out, Le32At(out, CGFX_FIELD), Le32At(out, CWAV_FIELD)));
    if cgfxOff == HEADER_END {
      assert Slice(out, HEADER_END, HEADER_END + |body|) == body;
      DecompressUndoesStore(cgfx, Zeros(PadFor(cgfxOff + |packed.value|)));
      assert Slice(out, HEADER_END + |body|, |out|) == cwav;
    }
    if check != Some(cgfx) {
      return None;
    }
    if Slice(out, Le32At(out, CWAV_FIELD), |out|) != cwav {
      return None;
    }
    r := Some(out);
  }

  lemma StreamLength(raw: Bytes)
    requires |raw| < SIZE_LIMIT
    ensures |Stream(Literals(raw), |raw|)| <= 4 + 2 * SIZE_LIMIT
  {
    hide GroupsBytes;
    StoredGroupsAreGroups(raw);
    StoredLength(raw);
  }

  lemma RebuiltOffsets(banner: Bytes, cgfxOff: nat, cwavOff: nat, rest: Bytes)
    requires |banner| >= HEADER_END && cgfxOff < U32_LIMIT && cwavOff < U32_LIMIT
    ensures Le32At(RebuiltHeader(banner, cgfxOff, cwavOff) + rest, CGFX_FIELD) == cgfxOff
    ensures Le32At(RebuiltHeader(banner, cgfxOff, cwavOff) + rest, CWAV_FIELD) == cwavOff
  {
    hide PutLe32;
    var h := banner[..HEADER_END];
    Le32ReadsBack(h, CGFX_FIELD, cgfxOff);
    Le32ReadsBack(PutLe32(h, CGFX_FIELD, cgfxOff), CWAV_FIELD, cwavOff);
    Le32Elsewhere(PutLe32(h, CGFX_FIELD, cgfxOff), CWAV_FIELD, cwavOff, CGFX_FIELD);
    var header := RebuiltHeader(banner, cgfxOff, cwavOff);
    assert forall i :: 0 <= i < |header| ==> (header + rest)[i] == header[i];
  }
}
