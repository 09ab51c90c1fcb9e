// The UTF-8 walker (core/src/util/utf8.c) against the grammar of section 4 of RFC 3629,
// and the encoder of core/src/util/json.c that it has to agree with.

module Utf8 {
  import opened Common

  // ------------------------------------------------------------------- the standard

  predicate Tail(b: Byte) { 0x80 <= b <= 0xBF }

  predicate TwoBytes(a: Byte, b: Byte) { 0xC2 <= a <= 0xDF && Tail(b) }

  predicate ThreeBytes(a: Byte, b: Byte, c: Byte) {
    || (a == 0xE0 && 0xA0 <= b <= 0xBF && Tail(c))
    || (0xE1 <= a <= 0xEC && Tail(b) && Tail(c))
    || (a == 0xED && 0x80 <= b <= 0x9F && Tail(c))
    || (0xEE <= a <= 0xEF && Tail(b) && Tail(c))
  }

  predicate FourBytes(a: Byte, b: Byte, c: Byte, d: Byte) {
    || (a == 0xF0 && 0x90 <= b <= 0xBF && Tail(c) && Tail(d))
    || (0xF1 <= a <= 0xF3 && Tail(b) && Tail(c) && Tail(d))
    || (a == 0xF4 && 0x80 <= b <= 0x8F && Tail(c) && Tail(d))
  }

  // The length of the character s starts with, or 0 when the grammar has none.
  function CharLen(s: Bytes): (n: nat)
    ensures n <= 4 && n <= |s|
  {
    if s == [] then 0
    else if s[0] <= 0x7F then 1
    else if |s| >= 2 && TwoBytes(s[0], s[1]) then 2
    else if |s| >= 3 && ThreeBytes(s[0], s[1], s[2]) then 3
    else if |s| >= 4 && FourBytes(s[0], s[1], s[2], s[3]) then 4
    else 0
  }

  // A value extended by the six payload bits of one more byte.
  function Push(v: int, b: int): int { v * 0x40 + (b - 0x80) }

  // The scalar value of that character: the payload bits of its bytes in order.
  function CodePoint(s: Bytes): int
    requires CharLen(s) > 0
  {
    var a: int, n := s[0], CharLen(s);
    if n == 1 then a
    else if n == 2 then Push(a - 0xC0, s[1])
    else if n == 3 then Push(Push(a - 0xE0, s[1]), s[2])
    else Push(Push(Push(a - 0xF0, s[1]), s[2]), s[3])
  }

  predicate Scalar(cp: int) {
    0 <= cp <= 0x10FFFF && !(0xD800 <= cp <= 0xDFFF)
  }

  // A byte string that is one character after another.
  predicate Valid(s: Bytes) {
    s == [] || (CharLen(s) > 0 && Valid(s[CharLen(s)..]))
  }

  // r is where v has to be cut so that the longest possible valid prefix of at most k
  // bytes is left.
  predicate LongestFit(v: Bytes, k: nat, r: nat) {
    && r <= k && r <= |v| && Valid(v[..r])
    && forall j :: r < j <= k && j <= |v| ==> !Valid(v[..j])
  }

  // ------------------------------------------------------------------- the encoder

  // The byte that carries the six low bits of v behind a lead byte.
  function Low(v: nat): Byte { 0x80 + v % 0x40 }

  // The bytes append_utf8 emits. A shift by 12 or 18 bits is two or three shifts by 6.
  function Encode(cp: nat): Bytes
    requires cp <= 0x10FFFF
  {
    if cp < 0x80 then [cp]
    else if cp < 0x800 then [0xC0 + cp / 0x40, Low(cp)]
    else if cp < 0x1_0000 then [0xE0 + cp / 0x40 / 0x40, Low(cp / 0x40), Low(cp)]
    else [0xF0 + cp / 0x40 / 0x40 / 0x40, Low(cp / 0x40 / 0x40), Low(cp / 0x40), Low(cp)]
  }

  lemma PushLow(v: nat)
    ensures Push(v / 0x40, Low(v)) == v
  {
  }

  lemma PushSplit(v: nat, b: Byte)
    requires Tail(b)
    ensures Push(v, b) / 0x40 == v && Low(Push(v, b)) == b
  {
  }

  lemma EncodeThenDecode(cp: nat, rest: Bytes)
    requires Scalar(cp)
    ensures CharLen(Encode(cp) + rest) == |Encode(cp)|
    ensures CodePoint(Encode(cp) + rest) == cp
  {
    var e := Encode(cp);
    assert forall i :: 0 <= i < |e| ==> (e + rest)[i] == e[i];
    PushLow(cp);
    PushLow(cp / 0x40);
    PushLow(cp / 0x40 / 0x40);
  }

  lemma DecodeThenEncode(s: Bytes)
    requires CharLen(s) > 0
    ensures Scalar(CodePoint(s)) && Encode(CodePoint(s)) == s[..CharLen(s)]
  {
    var n := CharLen(s);
    if n == 2 {
      PushSplit(s[0] - 0xC0, s[1]);
    } else if n == 3 {
      PushSplit(s[0] - 0xE0, s[1]);
      PushSplit(Push(s[0] - 0xE0, s[1]), s[2]);
    } else if n == 4 {
      PushSplit(s[0] - 0xF0, s[1]);
      PushSplit(Push(s[0] - 0xF0, s[1]), s[2]);
      PushSplit(Push(Push(s[0] - 0xF0, s[1]), s[2]), s[3]);
    }
  }

  // ---------------------------------------------------------------------- the walker

  // seq_len: 0, or the length of the character and its scalar value.
  method SeqLen(s: Bytes) returns (n: nat, cp: int)
    ensures n == CharLen(s)
    ensures n > 0 ==> cp == CodePoint(s)
  {
    n, cp := 0, 0;
    if |s| == 0 {
      return;
    }
    var need;
    var lead: int := s[0];
    if lead < 0x80 {
      cp, need := lead, 1;
    } else if 0xC0 <= lead < 0xE0 {
      cp, need := lead - 0xC0, 2;
    } else if 0xE0 <= lead < 0xF0 {
      cp, need := lead - 0xE0, 3;
    } else if 0xF0 <= lead < 0xF8 {
      cp, need := lead - 0xF0, 4;
    } else {
      return;
    }
    if need > |s| {
      return;
    }
    var i := 1;
    ghost var first := cp;
    while i < need
      invariant 1 <= i <= need
      invariant forall j :: 1 <= j < i ==> Tail(s[j])
      invariant i == 1 ==> cp == first
      invariant i == 2 ==> cp == Push(first, s[1])
      invariant i == 3 ==> cp == Push(Push(first, s[1]), s[2])
      invariant i == 4 ==> cp == Push(Push(Push(first, s[1]), s[2]), s[3])
    {
      if !(0x80 <= s[i] < 0xC0) {
        return;
      }
      cp := Push(cp, s[i]);
      i := i + 1;
    }
    if (need == 2 && cp < 0x80) || (need == 3 && cp < 0x800) || (need == 4 && cp < 0x1_0000) {
      return;
    }
    if cp > 0x10FFFF || 0xD800 <= cp <= 0xDFFF {
      return;
    }
    n := need;
  }

  // daemoon_utf8_valid
  method IsValid(s: Bytes) returns (ok: bool)
    ensures ok <==> Valid(s)
  {
    var i := 0;
    while i < |s|
      invariant 0 <= i <= |s|
      invariant Valid(s) <==> Valid(s[i..])
    {
      var n, cp := SeqLen(s[i..]);
      if n == 0 {
        return false;
      }
      assert s[i..][n..] == s[i + n..];
      i := i + n;
    }
    ok := true;
  }

  // How far the walker moves over any bytes, characters or not.
  function Step(s: Bytes): (n: nat)
    requires s != []
    ensures 1 <= n <= |s|
  {
    if CharLen(s) == 0 then 1 else CharLen(s)
  }

  // Where the walker stops when only k bytes of s are wanted.
  function Cut(s: Bytes, k: nat): (r: nat)
    ensures r <= |s| && r <= k
    decreases |s|
  {
    if |s| <= k then |s|
    else if Step(s) > k then 0
    else Step(s) + Cut(s[Step(s)..], k - Step(s))
  }

  // Where the walker stops when it has got to position i.
  ghost function CutFrom(s: Bytes, k: nat, i: nat): nat
    requires i <= |s| && i <= k
  {
    i + Cut(s[i..], k - i)
  }

  lemma CutStep(s: Bytes, k: nat, i: nat, n: nat)
    requires i <= k < |s| && n == Step(s[i..])
    ensures i + n <= |s|
    ensures CutFrom(s, k, i) == if i + n > k then i else CutFrom(s, k, i + n)
  {
    assert s[i..][n..] == s[i + n..];
  }

  method StepAt(s: Bytes, i: nat) returns (n: nat)
    requires i < |s|
    ensures n == Step(s[i..])
  {
    var cp;
    n, cp := SeqLen(s[i..]);
    if n == 0 {
      n := 1;
    }
  }

  // daemoon_utf8_truncate
  method Truncate(s: Bytes, maxBytes: nat) returns (i: nat)
    ensures i == Cut(s, maxBytes)
  {
    if maxBytes >= |s| {
      return |s|;
    }
    i := 0;
    ghost var cut := Cut(s, maxBytes);
    assert s[0..] == s;
    while i < |s|
      invariant 0 <= i <= maxBytes < |s|
      invariant cut == CutFrom(s, maxBytes, i)
    {
      var n := StepAt(s, i);
      CutStep(s, maxBytes, i, n);
      if i + n > maxBytes {
        break;
      }
      i := i + n;
    }
  }

  // How many bytes a lead byte announces; 0 for any other byte.
  function Announced(b: Byte): nat {
    if 0xC0 <= b < 0xE0 then 2
    else if 0xE0 <= b < 0xF0 then 3
    else if 0xF0 <= b < 0xF8 then 4
    else 0
  }

  function Trim(s: Bytes): (r: nat)
    ensures r <= |s|
    decreases |s|
  {
    if s == [] then 0
    else if CharLen(s) == 0 && Announced(s[0]) > |s| then 0
    else Step(s) + Trim(s[Step(s)..])
  }

  ghost function TrimFrom(s: Bytes, i: nat): nat
    requires i <= |s|
  {
    i + Trim(s[i..])
  }

  lemma TrimStep(s: Bytes, i: nat)
    requires i < |s|
    ensures i + Step(s[i..]) <= |s|
    ensures TrimFrom(s, i) ==
            if CharLen(s[i..]) == 0 && Announced(s[i]) > |s| - i then i else TrimFrom(s, i + Step(s[i..]))
  {
    assert s[i..][Step(s[i..])..] == s[i + Step(s[i..])..];
  }

  // daemoon_utf8_trim_partial
  method TrimPartial(s: Bytes) returns (r: nat)
    ensures r == Trim(s)
  {
    var i := 0;
    ghost var trim := Trim(s);
    assert s[0..] == s;
    while i < |s|
      invariant 0 <= i <= |s|
      invariant trim == TrimFrom(s, i)
    {
      var n, cp := SeqLen(s[i..]);
      TrimStep(s, i);
      if n == 0 {
        var need := 0;
        if 0xC0 <= s[i] < 0xE0 {
          need := 2;
        } else if 0xE0 <= s[i] < 0xF0 {
          need := 3;
        } else if 0xF0 <= s[i] < 0xF8 {
          need := 4;
        }
        if need > 0 && |s| - i < need {
          return i;
        }
        n := 1;
      }
      i := i + n;
    }
    r := |s|;
  }

  // ---------------------------------------------------------------------- properties

  // A character is recognised from its own bytes: a shorter prefix is no character, a
  // longer one starts with the same.
  lemma CharLenPrefix(s: Bytes, k: nat)
    requires CharLen(s) > 0 && k <= |s|
    ensures CharLen(s[..k]) == if k < CharLen(s) then 0 else CharLen(s)
  {
  }

  lemma CharLenExtend(s: Bytes, rest: Bytes)
    requires CharLen(s) > 0
    ensures CharLen(s + rest) == CharLen(s)
  {
    CharLenPrefix(s + rest, |s|);
    assert (s + rest)[..|s|] == s;
    assert forall i :: 0 <= i < |s| ==> (s + rest)[i] == s[i];
  }

  lemma {:induction false} ValidConcat(a: Bytes, b: Bytes)
    requires Valid(a)
    ensures Valid(a + b) <==> Valid(b)
    decreases |a|
  {
    if a == [] {
      assert a + b == b;
    } else {
      var n := CharLen(a);
      CharLenExtend(a, b);
      assert (a + b)[n..] == a[n..] + b;
      ValidConcat(a[n..], b);
    }
  }

  lemma {:induction false} AsciiIsValid(s: Bytes)
    requires forall i :: 0 <= i < |s| ==> s[i] < 0x80
    ensures Valid(s)
  {
    if s != [] {
      AsciiIsValid(s[1..]);
    }
  }

  lemma {:induction false} DropAscii(s: Bytes, k: nat)
    requires Valid(s) && k <= |s| && forall i :: 0 <= i < k ==> s[i] < 0x80
    ensures Valid(s[k..])
  {
    if k == 0 {
      assert s[0..] == s;
    } else {
      assert s[1..][k - 1..] == s[k..];
      DropAscii(s[1..], k - 1);
    }
  }

  // Valid text can be taken apart in front of any ASCII byte.
  lemma {:induction false} AsciiIsABoundary(v: Bytes, i: nat)
    requires Valid(v) && i < |v| && v[i] < 0x80
    ensures Valid(v[..i]) && Valid(v[i..])
    decreases |v|
  {
    if i == 0 {
      assert v[0..] == v;
    } else {
      var n := CharLen(v);
      CharLenPrefix(v, i);
      assert v[n..][i - n] == v[i];
      AsciiIsABoundary(v[n..], i - n);
      assert v[..i][n..] == v[n..][..i - n];
      assert v[i..] == v[n..][i - n..];
    }
  }

  // A non-empty prefix shorter than the first character is not valid, and one that is
  // longer is valid exactly when its rest is.
  lemma ValidPrefix(v: Bytes, j: nat)
    requires CharLen(v) > 0 && j <= |v|
    ensures 0 < j < CharLen(v) ==> !Valid(v[..j])
    ensures j >= CharLen(v) ==> (Valid(v[..j]) <==> Valid(v[CharLen(v)..][..j - CharLen(v)]))
  {
    CharLenPrefix(v, j);
    if j >= CharLen(v) {
      assert v[..j][CharLen(v)..] == v[CharLen(v)..][..j - CharLen(v)];
    }
  }

  // truncate on valid text: the longest valid prefix of at most k bytes.
  lemma {:induction false} CutIsLongestFit(v: Bytes, k: nat)
    requires Valid(v)
    ensures LongestFit(v, k, Cut(v, k))
    decreases |v|
  {
    if |v| <= k {
      assert v[..|v|] == v;
    } else {
      var n := CharLen(v);
      if n <= k {
        CutIsLongestFit(v[n..], k - n);
        ValidPrefix(v, Cut(v, k));
      }
      forall j | Cut(v, k) < j <= k && j <= |v|
        ensures !Valid(v[..j])
      {
        ValidPrefix(v, j);
      }
    }
  }

  // trim_partial on valid text that was cut anywhere finds the same boundary.
  lemma {:induction false} TrimFindsTheCut(v: Bytes, k: nat)
    requires Valid(v) && k <= |v|
    ensures Trim(v[..k]) == Cut(v, k)
    decreases |v|
  {
    if k == 0 {
      assert v[..0] == [];
    } else {
      var n := CharLen(v);
      CharLenPrefix(v, k);
      if n <= k {
        assert v[..k][n..] == v[n..][..k - n];
        TrimFindsTheCut(v[n..], k - n);
        if k == |v| {
          CutAll(v[n..]);
        }
      }
    }
  }

  lemma CutAll(v: Bytes)
    ensures Cut(v, |v|) == |v|
  {
  }
}
