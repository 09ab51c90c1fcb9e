// Streaming SHA-256 (core/src/util/sha256.c) against the one-shot definition of
// FIPS 180-4, sections 5.1.1, 5.2.1, 5.3.3 and 6.2.2.

module Sha256 {
  import opened Arithmetic
  import opened Common

  // ------------------------------------------------------------------ 32-bit words

  // A word is a string of 32 bits, most significant first (section 3.1); the C code holds
  // it in a uint32_t.
  type Word = b: seq<bool> | |b| == 32 witness seq(32, _ => false)

  // The places of a word's bits.
  const BITS: seq<nat> := [
    0, 1, 2, 3, 4, 5, 6, 7, 8, 9, 10, 11, 12, 13, 14, 15,
    16, 17, 18, 19, 20, 21, 22, 23, 24, 25, 26, 27, 28, 29, 30, 31]

  // The number a string of bits stands for, and the low k bits of a number.
  function Value(b: seq<bool>): nat {
    if b == [] then 0 else 2 * Value(b[..|b| - 1]) + if b[|b| - 1] then 1 else 0
  }

  function LowBits(n: nat, k: nat): (b: seq<bool>)
    ensures |b| == k
  {
    if k == 0 then [] else LowBits(n / 2, k - 1) + [n % 2 == 1]
  }

  function ToWord(n: nat): Word { LowBits(n, |BITS|) }

  function Power(n: nat): (r: nat)
    ensures r > 0
  {
    if n == 0 then 1 else 2 * Power(n - 1)
  }

  lemma {:induction false} PowerSum(m: nat, n: nat)
    ensures Power(m + n) == Power(m) * Power(n)
  {
    if m > 0 {
      PowerSum(m - 1, n);
    }
  }

  lemma PowerWord()
    ensures Power(32) == 0x1_0000_0000
  {
    assert Power(4) == 16;
    PowerSum(4, 4);
    PowerSum(8, 8);
    PowerSum(16, 16);
  }

  // Bits and numbers correspond: going to a number and back changes nothing, and going to k
  // bits and back keeps the number modulo 2^k.
  lemma {:induction false} BitsOfValue(b: seq<bool>)
    ensures LowBits(Value(b), |b|) == b && Value(b) < Power(|b|)
  {
    if b != [] {
      var k := |b| - 1;
      BitsOfValue(b[..k]);
      assert Value(b) / 2 == Value(b[..k]) && (Value(b) % 2 == 1 <==> b[k]);
      assert b == b[..k] + [b[k]];
    }
  }

  lemma {:induction false} ValueOfBits(n: nat, k: nat)
    ensures exists q: nat :: n == q * Power(k) + Value(LowBits(n, k))
  {
    var b := LowBits(n, k);
    if k == 0 {
      assert n == n * Power(0) + Value(b);
    } else {
      ValueOfBits(n / 2, k - 1);
      var q: nat :| n / 2 == q * Power(k - 1) + Value(LowBits(n / 2, k - 1));
      assert b[..k - 1] == LowBits(n / 2, k - 1);
      Twice(n, q, Power(k - 1), Value(b[..k - 1]));
      assert n == q * Power(k) + Value(b);
    }
  }

  lemma Twice(n: nat, q: nat, p: nat, v: nat)
    requires n / 2 == q * p + v
    ensures n == q * (2 * p) + (2 * v + n % 2)
  {
    assert q * (2 * p) == 2 * (q * p);
  }

  // Addition drops the carry out of the highest bit.
  function Add(x: Word, y: Word): Word { ToWord(Value(x) + Value(y)) }

  // Words add as uint32_t does: modulo 2^32.
  lemma AddIsModular(x: Word, y: Word)
    ensures Value(Add(x, y)) == (Value(x) + Value(y)) % 0x1_0000_0000
  {
    hide Value, LowBits;
    var n, b := Value(x) + Value(y), Add(x, y);
    PowerWord();
    ValueOfBits(n, |BITS|);
    BitsOfValue(b);
    var q: nat :| n == q * Power(|BITS|) + Value(LowBits(n, |BITS|));
    assert |BITS| == 32;
    Divide(n, 0x1_0000_0000, q, Value(b));
  }

  function Xor(x: Word, y: Word): Word { seq(32, i requires 0 <= i < 32 => x[i] != y[i]) }

  function And(x: Word, y: Word): Word { seq(32, i requires 0 <= i < 32 => x[i] && y[i]) }

  function Not(x: Word): Word { seq(32, i requires 0 <= i < 32 => !x[i]) }

  function ShR(x: Word, n: nat): Word
    requires n <= 32
  {
    seq(n, _ => false) + x[..32 - n]
  }

  function RotR(x: Word, n: nat): Word
    requires n <= 32
  {
    x[32 - n..] + x[..32 - n]
  }

  function ShL(x: Word, n: nat): Word
    requires n <= 32
  {
    x[n..] + seq(n, _ => false)
  }

  // The C code rotates by joining two shifts.
  lemma RotationIsTwoShifts(x: Word, n: nat, i: nat)
    requires n <= 32 && i < 32
    ensures RotR(x, n)[i] == (ShR(x, n)[i] || ShL(x, 32 - n)[i])
    ensures !(ShR(x, n)[i] && ShL(x, 32 - n)[i])
  {
  }

  // --------------------------------------------------------- the standard's functions

  function Ch(x: Word, y: Word, z: Word): Word { Xor(And(x, y), And(Not(x), z)) }

  function Maj(x: Word, y: Word, z: Word): Word { Xor(Xor(And(x, y), And(x, z)), And(y, z)) }

  function BigSigma0(x: Word): Word { Xor(Xor(RotR(x, 2), RotR(x, 13)), RotR(x, 22)) }

  function BigSigma1(x: Word): Word { Xor(Xor(RotR(x, 6), RotR(x, 11)), RotR(x, 25)) }

  function SmallSigma0(x: Word): Word { Xor(Xor(RotR(x, 7), RotR(x, 18)), ShR(x, 3)) }

  function SmallSigma1(x: Word): Word { Xor(Xor(RotR(x, 17), RotR(x, 19)), ShR(x, 10)) }

  // The constants of section 4.2.2.
  const K: seq<nat> :=
    [
      0x428a2f98, 0x71374491, 0xb5c0fbcf, 0xe9b5dba5, 0x3956c25b, 0x59f111f1, 0x923f82a4, 0xab1c5ed5,
      0xd807aa98, 0x12835b01, 0x243185be, 0x550c7dc3, 0x72be5d74, 0x80deb1fe, 0x9bdc06a7, 0xc19bf174] +
    [
      0xe49b69c1, 0xefbe4786, 0x0fc19dc6, 0x240ca1cc, 0x2de92c6f, 0x4a7484aa, 0x5cb0a9dc, 0x76f988da,
      0x983e5152, 0xa831c66d, 0xb00327c8, 0xbf597fc7, 0xc6e00bf3, 0xd5a79147, 0x06ca6351, 0x14292967] +
    [
      0x27b70a85, 0x2e1b2138, 0x4d2c6dfc, 0x53380d13, 0x650a7354, 0x766a0abb, 0x81c2c92e, 0x92722c85,
      0xa2bfe8a1, 0xa81a664b, 0xc24b8b70, 0xc76c51a3, 0xd192e819, 0xd6990624, 0xf40e3585, 0x106aa070] +
    [
      0x19a4c116, 0x1e376c08, 0x2748774c, 0x34b0bcb5, 0x391c0cb3, 0x4ed8aa4a, 0x5b9cca4f, 0x682e6ff3,
      0x748f82ee, 0x78a5636f, 0x84c87814, 0x8cc70208, 0x90befffa, 0xa4506ceb, 0xbef9a3f7, 0xc67178f2]

  // The eight words of a hash value, state[8] of the C code.
  type Words = ws: seq<Word> | |ws| == 8 witness seq(8, _ => ToWord(0))

  // The initial hash value, section 5.3.3.
  const IV: seq<nat> := [
    0x6a09e667, 0xbb67ae85, 0x3c6ef372, 0xa54ff53a, 0x510e527f, 0x9b05688c, 0x1f83d9ab, 0x5be0cd19]

  function Initial(iv: seq<nat>): Words
    requires |iv| == 8
  {
    seq(8, i requires 0 <= i < 8 => ToWord(iv[i]))
  }

  const INITIAL: Words := Initial(IV)

  type Block = b: Bytes | |b| == 64 witness Zeros(64)

  // Word t of a block: four bytes, most significant first.
  function WordAt(block: Block, t: nat): Word
    requires t < 16
  {
    var b0: int, b1: int, b2: int, b3: int := block[4 * t], block[4 * t + 1], block[4 * t + 2], block[4 * t + 3];
    ToWord(0x100_0000 * b0 + 0x1_0000 * b1 + 0x100 * b2 + b3)
  }

  function Expand(w2: Word, w7: Word, w15: Word, w16: Word): Word {
    Add(Add(Add(SmallSigma1(w2), w7), SmallSigma0(w15)), w16)
  }

  // The message schedule, section 6.2.2 step 1.
  function Schedule(block: Block, t: nat): Word
    requires t < 64
  {
    if t < 16 then WordAt(block, t)
    else Expand(Schedule(block, t - 2), Schedule(block, t - 7), Schedule(block, t - 15), Schedule(block, t - 16))
  }

  function T1(e: Word, f: Word, g: Word, h: Word, k: nat, w: Word): Word {
    Add(Add(Add(Add(h, BigSigma1(e)), Ch(e, f, g)), ToWord(k)), w)
  }

  function T2(a: Word, b: Word, c: Word): Word { Add(BigSigma0(a), Maj(a, b, c)) }

  // One round of section 6.2.2 step 3.
  function Round(v: Words, k: nat, w: Word): Words {
    var t1 := T1(v[4], v[5], v[6], v[7], k, w);
    [Add(t1, T2(v[0], v[1], v[2])), v[0], v[1], v[2], Add(v[3], t1), v[4], v[5], v[6]]
  }

  function Rounds(v: Words, block: Block, n: nat): Words
    requires n <= |K|
  {
    if n == 0 then v else Round(Rounds(v, block, n - 1), K[n - 1], Schedule(block, n - 1))
  }

  function Plus(x: Words, y: Words): Words {
    seq(8, i requires 0 <= i < 8 => Add(x[i], y[i]))
  }

  function Compress(v: Words, block: Block): Words {
    Plus(v, Rounds(v, block, |K|))
  }

  // Blocks one after another, section 6.2.2.
  function HashBlocks(v: Words, m: Bytes): Words
    requires |m| % 64 == 0
    decreases |m|
  {
    if m == [] then v else HashBlocks(Compress(v, m[..64]), m[64..])
  }

  // n shifted right by 8 * j bits.
  function Shift(n: nat, j: nat): nat {
    if j == 0 then n else Shift(n / 256, j - 1)
  }

  // The k low bytes of n, most significant first.
  function BigEndian(n: nat, k: nat): (r: Bytes)
    ensures |r| == k
  {
    if k == 0 then [] else BigEndian(n / 256, k - 1) + [n % 256]
  }

  // How many zero bytes stand between the end marker and the length field.
  function Fill(n: nat): (k: nat)
    ensures n + k + 9 == 64 * (n / 64 + if n % 64 < 56 then 1 else 2)
  {
    if n % 64 < 56 then 55 - n % 64 else 119 - n % 64
  }

  lemma WholeBlocks(n: nat, k: nat)
    requires n == 64 * k
    ensures n % 64 == 0
  {
  }

  // The standard covers messages of fewer than 2^64 bits; beyond that the length field of
  // the C code wraps, and so does this one.
  function BitLength(n: nat): nat {
    (8 * n) % U64_LIMIT
  }

  // Padding, section 5.1.1.
  function Pad(m: Bytes): (r: Bytes)
    ensures |r| % 64 == 0
  {
    var r := m + [0x80] + Zeros(Fill(|m|)) + BigEndian(BitLength(|m|), |LENGTH_FIELD|);
    WholeBlocks(|r|, |m| / 64 + if |m| % 64 < 56 then 1 else 2);
    r
  }

  // The eight bytes of the length field, as positions.
  const LENGTH_FIELD: seq<nat> := [0, 1, 2, 3, 4, 5, 6, 7]

  // Words one after another, each most significant byte first.
  function Serialise(ws: seq<Word>): (r: Bytes)
    ensures |r| == 4 * |ws|
  {
    if ws == [] then [] else Serialise(ws[..|ws| - 1]) + BigEndian(Value(ws[|ws| - 1]), 4)
  }

  // SHA-256 of a message, in one expression.
  function Digest(m: Bytes): (r: Bytes)
    ensures |r| == 32
  {
    Serialise(HashBlocks(INITIAL, Pad(m)))
  }

  // ---------------------------------------------------------------------- lemmas

  lemma HashNoBlocks(v: Words)
    ensures HashBlocks(v, []) == v
  {
  }

  lemma {:induction false} HashBlocksSplit(v: Words, a: Bytes, b: Bytes)
    requires |a| % 64 == 0 && |b| % 64 == 0
    ensures HashBlocks(v, a + b) == HashBlocks(HashBlocks(v, a), b)
    decreases |a|
  {
    hide Compress;
    if a == [] {
      assert a + b == b;
    } else {
      assert (a + b)[..64] == a[..64] && (a + b)[64..] == a[64..] + b;
      HashBlocksSplit(Compress(v, a[..64]), a[64..], b);
    }
  }

  lemma HashOneBlock(v: Words, block: Block)
    ensures HashBlocks(v, block) == Compress(v, block)
  {
    hide Compress;
    assert block[..64] == block && block[64..] == [];
  }

  lemma HashNextBlock(done: Bytes, full: Block)
    requires |done| % 64 == 0
    ensures |done + full| % 64 == 0
    ensures HashBlocks(INITIAL, done + full) == Compress(HashBlocks(INITIAL, done), full)
    ensures BitLength(|done + full|) == (BitLength(|done|) + 512) % U64_LIMIT
  {
    hide Compress;
    HashBlocksSplit(INITIAL, done, full);
    HashOneBlock(HashBlocks(INITIAL, done), full);
    BitLengthSum(|done|, |full|);
  }

  // The byte the C loop writes at position i is the byte of the big endian form.
  lemma {:induction false} BigEndianAt(n: nat, k: nat, i: nat)
    requires i < k
    ensures BigEndian(n, k)[i] == Shift(n, k - 1 - i) % 256
  {
    if i < k - 1 {
      BigEndianAt(n / 256, k - 1, i);
    }
  }

  lemma PadEnds(m: Bytes)
    ensures |Pad(m)| >= |m| + 8 && Pad(m)[..|m|] == m
    ensures Pad(m)[|Pad(m)| - 8..] == BigEndian(BitLength(|m|), |LENGTH_FIELD|)
  {
    hide BigEndian, BitLength, Fill;
  }

  lemma ShortBitLength(n: nat)
    requires 8 * n < U64_LIMIT
    ensures BitLength(n) == 8 * n
  {
  }

  lemma EightBytesInjective(m: U64, n: U64)
    requires BigEndian(m, |LENGTH_FIELD|) == BigEndian(n, |LENGTH_FIELD|)
    ensures m == n
  {
    hide BigEndian, Shift;
    EightBytes(m);
    EightBytes(n);
    BigEndianInjective(m, n, |LENGTH_FIELD|);
  }

  // Padding loses nothing: two messages the standard covers never become the same blocks.
  lemma PaddingIsInjective(a: Bytes, b: Bytes)
    requires 8 * |a| < U64_LIMIT && 8 * |b| < U64_LIMIT && Pad(a) == Pad(b)
    ensures a == b
  {
    hide Pad, BigEndian, BitLength;
    ShortBitLength(|a|);
    ShortBitLength(|b|);
    PadEnds(a);
    PadEnds(b);
    EightBytesInjective(BitLength(|a|), BitLength(|b|));
  }

  lemma {:induction false} ShiftOut(n: nat, k: nat)
    requires n < Power(8 * k)
    ensures Shift(n, k) == 0
  {
    if k > 0 {
      PowerSum(8, 8 * (k - 1));
      assert Power(8) == 256;
      assert n < 256 * Power(8 * (k - 1));
      ShiftOut(n / 256, k - 1);
    }
  }

  lemma EightBytes(n: U64)
    ensures Shift(n, |LENGTH_FIELD|) == 0
  {
    PowerWord();
    PowerSum(32, 32);
    ShiftOut(n, |LENGTH_FIELD|);
  }

  // What eight bytes weigh, most significant first.
  function Weight(b: Bytes): nat
    requires |b| == 8
  {
    var b0: int, b1: int, b2: int, b3: int := b[0], b[1], b[2], b[3];
    var b4: int, b5: int, b6: int, b7: int := b[4], b[5], b[6], b[7];
    0x100_0000_0000_0000 * b0 + 0x1_0000_0000_0000 * b1 + 0x100_0000_0000 * b2 + 0x1_0000_0000 * b3
    + 0x100_0000 * b4 + 0x1_0000 * b5 + 0x100 * b6 + b7
  }

  lemma EightBytesWeigh(n: U64)
    ensures |BigEndian(n, |LENGTH_FIELD|)| == 8 && Weight(BigEndian(n, |LENGTH_FIELD|)) == n
  {
    hide BigEndian;
    assert |LENGTH_FIELD| == 8;
    forall i: nat | i < 8
      ensures BigEndian(n, 8)[i] == Shift(n, 7 - i) % 256
    {
      BigEndianAt(n, 8, i);
    }
    EightBytes(n);
    forall i: nat | i < 8
      ensures Shift(n, i) == 256 * Shift(n, i + 1) + Shift(n, i) % 256
    {
      ShiftStep(n, i);
    }
  }

  lemma {:induction false} ShiftStep(n: nat, i: nat)
    ensures Shift(n, i + 1) == Shift(n, i) / 256
  {
    if i > 0 {
      ShiftStep(n / 256, i - 1);
    }
  }

  // Section 5.1.1 without the lengths worked out: the message, the bit 1, as few zeros as
  // make whole blocks, and the length in bits.
  lemma PaddingMeans(m: Bytes)
    ensures |Pad(m)| % 64 == 0 && |m| + 9 <= |Pad(m)| < |m| + 73
    ensures Pad(m)[..|m|] == m && Pad(m)[|m|] == 0x80
    ensures forall i :: |m| < i < |Pad(m)| - 8 ==> Pad(m)[i] == 0
    ensures Weight(Pad(m)[|Pad(m)| - 8..]) == 8 * |m| % U64_LIMIT
  {
    hide BigEndian, Weight;
    PadEnds(m);
    EightBytesWeigh(BitLength(|m|));
  }

  lemma {:induction false} BigEndianInjective(m: nat, n: nat, k: nat)
    requires BigEndian(m, k) == BigEndian(n, k) && Shift(m, k) == Shift(n, k)
    ensures m == n
  {
    if k > 0 {
      var a, b := BigEndian(m / 256, k - 1), BigEndian(n / 256, k - 1);
      assert (a + [m % 256])[k - 1] == (b + [n % 256])[k - 1];
      assert (a + [m % 256])[..k - 1] == a && (b + [n % 256])[..k - 1] == b;
      BigEndianInjective(m / 256, n / 256, k - 1);
    }
  }

  // What padding puts behind the last whole block, up to the length field.
  ghost function MarkedTail(rest: Bytes): Bytes {
    rest + [0x80] + Zeros(Fill(|rest|))
  }

  lemma PadTail(m: Bytes, done: Bytes, rest: Bytes, first: Bytes, last: Bytes)
    requires m == done + rest && |done| % 64 == 0 && |rest| < 64
    requires first + last == MarkedTail(rest)
    ensures done + first + (last + BigEndian(BitLength(|m|), |LENGTH_FIELD|)) == Pad(m)
  {
    assert |m| % 64 == |rest| % 64;
    assert Pad(m) == done + MarkedTail(rest) + BigEndian(BitLength(|m|), |LENGTH_FIELD|);
  }

  lemma BitLengthSum(m: nat, n: nat)
    ensures BitLength(m + n) == (BitLength(m) + 8 * n) % U64_LIMIT
  {
  }

  // ------------------------------------------------------------- the streaming hasher

  // sha256_compress, first half: the schedule goes into a table.
  method FillSchedule(block: Block) returns (w: array<Word>)
    ensures fresh(w) && w.Length == 64 && forall t :: 0 <= t < 64 ==> w[t] == Schedule(block, t)
  {
    w := new Word[64](_ => ToWord(0));
    var i := 0;
    while i < 16
      invariant 0 <= i <= 16
      invariant forall t :: 0 <= t < i ==> w[t] == Schedule(block, t)
    {
      w[i] := WordAt(block, i);
      i := i + 1;
    }
    while i < 64
      invariant 16 <= i <= 64
      invariant forall t :: 0 <= t < i ==> w[t] == Schedule(block, t)
    {
      w[i] := Expand(w[i - 2], w[i - 7], w[i - 15], w[i - 16]);
      i := i + 1;
    }
  }

  // Second half: eight working variables rotate through the rounds.
  method RunRounds(v: Words, ghost block: Block, w: array<Word>) returns (r: Words)
    requires w.Length == 64 && forall t :: 0 <= t < 64 ==> w[t] == Schedule(block, t)
    ensures r == Rounds(v, block, |K|)
  {
    hide T1, T2, Add, Schedule;
    var a, b, c, d, e, f, g, h := v[0], v[1], v[2], v[3], v[4], v[5], v[6], v[7];
    var i := 0;
    while i < |K|
      invariant 0 <= i <= |K|
      invariant [a, b, c, d, e, f, g, h] == Rounds(v, block, i)
    {
      ghost var u := Rounds(v, block, i);
      assert u[0] == a && u[1] == b && u[2] == c && u[3] == d && u[4] == e && u[5] == f && u[6] == g && u[7] == h;
      var t1 := T1(e, f, g, h, K[i], w[i]);
      var t2 := T2(a, b, c);
      h := g;
      g := f;
      f := e;
      e := Add(d, t1);
      d := c;
      c := b;
      b := a;
      a := Add(t1, t2);
      i := i + 1;
    }
    r := [a, b, c, d, e, f, g, h];
  }

  method CompressBlock(v: Words, block: Block) returns (r: Words)
    ensures r == Compress(v, block)
  {
    hide Add, Schedule, Round;
    var w := FillSchedule(block);
    var u := RunRounds(v, block, w);
    r := Plus(v, u);
    assert r == Compress(v, block);
  }

  // daemoon_sha256_t.
  class Hasher {
    var state: Words
    var bitlen: nat          // of the whole blocks compressed so far, modulo 2^64
    const block: array<Byte>
    var blocklen: nat
    ghost var message: Bytes // everything absorbed since the start

    // The whole blocks of done are in the state, and nothing else.
    ghost predicate Compressed(done: Bytes)
      reads this`state, this`bitlen
    {
      && |done| % 64 == 0
      && state == HashBlocks(INITIAL, done)
      && bitlen == BitLength(|done|)
    }

    ghost predicate Valid()
      reads this, block
    {
      && block.Length == 64
      && blocklen < 64
      && blocklen <= |message|
      && block[..blocklen] == message[|message| - blocklen..]
      && Compressed(message[..|message| - blocklen])
    }

    // daemoon_sha256_init
    constructor ()
      ensures Valid() && fresh(block) && message == []
    {
      state := INITIAL;
      bitlen, blocklen, message := 0, 0, [];
      block := new Byte[64](_ => 0);
      new;
      HashNoBlocks(INITIAL);
      assert message[..0] == [];
    }

    // One full block, gathered or taken straight from the input.
    method Absorb(ghost done: Bytes, full: Bytes)
      requires |full| == 64 && Compressed(done)
      modifies this`state, this`bitlen
      ensures Compressed(done + full)
    {
      hide Compress;
      HashNextBlock(done, full);
      state := CompressBlock(state, full);
      bitlen := (bitlen + 512) % U64_LIMIT;
    }

    // memcpy into the block at a position.
    method Copy(position: nat, data: Bytes)
      requires position + |data| <= block.Length
      modifies block
      ensures block[..position + |data|] == old(block[..position]) + data
    {
      var i := 0;
      while i < |data|
        invariant 0 <= i <= |data|
        invariant block[..position + i] == old(block[..position]) + data[..i]
      {
        block[position + i] := data[i];
        i := i + 1;
      }
    }

    // daemoon_sha256_update, its first part: top up a block begun earlier. What is left
    // of the input comes back.
    method TopUp(data: Bytes) returns (rest: Bytes)
      requires Valid() && blocklen > 0
      modifies this, block
      ensures Valid()
      ensures message + rest == old(message) + data
      ensures rest != [] ==> blocklen == 0
    {
      hide Compress;
      var need := 64 - blocklen;
      var take := if |data| < need then |data| else need;
      ghost var done := message[..|message| - blocklen];
      assert message == done + block[..blocklen];
      Copy(blocklen, data[..take]);
      blocklen := blocklen + take;
      rest := data[take..];
      message := message + data[..take];
      assert message == done + block[..blocklen];
      if blocklen == 64 {
        Absorb(done, block[..64]);
        blocklen := 0;
        assert message[..|message|] == done + block[..64];
      } else {
        assert message[..|message| - blocklen] == done;
      }
      assert data == data[..take] + rest;
    }

    // daemoon_sha256_update, its second part: whole blocks straight from the input, up to
    // position p.
    method StreamBlocks(data: Bytes) returns (p: nat)
      requires Valid() && blocklen == 0
      modifies this`state, this`bitlen
      ensures |data| - 64 < p <= |data|
      ensures Compressed(message + data[..p])
    {
      hide Compress;
      p := 0;
      assert message[..|message|] == message + data[..p];
      while |data| - p >= 64
        modifies this`state, this`bitlen
        invariant 0 <= p <= |data|
        invariant Compressed(message + data[..p])
      {
        Absorb(message + data[..p], data[p..p + 64]);
        assert message + data[..p] + data[p..p + 64] == message + data[..p + 64];
        p := p + 64;
      }
    }

    // The third part: what is left over goes into the block.
    method Keep(data: Bytes, p: nat)
      requires block.Length == 64 && |data| - 64 < p <= |data|
      requires Compressed(message + data[..p])
      modifies this`blocklen, this`message, block
      ensures Valid() && message == old(message) + data
    {
      hide Compress;
      Copy(0, data[p..]);
      blocklen := |data| - p;
      ghost var done := message + data[..p];
      assert message + data == done + data[p..];
      message := message + data;
      assert message[..|message| - blocklen] == done;
    }

    method Update(data: Bytes)
      requires Valid()
      modifies this, block
      ensures Valid()
      ensures message == old(message) + data
    {
      hide Compress;
      if data == [] {
        return;
      }
      var rest := data;
      if blocklen > 0 {
        rest := TopUp(data);
      }
      if rest == [] {
        return;
      }
      var p := StreamBlocks(rest);
      Keep(rest, p);
    }

    // Zero bytes from position i up to the limit.
    method ZeroFill(i: nat, limit: nat)
      requires i <= limit <= block.Length
      modifies block
      ensures block[..limit] == old(block[..i]) + Zeros(limit - i)
    {
      var j := i;
      while j < limit
        invariant i <= j <= limit
        invariant block[..j] == old(block[..i]) + Zeros(j - i)
      {
        block[j] := 0;
        j := j + 1;
      }
    }

    // The length field of the last block.
    method PutLength(total: nat)
      requires block.Length == 64
      modifies block
      ensures block[..] == old(block[..56]) + BigEndian(total, |LENGTH_FIELD|)
    {
      var i := 0;
      while i < |LENGTH_FIELD|
        invariant 0 <= i <= |LENGTH_FIELD|
        invariant block[..56 + i] == old(block[..56]) + BigEndian(total, |LENGTH_FIELD|)[..i]
      {
        BigEndianAt(total, |LENGTH_FIELD|, i);
        block[56 + i] := Shift(total, |LENGTH_FIELD| - 1 - i) % 256;
        i := i + 1;
      }
      assert block[..] == block[..64];
    }

    // daemoon_sha256_final, its first part: the end marker, and a block of its own when
    // the length field no longer fits behind it. The filled positions come back.
    method Mark(ghost done: Bytes, ghost rest: Bytes) returns (i: nat, ghost first: Bytes)
      requires Valid() && done == message[..|message| - blocklen] && rest == message[|message| - blocklen..]
      modifies this`state, this`bitlen, block
      ensures i <= 56 && |first| % 64 == 0 && Compressed(done + first)
      ensures first + block[..i] + Zeros(56 - i) == MarkedTail(rest)
    {
      hide Compress;
      assert rest == block[..blocklen] && done + [] == done;
      Copy(blocklen, [0x80]);
      i, first := blocklen + 1, [];
      if i > 56 {
        ZeroFill(i, 64);
        first := block[..64];
        Absorb(done, block[..64]);
        i := 0;
        assert Zeros(64 - (|rest| + 1)) + Zeros(56) == Zeros(Fill(|rest|));
      }
    }

    // The second part: zeros, the length field, and the last block is compressed.
    method Close(ghost done: Bytes, i: nat, total: nat)
      requires block.Length == 64 && i <= 56 && Compressed(done)
      modifies this`state, this`bitlen, block
      ensures Compressed(done + (old(block[..i]) + Zeros(56 - i) + BigEndian(total, |LENGTH_FIELD|)))
    {
      hide Compress;
      ZeroFill(i, 56);
      PutLength(total);
      Absorb(done, block[..]);
    }

    // Both parts: everything up to writing the digest out.
    method Finish()
      requires Valid()
      modifies this`state, this`bitlen, block
      ensures state == HashBlocks(INITIAL, Pad(message))
    {
      hide Compress;
      var total := (bitlen + 8 * blocklen) % U64_LIMIT;
      ghost var done := message[..|message| - blocklen];
      ghost var rest := message[|message| - blocklen..];
      assert total == BitLength(|message|) by {
        BitLengthSum(|done|, blocklen);
      }
      ghost var first;
      var i;
      i, first := Mark(done, rest);
      PadTail(message, done, rest, first, block[..i] + Zeros(56 - i));
      Close(done + first, i, total);
    }

    // daemoon_sha256_final
    method Final(out: array<Byte>)
      requires Valid() && out.Length == 32 && out != block
      modifies this, block, out
      ensures message == old(message)
      ensures out[..] == Digest(message)
    {
      hide Compress;
      Finish();
      var ws: seq<Word> := state;
      var i := 0;
      while i < 8
        modifies out
        invariant 0 <= i <= 8
        invariant out[..4 * i] == Serialise(ws[..i])
      {
        PutWord(out, 4 * i, ws[i]);
        i := i + 1;
        assert ws[..i][..i - 1] == ws[..i - 1];
      }
      assert ws[..8] == ws && out[..] == out[..32];
    }

    static method PutWord(out: array<Byte>, position: nat, w: Word)
      requires position + 4 <= out.Length
      modifies out
      ensures out[..position + 4] == old(out[..position]) + BigEndian(Value(w), 4)
    {
      var n := Value(w);
      BigEndianAt(n, 4, 0);
      BigEndianAt(n, 4, 1);
      BigEndianAt(n, 4, 2);
      BigEndianAt(n, 4, 3);
      out[position] := Shift(n, 3) % 256;
      out[position + 1] := Shift(n, 2) % 256;
      out[position + 2] := Shift(n, 1) % 256;
      out[position + 3] := Shift(n, 0) % 256;
    }
  }

  function Flatten(pieces: seq<Bytes>): Bytes {
    if pieces == [] then [] else Flatten(pieces[..|pieces| - 1]) + pieces[|pieces| - 1]
  }

  // init, any number of updates in any sizes, final: the one-shot digest of the message,
  // however it was cut.
  method HashPieces(pieces: seq<Bytes>) returns (digest: Bytes)
    ensures digest == Digest(Flatten(pieces))
  {
    hide Digest, Compress;
    var hasher := new Hasher();
    var i := 0;
    while i < |pieces|
      invariant 0 <= i <= |pieces| && hasher.Valid() && fresh(hasher) && fresh(hasher.block)
      invariant hasher.message == Flatten(pieces[..i])
    {
      hasher.Update(pieces[i]);
      i := i + 1;
      assert pieces[..i][..i - 1] == pieces[..i - 1];
    }
    assert pieces[..i] == pieces;
    var out := new Byte[32](_ => 0);
    hasher.Final(out);
    digest := out[..];
  }

  // ---------------------------------------------------------------------- hex digests

  function Hex(d: Bytes): (r: Bytes)
    ensures |r| == 2 * |d|
  {
    if d == [] then [] else Hex(d[..|d| - 1]) + [HexDigit(d[|d| - 1] / 16), HexDigit(d[|d| - 1] % 16)]
  }

  // daemoon_sha256_hex
  method ToHex(digest: Bytes) returns (s: Bytes)
    ensures s == Hex(digest)
  {
    s := [];
    var i := 0;
    while i < |digest|
      invariant 0 <= i <= |digest|
      invariant s == Hex(digest[..i])
    {
      s := s + [HexDigit(digest[i] / 16), HexDigit(digest[i] % 16)];
      i := i + 1;
      assert digest[..i][..i - 1] == digest[..i - 1];
    }
    assert digest[..i] == digest;
  }

  // Each byte is two digits, the high one first.
  lemma {:induction false} HexAt(d: Bytes, i: nat)
    requires i < |d|
    ensures Hex(d)[2 * i] == Ascii("0123456789abcdef")[d[i] / 16] && Hex(d)[2 * i + 1] == Ascii("0123456789abcdef")[d[i] % 16]
  {
    var k := |d| - 1;
    assert Hex(d)[..2 * k] == Hex(d[..k]);
    if i < k {
      HexAt(d[..k], i);
      assert Hex(d)[2 * i] == Hex(d[..k])[2 * i] && Hex(d)[2 * i + 1] == Hex(d[..k])[2 * i + 1];
    } else {
      DigitIs(d[i] / 16);
      DigitIs(d[i] % 16);
    }
  }

  lemma DigitIs(n: nat)
    requires n < 16
    ensures HexDigit(n) == Ascii("0123456789abcdef")[n]
  {
  }

  lemma {:induction false} HexInjective(a: Bytes, b: Bytes)
    requires Hex(a) == Hex(b)
    ensures a == b
  {
    assert |a| == |b|;
    if a != [] {
      var k := |a| - 1;
      var s, t := Hex(a[..k]), Hex(b[..k]);
      assert Hex(a) == s + [HexDigit(a[k] / 16), HexDigit(a[k] % 16)];
      assert Hex(b) == t + [HexDigit(b[k] / 16), HexDigit(b[k] % 16)];
      assert s == Hex(a)[..2 * k] == t;
      assert Hex(a)[2 * k] == HexDigit(a[k] / 16) && Hex(a)[2 * k + 1] == HexDigit(a[k] % 16);
      assert a[k] == b[k];
      HexInjective(a[..k], b[..k]);
      assert a == a[..k] + [a[k]] && b == b[..k] + [b[k]];
    }
  }

  // daemoon_sha256_hex_equal on C strings: the character behind the last one is NUL.
  method HexEqual(a: Option<Bytes>, b: Option<Bytes>) returns (equal: bool)
    ensures equal <==> a.Some? && a == b && |a.value| == 64
  {
    if a.None? || b.None? {
      return false;
    }
    var s, t := a.value, b.value;
    var diff := false;
    var i := 0;
    while i < 64
      invariant 0 <= i <= 64 && i <= |s| && i <= |t|
      invariant diff <==> s[..i] != t[..i]
    {
      if i == |s| || i == |t| {
        return false;
      }
      assert s[..i + 1] == s[..i] + [s[i]] && t[..i + 1] == t[..i] + [t[i]];
      diff := diff || s[i] != t[i];
      i := i + 1;
    }
    assert |s| == 64 ==> s[..64] == s;
    assert |t| == 64 ==> t[..64] == t;
    equal := !diff && |s| == 64 && |t| == 64;
  }
}
