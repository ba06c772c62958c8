/**
 The incremental MD5 object: a 64-byte buffer filled in place, a 64-bit bit counter held in two
 32-bit words, and four state words.  The ghost field `message` is everything fed so far.
 */
module Md5 {
  import opened Common
  import opened Md5Spec

  const BLOCKSIZE: nat := 64

  // Rotation amounts of the four rounds.
  const S11: nat := 7
  const S12: nat := 12
  const S13: nat := 17
  const S14: nat := 22
  const S21: nat := 5
  const S22: nat := 9
  const S23: nat := 14
  const S24: nat := 20
  const S31: nat := 4
  const S32: nat := 11
  const S33: nat := 16
  const S34: nat := 23
  const S41: nat := 6
  const S42: nat := 10
  const S43: nat := 15
  const S44: nat := 21

  /** The register values of a table-driven run on the words `w`, before each step and at the end. */
  ghost predicate IsTrace(t: seq<Regs>, w: seq<Word>) {
    |t| == 65 && |w| == 16 && forall i {:trigger Step(i, t[i], w)} | 0 <= i < 64 :: t[i + 1] == Step(i, t[i], w)
  }

  ghost function TraceOf(r: Regs, w: seq<Word>): (t: seq<Regs>)
    requires |w| == 16
    ensures IsTrace(t, w) && t[0] == r && t[64] == Steps(64, r, w)
  {
    var t := seq(65, i requires 0 <= i < 65 => Steps(i, r, w));
    forall i | 0 <= i < 64
      ensures t[i + 1] == Step(i, t[i], w)
    {
      assert t[i + 1] == Steps(i + 1, r, w) && t[i] == Steps(i, r, w);
    }
    t
  }

  /** Step `i`, in round 1: replaces `a`.  The ghost arguments place it in the table-driven run. */
  method FF(a: Word, b: Word, c: Word, d: Word, x: Word, s: nat, ac: Word, ghost i: nat, ghost t: seq<Regs>,
      ghost w: seq<Word>)
    returns (a': Word)
    requires 0 <= i < 16 && IsTrace(t, w) && t[i] == Regs(a, b, c, d)
    requires x == w[i] && s == Shift(i) && ac == T(i)
    ensures t[i + 1] == Regs(d, a', b, c)
  {
    a' := Add(RotateLeft(Add(Add(Add(a, F(b, c, d)), x), ac), s), b);
    assert t[i + 1] == Step(i, t[i], w);
  }

  method Round1(q: Regs, x: seq<Word>, ghost t: seq<Regs>) returns (q': Regs)
    requires IsTrace(t, x) && q == t[0]
    ensures q' == t[16]
  {
    var a, b, c, d := q.a, q.b, q.c, q.d;
    a := FF(a, b, c, d, x[0], S11, 0xd76aa478, 0, t, x);
    d := FF(d, a, b, c, x[1], S12, 0xe8c7b756, 1, t, x);
    c := FF(c, d, a, b, x[2], S13, 0x242070db, 2, t, x);
    b := FF(b, c, d, a, x[3], S14, 0xc1bdceee, 3, t, x);
    a := FF(a, b, c, d, x[4], S11, 0xf57c0faf, 4, t, x);
    d := FF(d, a, b, c, x[5], S12, 0x4787c62a, 5, t, x);
    c := FF(c, d, a, b, x[6], S13, 0xa8304613, 6, t, x);
    b := FF(b, c, d, a, x[7], S14, 0xfd469501, 7, t, x);
    a := FF(a, b, c, d, x[8], S11, 0x698098d8, 8, t, x);
    d := FF(d, a, b, c, x[9], S12, 0x8b44f7af, 9, t, x);
    c := FF(c, d, a, b, x[10], S13, 0xffff5bb1, 10, t, x);
    b := FF(b, c, d, a, x[11], S14, 0x895cd7be, 11, t, x);
    a := FF(a, b, c, d, x[12], S11, 0x6b901122, 12, t, x);
    d := FF(d, a, b, c, x[13], S12, 0xfd987193, 13, t, x);
    c := FF(c, d, a, b, x[14], S13, 0xa679438e, 14, t, x);
    b := FF(b, c, d, a, x[15], S14, 0x49b40821, 15, t, x);
    q' := Regs(a, b, c, d);
  }

  /** Step `i`, in round 2: replaces `a`.  The ghost arguments place it in the table-driven run. */
  method GG(a: Word, b: Word, c: Word, d: Word, x: Word, s: nat, ac: Word, ghost i: nat, ghost t: seq<Regs>,
      ghost w: seq<Word>)
    returns (a': Word)
    requires 16 <= i < 32 && IsTrace(t, w) && t[i] == Regs(a, b, c, d)
    requires x == w[(5 * i + 1) % 16] && s == Shift(i) && ac == T(i)
    ensures t[i + 1] == Regs(d, a', b, c)
  {
    a' := Add(RotateLeft(Add(Add(Add(a, G(b, c, d)), x), ac), s), b);
    assert t[i + 1] == Step(i, t[i], w);
  }

  method Round2(q: Regs, x: seq<Word>, ghost t: seq<Regs>) returns (q': Regs)
    requires IsTrace(t, x) && q == t[16]
    ensures q' == t[32]
  {
    var a, b, c, d := q.a, q.b, q.c, q.d;
    a := GG(a, b, c, d, x[1], S21, 0xf61e2562, 16, t, x);
    d := GG(d, a, b, c, x[6], S22, 0xc040b340, 17, t, x);
    c := GG(c, d, a, b, x[11], S23, 0x265e5a51, 18, t, x);
    b := GG(b, c, d, a, x[0], S24, 0xe9b6c7aa, 19, t, x);
    a := GG(a, b, c, d, x[5], S21, 0xd62f105d, 20, t, x);
    d := GG(d, a, b, c, x[10], S22, 0x02441453, 21, t, x);
    c := GG(c, d, a, b, x[15], S23, 0xd8a1e681, 22, t, x);
    b := GG(b, c, d, a, x[4], S24, 0xe7d3fbc8, 23, t, x);
    a := GG(a, b, c, d, x[9], S21, 0x21e1cde6, 24, t, x);
    d := GG(d, a, b, c, x[14], S22, 0xc33707d6, 25, t, x);
    c := GG(c, d, a, b, x[3], S23, 0xf4d50d87, 26, t, x);
    b := GG(b, c, d, a, x[8], S24, 0x455a14ed, 27, t, x);
    a := GG(a, b, c, d, x[13], S21, 0xa9e3e905, 28, t, x);
    d := GG(d, a, b, c, x[2], S22, 0xfcefa3f8, 29, t, x);
    c := GG(c, d, a, b, x[7], S23, 0x676f02d9, 30, t, x);
    b := GG(b, c, d, a, x[12], S24, 0x8d2a4c8a, 31, t, x);
    q' := Regs(a, b, c, d);
  }

  /** Step `i`, in round 3: replaces `a`.  The ghost arguments place it in the table-driven run. */
  method HH(a: Word, b: Word, c: Word, d: Word, x: Word, s: nat, ac: Word, ghost i: nat, ghost t: seq<Regs>,
      ghost w: seq<Word>)
    returns (a': Word)
    requires 32 <= i < 48 && IsTrace(t, w) && t[i] == Regs(a, b, c, d)
    requires x == w[(3 * i + 5) % 16] && s == Shift(i) && ac == T(i)
    ensures t[i + 1] == Regs(d, a', b, c)
  {
    a' := Add(RotateLeft(Add(Add(Add(a, H(b, c, d)), x), ac), s), b);
    assert t[i + 1] == Step(i, t[i], w);
  }

  method Round3(q: Regs, x: seq<Word>, ghost t: seq<Regs>) returns (q': Regs)
    requires IsTrace(t, x) && q == t[32]
    ensures q' == t[48]
  {
    var a, b, c, d := q.a, q.b, q.c, q.d;
    a := HH(a, b, c, d, x[5], S31, 0xfffa3942, 32, t, x);
    d := HH(d, a, b, c, x[8], S32, 0x8771f681, 33, t, x);
    c := HH(c, d, a, b, x[11], S33, 0x6d9d6122, 34, t, x);
    b := HH(b, c, d, a, x[14], S34, 0xfde5380c, 35, t, x);
    a := HH(a, b, c, d, x[1], S31, 0xa4beea44, 36, t, x);
    d := HH(d, a, b, c, x[4], S32, 0x4bdecfa9, 37, t, x);
    c := HH(c, d, a, b, x[7], S33, 0xf6bb4b60, 38, t, x);
    b := HH(b, c, d, a, x[10], S34, 0xbebfbc70, 39, t, x);
    a := HH(a, b, c, d, x[13], S31, 0x289b7ec6, 40, t, x);
    d := HH(d, a, b, c, x[0], S32, 0xeaa127fa, 41, t, x);
    c := HH(c, d, a, b, x[3], S33, 0xd4ef3085, 42, t, x);
    b := HH(b, c, d, a, x[6], S34, 0x04881d05, 43, t, x);
    a := HH(a, b, c, d, x[9], S31, 0xd9d4d039, 44, t, x);
    d := HH(d, a, b, c, x[12], S32, 0xe6db99e5, 45, t, x);
    c := HH(c, d, a, b, x[15], S33, 0x1fa27cf8, 46, t, x);
    b := HH(b, c, d, a, x[2], S34, 0xc4ac5665, 47, t, x);
    q' := Regs(a, b, c, d);
  }

  /** Step `i`, in round 4: replaces `a`.  The ghost arguments place it in the table-driven run. */
  method II(a: Word, b: Word, c: Word, d: Word, x: Word, s: nat, ac: Word, ghost i: nat, ghost t: seq<Regs>,
      ghost w: seq<Word>)
    returns (a': Word)
    requires 48 <= i < 64 && IsTrace(t, w) && t[i] == Regs(a, b, c, d)
    requires x == w[7 * i % 16] && s == Shift(i) && ac == T(i)
    ensures t[i + 1] == Regs(d, a', b, c)
  {
    a' := Add(RotateLeft(Add(Add(Add(a, I(b, c, d)), x), ac), s), b);
    assert t[i + 1] == Step(i, t[i], w);
  }

  method Round4(q: Regs, x: seq<Word>, ghost t: seq<Regs>) returns (q': Regs)
    requires IsTrace(t, x) && q == t[48]
    ensures q' == t[64]
  {
    var a, b, c, d := q.a, q.b, q.c, q.d;
    a := II(a, b, c, d, x[0], S41, 0xf4292244, 48, t, x);
    d := II(d, a, b, c, x[7], S42, 0x432aff97, 49, t, x);
    c := II(c, d, a, b, x[14], S43, 0xab9423a7, 50, t, x);
    b := II(b, c, d, a, x[5], S44, 0xfc93a039, 51, t, x);
    a := II(a, b, c, d, x[12], S41, 0x655b59c3, 52, t, x);
    d := II(d, a, b, c, x[3], S42, 0x8f0ccc92, 53, t, x);
    c := II(c, d, a, b, x[10], S43, 0xffeff47d, 54, t, x);
    b := II(b, c, d, a, x[1], S44, 0x85845dd1, 55, t, x);
    a := II(a, b, c, d, x[8], S41, 0x6fa87e4f, 56, t, x);
    d := II(d, a, b, c, x[15], S42, 0xfe2ce6e0, 57, t, x);
    c := II(c, d, a, b, x[6], S43, 0xa3014314, 58, t, x);
    b := II(b, c, d, a, x[13], S44, 0x4e0811a1, 59, t, x);
    a := II(a, b, c, d, x[4], S41, 0xf7537e82, 60, t, x);
    d := II(d, a, b, c, x[11], S42, 0xbd3af235, 61, t, x);
    c := II(c, d, a, b, x[2], S43, 0x2ad7d2bb, 62, t, x);
    b := II(b, c, d, a, x[9], S44, 0xeb86d391, 63, t, x);
    q' := Regs(a, b, c, d);
  }

  method Rounds(r: Regs, x: seq<Word>) returns (q: Regs)
    requires |x| == 16
    ensures q == Steps(64, r, x)
  {
    ghost var t := TraceOf(r, x);
    q := Round1(r, x, t);
    q := Round2(q, x, t);
    q := Round3(q, x, t);
    q := Round4(q, x, t);
  }

  // ---------- The 64-bit bit counter ----------

  /** The two counter words hold 8 * n modulo 2^64. */
  predicate CountsBits(lo: Word, hi: Word, n: nat) {
    lo == 8 * n % 0x1_0000_0000 && hi == 8 * n / 0x1_0000_0000 % 0x1_0000_0000
  }

  /** Adding `length` bytes: shift the length left by 3, carry on wrap, then add its top three bits. */
  function AddLow(lo: Word, length: Word): Word { (lo + length * 8 % 0x1_0000_0000) % 0x1_0000_0000 }

  function AddHigh(lo: Word, hi: Word, length: Word): Word {
    var carried := if AddLow(lo, length) < length * 8 % 0x1_0000_0000 then (hi + 1) % 0x1_0000_0000 else hi;
    (carried + length / 0x2000_0000) % 0x1_0000_0000
  }

  lemma CountsFrom(lo: Word, hi: Word, n: nat, q: nat)
    requires 8 * n == q * 0x1_0000_0000 + lo && hi == q % 0x1_0000_0000
    ensures CountsBits(lo, hi, n)
  {
    QuotientUnique(8 * n, q, lo);
  }

  lemma CounterAdds(lo: Word, hi: Word, n: nat, length: Word)
    requires CountsBits(lo, hi, n)
    ensures CountsBits(AddLow(lo, length), AddHigh(lo, hi, length), n + length)
  {
    var q, p := 8 * n / 0x1_0000_0000, length / 0x2000_0000;
    var added := LowPart(length, p);
    var carry := CarryOut(lo, added);
    HighWord(hi, q, p, carry);
    CountsFrom(AddLow(lo, length), AddHigh(lo, hi, length), n + length, q + p + carry);
  }

  /** What the length shifted left by three keeps, and what it loses. */
  lemma LowPart(length: Word, p: nat) returns (added: Word)
    requires p == length / 0x2000_0000
    ensures added == length * 8 % 0x1_0000_0000 && 8 * length == p * 0x1_0000_0000 + added
  {
    added := 8 * length - p * 0x1_0000_0000;
    QuotientUnique(8 * length, p, added);
  }

  lemma HighWord(hi: Word, q: nat, p: nat, carry: nat)
    requires hi == q % 0x1_0000_0000 && carry <= 1
    ensures ((if carry == 1 then (hi + 1) % 0x1_0000_0000 else hi) + p) % 0x1_0000_0000 ==
            (q + p + carry) % 0x1_0000_0000
  {
    AddHighMod(q, p, carry);
  }

  /** `count[0] += length << 3`, with a carry on wrap, then `count[1] += length >> 29`. */
  method AddedCount(lo: Word, hi: Word, length: Word) returns (low: Word, high: Word)
    ensures low == AddLow(lo, length) && high == AddHigh(lo, hi, length)
  {
    var bits: int := length * 8 % 0x1_0000_0000;
    low := (lo + bits) % 0x1_0000_0000;
    var carried: int := hi;
    if low < bits {
      carried := (carried + 1) % 0x1_0000_0000;
    }
    high := (carried + length / 0x2000_0000) % 0x1_0000_0000;
  }

  /** The sum wrapped exactly when it came out below what was added. */
  lemma CarryOut(lo: Word, added: Word) returns (carry: nat)
    ensures carry <= 1 && (lo + added) % 0x1_0000_0000 + carry * 0x1_0000_0000 == lo + added
    ensures (lo + added) % 0x1_0000_0000 < added <==> carry == 1
  {
    carry := if lo + added < 0x1_0000_0000 then 0 else 1;
  }

  lemma AddHighMod(q: nat, p: nat, carry: nat)
    requires carry <= 1
    ensures ((q % 0x1_0000_0000 + carry) % 0x1_0000_0000 + p) % 0x1_0000_0000 == (q + p + carry) % 0x1_0000_0000
  {
  }

  lemma QuotientUnique(x: nat, q: nat, low: Word)
    requires x == q * 0x1_0000_0000 + low
    ensures x / 0x1_0000_0000 == q && x % 0x1_0000_0000 == low
  {
  }

  /** The bytes beyond the last whole block can be counted from the low counter word although it wraps. */
  lemma IndexFromCounter(lo: Word, hi: Word, n: nat, blocks: nat)
    requires CountsBits(lo, hi, n) && 64 * blocks <= n < 64 * blocks + 64
    ensures lo / 8 % 64 == n - 64 * blocks
  {
    var q := 8 * n / 0x1_0000_0000;
    var t := n - q * 0x2000_0000;
    assert lo == 8 * t;
    assert t == 64 * (blocks - q * 0x80_0000) + (n - 64 * blocks);
    RemainderUnique(t, blocks - q * 0x80_0000, n - 64 * blocks);
  }

  lemma RemainderUnique(t: int, k: int, r: nat)
    requires t == 64 * k + r && r < 64
    ensures t % 64 == r
  {
  }

  // ---------- Copying words and bytes ----------

  method Decode(output: array<Word>, input: array<Byte>, offset: nat, len: nat)
    requires len % 4 == 0 && offset + len <= input.Length && len / 4 <= output.Length
    modifies output
    ensures output[..len / 4] == DecodeWords(input[offset..offset + len])
    ensures output[len / 4..] == old(output[len / 4..])
  {
    var i, j := 0, 0;
    while j < len
      invariant j == 4 * i && j <= len
      invariant forall k | 0 <= k < i :: output[k] == DecodeWords(input[offset..offset + len])[k]
      invariant output[len / 4..] == old(output[len / 4..])
    {
      output[i] := LoadWord(input[offset + j], input[offset + j + 1], input[offset + j + 2], input[offset + j + 3]);
      i, j := i + 1, j + 4;
    }
  }

  method Encode(output: array<Byte>, input: seq<Word>)
    requires 4 * |input| <= output.Length
    modifies output
    ensures output[..4 * |input|] == EncodeWords(input)
    ensures output[4 * |input|..] == old(output[4 * |input|..])
  {
    var i, j := 0, 0;
    while j < 4 * |input|
      invariant j == 4 * i && i <= |input|
      invariant forall k | 0 <= k < j :: output[k] == EncodeWords(input)[k]
      invariant output[4 * |input|..] == old(output[4 * |input|..])
    {
      output[j] := StoreByte(input[i], 0);
      output[j + 1] := StoreByte(input[i], 1);
      output[j + 2] := StoreByte(input[i], 2);
      output[j + 3] := StoreByte(input[i], 3);
      EncodedByte(input, i, 0);
      EncodedByte(input, i, 1);
      EncodedByte(input, i, 2);
      EncodedByte(input, i, 3);
      i, j := i + 1, j + 4;
    }
  }

  /** Lengths for which the 32-bit sum `i + 64` in the block loop of `Update` never wraps. */
  predicate LengthFits(index: nat, length: Word) {
    if index == 0 then length < 0xffff_ffc0 else length + index < 0x1_0000_0000
  }

  /** The 32-bit loop guard means `i + 64 <= length` at every block boundary exactly for these lengths;
      for any other length the loop reads a block beyond the end of its input. */
  lemma GuardExactIffLengthFits(index: nat, length: Word)
    requires index < 64 && 64 - index <= length
    ensures (forall b: nat {:trigger GuardExact(index, b, length)} | 64 - index <= 64 * b - index <= length ::
               GuardExact(index, b, length))
            <==> LengthFits(index, length)
  {
    if !LengthFits(index, length) {
      var b := if index == 0 then 0x3ff_ffff else 0x400_0000;
      assert !GuardExact(index, b, length);
    }
  }

  /** At `i == 64 * b - index` the guard computed in 32 bits agrees with the intended one. */
  predicate GuardExact(index: nat, b: nat, length: Word) {
    (64 * b - index + 64) % 0x1_0000_0000 <= length <==> 64 * b - index + 64 <= length
  }

  lemma NoWrap(from: nat, k: nat, length: Word)
    requires 1 <= from <= 64 && from + 64 * k <= length && LengthFits(64 - from, length)
    ensures from + 64 * k + 64 < 0x1_0000_0000
    ensures (from + 64 * k + 64) % 0x1_0000_0000 == from + 64 * k + 64
  {
  }

  lemma PadLengthFromIndex(n: nat, blocks: nat, index: nat)
    requires n == 64 * blocks + index && index < 64
    ensures PadLength(n) == if index < 56 then 56 - index else 120 - index
  {
  }

  lemma Remainder(n: nat, blocks: nat)
    requires 64 * blocks <= n < 64 * blocks + 64
    ensures n % 64 == n - 64 * blocks
  {
  }

  lemma TailSlice(full: seq<Byte>, base: nat, fed: seq<Byte>, i: nat)
    requires base <= |full| && full[base..] == fed && i + 64 <= |fed|
    ensures fed[i..i + 64] == full[base + i..base + i + 64]
  {
  }

  /** Bytes appended leave the fold over earlier blocks alone. */
  lemma FoldKept(m: seq<Byte>, fed: seq<Byte>, n: nat)
    requires 64 * n <= |m|
    ensures Fold(m + fed, n) == Fold(m, n)
  {
    FoldPrefix(Compress, IV, m + fed, m, n);
  }

  lemma Tail(m: seq<Byte>, fed: seq<Byte>, k: nat)
    requires k <= |m|
    ensures (m + fed)[k..] == m[k..] + fed[0..] && (m + fed)[|m|..] == fed
    ensures (m + fed)[k..|m|] == m[k..]
  {
  }

  lemma FilledBlock(full: seq<Byte>, start: nat, index: nat, fed: seq<Byte>)
    requires index < 64 && start + 64 <= |full| == start + index + |fed| && full[start + index..] == fed
    ensures full[start + index..start + 64] == fed[..64 - index]
  {
  }

  lemma Suffix(full: seq<Byte>, fed: seq<Byte>, i: nat)
    requires i <= |fed| <= |full| && full[|full| - |fed|..] == fed
    ensures full[|full| - |fed| + i..] == fed[i..]
  {
  }

  lemma WholeBlocks(n: nat, blocks: nat)
    requires 64 * blocks <= n < 64 * blocks + 64 && n % 64 == 0
    ensures n == 64 * blocks && n / 64 == blocks
  {
  }

  lemma {:induction false} FoldStep(m: seq<Byte>, n: nat)
    requires 64 * n + 64 <= |m|
    ensures Fold(m, n + 1) == Compress(Fold(m, n), m[64 * n..64 * n + 64])
  {
  }

  lemma CompressFromSteps(r: Regs, block: Block, q: Regs)
    requires q == Steps(64, r, DecodeWords(block))
    ensures AddRegs(r, q) == Compress(r, block)
  {
  }

  class MD5 {
    var finalized: bool
    const buffer: array<Byte>
    const count: array<Word>
    const state: array<Word>
    const digest: array<Byte>
    ghost var message: seq<Byte>
    ghost var blocks: nat

    ghost predicate Separate() {
      && buffer.Length == 64 && count.Length == 2 && state.Length == 4 && digest.Length == 16
      && buffer != digest && count != state
      && (buffer as object) != count && (buffer as object) != state
      && (digest as object) != count && (digest as object) != state
    }

    /** Counter, state and buffer describe exactly the message: its length, its whole blocks, its tail. */
    ghost predicate Tracking()
      requires Separate()
      reads this, buffer, count, state
    {
      && 64 * blocks <= |message| < 64 * blocks + 64
      && CountsBits(count[0], count[1], |message|)
      && Registers() == Fold(message, blocks)
      && buffer[..|message| - 64 * blocks] == message[64 * blocks..]
    }

    ghost predicate Valid()
      reads this, buffer, count, state, digest
    {
      && Separate()
      && (if finalized then digest[..] == Digest(message) else Tracking())
    }

    constructor ()
      ensures Valid() && !finalized && message == []
      ensures fresh(buffer) && fresh(count) && fresh(state) && fresh(digest)
    {
      buffer, digest := new Byte[64], new Byte[16];
      count, state := new Word[2], new Word[4];
      message, blocks := [], 0;
      new;
      Init();
    }

    /** Zero counters and the magic initialisation constants. */
    method Init()
      requires Separate()
      modifies this, count, state
      ensures Valid() && !finalized && message == []
    {
      finalized := false;
      count[0], count[1] := 0, 0;
      state[0], state[1], state[2], state[3] := 0x67452301, 0xefcdab89, 0x98badcfe, 0x10325476;
      message, blocks := [], 0;
    }

    method Transform(block: array<Byte>, offset: nat)
      requires state.Length == 4 && offset + 64 <= block.Length
      modifies state
      ensures Registers() == Compress(old(Registers()), block[offset..offset + 64])
    {
      var r := Regs(state[0], state[1], state[2], state[3]);
      var words := new Word[16];
      Decode(words, block, offset, BLOCKSIZE);
      var x := words[..];
      assert x == DecodeWords(block[offset..offset + 64]);
      var q := Rounds(r, x);
      CompressFromSteps(r, block[offset..offset + 64], q);
      state[0] := Add(state[0], q.a);
      state[1] := Add(state[1], q.b);
      state[2] := Add(state[2], q.c);
      state[3] := Add(state[3], q.d);
    }

    /** Reads off how many bytes are buffered, then advances the 64-bit bit counter by 8 * length. */
    method TakeIndexAndCount(length: Word) returns (index: nat)
      requires count.Length == 2 && CountsBits(count[0], count[1], |message|)
      requires 64 * blocks <= |message| < 64 * blocks + 64
      modifies count
      ensures index == |message| - 64 * blocks
      ensures CountsBits(count[0], count[1], |message| + length)
    {
      hide CountsBits, AddLow, AddHigh;
      var lo, hi := count[0], count[1];
      IndexFromCounter(lo, hi, |message|, blocks);
      CounterAdds(lo, hi, |message|, length);
      index := lo / 8 % 64;
      count[0], count[1] := AddedCount(lo, hi, length);
    }

    /** memcpy into the buffer. */
    method CopyIn(at: nat, input: array<Byte>, from: nat, n: nat)
      requires input != buffer && at + n <= buffer.Length && from + n <= input.Length
      modifies buffer
      ensures buffer[..at + n] == old(buffer[..at]) + input[from..from + n]
    {
      forall k | 0 <= k < n {
        buffer[at + k] := input[from + k];
      }
    }

    /** Compresses the whole blocks of `input` from `from` on; `full` is the message with the input
        appended, of which `b` blocks are done. */
    method TransformBlocks(input: array<Byte>, from: Word, length: Word, ghost full: seq<Byte>, ghost b: nat)
      returns (i: Word, ghost k: nat)
      requires state.Length == 4 && (input as object) != state
      requires 1 <= from <= 64 && from <= length <= input.Length && LengthFits(64 - from, length)
      requires |full| >= length && |full| - length + from == 64 * b && full[|full| - length..] == input[..length]
      requires Registers() == Fold(full, b)
      modifies state
      ensures from <= i <= length < i + 64 && i == from + 64 * k
      ensures Registers() == Fold(full, b + k)
    {
      hide Compress;
      i, k := from, 0;
      ghost var base, fed := |full| - length, input[..length];
      while (i + 64) % 0x1_0000_0000 <= length
        invariant i <= length && i == from + 64 * k && input[..length] == fed
        invariant Registers() == Fold(full, b + k)
        decreases length - i
      {
        NoWrap(from, k, length);
        assert input[i..i + 64] == input[..length][i..i + 64];
        TailSlice(full, base, fed, i);
        Transform(input, i);
        i, k := (i + 64) % 0x1_0000_0000, k + 1;
      }
      NoWrap(from, k, length);
    }

    /** Fills the buffer from `input` and compresses it. */
    method FillBlock(index: nat, input: array<Byte>, ghost full: seq<Byte>)
      requires Separate() && input != buffer && (input as object) != state && index < 64 <= index + input.Length
      requires |full| >= 64 * blocks + 64 && buffer[..index] == full[64 * blocks..64 * blocks + index]
      requires input[..64 - index] == full[64 * blocks + index..64 * blocks + 64]
      requires Registers() == Fold(full, blocks)
      modifies `blocks, buffer, state
      ensures blocks == old(blocks) + 1 && Registers() == Fold(full, blocks)
    {
      hide Compress, Fold;
      CopyIn(index, input, 0, 64 - index);
      assert input[0..0 + (64 - index)] == input[..64 - index];
      ghost var block := full[64 * blocks..64 * blocks + 64];
      assert buffer[0..0 + 64] == buffer[..index + (64 - index)] == block;
      Transform(buffer, 0);
      FoldStep(full, blocks);
      blocks := blocks + 1;
    }

    /** Fills the buffer from `input` and compresses it, then the whole blocks that follow. */
    method FillAndTransform(index: nat, input: array<Byte>, length: Word, ghost full: seq<Byte>) returns (i: Word)
      requires Separate() && input != buffer && (input as object) != state
      requires index < 64 && 64 - index <= length <= input.Length && LengthFits(index, length)
      requires |full| == 64 * blocks + index + length && full[64 * blocks + index..] == input[..length]
      requires Registers() == Fold(full, blocks) && buffer[..index] == full[64 * blocks..64 * blocks + index]
      modifies `blocks, buffer, state
      ensures i <= length && 64 * blocks == |full| - (length - i) && length - i < 64
      ensures full[64 * blocks..] == input[..length][i..]
      ensures Registers() == Fold(full, blocks)
    {
      hide Compress, LengthFits, Fold;
      ghost var fed := input[..length];
      FilledBlock(full, 64 * blocks, index, fed);
      assert input[..64 - index] == fed[..64 - index];
      FillBlock(index, input, full);
      ghost var k;
      i, k := TransformBlocks(input, 64 - index, length, full, blocks);
      blocks := blocks + k;
      Suffix(full, fed, i);
    }

    /** Buffers what is left of the input: all of `full` beyond its whole blocks. */
    method KeepRest(index: nat, input: array<Byte>, i: Word, length: Word, ghost full: seq<Byte>)
      requires Separate() && input != buffer && i <= length <= input.Length && index + length - i < 64
      requires |full| == 64 * blocks + index + length - i
               && full[64 * blocks..] == buffer[..index] + input[..length][i..]
      modifies `message, buffer
      ensures message == full && buffer[..|full| - 64 * blocks] == full[64 * blocks..]
    {
      assert input[i..i + (length - i)] == input[..length][i..];
      CopyIn(index, input, i, length - i);
      message := full;
    }

    /** Feeds `length` bytes: fill the buffer, compress whole blocks, keep the rest. */
    method Update(input: array<Byte>, length: Word)
      requires Separate() && Tracking() && length <= input.Length
      requires input != buffer && input != digest && (input as object) != count && (input as object) != state
      requires LengthFits(|message| - 64 * blocks, length)
      modifies `message, `blocks, buffer, count, state
      ensures Tracking() && message == old(message) + input[..length]
    {
      hide Compress, CountsBits, LengthFits, Fold;
      ghost var fed := input[..length];
      ghost var full := message + fed;
      var index := TakeIndexAndCount(length);
      var i: Word := 0;
      FoldKept(message, fed, blocks);
      Tail(message, fed, 64 * blocks);
      if length >= 64 - index {
        i := FillAndTransform(index, input, length, full);
        index := 0;
        assert full[64 * blocks..] == buffer[..0] + fed[i..];
      }
      KeepRest(index, input, i, length, full);
    }

    /** Feeds the padding and then the length the message had before padding. */
    method UpdatePadding()
      requires Separate() && Tracking()
      modifies `message, `blocks, buffer, count, state
      ensures Tracking() && message == Pad(old(message))
    {
      hide Compress, StoreByte;
      var bits := new Byte[8];
      Encode(bits, [count[0], count[1]]);

      // bring the length eight short of whole blocks
      IndexFromCounter(count[0], count[1], |message|, blocks);
      var index := count[0] / 8 % 64;
      var padLen := if index < 56 then 56 - index else 120 - index;
      var padding := new Byte[64](i => if i == 0 then 0x80 else 0);
      PadLengthFromIndex(|message|, blocks, index);
      assert padding[..padLen] == Padding(padLen);
      ghost var words := LengthWords(|message|);
      assert [count[0], count[1]] == words;
      Update(padding, padLen);

      // the eight missing bytes: the bit count taken at the start
      Update(bits, 8);
      assert bits[..8] == EncodeWords(words);
    }

    /** Pads, appends the length, and writes the digest; a second call changes nothing. */
    method Finalize()
      requires Valid()
      modifies this, buffer, count, state, digest
      ensures Valid() && finalized && message == old(message)
      ensures old(finalized) ==> digest[..] == old(digest[..])
    {
      hide Compress, StoreByte, EncodeWords;
      if !finalized {
        ghost var m := message;
        UpdatePadding();
        WholeBlocks(|message|, blocks);
        Encode(digest, [state[0], state[1], state[2], state[3]]);
        assert digest[..] == digest[..16] == EncodeWords(RegWords(Fold(Pad(m), |Pad(m)| / 64)));

        forall k | 0 <= k < 64 {
          buffer[k] := 0;
        }
        count[0], count[1] := 0, 0;
        finalized, message := true, m;
      }
    }

    ghost function Registers(): Regs
      requires state.Length == 4
      reads state
    {
      Regs(state[0], state[1], state[2], state[3])
    }

    /** Thirty-two hexadecimal digits, or nothing before `Finalize`. */
    method HexDigest() returns (text: string)
      requires Valid()
      ensures text == if finalized then Hex(Digest(message)) else ""
    {
      hide Digest, Tracking, HexDigit;
      if !finalized {
        return "";
      }
      text := "";
      for i := 0 to 16
        invariant text == Hex(digest[..i])
      {
        text := text + [HexDigit(digest[i] / 16), HexDigit(digest[i] % 16)];
        assert digest[..i + 1][..i] == digest[..i];
      }
      assert digest[..16] == digest[..];
    }
  }

  // ---------- Hexadecimal text ----------

  function HexDigit(n: nat): char
    requires n < 16
  {
    if n < 10 then '0' + n as char else 'a' + (n - 10) as char
  }

  function Hex(bytes: seq<Byte>): (text: string)
    ensures |text| == 2 * |bytes|
  {
    if bytes == [] then ""
    else Hex(bytes[..|bytes| - 1]) + [HexDigit(bytes[|bytes| - 1] / 16), HexDigit(bytes[|bytes| - 1] % 16)]
  }

  /** Two digits a byte, the high one first. */
  lemma {:induction false} HexDigits(bytes: seq<Byte>, i: nat)
    requires i < |bytes|
    ensures Hex(bytes)[2 * i] == "0123456789abcdef"[bytes[i] / 16]
    ensures Hex(bytes)[2 * i + 1] == "0123456789abcdef"[bytes[i] % 16]
    decreases |bytes|
  {
    var n := |bytes| - 1;
    if i < n {
      HexDigits(bytes[..n], i);
      assert Hex(bytes)[..2 * n] == Hex(bytes[..n]);
    } else {
      DigitIs(bytes[n] / 16);
      DigitIs(bytes[n] % 16);
    }
  }

  lemma DigitIs(n: nat)
    requires n < 16
    ensures HexDigit(n) == "0123456789abcdef"[n]
  {
  }

  /** Different digests never share a hexadecimal text. */
  lemma {:induction false} HexInjective(a: seq<Byte>, b: seq<Byte>)
    requires Hex(a) == Hex(b)
    ensures a == b
    decreases |a|
  {
    assert |a| == |b|;
    if a != [] {
      var n := |a| - 1;
      assert Hex(a)[..2 * n] == Hex(a[..n]) && Hex(b)[..2 * n] == Hex(b[..n]);
      HexInjective(a[..n], b[..n]);
      assert Hex(a)[2 * n] == Hex(b)[2 * n] && Hex(a)[2 * n + 1] == Hex(b)[2 * n + 1];
      assert a[n] == b[n];
      assert a == a[..n] + [a[n]] && b == b[..n] + [b[n]];
    }
  }

  // ---------- Whole runs ----------

  function Flatten(chunks: seq<seq<Byte>>): seq<Byte> {
    if chunks == [] then [] else Flatten(chunks[..|chunks| - 1]) + chunks[|chunks| - 1]
  }

  lemma FlattenSnoc(chunks: seq<seq<Byte>>, k: nat)
    requires k < |chunks|
    ensures Flatten(chunks[..k + 1]) == Flatten(chunks[..k]) + chunks[k]
  {
    assert chunks[..k + 1][..k] == chunks[..k];
  }

  /** Every chunk has a length `Update` can take at the point where it is fed. */
  predicate ChunksFit(chunks: seq<seq<Byte>>) {
    forall k | 0 <= k < |chunks| ::
      |chunks[k]| < 0x1_0000_0000 && LengthFits(|Flatten(chunks[..k])| % 64, |chunks[k]|)
  }

  /** However a message is cut into `Update` calls, and however often `Finalize` is repeated, the object
      returns the RFC 1321 digest of the whole message. */
  method DigestInChunks(chunks: seq<seq<Byte>>, again: nat) returns (d: seq<Byte>, text: string)
    requires ChunksFit(chunks)
    ensures d == Digest(Flatten(chunks)) && text == Hex(d)
  {
    hide Compress, CountsBits, Digest, Fold, Hex;
    var md5 := new MD5();
    for k := 0 to |chunks|
      invariant fresh(md5) && fresh(md5.buffer) && fresh(md5.count) && fresh(md5.state) && fresh(md5.digest)
      invariant md5.Valid() && !md5.finalized && md5.message == Flatten(chunks[..k])
    {
      var chunk := chunks[k];
      var input := new Byte[|chunk|](i requires 0 <= i < |chunk| => chunk[i]);
      assert input[..|chunk|] == chunk;
      FlattenSnoc(chunks, k);
      Remainder(|md5.message|, md5.blocks);
      md5.Update(input, |chunk|);
    }
    assert chunks[..|chunks|] == chunks;
    md5.Finalize();
    for k := 0 to again
      invariant fresh(md5) && fresh(md5.buffer) && fresh(md5.count) && fresh(md5.state) && fresh(md5.digest)
      invariant md5.Valid() && md5.finalized && md5.message == Flatten(chunks)
    {
      md5.Finalize();
    }
    d := md5.digest[..];
    text := md5.HexDigest();
  }

  /** The free function `md5`: one update, whose length parameter keeps the low 32 bits of the text's length; so that
      is how much of the text is hashed, which is all of it below 2^32 bytes. */
  method Md5Text(message: seq<Byte>) returns (text: string)
    requires LengthFits(0, |message| % 0x1_0000_0000)
    ensures text == Hex(Digest(message[..|message| % 0x1_0000_0000]))
    ensures |message| < 0x1_0000_0000 ==> text == Hex(Digest(message))
  {
    var hashed := message[..|message| % 0x1_0000_0000];
    assert |message| < 0x1_0000_0000 ==> hashed == message;
    assert Flatten([hashed][..0]) == [] && Flatten([hashed]) == hashed;
    var d;
    d, text := DigestInChunks([hashed], 0);
  }
}
