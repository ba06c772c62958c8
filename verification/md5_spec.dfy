/**
 The MD5 message-digest algorithm as RFC 1321 defines it, section by section: the padding of
 sections 3.1 and 3.2, the table-driven 64-step compression of section 3.4, and the digest of
 section 3.5.  Nothing here is incremental; module `Md5` is proved against it.
 */
module Md5Spec {
  import opened Common

  type Word = x: int | 0 <= x < 0x1_0000_0000
  type Block = b: seq<Byte> | |b| == 64 witness seq(64, _ => 0)

  // ---------- 32-bit operations ----------

  function Pow2(n: nat): (p: nat)
    ensures p > 0
  {
    if n == 0 then 1 else 2 * Pow2(n - 1)
  }

  /** The boolean operation `op` on each of the low `n` bits of `x` and `y`. */
  function Bitwise(op: (bool, bool) -> bool, x: nat, y: nat, n: nat): (r: nat)
    ensures r < Pow2(n)
  {
    if n == 0 then 0
    else (if op(x % 2 == 1, y % 2 == 1) then 1 else 0) + 2 * Bitwise(op, x / 2, y / 2, n - 1)
  }

  lemma Pow2Values()
    ensures Pow2(8) == 0x100 && Pow2(16) == 0x1_0000 && Pow2(24) == 0x100_0000 && Pow2(32) == 0x1_0000_0000
  {
  }

  function OnWords(op: (bool, bool) -> bool, x: Word, y: Word): Word {
    Pow2Values();
    Bitwise(op, x, y, 32)
  }

  function And(x: Word, y: Word): Word { OnWords(AndBit, x, y) }
  function Or(x: Word, y: Word): Word { OnWords(OrBit, x, y) }
  function Xor(x: Word, y: Word): Word { OnWords(XorBit, x, y) }
  function Not(x: Word): Word { 0x1_0000_0000 - 1 - x }
  function Add(x: Word, y: Word): Word { (x + y) % 0x1_0000_0000 }
  function ShiftLeft(x: Word, n: nat): Word
    decreases n
  {
    if n == 0 then x else ShiftLeft(2 * x % 0x1_0000_0000, n - 1)
  }

  function ShiftRight(x: Word, n: nat): Word { if n == 0 then x else ShiftRight(x / 2, n - 1) }

  predicate AndBit(p: bool, q: bool) { p && q }
  predicate OrBit(p: bool, q: bool) { p || q }
  predicate XorBit(p: bool, q: bool) { p != q }

  // ---------- Words and bytes (little-endian) ----------

  function LoadWord(b0: Byte, b1: Byte, b2: Byte, b3: Byte): Word {
    b0 + 0x100 * b1 + 0x1_0000 * b2 + 0x100_0000 * b3
  }

  /** Or-ing numbers that share no bit adds them. */
  lemma {:induction false} DisjointOr(x: nat, y: nat, k: nat, n: nat)
    requires k <= n && x < Pow2(k) && y * Pow2(k) < Pow2(n)
    ensures Bitwise(OrBit, x, y * Pow2(k), n) == x + y * Pow2(k)
  {
    if n == 0 {
    } else if k == 0 {
      DisjointOr(0, y / 2, 0, n - 1);
    } else {
      var high := y * Pow2(k - 1);
      assert y * Pow2(k) == 2 * high;
      DisjointOr(x / 2, y, k - 1, n - 1);
    }
  }

  lemma {:induction false} ShiftLeftSmall(x: Word, n: nat)
    requires x * Pow2(n) < 0x1_0000_0000
    ensures ShiftLeft(x, n) == x * Pow2(n)
    decreases n
  {
    if n > 0 {
      var p := Pow2(n - 1);
      assert x * (2 * p) == 2 * x * p;
      assert 2 * x * 1 <= 2 * x * p;
      ShiftLeftSmall(2 * x, n - 1);
    }
  }

  lemma OrShifted(x: Word, y: Byte, k: nat, p: nat)
    requires k <= 32 && Pow2(k) == p && x < p && y * p < 0x1_0000_0000
    ensures Or(x, ShiftLeft(y, k)) == x + y * p
  {
    Pow2Values();
    ShiftLeftSmall(y, k);
    DisjointOr(x, y, k, 32);
  }

  /** Or-ing the four bytes shifted into place, as `decode` does, adds them. */
  lemma LoadWordIsOr(b0: Byte, b1: Byte, b2: Byte, b3: Byte)
    ensures Or(Or(Or(b0, ShiftLeft(b1, 8)), ShiftLeft(b2, 16)), ShiftLeft(b3, 24)) == LoadWord(b0, b1, b2, b3)
  {
    Pow2Values();
    OrShifted(b0, b1, 8, 0x100);
    OrShifted(b0 + 0x100 * b1, b2, 16, 0x1_0000);
    OrShifted(b0 + 0x100 * b1 + 0x1_0000 * b2, b3, 24, 0x100_0000);
  }

  /** Byte `k` of a word, least significant first. */
  function StoreByte(w: Word, k: nat): Byte
    requires k < 4
  {
    match k
    case 0 => w % 0x100
    case 1 => w / 0x100 % 0x100
    case 2 => w / 0x1_0000 % 0x100
    case _ => w / 0x100_0000 % 0x100
  }

  function DecodeWords(bytes: seq<Byte>): (words: seq<Word>)
    requires |bytes| % 4 == 0
    ensures |words| == |bytes| / 4
  {
    seq(|bytes| / 4, i requires 0 <= i < |bytes| / 4 =>
      LoadWord(bytes[4 * i], bytes[4 * i + 1], bytes[4 * i + 2], bytes[4 * i + 3]))
  }

  function EncodeWords(words: seq<Word>): (bytes: seq<Byte>)
    ensures |bytes| == 4 * |words|
  {
    seq(4 * |words|, j requires 0 <= j < 4 * |words| => StoreByte(words[j / 4], j % 4))
  }

  lemma SplitByte(w: nat, b: Byte, rest: nat)
    ensures w == b + 0x100 * rest <==> w % 0x100 == b && w / 0x100 == rest
  {
  }

  /** A word is rebuilt from its bytes, and only from them. */
  lemma LoadStore(w: Word, b0: Byte, b1: Byte, b2: Byte, b3: Byte)
    ensures LoadWord(b0, b1, b2, b3) == w <==>
            StoreByte(w, 0) == b0 && StoreByte(w, 1) == b1 && StoreByte(w, 2) == b2 && StoreByte(w, 3) == b3
  {
    var q1, q2, q3 := w / 0x100, w / 0x1_0000, w / 0x100_0000;
    assert q2 == q1 / 0x100 && q3 == q2 / 0x100 && q3 < 0x100;
    SplitByte(w, b0, b1 + 0x100 * b2 + 0x1_0000 * b3);
    SplitByte(q1, b1, b2 + 0x100 * b3);
    SplitByte(q2, b2, b3);
  }

  lemma EncodedByte(words: seq<Word>, i: nat, k: nat)
    requires i < |words| && k < 4
    ensures EncodeWords(words)[4 * i + k] == StoreByte(words[i], k)
  {
  }

  lemma LoadedWord(words: seq<Word>, i: nat)
    requires i < |words|
    ensures DecodeWords(EncodeWords(words))[i] == words[i]
  {
    var w, bytes := words[i], EncodeWords(words);
    EncodedByte(words, i, 0);
    EncodedByte(words, i, 1);
    EncodedByte(words, i, 2);
    EncodedByte(words, i, 3);
    LoadStore(w, bytes[4 * i], bytes[4 * i + 1], bytes[4 * i + 2], bytes[4 * i + 3]);
  }

  /** `decode` undoes `encode`. */
  lemma DecodeEncode(words: seq<Word>)
    ensures DecodeWords(EncodeWords(words)) == words
  {
    forall i | 0 <= i < |words|
      ensures DecodeWords(EncodeWords(words))[i] == words[i]
    {
      LoadedWord(words, i);
    }
  }

  lemma StoredByte(bytes: seq<Byte>, j: nat)
    requires |bytes| % 4 == 0 && j < |bytes|
    ensures StoreByte(DecodeWords(bytes)[j / 4], j % 4) == bytes[j]
  {
    var i, k, w := j / 4, j % 4, DecodeWords(bytes)[j / 4];
    LoadStore(w, bytes[4 * i], bytes[4 * i + 1], bytes[4 * i + 2], bytes[4 * i + 3]);
    assert j == 4 * i + k && (k == 0 || k == 1 || k == 2 || k == 3);
  }

  /** `encode` undoes `decode` on whole words. */
  lemma EncodeDecode(bytes: seq<Byte>)
    requires |bytes| % 4 == 0
    ensures EncodeWords(DecodeWords(bytes)) == bytes
  {
    forall j | 0 <= j < |bytes|
      ensures EncodeWords(DecodeWords(bytes))[j] == bytes[j]
    {
      StoredByte(bytes, j);
    }
  }

  // ---------- Compression (section 3.4) ----------

  datatype Regs = Regs(a: Word, b: Word, c: Word, d: Word)

  const IV := Regs(0x67452301, 0xefcdab89, 0x98badcfe, 0x10325476)

  function F(x: Word, y: Word, z: Word): Word { Or(And(x, y), And(Not(x), z)) }
  function G(x: Word, y: Word, z: Word): Word { Or(And(x, z), And(y, Not(z))) }
  function H(x: Word, y: Word, z: Word): Word { Xor(Xor(x, y), z) }
  function I(x: Word, y: Word, z: Word): Word { Xor(y, Or(x, Not(z))) }

  function RotateLeft(x: Word, n: nat): Word
    requires 0 < n < 32
  {
    Or(ShiftLeft(x, n), ShiftRight(x, 32 - n))
  }

  // Sine table T[1..64] of section 3.4, taken as given, sixteen entries a round.

  function T1(k: nat): Word {
    match k
    case 0 => 0xd76aa478 case 1 => 0xe8c7b756 case 2 => 0x242070db case 3 => 0xc1bdceee
    case 4 => 0xf57c0faf case 5 => 0x4787c62a case 6 => 0xa8304613 case 7 => 0xfd469501
    case 8 => 0x698098d8 case 9 => 0x8b44f7af case 10 => 0xffff5bb1 case 11 => 0x895cd7be
    case 12 => 0x6b901122 case 13 => 0xfd987193 case 14 => 0xa679438e case _ => 0x49b40821
  }

  function T2(k: nat): Word {
    match k
    case 0 => 0xf61e2562 case 1 => 0xc040b340 case 2 => 0x265e5a51 case 3 => 0xe9b6c7aa
    case 4 => 0xd62f105d case 5 => 0x02441453 case 6 => 0xd8a1e681 case 7 => 0xe7d3fbc8
    case 8 => 0x21e1cde6 case 9 => 0xc33707d6 case 10 => 0xf4d50d87 case 11 => 0x455a14ed
    case 12 => 0xa9e3e905 case 13 => 0xfcefa3f8 case 14 => 0x676f02d9 case _ => 0x8d2a4c8a
  }

  function T3(k: nat): Word {
    match k
    case 0 => 0xfffa3942 case 1 => 0x8771f681 case 2 => 0x6d9d6122 case 3 => 0xfde5380c
    case 4 => 0xa4beea44 case 5 => 0x4bdecfa9 case 6 => 0xf6bb4b60 case 7 => 0xbebfbc70
    case 8 => 0x289b7ec6 case 9 => 0xeaa127fa case 10 => 0xd4ef3085 case 11 => 0x04881d05
    case 12 => 0xd9d4d039 case 13 => 0xe6db99e5 case 14 => 0x1fa27cf8 case _ => 0xc4ac5665
  }

  function T4(k: nat): Word {
    match k
    case 0 => 0xf4292244 case 1 => 0x432aff97 case 2 => 0xab9423a7 case 3 => 0xfc93a039
    case 4 => 0x655b59c3 case 5 => 0x8f0ccc92 case 6 => 0xffeff47d case 7 => 0x85845dd1
    case 8 => 0x6fa87e4f case 9 => 0xfe2ce6e0 case 10 => 0xa3014314 case 11 => 0x4e0811a1
    case 12 => 0xf7537e82 case 13 => 0xbd3af235 case 14 => 0x2ad7d2bb case _ => 0xeb86d391
  }

  function T(i: nat): Word
    requires i < 64
  {
    if i < 16 then T1(i) else if i < 32 then T2(i - 16) else if i < 48 then T3(i - 32) else T4(i - 48)
  }

  /** Rotation amounts: four per round, repeated four times. */
  function Shift(i: nat): (s: nat)
    requires i < 64
    ensures 0 < s < 32
  {
    match (i / 16, i % 4)
    case (0, 0) => 7 case (0, 1) => 12 case (0, 2) => 17 case (0, _) => 22
    case (1, 0) => 5 case (1, 1) => 9 case (1, 2) => 14 case (1, _) => 20
    case (2, 0) => 4 case (2, 1) => 11 case (2, 2) => 16 case (2, _) => 23
    case (_, 0) => 6 case (_, 1) => 10 case (_, 2) => 15 case (_, _) => 21
  }

  /** Word consumed by step `i`. */
  function WordIndex(i: nat): (k: nat)
    requires i < 64
    ensures k < 16
  {
    match i / 16
    case 0 => i
    case 1 => (5 * i + 1) % 16
    case 2 => (3 * i + 5) % 16
    case _ => (7 * i) % 16
  }

  function Mix(i: nat, x: Word, y: Word, z: Word): Word
    requires i < 64
  {
    match i / 16
    case 0 => F(x, y, z)
    case 1 => G(x, y, z)
    case 2 => H(x, y, z)
    case _ => I(x, y, z)
  }

  /** One step: a is replaced, then the registers rotate one place. */
  function Step(i: nat, r: Regs, x: seq<Word>): Regs
    requires i < 64 && |x| == 16
  {
    var sum := Add(Add(Add(r.a, Mix(i, r.b, r.c, r.d)), x[WordIndex(i)]), T(i));
    Regs(r.d, Add(RotateLeft(sum, Shift(i)), r.b), r.b, r.c)
  }

  function Steps(n: nat, r: Regs, x: seq<Word>): Regs
    requires n <= 64 && |x| == 16
    decreases |x|, n
  {
    if n == 0 then r else Step(n - 1, Steps(n - 1, r, x), x)
  }

  function AddRegs(r: Regs, q: Regs): Regs {
    Regs(Add(r.a, q.a), Add(r.b, q.b), Add(r.c, q.c), Add(r.d, q.d))
  }

  function Compress(r: Regs, block: Block): Regs {
    var q := Steps(64, r, DecodeWords(block));
    AddRegs(r, q)
  }

  /** Any block function folded over the first `n` 64-byte blocks of `m`. */
  function FoldBlocks<S>(f: (S, Block) -> S, s: S, m: seq<Byte>, n: nat): S
    requires 64 * n <= |m|
    decreases n
  {
    if n == 0 then s else f(FoldBlocks(f, s, m, n - 1), m[64 * n - 64..64 * n])
  }

  /** Folding over one block applies the function to it. */
  lemma FoldOne<S>(f: (S, Block) -> S, s: S, m: seq<Byte>)
    requires 64 <= |m|
    ensures FoldBlocks(f, s, m, 0) == s && FoldBlocks(f, s, m, 1) == f(s, m[..64])
  {
    assert FoldBlocks(f, s, m, 1) == f(FoldBlocks(f, s, m, 0), m[0..64]);
    assert m[0..64] == m[..64];
  }

  /** Folding distributes over concatenation at a block boundary. */
  lemma {:induction false} FoldConcat<S>(f: (S, Block) -> S, s: S, m: seq<Byte>, a: nat, m': seq<Byte>, b: nat)
    requires |m| == 64 * a && 64 * b <= |m'|
    ensures FoldBlocks(f, s, m + m', a + b) == FoldBlocks(f, FoldBlocks(f, s, m, a), m', b)
    decreases b
  {
    if b == 0 {
      FoldPrefix(f, s, m + m', m, a);
    } else {
      FoldConcat(f, s, m, a, m', b - 1);
      assert (m + m')[64 * (a + b) - 64..64 * (a + b)] == m'[64 * b - 64..64 * b];
    }
  }

  lemma {:induction false} FoldPrefix<S>(f: (S, Block) -> S, s: S, m: seq<Byte>, m': seq<Byte>, n: nat)
    requires 64 * n <= |m| && 64 * n <= |m'| && m[..64 * n] == m'[..64 * n]
    ensures FoldBlocks(f, s, m, n) == FoldBlocks(f, s, m', n)
    decreases n
  {
    if n > 0 {
      assert m[..64 * (n - 1)] == m[..64 * n][..64 * (n - 1)] == m'[..64 * (n - 1)];
      assert m[64 * n - 64..64 * n] == m[..64 * n][64 * n - 64..] == m'[64 * n - 64..64 * n];
      FoldPrefix(f, s, m, m', n - 1);
    }
  }

  /** Compression folded over the first `n` blocks of a message, from the initial registers. */
  function Fold(m: seq<Byte>, n: nat): Regs
    requires 64 * n <= |m|
  {
    FoldBlocks(Compress, IV, m, n)
  }

  // ---------- Padding (sections 3.1 and 3.2) and digest (section 3.5) ----------

  /** Number of padding bytes after a message of `n` bytes: a 1 bit, then zeros, up to 56 mod 64. */
  function PadLength(n: nat): nat { if n % 64 < 56 then 56 - n % 64 else 120 - n % 64 }

  /** The only length between 1 and 64 that reaches 56 modulo 64, which is how section 3.1 defines it. */
  lemma PadLengthUnique(n: nat, p: nat)
    ensures (1 <= p <= 64 && (n + p) % 64 == 56) <==> p == PadLength(n)
  {
  }

  lemma PaddedLength(n: nat)
    ensures (n + PadLength(n) + 8) % 64 == 0
  {
  }

  function Padding(k: nat): seq<Byte>
    requires 1 <= k
  {
    seq(k, i => if i == 0 then 0x80 else 0)
  }

  /** The length in bits modulo 2^64 as two words, low-order word first (section 3.2). */
  function LengthWords(n: nat): (words: seq<Word>)
    ensures |words| == 2
  {
    [8 * n % 0x1_0000_0000, 8 * n / 0x1_0000_0000 % 0x1_0000_0000]
  }

  function Pad(m: seq<Byte>): (p: seq<Byte>)
    ensures |p| % 64 == 0 && m <= p
  {
    PaddedLength(|m|);
    m + Padding(PadLength(|m|)) + EncodeWords(LengthWords(|m|))
  }

  function RegWords(r: Regs): seq<Word> { [r.a, r.b, r.c, r.d] }

  /** The MD5 digest of a message. */
  function Digest(m: seq<Byte>): (d: seq<Byte>)
    ensures |d| == 16
  {
    EncodeWords(RegWords(Fold(Pad(m), |Pad(m)| / 64)))
  }
}
