/**
 What the word operations of MD5 compute, in arithmetic: shifts and rotations as products and quotients, and the
 round functions bit by bit.  Bit `k` of `x` is written `x / Pow2(k) % 2`.
 */
module Md5Words {
  import opened Arithmetic
  import opened Common
  import opened Md5Spec

  // ---------- Powers of two ----------

  lemma {:induction false} Pow2Sum(m: nat, n: nat)
    ensures Pow2(m + n) == Pow2(m) * Pow2(n)
    decreases m
  {
    if m > 0 {
      Pow2Sum(m - 1, n);
      assert 2 * (Pow2(m - 1) * Pow2(n)) == (2 * Pow2(m - 1)) * Pow2(n);
    }
  }

  lemma HalveFirst(x: nat, p: nat)
    requires p > 0
    ensures x / (2 * p) == x / 2 / p
  {
    var h := x / 2;
    var q, rest := h / p, h % p;
    assert h == q * p + rest;
    assert x == q * (2 * p) + (2 * rest + x % 2) by {
      assert q * (2 * p) == 2 * (q * p);
    }
    QuotientIs(x, 2 * p, q, 2 * rest + x % 2);
  }

  // ---------- Shifts and rotations ----------

  lemma {:induction false} ShiftRightIs(x: Word, n: nat)
    ensures ShiftRight(x, n) == x / Pow2(n)
    decreases n
  {
    if n > 0 {
      ShiftRightIs(x / 2, n - 1);
      HalveFirst(x, Pow2(n - 1));
    }
  }

  lemma ReduceFirst(x: nat, b: nat)
    ensures x % 0x1_0000_0000 * b % 0x1_0000_0000 == x * b % 0x1_0000_0000
  {
    var q, low := x / 0x1_0000_0000, x % 0x1_0000_0000;
    var q', low' := low * b / 0x1_0000_0000, low * b % 0x1_0000_0000;
    assert x * b == q * b * 0x1_0000_0000 + low * b by {
      assert x == q * 0x1_0000_0000 + low;
      assert q * 0x1_0000_0000 * b == q * b * 0x1_0000_0000;
    }
    assert x * b == (q * b + q') * 0x1_0000_0000 + low';
    QuotientIs(x * b, 0x1_0000_0000, q * b + q', low');
  }

  lemma Doubled(x: int, p: int)
    ensures 2 * x * p == x * (2 * p)
  {
  }

  lemma {:induction false} ShiftLeftIs(x: Word, n: nat)
    ensures ShiftLeft(x, n) == x * Pow2(n) % 0x1_0000_0000
    decreases n
  {
    if n > 0 {
      var p, y: Word := Pow2(n - 1), 2 * x % 0x1_0000_0000;
      ShiftLeftIs(y, n - 1);
      ReduceFirst(2 * x, p);
      Doubled(x, p);
    } else {
      assert x * 1 == x;
    }
  }

  lemma {:induction false} OrCommutes(x: nat, y: nat, n: nat)
    ensures Bitwise(OrBit, x, y, n) == Bitwise(OrBit, y, x, n)
    decreases n
  {
    if n > 0 {
      OrCommutes(x / 2, y / 2, n - 1);
    }
  }

  /** Rotating left by `n` moves every bit up `n` places; the top `n` bits come in at the bottom. */
  lemma {:induction false} RotateLeftIs(x: Word, n: nat)
    requires 0 < n < 32
    ensures RotateLeft(x, n) == x * Pow2(n) % 0x1_0000_0000 + x / Pow2(32 - n)
  {
    hide Bitwise, Pow2;
    var p, q := Pow2(n), Pow2(32 - n);
    TwoParts(n);
    ShiftLeftIs(x, n);
    ShiftRightIs(x, 32 - n);
    var high, low := x % q, x / q;
    HighPart(x, p, q);
    assert high * p < 0x1_0000_0000 && low < p;
    DisjointOr(low, high, n, 32);
    OrCommutes(high * p, low, 32);
  }

  lemma TwoParts(n: nat)
    requires n <= 32
    ensures Pow2(n) * Pow2(32 - n) == Pow2(32) == 0x1_0000_0000 && Pow2(n) > 0 && Pow2(32 - n) > 0
  {
    Pow2Values();
    Pow2Sum(n, 32 - n);
  }

  lemma HighPart(x: Word, p: nat, q: nat)
    requires p > 0 && q > 0 && p * q == 0x1_0000_0000
    ensures x * p % 0x1_0000_0000 == x % q * p && x % q * p < 0x1_0000_0000 && x / q < p
  {
    var high, low := x % q, x / q;
    NotNegative(high, p);
    MoreTimes(high, q, p);
    assert q * p == p * q;
    MoreTimes(p - 1, low, q);
    Distribute(p - 1, 1, q);
    Regroup(x, low, high, p, q);
    QuotientIs(x * p, 0x1_0000_0000, low, high * p);
  }

  lemma Regroup(x: nat, low: nat, high: nat, p: nat, q: nat)
    requires x == low * q + high
    ensures x * p == low * (p * q) + high * p
  {
    Distribute(low * q, high, p);
    assert low * q * p == low * (q * p);
    assert q * p == p * q;
  }

  // ---------- Bit by bit ----------

  lemma {:induction false} BitwiseBit(op: (bool, bool) -> bool, x: nat, y: nat, n: nat, k: nat)
    requires k < n
    ensures Bitwise(op, x, y, n) / Pow2(k) % 2 == if op(x / Pow2(k) % 2 == 1, y / Pow2(k) % 2 == 1) then 1 else 0
    decreases k
  {
    var rest := Bitwise(op, x / 2, y / 2, n - 1);
    if k > 0 {
      BitwiseBit(op, x / 2, y / 2, n - 1, k - 1);
      HalveFirst(x, Pow2(k - 1));
      HalveFirst(y, Pow2(k - 1));
      HalveFirst(Bitwise(op, x, y, n), Pow2(k - 1));
      assert Bitwise(op, x, y, n) / 2 == rest;
    }
  }

  lemma {:induction false} NotBit(x: nat, n: nat, k: nat)
    requires k < n && x < Pow2(n)
    ensures (Pow2(n) - 1 - x) / Pow2(k) % 2 == 1 - x / Pow2(k) % 2
    decreases k
  {
    if k > 0 {
      NotBit(x / 2, n - 1, k - 1);
      HalveFirst(x, Pow2(k - 1));
      HalveFirst(Pow2(n) - 1 - x, Pow2(k - 1));
      assert (Pow2(n) - 1 - x) / 2 == Pow2(n - 1) - 1 - x / 2;
    }
  }

  // The operators on bit `k`: product, maximum, sum modulo two, complement.

  lemma {:induction false} AndBits(x: Word, y: Word, k: nat)
    requires k < 32
    ensures And(x, y) / Pow2(k) % 2 == if x / Pow2(k) % 2 == 1 then y / Pow2(k) % 2 else 0
  {
    hide Bitwise, Pow2;
    BitwiseBit(AndBit, x, y, 32, k);
  }

  lemma {:induction false} OrBits(x: Word, y: Word, k: nat)
    requires k < 32
    ensures Or(x, y) / Pow2(k) % 2 == if x / Pow2(k) % 2 == 1 then 1 else y / Pow2(k) % 2
  {
    hide Bitwise, Pow2;
    BitwiseBit(OrBit, x, y, 32, k);
  }

  lemma {:induction false} XorBits(x: Word, y: Word, k: nat)
    requires k < 32
    ensures Xor(x, y) / Pow2(k) % 2 == (x / Pow2(k) % 2 + y / Pow2(k) % 2) % 2
  {
    hide Bitwise, Pow2;
    BitwiseBit(XorBit, x, y, 32, k);
  }

  lemma {:induction false} NotBits(x: Word, k: nat)
    requires k < 32
    ensures Not(x) / Pow2(k) % 2 == 1 - x / Pow2(k) % 2
  {
    Pow2Values();
    NotBit(x, 32, k);
  }

  // The round functions on bit `k`.

  /** `F` lets `x` choose between `y` and `z`. */
  lemma {:induction false} FBits(x: Word, y: Word, z: Word, k: nat)
    requires k < 32
    ensures F(x, y, z) / Pow2(k) % 2 == if x / Pow2(k) % 2 == 1 then y / Pow2(k) % 2 else z / Pow2(k) % 2
  {
    hide Pow2, And, Or, Not;
    AndBits(x, y, k);
    NotBits(x, k);
    AndBits(Not(x), z, k);
    OrBits(And(x, y), And(Not(x), z), k);
  }

  /** `G` lets `z` choose between `x` and `y`. */
  lemma {:induction false} GBits(x: Word, y: Word, z: Word, k: nat)
    requires k < 32
    ensures G(x, y, z) / Pow2(k) % 2 == if z / Pow2(k) % 2 == 1 then x / Pow2(k) % 2 else y / Pow2(k) % 2
  {
    hide Pow2, And, Or, Not;
    AndBits(x, z, k);
    NotBits(z, k);
    AndBits(y, Not(z), k);
    OrBits(And(x, z), And(y, Not(z)), k);
  }

  function Bit(x: nat, k: nat): nat { x / Pow2(k) % 2 }

  lemma {:induction false} XorBitIs(x: Word, y: Word, k: nat)
    requires k < 32
    ensures Bit(Xor(x, y), k) == (Bit(x, k) + Bit(y, k)) % 2
  {
    hide Pow2, Xor;
    XorBits(x, y, k);
  }

  lemma {:induction false} HBitIs(x: Word, y: Word, z: Word, k: nat)
    requires k < 32
    ensures Bit(H(x, y, z), k) == (Bit(x, k) + Bit(y, k) + Bit(z, k)) % 2
  {
    hide Bit, Xor;
    XorBitIs(x, y, k);
    XorBitIs(Xor(x, y), z, k);
    Parity(Bit(x, k), Bit(y, k), Bit(z, k));
  }

  /** `H` is the parity. */
  lemma {:induction false} HBits(x: Word, y: Word, z: Word, k: nat)
    requires k < 32
    ensures H(x, y, z) / Pow2(k) % 2 == (x / Pow2(k) % 2 + y / Pow2(k) % 2 + z / Pow2(k) % 2) % 2
  {
    hide Pow2, H;
    HBitIs(x, y, z, k);
  }

  lemma Parity(p: nat, q: nat, t: nat)
    ensures ((p + q) % 2 + t) % 2 == (p + q + t) % 2
  {
  }

  /** `I` flips `y` where `x` has a one or `z` a zero. */
  lemma {:induction false} IBits(x: Word, y: Word, z: Word, k: nat)
    requires k < 32
    ensures var p, q, t := x / Pow2(k) % 2, y / Pow2(k) % 2, z / Pow2(k) % 2;
            I(x, y, z) / Pow2(k) % 2 == if p == 1 || t == 0 then 1 - q else q
  {
    hide Pow2, Or, Xor, Not;
    NotBits(z, k);
    OrBits(x, Not(z), k);
    XorBits(y, Or(x, Not(z)), k);
  }

  /** Words with the same bits are the same word. */
  lemma {:induction false} SameBits(x: nat, y: nat, n: nat)
    requires x < Pow2(n) && y < Pow2(n) && forall k: nat | k < n :: x / Pow2(k) % 2 == y / Pow2(k) % 2
    ensures x == y
    decreases n
  {
    if n > 0 {
      forall k: nat | k < n - 1 ensures x / 2 / Pow2(k) % 2 == y / 2 / Pow2(k) % 2 {
        HalveFirst(x, Pow2(k));
        HalveFirst(y, Pow2(k));
        assert x / Pow2(k + 1) % 2 == y / Pow2(k + 1) % 2;
      }
      SameBits(x / 2, y / 2, n - 1);
      assert x / Pow2(0) % 2 == y / Pow2(0) % 2;
    }
  }

  // ---------- Steps and compression ----------

  lemma SumModulo(x: nat, y: nat)
    ensures (x % 0x1_0000_0000 + y) % 0x1_0000_0000 == (x + y) % 0x1_0000_0000
  {
  }

  /** Adding and rotating words, in arithmetic. */
  lemma {:induction false} RotatedSum(a: Word, mixed: Word, x: Word, ac: Word, b: Word, s: nat)
    requires 0 < s < 32
    ensures var sum := (a + mixed + x + ac) % 0x1_0000_0000;
            Add(RotateLeft(Add(Add(Add(a, mixed), x), ac), s), b) ==
            (b + sum * Pow2(s) % 0x1_0000_0000 + sum / Pow2(32 - s)) % 0x1_0000_0000
  {
    hide Pow2, RotateLeft;
    var sum := Add(Add(Add(a, mixed), x), ac);
    SumModulo(a + mixed, x);
    SumModulo(a + mixed + x, ac);
    RotateLeftIs(sum, s);
  }

  /** One step: the sum of a register, the round's function of the other three, a word of the block and a constant, all
      modulo 2^32, is rotated and added to the next register; then the registers move on one place. */
  lemma {:induction false} StepIs(i: nat, r: Regs, x: seq<Word>)
    requires i < 64 && |x| == 16
    ensures var mixed := if i < 16 then F(r.b, r.c, r.d) else if i < 32 then G(r.b, r.c, r.d)
                         else if i < 48 then H(r.b, r.c, r.d) else I(r.b, r.c, r.d);
            var word := x[if i < 16 then i else if i < 32 then (5 * i + 1) % 16
                          else if i < 48 then (3 * i + 5) % 16 else 7 * i % 16];
            var s := [7, 12, 17, 22, 5, 9, 14, 20, 4, 11, 16, 23, 6, 10, 15, 21][4 * (i / 16) + i % 4];
            var sum := (r.a + mixed + word + T(i)) % 0x1_0000_0000;
            && 0 < s < 32
            && Step(i, r, x) ==
               Regs(r.d, (r.b + sum * Pow2(s) % 0x1_0000_0000 + sum / Pow2(32 - s)) % 0x1_0000_0000, r.b, r.c)
  {
    hide Pow2, F, G, H, I, Add, RotateLeft;
    var mixed := Mix(i, r.b, r.c, r.d);
    RotatedSum(r.a, mixed, x[WordIndex(i)], T(i), r.b, Shift(i));
  }

  /** The initial registers hold these bytes, which is how section 3.3 of RFC 1321 gives them. */
  lemma InitialBytes()
    ensures IV == Regs(LoadWord(0x01, 0x23, 0x45, 0x67), LoadWord(0x89, 0xab, 0xcd, 0xef),
                       LoadWord(0xfe, 0xdc, 0xba, 0x98), LoadWord(0x76, 0x54, 0x32, 0x10))
  {
  }

  /** A compression adds the registers after 64 steps to the old ones, modulo 2^32. */
  lemma {:induction false} CompressIs(r: Regs, block: Block)
    ensures var q := Steps(64, r, DecodeWords(block));
            Compress(r, block) ==
            Regs((r.a + q.a) % 0x1_0000_0000, (r.b + q.b) % 0x1_0000_0000, (r.c + q.c) % 0x1_0000_0000,
                 (r.d + q.d) % 0x1_0000_0000)
  {
    hide Steps, DecodeWords;
  }

  // ---------- Padding and digest, byte by byte ----------

  lemma Pow2Bytes()
    ensures Pow2(0) == 1 && Pow2(8) == 0x100 && Pow2(16) == 0x1_0000 && Pow2(24) == 0x100_0000
    ensures Pow2(32) == 0x1_0000_0000 && Pow2(40) == 0x100_0000_0000 && Pow2(48) == 0x1_0000_0000_0000
    ensures Pow2(56) == 0x100_0000_0000_0000
  {
    Pow2Sum(8, 8);
    Pow2Sum(8, 16);
    Pow2Sum(8, 24);
    Pow2Sum(8, 32);
    Pow2Sum(8, 40);
    Pow2Sum(8, 48);
  }

  lemma {:induction false} StoredByteIs(w: Word, k: nat)
    requires k < 4
    ensures StoreByte(w, k) == w / Pow2(8 * k) % 0x100
  {
    hide Pow2;
    Pow2Bytes();
    assert k == 0 || k == 1 || k == 2 || k == 3;
  }

  lemma Times(q: int, p: int, r: int)
    ensures q * (p * 0x100 * r) == q * r * 0x100 * p
  {
  }

  /** A byte below the cut is the same byte after reducing. */
  lemma LowByte(x: nat, p: nat, r: nat)
    requires p > 0 && r > 0 && p * 0x100 * r == 0x1_0000_0000
    ensures x % 0x1_0000_0000 / p % 0x100 == x / p % 0x100
  {
    var q, w := x / 0x1_0000_0000, x % 0x1_0000_0000;
    var h := w / p / 0x100;
    Times(q, p, r);
    assert x == q * (p * 0x100 * r) + w;
    Distribute(q * r * 0x100, w / p, p);
    NotNegative(q, r);
    QuotientIs(x, p, q * r * 0x100 + w / p, w % p);
    QuotientIs(q * r * 0x100 + w / p, 0x100, q * r + h, w / p % 0x100);
  }

  lemma LowBytes(x: nat)
    ensures var w := x % 0x1_0000_0000;
            && w % 0x100 == x % 0x100 && w / 0x100 % 0x100 == x / 0x100 % 0x100
            && w / 0x1_0000 % 0x100 == x / 0x1_0000 % 0x100 && w / 0x100_0000 % 0x100 == x / 0x100_0000 % 0x100
  {
    LowByte(x, 1, 0x100_0000);
    LowByte(x, 0x100, 0x1_0000);
    LowByte(x, 0x1_0000, 0x100);
    LowByte(x, 0x100_0000, 1);
  }

  lemma HighBytes(x: nat)
    ensures var w := x / 0x1_0000_0000 % 0x1_0000_0000;
            && w % 0x100 == x / 0x1_0000_0000 % 0x100 && w / 0x100 % 0x100 == x / 0x100_0000_0000 % 0x100
            && w / 0x1_0000 % 0x100 == x / 0x1_0000_0000_0000 % 0x100
            && w / 0x100_0000 % 0x100 == x / 0x100_0000_0000_0000 % 0x100
  {
    LowBytes(x / 0x1_0000_0000);
    DivideTwice(x, 0x1_0000_0000, 0x100);
    DivideTwice(x, 0x1_0000_0000, 0x1_0000);
    DivideTwice(x, 0x1_0000_0000, 0x100_0000);
  }

  lemma {:induction false} LengthByte(n: nat, k: nat)
    requires k < 8
    ensures EncodeWords(LengthWords(n))[k] == 8 * n / Pow2(8 * k) % 0x100
  {
    hide Pow2;
    Pow2Bytes();
    LowBytes(8 * n);
    HighBytes(8 * n);
    assert k == 0 || k == 1 || k == 2 || k == 3 || k == 4 || k == 5 || k == 6 || k == 7;
  }

  /** The padded message: the message, a one bit, the fewest zeros that leave eight bytes to a whole number of blocks,
      and there the length in bits, least significant byte first. */
  lemma {:induction false} PadIs(m: seq<Byte>)
    ensures var p := Pad(m);
            && |p| % 64 == 0 && |m| + 9 <= |p| < |m| + 73 && p[..|m|] == m && p[|m|] == 0x80
            && (forall j | |m| < j < |p| - 8 :: p[j] == 0)
            && (forall k | 0 <= k < 8 :: p[|p| - 8 + k] == 8 * |m| / Pow2(8 * k) % 0x100)
  {
    hide Pow2;
    var p, words := Pad(m), EncodeWords(LengthWords(|m|));
    var before := m + Padding(PadLength(|m|));
    forall k | 0 <= k < 8 ensures p[|p| - 8 + k] == 8 * |m| / Pow2(8 * k) % 0x100 {
      LengthByte(|m|, k);
      assert p[|before| + k] == words[k];
    }
  }

  /** The digest: the four registers in order, each least significant byte first. */
  lemma {:induction false} DigestIs(m: seq<Byte>, j: nat, k: nat)
    requires j < 4 && k < 4
    ensures var r := Fold(Pad(m), |Pad(m)| / 64);
            Digest(m)[4 * j + k] == [r.a, r.b, r.c, r.d][j] / Pow2(8 * k) % 0x100
  {
    hide Pow2, Fold, Pad, EncodeWords, StoreByte;
    var r := Fold(Pad(m), |Pad(m)| / 64);
    EncodedByte(RegWords(r), j, k);
    StoredByteIs(RegWords(r)[j], k);
  }
}
