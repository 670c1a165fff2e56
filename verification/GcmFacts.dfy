/**
 GCTR, GHASH and the tag told position by position and block by block, without the recursions that
 compute them: which counter block masks a byte, and what a tag is a chain of.
 */
module GcmFacts {
  import opened Bytes
  import opened Gcm

  // ---------- big-endian words ----------

  /** The four bytes of a counter, most significant first. */
  lemma CounterWord(b: seq<Byte>)
    requires |b| == 4
    ensures FromBigEndian(b) == 0x100_0000 * (b[0] as int) + 0x1_0000 * (b[1] as int) + 0x100 * (b[2] as int) + b[3]
  {
    assert b[..3][..2] == b[..2] && b[..2][..1] == b[..1] && b[..1][..0] == [];
    assert FromBigEndian(b[..1]) == b[0];
    assert FromBigEndian(b[..2]) == 256 * FromBigEndian(b[..1]) + b[1];
    assert FromBigEndian(b[..3]) == 256 * FromBigEndian(b[..2]) + b[2];
  }

  function Pow256(k: nat): (p: nat)
    ensures p > 0
  {
    if k == 0 then 1 else 256 * Pow256(k - 1)
  }

  /** Encoding is truncation to the width. */
  lemma {:induction false} BigEndianRead(n: nat, width: nat) returns (t: nat)
    ensures n == Pow256(width) * t + FromBigEndian(BigEndian(n, width))
    ensures FromBigEndian(BigEndian(n, width)) < Pow256(width)
    decreases width
  {
    if width == 0 {
      t := n;
    } else {
      t := BigEndianRead(n / 256, width - 1);
      assert BigEndian(n, width)[..width - 1] == BigEndian(n / 256, width - 1);
      assert 256 * (Pow256(width - 1) * t) == Pow256(width) * t;
    }
  }

  lemma {:induction false} BigEndianWritten(b: seq<Byte>)
    ensures FromBigEndian(b) < Pow256(|b|) && BigEndian(FromBigEndian(b), |b|) == b
    decreases |b|
  {
    if b != [] {
      BigEndianWritten(b[..|b| - 1]);
      assert b == b[..|b| - 1] + [b[|b| - 1]];
    }
  }

  lemma AtLeast(m: nat, d: int)
    requires d > 0
    ensures m * d >= m
  {
  }

  lemma Remainder(m: nat, t: nat, v: nat, q: nat, r: nat)
    requires v < m && r < m && m * t + v == m * q + r
    ensures v == r
  {
    assert m * q - m * t == m * (q - t);
    assert m * t - m * q == m * (t - q);
    if q > t { AtLeast(m, q - t); } else if q < t { AtLeast(m, t - q); }
  }

  /** In `width` bytes a number has one encoding. */
  lemma OneEncoding(b: seq<Byte>, n: nat, t: nat)
    requires n == Pow256(|b|) * t + FromBigEndian(b)
    ensures b == BigEndian(n, |b|)
  {
    hide BigEndian, FromBigEndian, Pow256;
    BigEndianWritten(b);
    BigEndianWritten(BigEndian(n, |b|));
    var q := BigEndianRead(n, |b|);
    Remainder(Pow256(|b|), t, FromBigEndian(b), q, FromBigEndian(BigEndian(n, |b|)));
  }

  const LONG: nat := 0x1_0000_0000_0000_0000

  lemma OneCounter(b: seq<Byte>, n: nat)
    requires |b| == 4
    ensures b == BigEndian(n, 4) <==> FromBigEndian(b) == n % WORD
  {
    hide BigEndian, FromBigEndian;
    assert Pow256(4) == WORD;
    var t := BigEndianRead(n, 4);
    if FromBigEndian(b) == n % WORD { OneEncoding(b, n, n / WORD); }
  }

  lemma OneLength(b: seq<Byte>, n: nat)
    requires |b| == 8
    ensures b == BigEndian(n, 8) <==> FromBigEndian(b) == n % LONG
  {
    hide BigEndian, FromBigEndian;
    assert Pow256(8) == LONG;
    var t := BigEndianRead(n, 8);
    if FromBigEndian(b) == n % LONG { OneEncoding(b, n, n / LONG); }
  }

  // ---------- the keystream ----------

  /** `b` is the counter block `steps` after `first`: the same 12 bytes, then the counter, modulo 2^32. */
  predicate Counts(first: Block, b: Block, steps: nat) {
    b[..12] == first[..12] && FromBigEndian(b[12..]) == (FromBigEndian(first[12..]) + steps) % WORD
  }

  /** There is exactly one such block. */
  lemma CounterIs(first: Block, b: Block, steps: nat)
    ensures Counts(first, b, steps) <==> b == first[..12] + BigEndian(FromBigEndian(first[12..]) + steps, 4)
  {
    hide BigEndian, FromBigEndian;
    var n := FromBigEndian(first[12..]) + steps;
    OneCounter(b[12..], n);
    assert b == b[..12] + b[12..];
    assert (first[..12] + BigEndian(n, 4))[12..] == BigEndian(n, 4);
  }

  lemma CountsBack(first: Block, b: Block, steps: nat)
    requires Counts(first, b, steps + 1)
    ensures Counts(Inc32(first), b, steps)
  {
    hide BigEndian, FromBigEndian;
    var n := FromBigEndian(first[12..]) + 1;
    OneCounter(BigEndian(n, 4), n);
    assert Inc32(first)[12..] == BigEndian(n, 4) && Inc32(first)[..12] == first[..12];
  }

  lemma {:induction false} GctrAt(c: Crypto, key: seq<Byte>, first: Block, x: seq<Byte>, i: nat, b: Block)
    requires i < |x| && Counts(first, b, i / BLOCK)
    ensures Gctr(c, key, first, x)[i] == XorByte(x[i], c.cipher(key, b)[i % BLOCK])
    decreases |x|
  {
    if i < BLOCK {
      BigEndianWritten(first[12..]);
      CounterIs(first, b, 0);
      assert b == first;
    } else {
      CountsBack(first, b, (i - BLOCK) / BLOCK);
      GctrAt(c, key, Inc32(first), x[BLOCK..], i - BLOCK, b);
    }
  }

  /** The keystream: byte `i` of a payload is masked with byte `i` mod 16 of the enciphered counter
      block, which is the pre-counter block with its last four bytes counted on by 1 + `i` / 16. */
  lemma CryptAt(c: Crypto, key: seq<Byte>, iv: seq<Byte>, x: seq<Byte>, i: nat, b: Block)
    requires i < |x| && Counts(PreCounter(c, key, iv), b, 1 + i / BLOCK)
    ensures Crypt(c, key, iv, x)[i] == XorByte(x[i], c.cipher(key, b)[i % BLOCK])
  {
    hide PreCounter;
    CountsBack(PreCounter(c, key, iv), b, i / BLOCK);
    GctrAt(c, key, Inc32(PreCounter(c, key, iv)), x, i, b);
  }

  // ---------- the tag ----------

  /** The running values of GHASH over the blocks of `x`. */
  ghost predicate Chain(c: Crypto, h: Block, acc: Block, x: seq<Byte>, ys: seq<Block>)
    requires ys != []
  {
    && |x| == BLOCK * (|ys| - 1) && ys[0] == acc
    && forall i :: 0 <= i < |ys| - 1 ==> ys[i + 1] == c.product(Xor(ys[i], BlockOf(x, i)), h)
  }

  function BlockOf(x: seq<Byte>, i: nat): Block
    requires BLOCK * i + BLOCK <= |x|
  {
    x[BLOCK * i..BLOCK * i + BLOCK]
  }

  lemma {:induction false} GhashChain(c: Crypto, h: Block, acc: Block, x: seq<Byte>, ys: seq<Block>)
    requires ys != [] && Chain(c, h, acc, x, ys)
    ensures Ghash(c, h, acc, x) == ys[|ys| - 1]
    decreases |x|
  {
    if x != [] {
      var rest := x[BLOCK..];
      assert BlockOf(x, 0) == x[..BLOCK];
      forall i | 0 <= i < |ys| - 2 ensures ys[1..][i + 1] == c.product(Xor(ys[1..][i], BlockOf(rest, i)), h) {
        assert BlockOf(rest, i) == BlockOf(x, i + 1);
        assert ys[i + 1 + 1] == c.product(Xor(ys[i + 1], BlockOf(x, i + 1)), h);
      }
      assert ys[0 + 1] == c.product(Xor(ys[0], BlockOf(x, 0)), h);
      GhashChain(c, h, ys[1], rest, ys[1..]);
    }
  }

  lemma {:induction false} ChainOf(c: Crypto, h: Block, acc: Block, x: seq<Byte>) returns (ys: seq<Block>)
    requires |x| % BLOCK == 0
    ensures ys != [] && Chain(c, h, acc, x, ys)
    decreases |x|
  {
    if x == [] {
      ys := [acc];
    } else {
      var last := |x| - BLOCK;
      var init := x[..last];
      ys := ChainOf(c, h, acc, init);
      forall i | 0 <= i < |ys| - 1 ensures BlockOf(init, i) == BlockOf(x, i) {}
      assert forall i :: 0 <= i < |ys| - 1 ==> ys[i + 1] == c.product(Xor(ys[i], BlockOf(init, i)), h);
      ys := ys + [c.product(Xor(ys[|ys| - 1], BlockOf(x, |ys| - 1)), h)];
    }
  }

  /** `p` is `x` filled up with zeros to whole blocks, and no further. */
  predicate Fills(x: seq<Byte>, p: seq<Byte>) {
    x <= p && |p| < |x| + BLOCK && |p| % BLOCK == 0 && forall i :: |x| <= i < |p| ==> p[i] == 0
  }

  lemma FillsIsPadded(x: seq<Byte>, p: seq<Byte>)
    ensures Fills(x, p) <==> p == Padded(x)
  {
    if Fills(x, p) { assert |p| == |Padded(x)|; }
  }

  /** `n`, the 64-bit length in bits of `x`. */
  predicate IsLength(x: seq<Byte>, n: seq<Byte>) {
    |n| == 8 && FromBigEndian(n) == 8 * |x| % LONG
  }

  /** The tag: the chain of products over the blocks of the filled-up ciphertext and of the two lengths,
      from zero, masked with the enciphered pre-counter block. The hash key enciphers the zero block. */
  lemma TagAt(c: Crypto, key: seq<Byte>, iv: seq<Byte>, x: seq<Byte>, p: seq<Byte>, n: seq<Byte>, ys: seq<Block>,
              i: nat)
    requires Fills(x, p) && IsLength(x, n) && i < BLOCK
    requires ys != [] && Chain(c, c.cipher(key, Zeros(BLOCK)), Zeros(BLOCK), p + Zeros(8) + n, ys)
    ensures Tag(c, key, iv, x)[i] == XorByte(ys[|ys| - 1][i], c.cipher(key, PreCounter(c, key, iv))[i])
  {
    hide PreCounter, Chain, BigEndian, FromBigEndian, Ghash, Padded;
    FillsIsPadded(x, p);
    OneLength(n, 8 * |x|);
    OneLength(Zeros(8), 0);
    ZeroWord(8);
    GhashChain(c, HashKey(c, key), Zeros(BLOCK), p + Zeros(8) + n, ys);
  }

  lemma {:induction false} ZeroWord(k: nat)
    ensures FromBigEndian(Zeros(k)) == 0
    decreases k
  {
    if k > 0 {
      ZeroWord(k - 1);
      assert Zeros(k)[..k - 1] == Zeros(k - 1);
    }
  }

  lemma {:induction false} ZeroXor(b: nat, width: nat)
    requires b < Pow2(width)
    ensures XorBits(0, b, width) == b
  {
    if width > 0 {
      Halves(b, width);
      ZeroXor(b / 2, width - 1);
    }
  }

  /** The pre-counter block of a nonce of 16 bytes, as the image format has them, is two products: of
      the nonce, and of the result with the nonce's length of 128 bits. */
  lemma PreCounterIs(c: Crypto, key: seq<Byte>, iv: Block)
    ensures var h := c.cipher(key, Zeros(BLOCK));
            PreCounter(c, key, iv) == c.product(Xor(c.product(iv, h), Zeros(15) + [128]), h)
  {
    hide Ghash;
    var h, x := HashKey(c, key), iv + Zeros(8) + BigEndian(128, 8);
    var y1 := c.product(iv, h);
    var y2 := c.product(Xor(y1, Zeros(15) + [128]), h);
    assert Pow2(8) == 256;
    forall i | 0 <= i < BLOCK ensures Xor(Zeros(BLOCK), iv)[i] == iv[i] { ZeroXor(iv[i], 8); }
    assert Xor(Zeros(BLOCK), iv) == iv;
    LengthOfBlock();
    assert BlockOf(x, 0) == iv && BlockOf(x, 1) == Zeros(15) + [128];
    GhashChain(c, h, Zeros(BLOCK), x, [Zeros(BLOCK), y1, y2]);
  }

  lemma LengthOfBlock()
    ensures BigEndian(128, 8) == Zeros(7) + [128]
  {
    ZeroWord(7);
    assert (Zeros(7) + [128])[..7] == Zeros(7);
    OneLength(Zeros(7) + [128], 128);
  }

  // ---------- exclusive or ----------

  function Bit(n: nat, k: nat): nat {
    if k == 0 then n % 2 else Bit(n / 2, k - 1)
  }

  lemma {:induction false} BitXor(a: nat, b: nat, width: nat, k: nat)
    requires k < width
    ensures Bit(XorBits(a, b, width), k) == (Bit(a, k) + Bit(b, k)) % 2
    decreases k
  {
    hide XorBits;
    var rest := XorBits(a / 2, b / 2, width - 1);
    XorBitsStep(a, b, width);
    LastBit((a + b) % 2, rest);
    if k > 0 { BitXor(a / 2, b / 2, width - 1, k - 1); }
  }

  /** Bit `k` of the exclusive or is the parity of the two bits `k`. */
  lemma XorByteBit(a: Byte, b: Byte, k: nat)
    requires k < 8
    ensures Bit(XorByte(a, b), k) == (Bit(a, k) + Bit(b, k)) % 2
  {
    BitXor(a, b, 8, k);
  }
}
