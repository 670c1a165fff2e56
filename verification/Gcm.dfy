/**
 The cryptography the decoder calls into. The block cipher, the field product and RSA are
 parameters; GCTR, GHASH and the tag are written out over them after sections 6.2 to 7.2 of
 NIST SP 800-38D.
 */
module Gcm {
  import opened Bytes

  const BLOCK: nat := 16

  type Block = b: seq<Byte> | |b| == 16 witness Zeros(16)

  /** What the libraries provide: `cipher` is the forward function under a key, `product` the
      multiplication of section 6.3, `rsaDecrypt` the device's private key. */
  datatype Crypto = Crypto(
    cipher: (seq<Byte>, Block) -> Block,
    product: (Block, Block) -> Block,
    rsaEncrypt: (seq<Byte>, seq<Byte>) -> seq<Byte>,
    rsaDecrypt: seq<Byte> -> Option<seq<Byte>>)

  /** Big-endian encoding of `n` in `width` bytes, modulo 256^width. */
  function BigEndian(n: nat, width: nat): (b: seq<Byte>)
    ensures |b| == width
  {
    if width == 0 then [] else BigEndian(n / 256, width - 1) + [n % 256]
  }

  function FromBigEndian(b: seq<Byte>): nat {
    if b == [] then 0 else 256 * FromBigEndian(b[..|b| - 1]) + b[|b| - 1]
  }

  /** Section 6.2: increment of the last 32 bits. */
  function Inc32(b: Block): Block {
    b[..12] + BigEndian(FromBigEndian(b[12..]) + 1, 4)
  }

  /** Section 6.5. The last block may be partial. */
  function Gctr(c: Crypto, key: seq<Byte>, counter: Block, x: seq<Byte>): (y: seq<Byte>)
    ensures |y| == |x|
    decreases |x|
  {
    if |x| <= BLOCK then Xor(x, c.cipher(key, counter))
    else Xor(x[..BLOCK], c.cipher(key, counter)) + Gctr(c, key, Inc32(counter), x[BLOCK..])
  }

  /** Zero padding up to a whole number of blocks. */
  function Padded(x: seq<Byte>): (p: seq<Byte>)
    ensures |p| % BLOCK == 0
  {
    if |x| % BLOCK == 0 then x else x + Zeros(BLOCK - |x| % BLOCK)
  }

  /** Section 6.4, from the running value `acc`. */
  function Ghash(c: Crypto, h: Block, acc: Block, x: seq<Byte>): Block
    requires |x| % BLOCK == 0
    decreases |x|
  {
    if x == [] then acc
    else Ghash(c, h, c.product(Xor(acc, x[..BLOCK]), h), x[BLOCK..])
  }

  function HashKey(c: Crypto, key: seq<Byte>): Block {
    c.cipher(key, Zeros(BLOCK))
  }

  /** Section 7.1, step 2: the pre-counter block. */
  function PreCounter(c: Crypto, key: seq<Byte>, iv: seq<Byte>): Block {
    if |iv| == 12 then iv + [0, 0, 0, 1]
    else Ghash(c, HashKey(c, key), Zeros(BLOCK), Padded(iv) + Zeros(8) + BigEndian(8 * |iv|, 8))
  }

  /** Section 7.2, step 4: what the ciphertext decrypts to, whether or not it is authentic. */
  function Crypt(c: Crypto, key: seq<Byte>, iv: seq<Byte>, x: seq<Byte>): (y: seq<Byte>)
    ensures |y| == |x|
  {
    Gctr(c, key, Inc32(PreCounter(c, key, iv)), x)
  }

  /** Section 7.1, steps 4 to 6, without additional data: the 16-byte tag of a ciphertext. */
  function Tag(c: Crypto, key: seq<Byte>, iv: seq<Byte>, ciphertext: seq<Byte>): Block {
    var s := Ghash(c, HashKey(c, key), Zeros(BLOCK),
                   Padded(ciphertext) + BigEndian(0, 8) + BigEndian(8 * |ciphertext|, 8));
    Gctr(c, key, PreCounter(c, key, iv), s)
  }

  /** GCTR works byte by byte along the stream: a prefix is encrypted independently of the rest. */
  lemma {:induction false} GctrPrefix(c: Crypto, key: seq<Byte>, counter: Block, x: seq<Byte>, n: nat)
    requires n <= |x|
    ensures Gctr(c, key, counter, x)[..n] == Gctr(c, key, counter, x[..n])
    decreases |x|
  {
    if |x| > BLOCK {
      if n > BLOCK {
        GctrPrefix(c, key, Inc32(counter), x[BLOCK..], n - BLOCK);
        assert x[..n][..BLOCK] == x[..BLOCK];
        assert x[..n][BLOCK..] == x[BLOCK..][..n - BLOCK];
      } else {
        assert Gctr(c, key, counter, x)[..n] == Xor(x[..BLOCK], c.cipher(key, counter))[..n];
      }
    }
  }

  lemma CryptPrefix(c: Crypto, key: seq<Byte>, iv: seq<Byte>, x: seq<Byte>, n: nat)
    requires n <= |x|
    ensures Crypt(c, key, iv, x)[..n] == Crypt(c, key, iv, x[..n])
  {
    GctrPrefix(c, key, Inc32(PreCounter(c, key, iv)), x, n);
  }

  lemma CryptAppend(c: Crypto, key: seq<Byte>, iv: seq<Byte>, x: seq<Byte>, more: seq<Byte>)
    ensures Crypt(c, key, iv, x + more)[..|x|] == Crypt(c, key, iv, x)
  {
    SliceAppend(x, more, 0, |x|);
    CryptPrefix(c, key, iv, x + more, |x|);
  }

  lemma {:induction false} GctrInvolution(c: Crypto, key: seq<Byte>, counter: Block, x: seq<Byte>)
    ensures Gctr(c, key, counter, Gctr(c, key, counter, x)) == x
    decreases |x|
  {
    var mask := c.cipher(key, counter);
    if |x| <= BLOCK {
      XorInvolution(x, mask);
    } else {
      var y := Gctr(c, key, counter, x);
      XorInvolution(x[..BLOCK], mask);
      GctrInvolution(c, key, Inc32(counter), x[BLOCK..]);
      assert y[..BLOCK] == Xor(x[..BLOCK], mask);
      assert y[BLOCK..] == Gctr(c, key, Inc32(counter), x[BLOCK..]);
      assert x == x[..BLOCK] + x[BLOCK..];
    }
  }

  lemma CryptInvolution(c: Crypto, key: seq<Byte>, iv: seq<Byte>, x: seq<Byte>)
    ensures Crypt(c, key, iv, Crypt(c, key, iv, x)) == x
  {
    GctrInvolution(c, key, Inc32(PreCounter(c, key, iv)), x);
  }

  /**
   The contract of the `mbedtls_gcm_context` after `setkey` and `starts`: it carries the bytes
   fed so far, and each update outputs the next stretch of the one keystream.
   */
  datatype Context = Context(key: seq<Byte>, iv: seq<Byte>, fed: seq<Byte>) {
    function Feed(data: seq<Byte>): Context {
      this.(fed := fed + data)
    }

    function Output(c: Crypto, data: seq<Byte>): (out: seq<Byte>)
      ensures |out| == |data|
    {
      Crypt(c, key, iv, fed + data)[|fed|..]
    }

    function Finish(c: Crypto): Block {
      Tag(c, key, iv, fed)
    }
  }

  /** Two updates in a row output what one update with both inputs outputs. */
  lemma OutputAppend(c: Crypto, g: Context, a: seq<Byte>, b: seq<Byte>)
    ensures g.Output(c, a) + g.Feed(a).Output(c, b) == g.Output(c, a + b)
  {
    Assoc(g.fed, a, b);
    CryptAppend(c, g.key, g.iv, g.fed + a, b);
  }
}
