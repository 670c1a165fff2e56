/** Bytes, little-endian words and byte-wise exclusive or. */
module Bytes {
  type Byte = x: int | 0 <= x < 256

  const WORD: nat := 0x1_0000_0000

  datatype Option<+T> = None | Some(value: T)

  lemma NoWrap(n: nat)
    requires n < WORD
    ensures n % WORD == n
  {
  }

  lemma Assoc<T>(a: seq<T>, b: seq<T>, c: seq<T>)
    ensures a + b + c == a + (b + c)
  {
  }

  /** A slice of a sequence is the same slice of any extension of it. */
  lemma SliceAppend<T>(a: seq<T>, b: seq<T>, i: nat, j: nat)
    requires i <= j <= |a|
    ensures (a + b)[i..j] == a[i..j]
  {
  }

  lemma DropAppend<T>(a: seq<T>, b: seq<T>, n: nat)
    requires n <= |a|
    ensures (a + b)[n..] == a[n..] + b
  {
  }

  lemma SplitTail<T>(a: seq<T>, i: nat, j: nat)
    requires i <= j <= |a|
    ensures a[i..] == a[i..j] + a[j..]
  {
  }

  lemma SplitAt<T>(a: seq<T>, y: seq<T>, k: nat)
    requires k <= |y|
    ensures (a + y[..k]) + y[k..] == a + y
  {
  }

  lemma AppendNothing<T>(a: seq<T>, b: seq<T>)
    requires |b| == 0
    ensures a + b == a
  {
  }

  function Zeros(n: nat): (z: seq<Byte>)
    ensures |z| == n
  {
    seq(n, _ => 0)
  }

  /** `int.to_bytes(4, 'little')`. */
  function ToLE32(n: nat): (b: seq<Byte>)
    requires n < WORD
    ensures |b| == 4
  {
    [n % 256, n / 256 % 256, n / 65536 % 256, n / 16777216]
  }

  /** The `uint32_t` stored in four bytes of a little-endian target. */
  function FromLE32(b: seq<Byte>): (n: nat)
    requires |b| == 4
    ensures n < WORD
  {
    b[0] + 256 * (b[1] as int) + 65536 * (b[2] as int) + 16777216 * (b[3] as int)
  }

  lemma WordRoundTrip(n: nat)
    requires n < WORD
    ensures FromLE32(ToLE32(n)) == n
  {
    assert n == n % 256 + 256 * (n / 256);
    assert n / 65536 == n / 256 / 256 && n / 16777216 == n / 65536 / 256;
  }

  function XorBits(a: nat, b: nat, width: nat): (r: nat)
    ensures r < Pow2(width)
  {
    if width == 0 then 0
    else (a + b) % 2 + 2 * XorBits(a / 2, b / 2, width - 1)
  }

  function Pow2(n: nat): nat {
    if n == 0 then 1 else 2 * Pow2(n - 1)
  }

  lemma LastBit(bit: nat, rest: nat)
    requires bit < 2
    ensures (bit + 2 * rest) / 2 == rest && (bit + 2 * rest) % 2 == bit
  {
  }

  lemma ParityTwice(a: nat, b: nat, rest: nat)
    ensures ((a + b) % 2 + 2 * rest + b) % 2 == a % 2
  {
    assert a + b == 2 * ((a + b) / 2) + (a + b) % 2;
    assert (a + b) % 2 + 2 * rest + b == a + 2 * (b + rest - (a + b) / 2);
  }

  lemma XorBitsStep(a: nat, b: nat, width: nat)
    requires width > 0
    ensures XorBits(a, b, width) == (a + b) % 2 + 2 * XorBits(a / 2, b / 2, width - 1)
  {
  }

  lemma Halves(a: nat, width: nat)
    requires width > 0 && a < Pow2(width)
    ensures a / 2 < Pow2(width - 1) && a == a % 2 + 2 * (a / 2)
  {
  }

  lemma {:induction false} XorBitsInvolution(a: nat, b: nat, width: nat)
    requires a < Pow2(width)
    ensures XorBits(XorBits(a, b, width), b, width) == a
  {
    if width > 0 {
      Halves(a, width);
      XorOnce(a, b, width);
      XorBitsInvolution(a / 2, b / 2, width - 1);
    }
  }

  lemma XorOnce(a: nat, b: nat, width: nat)
    requires width > 0
    ensures XorBits(XorBits(a, b, width), b, width) ==
              a % 2 + 2 * XorBits(XorBits(a / 2, b / 2, width - 1), b / 2, width - 1)
  {
    hide XorBits;
    var bit, rest := (a + b) % 2, XorBits(a / 2, b / 2, width - 1);
    XorBitsStep(a, b, width);
    XorBitsStep(bit + 2 * rest, b, width);
    LastBit(bit, rest);
    ParityTwice(a, b, rest);
  }

  function XorByte(a: Byte, b: Byte): Byte {
    assert Pow2(8) == 256;
    XorBits(a, b, 8)
  }

  lemma XorByteInvolution(a: Byte, b: Byte)
    ensures XorByte(XorByte(a, b), b) == a
  {
    assert Pow2(8) == 256;
    XorBitsInvolution(a, b, 8);
  }

  /** `x` masked with the first |x| bytes of `mask`. */
  function Xor(x: seq<Byte>, mask: seq<Byte>): (r: seq<Byte>)
    requires |x| <= |mask|
    ensures |r| == |x|
  {
    seq(|x|, i requires 0 <= i < |x| => XorByte(x[i], mask[i]))
  }

  lemma XorInvolution(x: seq<Byte>, mask: seq<Byte>)
    requires |x| <= |mask|
    ensures Xor(Xor(x, mask), mask) == x
  {
    forall i | 0 <= i < |x| ensures Xor(Xor(x, mask), mask)[i] == x[i] {
      XorByteInvolution(x[i], mask[i]);
    }
  }
}
