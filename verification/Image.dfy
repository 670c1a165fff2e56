/** The encrypted image format: a 512-byte header, then the ciphertext. */
module Image {
  import opened Bytes
  import opened Gcm

  const MAGIC: nat := 0x0788b6cf
  const GCM_KEY_SIZE: nat := 32
  const MAGIC_SIZE: nat := 4
  const ENC_GCM_KEY_SIZE: nat := 384
  const IV_SIZE: nat := 16
  const BIN_SIZE_DATA: nat := 4
  const AUTH_SIZE: nat := 16
  const RESERVED_HEADER: nat := 88

  // Where each field starts.
  const KEY_AT: nat := MAGIC_SIZE
  const IV_AT: nat := KEY_AT + ENC_GCM_KEY_SIZE
  const SIZE_AT: nat := IV_AT + IV_SIZE
  const AUTH_AT: nat := SIZE_AT + BIN_SIZE_DATA
  const RESERVED_AT: nat := AUTH_AT + AUTH_SIZE
  const HEADER: nat := RESERVED_AT + RESERVED_HEADER

  function MagicOf(r: seq<Byte>): nat
    requires |r| >= KEY_AT
  {
    FromLE32(r[..KEY_AT])
  }

  function WrappedKey(r: seq<Byte>): seq<Byte>
    requires |r| >= IV_AT
  {
    r[KEY_AT..IV_AT]
  }

  function IvOf(r: seq<Byte>): seq<Byte>
    requires |r| >= SIZE_AT
  {
    r[IV_AT..SIZE_AT]
  }

  function Declared(r: seq<Byte>): nat
    requires |r| >= AUTH_AT
  {
    FromLE32(r[SIZE_AT..AUTH_AT])
  }

  function AuthOf(r: seq<Byte>): seq<Byte>
    requires |r| >= RESERVED_AT
  {
    r[AUTH_AT..RESERVED_AT]
  }

  function Ciphertext(r: seq<Byte>): seq<Byte>
    requires |r| >= HEADER
  {
    r[HEADER..]
  }

  /** The AES key the device recovers: at most 32 bytes fit, and a shorter RSA plaintext leaves
      the rest of the zero-initialised key buffer as it was. */
  function UnwrapKey(c: Crypto, wrapped: seq<Byte>): (k: Option<seq<Byte>>)
    ensures k.Some? ==> |k.value| == GCM_KEY_SIZE
  {
    match c.rsaDecrypt(wrapped)
    case Some(k) => if |k| <= GCM_KEY_SIZE then Some(k + Zeros(GCM_KEY_SIZE - |k|)) else None
    case None => None
  }

  /** What the header fields received so far allow: the magic is right, the key unwraps. */
  predicate HeaderOk(c: Crypto, r: seq<Byte>) {
    && (|r| >= KEY_AT ==> MagicOf(r) == MAGIC)
    && (|r| >= IV_AT ==> UnwrapKey(c, WrappedKey(r)).Some?)
  }

  lemma HeaderOkPrefix(c: Crypto, r: seq<Byte>, n: nat)
    requires n <= |r| && HeaderOk(c, r)
    ensures HeaderOk(c, r[..n])
  {
    if n >= KEY_AT { assert r[..n][..KEY_AT] == r[..KEY_AT]; }
    if n >= IV_AT { assert r[..n][KEY_AT..IV_AT] == r[KEY_AT..IV_AT]; }
  }

  function KeyOf(c: Crypto, r: seq<Byte>): seq<Byte>
    requires |r| >= IV_AT && HeaderOk(c, r)
  {
    UnwrapKey(c, WrappedKey(r)).value
  }

  /** One-shot decryption of everything after the header. */
  function Plain(c: Crypto, r: seq<Byte>): (p: seq<Byte>)
    requires |r| >= HEADER && HeaderOk(c, r)
    ensures |p| == |r| - HEADER
  {
    Crypt(c, KeyOf(c, r), IvOf(r), Ciphertext(r))
  }

  /** One-shot tag of everything after the header. */
  function TagOf(c: Crypto, r: seq<Byte>): Block
    requires |r| >= HEADER && HeaderOk(c, r)
  {
    Tag(c, KeyOf(c, r), IvOf(r), Ciphertext(r))
  }

  /** More bytes never change a header field already received. */
  lemma HeaderGrows(c: Crypto, r: seq<Byte>, more: seq<Byte>)
    requires |r| >= IV_AT && HeaderOk(c, r)
    ensures HeaderOk(c, r + more) && KeyOf(c, r + more) == KeyOf(c, r)
    ensures |r| >= SIZE_AT ==> IvOf(r + more) == IvOf(r)
    ensures |r| >= AUTH_AT ==> Declared(r + more) == Declared(r)
    ensures |r| >= RESERVED_AT ==> AuthOf(r + more) == AuthOf(r)
  {
    SliceAppend(r, more, 0, KEY_AT);
    SliceAppend(r, more, KEY_AT, IV_AT);
    if |r| >= SIZE_AT { SliceAppend(r, more, IV_AT, SIZE_AT); }
    if |r| >= AUTH_AT { SliceAppend(r, more, SIZE_AT, AUTH_AT); }
    if |r| >= RESERVED_AT { SliceAppend(r, more, AUTH_AT, RESERVED_AT); }
  }

  /** Nor what the ciphertext before them decrypts to. */
  lemma Extended(c: Crypto, r: seq<Byte>, more: seq<Byte>)
    requires |r| >= HEADER && HeaderOk(c, r)
    ensures HeaderOk(c, r + more) && Declared(r + more) == Declared(r)
    ensures Ciphertext(r + more) == Ciphertext(r) + more
    ensures Plain(c, r + more)[..|r| - HEADER] == Plain(c, r)
  {
    HeaderGrows(c, r, more);
    DropAppend(r, more, HEADER);
    CryptAppend(c, KeyOf(c, r), IvOf(r), Ciphertext(r), more);
  }
}
