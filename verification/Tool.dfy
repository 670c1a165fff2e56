/**
 `esp_enc_img_gen.py`: writes the image format and reads it back in one shot.
 */
module Tool {
  import opened Bytes
  import opened Gcm
  import opened Image
  import opened DecoderSpec

  /** The longest input `AESGCM.encrypt` takes. */
  const AESGCM_MAX: nat := 0x7FFF_FFFF

  /** `AESGCM(key).encrypt(IV, data, None)`: ciphertext and tag in one string. None for its
      OverflowError. */
  function AesGcmEncrypt(c: Crypto, key: seq<Byte>, iv: seq<Byte>, data: seq<Byte>): (r: Option<seq<Byte>>)
    ensures r.Some? ==> |r.value| == |data| + AUTH_SIZE
  {
    if |data| > AESGCM_MAX then None
    else Some(Crypt(c, key, iv, data) + Tag(c, key, iv, Crypt(c, key, iv, data)))
  }

  /** `AESGCM(key).decrypt(IV, data, None)`: None for its exceptions, a key or nonce of an
      unsupported length and a tag that does not match. */
  function AesGcmDecrypt(c: Crypto, key: seq<Byte>, iv: seq<Byte>, data: seq<Byte>): Option<seq<Byte>> {
    if |key| !in {16, 24, 32} || |iv| < 8 || |iv| > 128 || |data| < AUTH_SIZE then None
    else
      var body := data[..|data| - AUTH_SIZE];
      if Tag(c, key, iv, body) != data[|data| - AUTH_SIZE..] then None
      else Some(Crypt(c, key, iv, body))
  }

  function EncryptBinary(c: Crypto, plaintext: seq<Byte>, key: seq<Byte>, iv: seq<Byte>)
    : Option<(seq<Byte>, seq<Byte>)>
  {
    match AesGcmEncrypt(c, key, iv, plaintext)
    case None => None
    case Some(ct) => Some((ct[..|plaintext|], ct[|plaintext|..]))
  }

  function DecryptBinary(c: Crypto, ciphertext: seq<Byte>, authTag: seq<Byte>, key: seq<Byte>, iv: seq<Byte>)
    : Option<seq<Byte>>
  {
    AesGcmDecrypt(c, key, iv, ciphertext + authTag)
  }

  lemma BinaryRoundTrip(c: Crypto, plaintext: seq<Byte>, key: seq<Byte>, iv: seq<Byte>)
    requires |key| == GCM_KEY_SIZE && |iv| == IV_SIZE
    ensures EncryptBinary(c, plaintext, key, iv).Some? <==> |plaintext| <= AESGCM_MAX
    ensures EncryptBinary(c, plaintext, key, iv).Some? ==>
              var (ct, tag) := EncryptBinary(c, plaintext, key, iv).value;
              && ct == Crypt(c, key, iv, plaintext)
              && |tag| == AUTH_SIZE && tag == Tag(c, key, iv, ct)
              && DecryptBinary(c, ct, tag, key, iv) == Some(plaintext)
  {
    if |plaintext| <= AESGCM_MAX {
      var (ct, tag) := EncryptBinary(c, plaintext, key, iv).value;
      assert (ct + tag)[..|ct|] == ct && (ct + tag)[|ct|..] == tag;
      CryptInvolution(c, key, iv, plaintext);
    }
  }

  /** The laws of PKCS #1 encryption the format relies on, for keys of the size the tool draws;
      `seed` is the random padding. */
  ghost predicate RsaLaws(c: Crypto) {
    forall key, seed | |key| == GCM_KEY_SIZE ::
      |c.rsaEncrypt(key, seed)| == ENC_GCM_KEY_SIZE && c.rsaDecrypt(c.rsaEncrypt(key, seed)) == Some(key)
  }

  /** The laws can be met, whatever the block cipher and the field product. */
  lemma RsaLawsMet(cipher: (seq<Byte>, Block) -> Block, product: (Block, Block) -> Block) returns (c: Crypto)
    ensures c.cipher == cipher && c.product == product && RsaLaws(c)
  {
    c := Crypto(cipher, product,
                (key: seq<Byte>, seed: seq<Byte>) => key + Zeros(ENC_GCM_KEY_SIZE - GCM_KEY_SIZE),
                (w: seq<Byte>) => if |w| >= GCM_KEY_SIZE then Some(w[..GCM_KEY_SIZE]) else None);
    forall key: seq<Byte>, seed: seq<Byte> | |key| == GCM_KEY_SIZE
      ensures |c.rsaEncrypt(key, seed)| == ENC_GCM_KEY_SIZE && c.rsaDecrypt(c.rsaEncrypt(key, seed)) == Some(key)
    {
      assert (key + Zeros(ENC_GCM_KEY_SIZE - GCM_KEY_SIZE))[..GCM_KEY_SIZE] == key;
    }
  }

  /** The file `encrypt` writes, field after field, for the key and nonce it drew at random. None: the
      library refuses a longer input; the length field could have taken it. */
  method Encrypt(c: Crypto, data: seq<Byte>, gcmKey: seq<Byte>, iv: seq<Byte>, seed: seq<Byte>)
    returns (image: Option<seq<Byte>>)
    requires RsaLaws(c) && |gcmKey| == GCM_KEY_SIZE && |iv| == IV_SIZE
    ensures image.Some? <==> |data| <= AESGCM_MAX
    ensures image.Some? ==> image.value == Encrypted(c, data, gcmKey, iv, seed)
  {
    BinaryRoundTrip(c, data, gcmKey, iv);
    var wrapped := c.rsaEncrypt(gcmKey, seed);
    var encrypted := EncryptBinary(c, data, gcmKey, iv);
    if encrypted.None? { return None; }
    var (ciphertext, tag) := encrypted.value;
    var file: seq<Byte> := [];
    file := file + ToLE32(MAGIC);
    assert file == ToLE32(MAGIC);
    file := file + wrapped;
    file := file + iv;
    file := file + ToLE32(|ciphertext|);
    file := file + tag;
    file := file + Zeros(RESERVED_HEADER);
    file := file + ciphertext;
    return Some(file);
  }

  function Encrypted(c: Crypto, data: seq<Byte>, gcmKey: seq<Byte>, iv: seq<Byte>, seed: seq<Byte>): seq<Byte>
    requires |data| < WORD
  {
    var ct := Crypt(c, gcmKey, iv, data);
    ToLE32(MAGIC) + c.rsaEncrypt(gcmKey, seed) + iv + ToLE32(|data|) + Tag(c, gcmKey, iv, ct)
    + Zeros(RESERVED_HEADER) + ct
  }

  /** The key as RSA recovers it, before the device pads it. */
  function RawKey(c: Crypto, r: seq<Byte>): seq<Byte>
    requires |r| >= IV_AT && HeaderOk(c, r)
  {
    c.rsaDecrypt(WrappedKey(r)).value
  }

  /** Every field of the written file lies where the device and `decrypt` look for it. */
  lemma EncryptedLayout(c: Crypto, data: seq<Byte>, gcmKey: seq<Byte>, iv: seq<Byte>, seed: seq<Byte>)
    requires RsaLaws(c) && |gcmKey| == GCM_KEY_SIZE && |iv| == IV_SIZE && |data| < WORD
    ensures var r := Encrypted(c, data, gcmKey, iv, seed);
            && |r| == HEADER + |data| && MagicOf(r) == MAGIC && HeaderOk(c, r)
            && WrappedKey(r) == c.rsaEncrypt(gcmKey, seed) && RawKey(c, r) == KeyOf(c, r) == gcmKey && IvOf(r) == iv
            && Declared(r) == |data| && Ciphertext(r) == Crypt(c, gcmKey, iv, data)
            && r[RESERVED_AT..HEADER] == Zeros(RESERVED_HEADER)
            && AuthOf(r) == TagOf(c, r) && Plain(c, r) == data
  {
    var r := Encrypted(c, data, gcmKey, iv, seed);
    var ct := Crypt(c, gcmKey, iv, data);
    WordRoundTrip(MAGIC);
    WordRoundTrip(|data|);
    FieldsAt(ToLE32(MAGIC), c.rsaEncrypt(gcmKey, seed), iv, ToLE32(|data|), Tag(c, gcmKey, iv, ct), ct);
    assert gcmKey + Zeros(0) == gcmKey;
    CryptInvolution(c, gcmKey, iv, data);
  }

  lemma FieldsAt(magic: seq<Byte>, wrapped: seq<Byte>, iv: seq<Byte>, size: seq<Byte>, tag: seq<Byte>, ct: seq<Byte>)
    requires |magic| == MAGIC_SIZE && |wrapped| == ENC_GCM_KEY_SIZE && |iv| == IV_SIZE
    requires |size| == BIN_SIZE_DATA && |tag| == AUTH_SIZE
    ensures var r := magic + wrapped + iv + size + tag + Zeros(RESERVED_HEADER) + ct;
            && |r| == HEADER + |ct|
            && r[..KEY_AT] == magic && r[KEY_AT..IV_AT] == wrapped && r[IV_AT..SIZE_AT] == iv
            && r[SIZE_AT..AUTH_AT] == size && r[AUTH_AT..RESERVED_AT] == tag
            && r[RESERVED_AT..HEADER] == Zeros(RESERVED_HEADER) && r[HEADER..] == ct
  {
  }

  /** `int.from_bytes(b, 'little')`, for however few bytes a short file yields. */
  function FromLE(b: seq<Byte>): nat {
    if b == [] then 0 else b[0] + 256 * FromLE(b[1..])
  }

  lemma FromLEIsWord(b: seq<Byte>)
    requires |b| == 4
    ensures FromLE(b) == FromLE32(b)
  {
    assert b[1..][1..] == b[2..] && b[2..][1..] == b[3..] && b[3..][1..] == [];
    assert FromLE(b[3..]) == b[3] + 256 * FromLE([]);
    assert FromLE(b[2..]) == b[2] + 256 * FromLE(b[3..]);
    assert FromLE(b[1..]) == b[1] + 256 * FromLE(b[2..]);
  }

  /** A file opened for reading; `asked` counts the bytes asked for so far. */
  class Reader {
    const data: seq<Byte>
    var at: nat
    ghost var asked: nat

    ghost predicate Valid()
      reads this
    {
      at == Min(asked, |data|)
    }

    constructor (data: seq<Byte>)
      ensures Valid() && this.data == data && asked == 0
    {
      this.data := data;
      at, asked := 0, 0;
    }

    /** `file.read(n)`: at most `n` bytes, fewer at the end of the file. */
    method Read(n: nat) returns (b: seq<Byte>)
      requires Valid()
      modifies this
      ensures Valid() && asked == old(asked) + n && b == Slice(data, old(asked), n)
    {
      b := if at >= |data| then [] else data[at..Min(at + n, |data|)];
      at := at + |b|;
      asked := asked + n;
    }
  }

  function Min(a: nat, b: nat): nat {
    if a < b then a else b
  }

  function Slice(data: seq<Byte>, at: nat, n: nat): seq<Byte> {
    if at >= |data| then [] else data[at..Min(at + n, |data|)]
  }

  /** `decrypt`: None when the tool stops with an error. */
  method Decrypt(c: Crypto, file: seq<Byte>) returns (p: Option<seq<Byte>>)
    ensures p == Decrypted(c, file)
  {
    hide FromLE, Slice, DecryptBinary;
    var f := new Reader(file);
    var magic := f.Read(MAGIC_SIZE);
    if FromLE(magic) != MAGIC { return None; }
    var wrapped := f.Read(ENC_GCM_KEY_SIZE);
    var key := c.rsaDecrypt(wrapped);
    if key.None? { return None; }
    var iv := f.Read(IV_SIZE);
    var size := f.Read(BIN_SIZE_DATA);
    var auth := f.Read(AUTH_SIZE);
    var reserved := f.Read(RESERVED_HEADER);
    var body := f.Read(FromLE(size));
    p := DecryptBinary(c, body, auth, key.value, iv);
  }

  function Decrypted(c: Crypto, file: seq<Byte>): Option<seq<Byte>> {
    if FromLE(Slice(file, 0, MAGIC_SIZE)) != MAGIC then None
    else match c.rsaDecrypt(Slice(file, KEY_AT, ENC_GCM_KEY_SIZE))
      case None => None
      case Some(key) =>
        var size := FromLE(Slice(file, SIZE_AT, BIN_SIZE_DATA));
        DecryptBinary(c, Slice(file, HEADER, size), Slice(file, AUTH_AT, AUTH_SIZE), key, Slice(file, IV_AT, IV_SIZE))
  }

  /** The part of the file `decrypt` takes for the ciphertext: as many bytes as declared, or as there are. */
  function BodyOf(r: seq<Byte>): seq<Byte>
    requires |r| >= RESERVED_AT
  {
    if |r| <= HEADER then [] else if |r| <= HEADER + Declared(r) then r[HEADER..] else r[HEADER..HEADER + Declared(r)]
  }

  /** What `decrypt` computes on any file, however long: nothing of one that ends before its tag does;
      otherwise it is an error unless the magic is right, RSA recovers a key of a size AES has, and the
      tag is that of the ciphertext there is. */
  lemma DecryptedIs(c: Crypto, r: seq<Byte>)
    ensures |r| < RESERVED_AT ==> Decrypted(c, r) == None
    ensures |r| >= RESERVED_AT ==>
              var key, ct := c.rsaDecrypt(WrappedKey(r)), BodyOf(r);
              Decrypted(c, r) ==
                if MagicOf(r) == MAGIC && key.Some? && |key.value| in {16, 24, 32}
                   && Tag(c, key.value, IvOf(r), ct) == AuthOf(r)
                then Some(Crypt(c, key.value, IvOf(r), ct)) else None
  {
    hide Tag, Crypt, FromLE, FromLE32;
    if |r| >= RESERVED_AT {
      FromLEIsWord(r[..KEY_AT]);
      FromLEIsWord(r[SIZE_AT..AUTH_AT]);
      FieldSlices(r);
      var both := BodyOf(r) + AuthOf(r);
      assert both[..|both| - AUTH_SIZE] == BodyOf(r) && both[|both| - AUTH_SIZE..] == AuthOf(r);
    }
  }

  lemma FieldSlices(r: seq<Byte>)
    requires |r| >= RESERVED_AT
    ensures Slice(r, 0, MAGIC_SIZE) == r[..KEY_AT] && Slice(r, KEY_AT, ENC_GCM_KEY_SIZE) == WrappedKey(r)
    ensures Slice(r, IV_AT, IV_SIZE) == IvOf(r) && Slice(r, SIZE_AT, BIN_SIZE_DATA) == r[SIZE_AT..AUTH_AT]
    ensures Slice(r, AUTH_AT, AUTH_SIZE) == AuthOf(r) && Slice(r, HEADER, Declared(r)) == BodyOf(r)
  {
  }

  /** So on a file of the declared length: the one-shot plaintext under the key as recovered, if AES takes
      a key of that size and the tag matches. */
  lemma DecryptedFields(c: Crypto, r: seq<Byte>)
    requires |r| >= HEADER && |r| == HEADER + Declared(r) && HeaderOk(c, r)
    ensures var key, ct := RawKey(c, r), Ciphertext(r);
            Decrypted(c, r) == if |key| in {16, 24, 32} && Tag(c, key, IvOf(r), ct) == AuthOf(r)
                               then Some(Crypt(c, key, IvOf(r), ct)) else None
  {
    hide Decrypted, Tag, Crypt, Declared;
    DecryptedIs(c, r);
    if |r| == HEADER { assert Ciphertext(r) == []; }
  }

  /** A key recovered at full size is the device's key too. */
  lemma FullKey(c: Crypto, r: seq<Byte>)
    requires |r| >= IV_AT && HeaderOk(c, r) && |RawKey(c, r)| == GCM_KEY_SIZE
    ensures RawKey(c, r) == KeyOf(c, r)
  {
    AppendNothing(RawKey(c, r), Zeros(0));
  }

  /** The tool reads back what it wrote. */
  lemma ToolRoundTrip(c: Crypto, data: seq<Byte>, gcmKey: seq<Byte>, iv: seq<Byte>, seed: seq<Byte>)
    requires RsaLaws(c) && |gcmKey| == GCM_KEY_SIZE && |iv| == IV_SIZE && |data| < WORD
    ensures Decrypted(c, Encrypted(c, data, gcmKey, iv, seed)) == Some(data)
  {
    hide Encrypted, Tag, Crypt, Decrypted, HeaderOk;
    EncryptedLayout(c, data, gcmKey, iv, seed);
    DecryptedFields(c, Encrypted(c, data, gcmKey, iv, seed));
  }

  /** Tool-to-device round trip: the device turns what the tool writes, cut in any way, back into
      the tool's input, and accepts it. */
  lemma ToolToDevice(c: Crypto, data: seq<Byte>, gcmKey: seq<Byte>, iv: seq<Byte>, seed: seq<Byte>,
                     chunks: seq<seq<Byte>>)
    requires RsaLaws(c) && |gcmKey| == GCM_KEY_SIZE && |iv| == IV_SIZE && 0 < |data| < WORD
    requires Concat(chunks) == Encrypted(c, data, gcmKey, iv, seed) && NonEmpty(chunks)
    ensures chunks != [] && Verdicts(c, FRESH, chunks) == seq(|chunks| - 1, _ => NotFinished) + [EspOk]
    ensures Outputs(c, FRESH, chunks) == data
    ensures End(c, Run(c, FRESH, chunks)) == EspOk
  {
    EncryptedLayout(c, data, gcmKey, iv, seed);
    ChunkIndependence(c, Encrypted(c, data, gcmKey, iv, seed), chunks);
    EndExact(c, Run(c, FRESH, chunks));
  }

  /** The one input of the tool the device does not finish with OK: nothing. Its last call returns
      NO_MEM, although `end` then accepts the image. */
  lemma EmptyToDevice(c: Crypto, gcmKey: seq<Byte>, iv: seq<Byte>, seed: seq<Byte>, chunks: seq<seq<Byte>>)
    requires RsaLaws(c) && |gcmKey| == GCM_KEY_SIZE && |iv| == IV_SIZE
    requires Concat(chunks) == Encrypted(c, [], gcmKey, iv, seed) && NonEmpty(chunks)
    ensures chunks != [] && Verdicts(c, FRESH, chunks) == seq(|chunks| - 1, _ => NotFinished) + [NoMem]
    ensures Outputs(c, FRESH, chunks) == [] && End(c, Run(c, FRESH, chunks)) == EspOk
  {
    hide Encrypted, Tag, Crypt, Run, Outputs, Verdicts, End;
    EncryptedLayout(c, [], gcmKey, iv, seed);
    EmptyPayload(c, Encrypted(c, [], gcmKey, iv, seed), chunks);
    assert Ciphertext(Encrypted(c, [], gcmKey, iv, seed)) == [];
  }

  /** Device and tool on every stream with an acceptable header. The device accepts exactly the streams
      of the declared length whose tag is right under the recovered key, filled up with zeros, and
      outputs their plaintext under it; the tool does the same with the key as recovered, if AES has
      keys of that size. So they agree on every key recovered at full size. */
  lemma DeviceAgreesWithTool(c: Crypto, chunks: seq<seq<Byte>>)
    requires var r := Concat(chunks); HEADER <= |r| < HEADER + WORD && HeaderOk(c, r)
    ensures var r := Concat(chunks); var s, key, ct := Run(c, FRESH, chunks), RawKey(c, r), Ciphertext(r);
            && InDecode(s)
            && KeyOf(c, r) == key + Zeros(GCM_KEY_SIZE - |key|)
            && (End(c, s) == EspOk <==> |r| == HEADER + Declared(r) && Tag(c, KeyOf(c, r), IvOf(r), ct) == AuthOf(r))
            && (End(c, s) == EspOk ==> Outputs(c, FRESH, chunks) == Crypt(c, KeyOf(c, r), IvOf(r), ct))
            && (|r| == HEADER + Declared(r) ==>
                  Decrypted(c, r) == if |key| in {16, 24, 32} && Tag(c, key, IvOf(r), ct) == AuthOf(r)
                                     then Some(Crypt(c, key, IvOf(r), ct)) else None)
            && (|key| == GCM_KEY_SIZE ==>
                  && (End(c, s) == EspOk <==> |r| == HEADER + Declared(r) && Decrypted(c, r).Some?)
                  && (End(c, s) == EspOk ==> Decrypted(c, r) == Some(Outputs(c, FRESH, chunks))))
            && (|key| !in {16, 24, 32} ==> Decrypted(c, r) == None)
  {
    hide Decrypted, Run, Outputs, Concat, End, Tag, Crypt;
    var r := Concat(chunks);
    AcceptIffExact(c, chunks);
    if |r| == HEADER + Declared(r) {
      DecryptedFields(c, r);
      ExactOutputs(c, chunks);
    }
    if |RawKey(c, r)| == GCM_KEY_SIZE {
      FullKey(c, r);
    } else if |RawKey(c, r)| !in {16, 24, 32} {
      DecryptedIs(c, r);
    }
  }

  /** They part on a key of, say, 20 bytes: for every plaintext there is an image the device accepts
      and decrypts to it, and the tool refuses. */
  lemma ShortKeyImage(cipher: (seq<Byte>, Block) -> Block, product: (Block, Block) -> Block, data: seq<Byte>,
                      iv: seq<Byte>)
    returns (c: Crypto, image: seq<Byte>)
    requires |iv| == IV_SIZE && 0 < |data| < WORD
    ensures c.cipher == cipher && c.product == product
    ensures WellFormed(c, image) && TagOf(c, image) == AuthOf(image) && Plain(c, image) == data
    ensures |image| == HEADER + |data| && |RawKey(c, image)| == 20 && Decrypted(c, image) == None
  {
    c := Crypto(cipher, product, (key: seq<Byte>, seed: seq<Byte>) => [], (w: seq<Byte>) => Some(Zeros(20)));
    var key := Zeros(GCM_KEY_SIZE);
    var ct := Crypt(c, key, iv, data);
    var tag := Tag(c, key, iv, ct);
    image := ToLE32(MAGIC) + Zeros(ENC_GCM_KEY_SIZE) + iv + ToLE32(|data|) + tag + Zeros(RESERVED_HEADER) + ct;
    FieldsAt(ToLE32(MAGIC), Zeros(ENC_GCM_KEY_SIZE), iv, ToLE32(|data|), tag, ct);
    WordRoundTrip(MAGIC);
    WordRoundTrip(|data|);
    assert Zeros(20) + Zeros(12) == key;
    CryptInvolution(c, key, iv, data);
    DecryptedIs(c, image);
  }
}
