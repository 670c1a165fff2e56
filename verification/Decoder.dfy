/**
 The streaming decoder of esp_encrypted_img.c: a handle updated in place across calls, one field
 of the header at a time, then the re-blocking of the ciphertext.
 */
module Decoder {
  import opened Bytes
  import opened Gcm
  import opened Image
  import opened DecoderSpec

  datatype State = ReadMagic | ReadGcm | ReadIv | ReadBinSize | ReadAuth | ReadExtraHeader | DecodeState

  /** `pre_enc_decrypt_arg_t`. */
  class Args {
    var dataIn: Option<seq<Byte>>
    var dataOut: array?<Byte>
    var dataOutLen: nat

    constructor ()
      ensures dataIn == None && dataOut == null && dataOutLen == 0
    {
      dataIn, dataOut, dataOutLen := None, null, 0;
    }

    ghost predicate Holds(out: seq<Byte>)
      reads this, dataOut
    {
      && dataOutLen == |out|
      && (out != [] ==> dataOut != null && dataOut[..] == out)
    }
  }

  /** `realloc`. Resizing to 0 frees the block and returns NULL; allocation never fails otherwise. */
  method Realloc(p: array?<Byte>, n: nat) returns (q: array?<Byte>)
    ensures q == null <==> n == 0
    ensures q != null ==> fresh(q) && q.Length == n
    ensures q != null && p != null ==> forall i :: 0 <= i < n && i < p.Length ==> q[i] == p[i]
  {
    if n == 0 { return null; }
    var a := new Byte[n](_ => 0);
    if p != null {
      for i := 0 to if n < p.Length then n else p.Length
        invariant forall j :: 0 <= j < i ==> a[j] == p[j]
      {
        a[i] := p[i];
      }
    }
    return a;
  }

  /** `memcpy(dst + at, src, |src|)`. */
  method MemCpy(dst: array<Byte>, at: nat, src: seq<Byte>)
    requires at + |src| <= dst.Length
    modifies dst
    ensures dst[..at] == old(dst[..at])
    ensures dst[at..at + |src|] == src
    ensures dst[at + |src|..] == old(dst[at + |src|..])
  {
    for i := 0 to |src|
      invariant forall j :: 0 <= j < i ==> dst[at + j] == src[j]
      invariant forall j :: 0 <= j < at || at + |src| <= j < dst.Length ==> dst[j] == old(dst[j])
    {
      dst[at + i] := src[i];
    }
  }

  /** The length of the whole blocks among `n` bytes. */
  function Whole(n: nat): (k: nat)
    ensures k <= n < k + BLOCK && k % BLOCK == 0
  {
    n - n % BLOCK
  }

  lemma WholeShift(n: nat)
    ensures Whole(BLOCK + n) == BLOCK + Whole(n)
  {
  }

  ghost function Flat(xs: seq<seq<Byte>>): seq<Byte> {
    if xs == [] then [] else Flat(xs[..|xs| - 1]) + xs[|xs| - 1]
  }

  lemma FlatAppend(xs: seq<seq<Byte>>, x: seq<Byte>)
    ensures Flat(xs + [x]) == Flat(xs) + x
  {
    assert (xs + [x])[..|xs|] == xs;
  }

  lemma TwoSlices(a: seq<Byte>, i: nat, j: nat)
    requires i <= j <= |a|
    ensures a[..j] == a[..i] + a[i..j]
  {
  }

  /** Every input but possibly the last is whole blocks. */
  ghost predicate Disciplined(xs: seq<seq<Byte>>) {
    forall i :: 0 <= i < |xs| - 1 ==> |xs[i]| % BLOCK == 0
  }

  ghost predicate WholeInputs(xs: seq<seq<Byte>>) {
    forall i :: 0 <= i < |xs| ==> |xs[i]| % BLOCK == 0
  }

  class Handle {
    const crypto: Crypto
    var keyPresent: bool  // rsa_pem is not NULL
    var binaryFileLen: nat
    var binaryFileRead: nat
    var gcmKey: seq<Byte>
    const iv: array<Byte>
    const authTag: array<Byte>
    var state: State
    var gcm: Context
    var cacheBufLen: nat
    var cacheBuf: array<Byte>

    ghost var received: seq<Byte>
    ghost var dead: bool
    ghost var updates: seq<seq<Byte>>  // the inputs given to mbedtls_gcm_update so far

    ghost function Abs(): Session
      reads this
    {
      if dead then Dead else Live(received, |gcm.fed|)
    }

    ghost predicate Buffers()
      reads `cacheBuf, `state
    {
      && iv.Length == IV_SIZE && authTag.Length == AUTH_SIZE
      && iv != authTag && iv != cacheBuf && authTag != cacheBuf
      && cacheBuf.Length == if state in {ReadMagic, ReadGcm} then ENC_GCM_KEY_SIZE else BLOCK
    }

    /** After a header error the key is gone and the state can never pass READ_GCM. */
    ghost predicate DeadValid()
      reads this
    {
      && !keyPresent
      && cacheBufLen == binaryFileRead && binaryFileLen == 0
      && ((state == ReadMagic && cacheBufLen <= MAGIC_SIZE) || (state == ReadGcm && cacheBufLen <= ENC_GCM_KEY_SIZE))
    }

    /** Between calls every header field holds the slice of the stream received for it so far. */
    ghost predicate HeaderValid()
      reads this, iv, authTag, cacheBuf
      requires Buffers() && HeaderOk(crypto, received) && state != DecodeState
    {
      var n := |received|;
      && gcm.fed == [] && updates == []
      && (n < AUTH_AT ==> binaryFileLen == 0)
      && match state
         case ReadMagic =>
           && keyPresent && n < KEY_AT && cacheBufLen == binaryFileRead == n && cacheBuf[..n] == received
         case ReadGcm =>
           && keyPresent && KEY_AT <= n < IV_AT && cacheBufLen == binaryFileRead == n - KEY_AT
           && cacheBuf[..n - KEY_AT] == received[KEY_AT..]
         case ReadIv =>
           && IV_AT <= n < SIZE_AT && cacheBufLen == binaryFileRead == n - IV_AT
           && gcmKey == KeyOf(crypto, received) && iv[..n - IV_AT] == received[IV_AT..]
         case ReadBinSize =>
           && SIZE_AT <= n < AUTH_AT && cacheBufLen == binaryFileRead == n - SIZE_AT
           && cacheBuf[..n - SIZE_AT] == received[SIZE_AT..]
           && Keyed()
         case ReadAuth =>
           && AUTH_AT <= n < RESERVED_AT && cacheBufLen == binaryFileRead == n - AUTH_AT
           && authTag[..n - AUTH_AT] == received[AUTH_AT..]
           && Keyed() && binaryFileLen == Declared(received)
         case ReadExtraHeader =>
           && RESERVED_AT <= n < HEADER && cacheBufLen == 0 && binaryFileRead == n - RESERVED_AT
           && authTag[..] == AuthOf(received)
           && Keyed() && binaryFileLen == Declared(received)
    }

    ghost predicate Keyed()
      reads `received, `gcm
      requires HeaderOk(crypto, received)
    {
      |received| >= SIZE_AT && gcm.key == KeyOf(crypto, received) && gcm.iv == IvOf(received)
    }

    /** In DECODE the ciphertext is what was fed followed by what the cache holds back. */
    ghost predicate DecodeValid()
      reads this, authTag, cacheBuf
      requires Buffers() && HeaderOk(crypto, received)
    {
      && |received| >= HEADER
      && authTag[..] == AuthOf(received)
      && Keyed() && binaryFileLen == Declared(received)
      && binaryFileRead == (|received| - HEADER) % WORD
      && cacheBufLen < BLOCK
      && (binaryFileRead == binaryFileLen ==> cacheBufLen == 0)
      && Ciphertext(received) == gcm.fed + cacheBuf[..cacheBufLen]
      && gcm.fed == Flat(updates)
      && (|received| - HEADER < binaryFileLen ==> WholeInputs(updates))
      && (|received| - HEADER <= binaryFileLen ==> Disciplined(updates))
    }

    ghost predicate Valid()
      reads this, iv, authTag, cacheBuf
    {
      && Buffers()
      && if dead then DeadValid()
         else && HeaderOk(crypto, received)
              && if state == DecodeState then DecodeValid() else HeaderValid()
    }

    lemma ValidSound()
      requires Valid()
      ensures Sound(crypto, Abs())
      ensures InDecode(Abs()) <==> !dead && state == DecodeState
    {
    }

    /** `esp_encrypted_img_decrypt_start`, with a key. */
    constructor (crypto: Crypto)
      ensures this.crypto == crypto && Valid() && Abs() == FRESH
      ensures fresh(iv) && fresh(authTag) && fresh(cacheBuf)
    {
      this.crypto := crypto;
      keyPresent := true;
      binaryFileLen, binaryFileRead := 0, 0;
      gcmKey := Zeros(GCM_KEY_SIZE);
      iv := new Byte[IV_SIZE](_ => 0);
      authTag := new Byte[AUTH_SIZE](_ => 0);
      state := ReadMagic;
      gcm := Context([], [], []);
      cacheBufLen := 0;
      cacheBuf := new Byte[ENC_GCM_KEY_SIZE](_ => 0);
      received, dead, updates := [], false, [];
    }

    function Target(): array<Byte>
      reads this
    {
      if state == ReadIv then iv else if state == ReadAuth then authTag else cacheBuf
    }

    lemma ArrayPrefix(a: array<Byte>, at: nat, n: nat)
      requires at + n <= a.Length
      ensures a[..at + n] == a[..at] + a[at..at + n]
    {
    }

    /** `read_and_cache_data`: as much of a field of `size` bytes as this chunk still has. */
    method ReadAndCache(data: seq<Byte>, idx: nat, size: nat) returns (next: nat)
      requires Buffers() && idx <= |data| && cacheBufLen == binaryFileRead <= size <= Target().Length
      modifies `cacheBufLen, `binaryFileRead, Target()
      ensures next == if |data| - idx < size - old(binaryFileRead) then |data| else idx + size - old(binaryFileRead)
      ensures cacheBufLen == binaryFileRead == old(binaryFileRead) + next - idx
      ensures Target()[..cacheBufLen] == old(Target()[..cacheBufLen]) + data[idx..next]
    {
      var dataLeft := size - binaryFileRead;
      var dataRecv := |data| - idx;
      var n := if dataRecv < dataLeft then dataRecv else dataLeft;
      ghost var before := Target()[..cacheBufLen];
      if state == ReadIv {
        MemCpy(iv, cacheBufLen, data[idx..idx + n]);
      } else if state == ReadAuth {
        MemCpy(authTag, cacheBufLen, data[idx..idx + n]);
      } else {
        MemCpy(cacheBuf, cacheBufLen, data[idx..idx + n]);
      }
      ArrayPrefix(Target(), cacheBufLen, n);
      cacheBufLen := cacheBufLen + n;
      next := idx + n;
      binaryFileRead := binaryFileRead + n;
    }

    /** Where a call stands: `data[idx..]` is still to be read of the stream that ends with it. */
    ghost predicate Reading(data: seq<Byte>, idx: nat, stream: seq<Byte>)
      reads this
    {
      idx <= |data| && (!dead ==> received + data[idx..] == stream)
    }

    ghost method Take(data: seq<Byte>, idx: nat, next: nat, stream: seq<Byte>)
      requires Reading(data, idx, stream) && idx <= next <= |data|
      modifies `received
      ensures received == old(received) + data[idx..next] && Reading(data, next, stream)
      ensures |old(received)| >= IV_AT && HeaderOk(crypto, old(received)) ==>
                && HeaderOk(crypto, received) && KeyOf(crypto, received) == KeyOf(crypto, old(received))
                && (|old(received)| >= SIZE_AT ==> IvOf(received) == IvOf(old(received)))
                && (|old(received)| >= AUTH_AT ==> Declared(received) == Declared(old(received)))
                && (|old(received)| >= RESERVED_AT ==> AuthOf(received) == AuthOf(old(received)))
    {
      SplitTail(data, idx, next);
      Assoc(received, data[idx..next], data[next..]);
      if |received| >= IV_AT && HeaderOk(crypto, received) { HeaderGrows(crypto, received, data[idx..next]); }
      received := received + data[idx..next];
    }

    /** The magic, straight from the chunk or out of the cache: None while bytes are missing. */
    method FetchMagic(data: seq<Byte>, idx: nat) returns (next: nat, magic: Option<nat>)
      requires Buffers() && state == ReadMagic && idx <= |data| && cacheBufLen == binaryFileRead <= MAGIC_SIZE
      modifies `cacheBufLen, `binaryFileRead, cacheBuf
      ensures next == if |data| - idx < MAGIC_SIZE - old(cacheBufLen) then |data|
              else idx + MAGIC_SIZE - old(cacheBufLen)
      ensures cacheBufLen == binaryFileRead
      ensures magic.None? ==> cacheBufLen == old(cacheBufLen) + next - idx < MAGIC_SIZE
      ensures magic.None? ==> cacheBuf[..cacheBufLen] == old(cacheBuf[..cacheBufLen]) + data[idx..next]
      ensures magic.Some? ==> old(cacheBufLen) + next - idx == MAGIC_SIZE && cacheBufLen in {0, MAGIC_SIZE}
      ensures magic.Some? ==> magic.value == FromLE32(old(cacheBuf[..cacheBufLen]) + data[idx..next])
    {
      if cacheBufLen == 0 && |data| - idx >= MAGIC_SIZE {
        next := idx + MAGIC_SIZE;
        assert old(cacheBuf[..cacheBufLen]) + data[idx..next] == data[idx..next];
        magic := Some(FromLE32(data[idx..next]));
      } else {
        next := ReadAndCache(data, idx, MAGIC_SIZE);
        magic := if binaryFileRead == MAGIC_SIZE then Some(FromLE32(cacheBuf[..MAGIC_SIZE])) else None;
      }
    }

    /** case READ_MAGIC. EspOk means: go on with the next case. */
    method MagicField(data: seq<Byte>, idx: nat, ghost stream: seq<Byte>) returns (next: nat, err: EspErr)
      requires Valid() && state == ReadMagic && Reading(data, idx, stream)
      modifies this, cacheBuf
      ensures Valid() && Reading(data, next, stream) && cacheBuf == old(cacheBuf)
      ensures err in {EspOk, EspFail, NotFinished} && (err == EspOk ==> state == ReadGcm)
      ensures old(dead) ==> dead
      ensures !old(dead) ==> (dead <==> err == EspFail) && (dead ==> !HeaderOk(crypto, stream))
      ensures !dead && err == NotFinished ==> next == |data| && |received| < HEADER
    {
      ghost var r := received;
      var magic: Option<nat>;
      next, magic := FetchMagic(data, idx);
      Take(data, idx, next, stream);
      match magic
      case None => return next, NotFinished;
      case Some(m) =>
        if !dead {
          assert received == stream[..KEY_AT];
          assert m == MagicOf(received);
        }
        if m != MAGIC {
          keyPresent := false;
          dead := true;
          return next, EspFail;
        }
        binaryFileRead := 0;
        cacheBufLen := 0;
        state := ReadGcm;
        return next, EspOk;
    }

    /** `decipher_gcm_key`: its effects on the handle. The PEM key is released either way. */
    method DecipherGcmKey(encGcm: seq<Byte>) returns (ok: bool)
      requires Buffers() && state == ReadGcm
      modifies `keyPresent, `gcmKey, `cacheBuf, `state, `binaryFileRead, `cacheBufLen
      ensures Buffers() && !keyPresent
      ensures ok <==> old(keyPresent) && UnwrapKey(crypto, encGcm).Some?
      ensures ok ==> fresh(cacheBuf) && state == ReadIv && binaryFileRead == cacheBufLen == 0
      ensures ok ==> gcmKey == UnwrapKey(crypto, encGcm).value
      ensures !ok ==> unchanged(`gcmKey, `cacheBuf, `state, `binaryFileRead, `cacheBufLen)
    {
      var key := UnwrapKey(crypto, encGcm);
      if !keyPresent || key.None? {
        keyPresent := false;
        return false;
      }
      gcmKey := key.value;
      var shrunk := Realloc(cacheBuf, BLOCK);
      cacheBuf := shrunk;
      state := ReadIv;
      binaryFileRead := 0;
      cacheBufLen := 0;
      keyPresent := false;
      return true;
    }

    /** The wrapped key, straight from the chunk or out of the cache, and its decryption. */
    method FetchKey(data: seq<Byte>, idx: nat) returns (next: nat, err: EspErr)
      requires Buffers() && state == ReadGcm && idx <= |data| && cacheBufLen == binaryFileRead <= ENC_GCM_KEY_SIZE
      modifies `keyPresent, `gcmKey, `cacheBuf, `state, `binaryFileRead, `cacheBufLen, cacheBuf
      ensures Buffers() && (cacheBuf == old(cacheBuf) || fresh(cacheBuf))
      ensures idx <= next <= |data| && cacheBufLen == binaryFileRead
      ensures err == NotFinished ==>
                && state == ReadGcm && next == |data| && keyPresent == old(keyPresent)
                && cacheBufLen == old(cacheBufLen) + next - idx < ENC_GCM_KEY_SIZE
                && cacheBuf[..cacheBufLen] == old(cacheBuf[..cacheBufLen]) + data[idx..next]
      ensures err == EspFail ==> state == ReadGcm && !keyPresent && cacheBufLen <= ENC_GCM_KEY_SIZE
      ensures err == EspFail && old(keyPresent) ==>
                && old(cacheBufLen) + |data| - idx >= ENC_GCM_KEY_SIZE
                && UnwrapKey(crypto, old(cacheBuf[..cacheBufLen])
                                     + data[idx..idx + ENC_GCM_KEY_SIZE - old(cacheBufLen)]).None?
      ensures err == EspOk ==>
                && state == ReadIv && cacheBufLen == 0 && next == idx + ENC_GCM_KEY_SIZE - old(cacheBufLen)
                && old(keyPresent) && UnwrapKey(crypto, old(cacheBuf[..cacheBufLen]) + data[idx..next]) == Some(gcmKey)
      ensures err in {EspOk, EspFail, NotFinished}
    {
      var ok: bool;
      if cacheBufLen == 0 && |data| - idx >= ENC_GCM_KEY_SIZE {
        ghost var key := data[idx..idx + ENC_GCM_KEY_SIZE];
        assert old(cacheBuf[..cacheBufLen]) + key == key;
        ok := DecipherGcmKey(data[idx..idx + ENC_GCM_KEY_SIZE]);
        if !ok { return idx, EspFail; }
        next := idx + ENC_GCM_KEY_SIZE;
      } else {
        next := ReadAndCache(data, idx, ENC_GCM_KEY_SIZE);
        if cacheBufLen != ENC_GCM_KEY_SIZE { return next, NotFinished; }
        ok := DecipherGcmKey(cacheBuf[..ENC_GCM_KEY_SIZE]);
        if !ok { return next, EspFail; }
      }
      return next, EspOk;
    }

    /** case READ_GCM. */
    method GcmField(data: seq<Byte>, idx: nat, ghost stream: seq<Byte>) returns (next: nat, err: EspErr)
      requires Valid() && state == ReadGcm && Reading(data, idx, stream)
      modifies this, cacheBuf
      ensures Valid() && Reading(data, next, stream)
      ensures cacheBuf == old(cacheBuf) || fresh(cacheBuf)
      ensures err in {EspOk, EspFail, NotFinished} && (err == EspOk ==> !dead && state == ReadIv)
      ensures old(dead) ==> dead
      ensures !old(dead) ==> (dead <==> err == EspFail) && (dead ==> !HeaderOk(crypto, stream))
      ensures !dead && err == NotFinished ==> next == |data| && |received| < HEADER
    {
      hide HeaderOk, KeyOf, UnwrapKey, DecodeValid;
      ghost var r := received;
      next, err := FetchKey(data, idx);
      if err == EspFail {
        if !dead { KeyRefused(r, data, idx, stream); }
        dead := true;
      } else {
        if err == EspOk { KeyAccepted(r, data[idx..next], gcmKey); } else if !dead { KeyPending(r, data[idx..next]); }
        if !dead { DropAppend(r, data[idx..next], KEY_AT); }
        Take(data, idx, next, stream);
      }
    }

    lemma KeyRefused(r: seq<Byte>, data: seq<Byte>, idx: nat, stream: seq<Byte>)
      requires KEY_AT <= |r| < IV_AT && idx <= |data| && |r| + |data| - idx >= IV_AT && stream == r + data[idx..]
      requires UnwrapKey(crypto, r[KEY_AT..] + data[idx..idx + ENC_GCM_KEY_SIZE - (|r| - KEY_AT)]).None?
      ensures !HeaderOk(crypto, stream)
    {
      assert WrappedKey(stream) == r[KEY_AT..] + data[idx..idx + ENC_GCM_KEY_SIZE - (|r| - KEY_AT)];
    }

    lemma KeyPending(r: seq<Byte>, x: seq<Byte>)
      requires KEY_AT <= |r| && |r + x| < IV_AT && HeaderOk(crypto, r)
      ensures HeaderOk(crypto, r + x)
    {
      assert (r + x)[..KEY_AT] == r[..KEY_AT];
    }

    lemma KeyAccepted(r: seq<Byte>, x: seq<Byte>, key: seq<Byte>)
      requires KEY_AT <= |r| < IV_AT == |r + x| && HeaderOk(crypto, r)
               && UnwrapKey(crypto, r[KEY_AT..] + x) == Some(key)
      ensures HeaderOk(crypto, r + x) && KeyOf(crypto, r + x) == key
    {
      assert (r + x)[..KEY_AT] == r[..KEY_AT];
      assert WrappedKey(r + x) == r[KEY_AT..] + x;
    }

    ghost function FetchEnd(data: seq<Byte>, idx: nat): (next: nat)
      reads this
      requires idx <= |data| && cacheBufLen < BLOCK
      ensures idx <= next <= |data|
    {
      if |data| - idx < BLOCK - cacheBufLen then |data| else idx + BLOCK - cacheBufLen
    }

    /** IV and tag go straight to where they are kept, in one piece or several. */
    method FetchInPlace(data: seq<Byte>, idx: nat) returns (next: nat)
      requires Buffers() && state in {ReadIv, ReadAuth} && idx <= |data| && cacheBufLen == binaryFileRead < BLOCK
      modifies `cacheBufLen, `binaryFileRead, Target()
      ensures next == old(FetchEnd(data, idx))
      ensures binaryFileRead == old(cacheBufLen) + next - idx <= BLOCK
      ensures binaryFileRead < BLOCK ==> cacheBufLen == binaryFileRead
      ensures Target()[..binaryFileRead] == old(Target()[..cacheBufLen]) + data[idx..next]
    {
      if cacheBufLen == 0 && |data| - idx >= BLOCK {
        next := idx + BLOCK;
        MemCpy(Target(), 0, data[idx..next]);
        binaryFileRead := BLOCK;
      } else {
        next := ReadAndCache(data, idx, BLOCK);
      }
    }

    /** case READ_IV. */
    method IvField(data: seq<Byte>, idx: nat, ghost stream: seq<Byte>) returns (next: nat, err: EspErr)
      requires Valid() && !dead && state == ReadIv && Reading(data, idx, stream)
      modifies this, iv
      ensures Valid() && Reading(data, next, stream) && !dead && cacheBuf == old(cacheBuf)
      ensures (err == EspOk && state == ReadBinSize) || (err == NotFinished && next == |data| && |received| < HEADER)
    {
      hide HeaderOk, KeyOf, Declared, AuthOf, UnwrapKey, DecodeValid, HeaderValid;
      IvEntry();
      DropAppend(received, data[idx..FetchEnd(data, idx)], IV_AT);
      next := FetchInPlace(data, idx);
      Take(data, idx, next, stream);
      assert iv[..binaryFileRead] == received[IV_AT..];
      if binaryFileRead != IV_SIZE {
        IvPending();
        return next, NotFinished;
      }
      state := ReadBinSize;
      binaryFileRead := 0;
      cacheBufLen := 0;
      gcm := Context(gcmKey, iv[..], []);  // mbedtls_gcm_setkey and mbedtls_gcm_starts
      IvDone();
      return next, EspOk;
    }

    /** What is known while the IV is read, and when it is there. */
    ghost predicate IvSoFar()
      reads this, iv
      requires Buffers()
    {
      && !dead && gcm.fed == [] && updates == [] && binaryFileLen == 0
      && HeaderOk(crypto, received) && IV_AT <= |received| <= SIZE_AT
      && gcmKey == KeyOf(crypto, received) && iv[..|received| - IV_AT] == received[IV_AT..]
    }

    lemma IvEntry()
      requires Valid() && !dead && state == ReadIv
      ensures IvSoFar() && cacheBufLen == binaryFileRead == |received| - IV_AT < IV_SIZE
    {
      hide HeaderOk, KeyOf;
    }

    lemma IvPending()
      requires Buffers() && IvSoFar() && state == ReadIv
      requires cacheBufLen == binaryFileRead == |received| - IV_AT < IV_SIZE
      ensures Valid()
    {
      hide HeaderOk, KeyOf;
    }

    lemma IvDone()
      requires Buffers() && IvSoFar() && state == ReadBinSize && cacheBufLen == binaryFileRead == 0
      requires |received| == SIZE_AT && gcm == Context(gcmKey, iv[..], [])
      ensures Valid()
    {
      hide HeaderOk, KeyOf;
      assert iv[..IV_SIZE] == iv[..];
    }

    /** The length word, straight from the chunk or out of the cache. */
    method FetchSize(data: seq<Byte>, idx: nat) returns (next: nat, done: bool)
      requires Buffers() && state == ReadBinSize && idx <= |data| && cacheBufLen == binaryFileRead < BIN_SIZE_DATA
      modifies `cacheBufLen, `binaryFileRead, `binaryFileLen, cacheBuf
      ensures next == if |data| - idx < BIN_SIZE_DATA - old(cacheBufLen) then |data|
              else idx + BIN_SIZE_DATA - old(cacheBufLen)
      ensures !done ==> cacheBufLen == binaryFileRead == old(cacheBufLen) + next - idx < BIN_SIZE_DATA
      ensures !done ==> unchanged(`binaryFileLen)
      ensures !done ==> cacheBuf[..cacheBufLen] == old(cacheBuf[..cacheBufLen]) + data[idx..next]
      ensures done ==> old(cacheBufLen) + next - idx == BIN_SIZE_DATA
      ensures done ==> binaryFileLen == FromLE32(old(cacheBuf[..cacheBufLen]) + data[idx..next])
    {
      if cacheBufLen == 0 && |data| - idx >= BIN_SIZE_DATA {
        next := idx + BIN_SIZE_DATA;
        assert old(cacheBuf[..cacheBufLen]) + data[idx..next] == data[idx..next];
        binaryFileLen := FromLE32(data[idx..next]);
        done := true;
      } else {
        next := ReadAndCache(data, idx, BIN_SIZE_DATA);
        done := binaryFileRead == BIN_SIZE_DATA;
        if done { binaryFileLen := FromLE32(cacheBuf[..BIN_SIZE_DATA]); }
      }
    }

    /** case READ_BINSIZE. */
    method BinSizeField(data: seq<Byte>, idx: nat, ghost stream: seq<Byte>) returns (next: nat, err: EspErr)
      requires Valid() && !dead && state == ReadBinSize && Reading(data, idx, stream)
      modifies this, cacheBuf
      ensures Valid() && Reading(data, next, stream) && !dead && cacheBuf == old(cacheBuf)
      ensures (err == EspOk && state == ReadAuth) || (err == NotFinished && next == |data| && |received| < HEADER)
    {
      hide HeaderOk, KeyOf, IvOf, AuthOf, DecodeValid;
      ghost var r := received;
      var done: bool;
      next, done := FetchSize(data, idx);
      Take(data, idx, next, stream);
      DropAppend(r, data[idx..next], SIZE_AT);
      if !done { return next, NotFinished; }
      assert |r| == SIZE_AT + old(cacheBufLen) && |received| == AUTH_AT;
      assert received[SIZE_AT..AUTH_AT] == received[SIZE_AT..];
      state := ReadAuth;
      binaryFileRead := 0;
      cacheBufLen := 0;
      return next, EspOk;
    }

    /** case READ_AUTH. */
    method AuthField(data: seq<Byte>, idx: nat, ghost stream: seq<Byte>) returns (next: nat, err: EspErr)
      requires Valid() && !dead && state == ReadAuth && Reading(data, idx, stream)
      modifies this, authTag
      ensures Valid() && Reading(data, next, stream) && !dead && cacheBuf == old(cacheBuf)
      ensures (err == EspOk && state == ReadExtraHeader) ||
              (err == NotFinished && next == |data| && |received| < HEADER)
    {
      hide HeaderOk, KeyOf, IvOf, Declared;
      DropAppend(received, data[idx..FetchEnd(data, idx)], AUTH_AT);
      next := FetchInPlace(data, idx);
      Take(data, idx, next, stream);
      assert authTag[..binaryFileRead] == received[AUTH_AT..];
      if binaryFileRead != AUTH_SIZE { return next, NotFinished; }
      state := ReadExtraHeader;
      binaryFileRead := 0;
      cacheBufLen := 0;
      assert authTag[..] == received[AUTH_AT..RESERVED_AT];
      return next, EspOk;
    }

    /** case READ_EXTRA_HEADER: 88 reserved bytes, skipped. */
    method ExtraField(data: seq<Byte>, idx: nat, ghost stream: seq<Byte>) returns (next: nat, err: EspErr)
      requires Valid() && !dead && state == ReadExtraHeader && Reading(data, idx, stream)
      modifies this
      ensures Valid() && Reading(data, next, stream) && !dead && cacheBuf == old(cacheBuf)
      ensures (err == EspOk && state == DecodeState && |received| == HEADER)
           || (err == NotFinished && next == |data| && |received| < HEADER)
    {
      hide HeaderOk, KeyOf, IvOf, AuthOf;
      var left := RESERVED_HEADER - binaryFileRead;
      var n := if |data| - idx < left then |data| - idx else left;
      next := idx + n;
      binaryFileRead := binaryFileRead + n;
      Take(data, idx, next, stream);
      if binaryFileRead != RESERVED_HEADER { return next, NotFinished; }
      state := DecodeState;
      binaryFileRead := 0;
      cacheBufLen := 0;
      return next, EspOk;
    }

    /** Since the cipher was in state `g` with inputs `log`, it has been fed exactly `y`. */
    ghost predicate Fed(g: Context, log: seq<seq<Byte>>, y: seq<Byte>)
      reads `gcm, `updates
    {
      gcm == g.Feed(y) && Flat(updates) == Flat(log) + y
    }

    lemma FedNothing()
      ensures Fed(gcm, updates, [])
    {
      assert gcm.fed + [] == gcm.fed && Flat(updates) + [] == Flat(updates);
    }

    /** `mbedtls_gcm_update`, with the size of the output buffer from position `at` on. `y` has been
        fed, and its decryption output, by the call of `process_bin` in progress. */
    method GcmUpdate(input: seq<Byte>, out: array<Byte>, at: nat, outputSize: nat,
                     ghost g: Context, ghost log: seq<seq<Byte>>, ghost y: seq<Byte>) returns (ok: bool)
      requires at + outputSize <= out.Length
      requires Fed(g, log, y) && at == |y| && out[..at] == g.Output(crypto, y)
      modifies `gcm, `updates, out
      ensures ok <==> |input| <= outputSize
      ensures !ok ==> unchanged(`gcm, `updates, out)
      ensures ok ==> Fed(g, log, y + input)
      ensures ok && WholeInputs(old(updates)) ==>
                Disciplined(updates) && (|input| % BLOCK == 0 ==> WholeInputs(updates))
      ensures ok ==> out[..at + |input|] == g.Output(crypto, y + input)
    {
      if |input| > outputSize { return false; }
      OutputAppend(crypto, g, y, input);
      Assoc(g.fed, y, input);
      FlatAppend(updates, input);
      Assoc(Flat(log), y, input);
      MemCpy(out, at, gcm.Output(crypto, input));
      TwoSlices(out[..], at, at + |input|);
      gcm := gcm.Feed(input);
      updates := updates + [input];
      return true;
    }

    /** Tops the cached block up from the chunk. */
    method TopUp(data: seq<Byte>, idx: nat) returns (copyLen: nat)
      requires Buffers() && state == DecodeState && idx <= |data| && cacheBufLen < BLOCK
      modifies `cacheBufLen, cacheBuf
      ensures copyLen == if BLOCK - old(cacheBufLen) < |data| - idx then BLOCK - old(cacheBufLen) else |data| - idx
      ensures cacheBufLen == old(cacheBufLen) + copyLen <= BLOCK
      ensures cacheBuf[..cacheBufLen] == old(cacheBuf[..cacheBufLen]) + data[idx..idx + copyLen]
    {
      copyLen := if BLOCK - cacheBufLen < |data| - idx then BLOCK - cacheBufLen else |data| - idx;
      ghost var p := cacheBuf[..cacheBufLen];
      MemCpy(cacheBuf, cacheBufLen, data[idx..idx + copyLen]);
      cacheBufLen := cacheBufLen + copyLen;
      assert cacheBuf[..cacheBufLen] == p + data[idx..idx + copyLen];
    }

    /** The head of `process_bin`: complete the block the cache holds the beginning of, if the
        chunk has enough bytes for it, and decrypt it. */
    method FillBlock(data: seq<Byte>, idx: nat, out: array?<Byte>, outSize: nat) returns (copyLen: nat, full: bool)
      requires Buffers() && state == DecodeState && idx <= |data| && 0 < cacheBufLen < BLOCK
      requires cacheBufLen + |data| - idx >= BLOCK ==> out != null && BLOCK <= outSize <= out.Length
      requires out != cacheBuf
      modifies `cacheBufLen, `gcm, `updates, cacheBuf, out
      ensures copyLen <= |data| - idx && (full <==> old(cacheBufLen) + |data| - idx >= BLOCK)
      ensures cacheBufLen == old(cacheBufLen) + copyLen <= BLOCK
      ensures cacheBuf[..cacheBufLen] == old(cacheBuf[..cacheBufLen]) + data[idx..idx + copyLen]
      ensures !full ==> copyLen == |data| - idx && unchanged(`gcm, `updates)
      ensures full ==> cacheBufLen == BLOCK && Fed(old(gcm), old(updates), cacheBuf[..BLOCK])
      ensures WholeInputs(old(updates)) ==> WholeInputs(updates)
      ensures full ==> out[..BLOCK] == old(gcm).Output(crypto, cacheBuf[..BLOCK])
    {
      copyLen := TopUp(data, idx);
      full := cacheBufLen == BLOCK;
      if full {
        FedNothing();
        assert [] + cacheBuf[..BLOCK] == cacheBuf[..BLOCK];
        var ok := GcmUpdate(cacheBuf[..BLOCK], out, 0, outSize, gcm, updates, []);
        assert ok;
      }
    }

    /** The body of `process_bin`: the whole blocks of `data[from..]` are decrypted straight from
        the chunk, behind the `decLen` bytes already output, and the remainder is cached. */
    method DirectBlocks(data: seq<Byte>, from: nat, out: array?<Byte>, decLen: nat, outSize: nat,
                        ghost g: Context, ghost log: seq<seq<Byte>>, ghost y: seq<Byte>) returns (end: nat)
      requires Buffers() && state == DecodeState && from <= |data| && out != cacheBuf
      requires decLen + Whole(|data| - from) > 0 ==>
                 out != null && outSize == out.Length == decLen + Whole(|data| - from)
      requires Fed(g, log, y) && decLen == |y|
      requires out != null && decLen <= out.Length ==> out[..decLen] == g.Output(crypto, y)
      modifies `cacheBufLen, `gcm, `updates, cacheBuf, out
      ensures end == from + Whole(|data| - from)
      ensures cacheBufLen == |data| - end && cacheBuf[..cacheBufLen] == data[end..]
      ensures Fed(g, log, y + data[from..end])
      ensures decLen + end - from > 0 ==> out[..] == g.Output(crypto, y + data[from..end])
      ensures WholeInputs(old(updates)) ==> WholeInputs(updates)
    {
      hide Fed, WholeInputs, Disciplined, Context.Output;
      end := |data|;
      cacheBufLen := (|data| - from) % BLOCK;
      if cacheBufLen != 0 {
        end := end - cacheBufLen;
        MemCpy(cacheBuf, 0, data[end..end + cacheBufLen]);
      }
      if end - from > 0 {
        var ok := GcmUpdate(data[from..end], out, decLen, outSize - decLen, g, log, y);
        assert ok && out[..] == out[..decLen + end - from];
      } else {
        AppendNothing(y, data[from..end]);
        if decLen > 0 { assert out[..] == out[..decLen]; }
      }
    }

    lemma Reblocked(p: seq<Byte>, data: seq<Byte>, idx: nat, from: nat, end: nat)
      requires 0 < |p| < BLOCK && idx <= from <= |data| && from - idx == BLOCK - |p|
               && end == from + Whole(|data| - from)
      ensures var y := p + data[idx..]; var k := Whole(|p| + |data| - idx);
              && k == BLOCK + end - from && y[..k] == (p + data[idx..from]) + data[from..end] && y[k..] == data[end..]
    {
      assert |p| + |data| - idx == BLOCK + (|data| - from);
    }

    /** The effect of `process_bin` on an incomplete image whose pending bytes are `y`: whole blocks
        have gone through the cipher to the output buffer, in order, and the rest is held back. */
    ghost predicate Processed(args: Args, g: Context, log: seq<seq<Byte>>, y: seq<Byte>)
      reads this, cacheBuf, args, args.dataOut
    {
      var k := Whole(|y|);
      && cacheBufLen == |y| - k && cacheBufLen <= cacheBuf.Length && cacheBuf[..cacheBufLen] == y[k..]
      && Fed(g, log, y[..k])
      && args.Holds(g.Output(crypto, y[..k]))
      && (WholeInputs(log) ==> WholeInputs(updates))
    }

    /** With less than a block pending, all of it is held back. */
    lemma ShortProcessed(args: Args, p: seq<Byte>, data: seq<Byte>, idx: nat)
      requires idx <= |data| && |p| + |data| - idx < BLOCK == cacheBuf.Length && args.dataOutLen == 0
      requires cacheBufLen == |p| + |data| - idx && cacheBuf[..cacheBufLen] == p + data[idx..]
      ensures Processed(args, gcm, updates, p + data[idx..])
    {
      FedNothing();
      assert |p + data[idx..]| == |p| + |data| - idx && (p + data[idx..])[..0] == [];
    }

    lemma CachedProcessed(args: Args, g: Context, log: seq<seq<Byte>>, p: seq<Byte>, data: seq<Byte>,
                          idx: nat, from: nat, end: nat)
      requires 0 < |p| < BLOCK && idx <= from <= |data| && from - idx == BLOCK - |p|
               && end == from + Whole(|data| - from)
      requires cacheBufLen == |data| - end <= cacheBuf.Length && cacheBuf[..cacheBufLen] == data[end..]
      requires Fed(g, log, p + data[idx..from] + data[from..end]) && (WholeInputs(log) ==> WholeInputs(updates))
      requires args.Holds(g.Output(crypto, p + data[idx..from] + data[from..end]))
      ensures Processed(args, g, log, p + data[idx..])
    {
      Reblocked(p, data, idx, from, end);
      assert |p + data[idx..]| == |p| + |data| - idx;
    }

    /** `process_bin` once the cached block is full and decrypted. */
    method AfterFill(args: Args, data: seq<Byte>, idx: nat, from: nat, outSize: nat,
                     ghost g: Context, ghost log: seq<seq<Byte>>, ghost p: seq<Byte>)
      requires Buffers() && state == DecodeState && 0 < |p| < BLOCK && idx <= from <= |data|
               && from - idx == BLOCK - |p|
      requires args.dataOut != cacheBuf && args.dataOut != null
      requires args.dataOut.Length == outSize == BLOCK + Whole(|data| - from)
      requires Fed(g, log, p + data[idx..from]) && args.dataOut[..BLOCK] == g.Output(crypto, p + data[idx..from])
      requires WholeInputs(log) ==> WholeInputs(updates)
      modifies `cacheBufLen, `gcm, `updates, cacheBuf, args`dataOutLen, args.dataOut
      ensures Processed(args, g, log, p + data[idx..])
    {
      var end := DirectBlocks(data, from, args.dataOut, BLOCK, outSize, g, log, p + data[idx..from]);
      args.dataOutLen := BLOCK + end - from;
      CachedProcessed(args, g, log, p, data, idx, from, end);
    }

    method ProcessCached(args: Args, data: seq<Byte>, idx: nat, outSize: nat)
      requires Buffers() && state == DecodeState && idx <= |data| && 0 < cacheBufLen < BLOCK
      requires args.dataOut != cacheBuf
      requires var k := Whole(cacheBufLen + |data| - idx);
               k > 0 ==> args.dataOut != null && args.dataOut.Length == outSize == k
      modifies `cacheBufLen, `gcm, `updates, cacheBuf, args`dataOutLen, args.dataOut
      ensures Processed(args, old(gcm), old(updates), old(cacheBuf[..cacheBufLen]) + data[idx..])
    {
      hide Processed, Fed, WholeInputs, Context.Output;
      ghost var p, g, log := cacheBuf[..cacheBufLen], gcm, updates;
      var copyLen, full := FillBlock(data, idx, args.dataOut, outSize);
      if !full {
        args.dataOutLen := 0;
        assert data[idx..idx + copyLen] == data[idx..];
        ShortProcessed(args, p, data, idx);
        return;
      }
      WholeShift(|data| - idx - copyLen);
      AfterFill(args, data, idx, idx + copyLen, outSize, g, log, p);
    }

    method ProcessDirect(args: Args, data: seq<Byte>, idx: nat, outSize: nat)
      requires Buffers() && state == DecodeState && idx <= |data| && cacheBufLen == 0
      requires args.dataOut != cacheBuf
      requires var k := Whole(|data| - idx);
               k > 0 ==> args.dataOut != null && args.dataOut.Length == outSize == k
      modifies `cacheBufLen, `gcm, `updates, cacheBuf, args`dataOutLen, args.dataOut
      ensures Processed(args, old(gcm), old(updates), data[idx..])
    {
      hide Processed, Fed, WholeInputs, Context.Output;
      ghost var g, log := gcm, updates;
      FedNothing();
      var end := DirectBlocks(data, idx, args.dataOut, 0, outSize, g, log, []);
      args.dataOutLen := end - idx;
      DirectProcessed(args, g, log, data, idx, end);
    }

    lemma DirectProcessed(args: Args, g: Context, log: seq<seq<Byte>>, data: seq<Byte>, idx: nat, end: nat)
      requires idx <= |data| && end == idx + Whole(|data| - idx) && args.dataOutLen == end - idx
      requires cacheBufLen == |data| - end <= cacheBuf.Length && cacheBuf[..cacheBufLen] == data[end..]
      requires Fed(g, log, [] + data[idx..end]) && (WholeInputs(log) ==> WholeInputs(updates))
      requires end > idx ==> args.dataOut != null && args.dataOut[..] == g.Output(crypto, [] + data[idx..end])
      ensures Processed(args, g, log, data[idx..])
    {
      hide Fed, WholeInputs;
      ghost var x := data[idx..];
      assert [] + data[idx..end] == x[..end - idx] && x[end - idx..] == data[end..];
    }

    method DecryptBlocks(args: Args, data: seq<Byte>, idx: nat)
      requires Buffers() && state == DecodeState && idx <= |data| && cacheBufLen < BLOCK
      requires args.dataOut != cacheBuf
      modifies `cacheBufLen, `gcm, `updates, cacheBuf, args`dataOut, args`dataOutLen, args.dataOut
      ensures Processed(args, old(gcm), old(updates), old(cacheBuf[..cacheBufLen]) + data[idx..])
      ensures args.dataOut == old(args.dataOut) || fresh(args.dataOut)
      ensures gcm.key == old(gcm).key && gcm.iv == old(gcm).iv
    {
      hide Processed;
      var pending := cacheBufLen + (|data| - idx);
      var dataOutSize := args.dataOutLen;
      if Whole(pending) > 0 {
        dataOutSize := Whole(pending);
        args.dataOut := Realloc(args.dataOut, dataOutSize);
      }
      if cacheBufLen != 0 {
        ProcessCached(args, data, idx, dataOutSize);
      } else {
        assert cacheBuf[..0] + data[idx..] == data[idx..];
        ProcessDirect(args, data, idx, dataOutSize);
      }
      ProcessedKey(args, old(gcm), old(updates), old(cacheBuf[..cacheBufLen]) + data[idx..]);
    }

    lemma ProcessedKey(args: Args, g: Context, log: seq<seq<Byte>>, y: seq<Byte>)
      requires Processed(args, g, log, y)
      ensures gcm.key == g.key && gcm.iv == g.iv
    {
    }

    /** `process_bin` while the image is incomplete. */
    method ProcessBlocks(args: Args, data: seq<Byte>, idx: nat) returns (err: EspErr)
      requires Buffers() && idx <= |data| && cacheBufLen < BLOCK && Ready(cacheBuf[..cacheBufLen] + data[idx..])
      requires binaryFileRead != binaryFileLen && args.dataOut != cacheBuf && args.dataOut != authTag
      modifies `cacheBufLen, `gcm, `updates, cacheBuf, args`dataOut, args`dataOutLen, args.dataOut
      ensures err == NotFinished && Valid()
      ensures |gcm.fed| == FedAfter(received, |old(gcm).fed|)
      ensures args.Holds(Plain(crypto, received)[|old(gcm).fed|..|gcm.fed|])
      ensures args.dataOut == old(args.dataOut) || fresh(args.dataOut)
    {
      hide HeaderOk, KeyOf, IvOf, AuthOf, Declared, Plain, FedAfter, Complete, HeaderKept, Processed;
      ghost var g, y, log := gcm, cacheBuf[..cacheBufLen] + data[idx..], updates;
      ReadyFacts(y);
      DecryptBlocks(args, data, idx);
      AfterBlocks(args, g, log, y);
      return NotFinished;
    }

    /** `process_bin` on the chunk that completes the image: everything pending is decrypted. */
    method ProcessFinal(args: Args, data: seq<Byte>, idx: nat) returns (err: EspErr)
      requires Buffers() && idx <= |data| && cacheBufLen < BLOCK && Ready(cacheBuf[..cacheBufLen] + data[idx..])
      requires binaryFileRead == binaryFileLen && args.dataOut != cacheBuf && args.dataOut != authTag
      modifies `cacheBufLen, `gcm, `updates, cacheBuf, args`dataOut, args`dataOutLen
      ensures Valid()
      ensures |gcm.fed| == FedAfter(received, |old(gcm).fed|)
      ensures err == if |old(gcm).fed| == |received| - HEADER then NoMem else EspOk
      ensures err == NoMem ==> args.dataOut == null && args.dataOutLen == old(args.dataOutLen)
      ensures err == EspOk ==> args.Holds(Plain(crypto, received)[|old(gcm).fed|..|gcm.fed|]) && fresh(args.dataOut)
    {
      hide HeaderOk, KeyOf, IvOf, AuthOf, Declared, Plain, FedAfter, Complete, HeaderKept, Fed, Disciplined,
           WholeInputs, Valid, Ready, Flat, Keyed, Context.Output;
      ghost var g, y, log := gcm, cacheBuf[..cacheBufLen] + data[idx..], updates;
      ReadyFacts(y);
      var dataOutSize := cacheBufLen + |data| - idx;
      args.dataOut := Realloc(args.dataOut, dataOutSize);
      if args.dataOut == null {
        err := NoMem;
        FedNothing();
        assert y == [];
      } else {
        err := EspOk;
        FlushAll(data, idx, args.dataOut, dataOutSize);
        args.dataOutLen := dataOutSize;
        cacheBufLen := 0;
      }
      KeyKept(g, log, y);
      AfterFinal(g, log, y);
    }

    lemma KeyKept(g: Context, log: seq<seq<Byte>>, y: seq<Byte>)
      requires HeaderKept() && Fed(g, log, y) && |received| >= SIZE_AT
      requires g.key == KeyOf(crypto, received) && g.iv == IvOf(received)
      ensures Keyed()
    {
    }

    method FlushAll(data: seq<Byte>, idx: nat, out: array<Byte>, outSize: nat)
      requires Buffers() && state == DecodeState && idx <= |data| && cacheBufLen < BLOCK && out != cacheBuf
      requires 0 < outSize == out.Length == cacheBufLen + |data| - idx
      modifies `cacheBufLen, `gcm, `updates, cacheBuf, out
      ensures var y := old(cacheBuf[..cacheBufLen]) + data[idx..];
              Fed(old(gcm), old(updates), y) && out[..] == old(gcm).Output(crypto, y)
      ensures WholeInputs(old(updates)) ==> Disciplined(updates)
    {
      hide Fed, WholeInputs, Disciplined, Context.Output;
      ghost var p, g, log := cacheBuf[..cacheBufLen], gcm, updates;
      FedNothing();
      var copyLen := TopUp(data, idx);
      ghost var first := cacheBuf[..cacheBufLen];
      assert [] + first == first;
      var ok := GcmUpdate(cacheBuf[..cacheBufLen], out, 0, outSize, g, log, []);
      assert ok;
      if |data| - idx - copyLen > 0 {
        assert first + data[idx + copyLen..] == p + data[idx..];
        ok := GcmUpdate(data[idx + copyLen..], out, BLOCK, outSize - BLOCK, g, log, first);
        assert ok;
      } else {
        assert data[idx..idx + copyLen] == data[idx..];
      }
      assert out[..] == out[..outSize];
    }

    lemma WrapAdd(a: nat, n: nat)
      ensures (a % WORD + n) % WORD == (a + n) % WORD
    {
    }

    /** What the cipher outputs for a stretch of the pending bytes is that stretch of the one-shot
        decryption of the whole stream. */
    lemma OutputIsPlain(g: Context, r: seq<Byte>, y: seq<Byte>, k: nat)
      requires |r| >= HEADER && HeaderOk(crypto, r) && g.key == KeyOf(crypto, r) && g.iv == IvOf(r)
      requires Ciphertext(r) == g.fed + y && k <= |y|
      ensures g.Output(crypto, y[..k]) == Plain(crypto, r)[|g.fed|..|g.fed| + k]
    {
      var ct := Ciphertext(r);
      assert ct[..|g.fed| + k] == g.fed + y[..k];
      CryptPrefix(crypto, g.key, g.iv, ct, |g.fed| + k);
    }

    lemma StreamGrows(data: seq<Byte>, idx: nat, stream: seq<Byte>)
      requires Valid() && !dead && state == DecodeState && Reading(data, idx, stream)
      ensures |stream| >= HEADER && HeaderOk(crypto, stream) && KeyOf(crypto, stream) == KeyOf(crypto, received)
      ensures IvOf(stream) == IvOf(received) && Declared(stream) == binaryFileLen && AuthOf(stream) == authTag[..]
      ensures Ciphertext(stream) == gcm.fed + (cacheBuf[..cacheBufLen] + data[idx..])
      ensures (binaryFileRead + (|data| - idx)) % WORD == (|stream| - HEADER) % WORD
      ensures |stream| - HEADER <= binaryFileLen ==>
                Disciplined(updates) && (|data| > idx || |stream| - HEADER < binaryFileLen ==> WholeInputs(updates))
    {
      HeaderGrows(crypto, received, data[idx..]);
      DropAppend(received, data[idx..], HEADER);
      assert Ciphertext(received) + data[idx..] == gcm.fed + (cacheBuf[..cacheBufLen] + data[idx..]);
      WrapAdd(|received| - HEADER, |data| - idx);
    }

    /** The chunk is counted as received; `y` is the ciphertext not yet fed. */
    ghost predicate Ready(y: seq<Byte>)
      reads this, authTag
      requires Buffers()
    {
      && HeaderKept() && Keyed() && cacheBufLen < BLOCK
      && Ciphertext(received) == gcm.fed + y
      && gcm.fed == Flat(updates)
      && (|received| - HEADER <= binaryFileLen ==>
            Disciplined(updates) && (y != [] || |received| - HEADER < binaryFileLen ==> WholeInputs(updates)))
    }

    lemma ReadyFacts(y: seq<Byte>)
      requires Buffers() && Ready(y)
      ensures state == DecodeState && HeaderKept() && Keyed() && |gcm.fed| + |y| == |received| - HEADER
      ensures binaryFileRead != binaryFileLen && |received| - HEADER <= binaryFileLen ==> WholeInputs(updates)
      ensures |received| >= HEADER && HeaderOk(crypto, received) && Ciphertext(received) == gcm.fed + y
      ensures gcm.key == KeyOf(crypto, received) && gcm.iv == IvOf(received) && gcm.fed == Flat(updates)
      ensures |received| - HEADER <= binaryFileLen ==> Disciplined(updates) && (y != [] ==> WholeInputs(updates))
    {
    }

    method Absorb(data: seq<Byte>, idx: nat, ghost stream: seq<Byte>)
      requires Valid() && !dead && state == DecodeState && Reading(data, idx, stream)
      modifies `binaryFileRead, `received
      ensures received == stream && Ready(cacheBuf[..cacheBufLen] + data[idx..])
    {
      StreamGrows(data, idx, stream);
      binaryFileRead := (binaryFileRead + (|data| - idx)) % WORD;
      received := stream;
    }

    /** `process_bin`. */
    method ProcessBin(args: Args, data: seq<Byte>, idx: nat, ghost stream: seq<Byte>) returns (err: EspErr)
      requires Valid() && !dead && state == DecodeState && Reading(data, idx, stream)
      requires args.dataOut != cacheBuf && args.dataOut != iv && args.dataOut != authTag
      modifies this, cacheBuf, args`dataOut, args`dataOutLen, args.dataOut
      ensures Valid() && !dead && state == DecodeState && received == stream && cacheBuf == old(cacheBuf)
      ensures |stream| >= HEADER && HeaderOk(crypto, stream) && |old(gcm).fed| <= |stream| - HEADER
      ensures |gcm.fed| == FedAfter(stream, |old(gcm).fed|)
      ensures err == if !Complete(stream) then NotFinished
                     else if |old(gcm).fed| == |stream| - HEADER then NoMem else EspOk
      ensures err == NoMem ==> args.dataOut == null && args.dataOutLen == old(args.dataOutLen)
      ensures err != NoMem ==> args.Holds(Plain(crypto, stream)[|old(gcm).fed|..|gcm.fed|])
      ensures args.dataOut == old(args.dataOut) || args.dataOut == null || fresh(args.dataOut)
    {
      hide HeaderOk, KeyOf, IvOf, AuthOf, Declared, Plain, FedAfter;
      Absorb(data, idx, stream);
      if binaryFileRead != binaryFileLen {
        err := ProcessBlocks(args, data, idx);
      } else {
        err := ProcessFinal(args, data, idx);
      }
    }

    lemma FedAfterBlocks(r: seq<Byte>, fed: nat, pending: nat)
      requires |r| >= HEADER && |r| - HEADER == fed + pending && !Complete(r)
      ensures FedAfter(r, fed) == fed + Whole(pending)
    {
    }

    /** What `process_bin` keeps of the header while the cipher works. */
    ghost predicate HeaderKept()
      reads `received, `state, `dead, `binaryFileLen, `binaryFileRead, authTag
    {
      && !dead && state == DecodeState
      && HeaderOk(crypto, received) && |received| >= HEADER
      && authTag[..] == AuthOf(received)
      && binaryFileLen == Declared(received)
      && binaryFileRead == (|received| - HEADER) % WORD
    }

    lemma AfterBlocks(args: Args, g: Context, log: seq<seq<Byte>>, y: seq<Byte>)
      requires Buffers() && HeaderKept() && Keyed() && binaryFileRead != binaryFileLen
      requires Processed(args, g, log, y)
      requires g.key == gcm.key && g.iv == gcm.iv && g.fed == Flat(log) && Ciphertext(received) == g.fed + y
      requires |received| - HEADER <= binaryFileLen ==> WholeInputs(log)
      ensures Valid()
      ensures |gcm.fed| == FedAfter(received, |g.fed|)
      ensures args.Holds(Plain(crypto, received)[|g.fed|..|gcm.fed|])
    {
      var k := Whole(|y|);
      FedAfterBlocks(received, |g.fed|, |y|);
      OutputIsPlain(g, received, y, k);
      SplitAt(g.fed, y, k);
    }

    lemma AfterFinal(g: Context, log: seq<seq<Byte>>, y: seq<Byte>)
      requires Buffers() && HeaderKept() && Keyed() && binaryFileRead == binaryFileLen
      requires Fed(g, log, y) && cacheBufLen == 0
      requires g.fed == Flat(log) && Ciphertext(received) == g.fed + y
      requires |received| - HEADER <= binaryFileLen ==> Disciplined(updates)
      ensures Valid()
      ensures |gcm.fed| == FedAfter(received, |g.fed|)
      ensures g.Output(crypto, y) == Plain(crypto, received)[|g.fed|..|gcm.fed|]
    {
      hide HeaderOk, Plain, KeyOf, IvOf, AuthOf, Declared, Disciplined, WholeInputs, HeaderValid, Flat, Crypt;
      FinalFed(g, log, y);
      WholeSlice(y);
      OutputIsPlain(g, received, y, |y|);
      AppendNothing(gcm.fed, cacheBuf[..0]);
      NotBeyond();
    }

    lemma FinalFed(g: Context, log: seq<seq<Byte>>, y: seq<Byte>)
      requires HeaderKept() && Fed(g, log, y) && Ciphertext(received) == g.fed + y && binaryFileRead == binaryFileLen
      requires g.fed == Flat(log)
      ensures Complete(received) && gcm.key == g.key && gcm.iv == g.iv && gcm.fed == Ciphertext(received)
      ensures |gcm.fed| == |g.fed| + |y| == |received| - HEADER == FedAfter(received, |g.fed|)
      ensures gcm.fed == Flat(updates)
    {
      hide HeaderOk, AuthOf, Declared, Flat;
    }

    lemma NotBeyond()
      requires HeaderKept() && binaryFileRead == binaryFileLen
      ensures |received| - HEADER >= binaryFileLen
    {
      hide HeaderOk, AuthOf, Declared;
    }

    lemma WholeSlice(y: seq<Byte>)
      ensures y[..|y|] == y
    {
    }

    /** A call that has read its whole chunk without getting past the header. */
    ghost predicate Pending(err: EspErr, stream: seq<Byte>)
      reads this
    {
      err == NotFinished && received == stream && |stream| < HEADER
    }

    lemma AllRead(data: seq<Byte>, stream: seq<Byte>)
      requires Reading(data, |data|, stream) && !dead
      ensures received == stream
    {
      assert received + data[|data|..] == received;
    }

    /** The first two cases, those that can fail. */
    method ReadPreamble(data: seq<Byte>, ghost stream: seq<Byte>) returns (next: nat, err: EspErr)
      requires Valid() && Reading(data, 0, stream)
      modifies this, cacheBuf
      ensures Valid() && Reading(data, next, stream) && (cacheBuf == old(cacheBuf) || fresh(cacheBuf))
      ensures old(dead) ==> dead && err in {EspFail, NotFinished}
      ensures !old(dead) ==> (dead <==> err == EspFail) && (dead ==> !HeaderOk(crypto, stream))
      ensures !dead ==> (err == EspOk && state !in {ReadMagic, ReadGcm}) ||
                         (Pending(err, stream) && state != DecodeState)
      ensures !dead && old(state) !in {ReadMagic, ReadGcm} ==> unchanged(`gcm)
      ensures !dead && old(state) in {ReadMagic, ReadGcm} ==> gcm.fed == old(gcm).fed == []
    {
      hide HeaderOk, KeyOf, IvOf, AuthOf, Declared, Reading;
      next := 0;
      err := EspOk;
      if state == ReadMagic {
        next, err := MagicField(data, next, stream);
        if err != EspOk {
          if !dead { AllRead(data, stream); }
          return;
        }
      }
      if state == ReadGcm {
        next, err := GcmField(data, next, stream);
        if err == NotFinished && !dead { AllRead(data, stream); }
      }
    }

    /** The remaining cases of the header. */
    method ReadFields(data: seq<Byte>, idx: nat, ghost stream: seq<Byte>) returns (next: nat, err: EspErr)
      requires Valid() && !dead && state !in {ReadMagic, ReadGcm} && Reading(data, idx, stream)
      modifies this, iv, authTag, cacheBuf
      ensures Valid() && !dead && Reading(data, next, stream) && cacheBuf == old(cacheBuf)
      ensures (err == EspOk && state == DecodeState) || (Pending(err, stream) && state != DecodeState)
      ensures |gcm.fed| == |old(gcm).fed|
    {
      hide HeaderOk, KeyOf, IvOf, AuthOf, Declared, Reading;
      next := idx;
      err := EspOk;
      if state == ReadIv {
        next, err := IvField(data, next, stream);
        if err != EspOk { AllRead(data, stream); return; }
      }
      if state == ReadBinSize {
        next, err := BinSizeField(data, next, stream);
        if err != EspOk { AllRead(data, stream); return; }
      }
      if state == ReadAuth {
        next, err := AuthField(data, next, stream);
        if err != EspOk { AllRead(data, stream); return; }
      }
      if state == ReadExtraHeader {
        next, err := ExtraField(data, next, stream);
        if err != EspOk { AllRead(data, stream); return; }
        EmptyAtHeader();
      }
    }

    lemma EmptyAtHeader()
      requires Valid() && !dead && state == DecodeState && |received| == HEADER
      ensures gcm.fed == []
    {
      assert |Ciphertext(received)| == 0;
    }

    method ReadHeader(data: seq<Byte>, ghost stream: seq<Byte>) returns (next: nat, err: EspErr)
      requires Valid() && Reading(data, 0, stream)
      modifies this, iv, authTag, cacheBuf
      ensures Valid() && Reading(data, next, stream) && (cacheBuf == old(cacheBuf) || fresh(cacheBuf))
      ensures old(dead) ==> dead && err in {EspFail, NotFinished}
      ensures !old(dead) && dead ==> err == EspFail && !HeaderOk(crypto, stream)
      ensures !dead ==> (err == EspOk && state == DecodeState) || (Pending(err, stream) && state != DecodeState)
      ensures !dead ==> |gcm.fed| == |old(gcm).fed|
    {
      next, err := ReadPreamble(data, stream);
      if err == EspOk {
        next, err := ReadFields(data, next, stream);
      }
    }

    /** What a call on `data` in session `s` left behind: the session, the code, the output. */
    ghost predicate Answered(args: Args, s: Session, data: seq<Byte>, err: EspErr)
      reads this, args, args.dataOut
    {
      && Sound(crypto, s) && Abs() == Advance(crypto, s, data)
      && (if s.Live? then err == Verdict(crypto, s, data) else err in {EspFail, NotFinished})
      && (InDecode(Abs()) && err != NoMem ==> args.Holds(Emitted(crypto, s, data)))
    }

    /** A call that ended in the header, in success or failure. */
    lemma EndedInHeader(args: Args, s: Session, data: seq<Byte>, err: EspErr)
      requires Valid() && Sound(crypto, s)
      requires s.Dead? ==> dead && err in {EspFail, NotFinished}
      requires s.Live? && dead ==> err == EspFail && !HeaderOk(crypto, s.received + data)
      requires s.Live? && !dead ==> Pending(err, s.received + data) && state != DecodeState
      ensures Answered(args, s, data, err) && !InDecode(Abs())
    {
    }

    /** A call on the live session `s` that got as far as `process_bin`. */
    lemma EndedInBody(args: Args, s: Session, data: seq<Byte>, err: EspErr)
      requires Valid() && Sound(crypto, s) && s.Live? && !dead && state == DecodeState && received == s.received + data
      requires |received| >= HEADER && HeaderOk(crypto, received) && s.fed <= |received| - HEADER
      requires |gcm.fed| == FedAfter(received, s.fed)
      requires err == if !Complete(received) then NotFinished else if s.fed == |received| - HEADER then NoMem else EspOk
      requires err != NoMem ==> args.Holds(Plain(crypto, received)[s.fed..|gcm.fed|])
      ensures Answered(args, s, data, err) && InDecode(Abs())
    {
    }

    method DecryptChunk(args: Args, data: seq<Byte>) returns (err: EspErr)
      requires Valid() && args.dataOut !in {iv, authTag, cacheBuf}
      modifies this, iv, authTag, cacheBuf, args`dataOut, args`dataOutLen, args.dataOut
      ensures Valid() && (cacheBuf == old(cacheBuf) || fresh(cacheBuf))
      ensures args.dataOut == old(args.dataOut) || args.dataOut == null || fresh(args.dataOut)
      ensures args.dataOut !in {iv, authTag, cacheBuf}
      ensures Answered(args, old(Abs()), data, err)
      ensures !InDecode(Abs()) ==> unchanged(args)
      ensures err == NoMem ==> args.dataOut == null && args.dataOutLen == old(args.dataOutLen)
    {
      hide HeaderOk, KeyOf, IvOf, AuthOf, Declared, Plain, FedAfter, Complete, Answered, Advance, Verdict, Emitted;
      ValidSound();
      ghost var s := Abs();
      ghost var stream := if dead then data else received + data;
      assert data[0..] == data;
      var idx: nat;
      idx, err := ReadHeader(data, stream);
      if err != EspOk {
        EndedInHeader(args, s, data, err);
      } else {
        err := ProcessBin(args, data, idx, stream);
        EndedInBody(args, s, data, err);
      }
    }

    /** `esp_encrypted_img_decrypt_data`. Chunk lengths fit an `int`. */
    method DecryptData(args: Args) returns (err: EspErr)
      requires Valid() && args.dataOut !in {iv, authTag, cacheBuf}
      requires args.dataIn.Some? ==> |args.dataIn.value| < 0x8000_0000
      modifies this, iv, authTag, cacheBuf, args`dataOut, args`dataOutLen, args.dataOut
      ensures Valid() && (cacheBuf == old(cacheBuf) || fresh(cacheBuf))
      ensures args.dataOut == old(args.dataOut) || args.dataOut == null || fresh(args.dataOut)
      ensures args.dataOut !in {iv, authTag, cacheBuf}
      ensures args.dataIn.None? ==> err == InvalidArg && Abs() == old(Abs()) && unchanged(args)
      ensures args.dataIn.Some? ==> Answered(args, old(Abs()), args.dataIn.value, err)
      ensures args.dataIn.Some? && !InDecode(Abs()) ==> unchanged(args)
      ensures err == NoMem ==> args.dataOut == null && args.dataOutLen == old(args.dataOutLen)
    {
      if args.dataIn.None? { return InvalidArg; }
      err := DecryptChunk(args, args.dataIn.value);
    }

    /** `esp_encrypted_img_decrypt_end`. */
    method End() returns (err: EspErr)
      requires Valid()
      ensures Sound(crypto, Abs()) && err == DecoderSpec.End(crypto, Abs())
    {
      ValidSound();
      if state == DecodeState {
        if cacheBufLen != 0 || binaryFileRead != binaryFileLen { return EspFail; }
        assert cacheBuf[..0] == [] && Ciphertext(received) == gcm.fed;
        var gotAuth := gcm.Finish(crypto);
        if gotAuth != authTag[..] { return EspFail; }
      }
      return EspOk;
    }

    /** `esp_encrypted_img_is_complete_data_received`. */
    method IsCompleteDataReceived() returns (complete: bool)
      requires Valid()
      ensures !dead ==> (complete <==> LooksComplete(received))
      ensures dead ==> (complete <==> cacheBufLen == 0)
    {
      complete := binaryFileLen == binaryFileRead;
    }
  }

  /** The query compares two counters without looking at the state: past the header it is right;
      within the header it is true at each boundary between the fields before the length, and
      where the bytes of the current field happen to number the declared length. */
  predicate LooksComplete(r: seq<Byte>) {
    if |r| < AUTH_AT then |r| in {0, KEY_AT, IV_AT, SIZE_AT}
    else if |r| < RESERVED_AT then |r| - AUTH_AT == Declared(r)
    else if |r| < HEADER then |r| - RESERVED_AT == Declared(r)
    else Complete(r)
  }
}
