/**
 The two build-time backends of the updater as state machines over an update partition: the plain
 one writes what it receives, the pre-encrypted one puts the decoder in between. `Env` says which
 of the platform's calls succeed.
 */
module Backends {
  import opened Bytes
  import opened Gcm
  import opened Image
  import opened DecoderSpec
  import Tool
  import opened Commands

  /** esp_image_header_t, esp_image_segment_header_t and esp_app_desc_t together. */
  const APP_HEADER: nat := 24 + 8 + 256

  /** A switch of the boot partition: what had been received for it, and what it contained. */
  datatype Boot = Boot(stream: seq<Byte>, contents: seq<Byte>)

  /** `contents` is the partition since `esp_ota_begin`; `stream` the bytes accepted since then;
      `boots` all switches so far. `checked` is `image_header_was_checked`, `outLen` is
      `enc_arg.data_out_len`. */
  datatype Backend =
    | Plain(checked: bool, contents: seq<Byte>, stream: seq<Byte>, boots: seq<Boot>)
    | PreEnc(checked: bool, contents: seq<Byte>, stream: seq<Byte>, boots: seq<Boot>,
             handle: Option<Session>, outLen: nat)

  /** Which calls succeed in a step; and the fields of a text message where the code that extracts them
      is not defined. */
  datatype Env = Env(partitions: bool, begin: bool, decryptStart: bool, write: bool, end: bool, setBoot: bool,
                     fields: Pair)

  const FINE: Env := Env(true, true, true, true, true, true, Malformed)

  /** The plain backend's partition holds what was accepted. While a pre-encrypted session is open:
      before the first write its decoder is fresh; after it the decoder is past the header and the
      partition holds the decryption of what it was fed. */
  ghost predicate BackendOk(c: Crypto, b: Backend) {
    if b.Plain? then b.contents == b.stream
    else b.handle.Some? ==>
      var s := b.handle.value;
      && Sound(c, s) && s.Live? && s.received == b.stream
      && (!b.checked ==> s == FRESH && b.outLen == 0 && b.contents == [])
      && (b.checked ==> InDecode(s) && b.contents == Settled(c, s))
  }

  function Abort(b: Backend): Backend {
    match b
    case Plain(_, _, _, _) => b
    case PreEnc(_, _, _, _, _, _) => b.(handle := None, outLen := 0)
  }

  /** `start_ota_ws`. */
  function Start(b: Backend, env: Env): (r: (Backend, bool)) {
    if !env.partitions || !env.begin then (b, false)
    else
      match b
      case Plain(_, _, _, _) => (b.(checked := false, contents := [], stream := []), true)
      case PreEnc(_, _, _, _, _, _) =>
        var erased := b.(checked := false, contents := [], stream := []);
        if env.decryptStart then (erased.(handle := Some(FRESH), outLen := 0), true)
        else (Abort(erased.(handle := None)), false)
  }

  /** What a backend does with data ready for the partition: on the first write it must be more than
      the application's headers. */
  function Store(b: Backend, data: seq<Byte>, out: seq<Byte>, env: Env): (Backend, bool) {
    if !b.checked && |out| <= APP_HEADER then (b, false)
    else if !env.write then (b.(checked := true), false)
    else (b.(checked := true, contents := b.contents + out, stream := b.stream + data), true)
  }

  /** `write_ota_ws`. A frame without payload comes as a NULL pointer. */
  function Write(c: Crypto, b: Backend, data: seq<Byte>, env: Env): (r: (Backend, bool))
    requires BackendOk(c, b)
  {
    match b
    case Plain(_, _, _, _) => Store(b, data, data, env)
    case PreEnc(_, _, _, _, handle, _) =>
      if handle.None? || data == [] then (Abort(b), false)
      else
        var s := handle.value;
        var s' := Advance(c, s, data);
        if s'.Dead? then (Abort(b), false)
        else
          var out := Emitted(c, s, data);
          var (b', ok) := Store(b.(handle := Some(s'), outLen := |out|), data, out, env);
          (if ok then b' else Abort(b'), ok)
  }

  /** `end_ota_ws`. */
  function Finish(c: Crypto, b: Backend, env: Env): (r: (Backend, bool))
    requires BackendOk(c, b)
  {
    var refused := b.PreEnc? && (b.handle.None? || End(c, b.handle.value) != EspOk);
    if refused || !env.end || !env.setBoot then (if b.PreEnc? then Abort(b) else b, false)
    else (b.(boots := b.boots + [Boot(b.stream, b.contents)]), true)
  }

  // ---------- what every operation keeps ----------

  lemma StartOk(c: Crypto, b: Backend, env: Env)
    requires BackendOk(c, b)
    ensures BackendOk(c, Start(b, env).0)
  {
  }

  /** A call on a live session, as far as the backend is concerned. */
  lemma StepFacts(c: Crypto, s: Session, data: seq<Byte>)
    requires Sound(c, s) && s.Live?
    ensures var s' := Advance(c, s, data);
            && (s'.Live? ==> s'.received == s.received + data)
            && (InDecode(s) ==> InDecode(s'))
            && (s'.Live? && !InDecode(s') ==> Emitted(c, s, data) == [])
            && Settled(c, s') == Settled(c, s) + Emitted(c, s, data)
            && (s == FRESH ==> Settled(c, s') == Emitted(c, s, data))
  {
    hide Image.Plain, Declared, KeyOf;
    EmittedExtends(c, s, data);
    if InDecode(s) { HeaderGrows(c, s.received, data); }
    assert s == FRESH ==> Settled(c, s) == [] && [] + Emitted(c, s, data) == Emitted(c, s, data);
  }

  lemma WriteOk(c: Crypto, b: Backend, data: seq<Byte>, env: Env)
    requires BackendOk(c, b)
    ensures BackendOk(c, Write(c, b, data, env).0)
  {
    hide Advance, Emitted, Settled, Sound;
    if b.PreEnc? && b.handle.Some? { StepFacts(c, b.handle.value, data); }
  }

  lemma FinishOk(c: Crypto, b: Backend, env: Env)
    requires BackendOk(c, b)
    ensures BackendOk(c, Finish(c, b, env).0) && Finish(c, b, env).0.PreEnc? == b.PreEnc?
  {
  }

  // ---------- what decides success ----------

  /** The platform lets a session start. */
  predicate CanStart(b: Backend, env: Env) {
    env.partitions && env.begin && (b.PreEnc? ==> env.decryptStart)
  }

  /** A start erases the partition unless `esp_ota_begin` is not reached or fails; it succeeds, with a fresh
      decoder in the pre-encrypted build, if and only if all calls do. It never makes anything bootable. */
  lemma StartIff(b: Backend, env: Env)
    ensures var (d, ok) := Start(b, env);
            && (ok <==> CanStart(b, env))
            && d.boots == b.boots && d.PreEnc? == b.PreEnc?
            && (!env.partitions || !env.begin ==> d == b)
            && (env.partitions && env.begin ==> !d.checked && d.contents == d.stream == [])
            && (env.partitions && env.begin && d.PreEnc? ==>
                  d.outLen == 0 && d.handle == if ok then Some(Live([], 0)) else None)
  {
  }

  /** The part can be taken: there is a decoder and something for it, the header received with it is
      acceptable, and the first part yields more than the application's headers. */
  ghost predicate Fits(c: Crypto, b: Backend, data: seq<Byte>)
    requires BackendOk(c, b)
  {
    if b.Plain? then b.checked || |data| > 288
    else
      && b.handle.Some? && data != [] && HeaderOk(c, b.stream + data)
      && (b.checked || |Emitted(c, b.handle.value, data)| > 288)
  }

  /** A write succeeds if and only if the part fits and `esp_ota_write` succeeds; it then adds the part
      to what was received and its plaintext to the partition. A failing one ends the session of the
      pre-encrypted build. Neither makes anything bootable. */
  lemma WriteIff(c: Crypto, b: Backend, data: seq<Byte>, env: Env)
    requires BackendOk(c, b)
    ensures var (d, ok) := Write(c, b, data, env);
            && (ok <==> Fits(c, b, data) && env.write)
            && d.boots == b.boots && d.PreEnc? == b.PreEnc? && (d.checked <==> b.checked || Fits(c, b, data))
            && (ok ==>
                  && d.stream == b.stream + data
                  && d.contents == b.contents + (if b.Plain? then data else Emitted(c, b.handle.value, data))
                  && (d.PreEnc? ==> d.handle == Some(Advance(c, b.handle.value, data))))
            && (!ok ==>
                  && d.stream == b.stream && d.contents == b.contents
                  && (d.PreEnc? ==> d.handle == None && d.outLen == 0))
  {
    hide Advance, Emitted, Settled, Sound, InDecode, HeaderOk;
    if b.PreEnc? && b.handle.Some? { AliveIff(c, b.handle.value, data); }
  }

  /** Of that, what every write keeps. */
  lemma WriteKeeps(c: Crypto, b: Backend, data: seq<Byte>, env: Env)
    requires BackendOk(c, b)
    ensures var (d, ok) := Write(c, b, data, env);
            d.boots == b.boots && d.PreEnc? == b.PreEnc? && (ok ==> d.checked && d.stream == b.stream + data)
  {
    hide Write, BackendOk, Fits;
    WriteIff(c, b, data, env);
  }

  lemma AliveIff(c: Crypto, s: Session, data: seq<Byte>)
    requires Sound(c, s) && s.Live?
    ensures Advance(c, s, data).Live? <==> HeaderOk(c, s.received + data)
  {
  }

  /** The decoder accepts: the header of what was received is acceptable, the rest is as long as
      declared, as a 32-bit counter has it, and its tag is the header's. */
  ghost predicate Verified(c: Crypto, r: seq<Byte>) {
    |r| >= HEADER && HeaderOk(c, r) && Complete(r) && TagOf(c, r) == AuthOf(r)
  }

  /** The end of a session whose header check has passed makes the partition bootable if and only if the
      decoder accepts, `esp_ota_end` succeeds and the boot partition can be set. */
  lemma FinishIff(c: Crypto, b: Backend, env: Env)
    requires BackendOk(c, b) && b.checked
    ensures var (d, ok) := Finish(c, b, env);
            && (ok <==> (b.PreEnc? ==> b.handle.Some? && Verified(c, b.stream)) && env.end && env.setBoot)
            && d.boots == (if ok then b.boots + [Boot(b.stream, b.contents)] else b.boots)
            && d.stream == b.stream && d.contents == b.contents && d.PreEnc? == b.PreEnc?
            && (!ok && d.PreEnc? ==> d.handle == None && d.outLen == 0)
  {
  }

  // ---------- boot-switch safety ----------

  /** A pre-encrypted image may boot only if its header was acceptable, exactly the declared number
      of ciphertext bytes was received, the tag matched, and the partition holds the decryption. */
  ghost predicate Authentic(c: Crypto, boot: Boot) {
    var r := boot.stream;
    && |r| >= HEADER && HeaderOk(c, r)
    && Complete(r)
    && TagOf(c, r) == AuthOf(r)
    && boot.contents == Image.Plain(c, r)
  }

  /** Every image made bootable so far is authentic; with the plain backend it is, unchecked, what
      was accepted. */
  ghost predicate SafeBoots(c: Crypto, b: Backend) {
    forall i :: 0 <= i < |b.boots| ==>
      if b.PreEnc? then Authentic(c, b.boots[i]) else b.boots[i].contents == b.boots[i].stream
  }

  /** What the decoder's OK means once it is past the header. */
  lemma AcceptedIsAuthentic(c: Crypto, s: Session)
    requires Sound(c, s) && InDecode(s) && End(c, s) == EspOk
    ensures Authentic(c, Boot(s.received, Settled(c, s)))
  {
    assert Settled(c, s) == Image.Plain(c, s.received);
  }

  /** The header check can only have passed once the decoder is past the header, so the early OK of
      `decrypt_end` is out of reach. */
  lemma FinishSafe(c: Crypto, b: Backend, env: Env)
    requires BackendOk(c, b) && SafeBoots(c, b) && (b.PreEnc? ==> b.checked)
    ensures SafeBoots(c, Finish(c, b, env).0)
  {
    hide Authentic, Settled, Sound, End;
    var (b', ok) := Finish(c, b, env);
    if ok && b.PreEnc? { AcceptedIsAuthentic(c, b.handle.value); }
  }

  /** In the tool's terms: what boots is exactly what `decrypt` makes of the bytes received, if RSA
      recovers a key of full size. A shorter key the device fills up with zeros; the tool takes it as
      it is, and refuses it unless AES has keys of that size. */
  lemma AuthenticIsDecrypted(c: Crypto, boot: Boot)
    requires Authentic(c, boot) && |boot.stream| < HEADER + WORD
    ensures |boot.stream| == HEADER + Declared(boot.stream)
    ensures |Tool.RawKey(c, boot.stream)| == GCM_KEY_SIZE ==> Tool.Decrypted(c, boot.stream) == Some(boot.contents)
    ensures |Tool.RawKey(c, boot.stream)| !in {16, 24, 32} ==> Tool.Decrypted(c, boot.stream) == None
    ensures var r := boot.stream; var key, ct := Tool.RawKey(c, r), Ciphertext(r);
            |key| in {16, 24} ==>
              Tool.Decrypted(c, r) == if Tag(c, key, IvOf(r), ct) == AuthOf(r) then Some(Crypt(c, key, IvOf(r), ct))
                                      else None
  {
    hide Tag, Crypt, Tool.Decrypted;
    NoWrap(|boot.stream| - HEADER);
    if |Tool.RawKey(c, boot.stream)| == GCM_KEY_SIZE { Tool.FullKey(c, boot.stream); }
    Tool.DecryptedFields(c, boot.stream);
  }

  // ---------- progress ----------

  /** A file the backend can take to the end. */
  ghost predicate Acceptable(c: Crypto, b: Backend, file: seq<Byte>) {
    b.PreEnc? ==> WellFormed(c, file) && TagOf(c, file) == AuthOf(file)
  }

  /** What the file puts into the partition. */
  function Payload(c: Crypto, b: Backend, file: seq<Byte>): seq<Byte>
    requires b.PreEnc? ==> |file| >= HEADER && HeaderOk(c, file)
  {
    if b.PreEnc? then Image.Plain(c, file) else file
  }

  /** The first `n` bytes yield more than the application's headers. */
  predicate CoversHeader(b: Backend, file: seq<Byte>, n: nat)
    requires n <= |file|
  {
    if b.Plain? then n > APP_HEADER
    else n >= HEADER && (if n == |file| then n - HEADER else n - HEADER - (n - HEADER) % BLOCK) > APP_HEADER
  }

  predicate Consumed(file: seq<Byte>, s: Session) {
    s.Live? && s.received == file && |file| == HEADER + s.fed
  }

  /** The backend has taken the first `k` bytes of the file. */
  ghost predicate Accepted(c: Crypto, b: Backend, file: seq<Byte>, k: nat) {
    && k <= |file| && b.stream == file[..k] && b.checked == (k > 0)
    && match b
       case Plain(_, contents, _, _) => contents == file[..k]
       case PreEnc(_, _, _, _, handle, _) =>
         && handle.Some? && BackendOk(c, b)
         && (if k == |file| then Consumed(file, handle.value) else Partway(file, handle.value))
  }

  lemma StartAccepts(c: Crypto, b: Backend, file: seq<Byte>)
    requires Acceptable(c, b, file) && file != []
    ensures var (b', ok) := Start(b, FINE); ok && Accepted(c, b', file, 0) && b'.boots == b.boots
  {
  }

  lemma WriteAccepts(c: Crypto, b: Backend, file: seq<Byte>, k: nat, k': nat)
    requires Acceptable(c, b, file) && Accepted(c, b, file, k) && k < k' <= |file| && BackendOk(c, b)
    requires k == 0 ==> CoversHeader(b, file, k')
    ensures var (b', ok) := Write(c, b, file[k..k'], FINE);
            ok && Accepted(c, b', file, k') && b'.boots == b.boots && b'.PreEnc? == b.PreEnc?
  {
    hide Advance, Emitted, Settled, Sound, WellFormed, Partway, Consumed;
    JoinSlices(file, k, k');
    if b.PreEnc? {
      TakesNext(c, file, b.handle.value, k, k');
      WriteOk(c, b, file[k..k'], FINE);
      if k == 0 { FirstOutput(c, b, file, k'); }
    }
  }

  lemma JoinSlices(file: seq<Byte>, k: nat, k': nat)
    requires k <= k' <= |file|
    ensures file[..k] + file[k..k'] == file[..k']
  {
  }

  /** The session's side of it. */
  lemma TakesNext(c: Crypto, file: seq<Byte>, s: Session, k: nat, k': nat)
    requires WellFormed(c, file) && Sound(c, s) && Partway(file, s) && k < k' <= |file| && s.received == file[..k]
    ensures var s' := Advance(c, s, file[k..k']);
            s'.Live? && if k' == |file| then Consumed(file, s') else Partway(file, s')
  {
    hide Advance, Sound;
    JoinSlices(file, k, k');
    PartwayAdvance(c, file, s, file[k..k']);
    assert file[..|file|] == file;
  }

  lemma FirstOutput(c: Crypto, b: Backend, file: seq<Byte>, n: nat)
    requires WellFormed(c, file) && b.PreEnc? && 0 < n <= |file| && CoversHeader(b, file, n)
    requires if n == |file| then Consumed(file, Advance(c, FRESH, file[0..n]))
             else Partway(file, Advance(c, FRESH, file[0..n]))
    ensures |Emitted(c, FRESH, file[0..n])| > APP_HEADER
  {
    var s' := Advance(c, FRESH, file[0..n]);
    if n < |file| { HeldBackCount(file, s'); }
  }

  /** The first write succeeds exactly when it covers the application's headers. */
  lemma FirstWriteIff(c: Crypto, b: Backend, file: seq<Byte>, n: nat)
    requires Acceptable(c, b, file) && Accepted(c, b, file, 0) && 0 < n <= |file| && BackendOk(c, b)
    ensures Write(c, b, file[0..n], FINE).1 <==> CoversHeader(b, file, n)
  {
    hide WellFormed, Advance, Emitted;
    if CoversHeader(b, file, n) {
      WriteAccepts(c, b, file, 0, n);
    } else if b.PreEnc? {
      TooLittleOutput(c, b, file, n);
    }
  }

  lemma TooLittleOutput(c: Crypto, b: Backend, file: seq<Byte>, n: nat)
    requires WellFormed(c, file) && b.PreEnc? && 0 < n <= |file| && !CoversHeader(b, file, n)
    ensures Advance(c, FRESH, file[0..n]).Live? && |Emitted(c, FRESH, file[0..n])| <= APP_HEADER
  {
    hide Image.Plain, Declared;
    PartwayAdvance(c, file, FRESH, file[0..n]);
    assert [] + file[0..n] == file[..n];
    if HEADER <= n < |file| { HeldBackCount(file, Advance(c, FRESH, file[0..n])); }
  }

  /** With a chunk size of whole blocks, as the server announces, that is a matter of size alone. */
  lemma CoversIff(b: Backend, file: seq<Byte>, chunk: nat)
    requires chunk % BLOCK == 0
    ensures var n := if chunk < |file| then chunk else |file|;
            CoversHeader(b, file, n) <==> n > APP_HEADER + if b.PreEnc? then HEADER else 0
  {
  }

  lemma FinishAccepts(c: Crypto, b: Backend, file: seq<Byte>)
    requires Acceptable(c, b, file) && Accepted(c, b, file, |file|) && BackendOk(c, b) && file != []
    ensures var (b', ok) := Finish(c, b, FINE);
            ok && b'.boots == b.boots + [Boot(file, Payload(c, b, file))] && b'.contents == Payload(c, b, file)
  {
    assert file[..|file|] == file;
    if b.PreEnc? {
      EndExact(c, b.handle.value);
      SettledExact(c, b.handle.value);
    }
  }
}
