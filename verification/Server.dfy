/**
 The socket handler of the updater as a step function over its three counters and the backend.
 */
module Server {
  import opened Bytes
  import opened Gcm
  import opened DecoderSpec
  import opened Backends
  import opened Commands
  import Image
  import Json
  import Tool

  const OTA_RESTART_ESP: string := "otaRestartEsp"
  const OTA_SIZE_START: string := "otaSize"
  const OTA_SET_CHUNK_SIZE: string := "otaSetChunkSize"
  const OTA_GET_CHUNK: string := "otaGetChunk"
  const OTA_END: string := "otaEnd"
  const OTA_ERROR: string := "otaError"
  const OTA_CANCEL: string := "otaCancel"
  const OTA_PROCESS_ROLLBACK: string := "otaProcessRollback"

  datatype ReplyValue = Number(n: int) | Words(text: string)

  /** A message to the client, `{"name": name, "value": value}`. */
  datatype Reply = Reply(name: string, value: ReplyValue)

  /** A frame as received; `Lost` is a failure to receive it, or to find memory for it. */
  datatype Frame = Text(payload: string) | Binary(data: seq<Byte>) | Other | Lost(message: string)

  datatype ServerState = ServerState(size: int, start: int, started: bool, backend: Backend)

  /** `CONFIG_OTA_CHUNK_SIZE & ~0xf`: the next multiple of 16 below. */
  function ChunkSize(config: nat): (size: nat)
    ensures size <= config < size + 16 && size % 16 == 0
  {
    config - config % 16
  }

  function U32(n: int): nat {
    n % WORD
  }

  function I32(n: int): int {
    var u := n % WORD;
    if u > INT_MAX then u - WORD else u
  }

  /** `ota_error`. */
  function OtaError(s: ServerState, code: string, msg: string): (ServerState, seq<Reply>) {
    (ServerState(0, 0, false, Abort(s.backend)), [Reply(code, Words(msg))])
  }

  /** `esp_restart`: the static variables are zero again; partition and boot history stay. */
  function Restarted(s: ServerState): ServerState {
    var b := s.backend;
    ServerState(0, 0, false, if b.Plain? then b.(checked := false)
      else b.(checked := false, handle := None, outLen := 0))
  }

  function HandleStart(s: ServerState, value: string, chunk: nat, env: Env): (ServerState, seq<Reply>) {
    var size := Atoi(value);
    if size == 0 then OtaError(s, OTA_ERROR, "Error ota size = 0")
    else
      var (b, ok) := Start(s.backend, env);
      if !ok then OtaError(s.(backend := b), OTA_ERROR, "Error start ota")
      else (ServerState(size, 0, true, b),
            [Reply(OTA_SET_CHUNK_SIZE, Number(chunk)), Reply(OTA_GET_CHUNK, Number(0))])
  }

  function HandleCommand(s: ServerState, name: string, value: string, chunk: nat, env: Env): (ServerState, seq<Reply>) {
    if name == OTA_SIZE_START then HandleStart(s, value, chunk, env)
    else if name == OTA_CANCEL then OtaError(s, OTA_CANCEL, "Cancel command")
    else if name == OTA_ERROR then OtaError(s, OTA_ERROR, "Error command")
    else if name == OTA_PROCESS_ROLLBACK then (s, [])
    else if name == OTA_RESTART_ESP then (Restarted(s), [])
    else (s, [])
  }

  /** The comparison is between unsigned words, as `ws_pkt.len` is one. */
  predicate IsLast(s: ServerState, n: nat) {
    U32(s.start + n) >= U32(s.size)
  }

  function HandleBinary(c: Crypto, s: ServerState, data: seq<Byte>, env: Env): (ServerState, seq<Reply>)
    requires BackendOk(c, s.backend)
  {
    var (b, ok) := Write(c, s.backend, data, env);
    WriteOk(c, s.backend, data, env);
    if !ok then OtaError(s.(backend := b), OTA_ERROR, "Error write ota")
    else if !IsLast(s, |data|) then
      var next := I32(s.start + |data|);
      (s.(start := next, backend := b), [Reply(OTA_GET_CHUNK, Number(next))])
    else
      var (e, ended) := Finish(c, b, env);
      if !ended then OtaError(s.(backend := e), OTA_ERROR, "Error end ota")
      else (ServerState(0, 0, false, e), [Reply(OTA_END, Words("OK"))])
  }

  /** Text frames are not empty, and within what `json_to_str_parm` defines. */
  predicate FrameOk(f: Frame) {
    f.Text? ==> f.payload != "" && Defined(CStr(f.payload))
  }

  /** The fields of a text message; any at all where the code is not defined. */
  function Fields(payload: string, env: Env): Pair {
    if FrameOk(Text(payload)) then FieldsOf(CStr(payload)) else env.fields
  }

  /** `ota_ws_handler`. */
  function Handle(c: Crypto, chunk: nat, s: ServerState, f: Frame, env: Env): (r: (ServerState, seq<Reply>))
    requires BackendOk(c, s.backend)
  {
    match f
    case Lost(message) => OtaError(s, OTA_ERROR, message)
    case Text(payload) => (
      match Fields(payload, env)
      case Malformed => OtaError(s, OTA_ERROR, "Error json str")
      case Pair(name, value) => HandleCommand(s, name, value, chunk, env)
    )
    case Binary(data) => if s.started then HandleBinary(c, s, data, env) else (s, [])
    case Other => (s, [])
  }

  // ---------- boot-switch safety ----------

  ghost predicate Safe(c: Crypto, s: ServerState) {
    BackendOk(c, s.backend) && SafeBoots(c, s.backend)
  }

  lemma ResetSafe(c: Crypto, s: ServerState, code: string, msg: string)
    requires BackendOk(c, s.backend)
    ensures var b, r := OtaError(s, code, msg).0.backend, Restarted(s).backend;
            && BackendOk(c, b) && b.boots == s.backend.boots && b.PreEnc? == s.backend.PreEnc?
            && BackendOk(c, r) && r.boots == s.backend.boots && r.PreEnc? == s.backend.PreEnc?
  {
  }

  lemma BinaryOk(c: Crypto, s: ServerState, data: seq<Byte>, env: Env)
    requires BackendOk(c, s.backend)
    ensures var d := HandleBinary(c, s, data, env).0.backend; BackendOk(c, d) && d.PreEnc? == s.backend.PreEnc?
  {
    hide Write, Finish, IsLast, BackendOk, OtaError;
    var (b, ok) := Write(c, s.backend, data, env);
    WriteOk(c, s.backend, data, env);
    WriteKeeps(c, s.backend, data, env);
    ResetSafe(c, s.(backend := b), OTA_ERROR, "Error write ota");
    FinishOk(c, b, env);
    ResetSafe(c, s.(backend := Finish(c, b, env).0), OTA_ERROR, "Error end ota");
  }

  lemma CommandOk(c: Crypto, s: ServerState, name: string, value: string, chunk: nat, env: Env)
    requires BackendOk(c, s.backend)
    ensures var d := HandleCommand(s, name, value, chunk, env).0.backend;
            BackendOk(c, d) && d.PreEnc? == s.backend.PreEnc? && d.boots == s.backend.boots
  {
    hide Start, Atoi, Abort, OtaError, Restarted, BackendOk;
    ResetSafe(c, s, OTA_ERROR, "Error ota size = 0");
    ResetSafe(c, s, OTA_CANCEL, "Cancel command");
    ResetSafe(c, s, OTA_ERROR, "Error command");
    StartOk(c, s.backend, env);
    StartIff(s.backend, env);
    ResetSafe(c, s.(backend := Start(s.backend, env).0), OTA_ERROR, "Error start ota");
  }

  /** No frame harms the backend's own invariant, or changes the build. */
  lemma StepOk(c: Crypto, chunk: nat, s: ServerState, f: Frame, env: Env)
    requires BackendOk(c, s.backend)
    ensures var d := Handle(c, chunk, s, f, env).0.backend; BackendOk(c, d) && d.PreEnc? == s.backend.PreEnc?
  {
    hide Fields, HandleBinary, HandleCommand, BackendOk, OtaError;
    match f
    case Binary(data) => BinaryOk(c, s, data, env);
    case Text(payload) =>
      var fields := Fields(payload, env);
      ResetSafe(c, s, OTA_ERROR, "Error json str");
      if fields.Pair? { CommandOk(c, s, fields.name, fields.value, chunk, env); }
    case Lost(message) => ResetSafe(c, s, OTA_ERROR, message);
    case _ =>
  }

  lemma BinarySafe(c: Crypto, s: ServerState, data: seq<Byte>, env: Env)
    requires Safe(c, s)
    ensures Safe(c, HandleBinary(c, s, data, env).0)
  {
    hide Authentic, Write, IsLast;
    var (b, ok) := Write(c, s.backend, data, env);
    WriteOk(c, s.backend, data, env);
    WriteKeeps(c, s.backend, data, env);
    if ok {
      FinishOk(c, b, env);
      FinishSafe(c, b, env);
    }
  }

  lemma SafeKept(c: Crypto, b: Backend, d: Backend)
    requires SafeBoots(c, b) && d.boots == b.boots && d.PreEnc? == b.PreEnc?
    ensures SafeBoots(c, d)
  {
  }

  /** Every frame, of any kind and content, keeps the update safe. */
  lemma StepSafe(c: Crypto, chunk: nat, s: ServerState, f: Frame, env: Env)
    requires Safe(c, s)
    ensures Safe(c, Handle(c, chunk, s, f, env).0)
  {
    hide Authentic, Fields, HandleBinary, HandleCommand;
    match f
    case Binary(data) => BinarySafe(c, s, data, env);
    case Text(payload) =>
      var fields := Fields(payload, env);
      if fields.Pair? {
        CommandOk(c, s, fields.name, fields.value, chunk, env);
        SafeKept(c, s.backend, HandleCommand(s, fields.name, fields.value, chunk, env).0.backend);
      }
    case _ =>
  }

  datatype Event = Event(frame: Frame, env: Env)

  /** The state after any sequence of frames. */
  ghost function After(c: Crypto, chunk: nat, s: ServerState, es: seq<Event>): (t: ServerState)
    requires Safe(c, s)
    ensures Safe(c, t)
    decreases |es|
  {
    if es == [] then s
    else
      StepSafe(c, chunk, s, es[0].frame, es[0].env);
      After(c, chunk, Handle(c, chunk, s, es[0].frame, es[0].env).0, es[1..])
  }

  /** An upload as the frames tell it: the size last announced, and the bytes sent since; and how the
      platform's calls went, those for the announcement, and the writes since. */
  datatype Upload = Upload(size: int, sent: seq<Byte>, begun: Env, written: bool) {
    /** Enough has been sent, as the handler's unsigned words compare it. */
    predicate Complete() {
      |sent| % WORD >= U32(size)
    }

    function Next(f: Frame, env: Env): Upload {
      match f
      case Binary(data) => Upload(size, sent + data, begun, written && env.write)
      case Text(payload) => (
        match Fields(payload, env)
        case Pair(name, value) => if name == OTA_SIZE_START then Upload(Atoi(value), [], env, true) else this
        case Malformed => this
      )
      case _ => this
    }
  }

  /** What the client has uploaded, told from the frames and not from the handler's state. */
  ghost function Uploaded(up: Upload, es: seq<Event>): Upload
    decreases |es|
  {
    if es == [] then up else Uploaded(up.Next(es[0].frame, es[0].env), es[1..])
  }

  const NOTHING: Upload := Upload(0, [], FINE, true)

  /** A session was let start, has accepted and written exactly what was uploaded, and that is not all yet. */
  predicate Tracks(s: ServerState, up: Upload) {
    s.started ==>
      && s.backend.stream == up.sent && s.size == up.size
      && U32(s.start) == |up.sent| % WORD && !up.Complete()
      && CanStart(s.backend, up.begun) && up.written
  }

  /** Either no image was made bootable, or one, of a complete upload. */
  predicate AddsAtMost(s: ServerState, t: ServerState, up: Upload) {
    var before, after := s.backend.boots, t.backend.boots;
    after == before || (|after| == |before| + 1 && after[..|before|] == before
                        && after[|before|].stream == up.sent && up.Complete())
  }

  /** The frame makes an image bootable: in a session, the binary frame that completes the upload, if it
      fits, the decoder accepts the whole, and the platform's three calls succeed. */
  ghost predicate Boots(c: Crypto, s: ServerState, f: Frame, env: Env, up: Upload)
    requires BackendOk(c, s.backend)
  {
    && s.started && f.Binary? && up.Next(f, env).Complete()
    && Fits(c, s.backend, f.data) && (s.backend.PreEnc? ==> Verified(c, up.sent + f.data))
    && env.write && env.end && env.setBoot
  }

  /** One step: an image is made bootable if and only if all of that holds, and it is the upload. */
  lemma BootIff(c: Crypto, chunk: nat, s: ServerState, f: Frame, env: Env, up: Upload)
    requires Safe(c, s) && Tracks(s, up)
    ensures var before, after := s.backend.boots, Handle(c, chunk, s, f, env).0.backend.boots;
            if Boots(c, s, f, env, up) then
              |after| == |before| + 1 && after[..|before|] == before && after[|before|].stream == up.sent + f.data
            else after == before
  {
    hide Fields, Atoi, HandleCommand, HandleBinary, BackendOk, SafeBoots, Upload.Complete, Tracks;
    match f
    case Text(payload) =>
      var fields := Fields(payload, env);
      if fields.Pair? { CommandOk(c, s, fields.name, fields.value, chunk, env); }
    case Binary(data) => if s.started { BinaryBootsIff(c, s, data, env, up); }
    case _ =>
  }

  lemma BinaryBootsIff(c: Crypto, s: ServerState, data: seq<Byte>, env: Env, up: Upload)
    requires BackendOk(c, s.backend) && s.started && Tracks(s, up)
    ensures HandleBinary(c, s, data, env).0.backend.boots ==
              if Boots(c, s, Binary(data), env, up)
              then s.backend.boots + [Boot(up.sent + data, Write(c, s.backend, data, env).0.contents)]
              else s.backend.boots
  {
    hide Write, Finish, BackendOk, U32, I32, Fits, Verified, CanStart;
    WriteOk(c, s.backend, data, env);
    WriteIff(c, s.backend, data, env);
    WordAdd(s.start, |up.sent|, |data|);
    var (b, ok) := Write(c, s.backend, data, env);
    if ok { FinishIff(c, b, env); }
  }

  /** The size gate: a session goes on exactly as long as its upload is not complete, and only the
      frame that completes it can make an image bootable. */
  lemma StepTracks(c: Crypto, chunk: nat, s: ServerState, f: Frame, env: Env, up: Upload)
    requires Safe(c, s) && Tracks(s, up)
    ensures var t := Handle(c, chunk, s, f, env).0;
            && Tracks(t, up.Next(f, env)) && AddsAtMost(s, t, up.Next(f, env))
            && (t.backend.boots != s.backend.boots ==> f.Binary? && s.started && env.write && env.end && env.setBoot)
  {
    hide Fields, Atoi, HandleCommand, HandleBinary, BackendOk, SafeBoots, Upload.Complete, Fits, Verified;
    BootIff(c, chunk, s, f, env, up);
    match f
    case Text(payload) =>
      var fields := Fields(payload, env);
      if fields.Pair? { CommandTracks(s, fields.name, fields.value, chunk, env, up); }
    case Binary(data) => if s.started { BinaryTracks(c, s, data, env, up); }
    case _ =>
  }

  lemma BinaryTracks(c: Crypto, s: ServerState, data: seq<Byte>, env: Env, up: Upload)
    requires BackendOk(c, s.backend) && s.started && Tracks(s, up)
    ensures var t, next := HandleBinary(c, s, data, env).0, up.Next(Binary(data), env);
            Tracks(t, next) && AddsAtMost(s, t, next)
  {
    hide Write, BackendOk, U32, I32, Fits;
    WriteOk(c, s.backend, data, env);
    WriteIff(c, s.backend, data, env);
    WordAdd(s.start, |up.sent|, |data|);
  }

  /** `ota_start_chunk` counts modulo 2^32, whatever its sign. */
  lemma WordAdd(start: int, n: nat, m: nat)
    requires U32(start) == n % WORD
    ensures U32(start + m) == (n + m) % WORD && U32(I32(start + m)) == (n + m) % WORD
  {
    SameRemainder(start, n, m);
    var u := (start + m) % WORD;
    assert (u - WORD) % WORD == u;
  }

  lemma SameRemainder(a: int, b: int, m: int)
    requires a % WORD == b % WORD
    ensures (a + m) % WORD == (b + m) % WORD
  {
    var p, q := a / WORD, b / WORD;
    assert a + m == (b + m) + (p - q) * WORD;
  }

  lemma CommandTracks(s: ServerState, name: string, value: string, chunk: nat, env: Env, up: Upload)
    requires Tracks(s, up)
    ensures var t := HandleCommand(s, name, value, chunk, env).0;
            && Tracks(t, if name == OTA_SIZE_START then Upload(Atoi(value), [], env, true) else up)
            && t.backend.boots == s.backend.boots
  {
    hide Start, Atoi, U32;
    StartIff(s.backend, env);
    SizeIsNotZero(Atoi(value));
  }

  lemma SizeIsNotZero(n: int)
    requires -INT_MAX - 1 <= n <= INT_MAX
    ensures n != 0 ==> U32(n) > 0
    ensures U32(0) == 0
  {
    if n < 0 { assert n % WORD == n + WORD; }
  }

  /** Over every run, each image made bootable since is what had been uploaded when some binary frame
      completed the upload, not before; with sizes and frames below 2^31 the bytes before that frame
      were fewer than announced. */
  lemma {:induction false} BootedIsUploaded(c: Crypto, chunk: nat, s: ServerState, es: seq<Event>, up: Upload, i: nat)
    returns (k: nat)
    requires Safe(c, s) && Tracks(s, up)
    requires |s.backend.boots| <= i < |After(c, chunk, s, es).backend.boots|
    ensures 0 < k <= |es| && es[k - 1].frame.Binary?
    ensures var before, whole := Uploaded(up, es[..k - 1]), Uploaded(up, es[..k]);
            && After(c, chunk, s, es).backend.boots[i].stream == whole.sent
            && whole.size == before.size && whole.sent == before.sent + es[k - 1].frame.data
            && !before.Complete() && whole.Complete()
            && CanStart(s.backend, whole.begun) && whole.written && es[k - 1].env.end && es[k - 1].env.setBoot
            && (Counting(s) && Positive(es) ==> |before.sent| < before.size)
    decreases |es|
  {
    hide Handle, BackendOk, SafeBoots, Upload.Complete, Upload.Next, AnnouncesNegative;
    var f, rest := es[0].frame, es[1..];
    StepSafe(c, chunk, s, f, es[0].env);
    StepTracks(c, chunk, s, f, es[0].env, up);
    StepOk(c, chunk, s, f, es[0].env);
    var t := Handle(c, chunk, s, f, es[0].env).0;
    if i < |t.backend.boots| {
      k := 1;
      BootsStay(c, chunk, t, rest, up.Next(f, es[0].env));
      assert es[..1][1..] == [] && es[..0] == [];
      assert Uploaded(up, es[..1]) == Uploaded(up.Next(f, es[0].env), []);
      NextBinary(up, f, es[0].env);
    } else {
      if Counting(s) && Positive(es) { StepCounts(c, chunk, s, f, es[0].env); }
      var j := BootedIsUploaded(c, chunk, t, rest, up.Next(f, es[0].env), i);
      k := j + 1;
      assert es[..k][1..] == rest[..j] && es[..k - 1][1..] == rest[..j - 1];
    }
  }

  lemma NextBinary(up: Upload, f: Frame, env: Env)
    requires f.Binary?
    ensures up.Next(f, env) == Upload(up.size, up.sent + f.data, up.begun, up.written && env.write)
  {
  }

  /** What was made bootable is not forgotten. */
  lemma {:induction false} BootsStay(c: Crypto, chunk: nat, s: ServerState, es: seq<Event>, up: Upload)
    requires Safe(c, s) && Tracks(s, up)
    ensures s.backend.boots <= After(c, chunk, s, es).backend.boots
    decreases |es|
  {
    hide Handle, BackendOk, SafeBoots, Tracks, Boots, Upload.Next;
    if es != [] {
      StepSafe(c, chunk, s, es[0].frame, es[0].env);
      StepTracks(c, chunk, s, es[0].frame, es[0].env, up);
      BootsStay(c, chunk, Handle(c, chunk, s, es[0].frame, es[0].env).0, es[1..], up.Next(es[0].frame, es[0].env));
    }
  }

  /** Power-on of a build with either backend. */
  function PowerOn(preEnc: bool): ServerState {
    ServerState(0, 0, false, if preEnc then PreEnc(false, [], [], [], None, 0) else Plain(false, [], [], []))
  }

  predicate IsAnnouncement(e: Event) {
    e.frame.Text? && var fields := Fields(e.frame.payload, e.env); fields.Pair? && fields.name == OTA_SIZE_START
  }

  function AnnouncedSize(e: Event): int
    requires IsAnnouncement(e)
  {
    Atoi(Fields(e.frame.payload, e.env).value)
  }

  /** The data of all binary frames. */
  function Sent(es: seq<Event>): seq<Byte> {
    if es == [] then [] else (if es[0].frame.Binary? then es[0].frame.data else []) + Sent(es[1..])
  }

  /** All binary frames came when `esp_ota_write` succeeds. */
  predicate AllWritten(es: seq<Event>) {
    forall i :: 0 <= i < |es| && es[i].frame.Binary? ==> es[i].env.write
  }

  /** There was no announcement, or the one at `j` was the last. */
  predicate LastAnnounced(es: seq<Event>, j: int) {
    -1 <= j < |es| && (j >= 0 ==> IsAnnouncement(es[j])) && forall i :: j < i < |es| ==> !IsAnnouncement(es[i])
  }

  function UploadFrom(up: Upload, e: Event): Upload {
    if IsAnnouncement(e) then Upload(AnnouncedSize(e), [], e.env, true) else up
  }

  /** An upload is what was sent since the last announcement. */
  lemma {:induction false} UploadedSince(up: Upload, es: seq<Event>) returns (j: int)
    ensures LastAnnounced(es, j)
    ensures var base, since := if j < 0 then up else UploadFrom(up, es[j]), es[j + 1..];
            Uploaded(up, es) ==
              Upload(base.size, base.sent + Sent(since), base.begun, base.written && AllWritten(since))
    decreases |es|
  {
    hide Fields, Atoi;
    if es == [] {
      j := -1;
      AppendNothing(up.sent, Sent([]));
    } else {
      var next := up.Next(es[0].frame, es[0].env);
      var i := UploadedSince(next, es[1..]);
      assert forall k :: 0 <= k < |es| - 1 ==> es[1..][k] == es[k + 1];
      if i >= 0 || IsAnnouncement(es[0]) {
        j := i + 1;
        assert es[1..][i + 1..] == es[j + 1..];
      } else {
        j := -1;
        assert es[0..] == es && es[1..][0..] == es[1..];
        Assoc(up.sent, if es[0].frame.Binary? then es[0].frame.data else [], Sent(es[1..]));
      }
    }
  }

  /** Boot-switch safety: over every run from power-on, whatever frames arrive and whichever platform
      calls fail, an image is made bootable only by a binary frame that completes an upload (the frames
      from `j`, the announcement of its size, to `k`), and only if the partition could be opened at the
      announcement, every binary frame since was written, and at the last the image was valid and the
      boot partition could be set. Its stream is that upload: never shorter than announced, and with
      sizes and frames below 2^31 of exactly that length if and only if the last frame was exactly what
      was missing. With the plain backend the partition holds it. The pre-encrypted build moreover makes
      it bootable only if it is authentic, and then the partition holds exactly its decryption, which is
      what the tool's `decrypt` yields when RSA recovers a key of full size. */
  lemma BootSafety(c: Crypto, preEnc: bool, chunk: nat, es: seq<Event>, i: nat) returns (j: nat, k: nat)
    requires i < |After(c, chunk, PowerOn(preEnc), es).backend.boots|
    ensures j < k < |es| && es[k].frame.Binary? && LastAnnounced(es[..k], j)
    ensures var since := es[j + 1..k + 1];
            && es[j].env.partitions && es[j].env.begin && (preEnc ==> es[j].env.decryptStart)
            && AllWritten(since) && es[k].env.end && es[k].env.setBoot
            && After(c, chunk, PowerOn(preEnc), es).backend.boots[i].stream == Sent(since)
    ensures var size, before, whole := AnnouncedSize(es[j]), |Sent(es[j + 1..k])|, |Sent(es[j + 1..k + 1])|;
            && before % WORD < size % WORD <= whole % WORD && whole == before + |es[k].frame.data|
            && (Positive(es) ==> before < size && (whole == size <==> |es[k].frame.data| == size - before))
    ensures var boot := After(c, chunk, PowerOn(preEnc), es).backend.boots[i];
            && (!preEnc ==> boot.contents == boot.stream)
            && (preEnc ==>
                  && Authentic(c, boot)
                  && (|boot.stream| < Image.HEADER + WORD && |Tool.RawKey(c, boot.stream)| == Image.GCM_KEY_SIZE ==>
                        Tool.Decrypted(c, boot.stream) == Some(boot.contents)))
  {
    hide Handle, Tool.Decrypted, Complete, Image.HeaderOk, Image.Plain, Image.KeyOf, Image.WrappedKey, Positive,
         Authentic, IsAnnouncement, AllWritten, Sent;
    StaysPreEnc(c, chunk, PowerOn(preEnc), es);
    var n := BootedIsUploaded(c, chunk, PowerOn(preEnc), es, NOTHING, i);
    k := n - 1;
    j := SinceAnnounced(es, k);
    var boot := After(c, chunk, PowerOn(preEnc), es).backend.boots[i];
    if preEnc && |boot.stream| < Image.HEADER + WORD {
      AuthenticIsDecrypted(c, boot);
    }
  }

  /** A binary frame that completes an upload comes after its announcement. */
  lemma SinceAnnounced(es: seq<Event>, k: nat) returns (j: nat)
    requires k < |es| && es[k].frame.Binary? && !Uploaded(NOTHING, es[..k]).Complete()
    ensures j < k && LastAnnounced(es[..k], j)
    ensures Uploaded(NOTHING, es[..k]) ==
              Upload(AnnouncedSize(es[j]), Sent(es[j + 1..k]), es[j].env, AllWritten(es[j + 1..k]))
    ensures Uploaded(NOTHING, es[..k + 1]) ==
              Upload(AnnouncedSize(es[j]), Sent(es[j + 1..k + 1]), es[j].env, AllWritten(es[j + 1..k + 1]))
  {
    hide Fields, Atoi, Sent;
    var i := UploadedSince(NOTHING, es[..k]);
    var m := UploadedSince(NOTHING, es[..k + 1]);
    assert es[..k + 1][..k] == es[..k];
    SameAnnouncement(es[..k], es[k], i, m);
    j := i;
    assert es[..k][j + 1..] == es[j + 1..k] && es[..k + 1][j + 1..] == es[j + 1..k + 1];
    assert [] + Sent(es[j + 1..k]) == Sent(es[j + 1..k]) && [] + Sent(es[j + 1..k + 1]) == Sent(es[j + 1..k + 1]);
  }

  lemma SameAnnouncement(es: seq<Event>, e: Event, i: int, m: int)
    requires LastAnnounced(es, i) && LastAnnounced(es + [e], m) && !IsAnnouncement(e)
    ensures m == i
  {
    if m >= 0 { assert (es + [e])[m] == if m < |es| then es[m] else e; }
    if i >= 0 { assert (es + [e])[i] == es[i]; }
  }

  /** An update announced with `n` bytes and answered with one frame of at least that many: it boots,
      with all of the frame, however much longer than announced it is. */
  lemma Overrun(c: Crypto, chunk: nat, n: nat, data: seq<Byte>) returns (es: seq<Event>)
    requires 0 < n <= INT_MAX && n <= |data| < WORD && |data| > APP_HEADER
    ensures Uploaded(NOTHING, es) == Upload(n, data, FINE, true) && |es| == 2
    ensures After(c, chunk, PowerOn(false), es).backend.boots == [Boot(data, data)]
  {
    hide Stringify, Defined, FieldsOf, Decimal, Atoi, Written, CStr, OTA_SIZE_START;
    var first, second := Event(Text(Stringify(OTA_SIZE_START, NumberValue(n))), FINE), Event(Binary(data), FINE);
    SizeNamePlain();
    NumberDecodes(OTA_SIZE_START, n);
    StringifyIsCStr(OTA_SIZE_START, NumberValue(n));
    es := [first, second];
    var s1 := ServerState(n, 0, true, Plain(false, [], [], []));
    assert Handle(c, chunk, PowerOn(false), first.frame, FINE).0 == s1;
    LastOfPlain(c, chunk, s1, data);
    var s2 := Handle(c, chunk, s1, second.frame, FINE).0;
    assert [] + data == data;
    assert es[1..] == [second] && es[1..][1..] == [];
    assert After(c, chunk, s1, [second]) == After(c, chunk, s2, []);
    assert Uploaded(Upload(n, [], FINE, true), [second]) == Uploaded(Upload(n, data, FINE, true), []);
  }

  lemma LastOfPlain(c: Crypto, chunk: nat, s: ServerState, data: seq<Byte>)
    requires 0 < s.size <= INT_MAX && s.size <= |data| < WORD && |data| > APP_HEADER
    requires s == ServerState(s.size, 0, true, Plain(false, [], [], []))
    ensures Safe(c, s) && Handle(c, chunk, s, Binary(data), FINE).0.backend.boots == [Boot(data, data)]
  {
    NoWrap(|data|);
    NoWrap(s.size);
    assert [] + data == data && [] + [Boot(data, data)] == [Boot(data, data)];
  }

  lemma StaysPreEnc(c: Crypto, chunk: nat, s: ServerState, es: seq<Event>)
    requires Safe(c, s)
    ensures After(c, chunk, s, es).backend.PreEnc? == s.backend.PreEnc?
    decreases |es|
  {
    if es != [] {
      StepSafe(c, chunk, s, es[0].frame, es[0].env);
      StepOk(c, chunk, s, es[0].frame, es[0].env);
      StaysPreEnc(c, chunk, Handle(c, chunk, s, es[0].frame, es[0].env).0, es[1..]);
    }
  }

  // ---------- the handler's invariant ----------

  predicate Idle(s: ServerState) {
    !s.started && s.size == 0 && s.start == 0
  }

  /** Idle, or active with the counters telling how much the backend has accepted of how much. */
  ghost predicate Counting(s: ServerState) {
    Idle(s) || (s.started && 0 <= s.start < s.size <= INT_MAX && |s.backend.stream| == s.start)
  }

  /** The frame announces a negative size. */
  predicate AnnouncesNegative(f: Frame, env: Env) {
    IsAnnouncement(Event(f, env)) && AnnouncedSize(Event(f, env)) < 0
  }

  /** The invariant survives every frame but exactly one kind: a negative size while the platform lets
      a session start. A frame is shorter than 2^31 bytes. */
  lemma StepCounts(c: Crypto, chunk: nat, s: ServerState, f: Frame, env: Env)
    requires Safe(c, s) && Counting(s) && (f.Binary? ==> |f.data| <= INT_MAX)
    ensures Counting(Handle(c, chunk, s, f, env).0) <==> !(AnnouncesNegative(f, env) && CanStart(s.backend, env))
  {
    hide Write, Finish, BackendOk, SafeBoots, Fields, Atoi, HandleCommand, HandleBinary;
    match f
    case Text(payload) =>
      var fields := Fields(payload, env);
      if fields.Pair? { CommandCounts(s, fields.name, fields.value, chunk, env); }
    case Binary(data) => if s.started { BinaryCounts(c, s, data, env); }
    case _ =>
  }

  lemma CommandCounts(s: ServerState, name: string, value: string, chunk: nat, env: Env)
    requires Counting(s)
    ensures Counting(HandleCommand(s, name, value, chunk, env).0) <==>
              !(name == OTA_SIZE_START && Atoi(value) < 0 && CanStart(s.backend, env))
  {
    hide Atoi, Start;
    StartIff(s.backend, env);
  }

  lemma SizeNamePlain()
    ensures Written(OTA_SIZE_START) == OTA_SIZE_START && 0 < |OTA_SIZE_START| < FIELD && Unescaped(OTA_SIZE_START)
  {
    WrittenIff(OTA_SIZE_START);
  }

  /** There are such frames: a message announcing -n, for every positive `int`. */
  lemma NegativeSize(n: nat)
    requires 0 < n <= INT_MAX
    ensures var f := Text(Stringify(OTA_SIZE_START, Json.Num(Json.Number(true, Decimal(n), "", ""))));
            FrameOk(f) && forall env :: AnnouncesNegative(f, env)
  {
    hide Stringify, Defined, FieldsOf, Decimal, Atoi, Written, OTA_SIZE_START;
    var v := Json.Num(Json.Number(true, Decimal(n), "", ""));
    assert Json.ValueOk(v) by { assert Json.NumberOk(v.n); }
    assert Raw(v) == "-" + Decimal(n) by { assert "-" + Decimal(n) + "" + "" == "-" + Decimal(n); }
    assert Pow10(10) == 10000000000;
    DecimalShort(n, 10);
    SizeNamePlain();
    MessageDecodes(OTA_SIZE_START, v);
    StringifyIsCStr(OTA_SIZE_START, v);
    AtoiReads("", "-", Decimal(n), "");
    DecimalNumeral(n);
    assert "" + ("-" + (Decimal(n) + "")) == "-" + Decimal(n);
  }

  /** Frames as they arrive, none of them announcing a negative size. */
  ghost predicate Positive(es: seq<Event>)
  {
    forall i :: 0 <= i < |es| ==>
      !AnnouncesNegative(es[i].frame, es[i].env) && (es[i].frame.Binary? ==> |es[i].frame.data| <= INT_MAX)
  }

  /** The handler's invariant over every run. */
  lemma {:induction false} RunCounts(c: Crypto, chunk: nat, s: ServerState, es: seq<Event>)
    requires Safe(c, s) && Counting(s) && Positive(es)
    ensures Counting(After(c, chunk, s, es))
    decreases |es|
  {
    hide Handle, BackendOk, SafeBoots, Counting, AnnouncesNegative;
    if es != [] {
      StepSafe(c, chunk, s, es[0].frame, es[0].env);
      StepCounts(c, chunk, s, es[0].frame, es[0].env);
      RunCounts(c, chunk, Handle(c, chunk, s, es[0].frame, es[0].env).0, es[1..]);
    }
  }

  lemma BinaryCounts(c: Crypto, s: ServerState, data: seq<Byte>, env: Env)
    requires BackendOk(c, s.backend) && Counting(s) && s.started && |data| <= INT_MAX
    ensures Counting(HandleBinary(c, s, data, env).0)
  {
    hide Write, Finish, BackendOk;
    WriteKeeps(c, s.backend, data, env);
    NoWrap(s.start + |data|);
    NoWrap(s.size);
  }

  /** Outside a session no number of binary frames, whatever they hold, changes anything. */
  lemma {:induction false} IdleIgnoresData(c: Crypto, chunk: nat, s: ServerState, es: seq<Event>)
    requires Safe(c, s) && !s.started
    requires forall i :: 0 <= i < |es| ==> es[i].frame.Binary? || es[i].frame.Other?
    ensures After(c, chunk, s, es) == s
    decreases |es|
  {
    if es != [] {
      assert Handle(c, chunk, s, es[0].frame, es[0].env).0 == s;
      IdleIgnoresData(c, chunk, s, es[1..]);
    }
  }

  lemma NamesDiffer()
    ensures OTA_END != OTA_ERROR && OTA_END != OTA_CANCEL && OTA_ERROR != OTA_CANCEL
    ensures OTA_GET_CHUNK !in {OTA_ERROR, OTA_CANCEL, OTA_END, OTA_SET_CHUNK_SIZE}
    ensures OTA_SET_CHUNK_SIZE !in {OTA_ERROR, OTA_CANCEL, OTA_END}
    ensures OTA_SIZE_START !in {OTA_CANCEL, OTA_ERROR, OTA_PROCESS_ROLLBACK, OTA_RESTART_ESP}
    ensures {OTA_PROCESS_ROLLBACK, OTA_RESTART_ESP} !! {OTA_CANCEL, OTA_ERROR}
  {
    assert OTA_END[3] == 'E' && OTA_ERROR[4] == 'r' && OTA_END[4] == 'n' && OTA_CANCEL[3] == 'C';
    assert OTA_GET_CHUNK[3] == 'G' && OTA_ERROR[3] == 'E' && OTA_SET_CHUNK_SIZE[3] == OTA_SIZE_START[3] == 'S';
    assert OTA_PROCESS_ROLLBACK[3] == 'P' && OTA_RESTART_ESP[3] == 'R';
  }
}
