/**
 The update protocol end to end: the browser's script and the handler, joined by two FIFO channels.
 The handler pulls the file chunk by chunk, the client answers each request with a slice.
 */
module Transfer {
  import opened Bytes
  import opened Gcm
  import opened DecoderSpec
  import opened Backends
  import opened Commands
  import opened Server
  import Image
  import Tool

  /** The script's globals. */
  datatype Client = Client(file: seq<Byte>, chunkSize: int, started: bool)

  /** Both parties and the frames and replies in flight; `received` counts the binary frames handled,
      `ends` the completions announced. */
  datatype System = System(client: Client, server: ServerState, toServer: seq<Frame>, toClient: seq<Reply>,
                           received: nat, ends: nat)

  function ClampIndex(i: int, n: nat): nat {
    if i < 0 then (if n + i < 0 then 0 else n + i) else if i > n then n else i
  }

  /** `file.subarray(from, to)`. */
  function Subarray(file: seq<Byte>, from: int, to: int): seq<Byte> {
    var a, b := ClampIndex(from, |file|), ClampIndex(to, |file|);
    if a <= b then file[a..b] else []
  }

  /** The array's own part, and how other positions come down to it: negative ones count from the end. */
  lemma SubarrayIs(file: seq<Byte>, from: int, to: int)
    ensures 0 <= from <= to <= |file| ==> Subarray(file, from, to) == file[from..to]
    ensures 0 <= to <= from ==> Subarray(file, from, to) == []
    ensures from < 0 ==> Subarray(file, from, to) == Subarray(file, if from + |file| < 0 then 0 else from + |file|, to)
    ensures to < 0 ==> Subarray(file, from, to) == Subarray(file, from, if to + |file| < 0 then 0 else to + |file|)
    ensures from > |file| ==> Subarray(file, from, to) == []
    ensures to > |file| ==> Subarray(file, from, to) == Subarray(file, from, |file|)
  {
  }

  /** The client's two messages. */
  function CancelFrame(): Frame {
    Text(Stringify(OTA_CANCEL, Json.Str(QuotedBody("Cancel"))))
  }

  function SizeFrame(n: nat): Frame {
    Text(Stringify(OTA_SIZE_START, NumberValue(n)))
  }

  /** The start/cancel button. */
  function Click(cl: Client): (Client, seq<Frame>) {
    if cl.file != [] && !cl.started then
      (cl.(started := true), [SizeFrame(|cl.file|)])
    else (cl.(started := false), [CancelFrame()])
  }

  /** `receiveWsData`. */
  function Receive(cl: Client, r: Reply): (Client, seq<Frame>) {
    if r.name == OTA_SET_CHUNK_SIZE && r.value.Number? then (cl.(chunkSize := r.value.n), [])
    else if r.name == OTA_GET_CHUNK && r.value.Number? then
      (cl, [Binary(Subarray(cl.file, r.value.n, r.value.n + cl.chunkSize))])
    else if r.name in {OTA_END, OTA_ERROR, OTA_CANCEL} then (cl.(started := false), [])
    else (cl, [])
  }

  /** What a message does to the client, by its name: the end, an error and a cancellation stop it and
      nothing else does; only a chunk request is answered, with at most a chunk of the file from the
      offset asked for. */
  lemma ReceiveIs(cl: Client, r: Reply)
    ensures var (d, out) := Receive(cl, r);
            && d.file == cl.file
            && (d.started <==> cl.started && r.name !in {OTA_END, OTA_ERROR, OTA_CANCEL})
            && (d.chunkSize != cl.chunkSize ==> r == Reply(OTA_SET_CHUNK_SIZE, Number(d.chunkSize)))
            && (r == Reply(OTA_SET_CHUNK_SIZE, r.value) && r.value.Number? ==> d.chunkSize == r.value.n)
            && (out != [] <==> r.name == OTA_GET_CHUNK && r.value.Number?)
            && (out != [] ==> |out| == 1 && out[0].Binary?)
            && (out != [] && 0 <= r.value.n <= |cl.file| && cl.chunkSize >= 0 ==>
                  out[0].data == cl.file[r.value.n..][..Least(cl.chunkSize, |cl.file| - r.value.n)])
  {
    NamesDiffer();
  }

  function Least(a: nat, b: nat): nat {
    if a < b then a else b
  }

  function ClientTurn(y: System): System
    requires y.toClient != []
  {
    var (cl, out) := Receive(y.client, y.toClient[0]);
    y.(client := cl, toClient := y.toClient[1..], toServer := y.toServer + out)
  }

  /** The handler's turn, with the platform's calls going as `env` says. */
  function EnvTurn(c: Crypto, chunk: nat, y: System, env: Env): System
    requires y.toServer != [] && BackendOk(c, y.server.backend)
  {
    var (s, out) := Handle(c, chunk, y.server, y.toServer[0], env);
    y.(server := s, toServer := y.toServer[1..], toClient := y.toClient + out,
       received := y.received + (if y.toServer[0].Binary? then 1 else 0),
       ends := y.ends + (if out != [] && out[0].name == OTA_END then 1 else 0))
  }

  function ServerTurn(c: Crypto, chunk: nat, y: System): System
    requires y.toServer != [] && BackendOk(c, y.server.backend)
  {
    EnvTurn(c, chunk, y, FINE)
  }

  /** Either party may take a turn whenever something is waiting for it. */
  ghost predicate Next(c: Crypto, chunk: nat, y: System, z: System) {
    || (y.toClient != [] && z == ClientTurn(y))
    || (y.toServer != [] && BackendOk(c, y.server.backend) && z == ServerTurn(c, chunk, y))
  }

  /** A file and a chunk size for which the transfer is meant to succeed: the first chunk is large
      enough to show the application's headers. */
  ghost predicate Suitable(c: Crypto, b: Backend, file: seq<Byte>, chunk: nat) {
    && 0 < |file| <= INT_MAX && chunk > 0
    && BackendOk(c, b) && Acceptable(c, b, file)
    && CoversHeader(b, file, if chunk < |file| then chunk else |file|)
  }

  /** The system just after the click: an idle handler, empty channels but for the announcement. */
  ghost predicate Initial(c: Crypto, chunk: nat, y: System) {
    && Suitable(c, y.server.backend, y.client.file, chunk)
    && Idle(y.server) && y.client.started && y.toClient == [] && y.received == y.ends == 0
    && y.toServer == [SizeFrame(|y.client.file|)]
  }

  function Ceil(n: nat, chunk: nat): nat
    requires chunk > 0
  {
    if n <= chunk then (if n == 0 then 0 else 1) else 1 + Ceil(n - chunk, chunk)
  }

  // ---------- the invariant ----------

  /** The server waits for the chunk at `k` and has accepted everything before it. */
  ghost predicate Pulling(c: Crypto, chunk: nat, y: System, boots: seq<Boot>, k: nat) {
    var s, file := y.server, y.client.file;
    && s.started && s.start == k < |file| && s.size == |file|
    && Suitable(c, s.backend, file, chunk) && Accepted(c, s.backend, file, k) && s.backend.boots == boots
    && y.client.started && y.ends == 0
    && y.received + Ceil(|file| - k, chunk) == Ceil(|file|, chunk)
    && (k > 0 ==> y.received > 0)
  }

  /** The phases of a transfer: announced; chunk size and first request sent; one request in flight;
      one chunk in flight; completion announced; over. `boots` are the switches made before. */
  datatype Phase = Announced | Granted | Requested(k: nat) | Delivered(k: nat) | Completing | Over

  function SliceAt(file: seq<Byte>, k: nat, chunk: nat): seq<Byte>
    requires k <= |file|
  {
    file[k..if k + chunk < |file| then k + chunk else |file|]
  }

  ghost predicate Done(c: Crypto, y: System, boots: seq<Boot>, chunk: nat) {
    var b, file := y.server.backend, y.client.file;
    && Idle(y.server) && chunk > 0 && y.ends == 1 && y.received == Ceil(|file|, chunk)
    && (b.PreEnc? ==> WellFormed(c, file))
    && b.contents == Payload(c, b, file) && b.boots == boots + [Boot(file, Payload(c, b, file))]
  }

  ghost predicate InPhase(c: Crypto, chunk: nat, y: System, boots: seq<Boot>, p: Phase) {
    match p
    case Announced => Initial(c, chunk, y) && y.server.backend.boots == boots
    case Granted =>
      && Pulling(c, chunk, y, boots, 0) && y.received == 0 && y.toServer == []
      && y.toClient == [Reply(OTA_SET_CHUNK_SIZE, Number(chunk)), Reply(OTA_GET_CHUNK, Number(0))]
    case Requested(k) =>
      && Pulling(c, chunk, y, boots, k) && y.client.chunkSize == chunk
      && y.toServer == [] && y.toClient == [Reply(OTA_GET_CHUNK, Number(k))]
    case Delivered(k) =>
      && Pulling(c, chunk, y, boots, k) && y.client.chunkSize == chunk
      && y.toServer == [Binary(SliceAt(y.client.file, k, chunk))] && y.toClient == []
    case Completing => Done(c, y, boots, chunk) && y.toServer == [] && y.toClient == [Reply(OTA_END, Words("OK"))]
    case Over => Done(c, y, boots, chunk) && y.toServer == [] && y.toClient == [] && !y.client.started
  }

  /** The number of turns still to come. */
  function Left(file: seq<Byte>, chunk: nat, p: Phase): nat
    requires chunk > 0
  {
    match p
    case Announced => 2 * Ceil(|file|, chunk) + 3
    case Granted => 2 * Ceil(|file|, chunk) + 2
    case Requested(k) => if k <= |file| then 2 * Ceil(|file| - k, chunk) + 1 else 0
    case Delivered(k) => if k <= |file| then 2 * Ceil(|file| - k, chunk) else 0
    case Completing => 1
    case Over => 0
  }

  function Following(file: seq<Byte>, chunk: nat, p: Phase): Phase {
    match p
    case Announced => Granted
    case Granted => Requested(0)
    case Requested(k) => Delivered(k)
    case Delivered(k) => if k + chunk < |file| then Requested(k + chunk) else Completing
    case Completing => Over
    case Over => Over
  }

  lemma AnnouncementOk(n: nat)
    requires n <= INT_MAX
    ensures var text := Stringify(OTA_SIZE_START, NumberValue(n));
            && text != "" && FrameOk(Text(text))
            && CStr(text) == text && FieldsOf(text) == Pair(OTA_SIZE_START, Decimal(n)) && Atoi(Decimal(n)) == n
  {
    hide Stringify, Defined, FieldsOf, Decimal, Atoi, Written, CStr, OTA_SIZE_START;
    SizeNamePlain();
    NumberDecodes(OTA_SIZE_START, n);
    StringifyIsCStr(OTA_SIZE_START, NumberValue(n));
  }

  lemma AnnouncedTurn(c: Crypto, chunk: nat, y: System, boots: seq<Boot>)
    requires InPhase(c, chunk, y, boots, Announced)
    ensures FrameOk(y.toServer[0]) && InPhase(c, chunk, ServerTurn(c, chunk, y), boots, Granted)
  {
    hide Stringify, Atoi, FieldsOf, Defined, CStr, NumberValue, Decimal;
    AnnouncementOk(|y.client.file|);
    StartAccepts(c, y.server.backend, y.client.file);
    SuitableKept(c, y.server.backend, Start(y.server.backend, FINE).0, y.client.file, chunk);
    StartOk(c, y.server.backend, FINE);
    StartIff(y.server.backend, FINE);
    NamesDiffer();
  }

  lemma SuitableKept(c: Crypto, b: Backend, d: Backend, file: seq<Byte>, chunk: nat)
    requires Suitable(c, b, file, chunk) && b.PreEnc? == d.PreEnc? && BackendOk(c, d)
    ensures Suitable(c, d, file, chunk)
  {
  }

  lemma SliceIsSubarray(file: seq<Byte>, k: nat, chunk: nat)
    requires k < |file| && chunk > 0
    ensures Subarray(file, k, k + chunk) == SliceAt(file, k, chunk)
    ensures 0 < |SliceAt(file, k, chunk)| <= |file| - k
    ensures |SliceAt(file, k, chunk)| == if k + chunk < |file| then chunk else |file| - k
    ensures SliceAt(file, k, chunk) == file[k..k + |SliceAt(file, k, chunk)|]
  {
  }

  lemma GrantedTurn(c: Crypto, chunk: nat, y: System, boots: seq<Boot>)
    requires InPhase(c, chunk, y, boots, Granted)
    ensures InPhase(c, chunk, ClientTurn(y), boots, Requested(0))
  {
    hide Suitable, Accepted;
    assert y.toClient[1..] == [Reply(OTA_GET_CHUNK, Number(0))];
  }

  lemma RequestedTurn(c: Crypto, chunk: nat, y: System, boots: seq<Boot>, k: nat)
    requires InPhase(c, chunk, y, boots, Requested(k))
    ensures InPhase(c, chunk, ClientTurn(y), boots, Delivered(k))
  {
    hide Suitable, Accepted, SliceAt, Subarray, Ceil;
    Channels(c, chunk, y, boots, Requested(k));
    SliceIsSubarray(y.client.file, k, chunk);
    NamesDiffer();
  }

  lemma CompletingTurn(c: Crypto, chunk: nat, y: System, boots: seq<Boot>)
    requires InPhase(c, chunk, y, boots, Completing)
    ensures InPhase(c, chunk, ClientTurn(y), boots, Over)
  {
    hide Ceil, Payload, WellFormed;
  }

  /** What the handler does with the chunk at `k`. */
  lemma ChunkHandled(c: Crypto, chunk: nat, s: ServerState, file: seq<Byte>, k: nat)
    requires s.started && s.start == k < |file| && s.size == |file|
    requires Suitable(c, s.backend, file, chunk) && Accepted(c, s.backend, file, k)
    ensures var data := SliceAt(file, k, chunk); var (t, out) := HandleBinary(c, s, data, FINE);
            && t.backend.PreEnc? == s.backend.PreEnc? && BackendOk(c, t.backend)
            && if k + chunk < |file| then
                 && t.started && t.start == k + chunk && t.size == |file| && Accepted(c, t.backend, file, k + chunk)
                 && t.backend.boots == s.backend.boots && out == [Reply(OTA_GET_CHUNK, Number(k + chunk))]
               else
                 && Idle(t) && out == [Reply(OTA_END, Words("OK"))]
                 && t.backend.contents == Payload(c, s.backend, file)
                 && t.backend.boots == s.backend.boots + [Boot(file, Payload(c, s.backend, file))]
  {
    hide Suitable, Accepted, Acceptable, BackendOk, Payload, CoversHeader, Write, Finish, WellFormed, Subarray, SliceAt;
    SuitableParts(c, s.backend, file, chunk);
    SliceIsSubarray(file, k, chunk);
    var data := SliceAt(file, k, chunk);
    WriteAccepts(c, s.backend, file, k, k + |data|);
    var (b, ok) := Write(c, s.backend, data, FINE);
    WriteOk(c, s.backend, data, FINE);
    NoWrap(k + |data|);
    NoWrap(|file|);
    if k + chunk >= |file| {
      AcceptableKept(c, s.backend, b, file);
      FinishAccepts(c, b, file);
      FinishOk(c, b, FINE);
      BinaryOk(c, s, data, FINE);
    }
  }

  lemma SuitableParts(c: Crypto, b: Backend, file: seq<Byte>, chunk: nat)
    requires Suitable(c, b, file, chunk)
    ensures 0 < |file| <= INT_MAX && chunk > 0 && BackendOk(c, b) && Acceptable(c, b, file)
    ensures CoversHeader(b, file, if chunk < |file| then chunk else |file|)
    ensures b.PreEnc? ==> WellFormed(c, file)
  {
  }

  lemma AcceptableKept(c: Crypto, b: Backend, d: Backend, file: seq<Byte>)
    requires Acceptable(c, b, file) && b.PreEnc? == d.PreEnc?
    ensures Acceptable(c, d, file)
    ensures (b.PreEnc? ==> WellFormed(c, file)) ==> Payload(c, d, file) == Payload(c, b, file)
  {
  }

  lemma DeliveredTurn(c: Crypto, chunk: nat, y: System, boots: seq<Boot>, k: nat)
    requires InPhase(c, chunk, y, boots, Delivered(k))
    ensures FrameOk(y.toServer[0]) && BackendOk(c, y.server.backend)
    ensures InPhase(c, chunk, ServerTurn(c, chunk, y), boots, Following(y.client.file, chunk, Delivered(k)))
  {
    hide HandleBinary, Suitable, Accepted, Acceptable, BackendOk, Payload, WellFormed, SliceAt, OTA_END, OTA_GET_CHUNK;
    var file, b := y.client.file, y.server.backend;
    SuitableParts(c, b, file, chunk);
    ChunkHandled(c, chunk, y.server, file, k);
    var t := HandleBinary(c, y.server, SliceAt(file, k, chunk), FINE).0;
    if k + chunk < |file| { SuitableKept(c, b, t.backend, file, chunk); } else { PayloadSame(c, b, t.backend, file); }
    NamesDiffer();
  }

  lemma PayloadSame(c: Crypto, b: Backend, d: Backend, file: seq<Byte>)
    requires b.PreEnc? == d.PreEnc? && (b.PreEnc? ==> WellFormed(c, file))
    ensures Payload(c, d, file) == Payload(c, b, file)
  {
  }

  // ---------- main results ----------

  /** `z` is what follows `y`, one turn closer to the end. */
  ghost predicate Closer(c: Crypto, chunk: nat, y: System, boots: seq<Boot>, p: Phase, z: System) {
    var file, q := y.client.file, Following(y.client.file, chunk, p);
    && chunk > 0 && z.client.file == file && InPhase(c, chunk, z, boots, q)
    && Left(file, chunk, p) == Left(file, chunk, q) + 1
  }

  lemma LeftDrops(file: seq<Byte>, chunk: nat, p: Phase)
    requires chunk > 0 && p != Over && (p.Requested? || p.Delivered? ==> p.k < |file|)
    ensures Left(file, chunk, p) == Left(file, chunk, Following(file, chunk, p)) + 1
  {
  }

  /** Whose turn it is. */
  predicate ServerMoves(p: Phase) {
    p.Announced? || p.Delivered?
  }

  lemma Channels(c: Crypto, chunk: nat, y: System, boots: seq<Boot>, p: Phase)
    requires InPhase(c, chunk, y, boots, p)
    ensures chunk > 0
    ensures y.toServer != [] <==> ServerMoves(p)
    ensures y.toClient != [] <==> !ServerMoves(p) && p != Over
    ensures p.Requested? || p.Delivered? ==> p.k < |y.client.file|
    ensures y.toServer != [] && y.toServer[0].Binary? ==> |y.toServer[0].data| <= INT_MAX
  {
    if p.Delivered? { SliceIsSubarray(y.client.file, p.k, chunk); }
  }

  lemma ServerCloser(c: Crypto, chunk: nat, y: System, boots: seq<Boot>, p: Phase)
    requires InPhase(c, chunk, y, boots, p) && ServerMoves(p) && y.toServer != []
    ensures FrameOk(y.toServer[0]) && BackendOk(c, y.server.backend)
    ensures Closer(c, chunk, y, boots, p, ServerTurn(c, chunk, y))
  {
    Channels(c, chunk, y, boots, p);
    LeftDrops(y.client.file, chunk, p);
    if p.Announced? { AnnouncedTurn(c, chunk, y, boots); } else { DeliveredTurn(c, chunk, y, boots, p.k); }
  }

  lemma ClientCloser(c: Crypto, chunk: nat, y: System, boots: seq<Boot>, p: Phase)
    requires InPhase(c, chunk, y, boots, p) && !ServerMoves(p) && p != Over && y.toClient != []
    ensures Closer(c, chunk, y, boots, p, ClientTurn(y))
  {
    Channels(c, chunk, y, boots, p);
    LeftDrops(y.client.file, chunk, p);
    ReceiveIs(y.client, y.toClient[0]);
    match p
    case Granted => GrantedTurn(c, chunk, y, boots);
    case Requested(k) => RequestedTurn(c, chunk, y, boots, k);
    case Completing => CompletingTurn(c, chunk, y, boots);
  }

  /** In every phase but the last exactly one party can move, and its one move leads to the
      following phase; in the last nobody can. */
  lemma Turn(c: Crypto, chunk: nat, y: System, boots: seq<Boot>, p: Phase)
    requires InPhase(c, chunk, y, boots, p)
    ensures p != Over <==> exists z :: Next(c, chunk, y, z)
    ensures forall z :: Next(c, chunk, y, z) ==> Closer(c, chunk, y, boots, p, z)
  {
    hide InPhase, Closer, ServerTurn, ClientTurn, BackendOk, FrameOk;
    Channels(c, chunk, y, boots, p);
    if p != Over {
      if ServerMoves(p) {
        ServerCloser(c, chunk, y, boots, p);
        assert Next(c, chunk, y, ServerTurn(c, chunk, y));
      } else {
        ClientCloser(c, chunk, y, boots, p);
        assert Next(c, chunk, y, ClientTurn(y));
      }
    }
  }

  /** A run of the two parties. */
  ghost predicate IsRun(c: Crypto, chunk: nat, ys: seq<System>) {
    ys != [] && Initial(c, chunk, ys[0]) && forall i :: 0 < i < |ys| ==> Next(c, chunk, ys[i - 1], ys[i])
  }

  function PhaseAt(file: seq<Byte>, chunk: nat, i: nat): Phase {
    if i == 0 then Announced else Following(file, chunk, PhaseAt(file, chunk, i - 1))
  }

  function Total(file: seq<Byte>, chunk: nat): nat
    requires chunk > 0
  {
    2 * Ceil(|file|, chunk) + 3
  }

  lemma StartsInPhase(c: Crypto, chunk: nat, y: System)
    requires Initial(c, chunk, y)
    ensures chunk > 0 && InPhase(c, chunk, y, y.server.backend.boots, Announced)
    ensures Left(y.client.file, chunk, Announced) == Total(y.client.file, chunk)
  {
  }

  lemma {:induction false} RunInPhase(c: Crypto, chunk: nat, ys: seq<System>, i: nat)
    requires IsRun(c, chunk, ys) && i < |ys|
    ensures var file, boots := ys[0].client.file, ys[0].server.backend.boots; var p := PhaseAt(file, chunk, i);
            && chunk > 0 && ys[i].client.file == file && InPhase(c, chunk, ys[i], boots, p)
            && Left(file, chunk, p) + i == Total(file, chunk)
    decreases i
  {
    hide Next, Initial, Left, Total, Following;
    var file, boots := ys[0].client.file, ys[0].server.backend.boots;
    if i == 0 {
      StartsInPhase(c, chunk, ys[0]);
    } else {
      RunInPhase(c, chunk, ys, i - 1);
      assert Next(c, chunk, ys[i - 1], ys[i]);
      Turn(c, chunk, ys[i - 1], boots, PhaseAt(file, chunk, i - 1));
      assert Closer(c, chunk, ys[i - 1], boots, PhaseAt(file, chunk, i - 1), ys[i]);
    }
  }

  /** End-to-end transfer: every run stops after exactly 2 ceil(N/C) + 3 turns, no sooner and no
      later, and then ceil(N/C) binary frames have been handled, completion has been announced
      once, and the partition holds the file, or its decryption, and has been made bootable once. */
  lemma EndToEnd(c: Crypto, chunk: nat, ys: seq<System>)
    requires IsRun(c, chunk, ys)
    ensures chunk > 0 && |ys| <= Total(ys[0].client.file, chunk) + 1
    ensures var y, file := ys[|ys| - 1], ys[0].client.file;
            && ((exists z :: Next(c, chunk, y, z)) <==> |ys| <= Total(file, chunk))
            && (|ys| == Total(file, chunk) + 1 ==>
                  Done(c, y, ys[0].server.backend.boots, chunk) && y.client.file == file
                  && y.toServer == [] && y.toClient == [] && !y.client.started)
  {
    var last := |ys| - 1;
    var file, boots := ys[0].client.file, ys[0].server.backend.boots;
    RunInPhase(c, chunk, ys, last);
    var p := PhaseAt(file, chunk, last);
    Turn(c, chunk, ys[last], boots, p);
    LeftZero(c, chunk, ys[last], boots, p);
  }

  /** An image the tool writes is fit for the transfer, whatever its key, nonce and padding, if the
      plaintext and the first chunk reach past the application's headers. */
  lemma ToolImageSuitable(c: Crypto, b: Backend, data: seq<Byte>, key: seq<Byte>, iv: seq<Byte>, seed: seq<Byte>,
                          config: nat)
    requires Tool.RsaLaws(c) && |key| == Image.GCM_KEY_SIZE && |iv| == Image.IV_SIZE
    requires APP_HEADER < |data| <= INT_MAX - Image.HEADER && ChunkSize(config) > Image.HEADER + APP_HEADER
    requires b.PreEnc? && BackendOk(c, b)
    ensures var file := Tool.Encrypted(c, data, key, iv, seed);
            Suitable(c, b, file, ChunkSize(config)) && Payload(c, b, file) == data
  {
    hide Tool.Encrypted, CoversHeader, Image.HeaderOk, Image.Declared, Image.Plain, Image.AuthOf, Image.TagOf,
         Image.KeyOf, Image.IvOf, Image.WrappedKey, Image.MagicOf, Image.Ciphertext, BackendOk;
    Tool.EncryptedLayout(c, data, key, iv, seed);
    CoversIff(b, Tool.Encrypted(c, data, key, iv, seed), ChunkSize(config));
  }

  /** From the tool's input to the boot partition: a transfer of what `encrypt` wrote, to its end,
      leaves the plaintext in the partition and makes it bootable, once. */
  lemma ToolImageBoots(c: Crypto, chunk: nat, ys: seq<System>, data: seq<Byte>, key: seq<Byte>, iv: seq<Byte>,
                       seed: seq<Byte>)
    requires Tool.RsaLaws(c) && |key| == Image.GCM_KEY_SIZE && |iv| == Image.IV_SIZE && |data| < WORD
    requires IsRun(c, chunk, ys) && ys[0].server.backend.PreEnc?
    requires ys[0].client.file == Tool.Encrypted(c, data, key, iv, seed)
    requires |ys| == Total(ys[0].client.file, chunk) + 1
    ensures var b := ys[|ys| - 1].server.backend;
            b.contents == data && b.boots == ys[0].server.backend.boots + [Boot(ys[0].client.file, data)]
  {
    hide Tool.Encrypted, IsRun, Image.HeaderOk, Image.Declared, Image.Plain, Image.KeyOf, Tool.RawKey, Ceil, Total;
    Tool.EncryptedLayout(c, data, key, iv, seed);
    EndToEnd(c, chunk, ys);
    KindOverRun(c, chunk, ys, |ys| - 1);
  }

  lemma {:induction false} KindOverRun(c: Crypto, chunk: nat, ys: seq<System>, i: nat)
    requires IsRun(c, chunk, ys) && i < |ys|
    ensures ys[i].server.backend.PreEnc? == ys[0].server.backend.PreEnc?
    decreases i
  {
    hide Handle, BackendOk, Initial, Receive;
    if i > 0 {
      KindOverRun(c, chunk, ys, i - 1);
      var y := ys[i - 1];
      assert Next(c, chunk, y, ys[i]);
      if y.toServer != [] && BackendOk(c, y.server.backend) {
        StepOk(c, chunk, y.server, y.toServer[0], FINE);
      }
    }
  }

  lemma LeftZero(c: Crypto, chunk: nat, y: System, boots: seq<Boot>, p: Phase)
    requires InPhase(c, chunk, y, boots, p)
    ensures chunk > 0 && (Left(y.client.file, chunk, p) == 0 <==> p == Over)
  {
    Channels(c, chunk, y, boots, p);
    if p.Delivered? { CeilPositive(|y.client.file| - p.k, chunk); }
  }

  lemma CeilPositive(n: nat, chunk: nat)
    requires n > 0 && chunk > 0
    ensures Ceil(n, chunk) > 0
  {
  }

  /** `Ceil` is the quotient rounded up. */
  lemma {:induction false} CeilIsCeiling(n: nat, chunk: nat)
    requires chunk > 0
    ensures (Ceil(n, chunk) - 1) * chunk < n <= Ceil(n, chunk) * chunk || n == Ceil(n, chunk) == 0
    decreases n
  {
    if n > chunk {
      var q := Ceil(n - chunk, chunk);
      CeilIsCeiling(n - chunk, chunk);
      assert (q + 1) * chunk == q * chunk + chunk && q * chunk == (q - 1) * chunk + chunk;
    }
  }

  /** Safety of the exchange at every step of every run: while the transfer is on, exactly one
      request or reply is in flight, behind the chunk size at most, and its offset is
      `ota_start_chunk`. */
  lemma OneInFlight(c: Crypto, chunk: nat, ys: seq<System>, i: nat)
    requires IsRun(c, chunk, ys) && i < |ys| && ys[i].server.started
    ensures var y := ys[i]; var k := y.server.start;
            && 0 <= k < |y.client.file|
            && ((y.toServer == [] && y.toClient != [] && y.toClient[|y.toClient| - 1] == Reply(OTA_GET_CHUNK, Number(k))
                 && y.toClient[..|y.toClient| - 1] in {[], [Reply(OTA_SET_CHUNK_SIZE, Number(chunk))]})
                || (y.toClient == [] && y.toServer == [Binary(SliceAt(y.client.file, k, chunk))]))
  {
    hide IsRun, InPhase, SliceAt, Left, Ceil;
    RunInPhase(c, chunk, ys, i);
    WhileStarted(c, chunk, ys[i], ys[0].server.backend.boots, PhaseAt(ys[0].client.file, chunk, i));
  }

  lemma WhileStarted(c: Crypto, chunk: nat, y: System, boots: seq<Boot>, p: Phase)
    requires InPhase(c, chunk, y, boots, p) && y.server.started
    ensures var k := y.server.start;
            && 0 <= k < |y.client.file|
            && ((y.toServer == [] && y.toClient != [] && y.toClient[|y.toClient| - 1] == Reply(OTA_GET_CHUNK, Number(k))
                 && y.toClient[..|y.toClient| - 1] in {[], [Reply(OTA_SET_CHUNK_SIZE, Number(chunk))]})
                || (y.toClient == [] && y.toServer == [Binary(SliceAt(y.client.file, k, chunk))]))
  {
    hide Suitable, Accepted, Ceil, SliceAt;
    if p.Granted? {
      assert y.toClient[..1] == [Reply(OTA_SET_CHUNK_SIZE, Number(chunk))];
    } else if p.Requested? {
      assert y.toClient[..0] == [];
    }
  }

  /** The click on an idle system with a suitable file is what starts a run. */
  lemma ClickStarts(c: Crypto, chunk: nat, y: System)
    requires Suitable(c, y.server.backend, y.client.file, chunk) && Idle(y.server) && !y.client.started
    requires y.toServer == [] && y.toClient == [] && y.received == y.ends == 0
    ensures var (cl, out) := Click(y.client); var z := y.(client := cl, toServer := out);
            Initial(c, chunk, z) && IsRun(c, chunk, [z])
  {
    hide Stringify, NumberValue, BackendOk, Acceptable, CoversHeader;
  }

  /** Runs to the end exist: from every initial state there is one of the length `EndToEnd` gives. */
  lemma {:induction false} CompleteRun(c: Crypto, chunk: nat, y: System, n: nat) returns (ys: seq<System>)
    requires Initial(c, chunk, y) && n <= Total(y.client.file, chunk)
    ensures IsRun(c, chunk, ys) && |ys| == n + 1 && ys[0] == y
    decreases n
  {
    hide Initial, Next, Done;
    if n == 0 {
      ys := [y];
    } else {
      ys := CompleteRun(c, chunk, y, n - 1);
      EndToEnd(c, chunk, ys);
      var z :| Next(c, chunk, ys[n - 1], z);
      ys := ys + [z];
    }
  }

  /** The whole way, with nothing assumed of any run: for every plaintext, key, nonce and padding there
      is a run from power-on that ends with the plaintext bootable. */
  lemma ToolImageRun(c: Crypto, data: seq<Byte>, key: seq<Byte>, iv: seq<Byte>, seed: seq<Byte>, config: nat)
    returns (ys: seq<System>)
    requires Tool.RsaLaws(c) && |key| == Image.GCM_KEY_SIZE && |iv| == Image.IV_SIZE
    requires APP_HEADER < |data| <= INT_MAX - Image.HEADER && ChunkSize(config) > Image.HEADER + APP_HEADER
    ensures ys != [] && IsRun(c, ChunkSize(config), ys) && ys[0].server == PowerOn(true)
    ensures var b, file := ys[|ys| - 1].server.backend, Tool.Encrypted(c, data, key, iv, seed);
            ys[0].client.file == file && b.contents == data && b.boots == [Boot(file, data)]
  {
    hide Tool.Encrypted, IsRun, Suitable, Payload, SizeFrame, Total, Ceil;
    var file, chunk := Tool.Encrypted(c, data, key, iv, seed), ChunkSize(config);
    var y := System(Client(file, 0, true), PowerOn(true), [SizeFrame(|file|)], [], 0, 0);
    ToolImageSuitable(c, y.server.backend, data, key, iv, seed, config);
    SuitableParts(c, y.server.backend, file, chunk);
    ys := CompleteRun(c, chunk, y, Total(file, chunk));
    ToolImageBoots(c, chunk, ys, data, key, iv, seed);
  }

  /** The device also boots what the tool would refuse, an image whose key has 20 bytes. */
  lemma ShortKeyBoots(cipher: (seq<Byte>, Block) -> Block, product: (Block, Block) -> Block, data: seq<Byte>,
                      iv: seq<Byte>, config: nat)
    returns (c: Crypto, ys: seq<System>)
    requires |iv| == Image.IV_SIZE
    requires APP_HEADER < |data| <= INT_MAX - Image.HEADER && ChunkSize(config) > Image.HEADER + APP_HEADER
    ensures c.cipher == cipher && c.product == product
    ensures ys != [] && IsRun(c, ChunkSize(config), ys) && ys[0].server == PowerOn(true)
    ensures var b, file := ys[|ys| - 1].server.backend, ys[0].client.file;
            b.contents == data && b.boots == [Boot(file, data)] && Tool.Decrypted(c, file) == None
  {
    hide IsRun, SizeFrame, Total, Ceil, Tool.Decrypted, Image.HeaderOk, Image.Plain, Image.Declared, WellFormed;
    var file: seq<Byte>;
    c, file := Tool.ShortKeyImage(cipher, product, data, iv);
    var chunk := ChunkSize(config);
    var y := System(Client(file, 0, true), PowerOn(true), [SizeFrame(|file|)], [], 0, 0);
    CoversIff(y.server.backend, file, chunk);
    ys := CompleteRun(c, chunk, y, Total(file, chunk));
    EndToEnd(c, chunk, ys);
    KindOverRun(c, chunk, ys, |ys| - 1);
  }
}
