/**
 What a frame comes to: exactly when the handler refuses it, what the client and the backend then see,
 and what happens otherwise. Told from the frame, the state and the calls that succeed.
 */
module Outcomes {
  import opened Bytes
  import opened Gcm
  import opened DecoderSpec
  import opened Backends
  import opened Commands
  import opened Server

  /** The text yields no pair of a name and a value. */
  predicate NoPair(payload: string, env: Env) {
    if FrameOk(Text(payload)) then Parsed(CStr(payload)).1 < 2 else env.fields == Malformed
  }

  predicate Names(f: Frame, env: Env, name: string) {
    f.Text? && Fields(f.payload, env).Pair? && Fields(f.payload, env).name == name
  }

  predicate Completes(s: ServerState, data: seq<Byte>) {
    (s.start + |data|) % WORD >= s.size % WORD
  }

  ghost predicate Stored(c: Crypto, s: ServerState, data: seq<Byte>, env: Env)
    requires BackendOk(c, s.backend)
  {
    Fits(c, s.backend, data) && env.write
  }

  ghost predicate Closed(c: Crypto, s: ServerState, data: seq<Byte>, env: Env) {
    (s.backend.PreEnc? ==> Verified(c, s.backend.stream + data)) && env.end && env.setBoot
  }

  /** Why the frame is refused, or that it is not. */
  ghost function Refusal(c: Crypto, s: ServerState, f: Frame, env: Env): Option<string>
    requires BackendOk(c, s.backend)
  {
    match f
    case Lost(message) => Some(message)
    case Text(payload) =>
      if NoPair(payload, env) then Some("Error json str")
      else if Names(f, env, OTA_CANCEL) then Some("Cancel command")
      else if Names(f, env, OTA_ERROR) then Some("Error command")
      else if Names(f, env, OTA_SIZE_START) && Atoi(Fields(payload, env).value) == 0 then Some("Error ota size = 0")
      else if Names(f, env, OTA_SIZE_START) && !CanStart(s.backend, env) then Some("Error start ota")
      else None
    case Binary(data) =>
      if s.started && !Stored(c, s, data, env) then Some("Error write ota")
      else if s.started && Completes(s, data) && !Closed(c, s, data, env) then Some("Error end ota")
      else None
    case Other => None
  }

  /** The session is over and nothing is left of it; nothing was made bootable. */
  ghost predicate Dropped(s: ServerState, t: ServerState) {
    && Idle(t) && t.backend.boots == s.backend.boots && t.backend.PreEnc? == s.backend.PreEnc?
    && (t.backend.PreEnc? ==> t.backend.handle == None && t.backend.outLen == 0)
  }

  /** The client is told of an error or a cancellation. */
  predicate Tells(out: seq<Reply>) {
    exists i :: 0 <= i < |out| && out[i].name in {OTA_ERROR, OTA_CANCEL}
  }

  lemma TellsIff(out: seq<Reply>)
    ensures |out| == 1 ==> (Tells(out) <==> out[0].name in {OTA_ERROR, OTA_CANCEL})
    ensures |out| == 2 ==>
              (Tells(out) <==> out[0].name in {OTA_ERROR, OTA_CANCEL} || out[1].name in {OTA_ERROR, OTA_CANCEL})
    ensures out == [] ==> !Tells(out)
  {
  }

  /** Told of a refusal if and only if there is one; and then of nothing else, the session being dropped. */
  ghost predicate Answers(s: ServerState, f: Frame, env: Env, refusal: Option<string>, t: ServerState,
                          out: seq<Reply>)
  {
    && (refusal.Some? <==> Tells(out))
    && (refusal.Some? ==>
          && out == [Reply(if Names(f, env, OTA_CANCEL) then OTA_CANCEL else OTA_ERROR, Words(refusal.value))]
          && Dropped(s, t))
  }

  /** The error law, for every state, frame and outcome of the platform's calls: the client is told of an
      error or a cancellation if and only if the frame is refused. It is then told just that, with the
      reason, of a cancellation exactly after the cancel command; and the session is dropped. */
  lemma RefusedIff(c: Crypto, chunk: nat, s: ServerState, f: Frame, env: Env)
    requires BackendOk(c, s.backend)
    ensures var (t, out) := Handle(c, chunk, s, f, env); Answers(s, f, env, Refusal(c, s, f, env), t, out)
  {
    hide Fields, Atoi, HandleBinary, HandleCommand, BackendOk, NoPair, Defined, FieldsOf, FrameOk, CStr, Stored, Closed,
         Tells;
    TellsIff(Handle(c, chunk, s, f, env).1);
    NamesDiffer();
    match f
    case Text(payload) => TextRefused(c, chunk, s, payload, env);
    case Binary(data) => if s.started { BinaryOutcome(c, s, data, env); }
    case _ =>
  }

  lemma PairIff(payload: string, env: Env)
    ensures NoPair(payload, env) <==> Fields(payload, env) == Malformed
  {
  }

  lemma ErrorDrops(s: ServerState, code: string, msg: string)
    ensures var (t, out) := OtaError(s, code, msg); Dropped(s, t) && out == [Reply(code, Words(msg))]
  {
  }

  lemma DropKept(s: ServerState, r: ServerState, t: ServerState)
    requires r.backend.boots == s.backend.boots && r.backend.PreEnc? == s.backend.PreEnc?
    ensures Dropped(r, t) <==> Dropped(s, t)
  {
  }

  lemma TextRefused(c: Crypto, chunk: nat, s: ServerState, payload: string, env: Env)
    requires BackendOk(c, s.backend)
    ensures var f := Text(payload);
            var (t, out) := Handle(c, chunk, s, f, env); Answers(s, f, env, Refusal(c, s, f, env), t, out)
  {
    hide Fields, Atoi, Start, BackendOk, NoPair, CanStart, Tells, OtaError, Dropped, Restarted;
    StartIff(s.backend, env);
    ErrorDrops(s, OTA_ERROR, "Error json str");
    ErrorDrops(s, OTA_CANCEL, "Cancel command");
    ErrorDrops(s, OTA_ERROR, "Error command");
    ErrorDrops(s, OTA_ERROR, "Error ota size = 0");
    ErrorDrops(s.(backend := Start(s.backend, env).0), OTA_ERROR, "Error start ota");
    DropKept(s, s.(backend := Start(s.backend, env).0), Handle(c, chunk, s, Text(payload), env).0);
    TellsIff(Handle(c, chunk, s, Text(payload), env).1);
    PairIff(payload, env);
    NamesDiffer();
  }

  /** A part that is not refused is added to what was received, and its plaintext to the partition. */
  ghost predicate Added(c: Crypto, s: ServerState, t: ServerState, data: seq<Byte>)
    requires BackendOk(c, s.backend) && Fits(c, s.backend, data)
  {
    var b, d := s.backend, t.backend;
    && d.PreEnc? == b.PreEnc? && d.stream == b.stream + data
    && d.contents == b.contents + if b.Plain? then data else Emitted(c, b.handle.value, data)
  }

  /** The `int` that `n` is stored as. */
  predicate AsInt(k: int, n: int) {
    -0x8000_0000 <= k <= 0x7FFF_FFFF && (k - n) % WORD == 0
  }

  lemma I32Is(n: int)
    ensures AsInt(I32(n), n)
  {
  }

  lemma BinaryOutcome(c: Crypto, s: ServerState, data: seq<Byte>, env: Env)
    requires BackendOk(c, s.backend) && s.started
    ensures var (t, out) := HandleBinary(c, s, data, env); var b, d := s.backend, t.backend;
            if !Stored(c, s, data, env) then Dropped(s, t) && out == [Reply(OTA_ERROR, Words("Error write ota"))]
            else if !Completes(s, data) then
              && t.started && t.size == s.size && AsInt(t.start, s.start + |data|) && d.boots == b.boots
              && Added(c, s, t, data) && out == [Reply(OTA_GET_CHUNK, Number(t.start))]
            else if !Closed(c, s, data, env) then Dropped(s, t) && out == [Reply(OTA_ERROR, Words("Error end ota"))]
            else
              && Idle(t) && d.boots == b.boots + [Boot(d.stream, d.contents)]
              && Added(c, s, t, data) && out == [Reply(OTA_END, Words("OK"))]
  {
    hide Write, Finish, BackendOk, Fits, Verified, I32, Emitted, AsInt;
    I32Is(s.start + |data|);
    WriteOk(c, s.backend, data, env);
    WriteIff(c, s.backend, data, env);
    var (b, ok) := Write(c, s.backend, data, env);
    if ok { FinishIff(c, b, env); }
  }

  /** A session of `n` bytes has begun, with an erased partition and, pre-encrypted, a fresh decoder. */
  ghost predicate Begun(s: ServerState, t: ServerState, n: int) {
    var b, d := s.backend, t.backend;
    && t.started && t.size == n && t.start == 0
    && d.boots == b.boots && d.PreEnc? == b.PreEnc? && !d.checked && d.contents == d.stream == []
    && (d.PreEnc? ==> d.handle == Some(Live([], 0)))
  }

  /** What is done on a command, and that nothing is done on anything else. */
  ghost predicate Obeyed(s: ServerState, f: Frame, env: Env, chunk: nat, t: ServerState, out: seq<Reply>) {
    var b, d := s.backend, t.backend;
    if Names(f, env, OTA_SIZE_START) then
      && Begun(s, t, Atoi(Fields(f.payload, env).value))
      && out == [Reply(OTA_SET_CHUNK_SIZE, Number(chunk)), Reply(OTA_GET_CHUNK, Number(0))]
    else if Names(f, env, OTA_RESTART_ESP) then
      Dropped(s, t) && !d.checked && d.contents == b.contents && d.stream == b.stream && out == []
    else t == s && out == []
  }

  /** The rest of the table: what a frame does that is not refused. A size begins a session, whether or
      not one is on; the restart command drops everything but partition and boot history; a part is
      added and the next one asked for, unless it completes the upload, which is then bootable; any
      other message, and data outside a session, changes nothing and is not answered. */
  lemma AcceptedOutcome(c: Crypto, chunk: nat, s: ServerState, f: Frame, env: Env)
    requires BackendOk(c, s.backend) && Refusal(c, s, f, env).None?
    ensures var (t, out) := Handle(c, chunk, s, f, env); var b, d := s.backend, t.backend;
            if f.Binary? && s.started then
              && Added(c, s, t, f.data)
              && if Completes(s, f.data) then
                   && Idle(t) && d.boots == b.boots + [Boot(d.stream, d.contents)]
                   && out == [Reply(OTA_END, Words("OK"))]
                 else
                   && t.started && t.size == s.size && AsInt(t.start, s.start + |f.data|) && d.boots == b.boots
                   && out == [Reply(OTA_GET_CHUNK, Number(t.start))]
            else Obeyed(s, f, env, chunk, t, out)
  {
    hide Fields, Atoi, HandleBinary, HandleCommand, BackendOk, NoPair, Defined, FieldsOf, FrameOk, CStr, Stored, Closed,
         AsInt;
    match f
    case Text(payload) => TextAccepted(c, chunk, s, payload, env);
    case Binary(data) => if s.started { BinaryOutcome(c, s, data, env); }
    case _ =>
  }

  lemma TextAccepted(c: Crypto, chunk: nat, s: ServerState, payload: string, env: Env)
    requires BackendOk(c, s.backend) && Refusal(c, s, Text(payload), env).None?
    ensures var f := Text(payload); var (t, out) := Handle(c, chunk, s, f, env); Obeyed(s, f, env, chunk, t, out)
  {
    hide Fields, Atoi, Start, BackendOk, NoPair;
    PairIff(payload, env);
    StartIff(s.backend, env);
    NamesDiffer();
  }

  /** What the `i`-th reply to a frame tells of the step from `s` to `t`. */
  ghost predicate Reported(s: ServerState, t: ServerState, replies: seq<Reply>, i: nat)
    requires i < |replies|
  {
    && (replies[i].name in {OTA_ERROR, OTA_CANCEL, OTA_END} ==> Idle(t) && |replies| == 1)
    && (replies[i].name == OTA_END <==> |t.backend.boots| == |s.backend.boots| + 1)
    && (replies[i].name != OTA_END ==> t.backend.boots == s.backend.boots)
  }

  /** Whenever the client is told of an error or a cancellation, or that the update is complete, the
      handler is idle; and a completed update is the only frame that adds a bootable image. */
  lemma ReportsWhenIdle(c: Crypto, chunk: nat, s: ServerState, f: Frame, env: Env, i: nat)
    requires BackendOk(c, s.backend) && i < |Handle(c, chunk, s, f, env).1|
    ensures Reported(s, Handle(c, chunk, s, f, env).0, Handle(c, chunk, s, f, env).1, i)
  {
    hide Handle, Refusal, BackendOk, Names, AsInt, Fits;
    NamesDiffer();
    if Refusal(c, s, f, env).Some? { RefusedIff(c, chunk, s, f, env); } else { AcceptedOutcome(c, chunk, s, f, env); }
  }
}
