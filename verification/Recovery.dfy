/**
 The update protocol when the platform's calls fail: every run of the two parties ends, and leaves both
 ready for the next click.
 */
module Recovery {
  import opened Bytes
  import opened Gcm
  import opened DecoderSpec
  import opened Backends
  import opened Commands
  import opened Server
  import opened Outcomes
  import opened Transfer

  /** A turn of either party, the platform's calls going one way or the other. */
  ghost predicate EnvNext(c: Crypto, chunk: nat, y: System, z: System) {
    || (y.toClient != [] && z == ClientTurn(y))
    || (y.toServer != [] && BackendOk(c, y.server.backend) && exists env :: z == EnvTurn(c, chunk, y, env))
  }

  /** Just after the click, with any file of a size the handler can count. */
  ghost predicate Clicked(c: Crypto, chunk: nat, y: System) {
    && 0 < |y.client.file| <= INT_MAX && chunk > 0 && BackendOk(c, y.server.backend)
    && Idle(y.server) && y.client.started && y.toClient == [] && y.received == y.ends == 0
    && y.toServer == [SizeFrame(|y.client.file|)]
  }

  ghost predicate IsEnvRun(c: Crypto, chunk: nat, ys: seq<System>) {
    ys != [] && Clicked(c, chunk, ys[0]) && forall i :: 0 < i < |ys| ==> EnvNext(c, chunk, ys[i - 1], ys[i])
  }

  /** What is on the wires, and where the two parties are. */
  datatype Stage = On(phase: Phase) | Refused

  /** The server has accepted everything before `k`, and waits for the chunk there. */
  predicate Waits(y: System, k: nat) {
    var s, file := y.server, y.client.file;
    && s.started && s.start == k < |file| && s.size == |file| && s.backend.stream == file[..k]
    && y.client.started && y.ends == 0
  }

  /** Nothing under way. */
  predicate AtRest(y: System) {
    Idle(y.server) && !y.client.started && y.toServer == [] && y.toClient == []
  }

  predicate OnStage(chunk: nat, y: System, g: Stage) {
    match g
    case On(Announced) =>
      && Idle(y.server) && y.client.started && y.ends == 0
      && y.toServer == [SizeFrame(|y.client.file|)] && y.toClient == []
    case On(Granted) =>
      && Waits(y, 0) && y.toServer == []
      && y.toClient == [Reply(OTA_SET_CHUNK_SIZE, Number(chunk)), Reply(OTA_GET_CHUNK, Number(0))]
    case On(Requested(k)) =>
      Waits(y, k) && y.client.chunkSize == chunk && y.toServer == [] && y.toClient == [Reply(OTA_GET_CHUNK, Number(k))]
    case On(Delivered(k)) =>
      && Waits(y, k) && y.client.chunkSize == chunk
      && y.toServer == [Binary(SliceAt(y.client.file, k, chunk))] && y.toClient == []
    case On(Completing) => Idle(y.server) && y.toServer == [] && y.toClient == [Reply(OTA_END, Words("OK"))]
    case On(Over) => AtRest(y)
    case Refused =>
      && Idle(y.server) && y.ends == 0 && y.toServer == []
      && |y.toClient| == 1 && y.toClient[0].name in {OTA_ERROR, OTA_CANCEL}
  }

  /** What was made bootable since: nothing, or, as announced, the file. */
  ghost predicate BootsTold(y: System, boots: seq<Boot>) {
    var b := y.server.backend;
    y.ends <= 1 && b.boots == boots + if y.ends == 1 then [Boot(y.client.file, b.contents)] else []
  }

  ghost predicate InStage(c: Crypto, chunk: nat, y: System, boots: seq<Boot>, g: Stage) {
    && 0 < |y.client.file| <= INT_MAX && chunk > 0 && BackendOk(c, y.server.backend)
    && OnStage(chunk, y, g) && BootsTold(y, boots)
  }

  function TurnsLeft(file: seq<Byte>, chunk: nat, g: Stage): nat
    requires chunk > 0
  {
    match g
    case On(p) => Left(file, chunk, p)
    case Refused => 1
  }

  /** `z` is on stage `h`, closer to the end, with the same file and build. */
  ghost predicate Moves(c: Crypto, chunk: nat, y: System, boots: seq<Boot>, g: Stage, z: System, h: Stage) {
    && chunk > 0 && InStage(c, chunk, z, boots, h)
    && z.client.file == y.client.file && z.server.backend.PreEnc? == y.server.backend.PreEnc?
    && TurnsLeft(y.client.file, chunk, h) < TurnsLeft(y.client.file, chunk, g)
  }

  lemma SizeNamed(n: nat, env: Env)
    requires n <= INT_MAX
    ensures Names(SizeFrame(n), env, OTA_SIZE_START) && Atoi(Fields(SizeFrame(n).payload, env).value) == n
  {
    hide Stringify, Defined, FieldsOf, CStr, Decimal, Atoi, NumberValue;
    AnnouncementOk(n);
  }

  /** A refused frame, whichever it was. */
  lemma EnvRefused(c: Crypto, chunk: nat, y: System, boots: seq<Boot>, g: Stage, env: Env)
    requires InStage(c, chunk, y, boots, g) && y.ends == 0
    requires y.toServer != [] && y.toServer[1..] == [] && y.toClient == []
    requires Refusal(c, y.server, y.toServer[0], env).Some? && TurnsLeft(y.client.file, chunk, g) > 1
    ensures Moves(c, chunk, y, boots, g, EnvTurn(c, chunk, y, env), Refused)
  {
    hide Handle, Refusal, BackendOk, Left, Names, SizeFrame, SliceAt;
    RefusedIff(c, chunk, y.server, y.toServer[0], env);
    StepOk(c, chunk, y.server, y.toServer[0], env);
    NamesDiffer();
  }

  lemma EnvAnnounced(c: Crypto, chunk: nat, y: System, boots: seq<Boot>, env: Env) returns (h: Stage)
    requires InStage(c, chunk, y, boots, On(Announced))
    ensures Moves(c, chunk, y, boots, On(Announced), EnvTurn(c, chunk, y, env), h)
  {
    hide Handle, Refusal, Fields, Atoi, SizeFrame, BackendOk, Ceil, Names;
    var f := y.toServer[0];
    SizeNamed(|y.client.file|, env);
    if Refusal(c, y.server, f, env).Some? {
      h := Refused;
      EnvRefused(c, chunk, y, boots, On(Announced), env);
    } else {
      h := On(Granted);
      AcceptedOutcome(c, chunk, y.server, f, env);
      StepOk(c, chunk, y.server, f, env);
      NamesDiffer();
    }
  }

  lemma IntIs(k: int, n: nat)
    requires AsInt(k, n) && n <= INT_MAX
    ensures k == n
  {
  }

  lemma NotTheLast(file: seq<Byte>, chunk: nat, k: nat)
    requires k < |file| && chunk > 0
    ensures Left(file, chunk, Delivered(k)) > 1
  {
    CeilPositive(|file| - k, chunk);
  }

  /** A chunk that is not refused. */
  lemma ChunkTaken(c: Crypto, chunk: nat, y: System, boots: seq<Boot>, k: nat, env: Env)
    requires InStage(c, chunk, y, boots, On(Delivered(k))) && Refusal(c, y.server, y.toServer[0], env).None?
    ensures var file, b := y.client.file, y.server.backend;
            var (t, out) := Handle(c, chunk, y.server, y.toServer[0], env);
            if k + chunk < |file| then
              && t.started && t.start == k + chunk && t.size == |file| && t.backend.stream == file[..k + chunk]
              && t.backend.boots == b.boots && out == [Reply(OTA_GET_CHUNK, Number(k + chunk))]
            else
              && Idle(t) && t.backend.boots == b.boots + [Boot(file, t.backend.contents)]
              && out == [Reply(OTA_END, Words("OK"))]
  {
    hide Handle, Refusal, BackendOk, Fits, Fields, SliceAt, AsInt, BootsTold;
    var f, file := y.toServer[0], y.client.file;
    SliceIsSubarray(file, k, chunk);
    JoinSlices(file, k, k + |f.data|);
    NoWrap(k + |f.data|);
    NoWrap(|file|);
    AcceptedOutcome(c, chunk, y.server, f, env);
    if k + chunk < |file| {
      IntIs(Handle(c, chunk, y.server, f, env).0.start, k + chunk);
    } else {
      assert file[..|file|] == file;
    }
  }

  lemma EnvDelivered(c: Crypto, chunk: nat, y: System, boots: seq<Boot>, k: nat, env: Env) returns (h: Stage)
    requires InStage(c, chunk, y, boots, On(Delivered(k)))
    ensures Moves(c, chunk, y, boots, On(Delivered(k)), EnvTurn(c, chunk, y, env), h)
  {
    hide Handle, Refusal, BackendOk, SliceAt, Left;
    var f, file := y.toServer[0], y.client.file;
    LeftDrops(file, chunk, Delivered(k));
    NotTheLast(file, chunk, k);
    if Refusal(c, y.server, f, env).Some? {
      h := Refused;
      EnvRefused(c, chunk, y, boots, On(Delivered(k)), env);
    } else {
      h := On(Following(file, chunk, Delivered(k)));
      ChunkTaken(c, chunk, y, boots, k, env);
      StepOk(c, chunk, y.server, f, env);
      NamesDiffer();
    }
  }

  lemma EnvClient(c: Crypto, chunk: nat, y: System, boots: seq<Boot>, g: Stage) returns (h: Stage)
    requires InStage(c, chunk, y, boots, g) && y.toClient != []
    ensures Moves(c, chunk, y, boots, g, ClientTurn(y), h)
    ensures g == Refused ==> h == On(Over)
  {
    hide BackendOk, SliceAt, SizeFrame, Subarray, Ceil;
    NamesDiffer();
    match g
    case On(Granted) =>
      h := On(Requested(0));
      assert y.toClient[1..] == [Reply(OTA_GET_CHUNK, Number(0))];
    case On(Requested(k)) =>
      h := On(Delivered(k));
      SliceIsSubarray(y.client.file, k, chunk);
    case On(Completing) => h := On(Over);
    case Refused => h := On(Over);
    case _ => h := g;
  }

  // ---------- every run ----------

  lemma EnvMoves(c: Crypto, chunk: nat, y: System, boots: seq<Boot>, g: Stage, z: System) returns (h: Stage)
    requires InStage(c, chunk, y, boots, g) && EnvNext(c, chunk, y, z)
    ensures Moves(c, chunk, y, boots, g, z, h)
    ensures g == Refused ==> h == On(Over) && z.server == y.server
  {
    hide Moves, InStage, EnvTurn, BackendOk, Receive;
    Wires(c, chunk, y, boots, g);
    if y.toClient != [] {
      h := EnvClient(c, chunk, y, boots, g);
    } else {
      var env :| z == EnvTurn(c, chunk, y, env);
      match g
      case On(Announced) => h := EnvAnnounced(c, chunk, y, boots, env);
      case On(Delivered(k)) => h := EnvDelivered(c, chunk, y, boots, k, env);
      case _ => h := g;
    }
  }

  /** Which channel is empty on which stage. */
  lemma Wires(c: Crypto, chunk: nat, y: System, boots: seq<Boot>, g: Stage)
    requires InStage(c, chunk, y, boots, g)
    ensures chunk > 0 && BackendOk(c, y.server.backend)
    ensures y.toServer != [] <==> g.On? && ServerMoves(g.phase)
    ensures y.toClient != [] <==> g != On(Over) && !(g.On? && ServerMoves(g.phase))
    ensures g == On(Over) ==> AtRest(y)
    ensures Tells(y.toClient) <==> g == Refused
    ensures BootsTold(y, boots) && (g == Refused ==> y.ends == 0)
  {
    hide SizeFrame, SliceAt, BackendOk;
    NamesDiffer();
  }

  lemma {:induction false} RunOnStage(c: Crypto, chunk: nat, ys: seq<System>, i: nat) returns (g: Stage)
    requires IsEnvRun(c, chunk, ys) && i < |ys|
    ensures var y, file := ys[i], ys[0].client.file;
            && InStage(c, chunk, y, ys[0].server.backend.boots, g) && y.client.file == file
            && y.server.backend.PreEnc? == ys[0].server.backend.PreEnc?
            && chunk > 0 && TurnsLeft(file, chunk, g) + i <= Total(file, chunk)
    decreases i
  {
    hide EnvNext, OnStage, BackendOk, Ceil;
    if i == 0 {
      g := On(Announced);
      StartsOnStage(c, chunk, ys[0]);
    } else {
      var f := RunOnStage(c, chunk, ys, i - 1);
      g := EnvMoves(c, chunk, ys[i - 1], ys[0].server.backend.boots, f, ys[i]);
    }
  }

  lemma StartsOnStage(c: Crypto, chunk: nat, y: System)
    requires Clicked(c, chunk, y)
    ensures InStage(c, chunk, y, y.server.backend.boots, On(Announced))
  {
    assert y.server.backend.boots + [] == y.server.backend.boots;
  }

  /** The system after one more click, its counters read afresh. */
  function Reclicked(y: System): System {
    var (cl, out) := Click(y.client);
    System(cl, y.server, out, [], 0, 0)
  }

  /** Recovery. Whatever calls of the platform fail, and whatever the file: every run ends, at the latest
      after the 2 ceil(N/C) + 3 turns of a transfer, and it ends with empty channels, an idle handler and
      a client that is not started; nothing was made bootable, or, if that was announced, the file. The
      next click then begins a session like the first one, and for a suitable file a transfer that
      succeeds when no call fails. */
  lemma Recovers(c: Crypto, chunk: nat, ys: seq<System>)
    requires IsEnvRun(c, chunk, ys)
    ensures chunk > 0 && |ys| <= Total(ys[0].client.file, chunk) + 1
    ensures var y := ys[|ys| - 1];
            && ((exists z :: EnvNext(c, chunk, y, z)) <==> y.toServer != [] || y.toClient != [])
            && (y.toServer == [] && y.toClient == [] ==>
                  && AtRest(y) && y.client.file == ys[0].client.file && BootsTold(y, ys[0].server.backend.boots)
                  && Clicked(c, chunk, Reclicked(y))
                  && (Suitable(c, ys[0].server.backend, y.client.file, chunk) ==> Initial(c, chunk, Reclicked(y))))
  {
    hide InStage, ClientTurn, EnvTurn, SizeFrame, BackendOk, CoversHeader, Acceptable, Total, Left;
    var last := |ys| - 1;
    var g := RunOnStage(c, chunk, ys, last);
    var y := ys[last];
    Wires(c, chunk, y, ys[0].server.backend.boots, g);
    if y.toClient != [] {
      assert EnvNext(c, chunk, y, ClientTurn(y));
    } else if y.toServer != [] {
      assert EnvNext(c, chunk, y, EnvTurn(c, chunk, y, FINE));
    } else {
      Again(c, chunk, ys[0], y);
    }
  }

  lemma Again(c: Crypto, chunk: nat, first: System, y: System)
    requires 0 < |first.client.file| <= INT_MAX && chunk > 0 && y.client.file == first.client.file
    requires BackendOk(c, y.server.backend) && y.server.backend.PreEnc? == first.server.backend.PreEnc? && AtRest(y)
    ensures Clicked(c, chunk, Reclicked(y))
    ensures Suitable(c, first.server.backend, y.client.file, chunk) ==> Initial(c, chunk, Reclicked(y))
  {
    hide SizeFrame, BackendOk;
    if Suitable(c, first.server.backend, y.client.file, chunk) {
      SuitableKept(c, first.server.backend, y.server.backend, y.client.file, chunk);
    }
  }

  lemma NoMore(c: Crypto, chunk: nat, y: System, z: System)
    requires AtRest(y)
    ensures !EnvNext(c, chunk, y, z)
  {
  }

  lemma LastDelivery(c: Crypto, chunk: nat, y: System, boots: seq<Boot>, z: System)
    requires InStage(c, chunk, y, boots, Refused) && EnvNext(c, chunk, y, z)
    ensures AtRest(z) && z.server.backend.boots == boots
  {
    hide EnvNext, BackendOk;
    var h := EnvMoves(c, chunk, y, boots, Refused, z);
  }

  /** Once the client is being told of an error or a cancellation, one turn is left: it delivers that, and
      both are at rest with nothing made bootable. */
  lemma RefusalEnds(c: Crypto, chunk: nat, ys: seq<System>, i: nat)
    requires IsEnvRun(c, chunk, ys) && i < |ys| && Tells(ys[i].toClient)
    ensures |ys| <= i + 2
    ensures |ys| == i + 2 ==>
              var y := ys[i + 1]; AtRest(y) && y.server.backend.boots == ys[0].server.backend.boots
  {
    hide InStage, EnvNext, BackendOk, Total, TurnsLeft, Clicked, AtRest, Tells;
    var g := RunOnStage(c, chunk, ys, i);
    Wires(c, chunk, ys[i], ys[0].server.backend.boots, g);
    if i + 1 < |ys| {
      LastDelivery(c, chunk, ys[i], ys[0].server.backend.boots, ys[i + 1]);
      if i + 2 < |ys| { NoMore(c, chunk, ys[i + 1], ys[i + 2]); }
    }
  }

  /** There are such runs, already when no session can be started. */
  lemma FailingStart(c: Crypto, chunk: nat, y: System, env: Env) returns (ys: seq<System>)
    requires Clicked(c, chunk, y) && !CanStart(y.server.backend, env)
    ensures IsEnvRun(c, chunk, ys) && |ys| == 3 && ys[0] == y && Tells(ys[1].toClient) && AtRest(ys[2])
  {
    hide Handle, InStage, BackendOk, SizeFrame, Fields, Atoi;
    var z := EnvTurn(c, chunk, y, env);
    SizeNamed(|y.client.file|, env);
    RefusedIff(c, chunk, y.server, y.toServer[0], env);
    ys := [y, z, ClientTurn(z)];
    assert EnvNext(c, chunk, y, z) && EnvNext(c, chunk, z, ClientTurn(z));
    RefusalEnds(c, chunk, ys, 1);
  }
}
