/**
 The browser's script in place, and the script and the server connected: what the objects themselves
 hold when the sockets have run dry.
 */
module Session {
  import opened Bytes
  import opened Gcm
  import opened DecoderSpec
  import opened Backends
  import opened Commands
  import opened Server
  import opened Device
  import opened Handler
  import T = Transfer

  /** The script's globals, and the frames it has sent. */
  class Script {
    var otaData: seq<Byte>
    var otaSetChunkSize: int
    var otaStarted: bool
    var sent: seq<Frame>

    constructor (file: seq<Byte>)
      ensures otaData == file && !otaStarted && sent == []
    {
      otaData, otaSetChunkSize, otaStarted, sent := file, 0, false, [];
    }

    ghost function Abs(): T.Client
      reads this
    {
      T.Client(otaData, otaSetChunkSize, otaStarted)
    }

    /** The start/cancel button. */
    method Click()
      modifies this
      ensures var (cl, out) := T.Click(old(Abs())); Abs() == cl && sent == old(sent) + out
    {
      hide T.SizeFrame, T.CancelFrame;
      if otaData != [] && !otaStarted {
        sent := sent + [T.SizeFrame(|otaData|)];
        otaStarted := true;
      } else {
        otaStarted := false;
        sent := sent + [T.CancelFrame()];
      }
    }

    /** `receiveWsData`. */
    method ReceiveWsData(obj: Reply)
      modifies this
      ensures var (cl, out) := T.Receive(old(Abs()), obj); Abs() == cl && sent == old(sent) + out
    {
      if obj.name == OTA_SET_CHUNK_SIZE && obj.value.Number? {
        otaSetChunkSize := obj.value.n;
      } else if obj.name == OTA_GET_CHUNK && obj.value.Number? {
        sent := sent + [Binary(T.Subarray(otaData, obj.value.n, obj.value.n + otaSetChunkSize))];
      } else if obj.name in {OTA_END, OTA_ERROR, OTA_CANCEL} {
        otaStarted := false;
      }
    }
  }

  /** The two objects with the messages not delivered yet, as a system of the protocol. */
  ghost function View(script: Script, server: OtaServer, received: nat, ends: nat): T.System
    requires server.Valid()
    reads script, server, server.Parts(), if server.backend.UsesPreEnc? then {server.backend.pre} else {}
  {
    T.System(script.Abs(), server.Abs(), script.sent, server.sent, received, ends)
  }

  /** What the socket delivers is in order; one message to the script. */
  method ToScript(script: Script, server: OtaServer, ghost received: nat, ghost ends: nat)
    requires server.Valid() && script !in server.Parts() && server.sent != []
    modifies script, server`sent
    ensures server.Valid() && server.Parts() == old(server.Parts())
    ensures View(script, server, received, ends) == T.ClientTurn(old(View(script, server, received, ends)))
  {
    hide T.Receive, PreEncBackend.Valid, PreEncBackend.Abs, PlainBackend.Abs;
    var obj := server.sent[0];
    server.sent := server.sent[1..];
    script.ReceiveWsData(obj);
  }

  /** One frame to the server; the two counters are the frames of data delivered and the ends told. */
  method ToServer(script: Script, server: OtaServer, received: nat, ends: nat) returns (received': nat, ends': nat)
    requires server.Valid() && script !in server.Parts() && script.sent != [] && server.sent == []
    requires FrameOk(script.sent[0]) && (script.sent[0].Binary? ==> |script.sent[0].data| <= INT_MAX)
    modifies script`sent, server, server.Parts()
    ensures server.Valid() && fresh(server.Parts() - old(server.Parts()))
    ensures View(script, server, received', ends') ==
              T.ServerTurn(server.crypto, server.chunkSize, old(View(script, server, received, ends)))
  {
    hide Handle, FrameOk, BackendOk, PreEncBackend.Valid, PreEncBackend.Abs, PlainBackend.Abs;
    received', ends' := received, ends;
    var f := script.sent[0];
    script.sent := script.sent[1..];
    server.OtaWsHandler(f, FINE);
    if f.Binary? { received' := received + 1; }
    if server.sent != [] && server.sent[0].name == OTA_END { ends' := ends + 1; }
  }

  /** Which turn is due and what it leads to. */
  lemma TurnDue(c: Crypto, chunk: nat, y: T.System, boots: seq<Boot>, p: T.Phase)
    requires T.InPhase(c, chunk, y, boots, p)
    ensures chunk > 0
    ensures y.toClient != [] ==> T.Closer(c, chunk, y, boots, p, T.ClientTurn(y))
    ensures y.toServer != [] ==>
              && y.toClient == [] && FrameOk(y.toServer[0]) && BackendOk(c, y.server.backend)
              && (y.toServer[0].Binary? ==> |y.toServer[0].data| <= INT_MAX)
              && T.Closer(c, chunk, y, boots, p, T.ServerTurn(c, chunk, y))
    ensures y.toClient == [] && y.toServer == [] ==> p == T.Over
  {
    hide T.InPhase, T.Closer, T.ServerTurn, T.ClientTurn, BackendOk, FrameOk;
    T.Channels(c, chunk, y, boots, p);
    if y.toServer != [] {
      T.ServerCloser(c, chunk, y, boots, p);
    } else if y.toClient != [] {
      T.ClientCloser(c, chunk, y, boots, p);
    }
  }

  lemma WhenOver(c: Crypto, chunk: nat, y: T.System, boots: seq<Boot>, b: Backend)
    requires T.InPhase(c, chunk, y, boots, T.Over) && b.PreEnc? == y.server.backend.PreEnc?
    ensures chunk > 0 && !y.client.started && y.ends == 1 && y.received == T.Ceil(|y.client.file|, chunk)
    ensures Idle(y.server) && (b.PreEnc? ==> WellFormed(c, y.client.file))
    ensures var payload := Payload(c, b, y.client.file);
            y.server.backend.contents == payload && y.server.backend.boots == boots + [Boot(y.client.file, payload)]
  {
    hide WellFormed, T.Ceil;
    T.PayloadSame(c, b, y.server.backend, y.client.file);
  }

  /** A session from the click to the end: deliver what is waiting, in order, until nothing is. */
  method Run(script: Script, server: OtaServer) returns (received: nat, ends: nat)
    requires server.Valid() && script !in server.Parts() && script.sent == [] && server.sent == []
    requires Idle(server.Abs()) && !script.otaStarted
    requires T.Suitable(server.crypto, server.Back(), script.otaData, server.chunkSize)
    modifies script, server, server.Parts()
    ensures server.Valid() && fresh(server.Parts() - old(server.Parts()))
    ensures script.sent == [] && server.sent == [] && !script.otaStarted && script.otaData == old(script.otaData)
    ensures server.otaSize == server.otaStartChunk == server.otaStarted == 0
    ensures server.chunkSize > 0 && received == T.Ceil(|script.otaData|, server.chunkSize) && ends == 1
    ensures server.Back().PreEnc? ==> WellFormed(server.crypto, script.otaData)
    ensures var payload := Payload(server.crypto, server.Back(), script.otaData);
            && server.Back().contents == payload
            && server.Back().boots == old(server.Back()).boots + [Boot(script.otaData, payload)]
  {
    hide T.InPhase, T.Initial, T.Suitable, T.Left, T.Following, T.Ceil, T.ServerTurn, T.ClientTurn, T.SizeFrame,
         T.CancelFrame, BackendOk, FrameOk, WellFormed, Payload, PreEncBackend.Valid, PreEncBackend.Abs,
         PlainBackend.Abs;
    ghost var c, chunk, boots, file := server.crypto, server.chunkSize, server.Back().boots, script.otaData;
    received, ends := 0, 0;
    ghost var p := T.Announced;
    ghost var y := View(script, server, 0, 0);
    T.ClickStarts(c, chunk, y);
    script.Click();
    assert [] + T.Click(y.client).1 == T.Click(y.client).1;
    T.StartsInPhase(c, chunk, View(script, server, 0, 0));
    while script.sent != [] || server.sent != []
      invariant server.Valid() && script !in server.Parts() && fresh(server.Parts() - old(server.Parts()))
      invariant script.otaData == file && chunk > 0
      invariant T.InPhase(c, chunk, View(script, server, received, ends), boots, p)
      decreases T.Left(file, chunk, p)
    {
      TurnDue(c, chunk, View(script, server, received, ends), boots, p);
      if server.sent != [] {
        ToScript(script, server, received, ends);
      } else {
        received, ends := ToServer(script, server, received, ends);
      }
      p := T.Following(file, chunk, p);
    }
    TurnDue(c, chunk, View(script, server, received, ends), boots, p);
    WhenOver(c, chunk, View(script, server, received, ends), boots, server.Back());
  }
}
