/**
 The socket handler in place: its static variables, updated frame by frame, proved against the step
 function.
 */
module Handler {
  import opened Bytes
  import opened Gcm
  import opened Backends
  import opened Commands
  import opened Server
  import opened Device

  /** The backend chosen at build time. */
  datatype Chosen = UsesPlain(plain: PlainBackend) | UsesPreEnc(pre: PreEncBackend)

  class OtaServer {
    const crypto: Crypto
    const chunkSize: nat
    const backend: Chosen
    var otaSize: int
    var otaStartChunk: int
    var otaStarted: int
    var sent: seq<Reply>

    /** The objects of the backend. */
    ghost function Parts(): set<object>
      reads if backend.UsesPreEnc? then {backend.pre} else {}
    {
      match backend
      case UsesPlain(p) => {p}
      case UsesPreEnc(e) => e.Repr
    }

    ghost predicate Valid()
      reads Parts(), if backend.UsesPreEnc? then {backend.pre} else {}
    {
      match backend
      case UsesPlain(p) => p.Valid()
      case UsesPreEnc(e) => e.crypto == crypto && this !in e.Repr && e.Valid()
    }

    ghost function Back(): (b: Backend)
      requires Valid()
      reads Parts(), if backend.UsesPreEnc? then {backend.pre} else {}
      ensures BackendOk(crypto, b)
    {
      match backend
      case UsesPlain(p) => p.Abs()
      case UsesPreEnc(e) => e.Abs()
    }

    ghost function Abs(): (s: ServerState)
      requires Valid()
      reads this, Parts(), if backend.UsesPreEnc? then {backend.pre} else {}
      ensures BackendOk(crypto, s.backend)
    {
      ServerState(otaSize, otaStartChunk, otaStarted != 0, Back())
    }

    constructor (crypto: Crypto, chunkSize: nat, backend: Chosen)
      requires if backend.UsesPlain? then backend.plain.Valid() else backend.pre.Valid() && backend.pre.crypto == crypto
      ensures Valid() && this.crypto == crypto && this.chunkSize == chunkSize && this.backend == backend
      ensures Abs() == ServerState(0, 0, false, if backend.UsesPlain? then backend.plain.Abs() else backend.pre.Abs())
      ensures sent == []
    {
      this.crypto, this.chunkSize, this.backend := crypto, chunkSize, backend;
      otaSize, otaStartChunk, otaStarted, sent := 0, 0, 0, [];
    }

    // ---------- the backend, whichever it is ----------

    method StartOtaWs(env: Env) returns (ok: bool)
      requires Valid()
      modifies Parts()
      ensures Valid() && fresh(Parts() - old(Parts()))
      ensures (Back(), ok) == Start(old(Back()), env)
    {
      match backend
      case UsesPlain(p) => ok := p.Start(env);
      case UsesPreEnc(e) => ok := e.Start(env);
    }

    method WriteOtaWs(data: seq<Byte>, env: Env) returns (ok: bool)
      requires Valid() && |data| <= INT_MAX
      modifies Parts()
      ensures Valid() && fresh(Parts() - old(Parts()))
      ensures (Back(), ok) == Write(crypto, old(Back()), data, env)
    {
      match backend
      case UsesPlain(p) => ok := p.Write(crypto, data, env);
      case UsesPreEnc(e) => ok := e.Write(data, env);
    }

    method EndOtaWs(env: Env) returns (ok: bool)
      requires Valid()
      modifies Parts()
      ensures Valid() && fresh(Parts() - old(Parts()))
      ensures (Back(), ok) == Finish(crypto, old(Back()), env)
    {
      match backend
      case UsesPlain(p) => ok := p.End(crypto, env);
      case UsesPreEnc(e) => ok := e.End(env);
    }

    method AbortOtaWs()
      requires Valid()
      modifies Parts()
      ensures Valid() && fresh(Parts() - old(Parts()))
      ensures Back() == Abort(old(Back()))
    {
      match backend
      case UsesPlain(_) =>
      case UsesPreEnc(e) => e.Abort();
    }

    // ---------- the handler ----------

    method Send(r: Reply)
      modifies `sent
      ensures sent == old(sent) + [r]
    {
      sent := sent + [r];
    }

    /** `ota_error`. */
    method OtaError(code: string, msg: string)
      requires Valid()
      modifies this, Parts()
      ensures Valid() && fresh(Parts() - old(Parts()))
      ensures var (s, out) := Server.OtaError(old(Abs()), code, msg); Abs() == s && sent == old(sent) + out
    {
      hide BackendOk, Abort, PreEncBackend.Valid, PreEncBackend.Abs, PlainBackend.Abs;
      otaSize, otaStartChunk, otaStarted := 0, 0, 0;
      AbortOtaWs();
      Send(Reply(code, Words(msg)));
    }

    /** `esp_restart`, seen in the static variables. */
    method EspRestart()
      requires Valid()
      modifies this, Parts()
      ensures Valid() && fresh(Parts() - old(Parts()))
      ensures Abs() == Restarted(old(Abs())) && sent == old(sent)
    {
      otaSize, otaStartChunk, otaStarted := 0, 0, 0;
      match backend
      case UsesPlain(p) => p.Reset();
      case UsesPreEnc(e) => e.Reset();
    }

    /** The command that announces a size. */
    method StartCommand(value: string, env: Env)
      requires Valid()
      modifies this, Parts()
      ensures Valid() && fresh(Parts() - old(Parts()))
      ensures var (s, out) := HandleStart(old(Abs()), value, chunkSize, env); Abs() == s && sent == old(sent) + out
    {
      hide BackendOk, Start, Abort, Atoi, PreEncBackend.Valid, PreEncBackend.Abs, PlainBackend.Abs;
      otaSize := Atoi(value);
      if otaSize == 0 {
        OtaError(OTA_ERROR, "Error ota size = 0");
        return;
      }
      var ok := StartOtaWs(env);
      if !ok {
        OtaError(OTA_ERROR, "Error start ota");
        return;
      }
      otaStarted := 1;
      otaStartChunk := 0;
      SendFirstRequest();
    }

    /** The chunk size to use, and the first request. */
    method SendFirstRequest()
      modifies `sent
      ensures sent == old(sent) + [Reply(OTA_SET_CHUNK_SIZE, Number(chunkSize)),
                                   Reply(OTA_GET_CHUNK, Number(otaStartChunk))]
    {
      Send(Reply(OTA_SET_CHUNK_SIZE, Number(chunkSize)));
      Send(Reply(OTA_GET_CHUNK, Number(otaStartChunk)));
    }

    /** The commands, compared one after the other. */
    method Command(name: string, value: string, env: Env)
      requires Valid()
      modifies this, Parts()
      ensures Valid() && fresh(Parts() - old(Parts()))
      ensures var (s, out) := HandleCommand(old(Abs()), name, value, chunkSize, env);
              Abs() == s && sent == old(sent) + out
    {
      hide BackendOk, HandleStart, Server.OtaError, Restarted;
      NamesDiffer();
      if name == OTA_SIZE_START { StartCommand(value, env); }
      if name == OTA_CANCEL { OtaError(OTA_CANCEL, "Cancel command"); return; }
      if name == OTA_ERROR { OtaError(OTA_ERROR, "Error command"); return; }
      if name == OTA_PROCESS_ROLLBACK { return; }
      if name == OTA_RESTART_ESP { EspRestart(); }
    }

    /** A chunk of the image. */
    method BinaryFrame(data: seq<Byte>, env: Env)
      requires Valid() && |data| <= INT_MAX && otaStarted != 0
      modifies this, Parts()
      ensures Valid() && fresh(Parts() - old(Parts()))
      ensures var (s, out) := HandleBinary(crypto, old(Abs()), data, env); Abs() == s && sent == old(sent) + out
    {
      hide BackendOk, Write, Finish, Abort, Server.OtaError, U32, I32, PreEncBackend.Valid, PreEncBackend.Abs,
           PlainBackend.Abs;
      if U32(otaStartChunk + |data|) < U32(otaSize) {
        var ok := WriteOtaWs(data, env);
        if !ok {
          OtaError(OTA_ERROR, "Error write ota");
          return;
        }
        otaStartChunk := I32(otaStartChunk + |data|);
        Send(Reply(OTA_GET_CHUNK, Number(otaStartChunk)));
      } else {
        var ok := WriteOtaWs(data, env);
        if !ok {
          OtaError(OTA_ERROR, "Error write ota");
          return;
        }
        ok := EndOtaWs(env);
        if !ok {
          OtaError(OTA_ERROR, "Error end ota");
          return;
        }
        otaSize := 0;
        otaStartChunk := 0;
        otaStarted := 0;
        Send(Reply(OTA_END, Words("OK")));
      }
    }

    /** `ota_ws_handler`, after the handshake. */
    method OtaWsHandler(f: Frame, env: Env)
      requires Valid() && FrameOk(f) && (f.Binary? ==> |f.data| <= INT_MAX)
      modifies this, Parts()
      ensures Valid() && fresh(Parts() - old(Parts()))
      ensures var (s, out) := Handle(crypto, chunkSize, old(Abs()), f, env); Abs() == s && sent == old(sent) + out
    {
      hide BackendOk, HandleCommand, HandleBinary, Server.OtaError, Defined, FieldsOf, Parsed, Span, CStr,
           PreEncBackend.Valid, PreEncBackend.Abs, PlainBackend.Abs;
      match f
      case Lost(message) => OtaError(OTA_ERROR, message);
      case Text(buf) =>
        var jsonKey, jsonValue := new char[FIELD](_ => '\0'), new char[FIELD](_ => '\0');
        var ok := JsonToStrParm(buf, jsonKey, jsonValue);
        if !ok {
          OtaError(OTA_ERROR, "Error json str");
          return;
        }
        Command(CStr(jsonKey[..]), CStr(jsonValue[..]), env);
      case Binary(buf) => if otaStarted != 0 { BinaryFrame(buf, env); }
      case Other =>
    }
  }
}
