/**
 The two backends in place: their static variables, the decoder handle and the argument record, each
 operation proved against its function on values.
 */
module Device {
  import opened Bytes
  import opened Gcm
  import opened DecoderSpec
  import opened Backends
  import opened Image
  import D = Decoder

  /** ota_ws_update_esp.c. What the platform holds for it (the partition, the boot history) is ghost. */
  class PlainBackend {
    var imageHeaderWasChecked: bool
    ghost var contents: seq<Byte>
    ghost var stream: seq<Byte>
    ghost var boots: seq<Boot>

    ghost function Abs(): (b: Backend)
      reads this
      ensures b.Plain?
    {
      Plain(imageHeaderWasChecked, contents, stream, boots)
    }

    ghost predicate Valid()
      reads this
    {
      contents == stream
    }

    constructor ()
      ensures Valid() && Abs() == Plain(false, [], [], [])
    {
      imageHeaderWasChecked := false;
      contents, stream, boots := [], [], [];
    }

    /** `start_ota_ws`. */
    method Start(env: Env) returns (ok: bool)
      requires Valid()
      modifies this
      ensures Valid() && (Abs(), ok) == Backends.Start(old(Abs()), env)
    {
      if !env.partitions { return false; }
      if !env.begin { return false; }
      contents, stream := [], [];
      imageHeaderWasChecked := false;
      return true;
    }

    /** `write_ota_ws`. */
    method Write(ghost c: Crypto, data: seq<Byte>, env: Env) returns (ok: bool)
      requires Valid()
      modifies this
      ensures Valid() && (Abs(), ok) == Backends.Write(c, old(Abs()), data, env)
    {
      if !imageHeaderWasChecked {
        if |data| > APP_HEADER {
          imageHeaderWasChecked := true;
        } else {
          return false;
        }
      }
      if !env.write { return false; }
      contents, stream := contents + data, stream + data;
      return true;
    }

    /** `end_ota_ws`. */
    method End(ghost c: Crypto, env: Env) returns (ok: bool)
      requires Valid()
      modifies this
      ensures Valid() && (Abs(), ok) == Finish(c, old(Abs()), env)
    {
      if !env.end { return false; }
      if !env.setBoot { return false; }
      boots := boots + [Boot(stream, contents)];
      return true;
    }

    /** The static variables after a reboot. */
    method Reset()
      requires Valid()
      modifies this
      ensures Valid() && Abs() == old(Abs()).(checked := false)
    {
      imageHeaderWasChecked := false;
    }
  }

  /** What a call on the decoder of a session yields. Only in the header, and when an empty payload
      leaves nothing to resize the buffer to, is the buffer not the call's own; then it is empty. */
  lemma CallOutcome(c: Crypto, b: Backend, data: seq<Byte>)
    requires BackendOk(c, b) && b.PreEnc? && b.handle.Some? && data != []
    ensures Sound(c, b.handle.value) && b.handle.value.Live?
    ensures var s := b.handle.value; var s' := Advance(c, s, data); var err := Verdict(c, s, data);
            && (err == EspFail <==> s'.Dead?) && err != InvalidArg
            && (s'.Live? && (!InDecode(s') || err == NoMem) ==> Emitted(c, s, data) == [] && b.outLen == 0)
            && (err == NoMem ==> InDecode(s'))
  {
    hide HeaderOk, Declared, Settled;
    if b.checked { assert |b.handle.value.received + data| > |b.handle.value.received|; }
  }

  lemma WriteCases(c: Crypto, b: Backend, data: seq<Byte>, env: Env)
    requires BackendOk(c, b) && b.PreEnc?
    ensures BackendOk(c, Backends.Write(c, b, data, env).0)
    ensures b.handle.Some? ==> Sound(c, b.handle.value)
    ensures Backends.Write(c, b, data, env) ==
              if b.handle.None? || data == [] || Advance(c, b.handle.value, data).Dead? then (Backends.Abort(b), false)
              else
                var s, out := b.handle.value, Emitted(c, b.handle.value, data);
                var (d, ok) := Store(b.(handle := Some(Advance(c, s, data)), outLen := |out|), data, out, env);
                (if ok then d else Backends.Abort(d), ok)
  {
    hide Advance, Emitted, Store;
    WriteOk(c, b, data, env);
  }

  lemma AnswerMeans(h: D.Handle, args: D.Args, s: Session, data: seq<Byte>, err: EspErr)
    requires h.Answered(args, s, data, err) && Sound(h.crypto, s) && s.Live?
    ensures h.Abs() == Advance(h.crypto, s, data) && err == Verdict(h.crypto, s, data)
    ensures InDecode(h.Abs()) && err != NoMem ==>
              args.Holds(Emitted(h.crypto, s, data)) && args.dataOutLen == |Emitted(h.crypto, s, data)|
    ensures args.dataOutLen == 0 ==> args.Holds([])
  {
  }

  /** ota_ws_update_esp_preencrypted.c. `encArg` is the static argument record; the decoder handle is
      a new object for every session. */
  class PreEncBackend {
    const crypto: Crypto
    var imageHeaderWasChecked: bool
    var encHandle: D.Handle?
    const encArg: D.Args
    ghost var contents: seq<Byte>
    ghost var stream: seq<Byte>
    ghost var boots: seq<Boot>
    ghost var Repr: set<object>

    ghost function Abs(): (b: Backend)
      reads this, encArg, encHandle
      ensures b.PreEnc?
    {
      PreEnc(imageHeaderWasChecked, contents, stream, boots,
             if encHandle == null then None else Some(encHandle.Abs()), encArg.dataOutLen)
    }

    /** The session's objects are apart from each other and from everything else. */
    ghost predicate Wired()
      reads this, Repr
    {
      && this in Repr && encArg in Repr
      && (encArg.dataOut != null ==> encArg.dataOut in Repr)
      && (encHandle != null ==>
            && encHandle in Repr
            && {encHandle.iv, encHandle.authTag, encHandle.cacheBuf} <= Repr
            && encHandle.crypto == crypto && encHandle.Valid()
            && encArg.dataOut !in {encHandle.iv, encHandle.authTag, encHandle.cacheBuf})
    }

    ghost predicate Valid()
      reads this, Repr
    {
      Wired() && BackendOk(crypto, Abs())
    }

    constructor (crypto: Crypto)
      ensures Valid() && fresh(Repr) && this.crypto == crypto && Abs() == PreEnc(false, [], [], [], None, 0)
    {
      this.crypto := crypto;
      imageHeaderWasChecked, encHandle := false, null;
      var arg := new D.Args();
      encArg := arg;
      contents, stream, boots := [], [], [];
      Repr := {this, arg};
    }

    /** `abort_ota_ws`: what is released is out of reach afterwards. */
    method Abort()
      requires Wired()
      modifies this, encArg
      ensures Valid() && Repr == old(Repr) && Abs() == Backends.Abort(old(Abs()))
    {
      encHandle := null;
      encArg.dataIn, encArg.dataOut, encArg.dataOutLen := None, null, 0;
    }

    /** `start_ota_ws`. */
    method Start(env: Env) returns (ok: bool)
      requires Valid()
      modifies this, encArg
      ensures Valid() && fresh(Repr - old(Repr))
      ensures (Abs(), ok) == Backends.Start(old(Abs()), env)
    {
      if !env.partitions { return false; }
      if !env.begin { return false; }
      contents, stream := [], [];
      imageHeaderWasChecked := false;
      encHandle := null;
      if !env.decryptStart {
        Abort();
        return false;
      }
      Open();
      return true;
    }

    /** The decoder of a new session, and cleared arguments for it. */
    method Open()
      requires Wired() && !imageHeaderWasChecked && contents == stream == []
      modifies this, encArg
      ensures Valid() && fresh(Repr - old(Repr))
      ensures Abs() == PreEnc(false, [], [], old(boots), Some(FRESH), 0)
    {
      hide Settled, D.Handle.Valid;
      encHandle := new D.Handle(crypto);
      Repr := Repr + {encHandle, encHandle.iv, encHandle.authTag, encHandle.cacheBuf};
      encArg.dataIn, encArg.dataOut, encArg.dataOutLen := None, null, 0;
    }

    /** `write_ota_ws`. */
    method Write(data: seq<Byte>, env: Env) returns (ok: bool)
      requires Valid() && |data| < 0x8000_0000
      modifies Repr
      ensures Valid() && fresh(Repr - old(Repr))
      ensures (Abs(), ok) == Backends.Write(crypto, old(Abs()), data, env)
    {
      hide Advance, Emitted, BackendOk, Store, Backends.Write, D.Handle.Valid, D.Args.Holds;
      ghost var b := Abs();
      encArg.dataIn := if data == [] then None else Some(data);
      WriteCases(crypto, b, data, env);
      var ret := Decrypt(data);
      if ret == EspFail || ret == InvalidArg {
        Abort();
        return false;
      }
      ok := Keep(data, Emitted(crypto, b.handle.value, data), env);
    }

    /** The check of the application's headers, once, and the write to the partition. */
    method Keep(data: seq<Byte>, ghost out: seq<Byte>, env: Env) returns (ok: bool)
      requires Wired() && encArg.Holds(out)
      modifies this, encArg
      ensures Wired() && Repr == old(Repr)
      ensures var (b, stored) := Store(old(Abs()), data, out, env);
              (Abs(), ok) == (if stored then b else Backends.Abort(b), stored)
    {
      hide BackendOk, D.Handle.Valid;
      var dataRead := encArg.dataOutLen;
      if !imageHeaderWasChecked {
        if dataRead > APP_HEADER {
          imageHeaderWasChecked := true;
        } else {
          Abort();
          return false;
        }
      }
      if !env.write {
        Abort();
        return false;
      }
      assert out != [] ==> encArg.dataOut[..dataRead] == out;
      contents := contents + (if dataRead == 0 then [] else encArg.dataOut[..dataRead]);
      stream := stream + data;
      return true;
    }

    /** The call of `esp_encrypted_img_decrypt_data`, which refuses a NULL handle or no data. */
    method Decrypt(data: seq<Byte>) returns (ret: EspErr)
      requires Valid() && |data| < 0x8000_0000
      requires encArg.dataIn == if data == [] then None else Some(data)
      modifies Repr
      ensures Wired() && fresh(Repr - old(Repr))
      ensures imageHeaderWasChecked == old(imageHeaderWasChecked)
      ensures contents == old(contents) && stream == old(stream) && boots == old(boots)
      ensures encHandle == old(encHandle)
      ensures ret in {EspFail, InvalidArg} <==>
                encHandle == null || data == [] || Advance(crypto, old(encHandle.Abs()), data).Dead?
      ensures ret !in {EspFail, InvalidArg} ==>
                var s := old(encHandle.Abs());
                && encHandle.Abs() == Advance(crypto, s, data)
                && encArg.Holds(Emitted(crypto, s, data)) && encArg.dataOutLen == |Emitted(crypto, s, data)|
    {
      hide Settled, Advance, Verdict, Emitted, BackendOk, D.Handle.Valid, D.Handle.Answered, Sound, D.Args.Holds;
      if encHandle == null { return InvalidArg; }
      ghost var b, s := Abs(), encHandle.Abs();
      if data != [] { CallOutcome(crypto, b, data); }
      ret := encHandle.DecryptData(encArg);
      Repr := Repr + {encHandle.cacheBuf} + (if encArg.dataOut == null then {} else {encArg.dataOut});
      if data != [] { AnswerMeans(encHandle, encArg, s, data, ret); }
    }

    /** `end_ota_ws`. */
    method End(env: Env) returns (ok: bool)
      requires Valid()
      modifies this, encArg
      ensures Valid() && Repr == old(Repr)
      ensures (Abs(), ok) == Finish(crypto, old(Abs()), env)
    {
      hide BackendOk, D.Handle.Valid;
      FinishOk(crypto, Abs(), env);
      if encHandle == null {
        Abort();
        return false;
      }
      var ret := encHandle.End();
      if ret != EspOk {
        Abort();
        return false;
      }
      if !env.end {
        Abort();
        return false;
      }
      if !env.setBoot {
        Abort();
        return false;
      }
      boots := boots + [Boot(stream, contents)];
      return true;
    }

    /** The static variables after a reboot. */
    method Reset()
      requires Valid()
      modifies this, encArg
      ensures Valid() && Repr == old(Repr) && Abs() == old(Abs()).(checked := false, handle := None, outLen := 0)
    {
      Abort();
      imageHeaderWasChecked := false;
    }
  }
}
