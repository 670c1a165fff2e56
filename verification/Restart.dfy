/**
 Cancel and start again: two sessions on the same channels, and when the chunks of one reach the other.
 */
module Restart {
  import opened Bytes
  import opened Gcm
  import opened DecoderSpec
  import opened Backends
  import opened Commands
  import opened Server
  import opened Transfer

  /** The button pressed while frames may be in flight. */
  function ClickTurn(y: System): System {
    var (cl, out) := Click(y.client);
    y.(client := cl, toServer := y.toServer + out)
  }

  lemma CancelIs()
    ensures FrameOk(CancelFrame()) && OTA_CANCEL != OTA_SIZE_START
    ensures FieldsOf(CStr(CancelFrame().payload)) == Pair(OTA_CANCEL, "Cancel")
  {
    hide Stringify, Defined, FieldsOf, CStr, QuotedBody, Written;
    WrittenIff(OTA_CANCEL);
    WrittenIff("Cancel");
    StringDecodes(OTA_CANCEL, "Cancel");
    assert Json.ValueOk(Json.Str(QuotedBody("Cancel")));
    StringifyIsCStr(OTA_CANCEL, Json.Str(QuotedBody("Cancel")));
    assert OTA_CANCEL[3] == 'C' && OTA_SIZE_START[3] == 'S';
  }

  /** What the device reads after a click: the size of the file, if there is one and no session is on, and
      otherwise the cancel command. */
  lemma ClickIs(cl: Client)
    requires |cl.file| <= INT_MAX
    ensures var (d, out) := Click(cl); var starts := |cl.file| > 0 && !cl.started;
            && d == cl.(started := starts) && |out| == 1 && FrameOk(out[0])
            && FieldsOf(CStr(out[0].payload)) ==
                 if starts then Pair(OTA_SIZE_START, Decimal(|cl.file|)) else Pair(OTA_CANCEL, "Cancel")
  {
    hide Stringify, Defined, FieldsOf, CStr, QuotedBody, NumberValue, Decimal, Atoi, FrameOk;
    CancelIs();
    AnnouncementOk(|cl.file|);
  }

  lemma CancelHandled(c: Crypto, chunk: nat, s: ServerState)
    requires BackendOk(c, s.backend)
    ensures FrameOk(CancelFrame())
    ensures Handle(c, chunk, s, CancelFrame(), FINE) == OtaError(s, OTA_CANCEL, "Cancel command")
  {
    hide Stringify, Defined, FieldsOf, CStr, OtaError, FrameOk, BackendOk;
    CancelIs();
  }

  lemma SizeHandled(c: Crypto, chunk: nat, s: ServerState, n: nat)
    requires BackendOk(c, s.backend) && 0 < n <= INT_MAX
    ensures FrameOk(SizeFrame(n))
    ensures Handle(c, chunk, s, SizeFrame(n), FINE) ==
              (ServerState(n, 0, true, Start(s.backend, FINE).0),
               [Reply(OTA_SET_CHUNK_SIZE, Number(chunk)), Reply(OTA_GET_CHUNK, Number(0))])
  {
    hide Stringify, Defined, FieldsOf, Atoi, CStr, Decimal, NumberValue;
    AnnouncementOk(n);
  }

  lemma FirstChunkHandled(c: Crypto, chunk: nat, s: ServerState, data: seq<Byte>)
    requires s.started && s.start == 0 && APP_HEADER < |data| < s.size <= INT_MAX
    requires s.backend.Plain? && !s.backend.checked && s.backend.contents == s.backend.stream == []
    ensures var t := Handle(c, chunk, s, Binary(data), FINE).0;
            t.started && t.size == s.size && t.start == |data| && t.backend.contents == data
  {
    NoWrap(|data|);
    NoWrap(s.size);
    assert [] + data == data;
  }

  /** What is on the wires after the two clicks and the answer. */
  lemma StaleFrames(chunk: nat, y: System, k: nat)
    requires y.client.started && y.client.chunkSize == chunk && k < |y.client.file| && chunk > 0
    requires y.toServer == [] && y.toClient == [Reply(OTA_GET_CHUNK, Number(k))]
    ensures ClickTurn(ClickTurn(y)).toClient == y.toClient && ClickTurn(y).client == y.client.(started := false)
    ensures var z, file := ClientTurn(ClickTurn(ClickTurn(y))), y.client.file;
            && z.server == y.server && z.client == y.client
            && z.toServer == [CancelFrame(), SizeFrame(|file|), Binary(SliceAt(file, k, chunk))]
  {
    hide Stringify, QuotedBody, NumberValue, SliceAt, Subarray;
    SliceIsSubarray(y.client.file, k, chunk);
    NamesDiffer();
  }

  /** Two clicks on `y` and four turns, after which the new session has begun with the bytes from `k` on. */
  ghost predicate StaleRun(c: Crypto, chunk: nat, y: System, k: nat, zs: seq<System>) {
    && |zs| == 7 && BeginsWith(zs[6], y.client.file, k, chunk)
    && (forall i :: 2 < i < 7 ==> Next(c, chunk, zs[i - 1], zs[i]))
    && y == zs[0] && ClickTurn(zs[0]) == zs[1] && ClickTurn(zs[1]) == zs[2]
  }

  predicate BeginsWith(z: System, file: seq<Byte>, k: nat, chunk: nat) {
    && k <= |file|
    && var s, stale := z.server, SliceAt(file, k, chunk);
       s.started && s.size == |file| && s.start == |stale| && s.backend.contents == stale
  }

  /** Cancel and start again while a request is in flight: the client, which does not ask whether its
      session is the one the request belongs to, answers it, and the server takes the answer for the
      first chunk of the new session. With the plain backend the partition of the new session then
      begins with the bytes from `k` on. This is why `ClickStarts` asks for empty channels. */
  lemma StaleChunk(c: Crypto, chunk: nat, y: System, boots: seq<Boot>, k: nat) returns (zs: seq<System>)
    requires 0 < k <= |y.client.file| && |SliceAt(y.client.file, k, chunk)| > APP_HEADER
    requires InPhase(c, chunk, y, boots, Requested(k)) && y.server.backend.Plain?
    ensures StaleRun(c, chunk, y, k, zs)
  {
    hide CancelFrame, SizeFrame, SliceAt, Handle, ClickTurn, Suitable, Accepted, Ceil;
    var file, b := y.client.file, y.server.backend;
    SuitableParts(c, b, file, chunk);
    SliceIsSubarray(file, k, chunk);
    StaleFrames(chunk, y, k);
    var y2 := ClickTurn(ClickTurn(y));
    var y3 := ClientTurn(y2);
    CancelHandled(c, chunk, y3.server);
    var y4 := ServerTurn(c, chunk, y3);
    SizeHandled(c, chunk, y4.server, |file|);
    var y5 := ServerTurn(c, chunk, y4);
    FirstChunkHandled(c, chunk, y5.server, SliceAt(file, k, chunk));
    var y6 := ServerTurn(c, chunk, y5);
    assert Next(c, chunk, y2, y3) && Next(c, chunk, y3, y4) && Next(c, chunk, y4, y5) && Next(c, chunk, y5, y6);
    zs := [y, ClickTurn(y), y2, y3, y4, y5, y6];
  }

  // ---------- whose chunk is it ----------

  /** The system with a record of sessions: `session` counts those the server has started; every reply
      carries the session it was sent in, every frame the session of the reply it answers. */
  datatype Tagged = Tagged(y: System, frames: seq<nat>, replies: seq<nat>, session: nat) {
    predicate Valid() {
      |frames| == |y.toServer| && |replies| == |y.toClient|
    }
  }

  function Repeat(tag: nat, n: nat): (r: seq<nat>)
    ensures |r| == n
  {
    seq(n, _ => tag)
  }

  function TaggedClient(t: Tagged): Tagged
    requires t.Valid() && t.y.toClient != []
  {
    var out := Receive(t.y.client, t.y.toClient[0]).1;
    Tagged(ClientTurn(t.y), t.frames + Repeat(t.replies[0], |out|), t.replies[1..], t.session)
  }

  /** A session starts when its chunk size is announced. */
  function Started(session: nat, out: seq<Reply>): nat {
    session + if out != [] && out[0].name == OTA_SET_CHUNK_SIZE then 1 else 0
  }

  function TaggedServer(c: Crypto, chunk: nat, t: Tagged): Tagged
    requires t.Valid() && t.y.toServer != [] && BackendOk(c, t.y.server.backend)
  {
    var out := Handle(c, chunk, t.y.server, t.y.toServer[0], FINE).1;
    var session := Started(t.session, out);
    Tagged(ServerTurn(c, chunk, t.y), t.frames[1..], t.replies + Repeat(session, |out|), session)
  }

  /** One turn, of the server or of the client, if there is something for it to do. */
  ghost function Play(c: Crypto, chunk: nat, t: Tagged, server: bool): (u: Tagged)
    requires t.Valid()
    ensures u.Valid()
  {
    if server then
      if t.y.toServer != [] && BackendOk(c, t.y.server.backend) then TaggedServer(c, chunk, t) else t
    else if t.y.toClient != [] then TaggedClient(t) else t
  }

  ghost function PlayAll(c: Crypto, chunk: nat, t: Tagged, schedule: seq<bool>): (u: Tagged)
    requires t.Valid()
    ensures u.Valid()
    decreases |schedule|
  {
    if schedule == [] then t else PlayAll(c, chunk, Play(c, chunk, t, schedule[0]), schedule[1..])
  }

  /** Tagging changes nothing: a turn is one of the protocol, or no turn at all. */
  lemma PlayIsNext(c: Crypto, chunk: nat, t: Tagged, server: bool)
    requires t.Valid()
    ensures Play(c, chunk, t, server) == t || Next(c, chunk, t.y, Play(c, chunk, t, server).y)
  {
  }

  // ---------- the requests not yet served ----------

  predicate IsRequest(r: Reply) {
    r.name == OTA_GET_CHUNK && r.value.Number?
  }

  function Chunks(fs: seq<Frame>, tags: seq<nat>): seq<nat>
    requires |fs| == |tags|
  {
    if fs == [] then [] else (if fs[0].Binary? then [tags[0]] else []) + Chunks(fs[1..], tags[1..])
  }

  function Requests(rs: seq<Reply>, tags: seq<nat>): seq<nat>
    requires |rs| == |tags|
  {
    if rs == [] then [] else (if IsRequest(rs[0]) then [tags[0]] else []) + Requests(rs[1..], tags[1..])
  }

  /** The sessions of the requests not served yet, oldest first: of the chunks on their way, then of
      the requests on theirs. Whatever the client does leaves it as it is. */
  function Owed(t: Tagged): seq<nat>
    requires t.Valid()
  {
    Chunks(t.y.toServer, t.frames) + Requests(t.y.toClient, t.replies)
  }

  lemma {:induction false} ChunksAppend(fs: seq<Frame>, tags: seq<nat>, gs: seq<Frame>, more: seq<nat>)
    requires |fs| == |tags| && |gs| == |more|
    ensures Chunks(fs + gs, tags + more) == Chunks(fs, tags) + Chunks(gs, more)
    decreases |fs|
  {
    if fs == [] {
      assert fs + gs == gs && tags + more == more;
    } else {
      assert (fs + gs)[1..] == fs[1..] + gs && (tags + more)[1..] == tags[1..] + more;
      ChunksAppend(fs[1..], tags[1..], gs, more);
      Assoc(if fs[0].Binary? then [tags[0]] else [], Chunks(fs[1..], tags[1..]), Chunks(gs, more));
    }
  }

  lemma {:induction false} RequestsAppend(rs: seq<Reply>, tags: seq<nat>, qs: seq<Reply>, more: seq<nat>)
    requires |rs| == |tags| && |qs| == |more|
    ensures Requests(rs + qs, tags + more) == Requests(rs, tags) + Requests(qs, more)
    decreases |rs|
  {
    if rs == [] {
      assert rs + qs == qs && tags + more == more;
    } else {
      assert (rs + qs)[1..] == rs[1..] + qs && (tags + more)[1..] == tags[1..] + more;
      RequestsAppend(rs[1..], tags[1..], qs, more);
      Assoc(if IsRequest(rs[0]) then [tags[0]] else [], Requests(rs[1..], tags[1..]), Requests(qs, more));
    }
  }

  /** The client only ever answers requests, each with one chunk. */
  lemma ClientAnswers(cl: Client, r: Reply)
    ensures var out := Receive(cl, r).1; if IsRequest(r) then |out| == 1 && out[0].Binary? else out == []
  {
    NamesDiffer();
  }

  lemma ClientOwes(t: Tagged)
    requires t.Valid() && t.y.toClient != []
    ensures TaggedClient(t).Valid() && Owed(TaggedClient(t)) == Owed(t)
  {
    var r, out := t.y.toClient[0], Receive(t.y.client, t.y.toClient[0]).1;
    var tags := Repeat(t.replies[0], |out|);
    ClientAnswers(t.y.client, r);
    ChunksAppend(t.y.toServer, t.frames, out, tags);
    var rest := Requests(t.y.toClient[1..], t.replies[1..]);
    OneChunk(out, tags);
    Assoc(Chunks(t.y.toServer, t.frames), Chunks(out, tags), rest);
  }

  lemma OneChunk(out: seq<Frame>, tags: seq<nat>)
    requires |out| == |tags| <= 1 && (out != [] ==> out[0].Binary?)
    ensures Chunks(out, tags) == tags
  {
    if out != [] { assert Chunks(out[1..], tags[1..]) == []; }
  }

  lemma ServerOwes(c: Crypto, chunk: nat, t: Tagged)
    requires t.Valid() && t.y.toServer != [] && BackendOk(c, t.y.server.backend)
    ensures var out := Handle(c, chunk, t.y.server, t.y.toServer[0], FINE).1; var u := TaggedServer(c, chunk, t);
            && u.Valid()
            && (t.y.toServer[0].Binary? ==> Owed(t) != [] && Owed(t)[0] == t.frames[0])
            && Owed(u) == (if t.y.toServer[0].Binary? then Owed(t)[1..] else Owed(t))
                          + Requests(out, Repeat(u.session, |out|))
  {
    hide Handle, IsRequest, Started;
    var out := Handle(c, chunk, t.y.server, t.y.toServer[0], FINE).1;
    var tags := Repeat(Started(t.session, out), |out|);
    RequestsAppend(t.y.toClient, t.replies, out, tags);
    var chunks := Chunks(t.y.toServer[1..], t.frames[1..]);
    Assoc(chunks, Requests(t.y.toClient, t.replies), Requests(out, tags));
    if t.y.toServer[0].Binary? {
      assert Owed(t) == [t.frames[0]] + (chunks + Requests(t.y.toClient, t.replies));
    } else {
      assert [] + chunks == chunks;
    }
  }

  // ---------- the queue at the second click ----------

  /** What the frames handled so far determine, whatever the client did meanwhile. */
  datatype Book = Book(server: ServerState, session: nat, owed: seq<nat>, received: nat)

  function BookOf(t: Tagged): Book
    requires t.Valid()
  {
    Book(t.y.server, t.session, Owed(t), t.y.received)
  }

  /** The server's turn on frame `f`. */
  ghost function Post(c: Crypto, chunk: nat, b: Book, f: Frame): (d: Book)
    requires BackendOk(c, b.server.backend)
    ensures BackendOk(c, d.server.backend) && d.received == b.received + (if f.Binary? then 1 else 0)
  {
    StepOk(c, chunk, b.server, f, FINE);
    var (s, out) := Handle(c, chunk, b.server, f, FINE);
    var session, left := Started(b.session, out), if f.Binary? && b.owed != [] then b.owed[1..] else b.owed;
    Book(s, session, left + Requests(out, Repeat(session, |out|)), b.received + if f.Binary? then 1 else 0)
  }

  /** All frames of a queue, one after the other. */
  ghost function PostAll(c: Crypto, chunk: nat, b: Book, queue: seq<Frame>): (d: Book)
    requires BackendOk(c, b.server.backend)
    ensures BackendOk(c, d.server.backend)
    decreases |queue|
  {
    if queue == [] then b else PostAll(c, chunk, Post(c, chunk, b, queue[0]), queue[1..])
  }

  /** Of the queue, `left` is still to be handled; behind it there are only chunks. */
  ghost predicate Waiting(t: Tagged, left: seq<Frame>, b: Book) {
    && t.Valid() && BookOf(t) == b && |left| <= |t.y.toServer| && t.y.toServer[..|left|] == left
    && forall i :: |left| <= i < |t.y.toServer| ==> t.y.toServer[i].Binary?
  }

  lemma ClientWaits(t: Tagged, left: seq<Frame>, b: Book)
    requires Waiting(t, left, b) && t.y.toClient != []
    ensures Waiting(TaggedClient(t), left, b)
  {
    hide Owed, IsRequest;
    ClientOwes(t);
    ClientAnswers(t.y.client, t.y.toClient[0]);
  }

  lemma ServerPosts(c: Crypto, chunk: nat, t: Tagged, left: seq<Frame>, b: Book)
    requires Waiting(t, left, b) && left != [] && BackendOk(c, b.server.backend)
    ensures Waiting(TaggedServer(c, chunk, t), left[1..], Post(c, chunk, b, left[0]))
  {
    hide Owed, Handle, Requests, BackendOk, Started;
    ServerOwes(c, chunk, t);
    assert t.y.toServer[0] == left[0];
    assert t.y.toServer[1..][..|left| - 1] == left[1..];
  }

  lemma PlayFirst(c: Crypto, chunk: nat, t: Tagged, schedule: seq<bool>)
    requires t.Valid()
    ensures schedule == [] ==> PlayAll(c, chunk, t, schedule) == t
    ensures schedule != [] ==>
              var u := if schedule[0] && t.y.toServer != [] && BackendOk(c, t.y.server.backend) then
                         TaggedServer(c, chunk, t)
                       else if !schedule[0] && t.y.toClient != [] then TaggedClient(t) else t;
              u.Valid() && PlayAll(c, chunk, t, schedule) == PlayAll(c, chunk, u, schedule[1..])
  {
    hide TaggedServer, TaggedClient, BackendOk;
    if schedule != [] { assert Play(c, chunk, t, schedule[0]).Valid(); }
  }

  lemma PostAllFirst(c: Crypto, chunk: nat, b: Book, queue: seq<Frame>)
    requires BackendOk(c, b.server.backend)
    ensures queue == [] ==> PostAll(c, chunk, b, queue) == b
    ensures queue != [] ==> PostAll(c, chunk, b, queue) == PostAll(c, chunk, Post(c, chunk, b, queue[0]), queue[1..])
  {
    hide Post, BackendOk;
  }

  /** A schedule ends either with part of the queue still waiting, or with a chunk handled behind it. */
  lemma {:induction false} Schedules(c: Crypto, chunk: nat, t: Tagged, left: seq<Frame>, b: Book, schedule: seq<bool>)
    returns (rest: seq<Frame>, d: Book)
    requires Waiting(t, left, b) && BackendOk(c, b.server.backend)
    ensures BackendOk(c, d.server.backend) && PostAll(c, chunk, d, rest) == PostAll(c, chunk, b, left)
    ensures |rest| <= |left| && rest == left[|left| - |rest|..]
    ensures var u := PlayAll(c, chunk, t, schedule);
            Waiting(u, rest, d) || u.y.received > PostAll(c, chunk, b, left).received
    decreases |schedule|
  {
    hide Waiting, Post, PostAll, Play, PlayAll, Handle, BackendOk, TaggedClient, TaggedServer;
    WaitingFacts(t, left, b);
    PlayFirst(c, chunk, t, schedule);
    PostAllFirst(c, chunk, b, left);
    if schedule == [] {
      rest, d := left, b;
    } else if schedule[0] && t.y.toServer != [] {
      if left != [] {
        ServerPosts(c, chunk, t, left, b);
        rest, d := Schedules(c, chunk, TaggedServer(c, chunk, t), left[1..], Post(c, chunk, b, left[0]), schedule[1..]);
      } else {
        rest, d := left, b;
        ServerCounts(c, chunk, t);
        ReceivedGrows(c, chunk, TaggedServer(c, chunk, t), schedule[1..]);
      }
    } else if !schedule[0] && t.y.toClient != [] {
      ClientWaits(t, left, b);
      rest, d := Schedules(c, chunk, TaggedClient(t), left, b, schedule[1..]);
    } else {
      rest, d := Schedules(c, chunk, t, left, b, schedule[1..]);
    }
  }

  lemma WaitingFacts(t: Tagged, left: seq<Frame>, b: Book)
    requires Waiting(t, left, b)
    ensures t.Valid() && t.y.server == b.server && t.y.received == b.received
    ensures t.session == b.session && Owed(t) == b.owed
    ensures left == [] && t.y.toServer != [] ==> t.y.toServer[0].Binary?
    ensures left != [] ==> t.y.toServer != [] && t.y.toServer[0] == left[0]
  {
  }

  lemma ServerCounts(c: Crypto, chunk: nat, t: Tagged)
    requires t.Valid() && t.y.toServer != [] && BackendOk(c, t.y.server.backend)
    ensures TaggedServer(c, chunk, t).Valid()
    ensures TaggedServer(c, chunk, t).y.received == t.y.received + (if t.y.toServer[0].Binary? then 1 else 0)
  {
    hide Handle;
  }

  lemma {:induction false} ReceivedGrows(c: Crypto, chunk: nat, t: Tagged, schedule: seq<bool>)
    requires t.Valid()
    ensures PlayAll(c, chunk, t, schedule).y.received >= t.y.received
    decreases |schedule|
  {
    hide Handle, BackendOk;
    if schedule != [] { ReceivedGrows(c, chunk, Play(c, chunk, t, schedule[0]), schedule[1..]); }
  }

  lemma {:induction false} Reach(c: Crypto, chunk: nat, t: Tagged, left: seq<Frame>, b: Book)
    returns (schedule: seq<bool>)
    requires Waiting(t, left, b) && BackendOk(c, b.server.backend) && PostAll(c, chunk, b, left).owed != []
    ensures var u := PlayAll(c, chunk, t, schedule);
            Waiting(u, [], PostAll(c, chunk, b, left)) && u.y.toServer != []
    decreases |left|, |t.y.toClient|
  {
    hide Waiting, Post, Handle, BackendOk, TaggedServer;
    WaitingFacts(t, left, b);
    if left != [] {
      ServerPosts(c, chunk, t, left, b);
      var rest := Reach(c, chunk, TaggedServer(c, chunk, t), left[1..], Post(c, chunk, b, left[0]));
      schedule := [true] + rest;
      assert schedule[1..] == rest;
    } else if t.y.toServer != [] {
      schedule := [];
    } else {
      NothingOwed(t, b);
      ClientWaits(t, left, b);
      var rest := Reach(c, chunk, TaggedClient(t), left, b);
      schedule := [false] + rest;
      assert schedule[1..] == rest;
    }
  }

  lemma NothingOwed(t: Tagged, b: Book)
    requires Waiting(t, [], b) && t.y.toServer == [] && b.owed != []
    ensures t.y.toClient != []
  {
  }

  // ---------- the two clicks in each phase ----------

  /** Before its completion is announced, and after the click. */
  predicate Active(p: Phase) {
    p.Announced? || p.Granted? || p.Requested? || p.Delivered?
  }

  /** A request made, or sure to be made, before the second announcement is handled, and not served by
      then: always, but for the last chunk on its way. */
  predicate Due(file: seq<Byte>, chunk: nat, p: Phase) {
    p.Delivered? ==> p.k + chunk < |file|
  }

  function Clicked(y: System, session: nat): (t: Tagged)
    ensures t.Valid()
  {
    var z := ClickTurn(ClickTurn(y));
    Tagged(z, Repeat(session, |z.toServer|), Repeat(session, |z.toClient|), session)
  }

  /** The session of the second announcement. */
  function NewSession(session: nat, p: Phase): nat {
    session + if p.Announced? then 2 else 1
  }

  lemma ClickedQueue(c: Crypto, chunk: nat, y: System, boots: seq<Boot>, p: Phase)
    requires InPhase(c, chunk, y, boots, p) && Active(p)
    ensures ClickTurn(ClickTurn(y)) == y.(toServer := y.toServer + [CancelFrame(), SizeFrame(|y.client.file|)])
    ensures 0 < |y.client.file| <= INT_MAX && BackendOk(c, y.server.backend)
  {
    hide CancelFrame, SizeFrame, Accepted, Ceil, SliceAt, Acceptable, CoversHeader, BackendOk;
    Assoc(y.toServer, [CancelFrame()], [SizeFrame(|y.client.file|)]);
  }

  lemma FrameKinds(n: nat)
    ensures !CancelFrame().Binary? && !SizeFrame(n).Binary?
  {
  }

  lemma PostCancel(c: Crypto, chunk: nat, b: Book)
    requires BackendOk(c, b.server.backend)
    ensures var d := Post(c, chunk, b, CancelFrame());
            d.session == b.session && d.owed == b.owed && d.received == b.received
  {
    hide CancelFrame, Handle, BackendOk;
    CancelHandled(c, chunk, b.server);
    FrameKinds(0);
    NamesDiffer();
    var out, tags := [Reply(OTA_CANCEL, Words("Cancel command"))], Repeat(b.session, 1);
    assert Requests(out[1..], tags[1..]) == [];
    assert Requests(out, tags) == [];
  }

  lemma PostSize(c: Crypto, chunk: nat, b: Book, n: nat)
    requires BackendOk(c, b.server.backend) && 0 < n <= INT_MAX
    ensures var d := Post(c, chunk, b, SizeFrame(n));
            && d.session == b.session + 1 && d.owed == b.owed + [b.session + 1] && d.received == b.received
            && d.server.started && d.server.start == 0
  {
    hide SizeFrame, Handle, BackendOk, Start, Requests;
    SizeHandled(c, chunk, b.server, n);
    FrameKinds(n);
    FirstRequest(chunk, b.session + 1);
  }

  lemma FirstRequest(chunk: int, session: nat)
    ensures var out := [Reply(OTA_SET_CHUNK_SIZE, Number(chunk)), Reply(OTA_GET_CHUNK, Number(0))];
            Requests(out, Repeat(session, 2)) == [session]
  {
    var out, tags := [Reply(OTA_SET_CHUNK_SIZE, Number(chunk)), Reply(OTA_GET_CHUNK, Number(0))], Repeat(session, 2);
    NamesDiffer();
    assert Requests(out[1..][1..], tags[1..][1..]) == [];
    assert Requests(out[1..], tags[1..]) == [session];
  }

  /** The chunk at `k`, handled as in the transfer. */
  lemma PostChunk(c: Crypto, chunk: nat, b: Book, file: seq<Byte>, k: nat)
    requires b.server.started && b.server.start == k < |file| && b.server.size == |file|
    requires Suitable(c, b.server.backend, file, chunk) && Accepted(c, b.server.backend, file, k)
    requires BackendOk(c, b.server.backend) && b.owed != []
    ensures var d := Post(c, chunk, b, Binary(SliceAt(file, k, chunk)));
            && d.session == b.session && d.received == b.received + 1
            && d.owed == b.owed[1..] + if k + chunk < |file| then [b.session] else []
  {
    hide SliceAt, Suitable, Accepted, BackendOk, HandleBinary, Payload;
    ChunkHandled(c, chunk, b.server, file, k);
    SuitableParts(c, b.server.backend, file, chunk);
    NamesDiffer();
    var out := HandleBinary(c, b.server, SliceAt(file, k, chunk), FINE).1;
    assert out[1..] == [] && Requests(out[1..], Repeat(b.session, 1)[1..]) == [];
  }

  /** What is owed when the button is clicked. */
  lemma OwedAtClick(c: Crypto, chunk: nat, y: System, boots: seq<Boot>, p: Phase, session: nat)
    requires InPhase(c, chunk, y, boots, p) && Active(p)
    ensures Owed(Clicked(y, session)) == if p.Announced? then [] else [session]
  {
    hide Suitable, Accepted, SliceAt, Ceil, CancelFrame, SizeFrame, ClickTurn;
    ClickedQueue(c, chunk, y, boots, p);
    FrameKinds(|y.client.file|);
    var controls := [CancelFrame(), SizeFrame(|y.client.file|)];
    var t := Clicked(y, session);
    ChunksAppend(y.toServer, t.frames[..|y.toServer|], controls, t.frames[|y.toServer|..]);
    assert t.frames == t.frames[..|y.toServer|] + t.frames[|y.toServer|..];
    NoChunks(controls, t.frames[|y.toServer|..]);
    FirstOwed(y, p, session);
  }

  lemma NoChunks(fs: seq<Frame>, tags: seq<nat>)
    requires |fs| == |tags| && forall i :: 0 <= i < |fs| ==> !fs[i].Binary?
    ensures Chunks(fs, tags) == []
  {
  }

  /** In each phase one request is on its way, or its chunk. */
  lemma FirstOwed(y: System, p: Phase, session: nat)
    requires Active(p)
    requires p.Announced? ==> y.toServer == [SizeFrame(|y.client.file|)] && y.toClient == []
    requires p.Granted? ==>
               && y.toServer == [] && |y.toClient| == 2
               && y.toClient[0].name == OTA_SET_CHUNK_SIZE && IsRequest(y.toClient[1])
    requires p.Requested? ==> y.toServer == [] && |y.toClient| == 1 && IsRequest(y.toClient[0])
    requires p.Delivered? ==> |y.toServer| == 1 && y.toServer[0].Binary? && y.toClient == []
    ensures Chunks(y.toServer, Repeat(session, |y.toServer|)) + Requests(y.toClient, Repeat(session, |y.toClient|))
            == if p.Announced? then [] else [session]
  {
    hide SizeFrame, Chunks, Requests, IsRequest, Repeat;
    FrameKinds(|y.client.file|);
    NothingCounts(Repeat(session, 0));
    if p.Granted? {
      NamesDiffer();
      SecondRequest(y.toClient, session);
    } else if p.Requested? {
      OneRequest(y.toClient, session);
    } else if p.Delivered? {
      SingleChunk(y.toServer, session);
    } else {
      NoChunks(y.toServer, Repeat(session, 1));
    }
  }

  lemma NothingCounts(tags: seq<nat>)
    requires tags == []
    ensures Chunks([], tags) == [] && Requests([], tags) == []
  {
  }

  lemma SingleChunk(fs: seq<Frame>, session: nat)
    requires |fs| == 1 && fs[0].Binary?
    ensures Chunks(fs, Repeat(session, 1)) == [session]
  {
    assert Chunks(fs[1..], Repeat(session, 1)[1..]) == [];
  }

  lemma OneRequest(rs: seq<Reply>, session: nat)
    requires |rs| == 1 && IsRequest(rs[0])
    ensures Requests(rs, Repeat(session, 1)) == [session]
  {
    assert Requests(rs[1..], Repeat(session, 1)[1..]) == [];
  }

  lemma SecondRequest(rs: seq<Reply>, session: nat)
    requires |rs| == 2 && rs[0].name != OTA_GET_CHUNK && IsRequest(rs[1])
    ensures Requests(rs, Repeat(session, 2)) == [session]
  {
    OneRequest(rs[1..], session);
    assert Repeat(session, 2)[1..] == Repeat(session, 1);
  }

  lemma PostControls(c: Crypto, chunk: nat, b: Book, n: nat)
    requires BackendOk(c, b.server.backend) && 0 < n <= INT_MAX
    ensures var d := PostAll(c, chunk, b, [CancelFrame(), SizeFrame(n)]);
            && d.session == b.session + 1 && d.owed == b.owed + [b.session + 1] && d.received == b.received
            && d.server.started && d.server.start == 0
  {
    hide CancelFrame, SizeFrame, Post, PostAll, BackendOk;
    var first := Post(c, chunk, b, CancelFrame());
    PostCancel(c, chunk, b);
    PostSize(c, chunk, first, n);
    assert [CancelFrame()] + [SizeFrame(n)] == [CancelFrame(), SizeFrame(n)] && [SizeFrame(n)] + [] == [SizeFrame(n)];
    PostFirst(c, chunk, b, CancelFrame(), [SizeFrame(n)]);
    PostFirst(c, chunk, first, SizeFrame(n), []);
    PostAllFirst(c, chunk, Post(c, chunk, first, SizeFrame(n)), []);
  }

  lemma PostFirst(c: Crypto, chunk: nat, b: Book, f: Frame, queue: seq<Frame>)
    requires BackendOk(c, b.server.backend)
    ensures PostAll(c, chunk, b, [f] + queue) == PostAll(c, chunk, Post(c, chunk, b, f), queue)
  {
    hide Post, BackendOk;
    assert ([f] + queue)[1..] == queue;
  }

  /** The book when the second announcement has been handled. */
  lemma BookAtEnd(c: Crypto, chunk: nat, y: System, boots: seq<Boot>, p: Phase, session: nat)
    requires InPhase(c, chunk, y, boots, p) && Active(p)
    ensures BackendOk(c, y.server.backend)
    ensures var d := PostAll(c, chunk, BookOf(Clicked(y, session)), ClickTurn(ClickTurn(y)).toServer);
            var n := NewSession(session, p);
            && d.session == n && d.owed == (if Due(y.client.file, chunk, p) then [n - 1] else []) + [n]
            && d.server.started && d.server.start == 0
            && d.received == y.received + if p.Delivered? then 1 else 0
  {
    hide Suitable, Accepted, SliceAt, Ceil, CancelFrame, SizeFrame, ClickTurn, Owed, Post, PostAll, BackendOk;
    ClickedQueue(c, chunk, y, boots, p);
    OwedAtClick(c, chunk, y, boots, p, session);
    var n, b := |y.client.file|, BookOf(Clicked(y, session));
    var controls := [CancelFrame(), SizeFrame(n)];
    match p
    case Announced =>
      PostFirst(c, chunk, b, SizeFrame(n), controls);
      PostSize(c, chunk, b, n);
      PostControls(c, chunk, Post(c, chunk, b, SizeFrame(n)), n);
    case Delivered(k) =>
      var f := Binary(SliceAt(y.client.file, k, chunk));
      PostFirst(c, chunk, b, f, controls);
      PostChunk(c, chunk, b, y.client.file, k);
      PostControls(c, chunk, Post(c, chunk, b, f), n);
    case Granted =>
      assert [] + controls == controls;
      PostControls(c, chunk, b, n);
    case Requested(_) =>
      assert [] + controls == controls;
      PostControls(c, chunk, b, n);
    case _ =>
  }

  // ---------- the results ----------

  /** The server is about to handle the first chunk behind the second announcement. */
  predicate FirstChunk(u: Tagged, y: System, p: Phase, session: nat) {
    && u.Valid() && u.session == NewSession(session, p) && u.y.toServer != [] && u.y.toServer[0].Binary?
    && u.y.received == y.received + if p.Delivered? then 1 else 0
  }

  /** An announcement starts a session, and sessions only grow. */
  lemma {:induction false} SessionsGrow(c: Crypto, chunk: nat, b: Book, queue: seq<Frame>, n: nat)
    requires BackendOk(c, b.server.backend) && 0 < n <= INT_MAX
    requires queue != [] && queue[|queue| - 1] == SizeFrame(n)
    ensures PostAll(c, chunk, b, queue).session > b.session
    decreases |queue|
  {
    hide SizeFrame, Post, BackendOk;
    if |queue| == 1 {
      PostSize(c, chunk, b, n);
      assert queue[1..] == [];
    } else {
      PostGrows(c, chunk, b, queue[0]);
      SessionsGrow(c, chunk, Post(c, chunk, b, queue[0]), queue[1..], n);
    }
  }

  lemma PostGrows(c: Crypto, chunk: nat, b: Book, f: Frame)
    requires BackendOk(c, b.server.backend)
    ensures Post(c, chunk, b, f).session >= b.session
  {
    hide Handle, BackendOk;
  }

  /** Cancel and start again in any phase of an active session, with either backend. In every schedule
      of the two parties from there on, the first chunk handled behind the second announcement, which
      the new session takes for its first, answers a request of an earlier session if and only if one
      was still due at the click: so the restart is clean exactly while the last chunk is on its way. */
  lemma StaleIff(c: Crypto, chunk: nat, y: System, boots: seq<Boot>, p: Phase, session: nat, schedule: seq<bool>)
    requires InPhase(c, chunk, y, boots, p) && Active(p)
    requires FirstChunk(PlayAll(c, chunk, Clicked(y, session), schedule), y, p, session)
    ensures var u := PlayAll(c, chunk, Clicked(y, session), schedule);
            && u.y.server.started && u.y.server.start == 0
            && (u.frames[0] < u.session <==> Due(y.client.file, chunk, p))
            && (u.frames[0] == u.session <==> !Due(y.client.file, chunk, p))
  {
    hide PlayAll, PostAll, InPhase, Waiting, SizeFrame, CancelFrame, Owed, BackendOk, ClickTurn;
    var t, u := Clicked(y, session), PlayAll(c, chunk, Clicked(y, session), schedule);
    var left, b := t.y.toServer, BookOf(t);
    BookAtEnd(c, chunk, y, boots, p, session);
    ClickedQueue(c, chunk, y, boots, p);
    AllWait(t);
    var rest, d := Schedules(c, chunk, t, left, b, schedule);
    WaitingFacts(u, rest, d);
    if rest != [] {
      assert rest[|rest| - 1] == left[|left| - 1];
      SessionsGrow(c, chunk, d, rest, |y.client.file|);
    } else {
      PostAllFirst(c, chunk, d, []);
      HeadOwed(u);
    }
  }

  lemma HeadOwed(t: Tagged)
    requires t.Valid() && t.y.toServer != [] && t.y.toServer[0].Binary?
    ensures Owed(t) != [] && Owed(t)[0] == t.frames[0]
  {
  }

  lemma AllWait(t: Tagged)
    requires t.Valid()
    ensures Waiting(t, t.y.toServer, BookOf(t))
  {
    assert t.y.toServer[..|t.y.toServer|] == t.y.toServer;
  }

  /** And such a moment comes, under some schedule, in every phase. */
  lemma StaleReached(c: Crypto, chunk: nat, y: System, boots: seq<Boot>, p: Phase, session: nat)
    returns (schedule: seq<bool>)
    requires InPhase(c, chunk, y, boots, p) && Active(p)
    ensures FirstChunk(PlayAll(c, chunk, Clicked(y, session), schedule), y, p, session)
  {
    hide PlayAll, PostAll, InPhase, Waiting, SizeFrame, CancelFrame, Owed, BackendOk, ClickTurn;
    var t := Clicked(y, session);
    BookAtEnd(c, chunk, y, boots, p, session);
    ClickedQueue(c, chunk, y, boots, p);
    AllWait(t);
    schedule := Reach(c, chunk, t, t.y.toServer, BookOf(t));
    WaitingFacts(PlayAll(c, chunk, t, schedule), [], PostAll(c, chunk, BookOf(t), t.y.toServer));
  }
}
