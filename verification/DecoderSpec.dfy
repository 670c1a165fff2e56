/**
 What the streaming decoder means, said about the whole stream received and never about how it
 was cut: no header states, no field buffers, no index arithmetic.
 */
module DecoderSpec {
  import opened Bytes
  import opened Gcm
  import opened Image

  datatype EspErr = EspOk | EspFail | NotFinished | InvalidArg | NoMem

  /** `fed` counts the ciphertext bytes already handed to the cipher; the rest of them is held back. */
  datatype Session = Dead | Live(received: seq<Byte>, fed: nat)

  const FRESH: Session := Live([], 0)

  predicate InDecode(s: Session) {
    s.Live? && |s.received| >= HEADER
  }

  /** `binary_file_read`, a `uint32_t`, has reached `binary_file_len`. */
  predicate Complete(r: seq<Byte>)
    requires |r| >= HEADER
  {
    (|r| - HEADER) % WORD == Declared(r)
  }

  /** A complete image is flushed; otherwise whole blocks are, counted from the last flush. */
  function FedAfter(r: seq<Byte>, fed: nat): (f: nat)
    requires |r| >= HEADER && fed <= |r| - HEADER
    ensures fed <= f <= |r| - HEADER < f + BLOCK
  {
    var n := |r| - HEADER;
    if Complete(r) then n else n - (n - fed) % BLOCK
  }

  predicate Sound(c: Crypto, s: Session) {
    s.Live? ==>
      && HeaderOk(c, s.received)
      && (|s.received| < HEADER ==> s.fed == 0)
      && (|s.received| >= HEADER ==>
            && s.fed <= |s.received| - HEADER < s.fed + BLOCK
            && (Complete(s.received) ==> s.fed == |s.received| - HEADER))
  }

  /** One call of `esp_encrypted_img_decrypt_data`. */
  function Advance(c: Crypto, s: Session, chunk: seq<Byte>): (s': Session)
    requires Sound(c, s)
    ensures Sound(c, s')
  {
    match s
    case Dead => Dead
    case Live(received, fed) =>
      var r := received + chunk;
      if !HeaderOk(c, r) then Dead
      else if |r| < HEADER then Live(r, 0)
      else Live(r, FedAfter(r, fed))
  }

  /** The code that call returns. */
  function Verdict(c: Crypto, s: Session, chunk: seq<Byte>): EspErr
    requires Sound(c, s) && s.Live?
  {
    match Advance(c, s, chunk)
    case Dead => EspFail
    case Live(r, fed) =>
      if |r| < HEADER || !Complete(r) then NotFinished
      else if s.fed == |r| - HEADER then NoMem  // nothing pending: the output buffer is resized to 0
      else EspOk
  }

  /** The plaintext that call leaves in the output buffer. */
  function Emitted(c: Crypto, s: Session, chunk: seq<Byte>): seq<Byte>
    requires Sound(c, s)
  {
    var s' := Advance(c, s, chunk);
    if InDecode(s') then Plain(c, s'.received)[s.fed..s'.fed] else []
  }

  /** `esp_encrypted_img_decrypt_end`. */
  function End(c: Crypto, s: Session): EspErr
    requires Sound(c, s)
  {
    if !InDecode(s) then EspOk
    else if s.fed != |s.received| - HEADER || !Complete(s.received) then EspFail
    else if TagOf(c, s.received) != AuthOf(s.received) then EspFail
    else EspOk
  }

  /** One call, for every session, chunk and stream, over-long ones included: it fails if and only if the
      header received with it is not acceptable. The code says whether the stream is complete, and
      whether there was anything left to decrypt. A complete stream is fed whole; of any other each call
      feeds whole blocks, and holds back less than one. */
  lemma CallIs(c: Crypto, s: Session, chunk: seq<Byte>)
    requires Sound(c, s) && s.Live?
    ensures var r, s', code := s.received + chunk, Advance(c, s, chunk), Verdict(c, s, chunk);
            if !HeaderOk(c, r) then s' == Dead && code == EspFail
            else if |r| < HEADER then s' == Live(r, 0) && code == NotFinished
            else
              && s'.Live? && s'.received == r
              && if Complete(r) then
                   && s'.fed == |r| - HEADER
                   && code == if |r| == HEADER || chunk == [] then NoMem else EspOk
                 else
                   && s.fed <= s'.fed <= |r| - HEADER < s'.fed + BLOCK && (s'.fed - s.fed) % BLOCK == 0
                   && code == NotFinished
  {
    if chunk == [] { AppendNothing(s.received, chunk); }
    if |s.received + chunk| >= HEADER { WholeBlocks(0, (|s.received + chunk| - HEADER - s.fed) / BLOCK); }
  }

  // ---------- runs ----------

  function Concat(chunks: seq<seq<Byte>>): seq<Byte> {
    if chunks == [] then [] else chunks[0] + Concat(chunks[1..])
  }

  function Run(c: Crypto, s: Session, chunks: seq<seq<Byte>>): (s': Session)
    requires Sound(c, s)
    ensures Sound(c, s')
    decreases |chunks|
  {
    if chunks == [] then s else Run(c, Advance(c, s, chunks[0]), chunks[1..])
  }

  function Outputs(c: Crypto, s: Session, chunks: seq<seq<Byte>>): seq<Byte>
    requires Sound(c, s)
    decreases |chunks|
  {
    if chunks == [] then []
    else Emitted(c, s, chunks[0]) + Outputs(c, Advance(c, s, chunks[0]), chunks[1..])
  }

  /** The codes the calls of a run return, up to the first failure. */
  function Verdicts(c: Crypto, s: Session, chunks: seq<seq<Byte>>): seq<EspErr>
    requires Sound(c, s)
    decreases |chunks|
  {
    if chunks == [] || s.Dead? then []
    else [Verdict(c, s, chunks[0])] + Verdicts(c, Advance(c, s, chunks[0]), chunks[1..])
  }

  lemma {:induction false} DeadStaysDead(c: Crypto, chunks: seq<seq<Byte>>)
    ensures Run(c, Dead, chunks) == Dead && Outputs(c, Dead, chunks) == []
    decreases |chunks|
  {
    if chunks != [] { DeadStaysDead(c, chunks[1..]); }
  }

  /** Header refinement: whatever the cuts, a run is alive exactly as long as the header of the
      stream received so far is acceptable, and then it has received exactly that stream. */
  lemma {:induction false} RunReceives(c: Crypto, s: Session, chunks: seq<seq<Byte>>)
    requires Sound(c, s) && s.Live?
    ensures var s' := Run(c, s, chunks);
            && (s'.Live? <==> HeaderOk(c, s.received + Concat(chunks)))
            && (s'.Live? ==> s'.received == s.received + Concat(chunks))
    decreases |chunks|
  {
    if chunks == [] {
      assert s.received + [] == s.received;
    } else {
      var all := s.received + Concat(chunks);
      Assoc(s.received, chunks[0], Concat(chunks[1..]));
      var s1 := Advance(c, s, chunks[0]);
      if s1.Live? {
        RunReceives(c, s1, chunks[1..]);
      } else {
        DeadStaysDead(c, chunks[1..]);
        SliceAppend(s.received + chunks[0], Concat(chunks[1..]), 0, |s.received + chunks[0]|);
        if HeaderOk(c, all) { HeaderOkPrefix(c, all, |s.received + chunks[0]|); }
      }
    }
  }

  lemma RunFromFresh(c: Crypto, chunks: seq<seq<Byte>>)
    ensures var s := Run(c, FRESH, chunks);
            && (s.Live? <==> HeaderOk(c, Concat(chunks)))
            && (s.Live? ==> s.received == Concat(chunks))
  {
    RunReceives(c, FRESH, chunks);
    assert [] + Concat(chunks) == Concat(chunks);
  }

  /** The decryption of exactly the ciphertext fed so far. */
  function Settled(c: Crypto, s: Session): seq<Byte>
    requires Sound(c, s)
  {
    if InDecode(s) then Plain(c, s.received)[..s.fed] else []
  }

  lemma EmittedExtends(c: Crypto, s: Session, chunk: seq<Byte>)
    requires Sound(c, s)
    ensures Settled(c, Advance(c, s, chunk)) == Settled(c, s) + Emitted(c, s, chunk)
  {
    if InDecode(s) {
      Extended(c, s.received, chunk);
      var s' := Advance(c, s, chunk);
      assert Plain(c, s'.received)[..s.fed] == Plain(c, s.received)[..s.fed];
    }
  }

  /** Re-blocking conservation: over any run nothing is lost, duplicated or reordered; what was
      output is the decryption of exactly the ciphertext fed so far. */
  lemma {:induction false} OutputsAreSettled(c: Crypto, s: Session, chunks: seq<seq<Byte>>)
    requires Sound(c, s)
    ensures Settled(c, Run(c, s, chunks)) == Settled(c, s) + Outputs(c, s, chunks)
    decreases |chunks|
  {
    if chunks != [] {
      var s1, out, rest := Advance(c, s, chunks[0]), Emitted(c, s, chunks[0]), chunks[1..];
      EmittedExtends(c, s, chunks[0]);
      OutputsAreSettled(c, s1, rest);
      Assoc(Settled(c, s), out, Outputs(c, s1, rest));
    } else {
      assert Settled(c, s) + [] == Settled(c, s);
    }
  }

  // ---------- main results ----------

  ghost predicate NonEmpty(chunks: seq<seq<Byte>>) {
    forall i :: 0 <= i < |chunks| ==> chunks[i] != []
  }

  /** An image with an acceptable header and a payload of exactly the declared, positive length. */
  predicate WellFormed(c: Crypto, image: seq<Byte>) {
    && |image| > HEADER
    && HeaderOk(c, image)
    && |image| == HEADER + Declared(image)
  }

  /** A proper part of the image has been received and its whole ciphertext blocks have been fed. */
  predicate Partway(image: seq<Byte>, s: Session) {
    && s.Live?
    && |s.received| < |image|
    && s.received <= image
    && (if |s.received| < HEADER then s.fed == 0
        else s.fed % BLOCK == 0 && s.fed <= |s.received| - HEADER < s.fed + BLOCK)
  }

  lemma Incomplete(c: Crypto, image: seq<Byte>, r: seq<Byte>)
    requires WellFormed(c, image) && r <= image
    ensures HeaderOk(c, r)
    ensures |r| >= HEADER ==> Declared(r) == Declared(image) && (Complete(r) <==> |r| == |image|)
  {
    PrefixAsSlice(r, image);
    HeaderOkPrefix(c, image, |r|);
    if |r| >= HEADER {
      assert image[SIZE_AT..AUTH_AT] == r[SIZE_AT..AUTH_AT];
      NoWrap(|r| - HEADER);
    }
  }

  lemma HeldBack(r: seq<Byte>, fed: nat)
    requires |r| >= HEADER && !Complete(r) && fed <= |r| - HEADER && fed % BLOCK == 0
    ensures FedAfter(r, fed) % BLOCK == 0
  {
    var n := |r| - HEADER - fed;
    WholeBlocks(fed / BLOCK, n / BLOCK);
    assert FedAfter(r, fed) == fed + n - n % BLOCK;
  }

  lemma WholeBlocks(a: nat, b: nat)
    ensures (BLOCK * a + BLOCK * b) % BLOCK == 0
  {
    assert BLOCK * a + BLOCK * b == BLOCK * (a + b);
  }

  /** Re-blocking conservation: on part of an image the bytes held back are exactly the last
      (number of ciphertext bytes) mod 16 ones. */
  lemma HeldBackCount(image: seq<Byte>, s: Session)
    requires Partway(image, s) && InDecode(s)
    ensures |s.received| - HEADER - s.fed == (|s.received| - HEADER) % BLOCK
  {
  }

  /** What is held back between calls, and what each call on part of the image returns. */
  lemma PartwayAdvance(c: Crypto, image: seq<Byte>, s: Session, chunk: seq<Byte>)
    requires WellFormed(c, image) && Sound(c, s) && Partway(image, s) && s.received + chunk <= image
    ensures |s.received + chunk| < |image| ==>
              Partway(image, Advance(c, s, chunk)) && Verdict(c, s, chunk) == NotFinished
    ensures |s.received + chunk| == |image| ==>
              Advance(c, s, chunk) == Live(image, Declared(image)) && Verdict(c, s, chunk) == EspOk
  {
    var r := s.received + chunk;
    Incomplete(c, image, r);
    if HEADER <= |r| < |image| {
      HeldBack(r, s.fed);
    }
    if |r| == |image| {
      assert r == image;
      assert s.fed < Declared(image);
    }
  }

  lemma PrefixAsSlice(r: seq<Byte>, image: seq<Byte>)
    requires r <= image
    ensures image[..|r|] == r
  {
  }

  lemma {:induction false} PartwayRun(c: Crypto, image: seq<Byte>, s: Session, chunks: seq<seq<Byte>>)
    requires WellFormed(c, image) && Sound(c, s) && Partway(image, s)
    requires s.received + Concat(chunks) == image && NonEmpty(chunks)
    ensures chunks != []
    ensures Run(c, s, chunks) == Live(image, Declared(image))
    ensures Verdicts(c, s, chunks) == seq(|chunks| - 1, _ => NotFinished) + [EspOk]
    decreases |chunks|
  {
    var r := s.received + chunks[0];
    assert r + Concat(chunks[1..]) == image;
    PartwayAdvance(c, image, s, chunks[0]);
    if |r| < |image| {
      PartwayRun(c, image, Advance(c, s, chunks[0]), chunks[1..]);
    } else {
      assert Concat(chunks[1..]) == [];
      LongEnough(chunks[1..]);
    }
  }

  lemma {:induction false} PartwayStays(c: Crypto, image: seq<Byte>, s: Session, chunks: seq<seq<Byte>>)
    requires WellFormed(c, image) && Sound(c, s) && Partway(image, s)
    requires s.received + Concat(chunks) < image
    ensures Partway(image, Run(c, s, chunks))
    decreases |chunks|
  {
    if chunks != [] {
      Assoc(s.received, chunks[0], Concat(chunks[1..]));
      PartwayAdvance(c, image, s, chunks[0]);
      PartwayStays(c, image, Advance(c, s, chunks[0]), chunks[1..]);
    }
  }

  /** Any stream short of its declared length is the beginning of a well-formed image. */
  lemma Completed(c: Crypto, r: seq<Byte>) returns (image: seq<Byte>)
    requires |r| >= HEADER && HeaderOk(c, r) && |r| < HEADER + Declared(r)
    ensures WellFormed(c, image) && r < image
  {
    var missing := Zeros(HEADER + Declared(r) - |r|);
    HeaderGrows(c, r, missing);
    image := r + missing;
  }

  /** Re-blocking conservation, over every run that stops short of the declared length: the bytes
      held back are exactly the last (number of ciphertext bytes) mod 16, and the output is the
      decryption of everything before them. */
  lemma HeldBackOverRuns(c: Crypto, chunks: seq<seq<Byte>>)
    requires var r := Concat(chunks); |r| >= HEADER && HeaderOk(c, r) && |r| < HEADER + Declared(r)
    ensures var r := Concat(chunks); var n := |r| - HEADER; var fed := n - n % BLOCK;
            Run(c, FRESH, chunks) == Live(r, fed) && Outputs(c, FRESH, chunks) == Plain(c, r)[..fed]
  {
    hide Plain, Declared, Run, Outputs, Concat;
    var r, s := Concat(chunks), Run(c, FRESH, chunks);
    var image := Completed(c, r);
    assert [] + r == r;
    PartwayStays(c, image, FRESH, chunks);
    RunFromFresh(c, chunks);
    HeldBackCount(image, s);
    OutputsAreSettled(c, FRESH, chunks);
  }

  /** Whatever the cuts, a session survives its first three bytes, and the fourth decides: it
      survives a right magic (until the key is complete) and never a wrong one. */
  lemma MagicDecides(c: Crypto, chunks: seq<seq<Byte>>)
    ensures var r := Concat(chunks); var s := Run(c, FRESH, chunks);
            && (|r| < KEY_AT ==> s.Live?)
            && (|r| >= KEY_AT && MagicOf(r) != MAGIC ==> s.Dead?)
            && (KEY_AT <= |r| < IV_AT && MagicOf(r) == MAGIC ==> s.Live?)
  {
    RunFromFresh(c, chunks);
  }

  // ---------- the empty payload ----------

  /** A call returns NO_MEM exactly when nothing is left to decrypt of a complete image: its header
      declares an empty payload and ends with the chunk, or the chunk is empty itself. */
  lemma NoMemIff(c: Crypto, s: Session, chunk: seq<Byte>)
    requires Sound(c, s) && s.Live?
    ensures var r := s.received + chunk;
            Verdict(c, s, chunk) == NoMem <==>
              |r| >= HEADER && HeaderOk(c, r) && Complete(r) && (|r| == HEADER || chunk == [])
    ensures |s.received + chunk| == HEADER ==> (Complete(s.received + chunk) <==> Declared(s.received + chunk) == 0)
  {
    if chunk == [] { AppendNothing(s.received, chunk); }
  }

  predicate EmptyImage(c: Crypto, image: seq<Byte>) {
    |image| == HEADER && HeaderOk(c, image) && Declared(image) == 0
  }

  lemma EmptyStep(c: Crypto, image: seq<Byte>, s: Session, chunk: seq<Byte>)
    requires EmptyImage(c, image) && Sound(c, s) && s.Live? && |s.received| < HEADER && s.received + chunk <= image
    ensures Emitted(c, s, chunk) == []
    ensures |s.received + chunk| < HEADER ==>
              Advance(c, s, chunk) == Live(s.received + chunk, 0) && Verdict(c, s, chunk) == NotFinished
    ensures |s.received + chunk| == HEADER ==>
              Advance(c, s, chunk) == Live(image, 0) && Verdict(c, s, chunk) == NoMem
  {
    hide Plain, TagOf;
    var r := s.received + chunk;
    PrefixAsSlice(r, image);
    HeaderOkPrefix(c, image, |r|);
    if |r| == HEADER { assert r == image; }
  }

  lemma {:induction false} EmptyRun(c: Crypto, image: seq<Byte>, s: Session, chunks: seq<seq<Byte>>)
    requires EmptyImage(c, image) && Sound(c, s) && s.Live? && |s.received| < HEADER
    requires s.received + Concat(chunks) == image && NonEmpty(chunks)
    ensures chunks != [] && Run(c, s, chunks) == Live(image, 0) && Outputs(c, s, chunks) == []
    ensures Verdicts(c, s, chunks) == seq(|chunks| - 1, _ => NotFinished) + [NoMem]
    decreases |chunks|
  {
    hide Advance, Verdict, Emitted, HeaderOk, Declared;
    Assoc(s.received, chunks[0], Concat(chunks[1..]));
    EmptyStep(c, image, s, chunks[0]);
    if |s.received + chunks[0]| < HEADER {
      EmptyRun(c, image, Advance(c, s, chunks[0]), chunks[1..]);
    } else {
      LongEnough(chunks[1..]);
    }
  }

  lemma EmptyEnd(c: Crypto, image: seq<Byte>)
    requires EmptyImage(c, image)
    ensures End(c, Live(image, 0)) == EspOk <==> Tag(c, KeyOf(c, image), IvOf(image), []) == AuthOf(image)
  {
    hide Tag, KeyOf, HeaderOk;
    assert Ciphertext(image) == [];
  }

  /** Every cut of an image with an empty payload ends in NO_MEM instead of OK; `end` then accepts it
      exactly if its tag is that of the empty ciphertext. */
  lemma EmptyPayload(c: Crypto, image: seq<Byte>, chunks: seq<seq<Byte>>)
    requires EmptyImage(c, image) && Concat(chunks) == image && NonEmpty(chunks)
    ensures chunks != [] && Verdicts(c, FRESH, chunks) == seq(|chunks| - 1, _ => NotFinished) + [NoMem]
    ensures Outputs(c, FRESH, chunks) == []
    ensures End(c, Run(c, FRESH, chunks)) == EspOk <==> Tag(c, KeyOf(c, image), IvOf(image), []) == AuthOf(image)
  {
    hide Run, Outputs, Verdicts, Concat, Tag, End;
    assert [] + image == image;
    EmptyRun(c, image, FRESH, chunks);
    EmptyEnd(c, image);
  }

  lemma LongEnough(chunks: seq<seq<Byte>>)
    requires NonEmpty(chunks)
    ensures |Concat(chunks)| >= |chunks|
  {
    if chunks != [] { LongEnough(chunks[1..]); }
  }

  lemma SettledExact(c: Crypto, s: Session)
    requires Sound(c, s) && InDecode(s) && |s.received| == HEADER + Declared(s.received)
    ensures Settled(c, s) == Plain(c, s.received)
  {
    NoWrap(|s.received| - HEADER);
    assert Complete(s.received);
  }

  /** On a stream of exactly the declared length, all of it has been decrypted and output. */
  lemma ExactOutputs(c: Crypto, chunks: seq<seq<Byte>>)
    requires var r := Concat(chunks); |r| >= HEADER && HeaderOk(c, r) && |r| == HEADER + Declared(r)
    ensures Outputs(c, FRESH, chunks) == Plain(c, Concat(chunks))
  {
    RunFromFresh(c, chunks);
    OutputsAreSettled(c, FRESH, chunks);
    SettledExact(c, Run(c, FRESH, chunks));
  }

  /** Chunk independence: every way of cutting a well-formed image into non-empty chunks makes all
      calls but the last return NOT_FINISHED, the last OK, and outputs the one-shot decryption. */
  lemma ChunkIndependence(c: Crypto, image: seq<Byte>, chunks: seq<seq<Byte>>)
    requires WellFormed(c, image) && Concat(chunks) == image && NonEmpty(chunks)
    ensures chunks != []
    ensures Verdicts(c, FRESH, chunks) == seq(|chunks| - 1, _ => NotFinished) + [EspOk]
    ensures Outputs(c, FRESH, chunks) == Plain(c, image)
    ensures Run(c, FRESH, chunks) == Live(image, Declared(image))
  {
    assert [] + image == image;
    PartwayRun(c, image, FRESH, chunks);
    ExactOutputs(c, chunks);
  }

  /** As many bytes as declared, up to wraps of the 32-bit counter. */
  lemma CountedExactly(r: seq<Byte>)
    requires |r| >= HEADER
    ensures Complete(r) <==> (|r| - HEADER - Declared(r)) % WORD == 0
    ensures |r| < HEADER + WORD ==> (Complete(r) <==> |r| == HEADER + Declared(r))
  {
    assert (|r| - HEADER) % WORD < WORD && Declared(r) < WORD;
  }

  lemma EndExact(c: Crypto, s: Session)
    requires Sound(c, s) && InDecode(s)
    ensures var r := s.received;
            && (End(c, s) == EspOk <==> (|r| - HEADER - Declared(r)) % WORD == 0 && TagOf(c, r) == AuthOf(r))
            && (|r| < HEADER + WORD ==> ((|r| - HEADER - Declared(r)) % WORD == 0 <==> |r| == HEADER + Declared(r)))
  {
    hide Declared, TagOf, AuthOf;
    CountedExactly(s.received);
  }

  /** Accept iff exact: `end` accepts exactly the streams whose header is acceptable, whose length
      is the declared one, as far as a 32-bit counter can tell, and whose tag is the one-shot tag,
      however they were cut; plus, against its documentation, every stream that has not got past its
      header. Below 2^32 ciphertext bytes the length is the declared one. */
  lemma AcceptIffExact(c: Crypto, chunks: seq<seq<Byte>>)
    ensures var r := Concat(chunks); var s := Run(c, FRESH, chunks);
            && (InDecode(s) <==> |r| >= HEADER && HeaderOk(c, r))
            && (End(c, s) == EspOk <==>
                  || !InDecode(s)
                  || ((|r| - HEADER - Declared(r)) % WORD == 0 && TagOf(c, r) == AuthOf(r)))
            && (InDecode(s) && |r| < HEADER + WORD ==>
                  ((|r| - HEADER - Declared(r)) % WORD == 0 <==> |r| == HEADER + Declared(r)))
  {
    hide Declared, TagOf, AuthOf, Run, Concat;
    RunFromFresh(c, chunks);
    var s := Run(c, FRESH, chunks);
    if InDecode(s) { EndExact(c, s); }
  }

  /** An input for that: after four bytes that are not the magic, the session is dead and `end` says OK. */
  lemma EarlyOk(c: Crypto)
    ensures var s := Run(c, FRESH, [[1, 2, 3, 4]]); s == Dead && End(c, s) == EspOk
  {
    var r := [] + [1, 2, 3, 4];
    assert r[..KEY_AT] == [1, 2, 3, 4];
    assert MagicOf(r) != MAGIC;
    assert Advance(c, FRESH, [1, 2, 3, 4]) == Dead;
    DeadStaysDead(c, [[1, 2, 3, 4]][1..]);
  }
}
