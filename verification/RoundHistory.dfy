/** What holds over every run of the client's round: any sequence of messages and timeout
    sweeps from initialisation, whatever the senders and the clock do. The client meant is one
    whose fields are large enough for what is copied into them; PeersNeedKeys says which runs of
    the actual client rely on that. */
module RoundHistory {
  import opened Words
  import opened Field
  import opened Protocol
  import opened Sequences
  import opened StateMachine

  datatype Event = Received(m: Message) | Swept(now: uint32, limit: uint32)

  predicate DefinedEvent(c: Ctx, e: Event) {
    e.Received? ==> Defined(c, e.m)
  }

  function Next(c: Ctx, e: Event): Ctx
    requires DefinedEvent(c, e)
  {
    match e
    case Received(m) => Step(c, m).0
    case Swept(now, limit) => TimeoutStep(c, now, limit)
  }

  /** Every message of the run has well-formed round parameters where it is read for them. */
  predicate Lawful(c: Ctx, events: seq<Event>)
    decreases |events|
  {
    events == [] || (DefinedEvent(c, events[0]) && Lawful(Next(c, events[0]), events[1..]))
  }

  function Run(c: Ctx, events: seq<Event>): Ctx
    requires Lawful(c, events)
    decreases |events|
  {
    if events == [] then c else Run(Next(c, events[0]), events[1..])
  }

  lemma Unfold(c: Ctx, events: seq<Event>)
    requires events != [] && Lawful(c, events)
    ensures DefinedEvent(c, events[0]) && Lawful(Next(c, events[0]), events[1..])
    ensures Run(c, events) == Run(Next(c, events[0]), events[1..])
    ensures Moves(c, events) == Move(c, events[0]) + Moves(Next(c, events[0]), events[1..])
    ensures Stream(c, events) == Accepted(c, events[0]) + Stream(Next(c, events[0]), events[1..])
  {
    hide Next, Move, Accepted, DefinedEvent;
  }

  // ----- the chain of states ------------------------------------------------------------

  const CHAIN := [RoundInit, KeySetup, MaskSetup, LocalTraining, MaskedUpdateStream,
                  ClientCompletion, MaskRecovery, Unmask, FedAvg, RoundComplete]

  /** The message types that lead out of the i-th state; the others take any message. */
  predicate Opens(i: nat, messageType: byte) {
    match i
    case 0 => messageType == MSG_ROUND_INIT
    case 1 => messageType == MSG_KEM_CIPHERTEXT
    case 2 => messageType == MSG_PAIRWISE_CONFIRM
    case 4 => messageType == MSG_CLIENT_COMPLETE
    case 5 => messageType == MSG_DROPOUT_NOTIFY
    case 6 => messageType == MSG_RECOVERY_COMPLETE
    case _ => true
  }

  /** The messages that moved the state, by type. */
  function Moves(c: Ctx, events: seq<Event>): seq<byte>
    requires Lawful(c, events)
    decreases |events|
  {
    if events == [] then []
    else Move(c, events[0]) + Moves(Next(c, events[0]), events[1..])
  }

  function Move(c: Ctx, e: Event): seq<byte>
    requires DefinedEvent(c, e)
  {
    if e.Received? && Next(c, e).state != c.state then [e.m.hdr.messageType] else []
  }

  /** The moves made so far determine where the client is, unless it timed out. */
  ghost predicate OnChain(c: Ctx, moves: seq<byte>) {
    && |moves| <= 9
    && (forall i :: 0 <= i < |moves| ==> Opens(i, moves[i]))
    && (c.state == CHAIN[|moves|] || (c.state == DropoutDetection && |moves| < 9))
  }

  lemma OnChainStep(c: Ctx, moves: seq<byte>, e: Event)
    requires DefinedEvent(c, e) && OnChain(c, moves)
    ensures OnChain(Next(c, e), moves + Move(c, e))
  {}

  lemma {:induction false} OnChainRun(c: Ctx, moves: seq<byte>, events: seq<Event>)
    requires Lawful(c, events) && OnChain(c, moves)
    ensures OnChain(Run(c, events), moves + Moves(c, events))
    decreases |events|
  {
    if events == [] {
      assert moves + [] == moves;
    } else {
      hide OnChain, Next, Move, Run, Moves, Lawful, DefinedEvent;
      Unfold(c, events);
      OnChainStep(c, moves, events[0]);
      OnChainRun(Next(c, events[0]), moves + Move(c, events[0]), events[1..]);
      Associative(moves, Move(c, events[0]), Moves(Next(c, events[0]), events[1..]));
    }
  }

  /** In every run the client is where its accepted messages put it, or has timed out. Reaching
      ROUND_COMPLETE takes all nine moves: ROUND_INIT, KEM_CIPHERTEXT, PAIRWISE_CONFIRM, one
      message of any type, CLIENT_COMPLETE, DROPOUT_NOTIFY, RECOVERY_COMPLETE and two more. */
  lemma RoundOrder(clientId: byte, roundId: uint32, tick: uint32, events: seq<Event>)
    requires Lawful(InitCtx(clientId, roundId, tick), events)
    ensures var c, moves := Run(InitCtx(clientId, roundId, tick), events), Moves(InitCtx(clientId, roundId, tick), events);
      && OnChain(c, moves)
      && (c.state == RoundComplete <==> |moves| == 9)
      && (|moves| > 0 ==> moves[0] == 0x40) && (|moves| > 1 ==> moves[1] == 0x02) && (|moves| > 2 ==> moves[2] == 0x13)
      && (|moves| > 4 ==> moves[4] == 0x30) && (|moves| > 5 ==> moves[5] == 0x31) && (|moves| > 6 ==> moves[6] == 0x33)
      && (c.state == DropoutDetection
          || c.state == [RoundInit, KeySetup, MaskSetup, LocalTraining, MaskedUpdateStream, ClientCompletion,
                         MaskRecovery, Unmask, FedAvg, RoundComplete][|moves|])
  {
    var init := InitCtx(clientId, roundId, tick);
    OnChainRun(init, [], events);
    assert [] + Moves(init, events) == Moves(init, events);
    hide Run, Moves;
    ChainRead(Run(init, events), Moves(init, events));
  }

  lemma ChainRead(c: Ctx, moves: seq<byte>)
    requires OnChain(c, moves)
    ensures c.state == RoundComplete <==> |moves| == 9
    ensures (|moves| > 0 ==> moves[0] == 0x40) && (|moves| > 1 ==> moves[1] == 0x02) && (|moves| > 2 ==> moves[2] == 0x13)
    ensures (|moves| > 4 ==> moves[4] == 0x30) && (|moves| > 5 ==> moves[5] == 0x31) && (|moves| > 6 ==> moves[6] == 0x33)
    ensures |moves| <= 9
    ensures c.state == DropoutDetection
         || c.state == [RoundInit, KeySetup, MaskSetup, LocalTraining, MaskedUpdateStream, ClientCompletion,
                        MaskRecovery, Unmask, FedAvg, RoundComplete][|moves|]
  {}

  /** No event moves the state by more than one place. */
  lemma OnePlaceAtATime(c: Ctx, e: Event, i: nat)
    requires DefinedEvent(c, e) && i < |CHAIN| && c.state == CHAIN[i]
    ensures Next(c, e).state == CHAIN[i]
         || (e.Received? && i + 1 < |CHAIN| && Next(c, e).state == CHAIN[i + 1] && Step(c, e.m).1 == Success)
         || (e.Swept? && i + 1 < |CHAIN| && Next(c, e).state == DropoutDetection)
  {}

  // ----- timing out -----------------------------------------------------------------------

  /** Some sweep found the deadline passed. */
  predicate TimedOut(c: Ctx, events: seq<Event>)
    requires Lawful(c, events)
    decreases |events|
  {
    events != [] &&
    ((events[0].Swept? && Expired(c, events[0].now, events[0].limit)) || TimedOut(Next(c, events[0]), events[1..]))
  }

  lemma {:induction false} Absorbed(c: Ctx, events: seq<Event>)
    requires Lawful(c, events) && (c.state == DropoutDetection || c.state == RoundComplete)
    ensures Run(c, events).state == c.state
    ensures Moves(c, events) == []
    decreases |events|
  {
    if events != [] {
      Absorbed(Next(c, events[0]), events[1..]);
    }
  }

  /** DROPOUT_DETECTION is entered by timing out and in no other way, and never left. */
  lemma {:induction false} DropoutExactly(c: Ctx, events: seq<Event>)
    requires Lawful(c, events) && c.state != DropoutDetection
    ensures Run(c, events).state == DropoutDetection <==> TimedOut(c, events)
    decreases |events|
  {
    if events != [] {
      var d := Next(c, events[0]);
      if d.state == DropoutDetection {
        Absorbed(d, events[1..]);
      } else {
        DropoutExactly(d, events[1..]);
        assert !(events[0].Swept? && Expired(c, events[0].now, events[0].limit));
      }
    }
  }

  // ----- identity, peers and shares ---------------------------------------------------------

  /** The message filter lets only the server's id and the client's own through, so those are
      the only peers a client ever learns; streaming needs at least one of them, and completion
      a threshold its share count can meet. */
  ghost predicate Bound(c: Ctx, clientId: byte, roundId: uint32, moves: seq<byte>) {
    && c.clientId == clientId && c.roundId == roundId
    && (forall i :: 0 <= i < |c.peers| ==> c.peers[i] == 0 || c.peers[i] == clientId)
    && (forall i, j :: 0 <= i < j < |c.peers| ==> c.peers[i] != c.peers[j])
    && (|moves| >= 3 ==> c.peers != [])
    && (|moves| >= 5 ==> 0 < c.threshold <= c.numShares)
  }

  lemma BoundStep(c: Ctx, clientId: byte, roundId: uint32, moves: seq<byte>, e: Event)
    requires DefinedEvent(c, e) && OnChain(c, moves) && Bound(c, clientId, roundId, moves)
    ensures Bound(Next(c, e), clientId, roundId, moves + Move(c, e))
  {
    if e.Received? {
      hide ChunkCount, PayloadModelSize, Opens;
    }
  }

  lemma {:induction false} BoundRun(c: Ctx, clientId: byte, roundId: uint32, moves: seq<byte>, events: seq<Event>)
    requires Lawful(c, events) && OnChain(c, moves) && Bound(c, clientId, roundId, moves)
    ensures Bound(Run(c, events), clientId, roundId, moves + Moves(c, events))
    decreases |events|
  {
    if events == [] {
      assert moves + [] == moves;
    } else {
      hide OnChain, Bound, Next, Move, Run, Moves, Lawful, DefinedEvent;
      Unfold(c, events);
      OnChainStep(c, moves, events[0]);
      BoundStep(c, clientId, roundId, moves, events[0]);
      BoundRun(Next(c, events[0]), clientId, roundId, moves + Move(c, events[0]), events[1..]);
      Associative(moves, Move(c, events[0]), Moves(Next(c, events[0]), events[1..]));
    }
  }

  lemma PeersOfARun(clientId: byte, roundId: uint32, tick: uint32, events: seq<Event>)
    requires Lawful(InitCtx(clientId, roundId, tick), events)
    ensures var c := Run(InitCtx(clientId, roundId, tick), events);
      && (forall p :: p in c.peers ==> p == 0 || p == clientId)
      && |c.peers| <= 2
      && (c.state in {LocalTraining, MaskedUpdateStream, ClientCompletion, MaskRecovery, Unmask, FedAvg, RoundComplete} ==>
            c.peers != [])
      && (c.state in {ClientCompletion, MaskRecovery, Unmask, FedAvg, RoundComplete} ==> 0 < c.threshold <= c.numShares)
  {
    var init := InitCtx(clientId, roundId, tick);
    var c, moves := Run(init, events), Moves(init, events);
    RoundOrder(clientId, roundId, tick, events);
    BoundRun(init, clientId, roundId, [], events);
    assert [] + moves == moves;
    AtMostTwo(c.peers, clientId);
  }

  /** A peer's public key is accepted: 1184 bytes go into that peer's shared_secret, a field of
      32. */
  predicate StoresKey(c: Ctx, e: Event) {
    && e.Received? && Addressed(c, e.m) && c.state == MaskSetup
    && e.m.hdr.messageType == MSG_PAIRWISE_KEM_PUBKEY && e.m.hdr.payloadLength == ML_KEM_768_PUBLIC_KEY_BYTES
    && (e.m.hdr.clientId in c.peers || |c.peers| < MAX_PEERS)
  }

  /** Some event of the run stores a key. */
  predicate KeyStored(c: Ctx, events: seq<Event>)
    requires Lawful(c, events)
    decreases |events|
  {
    events != [] && (StoresKey(c, events[0]) || KeyStored(Next(c, events[0]), events[1..]))
  }

  lemma KeyStep(c: Ctx, e: Event)
    requires DefinedEvent(c, e)
    ensures Next(c, e).peers == [] <==> c.peers == [] && !StoresKey(c, e)
  {}

  lemma {:induction false} KeyRun(c: Ctx, events: seq<Event>)
    requires Lawful(c, events)
    ensures Run(c, events).peers == [] <==> c.peers == [] && !KeyStored(c, events)
    decreases |events|
  {
    if events != [] {
      hide Next, StoresKey, DefinedEvent;
      KeyStep(c, events[0]);
      KeyRun(Next(c, events[0]), events[1..]);
    }
  }

  /** A client has peers exactly if a key has been stored, so no run gets past MASK_SETUP, or can
      complete a round, without that copy. */
  lemma PeersNeedKeys(clientId: byte, roundId: uint32, tick: uint32, events: seq<Event>)
    requires Lawful(InitCtx(clientId, roundId, tick), events)
    ensures var init := InitCtx(clientId, roundId, tick);
      && (Run(init, events).peers != [] <==> KeyStored(init, events))
      && (!KeyStored(init, events) ==>
            Run(init, events).state in {RoundInit, KeySetup, MaskSetup, DropoutDetection})
      && (!KeyStored(init, events) ==> |Moves(init, events)| <= 2)
  {
    var init := InitCtx(clientId, roundId, tick);
    KeyRun(init, events);
    RoundOrder(clientId, roundId, tick, events);
    BoundRun(init, clientId, roundId, [], events);
    assert [] + Moves(init, events) == Moves(init, events);
  }

  lemma ThirdRepeats(peers: seq<byte>, clientId: byte)
    requires |peers| > 2
    requires forall i :: 0 <= i < |peers| ==> peers[i] == 0 || peers[i] == clientId
    ensures exists i, j :: 0 <= i < j < |peers| && peers[i] == peers[j]
  {
    assert peers[0] == peers[1] || peers[0] == peers[2] || peers[1] == peers[2];
  }

  lemma AtMostTwo(peers: seq<byte>, clientId: byte)
    requires forall i :: 0 <= i < |peers| ==> peers[i] == 0 || peers[i] == clientId
    requires forall i, j :: 0 <= i < j < |peers| ==> peers[i] != peers[j]
    ensures |peers| <= 2
  {
    if |peers| > 2 {
      ThirdRepeats(peers, clientId);
    }
  }

  // ----- chunk accounting ---------------------------------------------------------------------

  datatype Chunk = Chunk(sequenceNumber: uint16, length: uint16)

  predicate Accepts(c: Ctx, e: Event)
    requires DefinedEvent(c, e)
  {
    e.Received? && c.state == MaskedUpdateStream && e.m.hdr.messageType == MSG_MASK_CHUNK && Step(c, e.m).1 == Success
  }

  function Accepted(c: Ctx, e: Event): seq<Chunk>
    requires DefinedEvent(c, e)
  {
    if Accepts(c, e) then [Chunk(e.m.hdr.sequenceNumber, e.m.payloadLen)] else []
  }

  /** The chunks accepted in a run. */
  function Stream(c: Ctx, events: seq<Event>): seq<Chunk>
    requires Lawful(c, events)
    decreases |events|
  {
    if events == [] then [] else Accepted(c, events[0]) + Stream(Next(c, events[0]), events[1..])
  }

  function Bytes(s: seq<Chunk>): nat {
    if s == [] then 0 else Bytes(s[..|s| - 1]) + s[|s| - 1].length
  }

  /** After n accepted chunks the final flag has been raised: some count up to n, as stored in
      16 bits, had reached the last chunk. */
  ghost predicate FinalAfter(n: nat, total: uint16) {
    exists m :: 1 <= m <= n && m % HALF >= total - 1
  }

  ghost predicate ChunkFits(i: nat, chunk: Chunk, k: Chunks) {
    && chunk.sequenceNumber == i % HALF
    && (chunk.length == k.chunkSize || (FinalAfter(i, k.totalChunks) && chunk.length < k.chunkSize))
  }

  ghost predicate Accounted(c: Ctx, s: seq<Chunk>) {
    var k := c.chunks;
    && k.chunkIndex == |s| % HALF
    && k.bytesProcessed == Bytes(s) % WORD
    && (k.isFinal <==> FinalAfter(|s|, k.totalChunks))
    && (forall i :: 0 <= i < |s| ==> ChunkFits(i, s[i], k))
    && (c.state == RoundInit ==> s == [] && k == NO_CHUNKS)
    && (s != [] ==> 0 < k.chunkSize <= CHUNK_BUFFER_BYTES + 1)
    && (c.state != RoundInit && k.chunkSize > 0 ==> k.totalChunks == ChunkCount(k.modelTotalBytes, k.chunkSize))
    && (c.state in {KeySetup, MaskSetup, LocalTraining, MaskedUpdateStream} ==> k.chunkSize > 0)
  }

  lemma FinalNext(n: nat, total: uint16)
    ensures FinalAfter(n + 1, total) <==> FinalAfter(n, total) || (n + 1) % HALF >= total - 1
  {
    if FinalAfter(n + 1, total) && !FinalAfter(n, total) {
      var m :| 1 <= m <= n + 1 && m % HALF >= total - 1;
      assert m == n + 1;
    }
  }

  lemma BytesAppend(s: seq<Chunk>, x: Chunk)
    ensures Bytes(s + [x]) == Bytes(s) + x.length
  {
    assert (s + [x])[..|s|] == s;
  }

  /** What accepting a chunk changes, and what it took to be accepted. */
  lemma AcceptedEffect(c: Ctx, m: Message)
    requires Defined(c, m) && Accepts(c, Received(m))
    ensures var k, d := c.chunks, Step(c, m).0;
      && c.state == MaskedUpdateStream
      && m.hdr.sequenceNumber == k.chunkIndex
      && (m.payloadLen == k.chunkSize || (k.isFinal && m.payloadLen < k.chunkSize))
      && k.chunkSize <= CHUNK_BUFFER_BYTES + 1
      && d.state == MaskedUpdateStream
      && d.chunks.chunkIndex == (k.chunkIndex + 1) % HALF
      && d.chunks.bytesProcessed == (k.bytesProcessed + m.payloadLen) % WORD
      && d.chunks.isFinal == (k.isFinal || d.chunks.chunkIndex >= k.totalChunks - 1)
      && d.chunks.totalChunks == k.totalChunks && d.chunks.chunkSize == k.chunkSize
      && d.chunks.modelTotalBytes == k.modelTotalBytes
  {}

  lemma CounterStep(n: nat, a: nat, m: nat)
    requires m == HALF || m == WORD
    ensures (n % m + a) % m == (n + a) % m
  {}

  lemma AccountedChunk(c: Ctx, s: seq<Chunk>, m: Message)
    requires Defined(c, m) && Accounted(c, s) && Accepts(c, Received(m))
    ensures Accounted(Step(c, m).0, s + [Chunk(m.hdr.sequenceNumber, m.payloadLen)])
  {
    hide FinalAfter, Bytes, Step, Accepts, Defined, ChunkCount;
    var x := Chunk(m.hdr.sequenceNumber, m.payloadLen);
    FinalNext(|s|, c.chunks.totalChunks);
    BytesAppend(s, x);
    AcceptedEffect(c, m);
    CounterStep(|s|, 1, HALF);
    CounterStep(Bytes(s), m.payloadLen, WORD);
    var d := Step(c, m).0;
    forall i | 0 <= i <= |s|
      ensures ChunkFits(i, (s + [x])[i], d.chunks)
    {
      if i < |s| { assert ChunkFits(i, s[i], c.chunks); }
    }
  }

  lemma AccountedStep(c: Ctx, s: seq<Chunk>, e: Event)
    requires DefinedEvent(c, e) && Accounted(c, s)
    ensures Accounted(Next(c, e), s + Accepted(c, e))
  {
    hide FinalAfter, Bytes, ChunkFits, ChunkCount;
    if Accepts(c, e) {
      AccountedChunk(c, s, e.m);
    } else {
      assert s + [] == s;
      if Next(c, e).chunks != c.chunks {
        NothingFinal(Next(c, e).chunks.totalChunks);
      }
    }
  }

  lemma NothingFinal(total: uint16)
    ensures !FinalAfter(0, total) && Bytes([]) == 0
  {}

  lemma {:induction false} AccountedRun(c: Ctx, s: seq<Chunk>, events: seq<Event>)
    requires Lawful(c, events) && Accounted(c, s)
    ensures Accounted(Run(c, events), s + Stream(c, events))
    decreases |events|
  {
    if events == [] {
      assert s + [] == s;
    } else {
      hide Accounted, Next, Accepted, Run, Stream, Lawful, DefinedEvent;
      Unfold(c, events);
      AccountedStep(c, s, events[0]);
      AccountedRun(Next(c, events[0]), s + Accepted(c, events[0]), events[1..]);
      Associative(s, Accepted(c, events[0]), Stream(Next(c, events[0]), events[1..]));
    }
  }

  /** In every run the i-th accepted chunk carries sequence number i, counted in 16 bits; the
      byte counter is the sum of the accepted lengths, counted in 32. */
  lemma ChunkAccounting(clientId: byte, roundId: uint32, tick: uint32, events: seq<Event>)
    requires Lawful(InitCtx(clientId, roundId, tick), events)
    ensures Accounted(Run(InitCtx(clientId, roundId, tick), events), Stream(InitCtx(clientId, roundId, tick), events))
  {
    var init := InitCtx(clientId, roundId, tick);
    NothingFinal(0);
    AccountedRun(init, [], events);
    assert [] + Stream(init, events) == Stream(init, events);
  }

  lemma {:induction false} FullChunks(s: seq<Chunk>, size: nat)
    requires forall i :: 0 <= i < |s| ==> s[i].length == size
    ensures Bytes(s) == |s| * size
  {
    if s != [] {
      FullChunks(s[..|s| - 1], size);
      FullStep(|s|, size);
    }
  }

  lemma FullStep(n: nat, size: nat)
    requires n > 0
    ensures (n - 1) * size + size == n * size
  {}

  /** Before the announced last chunk every accepted chunk is full. */
  lemma FullUntilLast(c: Ctx, s: seq<Chunk>)
    requires Accounted(c, s) && |s| < c.chunks.totalChunks
    ensures Bytes(s) == |s| * c.chunks.chunkSize
  {
    var k := c.chunks;
    forall i | 0 <= i < |s|
      ensures s[i].length == k.chunkSize
    {
      assert ChunkFits(i, s[i], k);
      NotFinalYet(i, k.totalChunks);
    }
    FullChunks(s, k.chunkSize);
  }

  lemma NotFinalYet(i: nat, total: uint16)
    requires i < total - 1
    ensures !FinalAfter(i, total)
  {}

  /** After exactly the announced number of chunks the byte count is within the last chunk; a
      single chunk has to be full. */
  lemma AllChunks(c: Ctx, s: seq<Chunk>)
    requires Accounted(c, s) && |s| == c.chunks.totalChunks >= 1
    ensures var k := c.chunks;
      && (k.totalChunks - 1) * k.chunkSize <= k.bytesProcessed <= k.totalChunks * k.chunkSize
      && (k.totalChunks == 1 ==> k.bytesProcessed == k.chunkSize)
  {
    var k := c.chunks;
    var n := |s| - 1;
    AllButLast(c, s);
    assert ChunkFits(n, s[n], k);
    assert k.totalChunks == 1 ==> s[n].length == k.chunkSize by { NothingFinal(k.totalChunks); }
    assert k.bytesProcessed == Bytes(s) % WORD;
    hide Accounted, ChunkFits, Bytes, FinalAfter;
    assert s[n].length <= k.chunkSize by { LastFits(n, s[n], k); }
    ByteRange(k.totalChunks, k.chunkSize, s[n].length, Bytes(s));
  }

  lemma LastFits(i: nat, chunk: Chunk, k: Chunks)
    requires ChunkFits(i, chunk, k)
    ensures chunk.length <= k.chunkSize
  {}

  lemma ByteRange(total: uint16, size: uint16, last: uint16, bytes: nat)
    requires total > 0 && last <= size && bytes == (total - 1) * size + last
    ensures (total - 1) * size <= bytes % WORD <= total * size
  {
    FullStep(total, size);
    MulMono(total, HALF - 1, size, HALF - 1);
  }

  lemma AllButLast(c: Ctx, s: seq<Chunk>)
    requires Accounted(c, s) && |s| == c.chunks.totalChunks >= 1
    ensures Bytes(s) == (|s| - 1) * c.chunks.chunkSize + s[|s| - 1].length
  {
    hide FinalAfter;
    var k := c.chunks;
    var n := |s| - 1;
    forall i | 0 <= i < n
      ensures s[..n][i].length == k.chunkSize
    {
      assert ChunkFits(i, s[i], k);
      NotFinalYet(i, k.totalChunks);
    }
    FullChunks(s[..n], k.chunkSize);
  }

  /** The chunk count covers the model, unless the announced sizes overflow the counters. */
  lemma CountCovers(model: uint32, size: uint16)
    requires size > 0 && model + size - 1 < WORD && (model + size - 1) / size < HALF
    ensures model <= ChunkCount(model, size) * size
    ensures model > 0 ==> (ChunkCount(model, size) - 1) * size < model
    ensures model == 0 ==> ChunkCount(model, size) == 0
  {
    var a := model + size - 1;
    CountWithin(model, size);
    hide ChunkCount;
    if model == 0 { DivUnique(a, 0, a, size); }
    CeilingBounds(model, size, a / size, a % size);
  }

  lemma CeilingBounds(model: nat, size: nat, q: nat, r: nat)
    requires r < size && model + size - 1 == q * size + r
    ensures (q - 1) * size < model + (if model == 0 then size + 1 else 0) && model <= q * size
  {
    assert (q - 1) * size == q * size - size;
  }

  /** Over whole runs: after exactly the announced number of chunks, the bytes processed are
      within one chunk of the announced model size. */
  lemma StreamMatchesModel(clientId: byte, roundId: uint32, tick: uint32, events: seq<Event>)
    requires Lawful(InitCtx(clientId, roundId, tick), events)
    requires var k := Run(InitCtx(clientId, roundId, tick), events).chunks;
      && |Stream(InitCtx(clientId, roundId, tick), events)| == k.totalChunks >= 1
      && k.modelTotalBytes + k.chunkSize - 1 < WORD
      && k.modelTotalBytes + k.chunkSize - 1 < HALF * k.chunkSize
    ensures var k := Run(InitCtx(clientId, roundId, tick), events).chunks;
      -(k.chunkSize as int) <= k.bytesProcessed - k.modelTotalBytes < k.chunkSize
  {
    var init := InitCtx(clientId, roundId, tick);
    var c, s := Run(init, events), Stream(init, events);
    ChunkAccounting(clientId, roundId, tick, events);
    hide Run, Stream;
    WithinOneChunk(c, s);
  }

  lemma Streamed(c: Ctx, s: seq<Chunk>)
    requires Accounted(c, s) && s != []
    ensures c.chunks.chunkSize > 0 && c.chunks.totalChunks == ChunkCount(c.chunks.modelTotalBytes, c.chunks.chunkSize)
  {
    hide ChunkFits, Bytes, FinalAfter, ChunkCount;
  }

  lemma WithinOneChunk(c: Ctx, s: seq<Chunk>)
    requires Accounted(c, s) && |s| == c.chunks.totalChunks >= 1
    requires c.chunks.modelTotalBytes + c.chunks.chunkSize - 1 < WORD
    requires c.chunks.modelTotalBytes + c.chunks.chunkSize - 1 < HALF * c.chunks.chunkSize
    ensures -(c.chunks.chunkSize as int) <= c.chunks.bytesProcessed - c.chunks.modelTotalBytes < c.chunks.chunkSize
  {
    hide ChunkFits, Bytes, FinalAfter, ChunkCount;
    var k := c.chunks;
    assert k.chunkSize > 0 && k.totalChunks == ChunkCount(k.modelTotalBytes, k.chunkSize) by { Streamed(c, s); }
    AllChunks(c, s);
    hide Accounted;
    QuotientBelow(k.modelTotalBytes + k.chunkSize - 1, k.chunkSize);
    CountCovers(k.modelTotalBytes, k.chunkSize);
    FullStep(k.totalChunks, k.chunkSize);
  }

  lemma QuotientBelow(a: nat, size: nat)
    requires size > 0 && a < HALF * size
    ensures a / size < HALF
  {
    var q := a / size;
    assert a == q * size + a % size;
    if q >= HALF { MulMono(HALF, q, size, size); }
  }

  // ----- which states can still complete the round ------------------------------------------------

  /** On the chain, and not waiting for a share count that can no longer be met. */
  predicate Completable(c: Ctx) {
    match c.state
    case RoundInit => true
    case KeySetup | MaskSetup | LocalTraining | MaskedUpdateStream => 0 < c.threshold <= c.numShares
    case ClientCompletion | MaskRecovery | Unmask | FedAvg | RoundComplete => true
    case _ => false
  }

  function Rank(c: Ctx): nat {
    match c.state
    case RoundInit => 11
    case KeySetup => 10
    case MaskSetup => if c.peers == [] then 9 else 8
    case LocalTraining => 7
    case MaskedUpdateStream => 6
    case ClientCompletion => 5
    case MaskRecovery => 4
    case Unmask => 3
    case FedAvg => 2
    case _ => 1
  }

  /** A message that moves the round on from c, with every library call succeeding. */
  function Helpful(c: Ctx): Message {
    var payloadLength := if c.state == MaskSetup then ML_KEM_768_PUBLIC_KEY_BYTES else ML_KEM_768_CIPHERTEXT_BYTES;
    var messageType := match c.state
      case RoundInit => MSG_ROUND_INIT
      case KeySetup => if c.ciphertextLen == payloadLength then MSG_KEM_CIPHERTEXT else MSG_KEM_PUBLIC_KEY
      case MaskSetup => if c.peers == [] then MSG_PAIRWISE_KEM_PUBKEY else MSG_PAIRWISE_CONFIRM
      case MaskedUpdateStream => MSG_CLIENT_COMPLETE
      case ClientCompletion => MSG_DROPOUT_NOTIFY
      case _ => MSG_RECOVERY_COMPLETE;
    Message(Header(0, c.roundId, 0, messageType, 0, payloadLength, 0), [2, 1, 1, 0, 0, 0, 0, 0],
            0, 0, 0, Done, Done, ML_KEM_768_CIPHERTEXT_BYTES)
  }

  /** The one helpful message that does not leave its state: a fresh key pair, whose ciphertext
      length the next message will have. */
  predicate NeedsKey(c: Ctx) {
    c.state == KeySetup && c.ciphertextLen != ML_KEM_768_CIPHERTEXT_BYTES
  }

  lemma HelpfulStep(c: Ctx)
    requires Completable(c) && c.state != RoundComplete
    ensures var e := Received(Helpful(c));
      DefinedEvent(c, e) && Completable(Next(c, e)) &&
      if NeedsKey(c) then Next(c, e).state == KeySetup && !NeedsKey(Next(c, e)) && Rank(Next(c, e)) == Rank(c)
      else Rank(Next(c, e)) < Rank(c)
  {}

  lemma {:induction false} Completes(c: Ctx) returns (events: seq<Event>)
    requires Completable(c)
    ensures Lawful(c, events) && Run(c, events).state == RoundComplete
    decreases Rank(c), NeedsKey(c)
  {
    if c.state == RoundComplete {
      events := [];
    } else {
      HelpfulStep(c);
      hide Helpful, Next, Completable, Rank, NeedsKey;
      var e := Received(Helpful(c));
      var rest := Completes(Next(c, e));
      events := Prepended(c, e, rest);
    }
  }

  lemma Prepended(c: Ctx, e: Event, rest: seq<Event>) returns (events: seq<Event>)
    requires DefinedEvent(c, e) && Lawful(Next(c, e), rest)
    ensures Lawful(c, events) && Run(c, events) == Run(Next(c, e), rest)
  {
    hide Next, DefinedEvent;
    events := [e] + rest;
    assert events[1..] == rest;
  }

  lemma StuckStep(c: Ctx, e: Event)
    requires DefinedEvent(c, e) && !Completable(c)
    ensures !Completable(Next(c, e))
  {}

  lemma {:induction false} Stuck(c: Ctx, events: seq<Event>)
    requires Lawful(c, events) && !Completable(c)
    ensures Run(c, events).state != RoundComplete
    decreases |events|
  {
    if events != [] {
      hide Next;
      StuckStep(c, events[0]);
      Stuck(Next(c, events[0]), events[1..]);
    }
  }

  ghost predicate MayComplete(c: Ctx) {
    exists events: seq<Event> :: Lawful(c, events) && Run(c, events).state == RoundComplete
  }

  /** The round can still be completed from a state, by some continuation, exactly when the
      client has not left the chain and the announced threshold is one its share count meets. */
  lemma CompletionPossible(c: Ctx)
    ensures MayComplete(c) <==> Completable(c)
  {
    if Completable(c) {
      var events := Completes(c);
    } else if MayComplete(c) {
      var events :| Lawful(c, events) && Run(c, events).state == RoundComplete;
      Stuck(c, events);
    }
  }
}
