/** src/federated/state_machine.c: the client's round. Every handler is proved against a
    function on context values; runs of that function are studied in RoundHistory. */
module StateMachine {
  import opened Words
  import opened Protocol

  const MSG_KEM_PUBLIC_KEY: byte := 0x01
  const MSG_KEM_CIPHERTEXT: byte := 0x02
  const MSG_PAIRWISE_KEM_PUBKEY: byte := 0x10      // the values the server gives these two names
  const MSG_PAIRWISE_KEM_CIPHERTEXT: byte := 0x11
  const MSG_PAIRWISE_CONFIRM: byte := 0x13
  const MSG_MASK_CHUNK: byte := 0x21
  const MSG_CLIENT_COMPLETE: byte := 0x30
  const MSG_DROPOUT_NOTIFY: byte := 0x31
  const MSG_RECOVERY_COMPLETE: byte := 0x33
  const MSG_ROUND_INIT: byte := 0x40

  const ML_KEM_768_PUBLIC_KEY_BYTES := 1184
  const ML_KEM_768_CIPHERTEXT_BYTES := 1088
  const STATE_TIMEOUT_MS := 5000
  const MAX_CLIENTS := 16

  datatype State =
    | RoundInit
    | KeySetup
    | MaskSetup
    | LocalTraining
    | MaskedUpdateStream
    | ClientCompletion
    | Aggregation
    | DropoutDetection
    | MaskRecovery
    | Unmask
    | FedAvg
    | RoundComplete
    | Error

  datatype Chunks = Chunks(
    chunkIndex: uint16,
    totalChunks: uint16,
    chunkSize: uint16,
    modelTotalBytes: uint32,
    bytesProcessed: uint32,
    isFinal: bool)

  /** The outcome of a call into the cryptographic libraries. */
  datatype Outcome = Done | Failed(code: int)

  /** A message together with what the environment supplies while it is handled: the clock on
      entry and on a transition, and the results of the library calls a handler makes. */
  datatype Message = Message(
    hdr: Header,
    payload: seq<byte>,
    payloadLen: uint16,
    tick: uint32,
    doneTick: uint32,
    crypto: Outcome,
    share: Outcome,
    ciphertextLen: nat)

  /** The protocol-relevant part of client_protocol_ctx_t, as a value. Its fields are independent
      of each other: the model is the client whose fields hold what is copied into them. The
      code's key field is shorter than the public key MASK_SETUP copies there. */
  datatype Ctx = Ctx(
    clientId: byte,
    state: State,
    roundId: uint32,
    ciphertextLen: nat,
    peers: seq<byte>,
    chunks: Chunks,
    threshold: byte,
    numShares: byte,
    timeoutMs: uint32,
    lastTick: uint32)

  // ----- the step, as a function ---------------------------------------------------------

  const NO_CHUNKS := Chunks(0, 0, 0, 0, 0, false)

  function InitCtx(clientId: byte, roundId: uint32, tick: uint32): Ctx {
    Ctx(clientId, RoundInit, roundId, 0, [], NO_CHUNKS, 0, 0, STATE_TIMEOUT_MS, tick)
  }

  function Transition(c: Ctx, next: State, m: Message): (Ctx, Status) {
    if c.state == Error then (c, InvalidState) else (c.(state := next, lastTick := m.doneTick), Success)
  }

  function StatusOf(o: Outcome): Status {
    match o case Done => Success case Failed(code) => CryptoError(code)
  }

  // The round parameters, low byte first.
  function PayloadChunkSize(payload: seq<byte>): uint16
    requires |payload| >= 8
  {
    payload[2] as int + 0x100 * payload[3] as int
  }

  function PayloadModelSize(payload: seq<byte>): uint32
    requires |payload| >= 8
  {
    payload[4] as int + 0x100 * payload[5] as int + 0x1_0000 * payload[6] as int + 0x100_0000 * payload[7] as int
  }

  /** The chunk count as computed in 32 bits and stored in 16. */
  function ChunkCount(modelSize: uint32, chunkSize: uint16): uint16
    requires chunkSize > 0
  {
    (modelSize + chunkSize - 1) % WORD / chunkSize % HALF
  }

  predicate Addressed(c: Ctx, m: Message) {
    m.hdr.roundId == c.roundId && (m.hdr.clientId == 0 || m.hdr.clientId == c.clientId)
  }

  /** What is asked of a message: round parameters are eight bytes long and do not make the
      code divide by a zero chunk size. */
  predicate Defined(c: Ctx, m: Message) {
    Addressed(c, m) && c.state == RoundInit && m.hdr.messageType == MSG_ROUND_INIT ==>
      |m.payload| >= 8 && PayloadChunkSize(m.payload) > 0
  }

  function RoundInitStep(c: Ctx, m: Message): (Ctx, Status)
    requires m.hdr.messageType == MSG_ROUND_INIT ==> |m.payload| >= 8 && PayloadChunkSize(m.payload) > 0
  {
    if m.hdr.messageType != MSG_ROUND_INIT then (c, InvalidArgument)
    else
      var size, model := PayloadChunkSize(m.payload), PayloadModelSize(m.payload);
      Transition(c.(chunks := Chunks(0, ChunkCount(model, size), size, model, 0, false),
                    threshold := m.payload[1],
                    numShares := (m.payload[0] as int + 0xFF) % 0x100), KeySetup, m)
  }

  function KeySetupStep(c: Ctx, m: Message): (Ctx, Status) {
    if m.hdr.messageType == MSG_KEM_PUBLIC_KEY then
      (if m.crypto.Done? then c.(ciphertextLen := m.ciphertextLen) else c, StatusOf(m.crypto))
    else if m.hdr.messageType == MSG_KEM_CIPHERTEXT then
      if m.hdr.payloadLength != c.ciphertextLen then (c, InvalidArgument)
      else if m.crypto.Failed? then (c, StatusOf(m.crypto))
      else Transition(c, MaskSetup, m)
    else (c, InvalidArgument)
  }

  function MaskSetupStep(c: Ctx, m: Message): (Ctx, Status) {
    if m.hdr.messageType == MSG_PAIRWISE_KEM_PUBKEY then
      if m.hdr.payloadLength != ML_KEM_768_PUBLIC_KEY_BYTES then (c, InvalidArgument)
      else if m.hdr.clientId in c.peers || |c.peers| >= MAX_PEERS then (c, Success)
      else (c.(peers := c.peers + [m.hdr.clientId]), Success)
    else if m.hdr.messageType == MSG_PAIRWISE_KEM_CIPHERTEXT then
      if m.hdr.payloadLength != ML_KEM_768_CIPHERTEXT_BYTES then (c, InvalidArgument)
      else if m.hdr.clientId in c.peers then (c, StatusOf(m.crypto))
      else (c, InvalidArgument)
    else if m.hdr.messageType == MSG_PAIRWISE_CONFIRM then
      // seed derivation refuses an empty peer list
      if c.peers == [] then (c, InvalidArgument) else Transition(c, LocalTraining, m)
    else (c, InvalidArgument)
  }

  function StreamStep(c: Ctx, m: Message): (Ctx, Status) {
    var k := c.chunks;
    if m.hdr.sequenceNumber != k.chunkIndex then (c, SequenceMismatch)
    else if m.payloadLen != k.chunkSize && !(k.isFinal && m.payloadLen < k.chunkSize) then (c, ChunkTooLarge)
    // mask generation refuses a chunk larger than its buffer
    else if k.chunkSize / 2 > CHUNK_BUFFER_BYTES / 2 then (c, InvalidArgument)
    else
      var next := (k.chunkIndex + 1) % HALF;
      (c.(chunks := k.(chunkIndex := next,
                       bytesProcessed := (k.bytesProcessed + m.payloadLen) % WORD,
                       isFinal := k.isFinal || next >= k.totalChunks - 1)), Success)
  }

  function CompletionStep(c: Ctx, m: Message): (Ctx, Status) {
    if m.crypto.Failed? then (c, StatusOf(m.crypto))
    else if c.numShares < c.threshold || c.threshold == 0 || m.share.Failed? then (c, ShamirEncodeFailed)
    else Transition(c, ClientCompletion, m)
  }

  function Dispatch(c: Ctx, m: Message): (Ctx, Status)
    requires c.state == RoundInit && m.hdr.messageType == MSG_ROUND_INIT ==>
      |m.payload| >= 8 && PayloadChunkSize(m.payload) > 0
  {
    match c.state
    case RoundInit => RoundInitStep(c, m)
    case KeySetup => KeySetupStep(c, m)
    case MaskSetup => MaskSetupStep(c, m)
    case LocalTraining => Transition(c, MaskedUpdateStream, m)
    case MaskedUpdateStream =>
      if m.hdr.messageType == MSG_MASK_CHUNK then StreamStep(c, m)
      else if m.hdr.messageType == MSG_CLIENT_COMPLETE then CompletionStep(c, m)
      else (c, InvalidState)
    case ClientCompletion =>
      if m.hdr.messageType == MSG_DROPOUT_NOTIFY then Transition(c, MaskRecovery, m) else (c, InvalidArgument)
    case MaskRecovery =>
      if m.hdr.messageType == MSG_RECOVERY_COMPLETE then Transition(c, Unmask, m) else (c, InvalidArgument)
    case Unmask => Transition(c, FedAvg, m)
    case FedAvg => Transition(c, RoundComplete, m)
    case _ => (c, InvalidState)
  }

  function Step(c: Ctx, m: Message): (Ctx, Status)
    requires Defined(c, m)
  {
    if m.hdr.roundId != c.roundId then (c, RoundMismatch)
    else if m.hdr.clientId != 0 && m.hdr.clientId != c.clientId then (c, ClientIdMismatch)
    else Dispatch(c.(lastTick := m.tick), m)
  }

  /** The clock wraps at 32 bits; limit is ten seconds in platform ticks. */
  predicate Expired(c: Ctx, now: uint32, limit: uint32) {
    c.state != RoundComplete && c.state != Error && (now - c.lastTick) % WORD > limit
  }

  function TimeoutStep(c: Ctx, now: uint32, limit: uint32): Ctx {
    if Expired(c, now, limit) then c.(state := DropoutDetection) else c
  }

  // ----- what a step does, message by message ------------------------------------------------

  /** Exactly which messages succeed. */
  lemma SuccessConditions(c: Ctx, m: Message)
    requires Defined(c, m)
    ensures Step(c, m).1 == Success <==>
      && m.hdr.roundId == c.roundId && (m.hdr.clientId == 0 || m.hdr.clientId == c.clientId)
      && match c.state
         case RoundInit => m.hdr.messageType == 0x40
         case KeySetup =>
           m.crypto.Done? && (m.hdr.messageType == 0x01 || (m.hdr.messageType == 0x02 && m.hdr.payloadLength == c.ciphertextLen))
         case MaskSetup =>
           || (m.hdr.messageType == 0x10 && m.hdr.payloadLength == 1184)
           || (m.hdr.messageType == 0x11 && m.hdr.payloadLength == 1088 && m.hdr.clientId in c.peers && m.crypto.Done?)
           || (m.hdr.messageType == 0x13 && c.peers != [])
         case LocalTraining | Unmask | FedAvg => true
         case MaskedUpdateStream =>
           || (m.hdr.messageType == 0x21 && m.hdr.sequenceNumber == c.chunks.chunkIndex
               && (m.payloadLen == c.chunks.chunkSize || (c.chunks.isFinal && m.payloadLen < c.chunks.chunkSize))
               && c.chunks.chunkSize <= 1025)
           || (m.hdr.messageType == 0x30 && m.crypto.Done? && m.share.Done? && 0 < c.threshold <= c.numShares)
         case ClientCompletion => m.hdr.messageType == 0x31
         case MaskRecovery => m.hdr.messageType == 0x33
         case _ => false
  {}

  /** A message that does not succeed leaves everything but the clock; one not meant for the
      client in this round leaves the clock too. */
  lemma Refused(c: Ctx, m: Message)
    requires Defined(c, m) && Step(c, m).1 != Success
    ensures var addressed := m.hdr.roundId == c.roundId && (m.hdr.clientId == 0 || m.hdr.clientId == c.clientId);
      && Step(c, m).0 == c.(lastTick := if addressed then m.tick else c.lastTick)
      && (!addressed ==> Step(c, m).1 == if m.hdr.roundId != c.roundId then RoundMismatch else ClientIdMismatch)
  {}

  /** The status of a message refused: a failing library call reports its own code, the rest
      tells what was wrong. */
  lemma Errors(c: Ctx, m: Message)
    requires Defined(c, m) && Step(c, m).1 != Success
    requires m.hdr.roundId == c.roundId && (m.hdr.clientId == 0 || m.hdr.clientId == c.clientId)
    ensures Step(c, m).1 ==
      match c.state
      case RoundInit | ClientCompletion | MaskRecovery => InvalidArgument
      case KeySetup =>
        if m.crypto.Failed? && (m.hdr.messageType == 0x01
                                || (m.hdr.messageType == 0x02 && m.hdr.payloadLength == c.ciphertextLen))
        then CryptoError(m.crypto.code) else InvalidArgument
      case MaskSetup =>
        if m.hdr.messageType == 0x11 && m.hdr.payloadLength == 1088 && m.hdr.clientId in c.peers
        then CryptoError(m.crypto.code) else InvalidArgument
      case MaskedUpdateStream =>
        if m.hdr.messageType == 0x21 then
          if m.hdr.sequenceNumber != c.chunks.chunkIndex then SequenceMismatch
          else if m.payloadLen > c.chunks.chunkSize || (m.payloadLen < c.chunks.chunkSize && !c.chunks.isFinal) then ChunkTooLarge
          else InvalidArgument
        else if m.hdr.messageType == 0x30 then
          if m.crypto.Failed? then CryptoError(m.crypto.code) else ShamirEncodeFailed
        else InvalidState
      case _ => InvalidState
  {}

  /** What a message that succeeds changes. */
  lemma Effects(c: Ctx, m: Message)
    requires Defined(c, m) && Step(c, m).1 == Success
    ensures var d := Step(c, m).0;
      && d.clientId == c.clientId && d.roundId == c.roundId && d.timeoutMs == c.timeoutMs
      && d.lastTick == (if d.state == c.state then m.tick else m.doneTick)
      && d.ciphertextLen == (if c.state == KeySetup && m.hdr.messageType == 0x01 then m.ciphertextLen else c.ciphertextLen)
      && d.peers == (if c.state == MaskSetup && m.hdr.messageType == 0x10 && m.hdr.clientId !in c.peers && |c.peers| < 16
                     then c.peers + [m.hdr.clientId] else c.peers)
      && (c.state != RoundInit ==> d.threshold == c.threshold && d.numShares == c.numShares)
      && (c.state != RoundInit && !(c.state == MaskedUpdateStream && m.hdr.messageType == 0x21) ==> d.chunks == c.chunks)
      && (d.state == c.state <==>
            || (c.state == KeySetup && m.hdr.messageType == 0x01)
            || (c.state == MaskSetup && m.hdr.messageType != 0x13)
            || (c.state == MaskedUpdateStream && m.hdr.messageType == 0x21))
  {
    hide ChunkCount, PayloadModelSize;
  }

  /** Deadline of a context whose last message for it was m: the clock runs from there, modulo
      2^32. */
  lemma TimesOutAfter(c: Ctx, m: Message, now: uint32, limit: uint32)
    requires Defined(c, m) && m.hdr.roundId == c.roundId && (m.hdr.clientId == 0 || m.hdr.clientId == c.clientId)
    ensures var d := Step(c, m).0;
      var since := if d.state == c.state then m.tick else m.doneTick;
      TimeoutStep(d, now, limit).state == DropoutDetection <==>
        d.state == DropoutDetection
        || (d.state != RoundComplete && d.state != Error && (now - since) % 0x1_0000_0000 > limit)
  {
    hide ChunkCount, PayloadModelSize;
  }

  /** The round parameters as announced: number of clients, threshold, chunk size and model size,
      the sizes low byte first. The client stores the sizes, the threshold, one share fewer than
      there are clients, and the number of chunks the model takes. */
  lemma RoundAnnounced(c: Ctx, m: Message, clients: byte, threshold: byte, size: uint16, model: uint32)
    requires c.state == RoundInit && m.hdr.messageType == 0x40
    requires m.hdr.roundId == c.roundId && (m.hdr.clientId == 0 || m.hdr.clientId == c.clientId)
    requires size > 0
    requires m.payload == [clients, threshold, size % 0x100, size / 0x100,
                           model % 0x100, model / 0x100 % 0x100, model / 0x1_0000 % 0x100, model / 0x100_0000]
    ensures Defined(c, m)
    ensures var d := Step(c, m).0;
      && Step(c, m).1 == Success && d.state == KeySetup
      && d.chunks.chunkSize == size && d.chunks.modelTotalBytes == model
      && d.chunks.chunkIndex == 0 && d.chunks.bytesProcessed == 0 && !d.chunks.isFinal
      && d.threshold == threshold
      && d.numShares == (if clients > 0 then clients - 1 else 255)
      && (model + size - 1 < 0x1_0000_0000 && (model + size - 1) / size < 0x1_0000 ==>
            d.chunks.totalChunks == (model + size - 1) / size)
  {
    hide PayloadChunkSize, PayloadModelSize, ChunkCount;
    PayloadRead(m.payload, clients, threshold, size, model);
    CountWithin(model, size);
    RoundStored(c, m, size, model);
    hide Step;
  }

  lemma RoundStored(c: Ctx, m: Message, size: uint16, model: uint32)
    requires c.state == RoundInit && m.hdr.messageType == MSG_ROUND_INIT && Addressed(c, m)
    requires |m.payload| >= 8 && PayloadChunkSize(m.payload) == size > 0 && PayloadModelSize(m.payload) == model
    ensures Step(c, m) ==
      (c.(state := KeySetup, lastTick := m.doneTick, chunks := Chunks(0, ChunkCount(model, size), size, model, 0, false),
          threshold := m.payload[1], numShares := (m.payload[0] as int + 0xFF) % 0x100), Success)
  {
    hide PayloadChunkSize, PayloadModelSize, ChunkCount;
    assert Step(c, m) == RoundInitStep(c.(lastTick := m.tick), m);
    hide Step;
  }

  lemma PayloadRead(payload: seq<byte>, clients: byte, threshold: byte, size: uint16, model: uint32)
    requires payload == [clients, threshold, size % 0x100, size / 0x100,
                         model % 0x100, model / 0x100 % 0x100, model / 0x1_0000 % 0x100, model / 0x100_0000]
    ensures payload[0] == clients && payload[1] == threshold
    ensures PayloadChunkSize(payload) == size && PayloadModelSize(payload) == model
  {
    FourBytes(model);
  }

  lemma FourBytes(v: uint32)
    ensures v == v % 0x100 + 0x100 * (v / 0x100 % 0x100) + 0x1_0000 * (v / 0x1_0000 % 0x100) + 0x100_0000 * (v / 0x100_0000)
  {
    var h, m := v / 0x1_0000, v / 0x100;
    assert v == 0x100 * m + v % 0x100;
    assert m == 0x100 * h + m % 0x100 && m / 0x100 == h;
    assert h == 0x100 * (h / 0x100) + h % 0x100 && h / 0x100 == v / 0x100_0000;
  }

  lemma CountWithin(model: uint32, size: uint16)
    requires size > 0
    ensures model + size - 1 < WORD && (model + size - 1) / size < HALF ==> ChunkCount(model, size) == (model + size - 1) / size
  {}

  // ----- the context object -----------------------------------------------------------------

  class Client {
    var clientId: byte
    var state: State
    var roundId: uint32
    var ciphertextLen: nat
    var peers: seq<byte>
    var chunks: Chunks
    var threshold: byte
    var numShares: byte
    var timeoutMs: uint32
    var lastTick: uint32

    function View(): Ctx
      reads this
    {
      Ctx(clientId, state, roundId, ciphertextLen, peers, chunks, threshold, numShares, timeoutMs, lastTick)
    }

    constructor (clientId: byte, roundId: uint32, tick: uint32)
      ensures View() == InitCtx(clientId, roundId, tick)
      ensures this.clientId == clientId && this.roundId == roundId && state == RoundInit && peers == []
      ensures threshold == 0 && numShares == 0 && timeoutMs == 5000 && lastTick == tick
    {
      this.clientId := clientId;
      this.state := RoundInit;
      this.roundId := roundId;
      this.ciphertextLen := 0;
      this.peers := [];
      this.chunks := NO_CHUNKS;
      this.threshold, this.numShares := 0, 0;
      this.timeoutMs := STATE_TIMEOUT_MS;
      this.lastTick := tick;
    }

    method MoveTo(next: State, m: Message) returns (status: Status)
      modifies this
      ensures (View(), status) == Transition(old(View()), next, m)
      ensures old(state) == Error ==> status == InvalidState && View() == old(View())
      ensures old(state) != Error ==> status == Success && state == next && lastTick == m.doneTick
    {
      if state == Error {
        return InvalidState;
      }
      state := next;
      lastTick := m.doneTick;
      status := Success;
    }

    method HandleRoundInit(m: Message) returns (status: Status)
      requires m.hdr.messageType == MSG_ROUND_INIT ==> |m.payload| >= 8 && PayloadChunkSize(m.payload) > 0
      modifies this
      ensures (View(), status) == RoundInitStep(old(View()), m)
      ensures m.hdr.messageType == 0x40 ==>
        && chunks.chunkSize == m.payload[2] as int + 0x100 * m.payload[3] as int
        && chunks.modelTotalBytes == m.payload[4] as int + 0x100 * m.payload[5] as int
                                     + 0x1_0000 * m.payload[6] as int + 0x100_0000 * m.payload[7] as int
        && threshold == m.payload[1] && numShares == (m.payload[0] as int - 1) % 0x100
    {
      if m.hdr.messageType != MSG_ROUND_INIT {
        return InvalidArgument;
      }
      hide ChunkCount;
      var size, model := PayloadChunkSize(m.payload), PayloadModelSize(m.payload);
      chunks := chunks.(chunkSize := size, modelTotalBytes := model, totalChunks := ChunkCount(model, size),
                        chunkIndex := 0, bytesProcessed := 0, isFinal := false);
      threshold := m.payload[1];
      numShares := (m.payload[0] as int + 0xFF) % 0x100;
      status := MoveTo(KeySetup, m);
    }

    method HandleKeySetup(m: Message) returns (status: Status)
      modifies this
      ensures (View(), status) == KeySetupStep(old(View()), m)
    {
      if m.hdr.messageType == MSG_KEM_PUBLIC_KEY {
        if m.crypto.Done? {
          ciphertextLen := m.ciphertextLen;
        }
        return StatusOf(m.crypto);
      }
      if m.hdr.messageType == MSG_KEM_CIPHERTEXT {
        if m.hdr.payloadLength != ciphertextLen {
          return InvalidArgument;
        }
        if m.crypto.Failed? {
          return StatusOf(m.crypto);
        }
        status := MoveTo(MaskSetup, m);
        return;
      }
      status := InvalidArgument;
    }

    /** The search both pairwise handlers make for the sender among the known peers. */
    method FindPeer(peerId: byte) returns (found: bool)
      ensures found <==> peerId in peers
    {
      var i := 0;
      while i < |peers|
        invariant 0 <= i <= |peers|
        invariant peerId !in peers[..i]
      {
        if peers[i] == peerId {
          return true;
        }
        i := i + 1;
      }
      found := false;
    }

    method HandleMaskSetup(m: Message) returns (status: Status)
      modifies this
      ensures (View(), status) == MaskSetupStep(old(View()), m)
    {
      var peerId := m.hdr.clientId;
      if m.hdr.messageType == MSG_PAIRWISE_KEM_PUBKEY {
        if m.hdr.payloadLength != ML_KEM_768_PUBLIC_KEY_BYTES {
          return InvalidArgument;
        }
        var known := FindPeer(peerId);
        if !known && |peers| < MAX_PEERS {
          peers := peers + [peerId];
        }
        return Success;
      }
      if m.hdr.messageType == MSG_PAIRWISE_KEM_CIPHERTEXT {
        if m.hdr.payloadLength != ML_KEM_768_CIPHERTEXT_BYTES {
          return InvalidArgument;
        }
        var known := FindPeer(peerId);
        return if known then StatusOf(m.crypto) else InvalidArgument;
      }
      if m.hdr.messageType == MSG_PAIRWISE_CONFIRM {
        if |peers| == 0 {
          return InvalidArgument;
        }
        status := MoveTo(LocalTraining, m);
        return;
      }
      status := InvalidArgument;
    }

    method HandleStreamChunk(m: Message) returns (status: Status)
      modifies this
      ensures (View(), status) == StreamStep(old(View()), m)
    {
      if m.hdr.sequenceNumber != chunks.chunkIndex {
        return SequenceMismatch;
      }
      if m.payloadLen != chunks.chunkSize && !(chunks.isFinal && m.payloadLen < chunks.chunkSize) {
        return ChunkTooLarge;
      }
      var chunkElements := chunks.chunkSize / 2;
      if chunkElements > CHUNK_BUFFER_BYTES / 2 {
        return InvalidArgument;
      }
      chunks := chunks.(chunkIndex := (chunks.chunkIndex + 1) % HALF);
      chunks := chunks.(bytesProcessed := (chunks.bytesProcessed + m.payloadLen) % WORD);
      if chunks.chunkIndex >= chunks.totalChunks - 1 {
        chunks := chunks.(isFinal := true);
      }
      status := Success;
    }

    method HandleCompletion(m: Message) returns (status: Status)
      modifies this
      ensures (View(), status) == CompletionStep(old(View()), m)
    {
      if m.crypto.Failed? {
        return StatusOf(m.crypto);
      }
      if numShares < threshold || threshold == 0 || m.share.Failed? {
        return ShamirEncodeFailed;
      }
      status := MoveTo(ClientCompletion, m);
    }

    /** The body of both timeout loops, for one context. */
    method Sweep(now: uint32, limit: uint32)
      modifies this
      ensures View() == TimeoutStep(old(View()), now, limit)
      ensures state == DropoutDetection <==>
        old(state) == DropoutDetection
        || (old(state) != RoundComplete && old(state) != Error && (now - old(lastTick)) % 0x1_0000_0000 > limit)
    {
      if state != RoundComplete && state != Error {
        if (now - lastTick) % WORD > limit {
          state := DropoutDetection;
        }
      }
    }

    method ProcessMessage(m: Message) returns (status: Status)
      requires Defined(View(), m)
      modifies this
      ensures (View(), status) == Step(old(View()), m)
      ensures m.hdr.roundId != old(roundId) ==> status == RoundMismatch && View() == old(View())
      ensures m.hdr.roundId == old(roundId) && m.hdr.clientId != 0 && m.hdr.clientId != old(clientId) ==>
        status == ClientIdMismatch && View() == old(View())
    {
      if m.hdr.roundId != roundId {
        return RoundMismatch;
      }
      if m.hdr.clientId != 0 && m.hdr.clientId != clientId {
        return ClientIdMismatch;
      }
      lastTick := m.tick;
      match state {
        case RoundInit => status := HandleRoundInit(m);
        case KeySetup => status := HandleKeySetup(m);
        case MaskSetup => status := HandleMaskSetup(m);
        case LocalTraining => status := MoveTo(MaskedUpdateStream, m);
        case MaskedUpdateStream =>
          if m.hdr.messageType == MSG_MASK_CHUNK {
            status := HandleStreamChunk(m);
          } else if m.hdr.messageType == MSG_CLIENT_COMPLETE {
            status := HandleCompletion(m);
          } else {
            status := InvalidState;
          }
        case ClientCompletion =>
          if m.hdr.messageType != MSG_DROPOUT_NOTIFY {
            return InvalidArgument;
          }
          status := MoveTo(MaskRecovery, m);
        case MaskRecovery =>
          if m.hdr.messageType != MSG_RECOVERY_COMPLETE {
            return InvalidArgument;
          }
          status := MoveTo(Unmask, m);
        case Unmask => status := MoveTo(FedAvg, m);
        case FedAvg => status := MoveTo(RoundComplete, m);
        case _ => status := InvalidState;
      }
    }
  }

  lemma SweptTwice(c: Ctx, now: uint32, limit: uint32)
    ensures TimeoutStep(TimeoutStep(c, now, limit), now, limit) == TimeoutStep(c, now, limit)
  {}

  // ----- the registered contexts ------------------------------------------------------------

  class Registry {
    var contexts: seq<Client?>

    constructor ()
      ensures contexts == []
    {
      contexts := [];
    }

    /** Contexts beyond the sixteenth are dropped silently. */
    method Register(c: Client?)
      modifies this
      ensures contexts == if |old(contexts)| < MAX_CLIENTS then old(contexts) + [c] else old(contexts)
    {
      if |contexts| < MAX_CLIENTS {
        contexts := contexts + [c];
      }
    }

    /** One timeout sweep: every registered context takes the timeout step, once, even if it
        is registered more than once. */
    method CheckTimeouts(now: uint32, limit: uint32)
      modifies set c: Client | c in contexts
      ensures contexts == old(contexts)
      ensures forall c: Client :: c in contexts ==> c.View() == TimeoutStep(old(c.View()), now, limit)
    {
      hide TimeoutStep;
      var i := 0;
      while i < |contexts|
        invariant 0 <= i <= |contexts|
        invariant contexts == old(contexts)
        invariant forall c: Client :: c in contexts[..i] ==> c.View() == TimeoutStep(old(c.View()), now, limit)
        invariant forall c: Client :: c in contexts && c !in contexts[..i] ==> c.View() == old(c.View())
      {
        var c := contexts[i];
        assert contexts[..i + 1] == contexts[..i] + [c];
        if c != null {
          SweptTwice(old(c.View()), now, limit);
          c.Sweep(now, limit);
        }
        i := i + 1;
      }
    }
  }
}
