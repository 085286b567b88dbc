/** src/federated/mask_protocol.c: pairwise masks. The key derivation functions and the mask
    generator are parameters; nothing is assumed of them. */
module Masks {
  import opened Words
  import opened Field
  import opened Protocol
  import opened Sequences

  const SECRET_BYTES := 32

  type Seed = seq<byte>

  datatype Primitives = Primitives(
    pairSeed: (Seed, byte, byte, uint32) -> Seed,
    streamSeed: (Seed, byte, uint32, uint16) -> Seed,
    prg: (Seed, nat) -> int16)

  datatype Peer = Peer(clientId: byte, sharedSecret: Seed, maskSeed: Seed)

  // ----- remainders ----------------------------------------------------------------

  /** C's remainder takes the sign of the dividend. */
  function Rem(a: int, m: int): int
    requires m > 0
  {
    if a >= 0 then a % m else -(-a % m)
  }

  function ModQ(val: int): int16 {
    var r := Rem(val, Q);
    if r < 0 then r + Q else r
  }

  /** The sign fix-up turns C's remainder into the canonical residue. */
  lemma ModQCanonical(val: int)
    ensures ModQ(val) == val % Q && 0 <= ModQ(val) < Q
  {
    if val < 0 {
      var k, s := -val / Q, -val % Q;
      assert val == -Q * k - s;
      if s > 0 {
        assert val == Q * (-k - 1) + (Q - s);
      }
    }
  }

  // ----- the contribution of one peer -------------------------------------------------

  function Signed(client: byte, peer: byte, v: int): int {
    if client < peer then v else -v
  }

  /** What client draws at index j from the seed it holds for a peer: the stream is keyed by
      the client's own id. */
  function DrawFrom(p: Primitives, seed: Seed, client: byte, round: uint32, chunk: uint16, j: nat): int {
    Rem(p.prg(p.streamSeed(seed, client, round, chunk), j), Q)
  }

  function SignedSum(p: Primitives, peers: seq<Peer>, client: byte, round: uint32, chunk: uint16, j: nat): int {
    if peers == [] then 0
    else
      var last := peers[|peers| - 1];
      SignedSum(p, peers[..|peers| - 1], client, round, chunk, j)
      + Signed(client, last.clientId, DrawFrom(p, last.maskSeed, client, round, chunk, j))
  }

  lemma {:induction false} SumWithout(p: Primitives, peers: seq<Peer>, client: byte, round: uint32,
                      chunk: uint16, j: nat, i: nat)
    requires i < |peers|
    ensures SignedSum(p, peers, client, round, chunk, j)
         == SignedSum(p, Without(peers, i), client, round, chunk, j)
            + Signed(client, peers[i].clientId, DrawFrom(p, peers[i].maskSeed, client, round, chunk, j))
  {
    var k := |peers| - 1;
    if i < k {
      SumWithout(p, peers[..k], client, round, chunk, j, i);
      var rest := Without(peers, i);
      assert rest[..k - 1] == Without(peers[..k], i) && rest[k - 1] == peers[k];
    } else {
      assert Without(peers, i) == peers[..k];
    }
  }

  /** The mask does not depend on the order in which the peers are listed. */
  lemma {:induction false} PeerOrderIrrelevant(p: Primitives, peers: seq<Peer>, peers': seq<Peer>,
                      client: byte, round: uint32, chunk: uint16, j: nat)
    requires multiset(peers) == multiset(peers')
    ensures SignedSum(p, peers, client, round, chunk, j) == SignedSum(p, peers', client, round, chunk, j)
    decreases |peers|
  {
    if peers == [] {
      assert |peers'| == |multiset(peers')| == 0;
    } else {
      var i := LastMatched(peers, peers');
      SumWithout(p, peers', client, round, chunk, j, i);
      PeerOrderIrrelevant(p, peers[..|peers| - 1], Without(peers', i), client, round, chunk, j);
    }
  }

  // ----- masks against the derivation --------------------------------------------------------

  lemma RemCong(a: int)
    ensures Cong(Rem(a, Q), a)
  {
    if a < 0 {
      CongFromWitness(Rem(a, Q), a, -a / Q);
    }
  }

  /** What a peer adds to a mask: the generator's output under the seed derived for this client,
      round and chunk, plus toward larger ids and minus toward smaller ones. */
  lemma PeerAdds(p: Primitives, peers: seq<Peer>, peer: Peer, client: byte, round: uint32, chunk: uint16, j: nat)
    ensures var drawn: int := p.prg(p.streamSeed(peer.maskSeed, client, round, chunk), j);
      && SignedSum(p, [], client, round, chunk, j) == 0
      && Cong(SignedSum(p, peers + [peer], client, round, chunk, j),
              SignedSum(p, peers, client, round, chunk, j) + if client < peer.clientId then drawn else -drawn)
  {
    var drawn: int := p.prg(p.streamSeed(peer.maskSeed, client, round, chunk), j);
    assert (peers + [peer])[..|peers|] == peers;
    RemCong(drawn);
    var s := SignedSum(p, peers, client, round, chunk, j);
    hide Cong, SignedSum;
    CongRefl(0);
    CongRefl(s);
    CongAdd(s, s, Rem(drawn, Q), drawn);
    assert SignedSum(p, peers + [peer], client, round, chunk, j)
        == s + if client < peer.clientId then Rem(drawn, Q) else -Rem(drawn, Q) by { SumOfLast(p, peers, peer, client, round, chunk, j); }
  }

  lemma SumOfLast(p: Primitives, peers: seq<Peer>, peer: Peer, client: byte, round: uint32, chunk: uint16, j: nat)
    ensures var drawn := Rem(p.prg(p.streamSeed(peer.maskSeed, client, round, chunk), j), Q);
      SignedSum(p, peers + [peer], client, round, chunk, j)
      == SignedSum(p, peers, client, round, chunk, j) + if client < peer.clientId then drawn else -drawn
  {
    assert (peers + [peer])[..|peers|] == peers;
  }

  /** One peer: the mask cell is that output, or minus it. */
  lemma SinglePeer(p: Primitives, peer: Peer, client: byte, round: uint32, chunk: uint16, j: nat)
    ensures var drawn: int := p.prg(p.streamSeed(peer.maskSeed, client, round, chunk), j);
      Cong(SignedSum(p, [peer], client, round, chunk, j), if client < peer.clientId then drawn else -drawn)
  {
    hide Cong, SignedSum;
    PeerAdds(p, [], peer, client, round, chunk, j);
    assert [] + [peer] == [peer];
  }

  /** Masks of two chunks, or of two rounds, agree at a cell exactly where the generator does
      under the two derived seeds: the derivation alone keeps the masks apart. */
  lemma MasksRepeat(p: Primitives, peer: Peer, client: byte, round: uint32, chunk: uint16,
                    round': uint32, chunk': uint16, j: nat)
    ensures SignedSum(p, [peer], client, round, chunk, j) % Q == SignedSum(p, [peer], client, round', chunk', j) % Q
       <==> Cong(p.prg(p.streamSeed(peer.maskSeed, client, round, chunk), j),
                 p.prg(p.streamSeed(peer.maskSeed, client, round', chunk'), j))
  {
    hide SignedSum;
    SinglePeer(p, peer, client, round, chunk, j);
    SinglePeer(p, peer, client, round', chunk', j);
    SameUpToSign(SignedSum(p, [peer], client, round, chunk, j), SignedSum(p, [peer], client, round', chunk', j),
                 p.prg(p.streamSeed(peer.maskSeed, client, round, chunk), j),
                 p.prg(p.streamSeed(peer.maskSeed, client, round', chunk'), j),
                 if client < peer.clientId then 1 else -1);
  }

  lemma SameUpToSign(s: int, s': int, a: int, b: int, sign: int)
    requires (sign == 1 && Cong(s, a) && Cong(s', b)) || (sign == -1 && Cong(s, -a) && Cong(s', -b))
    ensures s % Q == s' % Q <==> Cong(a, b)
  {
    CongResidue(s, s');
    if sign == 1 {
      CongSwapped(s, a, s', b);
    } else {
      CongSwapped(s, -a, s', -b);
      CongNegated(a, b);
    }
  }

  lemma CongSwapped(s: int, a: int, s': int, b: int)
    requires Cong(s, a) && Cong(s', b)
    ensures Cong(s, s') <==> Cong(a, b)
  {
    CongResidue(s, a);
    CongResidue(s', b);
    CongResidue(s, s');
    CongResidue(a, b);
  }

  lemma CongNegated(a: int, b: int)
    ensures Cong(-a, -b) <==> Cong(a, b)
  {
    hide Cong;
    CongRefl(0);
    if Cong(a, b) { CongAdd(0, 0, a, b); }
    if Cong(-a, -b) { CongAdd(0, 0, -a, -b); }
  }

  // ----- the operations ---------------------------------------------------------------

  class PairwiseContext {
    var peers: seq<Peer>

    ghost predicate Valid()
      reads this
    {
      |peers| <= MAX_PEERS
    }

    /** Derive every peer's mask seed from its KEM secret; ids go in ascending order. */
    method DerivePairwiseSeeds(p: Primitives, localId: byte, secrets: seq<byte>, round: uint32) returns (status: Status)
      requires Valid() && |secrets| >= SECRET_BYTES * |peers|
      modifies this
      ensures Valid()
      ensures old(peers) == [] ==> status == InvalidArgument && peers == []
      ensures old(peers) != [] ==> status == Success && |peers| == |old(peers)|
      ensures forall i :: 0 <= i < |peers| ==>
        peers[i] == Seeded(p, old(peers)[i].clientId, localId, KemSecret(secrets, i), round)
      ensures forall i :: 0 <= i < |peers| ==>
        && peers[i].clientId == old(peers)[i].clientId
        && peers[i].sharedSecret == secrets[32 * i..32 * i + 32]
        && peers[i].maskSeed == (if peers[i].clientId < localId
                                 then p.pairSeed(peers[i].sharedSecret, peers[i].clientId, localId, round)
                                 else p.pairSeed(peers[i].sharedSecret, localId, peers[i].clientId, round))
    {
      if |peers| == 0 {
        return InvalidArgument;
      }
      var i := 0;
      while i < |peers|
        invariant 0 <= i <= |peers| == |old(peers)|
        invariant forall k :: 0 <= k < i ==>
          peers[k] == Seeded(p, old(peers)[k].clientId, localId, KemSecret(secrets, k), round)
        invariant forall k :: i <= k < |peers| ==> peers[k] == old(peers)[k]
      {
        var clientA, clientB := localId, peers[i].clientId;
        if clientA > clientB {
          clientA, clientB := clientB, clientA;
        }
        var secret := KemSecret(secrets, i);
        var seed := p.pairSeed(secret, clientA, clientB, round);
        peers := peers[i := peers[i].(sharedSecret := secret, maskSeed := seed)];
        i := i + 1;
      }
      status := Success;
    }

    /** The mask of one chunk, accumulated peer by peer and reduced at every step. */
    method GenerateChunkMask(p: Primitives, client: byte, round: uint32, chunk: uint16, chunkSize: uint16,
                      output: array<int16>)
      returns (status: Status)
      requires Valid() && chunkSize <= output.Length
      modifies output
      ensures chunkSize > CHUNK_BUFFER_BYTES / 2 ==> status == InvalidArgument && output[..] == old(output[..])
      ensures chunkSize <= CHUNK_BUFFER_BYTES / 2 ==> status == Success
      ensures chunkSize <= CHUNK_BUFFER_BYTES / 2 ==>
        forall j :: 0 <= j < output.Length ==>
          output[j] == if j < chunkSize then SignedSum(p, peers, client, round, chunk, j) % Q else old(output[j])
      // with a single peer, the generator's own output up to sign
      ensures chunkSize <= CHUNK_BUFFER_BYTES / 2 && |peers| == 1 ==>
        forall j :: 0 <= j < chunkSize ==>
          && 0 <= output[j] < Q
          && var drawn: int := p.prg(p.streamSeed(peers[0].maskSeed, client, round, chunk), j);
             Cong(output[j], if client < peers[0].clientId then drawn else -drawn)
    {
      if chunkSize > CHUNK_BUFFER_BYTES / 2 {
        return InvalidArgument;
      }
      var z := 0;
      while z < chunkSize
        invariant 0 <= z <= chunkSize
        invariant forall j :: 0 <= j < output.Length ==> output[j] == if j < z then 0 else old(output[j])
      {
        output[z] := 0;
        z := z + 1;
      }
      var i := 0;
      while i < |peers|
        invariant 0 <= i <= |peers|
        invariant forall j :: 0 <= j < output.Length ==>
          output[j] == if j < chunkSize then SignedSum(p, peers[..i], client, round, chunk, j) % Q else old(output[j])
      {
        AddPeer(p, peers[..i], peers[i], client, round, chunk, chunkSize, output);
        assert peers[..i + 1] == peers[..i] + [peers[i]];
        i := i + 1;
      }
      assert peers[..i] == peers;
      if |peers| == 1 {
        assert peers == [peers[0]];
        forall j | 0 <= j < chunkSize
          ensures var drawn: int := p.prg(p.streamSeed(peers[0].maskSeed, client, round, chunk), j);
            Cong(output[j], if client < peers[0].clientId then drawn else -drawn)
        {
          hide SignedSum;
          SinglePeer(p, peers[0], client, round, chunk, j);
          CongMod(SignedSum(p, peers, client, round, chunk, j));
        }
      }
      status := Success;
    }

    /** What the client does with a chunk it streams: mask it in place. A chunk larger than the
        mask buffer is left alone. */
    method MaskChunk(p: Primitives, client: byte, round: uint32, chunk: uint16, chunkSize: uint16,
                     payload: array<int16>)
      returns (status: Status)
      requires Valid() && chunkSize <= payload.Length
      modifies payload
      ensures status == if chunkSize > CHUNK_BUFFER_BYTES / 2 then InvalidArgument else Success
      ensures status != Success ==> payload[..] == old(payload[..])
      ensures status == Success ==>
        forall j :: 0 <= j < payload.Length ==>
          payload[j] == if j < chunkSize then Upload(p, peers, client, round, chunk, j, old(payload[j])) else old(payload[j])
    {
      if chunkSize > CHUNK_BUFFER_BYTES / 2 {
        return InvalidArgument;
      }
      var mask := new int16[CHUNK_BUFFER_BYTES / 2];
      var masked := new int16[CHUNK_BUFFER_BYTES / 2];
      status := GenerateChunkMask(p, client, round, chunk, chunkSize, mask);
      ApplyMask(payload, mask, chunkSize, masked);
      var j := 0;
      while j < chunkSize
        invariant 0 <= j <= chunkSize
        invariant forall k :: 0 <= k < payload.Length ==> payload[k] == if k < j then masked[k] else old(payload[k])
        invariant forall k :: 0 <= k < chunkSize ==>
          masked[k] == Upload(p, peers, client, round, chunk, k, old(payload[k]))
      {
        payload[j] := masked[j];
        j := j + 1;
      }
    }
  }

  /** The inner loop of mask generation: fold one more peer into every element. */
  method AddPeer(p: Primitives, ghost done: seq<Peer>, peer: Peer, client: byte, round: uint32, chunk: uint16,
                      chunkSize: uint16, output: array<int16>)
    requires chunkSize <= output.Length
    requires forall j :: 0 <= j < chunkSize ==> output[j] == SignedSum(p, done, client, round, chunk, j) % Q
    modifies output
    ensures forall j :: 0 <= j < output.Length ==>
      output[j] == if j < chunkSize then SignedSum(p, done + [peer], client, round, chunk, j) % Q else old(output[j])
  {
    var streamSeed := p.streamSeed(peer.maskSeed, client, round, chunk);
    var sign := if client < peer.clientId then 1 else -1;
    assert (done + [peer])[..|done|] == done;
    var j := 0;
    while j < chunkSize
      invariant 0 <= j <= chunkSize
      invariant forall k :: 0 <= k < j ==> output[k] == SignedSum(p, done + [peer], client, round, chunk, k) % Q
      invariant forall k :: j <= k < output.Length ==> output[k] == old(output[k])
    {
      var val := output[j] + sign * Rem(p.prg(streamSeed, j), Q);
      ModQCanonical(val);
      AddReduced(output[j], SignedSum(p, done, client, round, chunk, j),
                 Signed(client, peer.clientId, DrawFrom(p, peer.maskSeed, client, round, chunk, j)));
      output[j] := ModQ(val);
      j := j + 1;
    }
  }

  function KemSecret(secrets: seq<byte>, i: nat): Seed
    requires SECRET_BYTES * i + SECRET_BYTES <= |secrets|
  {
    secrets[SECRET_BYTES * i..SECRET_BYTES * i + SECRET_BYTES]
  }

  function Seeded(p: Primitives, peerId: byte, localId: byte, secret: Seed, round: uint32): Peer {
    var (a, b) := if localId > peerId then (peerId, localId) else (localId, peerId);
    Peer(peerId, secret, p.pairSeed(secret, a, b, round))
  }

  /** Two clients that share a KEM secret derive the same mask seed for each other. */
  lemma SeedsAgree(p: Primitives, a: byte, b: byte, secret: Seed, round: uint32)
    ensures Seeded(p, b, a, secret, round).maskSeed == Seeded(p, a, b, secret, round).maskSeed
  {}

  method ApplyMask(input: array<int16>, mask: array<int16>, count: uint16, output: array<int16>)
    requires count <= input.Length && count <= mask.Length && count <= output.Length
    modifies output
    ensures forall i :: 0 <= i < output.Length ==>
      output[i] == if i < count then (old(input[i]) + old(mask[i])) % Q else old(output[i])
  {
    var i := 0;
    while i < count
      invariant 0 <= i <= count
      invariant forall k :: 0 <= k < output.Length ==>
        output[k] == if k < i then (old(input[k]) + old(mask[k])) % Q else old(output[k])
      invariant forall k :: i <= k < count ==> input[k] == old(input[k]) && mask[k] == old(mask[k])
    {
      var val := input[i] as int + mask[i] as int;
      ModQCanonical(val);
      output[i] := ModQ(val);
      i := i + 1;
    }
  }

  method RemoveMask(input: array<int16>, mask: array<int16>, count: uint16, output: array<int16>)
    requires count <= input.Length && count <= mask.Length && count <= output.Length
    modifies output
    ensures forall i :: 0 <= i < output.Length ==>
      output[i] == if i < count then (old(input[i]) - old(mask[i])) % Q else old(output[i])
  {
    var i := 0;
    while i < count
      invariant 0 <= i <= count
      invariant forall k :: 0 <= k < output.Length ==>
        output[k] == if k < i then (old(input[k]) - old(mask[k])) % Q else old(output[k])
      invariant forall k :: i <= k < count ==> input[k] == old(input[k]) && mask[k] == old(mask[k])
    {
      var val := input[i] as int - mask[i] as int;
      ModQCanonical(val);
      output[i] := ModQ(val);
      i := i + 1;
    }
  }

  /** Removing the mask that was applied returns the input exactly when it was canonical. */
  lemma RemoveAfterApply(x: int16, mask: int16)
    ensures ((x + mask) % Q - mask) % Q == x <==> 0 <= x < Q
  {}

  // ----- cancellation over a set of clients ---------------------------------------------

  /** The stream each client draws for each other client, at one index of one chunk. */
  type Draws = (byte, byte) -> int

  /** The signed draws of one client toward the others in a list. */
  function RowSum(d: Draws, c: byte, others: seq<byte>): int {
    if others == [] then 0
    else
      var o := others[|others| - 1];
      RowSum(d, c, others[..|others| - 1]) + if o == c then 0 else Signed(c, o, d(c, o))
  }

  /** The masks of all clients in one list toward all in another, added up. */
  function Total(d: Draws, clients: seq<byte>, others: seq<byte>): int {
    if clients == [] then 0
    else
      var k := |clients| - 1;
      Total(d, clients[..k], others) + RowSum(d, clients[k], others)
  }

  /** How far the two ends of a pair disagree, seen from the smaller id. */
  function Gap(d: Draws, a: byte, b: byte): int {
    if a == b then 0 else if a < b then d(a, b) - d(b, a) else d(b, a) - d(a, b)
  }

  function RowGap(d: Draws, c: byte, others: seq<byte>): int {
    if others == [] then 0
    else
      var k := |others| - 1;
      RowGap(d, c, others[..k]) + Gap(d, others[k], c)
  }

  /** The disagreement of every pair with one client in each list. */
  function CrossGap(d: Draws, clients: seq<byte>, others: seq<byte>): int {
    if clients == [] then 0
    else
      var k := |clients| - 1;
      CrossGap(d, clients[..k], others) + RowGap(d, clients[k], others)
  }

  /** The disagreement of every pair within a list. */
  function PairGap(d: Draws, clients: seq<byte>): int {
    if clients == [] then 0
    else
      var k := |clients| - 1;
      PairGap(d, clients[..k]) + RowGap(d, clients[k], clients[..k])
  }

  lemma RowAppend(d: Draws, c: byte, others: seq<byte>, o: byte)
    ensures RowSum(d, c, others + [o]) == RowSum(d, c, others) + RowSum(d, c, [o])
  {
    var all := others + [o];
    assert all[..|all| - 1] == others;
    assert [o][..0] == [];
    assert RowSum(d, c, [o]) == RowSum(d, c, []) + if o == c then 0 else Signed(c, o, d(c, o));
  }

  /** Adding one more client to the other side adds one draw per row. */
  lemma {:induction false} TotalExtend(d: Draws, clients: seq<byte>, others: seq<byte>, o: byte)
    ensures Total(d, clients, others + [o]) == Total(d, clients, others) + Total(d, clients, [o])
  {
    if clients != [] {
      var k := |clients| - 1;
      TotalExtend(d, clients[..k], others, o);
      RowAppend(d, clients[k], others, o);
    }
  }

  /** A column and the row facing it add up to the disagreement between the two sides. */
  lemma {:induction false} RowAgainstColumn(d: Draws, c: byte, others: seq<byte>)
    ensures Total(d, others, [c]) + RowSum(d, c, others) == RowGap(d, c, others)
  {
    if others != [] {
      var k := |others| - 1;
      RowAgainstColumn(d, c, others[..k]);
      assert [c][..0] == [];
      assert RowSum(d, others[k], [c]) == RowSum(d, others[k], []) + if c == others[k] then 0 else Signed(others[k], c, d(others[k], c));
    }
  }

  /** All masks of a set of clients add up to the disagreement of its pairs, and to nothing else. */
  lemma {:induction false} TotalIsPairGap(d: Draws, clients: seq<byte>)
    ensures Total(d, clients, clients) == PairGap(d, clients)
  {
    if clients != [] {
      var k := |clients| - 1;
      var init, c := clients[..k], clients[k];
      TotalIsPairGap(d, init);
      assert clients == init + [c];
      TotalExtend(d, init, init, c);
      RowAgainstColumn(d, c, init);
      assert RowSum(d, c, clients) == RowSum(d, c, init);
    }
  }

  /** The masks of two sets toward each other add up to the disagreement across them. */
  lemma {:induction false} CrossTotal(d: Draws, clients: seq<byte>, others: seq<byte>)
    ensures Total(d, clients, others) + Total(d, others, clients) == CrossGap(d, clients, others)
  {
    if clients == [] {
      TotalToNobody(d, others);
    } else {
      var k := |clients| - 1;
      CrossTotal(d, clients[..k], others);
      assert clients == clients[..k] + [clients[k]];
      TotalExtend(d, others, clients[..k], clients[k]);
      RowAgainstColumn(d, clients[k], others);
    }
  }

  lemma {:induction false} TotalToNobody(d: Draws, clients: seq<byte>)
    ensures Total(d, clients, []) == 0
  {
    if clients != [] {
      TotalToNobody(d, clients[..|clients| - 1]);
    }
  }

  lemma {:induction false} TotalSplit(d: Draws, clients: seq<byte>, others: seq<byte>, more: seq<byte>)
    ensures Total(d, clients, others + more) == Total(d, clients, others) + Total(d, clients, more)
  {
    if more == [] {
      TotalToNobody(d, clients);
      assert others + more == others;
    } else {
      var k := |more| - 1;
      TotalSplit(d, clients, others, more[..k]);
      TotalExtend(d, clients, others + more[..k], more[k]);
      TotalExtend(d, clients, more[..k], more[k]);
      assert others + more == (others + more[..k]) + [more[k]];
      assert more == more[..k] + [more[k]];
    }
  }

  /** Both ends of every pair draw the same stream, modulo 3329. */
  ghost predicate Agree(d: Draws, clients: seq<byte>, others: seq<byte>) {
    forall a, b :: a in clients && b in others ==> Cong(d(a, b), d(b, a))
  }

  lemma {:induction false} AgreeRowGap(d: Draws, c: byte, others: seq<byte>)
    requires Agree(d, [c], others)
    ensures Cong(RowGap(d, c, others), 0)
  {
    if others != [] {
      var k := |others| - 1;
      AgreeRowGap(d, c, others[..k]);
      assert c in [c] && others[k] in others;
    }
  }

  lemma {:induction false} AgreeCrossGap(d: Draws, clients: seq<byte>, others: seq<byte>)
    requires Agree(d, clients, others)
    ensures Cong(CrossGap(d, clients, others), 0)
  {
    if clients != [] {
      var k := |clients| - 1;
      AgreeCrossGap(d, clients[..k], others);
      AgreeRowGap(d, clients[k], others);
    }
  }

  lemma {:induction false} AgreePairGap(d: Draws, clients: seq<byte>)
    requires Agree(d, clients, clients)
    ensures Cong(PairGap(d, clients), 0)
  {
    if clients != [] {
      var k := |clients| - 1;
      AgreePairGap(d, clients[..k]);
      AgreeRowGap(d, clients[k], clients[..k]);
    }
  }

  /** If the two ends of every pair draw the same stream, all masks cancel; the masks that
      survivors leave uncancelled after a dropout are exactly minus the dropped clients'
      masks toward them. */
  lemma MasksCancel(d: Draws, survivors: seq<byte>, dropped: seq<byte>)
    requires Agree(d, survivors + dropped, survivors + dropped)
    ensures Cong(Total(d, survivors + dropped, survivors + dropped), 0)
    ensures Cong(Total(d, survivors, survivors + dropped), -Total(d, dropped, survivors))
  {
    var all := survivors + dropped;
    TotalIsPairGap(d, all);
    AgreePairGap(d, all);
    TotalSplit(d, survivors, survivors, dropped);
    TotalIsPairGap(d, survivors);
    AgreePairGap(d, survivors);
    CrossTotal(d, survivors, dropped);
    AgreeCrossGap(d, survivors, dropped);
  }

  /** Agreement is exactly what a pair needs: its two masks cancel if and only if its two
      streams do. */
  lemma PairCancels(d: Draws, a: byte, b: byte)
    requires a != b
    ensures Cong(Total(d, [a, b], [a, b]), 0) <==> Cong(d(a, b), d(b, a))
  {
    TotalIsPairGap(d, [a, b]);
    assert [a, b][..1] == [a] && [a][..0] == [];
    assert RowGap(d, b, [a]) == RowGap(d, b, []) + Gap(d, a, b);
    assert RowGap(d, a, []) == 0;
    assert PairGap(d, [a]) == PairGap(d, []) + RowGap(d, a, []);
    assert PairGap(d, [a, b]) == PairGap(d, [a]) + RowGap(d, b, [a]);
  }

  ghost predicate AllCancel(d: Draws, clients: seq<byte>) {
    forall some: seq<byte> :: (forall c :: c in some ==> c in clients) ==> Cong(Total(d, some, some), 0)
  }

  /** And of any set: the masks of all its subsets cancel if and only if both ends of every pair
      agree. */
  lemma AgreementNeeded(d: Draws, clients: seq<byte>)
    ensures AllCancel(d, clients) <==> Agree(d, clients, clients)
  {
    hide Total, PairGap, Cong;
    if Agree(d, clients, clients) {
      forall some: seq<byte> | forall c :: c in some ==> c in clients
        ensures Cong(Total(d, some, some), 0)
      {
        TotalIsPairGap(d, some);
        AgreePairGap(d, some);
      }
    }
    if AllCancel(d, clients) {
      forall a, b | a in clients && b in clients
        ensures Cong(d(a, b), d(b, a))
      {
        if a == b {
          CongRefl(d(a, b));
        } else {
          PairCancels(d, a, b);
          assert forall c :: c in [a, b] ==> c in clients;
        }
      }
    }
  }

  // ----- what the server adds up ------------------------------------------------------------

  /** The record client c holds for client o. */
  type Records = (byte, byte) -> Peer

  function DrawsOf(p: Primitives, records: Records, round: uint32, chunk: uint16, j: nat): Draws {
    (c: byte, o: byte) => DrawFrom(p, records(c, o).maskSeed, c, round, chunk, j)
  }

  /** The records of c for all the others in a list. */
  function RecordsFor(records: Records, c: byte, others: seq<byte>): seq<Peer> {
    if others == [] then []
    else
      var k := |others| - 1;
      RecordsFor(records, c, others[..k]) + if others[k] == c then [] else [records(c, others[k])]
  }

  /** The context of c lists every other client once, in any order. */
  ghost predicate Lists(peers: seq<Peer>, records: Records, c: byte, clients: seq<byte>) {
    && multiset(peers) == multiset(RecordsFor(records, c, clients))
    && forall o :: o in clients ==> records(c, o).clientId == o
  }

  lemma SumAppend(p: Primitives, peers: seq<Peer>, peer: Peer, client: byte, round: uint32, chunk: uint16, j: nat)
    ensures SignedSum(p, peers + [peer], client, round, chunk, j)
         == SignedSum(p, peers, client, round, chunk, j)
            + Signed(client, peer.clientId, DrawFrom(p, peer.maskSeed, client, round, chunk, j))
  {
    var all := peers + [peer];
    assert all[..|all| - 1] == peers;
  }

  ghost predicate AllList(peersOf: byte -> seq<Peer>, records: Records, clients: seq<byte>, all: seq<byte>) {
    forall i :: 0 <= i < |clients| ==> Lists(peersOf(clients[i]), records, clients[i], all)
  }

  lemma {:induction false} RecordsSum(p: Primitives, records: Records, c: byte, others: seq<byte>,
                      round: uint32, chunk: uint16, j: nat)
    requires forall o :: o in others ==> records(c, o).clientId == o
    ensures SignedSum(p, RecordsFor(records, c, others), c, round, chunk, j)
         == RowSum(DrawsOf(p, records, round, chunk, j), c, others)
  {
    if others != [] {
      var k := |others| - 1;
      var o := others[k];
      RecordsSum(p, records, c, others[..k], round, chunk, j);
      if o != c {
        var rest := RecordsFor(records, c, others[..k]);
        SumAppend(p, rest, records(c, o), c, round, chunk, j);
        assert RecordsFor(records, c, others) == rest + [records(c, o)];
        assert o in others;
      } else {
        assert RecordsFor(records, c, others) == RecordsFor(records, c, others[..k]);
      }
    }
  }

  function Sum(f: byte -> int, clients: seq<byte>): int {
    if clients == [] then 0 else Sum(f, clients[..|clients| - 1]) + f(clients[|clients| - 1])
  }

  /** What client c uploads at index j: its value under the mask it generated. */
  function Upload(p: Primitives, peers: seq<Peer>, c: byte, round: uint32, chunk: uint16, j: nat, x: int): int {
    (x + SignedSum(p, peers, c, round, chunk, j) % Q) % Q
  }

  function UploadSum(p: Primitives, peersOf: byte -> seq<Peer>, x: byte -> int, clients: seq<byte>,
                     round: uint32, chunk: uint16, j: nat): int
  {
    if clients == [] then 0
    else
      var k := |clients| - 1;
      UploadSum(p, peersOf, x, clients[..k], round, chunk, j)
      + Upload(p, peersOf(clients[k]), clients[k], round, chunk, j, x(clients[k]))
  }

  /** One upload carries the client's value and its signed draws, whatever its peer order. */
  lemma UploadIsRow(p: Primitives, records: Records, peers: seq<Peer>, c: byte, all: seq<byte>,
                    round: uint32, chunk: uint16, j: nat, x: int)
    requires Lists(peers, records, c, all)
    ensures Cong(Upload(p, peers, c, round, chunk, j, x), x + RowSum(DrawsOf(p, records, round, chunk, j), c, all))
  {
    hide SignedSum, RowSum, DrawsOf, RecordsFor;
    PeerOrderIrrelevant(p, peers, RecordsFor(records, c, all), c, round, chunk, j);
    RecordsSum(p, records, c, all, round, chunk, j);
  }

  lemma SumsUnfold(p: Primitives, peersOf: byte -> seq<Peer>, x: byte -> int, d: Draws, clients: seq<byte>,
                      all: seq<byte>,
                   round: uint32, chunk: uint16, j: nat)
    ensures clients == [] ==> UploadSum(p, peersOf, x, clients, round, chunk, j) == Sum(x, clients) == Total(d, clients, all) == 0
    ensures clients != [] ==>
      var k := |clients| - 1;
      var c := clients[k];
      && UploadSum(p, peersOf, x, clients, round, chunk, j)
         == UploadSum(p, peersOf, x, clients[..k], round, chunk, j) + Upload(p, peersOf(c), c, round, chunk, j, x(c))
      && Sum(x, clients) == Sum(x, clients[..k]) + x(c)
      && Total(d, clients, all) == Total(d, clients[..k], all) + RowSum(d, c, all)
  {}

  lemma AllListPrefix(peersOf: byte -> seq<Peer>, records: Records, clients: seq<byte>, all: seq<byte>, k: nat)
    requires k < |clients| && AllList(peersOf, records, clients, all)
    ensures AllList(peersOf, records, clients[..k], all) && Lists(peersOf(clients[k]), records, clients[k], all)
  {}

  lemma {:induction false} UploadsSum(p: Primitives, records: Records, peersOf: byte -> seq<Peer>, x: byte -> int,
                                      clients: seq<byte>, all: seq<byte>, round: uint32, chunk: uint16, j: nat)
    requires AllList(peersOf, records, clients, all)
    ensures Cong(UploadSum(p, peersOf, x, clients, round, chunk, j),
                 Sum(x, clients) + Total(DrawsOf(p, records, round, chunk, j), clients, all))
  {
    var d := DrawsOf(p, records, round, chunk, j);
    SumsUnfold(p, peersOf, x, d, clients, all, round, chunk, j);
    hide RowSum, DrawsOf, Cong, Lists, Upload, AllList, UploadSum, Sum, Total;
    if clients != [] {
      var k := |clients| - 1;
      var c := clients[k];
      AllListPrefix(peersOf, records, clients, all, k);
      UploadsSum(p, records, peersOf, x, clients[..k], all, round, chunk, j);
      UploadIsRow(p, records, peersOf(c), c, all, round, chunk, j, x(c));
      CongAdd(UploadSum(p, peersOf, x, clients[..k], round, chunk, j), Sum(x, clients[..k]) + Total(d, clients[..k], all),
              Upload(p, peersOf(c), c, round, chunk, j, x(c)), x(c) + RowSum(d, c, all));
    } else {
      CongRefl(0);
    }
  }

  /** The uploads of all clients add up to their values plus the disagreement of their pairs:
      nothing else stands between the aggregate and the plaintext sum. */
  lemma AggregateError(p: Primitives, records: Records, peersOf: byte -> seq<Peer>, x: byte -> int,
                       clients: seq<byte>, round: uint32, chunk: uint16, j: nat)
    requires AllList(peersOf, records, clients, clients)
    ensures Cong(UploadSum(p, peersOf, x, clients, round, chunk, j),
                 Sum(x, clients) + PairGap(DrawsOf(p, records, round, chunk, j), clients))
  {
    hide UploadSum, Total, PairGap, Sum, Lists;
    UploadsSum(p, records, peersOf, x, clients, clients, round, chunk, j);
    TotalIsPairGap(DrawsOf(p, records, round, chunk, j), clients);
  }

  /** After a dropout: the survivors' uploads plus the dropped clients' masks toward them give
      the survivors' plaintext sum plus the disagreement of the pairs with a survivor in them. */
  lemma DropoutError(p: Primitives, records: Records, peersOf: byte -> seq<Peer>, x: byte -> int,
                     survivors: seq<byte>, dropped: seq<byte>, round: uint32, chunk: uint16, j: nat)
    requires AllList(peersOf, records, survivors, survivors + dropped)
    ensures var d := DrawsOf(p, records, round, chunk, j);
      Cong(UploadSum(p, peersOf, x, survivors, round, chunk, j) + Total(d, dropped, survivors),
           Sum(x, survivors) + PairGap(d, survivors) + CrossGap(d, survivors, dropped))
  {
    hide UploadSum, Total, PairGap, CrossGap, Sum, AllList, DrawsOf, Cong;
    var d := DrawsOf(p, records, round, chunk, j);
    UploadsSum(p, records, peersOf, x, survivors, survivors + dropped, round, chunk, j);
    TotalSplit(d, survivors, survivors, dropped);
    TotalIsPairGap(d, survivors);
    CrossTotal(d, survivors, dropped);
    CongRefl(Total(d, dropped, survivors));
    CongAdd(UploadSum(p, peersOf, x, survivors, round, chunk, j),
            Sum(x, survivors) + Total(d, survivors, survivors + dropped),
            Total(d, dropped, survivors), Total(d, dropped, survivors));
  }

  /** So they give the plaintext sum if both ends of every pair with a survivor draw the same
      stream; what dropped clients draw for each other does not matter. */
  lemma DropoutRecovery(p: Primitives, records: Records, peersOf: byte -> seq<Peer>, x: byte -> int,
                        survivors: seq<byte>, dropped: seq<byte>, round: uint32, chunk: uint16, j: nat)
    requires AllList(peersOf, records, survivors, survivors + dropped)
    requires Agree(DrawsOf(p, records, round, chunk, j), survivors, survivors)
    requires Agree(DrawsOf(p, records, round, chunk, j), survivors, dropped)
    ensures Cong(UploadSum(p, peersOf, x, survivors, round, chunk, j)
                 + Total(DrawsOf(p, records, round, chunk, j), dropped, survivors),
                 Sum(x, survivors))
  {
    hide UploadSum, Total, Sum, AllList, Agree, DrawsOf, PairGap, CrossGap;
    var d := DrawsOf(p, records, round, chunk, j);
    DropoutError(p, records, peersOf, x, survivors, dropped, round, chunk, j);
    AgreePairGap(d, survivors);
    AgreeCrossGap(d, survivors, dropped);
  }

  /** Two clients that hold the same seed for each other: their masks cancel if and only if the
      derivation, which is given the drawing client's id, yields congruent draws for both ids. */
  lemma KeyedPairCancels(p: Primitives, records: Records, a: byte, b: byte, round: uint32, chunk: uint16, j: nat)
    requires a != b && records(a, b).maskSeed == records(b, a).maskSeed
    ensures var d, seed := DrawsOf(p, records, round, chunk, j), records(a, b).maskSeed;
      Cong(Total(d, [a, b], [a, b]), 0)
      <==> Cong(DrawFrom(p, seed, a, round, chunk, j), DrawFrom(p, seed, b, round, chunk, j))
  {
    hide Total, DrawFrom, Cong;
    var d := DrawsOf(p, records, round, chunk, j);
    PairCancels(d, a, b);
    assert d(a, b) == DrawFrom(p, records(a, b).maskSeed, a, round, chunk, j);
    assert d(b, a) == DrawFrom(p, records(b, a).maskSeed, b, round, chunk, j);
  }

  /** Agreement is not given by the derivation itself: with seeds both ends share, a stream
      derivation that tells the two ids apart leaves their masks uncancelled. */
  lemma AgreementNotGiven() returns (p: Primitives, seed: Seed)
    ensures forall records: Records :: records(1, 2).maskSeed == seed && records(2, 1).maskSeed == seed ==>
      !Cong(Total(DrawsOf(p, records, 0, 0, 0), [1, 2], [1, 2]), 0)
  {
    seed := [];
    p := Primitives((s, a, b, r) => s, (s, c, r, k) => [c], (s, j) => if s == [1] then 1 else 0);
    forall records: Records | records(1, 2).maskSeed == seed && records(2, 1).maskSeed == seed
      ensures !Cong(Total(DrawsOf(p, records, 0, 0, 0), [1, 2], [1, 2]), 0)
    {
      var d := DrawsOf(p, records, 0, 0, 0);
      KeyedPairCancels(p, records, 1, 2, 0, 0, 0);
      assert d(1, 2) == 1 && d(2, 1) == 0;
    }
  }
}
