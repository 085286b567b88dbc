/** src/network/packet_codec.c: the authenticated wire format. The MAC is a parameter; only
    its length is used. A message is 16 header bytes, 32 MAC bytes, then the payload. */
module PacketCodec {
  import opened Words
  import opened Protocol
  import Bits

  const HEADER_SIZE := 16
  const MAC_SIZE := 32
  const PAYLOAD_OFFSET := 48
  const MAC_DATA_CAPACITY := 1036     // 12 + 1024
  const MAX_PAYLOAD := 1024

  /** key -> data -> tag */
  type Mac = (seq<byte>, seq<byte>) -> seq<byte>

  ghost predicate ProducesTags(mac: Mac) {
    forall key, data :: |mac(key, data)| == MAC_SIZE
  }

  // ----- big-endian integers -------------------------------------------------------------

  function Put16(v: uint16): (b: seq<byte>)
    ensures |b| == 2
  {
    [v / 0x100, v % 0x100]
  }

  function Put32(v: uint32): (b: seq<byte>)
    ensures |b| == 4
  {
    [v / 0x100_0000, v / 0x1_0000 % 0x100, v / 0x100 % 0x100, v % 0x100]
  }

  function Get16(b0: byte, b1: byte): uint16 {
    b0 as int * 0x100 + b1 as int
  }

  function Get32(b0: byte, b1: byte, b2: byte, b3: byte): uint32 {
    b0 as int * 0x100_0000 + b1 as int * 0x1_0000 + b2 as int * 0x100 + b3 as int
  }

  lemma GetPut16(v: uint16)
    ensures Get16(Put16(v)[0], Put16(v)[1]) == v
  {}

  lemma PutGet16(b0: byte, b1: byte)
    ensures Put16(Get16(b0, b1)) == [b0, b1]
  {}

  lemma GetPut32(v: uint32)
    ensures var b := Put32(v); Get32(b[0], b[1], b[2], b[3]) == v
  {
    var h, m := v / 0x1_0000, v / 0x100;
    assert v == 0x100 * m + v % 0x100;
    assert m == 0x100 * h + m % 0x100 && m / 0x100 == h;
    assert h == 0x100 * (h / 0x100) + h % 0x100 && h / 0x100 == v / 0x100_0000;
  }

  lemma PutGet32(b0: byte, b1: byte, b2: byte, b3: byte)
    ensures Put32(Get32(b0, b1, b2, b3)) == [b0, b1, b2, b3]
  {
    var v := Get32(b0, b1, b2, b3);
    assert v / 0x100_0000 == b0;
    assert v / 0x1_0000 == b0 as int * 0x100 + b1 as int;
    assert v / 0x100 == b0 as int * 0x1_0000 + b1 as int * 0x100 + b2 as int;
  }

  // ----- the format, as functions ----------------------------------------------------------

  /** The twelve header bytes the MAC covers. */
  function Authenticated(h: Header): (b: seq<byte>)
    ensures |b| == 12
  {
    Put32(h.protocolVersion) + Put32(h.roundId) + [h.clientId, h.messageType] + Put16(h.sequenceNumber)
  }

  function HeaderBytes(h: Header): (b: seq<byte>)
    ensures |b| == HEADER_SIZE
  {
    Authenticated(h) + Put16(h.payloadLength) + Put16(h.reserved)
  }

  function ParseHeader(b: seq<byte>): Header
    requires |b| >= HEADER_SIZE
  {
    Header(Get32(b[0], b[1], b[2], b[3]), Get32(b[4], b[5], b[6], b[7]), b[8], b[9],
           Get16(b[10], b[11]), Get16(b[12], b[13]), Get16(b[14], b[15]))
  }

  function Tag(mac: Mac, key: seq<byte>, h: Header, payload: seq<byte>): seq<byte> {
    mac(key, Authenticated(h) + payload)
  }

  /** The whole message. */
  function Wire(mac: Mac, key: seq<byte>, h: Header, payload: seq<byte>): seq<byte> {
    HeaderBytes(h) + Tag(mac, key, h, payload) + payload
  }

  /** Long enough for the header, the tag and the payload the header announces. */
  predicate Complete(input: seq<byte>) {
    |input| >= PAYLOAD_OFFSET && |input| >= PAYLOAD_OFFSET + ParseHeader(input).payloadLength
  }

  function Body(input: seq<byte>): seq<byte>
    requires Complete(input)
  {
    input[PAYLOAD_OFFSET..PAYLOAD_OFFSET + ParseHeader(input).payloadLength]
  }

  /** What a receiver accepts: complete, and carrying the tag of its own header and payload. */
  ghost predicate Accepted(mac: Mac, key: seq<byte>, input: seq<byte>) {
    Complete(input) && input[HEADER_SIZE..PAYLOAD_OFFSET] == Tag(mac, key, ParseHeader(input), Body(input))
  }

  // ----- the two directions are inverse ------------------------------------------------------

  lemma ParseEncoded(h: Header, rest: seq<byte>)
    ensures ParseHeader(HeaderBytes(h) + rest) == h
  {
    GetPut32(h.protocolVersion);
    GetPut32(h.roundId);
    GetPut16(h.sequenceNumber);
    GetPut16(h.payloadLength);
    GetPut16(h.reserved);
    hide Put16, Put32, Get16, Get32;
    var b := HeaderBytes(h) + rest;
    assert b[0..4] == Put32(h.protocolVersion);
    assert b[4..8] == Put32(h.roundId);
    assert b[10..12] == Put16(h.sequenceNumber);
    assert b[12..14] == Put16(h.payloadLength);
    assert b[14..16] == Put16(h.reserved);
  }

  lemma EncodeParsed(b: seq<byte>)
    requires |b| >= HEADER_SIZE
    ensures HeaderBytes(ParseHeader(b)) == b[..HEADER_SIZE]
  {
    PutGet32(b[0], b[1], b[2], b[3]);
    PutGet32(b[4], b[5], b[6], b[7]);
    PutGet16(b[10], b[11]);
    PutGet16(b[12], b[13]);
    PutGet16(b[14], b[15]);
    hide Put16, Put32, Get16, Get32;
  }

  /** An encoded message is accepted, whatever follows it, and parses back to what was encoded. */
  lemma EncodedAccepted(mac: Mac, key: seq<byte>, h: Header, payload: seq<byte>, trailing: seq<byte>)
    requires ProducesTags(mac) && |payload| == h.payloadLength
    ensures var input := Wire(mac, key, h, payload) + trailing;
      && Accepted(mac, key, input)
      && ParseHeader(input) == h
      && Body(input) == payload
  {
    hide ParseHeader, HeaderBytes, Authenticated;
    var tag := Tag(mac, key, h, payload);
    assert |tag| == MAC_SIZE;
    var input := Wire(mac, key, h, payload) + trailing;
    ParseEncoded(h, tag + payload + trailing);
    assert input == HeaderBytes(h) + (tag + payload + trailing);
    assert input[PAYLOAD_OFFSET..PAYLOAD_OFFSET + h.payloadLength] == payload;
    assert input[HEADER_SIZE..PAYLOAD_OFFSET] == tag;
  }

  /** Re-encoding what was decoded from an accepted message gives back exactly the bytes the
      decoder looked at: the format has no two encodings of one message. */
  lemma AcceptedReencodes(mac: Mac, key: seq<byte>, input: seq<byte>)
    requires Accepted(mac, key, input)
    ensures var h := ParseHeader(input);
      Wire(mac, key, h, Body(input)) == input[..PAYLOAD_OFFSET + h.payloadLength]
  {
    EncodeParsed(input);
    hide ParseHeader, HeaderBytes, Tag;
    ThreeParts(input, PAYLOAD_OFFSET + ParseHeader(input).payloadLength);
  }

  lemma ThreeParts(input: seq<byte>, n: nat)
    requires PAYLOAD_OFFSET <= n <= |input|
    ensures input[..HEADER_SIZE] + input[HEADER_SIZE..PAYLOAD_OFFSET] + input[PAYLOAD_OFFSET..n] == input[..n]
  {}

  // ----- the bytes, one by one --------------------------------------------------------------

  /** Where each field lies, most significant byte first. */
  lemma HeaderLayout(h: Header)
    ensures var b := HeaderBytes(h);
      && h.protocolVersion == 0x100_0000 * b[0] as int + 0x1_0000 * b[1] as int + 0x100 * b[2] as int + b[3] as int
      && h.roundId == 0x100_0000 * b[4] as int + 0x1_0000 * b[5] as int + 0x100 * b[6] as int + b[7] as int
      && h.clientId == b[8] && h.messageType == b[9]
      && h.sequenceNumber == 0x100 * b[10] as int + b[11] as int
      && h.payloadLength == 0x100 * b[12] as int + b[13] as int
      && h.reserved == 0x100 * b[14] as int + b[15] as int
  {
    var b := HeaderBytes(h);
    ParseEncoded(h, []);
    assert b + [] == b;
    hide HeaderBytes;
  }

  /** The length a complete message announces. */
  lemma AnnouncedLength(input: seq<byte>)
    requires |input| >= HEADER_SIZE
    ensures ParseHeader(input).payloadLength == 0x100 * input[12] as int + input[13] as int
  {}

  /** What a tag covers: the first twelve bytes of the message and its payload. */
  lemma TagCovers(mac: Mac, key: seq<byte>, input: seq<byte>)
    requires Complete(input)
    ensures var n := 0x100 * input[12] as int + input[13] as int;
      && PAYLOAD_OFFSET + n <= |input|
      && Tag(mac, key, ParseHeader(input), Body(input)) == mac(key, input[..12] + input[48..48 + n])
  {
    AnnouncedLength(input);
    EncodeParsed(input);
    hide ParseHeader, Put16, Put32;
    AuthenticatedPrefix(ParseHeader(input));
    assert input[..HEADER_SIZE][..12] == input[..12];
  }

  lemma AuthenticatedPrefix(h: Header)
    ensures HeaderBytes(h)[..12] == Authenticated(h)
  {
    hide Authenticated;
  }

  /** A message is accepted exactly if it is complete and carries the MAC of its first twelve
      bytes and all of its payload. */
  lemma AcceptedBytes(mac: Mac, key: seq<byte>, input: seq<byte>)
    ensures Accepted(mac, key, input) <==>
      && |input| >= 48
      && var n := 0x100 * input[12] as int + input[13] as int;
         |input| >= 48 + n && input[16..48] == mac(key, input[..12] + input[48..48 + n])
  {
    if |input| >= PAYLOAD_OFFSET {
      AnnouncedLength(input);
      if Complete(input) {
        hide ParseHeader, Tag;
        TagCovers(mac, key, input);
      }
    }
  }

  /** Accepted under one key with one tag, two messages agree in the first twelve bytes and in
      the payload, or else they exhibit a collision of the MAC. */
  lemma TagBinds(mac: Mac, key: seq<byte>, input: seq<byte>, input': seq<byte>)
    requires Accepted(mac, key, input) && Accepted(mac, key, input')
    requires input[16..48] == input'[16..48]
    ensures var data, data' := input[..12] + Body(input), input'[..12] + Body(input');
      || (input[..12] == input'[..12] && Body(input) == Body(input'))
      || (data != data' && mac(key, data) == mac(key, data'))
  {
    hide ParseHeader;
    TagCovers(mac, key, input);
    TagCovers(mac, key, input');
    AnnouncedLength(input);
    AnnouncedLength(input');
    var data, data' := input[..12] + Body(input), input'[..12] + Body(input');
    assert data[..12] == input[..12] && data[12..] == Body(input);
    assert data'[..12] == input'[..12] && data'[12..] == Body(input');
  }

  /** The reserved field and whatever follows the payload are not covered: they can be replaced
      in an accepted message. */
  lemma NotCovered(mac: Mac, key: seq<byte>, input: seq<byte>, reserved: seq<byte>, trailing: seq<byte>)
    requires Accepted(mac, key, input) && |reserved| == 2
    ensures var n := PAYLOAD_OFFSET + |Body(input)|;
      Accepted(mac, key, input[..14] + reserved + input[16..n] + trailing)
  {
    hide ParseHeader, Tag;
    AcceptedBytes(mac, key, input);
    AnnouncedLength(input);
    var n := PAYLOAD_OFFSET + |Body(input)|;
    var input' := input[..14] + reserved + input[16..n] + trailing;
    AcceptedBytes(mac, key, input');
    Replaced(input[..14], input[14..16], reserved, input[16..n], input[n..], trailing);
    assert input == input[..14] + input[14..16] + input[16..n] + input[n..];
    assert input'[..12] == input'[..14][..12] == input[..12];
    assert input'[16..48] == input'[16..n][..32] == input[16..48];
    assert input'[48..n] == input'[16..n][32..] == input[48..n];
  }

  lemma Replaced(a: seq<byte>, b: seq<byte>, b': seq<byte>, c: seq<byte>, d: seq<byte>, d': seq<byte>)
    requires |b| == |b'|
    ensures var s, s', n := a + b + c + d, a + b' + c + d', |a| + |b| + |c|;
      s[..|a|] == s'[..|a|] == a && s[|a| + |b|..n] == s'[|a| + |b|..n] == c
  {}

  // ----- the routines on buffers ---------------------------------------------------------------

  method Store16(out: array<byte>, at: nat, v: uint16)
    requires at + 2 <= out.Length
    modifies out
    ensures out[..at] == old(out[..at]) && out[at..at + 2] == Put16(v) && out[at + 2..] == old(out[at + 2..])
  {
    out[at], out[at + 1] := v / 0x100, v % 0x100;
  }

  method Store32(out: array<byte>, at: nat, v: uint32)
    requires at + 4 <= out.Length
    modifies out
    ensures out[..at] == old(out[..at]) && out[at..at + 4] == Put32(v) && out[at + 4..] == old(out[at + 4..])
  {
    out[at], out[at + 1] := v / 0x100_0000, v / 0x1_0000 % 0x100;
    out[at + 2], out[at + 3] := v / 0x100 % 0x100, v % 0x100;
  }

  /** The twelve bytes that open both the message and the MAC input. */
  method StoreAuthenticated(h: Header, out: array<byte>)
    requires out.Length >= 12
    modifies out
    ensures out[..12] == Authenticated(h)
    ensures out[12..] == old(out[12..])
  {
    hide Put16, Put32;
    ghost var tail := out[12..];
    Store32(out, 0, h.protocolVersion);
    ghost var a := out[0..4];
    assert out[12..] == out[4..][8..] == tail;
    Store32(out, 4, h.roundId);
    assert out[12..] == out[8..][4..] == tail;
    assert out[..4] == a;
    ghost var b := out[..8];
    assert b == Put32(h.protocolVersion) + Put32(h.roundId);
    out[8] := h.clientId;
    out[9] := h.messageType;
    ghost var c := out[..10];
    assert c == b + [h.clientId, h.messageType];
    Store16(out, 10, h.sequenceNumber);
    assert out[..12] == c + out[10..12];
  }

  method EncodeHeader(h: Header, out: array<byte>)
    requires out.Length >= HEADER_SIZE
    modifies out
    ensures out[..HEADER_SIZE] == HeaderBytes(h)
    ensures out[HEADER_SIZE..] == old(out[HEADER_SIZE..])
    ensures h.protocolVersion == 0x100_0000 * out[0] as int + 0x1_0000 * out[1] as int + 0x100 * out[2] as int + out[3] as int
    ensures h.roundId == 0x100_0000 * out[4] as int + 0x1_0000 * out[5] as int + 0x100 * out[6] as int + out[7] as int
    ensures out[8] == h.clientId && out[9] == h.messageType
    ensures h.sequenceNumber == 0x100 * out[10] as int + out[11] as int
    ensures h.payloadLength == 0x100 * out[12] as int + out[13] as int
    ensures h.reserved == 0x100 * out[14] as int + out[15] as int
  {
    HeaderLayout(h);
    hide Put16, Authenticated;
    StoreAuthenticated(h, out);
    ghost var a := out[..12];
    Store16(out, 12, h.payloadLength);
    ghost var b := out[..14];
    assert b == a + out[12..14];
    Store16(out, 14, h.reserved);
    assert out[..16] == b + out[14..16];
    assert out[..16] == HeaderBytes(h);
    hide HeaderBytes;
    assert forall k :: 0 <= k < 16 ==> out[k] == out[..16][k];
  }

  method DecodeHeader(input: array<byte>) returns (h: Header)
    requires input.Length >= HEADER_SIZE
    ensures h == ParseHeader(input[..])
  {
    h := Header(Get32(input[0], input[1], input[2], input[3]), Get32(input[4], input[5], input[6], input[7]),
                input[8], input[9], Get16(input[10], input[11]), Get16(input[12], input[13]), Get16(input[14], input[15]));
  }

  /** The MAC input, assembled in a buffer of fixed size: twelve header bytes, then the payload. */
  method BuildMacData(h: Header, payload: seq<byte>, macData: array<byte>)
    requires 12 + |payload| <= macData.Length
    modifies macData
    ensures macData[..12 + |payload|] == Authenticated(h) + payload
  {
    StoreAuthenticated(h, macData);
    CopyInto(macData, 12, payload);
    assert macData[..12 + |payload|] == macData[..12] + macData[12..12 + |payload|];
  }

  method CopyInto(out: array<byte>, offset: nat, data: seq<byte>)
    requires offset + |data| <= out.Length
    modifies out
    ensures out[offset..offset + |data|] == data
    ensures out[..offset] == old(out[..offset])
    ensures out[offset + |data|..] == old(out[offset + |data|..])
  {
    var i := 0;
    while i < |data|
      invariant 0 <= i <= |data|
      invariant forall k :: 0 <= k < out.Length ==>
        out[k] == if offset <= k < offset + i then data[k - offset] else old(out[k])
    {
      out[offset + i] := data[i];
      i := i + 1;
    }
  }

  /** Comparison in constant time: the differences of all bytes are or-ed together. */
  method CtMemcmp(a: seq<byte>, b: seq<byte>) returns (diff: bv8)
    requires |a| == |b|
    ensures diff == 0 <==> a == b
  {
    hide ToBits;
    diff := 0;
    var i := 0;
    while i < |a|
      invariant 0 <= i <= |a|
      invariant diff == 0 <==> a[..i] == b[..i]
    {
      ByteDifference(a[i], b[i]);
      OrZero(diff, ToBits(a[i]) ^ ToBits(b[i]));
      assert a[..i + 1] == a[..i] + [a[i]] && b[..i + 1] == b[..i] + [b[i]];
      diff := diff | (ToBits(a[i]) ^ ToBits(b[i]));
      i := i + 1;
    }
    assert a[..i] == a && b[..i] == b;
  }

  lemma OrZero(x: bv8, y: bv8)
    ensures x | y == 0 <==> x == 0 && y == 0
  {}

  lemma XorZero(x: bv8, y: bv8)
    ensures x ^ y == 0 <==> x == y
  {}

  function ToBits(x: byte): bv8 {
    x as bv8
  }

  lemma BitsAndBack(x: byte)
    ensures ToBits(x) as int == x
  {
    Bits.CastAndBack(x);
  }

  lemma BitsInjective(x: byte, y: byte)
    ensures ToBits(x) == ToBits(y) <==> x == y
  {
    hide ToBits;
    BitsAndBack(x);
    BitsAndBack(y);
  }

  lemma ByteDifference(x: byte, y: byte)
    ensures ToBits(x) ^ ToBits(y) == 0 <==> x == y
  {
    hide ToBits;
    XorZero(ToBits(x), ToBits(y));
    BitsInjective(x, y);
  }

  method EncodeMessage(mac: Mac, h: Header, payload: seq<byte>, key: seq<byte>, out: array<byte>)
    returns (status: Status, outLen: nat)
    requires ProducesTags(mac)
    requires |payload| == h.payloadLength <= MAX_PAYLOAD
    requires out.Length >= PAYLOAD_OFFSET + |payload|
    modifies out
    ensures status == Success && outLen == PAYLOAD_OFFSET + |payload|
    ensures out[..outLen] == Wire(mac, key, h, payload)
    ensures out[outLen..] == old(out[outLen..])
    ensures out[16..48] == mac(key, out[..12] + payload) && out[48..outLen] == payload
  {
    hide HeaderBytes, Authenticated;
    ghost var tail := out[PAYLOAD_OFFSET + |payload|..];
    EncodeHeader(h, out);
    ghost var head := out[..HEADER_SIZE];
    assert out[PAYLOAD_OFFSET + |payload|..] == out[HEADER_SIZE..][MAC_SIZE + |payload|..] == tail;
    CopyInto(out, PAYLOAD_OFFSET, payload);
    assert out[..HEADER_SIZE] == out[..PAYLOAD_OFFSET][..HEADER_SIZE] == head;
    var macData := new byte[MAC_DATA_CAPACITY];
    BuildMacData(h, payload, macData);
    var tag := mac(key, macData[..12 + |payload|]);
    CopyInto(out, HEADER_SIZE, tag);
    outLen := PAYLOAD_OFFSET + |payload|;
    assert out[outLen..] == out[PAYLOAD_OFFSET..][|payload|..] == tail;
    assert out[..outLen] == out[..HEADER_SIZE] + out[HEADER_SIZE..PAYLOAD_OFFSET] + out[PAYLOAD_OFFSET..outLen];
    AuthenticatedPrefix(h);
    assert out[..12] == out[..HEADER_SIZE][..12];
    status := Success;
  }

  /** The header is reported even when the message is refused; the payload buffer is written
      only on success. */
  method DecodeMessage(mac: Mac, input: array<byte>, key: seq<byte>, payload: array<byte>)
    returns (status: Status, h: Header, payloadLen: nat)
    requires ProducesTags(mac) && payload != input
    requires Complete(input[..]) ==>
      ParseHeader(input[..]).payloadLength <= MAX_PAYLOAD && ParseHeader(input[..]).payloadLength <= payload.Length
    modifies payload
    ensures input.Length >= PAYLOAD_OFFSET ==> h == ParseHeader(input[..])
    ensures status == Success <==> Accepted(mac, key, input[..])
    ensures status == Success <==>
      && input.Length >= 48
      && var n := 0x100 * input[12] as int + input[13] as int;
         input.Length >= 48 + n && input[16..48] == mac(key, input[..12] + input[48..48 + n])
    ensures status == Success ==>
      && payloadLen == h.payloadLength
      && payload[..payloadLen] == input[PAYLOAD_OFFSET..PAYLOAD_OFFSET + payloadLen]
      && payload[payloadLen..] == old(payload[payloadLen..])
    ensures status != Success ==> payload[..] == old(payload[..])
    ensures status != Success ==>
      status == if Complete(input[..]) then AuthFailed else InvalidArgument
    ensures status == InvalidArgument <==>
      input.Length < 48 || input.Length < 48 + 0x100 * input[12] as int + input[13] as int
  {
    hide ParseHeader, Authenticated;
    AcceptedBytes(mac, key, input[..]);
    if input.Length >= PAYLOAD_OFFSET {
      AnnouncedLength(input[..]);
    }
    assert forall i, j :: 0 <= i <= j <= input.Length ==> input[..][i..j] == input[i..j];
    payloadLen := 0;
    if input.Length < PAYLOAD_OFFSET {
      h := Header(0, 0, 0, 0, 0, 0, 0);
      return InvalidArgument, h, 0;
    }
    h := DecodeHeader(input);
    var n := h.payloadLength;
    if input.Length < PAYLOAD_OFFSET + n {
      return InvalidArgument, h, 0;
    }
    var body := input[PAYLOAD_OFFSET..PAYLOAD_OFFSET + n];
    assert body == input[..][PAYLOAD_OFFSET..PAYLOAD_OFFSET + n];
    var macData := new byte[MAC_DATA_CAPACITY];
    BuildMacData(h, body, macData);
    var received := input[HEADER_SIZE..PAYLOAD_OFFSET];
    assert received == input[..][HEADER_SIZE..PAYLOAD_OFFSET];
    var expected := mac(key, macData[..12 + n]);
    var diff := CtMemcmp(expected, received);
    if diff != 0 {
      return AuthFailed, h, 0;
    }
    if n > 0 {
      CopyInto(payload, 0, body);
    }
    return Success, h, n;
  }
}
