/** Status codes and limits shared by the client's modules (protocol_types.h). */
module Protocol {
  import opened Words

  const MAX_PEERS := 16
  const CHUNK_BUFFER_BYTES := 1024

  datatype Status =
    | Success
    | InvalidArgument
    | InvalidState
    | AuthFailed
    | SequenceMismatch
    | RoundMismatch
    | ClientIdMismatch
    | ChunkTooLarge
    | ShamirEncodeFailed
    | CryptoError(code: int)

  /** The 16-byte message header (msg_header_t). */
  datatype Header = Header(
    protocolVersion: uint32,
    roundId: uint32,
    clientId: byte,
    messageType: byte,
    sequenceNumber: uint16,
    payloadLength: uint16,
    reserved: uint16)
}
