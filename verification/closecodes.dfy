/** The close status codes the connection uses and the `CloseCode.isValid` classification. The
    `CloseCode` type is not part of this model: `IsValid` is an assumed classification, the
    library's documented set of codes it accepts in a received Close frame. */
module CloseCodes {
  /** 1000, the default code of `close()` (section 7.4.1 of RFC 6455). */
  const Normal: nat := 1000
  /** 1002, sent whenever the connection is failed. */
  const ProtocolError: nat := 1002
  /** 1006, synthesised locally when the transport ends without a Close exchange. */
  const Abnormal: nat := 1006

  /** The assumed `CloseCode.isValid`: 1000-1003, 1007-1011, 1015 and the registered and
      private range 3000-4999. It accepts 1015, which section 7.4.1 of RFC 6455 forbids an
      endpoint to send, and rejects 1012-1014, registered after that RFC. */
  predicate IsValid(code: nat)
  {
    || 1000 <= code <= 1003
    || 1007 <= code <= 1011
    || code == 1015
    || 3000 <= code <= 4999
  }
}
