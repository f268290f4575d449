/** The wire view of an MBIM control message as the host side of the control
    channel sees it: bytes, little-endian 32-bit fields, the common message
    header that starts every message (USB MBIM 1.0, section 9.1) and the
    message-type values the receive path dispatches on. */
module MbimWire {

  newtype byte = x: int | 0 <= x < 0x100
  type u16 = x: int | 0 <= x < 0x1_0000
  type u32 = x: int | 0 <= x < 0x1_0000_0000

  /** sizeof(struct mbim_message_header): type, length, transaction id. */
  const HEADER_SIZE: nat := 12

  /** The bit that marks a device-to-host "done" reply. */
  const DONE_BIT: u32 := 0x8000_0000

  // Message-type values of USB MBIM 1.0, section 9.1.
  const OPEN_MSG: u32 := 0x0000_0001
  const CLOSE_MSG: u32 := 0x0000_0002
  const COMMAND_MSG: u32 := 0x0000_0003
  const HOST_ERROR_MSG: u32 := 0x0000_0004
  const OPEN_DONE: u32 := 0x8000_0001
  const CLOSE_DONE: u32 := 0x8000_0002
  const COMMAND_DONE: u32 := 0x8000_0003
  const FUNCTION_ERROR_MSG: u32 := 0x8000_0004

  /** le32toh of the four bytes of b starting at off. */
  function Le32(b: seq<byte>, off: nat): u32
    requires off + 4 <= |b|
  {
    b[off] as int + 0x100 * (b[off + 1] as int + 0x100 * (b[off + 2] as int + 0x100 * b[off + 3] as int))
  }

  /** htole32: the four bytes that carry v on the wire. */
  function Le32Bytes(v: u32): (b: seq<byte>)
    ensures |b| == 4
  {
    [(v % 0x100) as byte,
     (v / 0x100 % 0x100) as byte,
     (v / 0x100 / 0x100 % 0x100) as byte,
     (v / 0x100 / 0x100 / 0x100) as byte]
  }

  /** Dividing r + 0x100 * q by 0x100 gives back q and r when r is a byte. */
  lemma SplitByte(r: int, q: int)
    requires 0 <= r < 0x100
    ensures (r + 0x100 * q) % 0x100 == r
    ensures (r + 0x100 * q) / 0x100 == q
  {
  }

  lemma Le32OfBytes(v: u32)
    ensures Le32(Le32Bytes(v), 0) == v
  {
  }

  lemma {:induction false} BytesOfLe32(b: seq<byte>, off: nat)
    requires off + 4 <= |b|
    ensures Le32Bytes(Le32(b, off)) == b[off..off + 4]
  {
    var b0, b1, b2, b3 := b[off] as int, b[off + 1] as int, b[off + 2] as int, b[off + 3] as int;
    var v := Le32(b, off);
    SplitByte(b0, b1 + 0x100 * (b2 + 0x100 * b3));
    SplitByte(b1, b2 + 0x100 * b3);
    SplitByte(b2, b3);
    assert v / 0x100 / 0x100 / 0x100 == b3;
  }

  /** Le32 looks only at the four bytes it names. */
  lemma Le32Window(b: seq<byte>, off: nat, c: seq<byte>)
    requires off + 4 <= |b| && |c| >= 4
    requires b[off..off + 4] == c[..4]
    ensures Le32(b, off) == Le32(c, 0)
  {
    assert b[off] == c[0] && b[off + 1] == c[1] && b[off + 2] == c[2] && b[off + 3] == c[3];
  }

  /** struct mbim_message_header, decoded. */
  datatype Header = Header(msgType: u32, length: u32, transactionId: u32)

  /** The header at the start of a buffer, each field read with le32toh. */
  function DecodeHeader(b: seq<byte>): Header
    requires |b| >= HEADER_SIZE
  {
    Header(Le32(b, 0), Le32(b, 4), Le32(b, 8))
  }

  /** The twelve bytes that carry h at the start of a frame. */
  function EncodeHeader(h: Header): (b: seq<byte>)
    ensures |b| == HEADER_SIZE
  {
    Le32Bytes(h.msgType) + Le32Bytes(h.length) + Le32Bytes(h.transactionId)
  }

  lemma {:induction false} DecodeEncodeHeader(h: Header, rest: seq<byte>)
    ensures DecodeHeader(EncodeHeader(h) + rest) == h
  {
    var b := EncodeHeader(h) + rest;
    Le32Window(b, 0, Le32Bytes(h.msgType));
    Le32Window(b, 4, Le32Bytes(h.length));
    Le32Window(b, 8, Le32Bytes(h.transactionId));
    Le32OfBytes(h.msgType);
    Le32OfBytes(h.length);
    Le32OfBytes(h.transactionId);
  }

  lemma {:induction false} EncodeDecodeHeader(b: seq<byte>)
    requires |b| >= HEADER_SIZE
    ensures EncodeHeader(DecodeHeader(b)) == b[..HEADER_SIZE]
  {
    BytesOfLe32(b, 0);
    BytesOfLe32(b, 4);
    BytesOfLe32(b, 8);
    assert b[..HEADER_SIZE] == b[0..4] + b[4..8] + b[8..12];
  }

  /** The reply tag a sent message of type t waits for, t | 0x80000000:
      bit 31 set, the lower 31 bits those of t. */
  function DoneTag(t: u32): (r: u32)
    ensures r >= DONE_BIT
    ensures r % DONE_BIT == t % DONE_BIT
  {
    if t < DONE_BIT then t + DONE_BIT else t
  }

  /** Each request type of the host waits for its own "done" type. */
  lemma ReplyTags()
    ensures DoneTag(OPEN_MSG) == OPEN_DONE
    ensures DoneTag(COMMAND_MSG) == COMMAND_DONE
    ensures DoneTag(CLOSE_MSG) == CLOSE_DONE
    ensures DoneTag(HOST_ERROR_MSG) == FUNCTION_ERROR_MSG
  {
  }

  /** The message kinds the receive path acts on; every other type falls
      through the switch. */
  datatype Kind = OpenDone | CommandDone | CloseDone | FunctionError | Unrecognised

  function Classify(t: u32): (k: Kind)
    ensures k == OpenDone <==> t == OPEN_DONE
    ensures k == CommandDone <==> t == COMMAND_DONE
    ensures k == CloseDone <==> t == CLOSE_DONE
    ensures k == FunctionError <==> t == FUNCTION_ERROR_MSG
    ensures k != Unrecognised ==> t >= DONE_BIT
  {
    if t == OPEN_DONE then OpenDone
    else if t == COMMAND_DONE then CommandDone
    else if t == CLOSE_DONE then CloseDone
    else if t == FUNCTION_ERROR_MSG then FunctionError
    else Unrecognised
  }
}
