/** The machine states of the packet forwarder and the serial frames its radio
    callbacks build:

      offset 0      start of frame, 0x01
      offset 1      state ordinal at encode time
      offsets 2-3   total frame length, big-endian
      offsets 4-7   metadata
      offset 8..    body
      last two      CR LF
 */
module Frames {
  import opened Bytes

  /** `States_t`, in declaration order. */
  datatype State = LowPower | Rx | RxTimeout | RxError | Tx | TxTimeout

  /** The enumerator's value, which the callbacks store in byte 1 of a frame. */
  function Ordinal(s: State): (b: byte)
    ensures b < 6
  {
    match s
    case LowPower => 0
    case Rx => 1
    case RxTimeout => 2
    case RxError => 3
    case Tx => 4
    case TxTimeout => 5
  }

  /** Distinct states are written as distinct bytes. */
  lemma OrdinalInjective(s: State, t: State)
    ensures Ordinal(s) == Ordinal(t) <==> s == t
  {
  }

  /** The two states whose frame reports the outcome of a transmission. */
  predicate IsTxOutcome(s: State) {
    s == Tx || s == TxTimeout
  }

  /** `BUFFER_SIZE`: the capacity of each of the two frame buffers. */
  const BUFFER_SIZE := 255
  const START_OF_FRAME: byte := 0x01
  const CR: byte := 0x0D
  const LF: byte := 0x0A
  /** Bytes before the body: start, state, two length bytes, four metadata bytes. */
  const HEADER_SIZE := 8
  /** Header plus the CR LF terminator. */
  const OVERHEAD := HEADER_SIZE + 2
  /** `sizeof` of a `const char *` on the 32-bit target; `sizeof ack` and
      `sizeof nack` evaluate to it. */
  const POINTER_SIZE := 4

  // Views of a frame's fields, used to state what an encoder produced.

  ghost function LengthField(f: seq<byte>): nat
    requires |f| >= 4
  {
    f[2] as int * 0x100 + f[3] as int
  }

  ghost function Meta(f: seq<byte>): seq<byte>
    requires |f| >= HEADER_SIZE
  {
    f[4..HEADER_SIZE]
  }

  ghost function Body(f: seq<byte>): seq<byte>
    requires |f| >= OVERHEAD
  {
    f[HEADER_SIZE..|f| - 2]
  }

  /** A frame whose start byte, length field and terminator are consistent:
      the length field counts every byte from the start byte to the LF. */
  ghost predicate WellFormed(f: seq<byte>) {
    |f| >= OVERHEAD &&
    f[0] == START_OF_FRAME &&
    LengthField(f) == |f| &&
    f[|f| - 2] == CR && f[|f| - 1] == LF
  }

  /** The frame carrying `body` with the given state byte and metadata. */
  function Frame(state: byte, meta: seq<byte>, body: seq<byte>): (f: seq<byte>)
    requires |meta| == 4 && |body| + OVERHEAD < 0x1_0000
    ensures |f| == |body| + OVERHEAD
    ensures WellFormed(f)
    ensures f[1] == state && Meta(f) == meta && Body(f) == body
  {
    [START_OF_FRAME, state] + BigEndian16(|body| + OVERHEAD) + meta + body + [CR, LF]
  }

  /** Every well-formed frame is the encoding of its own fields, so a frame is
      determined by its state byte, metadata and body. */
  lemma FrameOfFields(f: seq<byte>)
    requires WellFormed(f)
    ensures |Meta(f)| == 4 && |Body(f)| + OVERHEAD < 0x1_0000
    ensures f == Frame(f[1], Meta(f), Body(f))
  {
    BigEndian16Unique(f[2], f[3]);
    var g := Frame(f[1], Meta(f), Body(f));
    assert |g| == |f|;
    forall k | 0 <= k < |f| ensures f[k] == g[k] {
      if k < 2 {
      } else if k < 4 {
        assert g[2..4] == BigEndian16(|f|);
      } else if k < HEADER_SIZE {
        assert g[k] == Meta(g)[k - 4];
      } else if k < |f| - 2 {
        assert g[k] == Body(g)[k - HEADER_SIZE];
      }
    }
  }

  /** The frame `OnRxDone` builds: state RX, metadata {rssi, snr, 0, 0}, the
      received payload as body. */
  function UplinkFrame(payload: seq<byte>, rssi: int, snr: int): (f: seq<byte>)
    requires |payload| <= BUFFER_SIZE - OVERHEAD
    ensures |f| == |payload| + OVERHEAD <= BUFFER_SIZE
    ensures WellFormed(f) && f[1] == Ordinal(Rx)
    ensures f[4] == LowByte(rssi) && f[5] == LowByte(snr) && f[6] == 0 && f[7] == 0
    ensures Body(f) == payload
  {
    var f := Frame(Ordinal(Rx), [LowByte(rssi), LowByte(snr), 0, 0], payload);
    assert Meta(f) == [LowByte(rssi), LowByte(snr), 0, 0];
    f
  }

  /** Payload "hi", rssi -80, snr 5. */
  lemma UplinkExample()
    ensures UplinkFrame([0x68, 0x69], -80, 5)
         == [0x01, 0x01, 0x00, 0x0C, 0xB0, 0x05, 0x00, 0x00, 0x68, 0x69, 0x0D, 0x0A]
  {
  }

  const ACK_TEXT: seq<byte> := [0x41, 0x43, 0x4B]         // "ACK"
  const NACK_TEXT: seq<byte> := [0x4E, 0x41, 0x43, 0x4B]  // "NACK"

  /** The text a transmit callback prints into the body. */
  function ReportText(outcome: State): (t: seq<byte>)
    requires IsTxOutcome(outcome)
  {
    if outcome == Tx then ACK_TEXT else NACK_TEXT
  }

  /** The body bytes of a transmit report: the NUL-terminated text cut to the
      `sizeof` of a pointer, because that many body bytes precede the CR that
      is written next (and that overwrites the NUL after "NACK"). */
  function ReportBody(outcome: State): (b: seq<byte>)
    requires IsTxOutcome(outcome)
    ensures |b| == POINTER_SIZE
    ensures outcome == Tx ==> b == ACK_TEXT + [0]
    ensures outcome == TxTimeout ==> b == NACK_TEXT
  {
    (ReportText(outcome) + [0])[..POINTER_SIZE]
  }

  /** The frame `OnTxDone` (outcome TX) or `OnTxTimeout` (outcome TX_TIMEOUT)
      builds: metadata is the on-air time big-endian. */
  function TxReportFrame(outcome: State, onAir: uint32): (f: seq<byte>)
    requires IsTxOutcome(outcome)
    ensures |f| == HEADER_SIZE + POINTER_SIZE + 2 == 14
    ensures WellFormed(f) && f[1] == Ordinal(outcome)
    ensures Meta(f) == BigEndian32(onAir) && Body(f) == ReportBody(outcome)
  {
    Frame(Ordinal(outcome), BigEndian32(onAir), ReportBody(outcome))
  }

  /** Transmit complete with an on-air time of 123 ms. */
  lemma AckExample()
    ensures TxReportFrame(Tx, 123)
         == [0x01, 0x04, 0x00, 0x0E, 0x00, 0x00, 0x00, 0x7B, 0x41, 0x43, 0x4B, 0x00, 0x0D, 0x0A]
  {
  }

  /** Transmit timeout with an on-air time of 123 ms. */
  lemma NackExample()
    ensures TxReportFrame(TxTimeout, 123)
         == [0x01, 0x05, 0x00, 0x0E, 0x00, 0x00, 0x00, 0x7B, 0x4E, 0x41, 0x43, 0x4B, 0x0D, 0x0A]
  {
  }
}
