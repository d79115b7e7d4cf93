/** The packet-forward state machine of the SKiM980A single-packet forwarder:
    the globals shared by the radio callbacks and the main loop, the five radio
    callbacks, and one iteration of the main loop.

    Each callback runs atomically between two loop iterations. The UART and
    the radio are not modelled; what the forwarder hands to them is recorded
    in two ghost logs. */
module PacketForward {
  import opened Bytes
  import opened Frames
  import opened Intake

  /** `RX_TIMEOUT_VALUE`, in milliseconds. */
  const RX_TIMEOUT_VALUE := 1000

  /** A call into the radio driver that the forwarder makes. */
  datatype RadioOp = Sleep | Receive(timeoutMs: nat) | Send(packet: seq<byte>)

  /** The gate a serial packet passes before it is transmitted. It accepts
      every packet. */
  function PacketValidate(data: seq<byte>, len: nat): (status: int)
    ensures status == 0
  {
    0
  }

  function Zeros(n: nat): (z: seq<byte>)
    ensures |z| == n && forall k :: 0 <= k < n ==> z[k] == 0
  {
    seq(n, _ => 0)
  }

  /** `s` after `memset(s, 0, n)`. */
  function Cleared(s: seq<byte>, n: nat): (r: seq<byte>)
    requires n <= |s|
    ensures |r| == |s|
    ensures forall k :: 0 <= k < |s| ==> r[k] == if k < n then 0 else s[k]
  {
    Zeros(n) + s[n..]
  }

  /** What the loop's `switch` writes to the UART in state `st`, given the
      frame regions `up` and `dn` of the two buffers. */
  function Emitted(st: State, up: seq<byte>, dn: seq<byte>): seq<seq<byte>> {
    if st == Rx then [up] else if IsTxOutcome(st) then [dn] else []
  }

  /** What the loop's `switch` asks of the radio in state `st`. */
  function Rearm(st: State, radioIdle: bool): seq<RadioOp> {
    if st == LowPower && radioIdle then [Receive(RX_TIMEOUT_VALUE)] else []
  }

  /** The downlink buffer after the loop's `switch` in state `st`. */
  function DnAfterForward(st: State, dn: seq<byte>, size: nat): (r: seq<byte>)
    requires size <= |dn|
    ensures |r| == |dn|
  {
    if IsTxOutcome(st) then Cleared(dn, size) else dn
  }

  /** `memcpy(a + at, s, |s|)` and the `snprintf` stores. */
  method StoreBytes(a: array<byte>, at: nat, s: seq<byte>)
    requires at + |s| <= a.Length
    modifies a
    ensures a[..] == Store(old(a[..]), at, s)
  {
    forall k | 0 <= k < |s| {
      a[at + k] := s[k];
    }
    assert a[..] == Store(old(a[..]), at, s);
  }

  /** `memset(a, 0, n)`. */
  method Memset(a: array<byte>, n: nat)
    requires n <= a.Length
    modifies a
    ensures a[..] == Cleared(old(a[..]), n)
  {
    forall k | 0 <= k < n {
      a[k] := 0;
    }
  }

  /** `snprintf(a + at, n, text)` with a text free of conversion specifiers:
      at most `n - 1` characters of the text, then a NUL. */
  method Snprintf(a: array<byte>, at: nat, n: nat, text: seq<byte>)
    requires 0 < n && at + n <= a.Length
    requires 0x25 !in text  // no '%'
    modifies a
    ensures var w := (if |text| < n then text else text[..n - 1]) + [0];
      a[..] == Store(old(a[..]), at, w)
  {
    var w := (if |text| < n then text else text[..n - 1]) + [0];
    StoreBytes(a, at, w);
  }

  /** The bytes a transmit callback stores, in the order it stores them,
      give the transmit report frame and leave the rest of the buffer alone.
      `g` is the buffer after `snprintf`, `img` the buffer after the last
      store. */
  lemma TxReportImage(g: seq<byte>, outcome: State, onAir: uint32, img: seq<byte>)
    requires IsTxOutcome(outcome) && |g| == |img| == BUFFER_SIZE
    requires g[HEADER_SIZE..HEADER_SIZE + |ReportText(outcome)| + 1] == ReportText(outcome) + [0]
    requires img == g[0 := START_OF_FRAME][1 := Ordinal(outcome)]
      [4 := LowByte(onAir / 0x100_0000)][5 := LowByte(onAir / 0x1_0000)]
      [6 := LowByte(onAir / 0x100)][7 := LowByte(onAir)]
      [12 := CR][13 := LF][2 := LowByte(14 / 0x100)][3 := LowByte(14)]
    ensures img[..14] == TxReportFrame(outcome, onAir)
    ensures img[14..] == g[14..]
  {
    var f := TxReportFrame(outcome, onAir);
    ReportBodyKept(g, outcome, onAir, img);
    forall k | 0 <= k < 14 ensures img[k] == f[k] {
      if 4 <= k < HEADER_SIZE {
        assert f[k] == Meta(f)[k - 4];
      } else if HEADER_SIZE <= k < 12 {
        assert f[k] == Body(f)[k - HEADER_SIZE];
        assert img[k] == img[HEADER_SIZE..12][k - HEADER_SIZE];
      }
    }
  }

  /** The header, CR and LF stores of a transmit callback leave bytes 8..11
      as `snprintf` wrote them: the report body. */
  lemma ReportBodyKept(g: seq<byte>, outcome: State, onAir: uint32, img: seq<byte>)
    requires IsTxOutcome(outcome) && |g| == |img| == BUFFER_SIZE
    requires g[HEADER_SIZE..HEADER_SIZE + |ReportText(outcome)| + 1] == ReportText(outcome) + [0]
    requires img == g[0 := START_OF_FRAME][1 := Ordinal(outcome)]
      [4 := LowByte(onAir / 0x100_0000)][5 := LowByte(onAir / 0x1_0000)]
      [6 := LowByte(onAir / 0x100)][7 := LowByte(onAir)]
      [12 := CR][13 := LF][2 := LowByte(14 / 0x100)][3 := LowByte(14)]
    ensures img[HEADER_SIZE..12] == ReportBody(outcome)
  {
    var t := ReportText(outcome) + [0];
    assert img[HEADER_SIZE..12] == g[HEADER_SIZE..12];
    assert g[HEADER_SIZE..12] == g[HEADER_SIZE..HEADER_SIZE + |t|][..POINTER_SIZE];
  }

  /** The frame stores of `OnTxDone` / `OnTxTimeout`, with `size` playing
      `DnBufferSize`: `sizeof` a pointer plus the header, then one
      post-increment for each of CR and LF. */
  method EncodeTxReport(a: array<byte>, outcome: State, onAir: uint32) returns (size: uint16)
    requires a.Length == BUFFER_SIZE && IsTxOutcome(outcome)
    modifies a
    ensures size == HEADER_SIZE + POINTER_SIZE + 2
    ensures a[..size] == TxReportFrame(outcome, onAir)
    ensures a[size..] == old(a[..])[size..]
  {
    size := POINTER_SIZE + HEADER_SIZE;
    Snprintf(a, HEADER_SIZE, size, ReportText(outcome));
    ghost var g := a[..];
    assert g[HEADER_SIZE..HEADER_SIZE + |ReportText(outcome)| + 1] == ReportText(outcome) + [0];
    StoreTail(old(a[..]), HEADER_SIZE, ReportText(outcome) + [0], 14);
    a[0] := START_OF_FRAME;
    a[1] := Ordinal(outcome);
    a[4] := LowByte(onAir / 0x100_0000);
    a[5] := LowByte(onAir / 0x1_0000);
    a[6] := LowByte(onAir / 0x100);
    a[7] := LowByte(onAir);
    a[size] := CR;
    size := size + 1;
    a[size] := LF;
    size := size + 1;
    a[2] := LowByte(size / 0x100);
    a[3] := LowByte(size);
    TxReportImage(g, outcome, onAir, a[..]);
  }

  /** The bytes `OnRxDone` stores, in the order it stores them, give the
      uplink frame, the six over-copied payload bytes after it, and the rest
      of the buffer unchanged. */
  lemma UplinkImage(buf: seq<byte>, payload: seq<byte>, size: nat, rssi: int, snr: int, img: seq<byte>)
    requires |buf| == |img| == BUFFER_SIZE
    requires size + HEADER_SIZE <= |payload| && size + 2 * HEADER_SIZE <= BUFFER_SIZE
    requires img == Store(buf, HEADER_SIZE, payload[..size + HEADER_SIZE])
      [0 := START_OF_FRAME][1 := Ordinal(Rx)][4 := LowByte(rssi)][5 := LowByte(snr)][6 := 0][7 := 0]
      [size + HEADER_SIZE := CR][size + HEADER_SIZE + 1 := LF]
      [2 := LowByte((size + OVERHEAD) / 0x100)][3 := LowByte(size + OVERHEAD)]
    ensures img[..size + OVERHEAD] == UplinkFrame(payload[..size], rssi, snr)
    ensures img[size + OVERHEAD..size + 2 * HEADER_SIZE] == payload[size + 2..size + HEADER_SIZE]
    ensures img[size + 2 * HEADER_SIZE..] == buf[size + 2 * HEADER_SIZE..]
  {
    var g := Store(buf, HEADER_SIZE, payload[..size + HEADER_SIZE]);
    assert g[HEADER_SIZE..2 * HEADER_SIZE + size] == payload[..size + HEADER_SIZE];
    StoreTail(buf, HEADER_SIZE, payload[..size + HEADER_SIZE], size + 2 * HEADER_SIZE);
    UplinkFrameBytes(g, payload, size, rssi, snr, img);
    UplinkPastFrame(g, size, rssi, snr, img);
    var over := g[HEADER_SIZE..2 * HEADER_SIZE + size][size + 2..];
    assert g[size + OVERHEAD..size + 2 * HEADER_SIZE] == over;
    assert payload[size + 2..size + HEADER_SIZE] == payload[..size + HEADER_SIZE][size + 2..];
    assert img[size + OVERHEAD..size + 2 * HEADER_SIZE] == img[size + OVERHEAD..][..HEADER_SIZE - 2];
    assert g[size + OVERHEAD..size + 2 * HEADER_SIZE] == g[size + OVERHEAD..][..HEADER_SIZE - 2];
    assert img[size + 2 * HEADER_SIZE..] == img[size + OVERHEAD..][HEADER_SIZE - 2..];
    assert g[size + 2 * HEADER_SIZE..] == g[size + OVERHEAD..][HEADER_SIZE - 2..];
  }

  /** The header, CR and LF stores leave every byte after the frame as the
      `memcpy` put it. */
  lemma UplinkPastFrame(g: seq<byte>, size: nat, rssi: int, snr: int, img: seq<byte>)
    requires |g| == BUFFER_SIZE && size + 2 * HEADER_SIZE <= BUFFER_SIZE
    requires img == g
      [0 := START_OF_FRAME][1 := Ordinal(Rx)][4 := LowByte(rssi)][5 := LowByte(snr)][6 := 0][7 := 0]
      [size + HEADER_SIZE := CR][size + HEADER_SIZE + 1 := LF]
      [2 := LowByte((size + OVERHEAD) / 0x100)][3 := LowByte(size + OVERHEAD)]
    ensures img[size + OVERHEAD..] == g[size + OVERHEAD..]
  {
  }

  /** The first `size + 10` bytes of the image are the uplink frame, with `g`
      the buffer after the `memcpy`. */
  lemma UplinkFrameBytes(g: seq<byte>, payload: seq<byte>, size: nat, rssi: int, snr: int, img: seq<byte>)
    requires |g| == BUFFER_SIZE
    requires size + HEADER_SIZE <= |payload| && size + 2 * HEADER_SIZE <= BUFFER_SIZE
    requires g[HEADER_SIZE..2 * HEADER_SIZE + size] == payload[..size + HEADER_SIZE]
    requires img == g
      [0 := START_OF_FRAME][1 := Ordinal(Rx)][4 := LowByte(rssi)][5 := LowByte(snr)][6 := 0][7 := 0]
      [size + HEADER_SIZE := CR][size + HEADER_SIZE + 1 := LF]
      [2 := LowByte((size + OVERHEAD) / 0x100)][3 := LowByte(size + OVERHEAD)]
    ensures img[..size + OVERHEAD] == UplinkFrame(payload[..size], rssi, snr)
  {
    var f := UplinkFrame(payload[..size], rssi, snr);
    forall k | 0 <= k < size + OVERHEAD ensures img[k] == f[k] {
      if HEADER_SIZE <= k < size + HEADER_SIZE {
        assert f[k] == Body(f)[k - HEADER_SIZE];
        assert g[k] == g[HEADER_SIZE..2 * HEADER_SIZE + size][k - HEADER_SIZE];
      }
    }
  }

  /** The frame stores of `OnRxDone`, with `size + 8` the value that
      `UpBufferSize` takes before the CR and LF post-increments. `rssi` is the
      value already stored through `RssiValue`. The `memcpy` copies `size + 8`
      bytes, so `payload` must hold that many. */
  method EncodeUplink(a: array<byte>, payload: seq<byte>, size: uint16, rssi: int, snr: int)
    returns (frameSize: uint16)
    requires a.Length == BUFFER_SIZE
    requires size + HEADER_SIZE <= |payload| && size + 2 * HEADER_SIZE <= BUFFER_SIZE
    modifies a
    ensures frameSize == size + OVERHEAD
    ensures a[..frameSize] == UplinkFrame(payload[..size], rssi, snr)
    ensures a[frameSize..size + 2 * HEADER_SIZE] == payload[size + 2..size + HEADER_SIZE]
    ensures a[size + 2 * HEADER_SIZE..] == old(a[..])[size + 2 * HEADER_SIZE..]
  {
    frameSize := size + HEADER_SIZE;
    StoreBytes(a, HEADER_SIZE, payload[..frameSize]);
    a[0] := START_OF_FRAME;
    a[1] := Ordinal(Rx);
    a[4] := LowByte(rssi);
    a[5] := LowByte(snr);
    a[6] := 0;
    a[7] := 0;
    a[frameSize] := CR;
    frameSize := frameSize + 1;
    a[frameSize] := LF;
    frameSize := frameSize + 1;
    a[2] := LowByte(frameSize / 0x100);
    a[3] := LowByte(frameSize);
    UplinkImage(old(a[..]), payload, size, rssi, snr, a[..]);
  }

  /** One `UartGetBuffer(&Uart1, a + at, cap, &count)` call that delivers
      chunk `c`: its bytes are stored from offset `at` on. */
  method ReadChunk(a: array<byte>, at: nat, cap: nat, c: Chunk) returns (status: int, count: uint16)
    requires a.Length == BUFFER_SIZE
    requires |c.data| <= cap && at + |c.data| <= BUFFER_SIZE
    modifies a
    ensures status == c.status && count == |c.data|
    ensures a[..] == Store(old(a[..]), at, c.data)
  {
    StoreBytes(a, at, c.data);
    count := |c.data|;
    status := c.status;
  }

  /** The read loop of `main` on the downlink buffer `a`, starting with
      `i == at0`: `while (UartGetBuffer(...) == 0) { i += nbReadByte; }`.
      It returns `i` and `nbReadByte`. */
  method ReadLoop(a: array<byte>, at0: uint16, cap: nat, chunks: seq<Chunk>)
    returns (at: uint16, count: uint16)
    requires a.Length == BUFFER_SIZE
    requires ReadSession(chunks)
    requires at0 + TotalLength(chunks) <= BUFFER_SIZE
    requires forall j :: 0 <= j < |chunks| ==> |chunks[j].data| <= cap
    modifies a
    ensures a[..] == AfterReads(old(a[..]), at0, chunks)
    ensures at == Advance(at0, chunks)
    ensures count == LastCount(chunks)
  {
    ghost var target := AfterReads(a[..], at0, chunks);
    ghost var finalAt := Advance(at0, chunks);
    at := at0;
    assert chunks[0..] == chunks;
    ReadStep(a[..], at, chunks, 0);
    var status;
    status, count := ReadChunk(a, at, cap, chunks[0]);
    var k := 1;
    while status == 0
      invariant 1 <= k <= |chunks|
      invariant status == chunks[k - 1].status && count == |chunks[k - 1].data|
      invariant Next(at, chunks[k - 1]) + TotalLength(chunks[k..]) <= BUFFER_SIZE
      invariant AfterReads(a[..], Next(at, chunks[k - 1]), chunks[k..]) == target
      invariant Advance(Next(at, chunks[k - 1]), chunks[k..]) == finalAt
      decreases |chunks| - k
    {
      SessionStatus(chunks, k - 1);
      at := at + count;
      ghost var before := a[..];
      assert AfterReads(before, at, chunks[k..]) == target && Advance(at, chunks[k..]) == finalAt;
      ReadStep(before, at, chunks, k);
      status, count := ReadChunk(a, at, cap, chunks[k]);
      assert AfterReads(a[..], Next(at, chunks[k]), chunks[k + 1..]) == target;
      k := k + 1;
    }
    SessionStatus(chunks, k - 1);
    assert chunks[k..] == [];
  }

  class Forwarder {
    var state: State
    const upBuffer: array<byte>
    var upBufferSize: uint16
    const dnBuffer: array<byte>
    var dnBufferSize: uint16
    /** `RssiValue`, an `int8_t` */
    var rssiValue: int
    /** `SnrValue`, an `int8_t` */
    var snrValue: int
    var onAirValue: uint32
    /** `i` of `main`: bytes of the downlink buffer filled by earlier reads */
    var accumulated: uint16
    /** `nbReadByte` of `main`: byte count of the latest read */
    var lastReadCount: uint16

    /** Every frame written to the UART, in order. */
    ghost var uartOut: seq<seq<byte>>
    /** Every radio call made, in order. */
    ghost var radioOps: seq<RadioOp>

    ghost predicate Valid()
      reads this
    {
      upBuffer.Length == BUFFER_SIZE && dnBuffer.Length == BUFFER_SIZE &&
      upBuffer != dnBuffer &&
      upBufferSize <= BUFFER_SIZE && dnBufferSize <= BUFFER_SIZE &&
      -0x80 <= rssiValue < 0x80 && -0x80 <= snrValue < 0x80 &&
      accumulated <= BUFFER_SIZE && lastReadCount == 0
    }

    /** The globals' initial values, then the first `Radio.Rx` of `main`. */
    constructor ()
      ensures Valid() && fresh(upBuffer) && fresh(dnBuffer)
      ensures state == LowPower
      ensures upBufferSize == BUFFER_SIZE && upBuffer[..] == Zeros(BUFFER_SIZE)
      ensures dnBufferSize == BUFFER_SIZE && dnBuffer[..] == Zeros(BUFFER_SIZE)
      ensures rssiValue == 0 && snrValue == 0 && onAirValue == 0
      ensures accumulated == 0 && lastReadCount == 0
      ensures uartOut == [] && radioOps == [Receive(RX_TIMEOUT_VALUE)]
    {
      state := LowPower;
      upBuffer := new byte[BUFFER_SIZE](_ => 0);
      upBufferSize := BUFFER_SIZE;
      dnBuffer := new byte[BUFFER_SIZE](_ => 0);
      dnBufferSize := BUFFER_SIZE;
      rssiValue, snrValue, onAirValue := 0, 0, 0;
      accumulated, lastReadCount := 0, 0;
      uartOut := [];
      radioOps := [Receive(RX_TIMEOUT_VALUE)];
      new;
      assert upBuffer[..] == Zeros(BUFFER_SIZE);
      assert dnBuffer[..] == Zeros(BUFFER_SIZE);
    }

    /** The shared body of `OnTxDone` and `OnTxTimeout`. */
    method ReportTx(outcome: State)
      requires Valid() && IsTxOutcome(outcome)
      modifies this`state, this`dnBufferSize, this`radioOps, dnBuffer
      ensures Valid()
      ensures state == outcome
      ensures dnBufferSize == HEADER_SIZE + POINTER_SIZE + 2
      ensures dnBuffer[..dnBufferSize] == TxReportFrame(outcome, onAirValue)
      ensures dnBuffer[dnBufferSize..] == old(dnBuffer[..])[dnBufferSize..]
      ensures radioOps == old(radioOps) + [Sleep]
    {
      radioOps := radioOps + [Sleep];
      state := outcome;
      dnBufferSize := EncodeTxReport(dnBuffer, outcome, onAirValue);
    }

    /** Radio callback: transmission complete. */
    method OnTxDone()
      requires Valid()
      modifies this`state, this`dnBufferSize, this`radioOps, dnBuffer
      ensures Valid()
      ensures state == Tx
      ensures dnBufferSize == 14
      ensures dnBuffer[..14] == TxReportFrame(Tx, onAirValue)
      ensures dnBuffer[14..] == old(dnBuffer[14..])
      ensures radioOps == old(radioOps) + [Sleep]
    {
      ReportTx(Tx);
    }

    /** Radio callback: transmission timed out. */
    method OnTxTimeout()
      requires Valid()
      modifies this`state, this`dnBufferSize, this`radioOps, dnBuffer
      ensures Valid()
      ensures state == TxTimeout
      ensures dnBufferSize == 14
      ensures dnBuffer[..14] == TxReportFrame(TxTimeout, onAirValue)
      ensures dnBuffer[14..] == old(dnBuffer[14..])
      ensures radioOps == old(radioOps) + [Sleep]
    {
      ReportTx(TxTimeout);
    }

    /** Radio callback: a packet of `size` bytes was received. `payload` holds
        the bytes readable from the driver's pointer: `memcpy` reads `size + 8`
        of them, and stores them from offset 8, so the last six land past the
        frame's CR LF. */
    method OnRxDone(payload: seq<byte>, size: uint16, rssi: int, snr: int)
      requires Valid()
      requires size + HEADER_SIZE <= |payload|
      requires HEADER_SIZE + size + HEADER_SIZE <= BUFFER_SIZE
      requires -0x8000 <= rssi < 0x8000 && -0x80 <= snr < 0x80
      modifies this`state, this`upBufferSize, this`rssiValue, this`snrValue, this`radioOps, upBuffer
      ensures Valid()
      ensures state == Rx
      ensures upBufferSize == size + OVERHEAD
      ensures upBuffer[..upBufferSize] == UplinkFrame(payload[..size], rssi, snr)
      ensures upBuffer[upBufferSize..size + 2 * HEADER_SIZE] == payload[size + 2..size + HEADER_SIZE]
      ensures upBuffer[size + 2 * HEADER_SIZE..] == old(upBuffer[size + 2 * HEADER_SIZE..])
      ensures rssiValue == ToInt8(rssi) && snrValue == snr
      ensures radioOps == old(radioOps) + [Sleep]
    {
      radioOps := radioOps + [Sleep];
      state := Rx;
      rssiValue := ToInt8(rssi);
      snrValue := snr;
      upBufferSize := EncodeUplink(upBuffer, payload, size, rssiValue, snrValue);
      Int8KeepsLowByte(rssi);
    }

    /** Radio callback: no packet arrived within the receive window. */
    method OnRxTimeout()
      requires Valid()
      modifies this`state, this`radioOps
      ensures Valid()
      ensures state == RxTimeout
      ensures radioOps == old(radioOps) + [Sleep]
    {
      radioOps := radioOps + [Sleep];
      state := RxTimeout;
    }

    /** Radio callback: a packet arrived damaged. */
    method OnRxError()
      requires Valid()
      modifies this`state, this`radioOps
      ensures Valid()
      ensures state == RxError
      ensures radioOps == old(radioOps) + [Sleep]
    {
      radioOps := radioOps + [Sleep];
      state := RxError;
    }

    /** The `switch` at the top of the main loop: forward the frame the last
        callback left, clear it, and fall back to LOWPOWER; in LOWPOWER re-arm
        reception when the radio is idle. */
    method Forward(radioIdle: bool)
      requires Valid()
      modifies this`state, this`uartOut, this`radioOps, upBuffer, dnBuffer
      ensures Valid()
      ensures state == LowPower
      ensures uartOut == old(uartOut) + Emitted(old(state), old(upBuffer[..upBufferSize]), old(dnBuffer[..dnBufferSize]))
      ensures upBuffer[..] == if old(state) == Rx then Cleared(old(upBuffer[..]), upBufferSize) else old(upBuffer[..])
      ensures dnBuffer[..] == DnAfterForward(old(state), old(dnBuffer[..]), dnBufferSize)
      ensures radioOps == old(radioOps) + Rearm(old(state), radioIdle)
    {
      match state
      case Rx =>
        uartOut := uartOut + [upBuffer[..upBufferSize]];
        Memset(upBuffer, upBufferSize);
        state := LowPower;
      case RxTimeout =>
        state := LowPower;
      case RxError =>
        state := LowPower;
      case Tx =>
        uartOut := uartOut + [dnBuffer[..dnBufferSize]];
        Memset(dnBuffer, dnBufferSize);
        state := LowPower;
      case TxTimeout =>
        uartOut := uartOut + [dnBuffer[..dnBufferSize]];
        Memset(dnBuffer, dnBufferSize);
        state := LowPower;
      case LowPower =>
        if radioIdle {
          radioOps := radioOps + [Receive(RX_TIMEOUT_VALUE)];
        }
    }

    /** `while (UartGetBuffer(...) == 0) { i += nbReadByte; }`: each call
        stores its chunk at offset `i` with `DnBufferSize` as its maximum. */
    method ReadSerial(chunks: seq<Chunk>)
      requires dnBuffer.Length == BUFFER_SIZE
      requires ReadSession(chunks)
      requires accumulated + TotalLength(chunks) <= BUFFER_SIZE
      requires forall j :: 0 <= j < |chunks| ==> |chunks[j].data| <= dnBufferSize
      modifies this`accumulated, this`lastReadCount, dnBuffer
      ensures dnBuffer[..] == AfterReads(old(dnBuffer[..]), old(accumulated), chunks)
      ensures accumulated == Advance(old(accumulated), chunks)
      ensures lastReadCount == LastCount(chunks)
    {
      accumulated, lastReadCount := ReadLoop(dnBuffer, accumulated, dnBufferSize, chunks);
    }

    /** The serial intake after the `switch`: read until the UART reports a
        non-zero status, then, if the last read delivered bytes, transmit the
        first that many bytes of the buffer, clear the buffer and reset both
        counters. */
    method PollSerial(chunks: seq<Chunk>, timeOnAir: nat -> uint32)
      requires Valid()
      requires ReadSession(chunks)
      requires accumulated + TotalLength(chunks) <= BUFFER_SIZE
      requires forall j :: 0 <= j < |chunks| ==> |chunks[j].data| <= dnBufferSize
      modifies this`onAirValue, this`accumulated, this`lastReadCount, this`radioOps, dnBuffer
      ensures Valid()
      ensures var read := AfterReads(old(dnBuffer[..]), old(accumulated), chunks);
              var n := LastCount(chunks);
              if n > 0 then
                onAirValue == timeOnAir(n) &&
                radioOps == old(radioOps) + [Send(read[..n])] &&
                dnBuffer[..] == Zeros(BUFFER_SIZE) && accumulated == 0
              else
                onAirValue == old(onAirValue) &&
                radioOps == old(radioOps) &&
                dnBuffer[..] == read && accumulated == Advance(old(accumulated), chunks)
    {
      ReadSerial(chunks);
      if lastReadCount > 0 {
        if PacketValidate(dnBuffer[..], lastReadCount) == 0 {
          onAirValue := timeOnAir(lastReadCount);
          radioOps := radioOps + [Send(dnBuffer[..lastReadCount])];
        }
        Memset(dnBuffer, BUFFER_SIZE);
        accumulated, lastReadCount := 0, 0;
      }
    }

    /** One iteration of the main loop. */
    method Step(radioIdle: bool, chunks: seq<Chunk>, timeOnAir: nat -> uint32)
      requires Valid()
      requires ReadSession(chunks)
      requires accumulated + TotalLength(chunks) <= BUFFER_SIZE
      requires forall j :: 0 <= j < |chunks| ==> |chunks[j].data| <= dnBufferSize
      modifies this`state, this`uartOut, this`onAirValue, this`accumulated, this`lastReadCount,
               this`radioOps, upBuffer, dnBuffer
      ensures Valid()
      ensures state == LowPower
      ensures uartOut == old(uartOut) + Emitted(old(state), old(upBuffer[..upBufferSize]), old(dnBuffer[..dnBufferSize]))
      ensures upBuffer[..] == if old(state) == Rx then Cleared(old(upBuffer[..]), upBufferSize) else old(upBuffer[..])
      ensures var read := AfterReads(DnAfterForward(old(state), old(dnBuffer[..]), dnBufferSize), old(accumulated), chunks);
              var n := LastCount(chunks);
              if n > 0 then
                onAirValue == timeOnAir(n) &&
                radioOps == old(radioOps) + Rearm(old(state), radioIdle) + [Send(read[..n])] &&
                dnBuffer[..] == Zeros(BUFFER_SIZE) && accumulated == 0
              else
                onAirValue == old(onAirValue) &&
                radioOps == old(radioOps) + Rearm(old(state), radioIdle) &&
                dnBuffer[..] == read && accumulated == Advance(old(accumulated), chunks)
    {
      Forward(radioIdle);
      PollSerial(chunks, timeOnAir);
    }
  }
}
