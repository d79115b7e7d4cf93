/** Two runs of the forwarder that follow a packet in each direction, as a
    client sees them through the contracts of `PacketForward.Forwarder`. */
module Scenarios {
  import opened Bytes
  import opened Frames
  import opened Intake
  import opened PacketForward

  /** A packet "hi" heard with rssi -80 and snr 5 goes out on the UART as its
      uplink frame on the next loop iteration, and the frame bytes of the
      uplink buffer are cleared. The radio driver's buffer holds eight more
      (zero) bytes after the payload, which `memcpy` also reads. */
  method UplinkScenario() {
    var fw := new Forwarder();
    fw.OnRxDone([0x68, 0x69, 0, 0, 0, 0, 0, 0, 0, 0], 2, -80, 5);
    assert fw.state == Rx;
    var frame := fw.upBuffer[..fw.upBufferSize];
    UplinkExample();
    assert frame == [0x01, 0x01, 0x00, 0x0C, 0xB0, 0x05, 0x00, 0x00, 0x68, 0x69, 0x0D, 0x0A];
    var none := [Chunk(1, [])];
    assert LastCount(none) == 0 && TotalLength(none) == 0;
    ghost var ops := fw.radioOps;
    assert ops == [Receive(RX_TIMEOUT_VALUE), Sleep];
    fw.Step(false, none, _ => 0);
    assert fw.state == LowPower;
    assert fw.uartOut == [frame];
    assert fw.upBuffer[..] == Cleared(fw.upBuffer[..], 12);
    assert fw.upBuffer[..12] == Zeros(12);
    assert fw.radioOps == ops;
  }

  /** Two bytes read from the UART in one call are transmitted with an
      on-air time of 123 ms; `AckScenario` follows the acknowledgement. */
  method DownlinkScenario() {
    var fw := new Forwarder();
    var session := [Chunk(1, [0xAA, 0xBB])];
    SendsStreamPrefix(fw.dnBuffer[..], session);
    assert Flatten(session) == [0xAA, 0xBB];
    fw.Step(true, session, _ => 123);
    assert fw.radioOps == [Receive(RX_TIMEOUT_VALUE), Receive(RX_TIMEOUT_VALUE), Send([0xAA, 0xBB])];
    assert fw.onAirValue == 123 && fw.uartOut == [];
    AckScenario(fw);
  }

  /** After a transmission of 123 ms on air, the transmit-done callback leaves
      an ACK frame carrying that time, which the next iteration writes to the
      UART. */
  method AckScenario(fw: Forwarder)
    requires fw.Valid() && fw.state == LowPower && fw.onAirValue == 123 && fw.uartOut == []
    modifies fw, fw.upBuffer, fw.dnBuffer
  {
    fw.OnTxDone();
    var frame := fw.dnBuffer[..14];
    AckExample();
    assert frame == [0x01, 0x04, 0x00, 0x0E, 0x00, 0x00, 0x00, 0x7B, 0x41, 0x43, 0x4B, 0x00, 0x0D, 0x0A];
    fw.Step(false, [Chunk(1, [])], _ => 0);
    assert fw.uartOut == [frame];
    assert fw.state == LowPower;
  }
}
