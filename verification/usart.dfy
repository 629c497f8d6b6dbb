/** SPI on top of a USART: pin numbering, the translation of the caller's
    configuration into the vendor's `SPIDRV_Init` record, and the mapping of
    the vendor driver's status codes onto `SPIError`. The vendor driver itself
    is modelled by the log of calls made to it and by the status code each
    call returns, which is a parameter. */
module Usart {
  import opened Common
  import opened Bindings
  import Hal

  /** `USART`: a handle on one USART, identified by its register block's base
      address. */
  datatype Usart = Usart(ptr: nat)

  /** `Pin`: a location on the USART's pin matrix. */
  datatype Pin = Pin0 | Pin1 | Pin2 | Pin3 | Pin4 | Pin5 | Pin6 | Pin7 | Pin8 | Pin9 | Pin10 | Pin11 | Pin12 | Pin13 | Pin14 | Pin15 | Pin16 | Pin17 | Pin18 | Pin19 | Pin20 | Pin21 | Pin22 | Pin23 | Pin24 | Pin25 | Pin26 | Pin27 | Pin28 | Pin29 | Pin30 | Pin31

  /** `pin_to_number`: the pin matrix location of `PinK` is `K`, so the
      result is below 32 and leads back to the same pin. */
  function PinToNumber(pin: Pin): (n: u8)
    ensures n < 32 && PinFromNumber(n as int) == Some(pin)
  {
    match pin
    case Pin0 => 0
    case Pin1 => 1
    case Pin2 => 2
    case Pin3 => 3
    case Pin4 => 4
    case Pin5 => 5
    case Pin6 => 6
    case Pin7 => 7
    case Pin8 => 8
    case Pin9 => 9
    case Pin10 => 10
    case Pin11 => 11
    case Pin12 => 12
    case Pin13 => 13
    case Pin14 => 14
    case Pin15 => 15
    case Pin16 => 16
    case Pin17 => 17
    case Pin18 => 18
    case Pin19 => 19
    case Pin20 => 20
    case Pin21 => 21
    case Pin22 => 22
    case Pin23 => 23
    case Pin24 => 24
    case Pin25 => 25
    case Pin26 => 26
    case Pin27 => 27
    case Pin28 => 28
    case Pin29 => 29
    case Pin30 => 30
    case Pin31 => 31
  }

  /** The pin at a pin matrix location, if the location exists. */
  function PinFromNumber(n: int): Option<Pin> {
    match n
    case 0 => Some(Pin0)
    case 1 => Some(Pin1)
    case 2 => Some(Pin2)
    case 3 => Some(Pin3)
    case 4 => Some(Pin4)
    case 5 => Some(Pin5)
    case 6 => Some(Pin6)
    case 7 => Some(Pin7)
    case 8 => Some(Pin8)
    case 9 => Some(Pin9)
    case 10 => Some(Pin10)
    case 11 => Some(Pin11)
    case 12 => Some(Pin12)
    case 13 => Some(Pin13)
    case 14 => Some(Pin14)
    case 15 => Some(Pin15)
    case 16 => Some(Pin16)
    case 17 => Some(Pin17)
    case 18 => Some(Pin18)
    case 19 => Some(Pin19)
    case 20 => Some(Pin20)
    case 21 => Some(Pin21)
    case 22 => Some(Pin22)
    case 23 => Some(Pin23)
    case 24 => Some(Pin24)
    case 25 => Some(Pin25)
    case 26 => Some(Pin26)
    case 27 => Some(Pin27)
    case 28 => Some(Pin28)
    case 29 => Some(Pin29)
    case 30 => Some(Pin30)
    case 31 => Some(Pin31)
    case _ => None
  }

  /** `pin_to_number` and `PinFromNumber` are inverse: every pin round-trips, */
  lemma PinNumberRoundTrip(pin: Pin)
    ensures PinFromNumber(PinToNumber(pin) as int) == Some(pin)
  {
  }

  /** and every location 0..31 is the number of the pin found there. */
  lemma NumberPinRoundTrip(n: int)
    requires 0 <= n < 32
    ensures PinFromNumber(n).Some? && PinToNumber(PinFromNumber(n).value) as int == n
  {
  }

  /** Distinct pins get distinct numbers. */
  lemma PinToNumberInjective(p: Pin, q: Pin)
    ensures PinToNumber(p) == PinToNumber(q) <==> p == q
  {
  }

  /** `SPIPins`: the pins carrying transmit, receive, clock and chip select. */
  datatype SpiPins = SpiPins(tx: Pin, rx: Pin, clk: Pin, cs: Pin)

  /** `BitOrder`. */
  datatype BitOrder = MSBFirst | LSBFirst

  /** The `bitOrder` field `SPI::new` derives from a `BitOrder`. */
  function BitOrderOf(order: BitOrder): (v: SpidrvBitOrder)
    ensures BitOrderFrom(v) == order
  {
    match order
    case MSBFirst => SpidrvBitOrderMsbFirst
    case LSBFirst => SpidrvBitOrderLsbFirst
  }

  /** The `BitOrder` a vendor bit order was derived from. */
  function BitOrderFrom(v: SpidrvBitOrder): BitOrder {
    match v
    case SpidrvBitOrderMsbFirst => MSBFirst
    case SpidrvBitOrderLsbFirst => LSBFirst
  }

  /** The bit-order mapping is a bijection. */
  lemma BitOrderBijective(a: BitOrder, b: BitOrder, v: SpidrvBitOrder)
    ensures BitOrderOf(BitOrderFrom(v)) == v
    ensures BitOrderOf(a) == BitOrderOf(b) ==> a == b
  {
  }

  /** The clock mode a `SPIDRV_ClockMode` constant stands for. */
  function ModeFrom(c: SpidrvClockMode): Hal.Mode {
    match c
    case SpidrvClockMode0 => Hal.Modes[0]
    case SpidrvClockMode1 => Hal.Modes[1]
    case SpidrvClockMode2 => Hal.Modes[2]
    case SpidrvClockMode3 => Hal.Modes[3]
  }

  /** The `clockMode` field `SPI::new` derives from a (polarity, phase) pair:
      the vendor constant numbered k for the embedded-hal mode MODE_k. */
  function ClockModeOf(mode: Hal.Mode): (c: SpidrvClockMode)
    ensures ClockModeNumber(c) < |Hal.Modes| && Hal.Modes[ClockModeNumber(c)] == mode
    ensures ModeFrom(c) == mode
  {
    match (mode.polarity, mode.phase)
    case (IdleLow, CaptureOnFirstTransition) => SpidrvClockMode0
    case (IdleLow, CaptureOnSecondTransition) => SpidrvClockMode1
    case (IdleHigh, CaptureOnFirstTransition) => SpidrvClockMode2
    case (IdleHigh, CaptureOnSecondTransition) => SpidrvClockMode3
  }

  /** The clock-mode mapping is total over the four (polarity, phase) pairs
      and hits the four vendor constants, one each: it is a bijection. */
  lemma ClockModeBijective(m1: Hal.Mode, m2: Hal.Mode, c: SpidrvClockMode)
    ensures ClockModeOf(ModeFrom(c)) == c
    ensures ClockModeOf(m1) == ClockModeOf(m2) ==> m1 == m2
  {
  }

  /** The `SPIDRV_Init` record `SPI::new` builds: the port and the caller's pins,
      bit rate, clock mode and bit order, with 8-bit frames, a zero dummy
      transmit value, master role, automatic chip select and immediate start. */
  function SpiConfig(port: Usart, pins: SpiPins, bitRate: u32, clockMode: Hal.Mode, bitOrder: BitOrder): (c: SpidrvInit)
    ensures c.port == port.ptr
    ensures PinFromNumber(c.portLocationTx as int) == Some(pins.tx)
    ensures PinFromNumber(c.portLocationRx as int) == Some(pins.rx)
    ensures PinFromNumber(c.portLocationClk as int) == Some(pins.clk)
    ensures PinFromNumber(c.portLocationCs as int) == Some(pins.cs)
    ensures c.bitRate == bitRate
    ensures c.frameLength == 8 && c.dummyTxValue == 0
    ensures c.type_ == SpidrvMaster
    ensures c.csControl == SpidrvCsControlAuto && c.slaveStartMode == SpidrvSlaveStartImmediate
    ensures ModeFrom(c.clockMode) == clockMode
    ensures BitOrderFrom(c.bitOrder) == bitOrder
  {
    SpidrvInit(
      port.ptr,
      PinToNumber(pins.tx), PinToNumber(pins.rx), PinToNumber(pins.clk), PinToNumber(pins.cs),
      bitRate, 8, 0, SpidrvMaster, BitOrderOf(bitOrder), ClockModeOf(clockMode),
      SpidrvCsControlAuto, SpidrvSlaveStartImmediate)
  }

  /** `SPI`: the USART it runs on and the vendor session record. */
  datatype Spi = Spi(port: Usart, handleData: SpidrvHandle)

  /** `SPIError`. */
  datatype SpiError = Unknown(code: u32) | TransferTooBig

  /** `SPI::new`, where `initStatus` is the code `SPIDRV_Init` returns: one
      `SPIDRV_Init` call with the built config; success exactly when that call
      returns `ECODE_OK`, holding the same port and the session the call
      filled in; otherwise the code, unchanged. */
  function New(port: Usart, pins: SpiPins, bitRate: u32, clockMode: Hal.Mode, bitOrder: BitOrder,
               initStatus: u32, calls: seq<SpidrvCall>): (r: (Result<Spi, SpiError>, seq<SpidrvCall>))
    ensures r.1 == calls + [SpidrvInitCall(SpiConfig(port, pins, bitRate, clockMode, bitOrder))]
    ensures r.0.Ok? <==> initStatus == EcodeOk
    ensures r.0.Ok? ==> r.0.value.port == port
                        && r.0.value.handleData.init == SpiConfig(port, pins, bitRate, clockMode, bitOrder)
    ensures !r.0.Ok? ==> r.0 == Err(Unknown(initStatus))
  {
    var config := SpiConfig(port, pins, bitRate, clockMode, bitOrder);
    var calls' := calls + [SpidrvInitCall(config)];
    if initStatus == EcodeOk then (Ok(Spi(port, SpidrvHandle(config))), calls')
    else (Err(Unknown(initStatus)), calls')
  }

  /** `Transfer::transfer`, where `status` is the code `SPIDRV_MTransferB`
      returns and `received` the bytes it writes back into the buffer (as many
      as were sent): a buffer longer than `i32::MAX` gives `TransferTooBig` with
      no vendor call; otherwise one `SPIDRV_MTransferB` call with the buffer
      and its exact length, and on `ECODE_OK` the buffer, now holding the
      received bytes, or otherwise the code, unchanged. */
  function Transfer(spi: Spi, words: seq<u8>, received: seq<u8>, status: u32, calls: seq<SpidrvCall>)
    : (r: (Result<seq<u8>, SpiError>, seq<SpidrvCall>))
    requires |received| == |words|
    ensures r.0 == Err(TransferTooBig) <==> |words| > I32Max
    ensures |words| > I32Max ==> r.1 == calls
    ensures |words| <= I32Max ==>
              r.1 == calls + [SpidrvMTransferB(spi.handleData, words, |words| as i32)]
    ensures |words| <= I32Max && status == EcodeOk ==> r.0 == Ok(received)
    ensures r.0.Ok? ==> |r.0.value| == |words|
    ensures |words| <= I32Max && status != EcodeOk ==> r.0 == Err(Unknown(status))
  {
    if |words| > I32Max then (Err(TransferTooBig), calls)
    else
      var calls' := calls + [SpidrvMTransferB(spi.handleData, words, |words| as i32)];
      if status == EcodeOk then (Ok(received), calls')
      else (Err(Unknown(status)), calls')
  }

  /** `Write::write`, where `status` is the code `SPIDRV_MTransmitB` returns:
      the same length guard with no vendor call; otherwise one
      `SPIDRV_MTransmitB` call with the buffer and its exact length, and
      `Ok(())` on `ECODE_OK`, or the code, unchanged. */
  function Write(spi: Spi, words: seq<u8>, status: u32, calls: seq<SpidrvCall>)
    : (r: (Result<(), SpiError>, seq<SpidrvCall>))
    ensures r.0 == Err(TransferTooBig) <==> |words| > I32Max
    ensures |words| > I32Max ==> r.1 == calls
    ensures |words| <= I32Max ==>
              r.1 == calls + [SpidrvMTransmitB(spi.handleData, words, |words| as i32)]
    ensures |words| <= I32Max && status == EcodeOk ==> r.0 == Ok(())
    ensures |words| <= I32Max && status != EcodeOk ==> r.0 == Err(Unknown(status))
  {
    if |words| > I32Max then (Err(TransferTooBig), calls)
    else
      var calls' := calls + [SpidrvMTransmitB(spi.handleData, words, |words| as i32)];
      if status == EcodeOk then (Ok(()), calls')
      else (Err(Unknown(status)), calls')
  }

  /** The length guard's boundary: a buffer of exactly `i32::MAX` bytes is
      passed to the vendor driver; one byte more never is. */
  lemma LengthGuardBoundary(spi: Spi, words: seq<u8>, received: seq<u8>, status: u32, calls: seq<SpidrvCall>)
    requires |received| == |words|
    ensures |words| == I32Max ==> Transfer(spi, words, received, status, calls).0 != Err(TransferTooBig)
                                  && |Transfer(spi, words, received, status, calls).1| == |calls| + 1
                                  && Write(spi, words, status, calls).0 != Err(TransferTooBig)
                                  && |Write(spi, words, status, calls).1| == |calls| + 1
    ensures |words| == I32Max + 1 ==> Transfer(spi, words, received, status, calls) == (Err(TransferTooBig), calls)
                                      && Write(spi, words, status, calls) == (Err(TransferTooBig), calls)
  {
  }

  /** Bring up SPI at 1 MHz in mode 0, MSB first, with the init call
      succeeding, then write three bytes: `ECODE_OK` gives `Ok(())` and code 5
      gives `Unknown(5)`. */
  lemma WriteScenario(port: Usart, pins: SpiPins)
    ensures var (spi, calls) := New(port, pins, 1_000_000, Hal.MODE_0, MSBFirst, EcodeOk, []);
            && spi.Ok?
            && spi.value.handleData.init.clockMode == SpidrvClockMode0
            && spi.value.handleData.init.bitOrder == SpidrvBitOrderMsbFirst
            && Write(spi.value, [0x01, 0x02, 0x03], EcodeOk, calls).0 == Ok(())
            && Write(spi.value, [0x01, 0x02, 0x03], 5, calls).0 == Err(Unknown(5))
  {
  }
}
