/** The vendor (emlib / spidrv) vocabulary the Rust code translates into, and a
    model of the vendor primitives it calls. The primitives' internals are not
    visible: each is modelled by the record of the call it receives (a call log)
    and, where it returns something, by a value the caller supplies or the abstract
    register block holds. */
module Bindings {
  import opened Common

  /** `ECODE_OK`, the vendor's success status code. */
  const EcodeOk: u32 := 0

  // ---------------------------------------------------------------- LEUART

  /** `LEUART_Enable_TypeDef`. */
  datatype LeuartEnable = LeuartDisable | LeuartEnableRx | LeuartEnableTx | LeuartEnable

  /** The receiver is switched on by this enable setting (the RXEN part). */
  predicate ReceiverOn(e: LeuartEnable) {
    e == LeuartEnableRx || e == LeuartEnable
  }

  /** The transmitter is switched on by this enable setting (the TXEN part). */
  predicate TransmitterOn(e: LeuartEnable) {
    e == LeuartEnableTx || e == LeuartEnable
  }

  /** `LEUART_Parity_TypeDef`. */
  datatype LeuartParity = LeuartNoParity | LeuartEvenParity | LeuartOddParity

  /** `LEUART_Stopbits_TypeDef`. */
  datatype LeuartStopbits = LeuartStopbits1 | LeuartStopbits2

  /** Number of stop bits a `LEUART_Stopbits_TypeDef` value selects. */
  function SelectedStopBits(s: LeuartStopbits): nat {
    match s
    case LeuartStopbits1 => 1
    case LeuartStopbits2 => 2
  }

  /** `LEUART_Databits_TypeDef`. */
  datatype LeuartDatabits = LeuartDatabits8 | LeuartDatabits9

  /** `LEUART_Init_TypeDef`. A `refFreq` of 0 asks the vendor code to use the
      currently configured reference clock. */
  datatype LeuartInitTypeDef = LeuartInitTypeDef(
    enable: LeuartEnable,
    refFreq: u32,
    baudrate: u32,
    databits: LeuartDatabits,
    parity: LeuartParity,
    stopbits: LeuartStopbits)

  /** The three `STATUS` bits the driver reads, each as "the bit is set". */
  datatype LeuartStatus = LeuartStatus(rxdatav: bool, txbl: bool, txc: bool)

  /** One call into the vendor LEUART primitives. */
  datatype LeuartCall =
    | LeuartInitCall(init: LeuartInitTypeDef)
    | LeuartRxCall(received: u8)
    | LeuartTxCall(sent: u8)

  /** An abstract LEUART register block: the status bits, the bytes waiting to be
      received (oldest first), and the log of vendor calls made against it. */
  datatype LeuartRegisters = LeuartRegisters(
    status: LeuartStatus,
    rxPending: seq<u8>,
    calls: seq<LeuartCall>)

  /** The abstract register block is coherent when RXDATAV is set exactly when a
      received byte is waiting. */
  predicate Coherent(regs: LeuartRegisters) {
    regs.status.rxdatav <==> |regs.rxPending| > 0
  }

  /** `LEUART_Init(leuart, init)`: records the configuration it is given. */
  function LeuartInit(regs: LeuartRegisters, init: LeuartInitTypeDef): LeuartRegisters {
    regs.(calls := regs.calls + [LeuartInitCall(init)])
  }

  /** `LEUART_Rx(leuart)`: takes the oldest waiting byte out of the receive
      buffer; RXDATAV stays set while more bytes are waiting. The vendor
      routine is only meaningful once a byte is waiting. */
  function LeuartRx(regs: LeuartRegisters): (u8, LeuartRegisters)
    requires |regs.rxPending| > 0
  {
    var b := regs.rxPending[0];
    (b, regs.(status := regs.status.(rxdatav := |regs.rxPending| > 1),
              rxPending := regs.rxPending[1..],
              calls := regs.calls + [LeuartRxCall(b)]))
  }

  /** `LEUART_Tx(leuart, byte)`: hands one byte to the transmitter. */
  function LeuartTx(regs: LeuartRegisters, b: u8): LeuartRegisters {
    regs.(calls := regs.calls + [LeuartTxCall(b)])
  }

  /** The bytes handed to `LEUART_Tx`, in call order. */
  function Transmitted(calls: seq<LeuartCall>): seq<u8> {
    if |calls| == 0 then []
    else Transmitted(calls[..|calls| - 1])
         + (match calls[|calls| - 1] case LeuartTxCall(b) => [b] case _ => [])
  }

  /** The configuration most recently given to `LEUART_Init`, if any. */
  function LastInit(calls: seq<LeuartCall>): Option<LeuartInitTypeDef> {
    if |calls| == 0 then None
    else match calls[|calls| - 1]
      case LeuartInitCall(init) => Some(init)
      case _ => LastInit(calls[..|calls| - 1])
  }

  // ---------------------------------------------------------------- SPIDRV

  /** `SPIDRV_Type`. */
  datatype SpidrvType = SpidrvMaster | SpidrvSlave

  /** `SPIDRV_BitOrder`. */
  datatype SpidrvBitOrder = SpidrvBitOrderLsbFirst | SpidrvBitOrderMsbFirst

  /** `SPIDRV_ClockMode`. */
  datatype SpidrvClockMode = SpidrvClockMode0 | SpidrvClockMode1 | SpidrvClockMode2 | SpidrvClockMode3

  /** The conventional SPI mode number a `SPIDRV_ClockMode` constant names. */
  function ClockModeNumber(m: SpidrvClockMode): nat {
    match m
    case SpidrvClockMode0 => 0
    case SpidrvClockMode1 => 1
    case SpidrvClockMode2 => 2
    case SpidrvClockMode3 => 3
  }

  /** `SPIDRV_CsControl`. */
  datatype SpidrvCsControl = SpidrvCsControlAuto | SpidrvCsControlApplication

  /** `SPIDRV_SlaveStart`. */
  datatype SpidrvSlaveStart = SpidrvSlaveStartImmediate | SpidrvSlaveStartDelayed

  /** `SPIDRV_Init`, the configuration record. `port` is the USART's base address. */
  datatype SpidrvInit = SpidrvInit(
    port: nat,
    portLocationTx: u8,
    portLocationRx: u8,
    portLocationClk: u8,
    portLocationCs: u8,
    bitRate: u32,
    frameLength: u32,
    dummyTxValue: u32,
    type_: SpidrvType,
    bitOrder: SpidrvBitOrder,
    clockMode: SpidrvClockMode,
    csControl: SpidrvCsControl,
    slaveStartMode: SpidrvSlaveStart)

  /** `SPIDRV_HandleData`, the driver session record `SPIDRV_Init` fills in,
      abstracted by the configuration it was initialised from. */
  datatype SpidrvHandle = SpidrvHandle(init: SpidrvInit)

  /** One call into the vendor SPI driver. */
  datatype SpidrvCall =
    | SpidrvInitCall(config: SpidrvInit)
    | SpidrvMTransferB(handle: SpidrvHandle, tx: seq<u8>, count: i32)
    | SpidrvMTransmitB(handle: SpidrvHandle, tx: seq<u8>, count: i32)
}
