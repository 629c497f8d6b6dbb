/** The single-port LEUART revision: one-shot acquisition of `LEUART0`, the
    `Serial` constructor's translation into the vendor init record, and the
    non-blocking read / write / flush that poll one status bit each. */
module Leuart {
  import opened Common
  import opened Bindings
  import OneShot

  /** `LEUART0`: the marker for the chip's one LEUART instance. Its register
      block (the one at LEUART0_BASE) is what every operation below receives
      as `regs`. */
  datatype Leuart0 = Leuart0

  /** `Peripherals`, this revision's bundle: just `LEUART0`. */
  datatype Peripherals = Peripherals(leuart0: Leuart0)

  /** `Peripherals::get`, given the `GOT_PERIPHERALS` flag: the bundle and the
      flag afterwards. */
  function GetPeripherals(gotPeripherals: bool): (r: (Option<Peripherals>, bool))
    ensures r.0.Some? <==> !gotPeripherals
    ensures r.1
  {
    OneShot.Claim(gotPeripherals, Peripherals(Leuart0))
  }

  /** Calling `get` twice in a row: the second call always fails. */
  lemma SecondGetFails(gotPeripherals: bool)
    ensures GetPeripherals(GetPeripherals(gotPeripherals).1).0 == None
  {
  }

  /** `n` successive calls of `get` starting from flag `gotPeripherals`: the
      result of each call, and the flag afterwards. */
  function GetRun(gotPeripherals: bool, n: nat): (r: (seq<Option<Peripherals>>, bool))
    ensures |r.0| == n
    decreases n
  {
    if n == 0 then ([], gotPeripherals)
    else
      var (first, after) := GetPeripherals(gotPeripherals);
      var (rest, final) := GetRun(after, n - 1);
      ([first] + rest, final)
  }

  /** A run of `get` calls from any flag is the generic one-shot run on this
      bundle. */
  lemma {:induction false} GetRunIsOneShotRun(gotPeripherals: bool, n: nat)
    ensures GetRun(gotPeripherals, n) == OneShot.Run(gotPeripherals, Peripherals(Leuart0), n)
    decreases n
  {
    if n > 0 {
      GetRunIsOneShotRun(GetPeripherals(gotPeripherals).1, n - 1);
    }
  }

  /** Over `n >= 1` calls of `get` from start-up, exactly the first yields the
      bundle, every later one yields `None`, and the flag ends up set. */
  lemma ExactlyFirstGetSucceeds(n: nat)
    requires n >= 1
    ensures GetRun(false, n).0[0] == GetPeripherals(false).0
    ensures forall i :: 1 <= i < n ==> GetRun(false, n).0[i] == None
    ensures OneShot.Successes(GetRun(false, n).0) == 1
    ensures GetRun(false, n).1
  {
    GetRunIsOneShotRun(false, n);
    OneShot.ExactlyFirstSucceeds(Peripherals(Leuart0), n);
  }

  // ---------------------------------------------------------------- configuration

  /** `Status`: which directions of the LEUART are switched on. */
  datatype Status = Disabled | Receiver | Transmitter | TransmitterReceiver

  /** The receiver is wanted (`Receiver`, `TransmitterReceiver`). */
  predicate Receives(s: Status) {
    s == Receiver || s == TransmitterReceiver
  }

  /** The transmitter is wanted (`Transmitter`, `TransmitterReceiver`). */
  predicate Transmits(s: Status) {
    s == Transmitter || s == TransmitterReceiver
  }

  /** `Parity`. */
  datatype Parity = NoParity | Even | Odd

  /** `StopBits`. */
  datatype StopBits = One | Two

  /** The number of stop bits a `StopBits` value asks for. */
  function RequestedStopBits(s: StopBits): nat {
    match s
    case One => 1
    case Two => 2
  }

  /** The `enable` field `Serial::new` derives from a `Status`: the hardware
      receiver and transmitter are switched on exactly as the status asks. */
  function EnableOf(s: Status): (e: LeuartEnable)
    ensures ReceiverOn(e) <==> Receives(s)
    ensures TransmitterOn(e) <==> Transmits(s)
  {
    match s
    case Disabled => LeuartDisable
    case Receiver => LeuartEnableRx
    case Transmitter => LeuartEnableTx
    case TransmitterReceiver => LeuartEnable
  }

  /** The `Status` an enable setting was derived from. */
  function StatusFrom(e: LeuartEnable): Status {
    if ReceiverOn(e) && TransmitterOn(e) then TransmitterReceiver
    else if ReceiverOn(e) then Receiver
    else if TransmitterOn(e) then Transmitter
    else Disabled
  }

  /** The enable mapping is a bijection: `StatusFrom` undoes it, and every
      vendor enable value is reached by exactly one `Status`. */
  lemma EnableOfBijective(s: Status, e: LeuartEnable)
    ensures StatusFrom(EnableOf(s)) == s
    ensures EnableOf(StatusFrom(e)) == e
    ensures EnableOf(s) == e <==> s == StatusFrom(e)
  {
  }

  /** The `parity` field `Serial::new` derives from a `Parity`. */
  function ParityOf(p: Parity): (v: LeuartParity)
    ensures ParityFrom(v) == p
  {
    match p
    case NoParity => LeuartNoParity
    case Even => LeuartEvenParity
    case Odd => LeuartOddParity
  }

  /** The `Parity` a vendor parity value was derived from. */
  function ParityFrom(v: LeuartParity): Parity {
    match v
    case LeuartNoParity => NoParity
    case LeuartEvenParity => Even
    case LeuartOddParity => Odd
  }

  /** The parity mapping is a bijection. */
  lemma ParityOfBijective(p: Parity, q: Parity, v: LeuartParity)
    ensures ParityOf(ParityFrom(v)) == v
    ensures ParityOf(p) == ParityOf(q) ==> p == q
  {
  }

  /** The `stopbits` field `Serial::new` derives from a `StopBits`: it selects
      the same number of stop bits. */
  function StopbitsOf(s: StopBits): (v: LeuartStopbits)
    ensures SelectedStopBits(v) == RequestedStopBits(s)
  {
    match s
    case One => LeuartStopbits1
    case Two => LeuartStopbits2
  }

  /** The stop-bit mapping is a bijection. */
  lemma StopbitsOfBijective(s: StopBits, t: StopBits, v: LeuartStopbits)
    ensures StopbitsOf(s) == StopbitsOf(t) ==> s == t
    ensures exists u :: StopbitsOf(u) == v
  {
    if v == LeuartStopbits1 {
      assert StopbitsOf(One) == v;
    } else {
      assert StopbitsOf(Two) == v;
    }
  }

  /** The `LEUART_Init_TypeDef` that `Serial::new` builds: the caller's baud
      rate, enable, parity and stop bits, always 8 data bits and `refFreq` 0. */
  function InitConfig(baudRate: u32, status: Status, parity: Parity, stopBits: StopBits): (init: LeuartInitTypeDef)
    ensures init.baudrate == baudRate
    ensures StatusFrom(init.enable) == status
    ensures ParityFrom(init.parity) == parity
    ensures SelectedStopBits(init.stopbits) == RequestedStopBits(stopBits)
    ensures init.databits == LeuartDatabits8
    ensures init.refFreq == 0
  {
    LeuartInitTypeDef(EnableOf(status), 0, baudRate, LeuartDatabits8, ParityOf(parity), StopbitsOf(stopBits))
  }

  /** `Serial<LEUART0>`: owns the port marker and nothing else. */
  datatype Serial = Serial(port: Leuart0)

  /** `Serial::new`: calls `LEUART_Init` once, with the constructed config, and
      otherwise leaves the register block alone. */
  function New(port: Leuart0, baudRate: u32, status: Status, parity: Parity, stopBits: StopBits,
               regs: LeuartRegisters): (r: (Serial, LeuartRegisters))
    ensures r.0.port == port
    ensures r.1.calls == regs.calls + [LeuartInitCall(InitConfig(baudRate, status, parity, stopBits))]
    ensures r.1.status == regs.status && r.1.rxPending == regs.rxPending
  {
    (Serial(port), LeuartInit(regs, InitConfig(baudRate, status, parity, stopBits)))
  }

  /** After `Serial::new` the register block's applied configuration is exactly
      what the caller passed, and nothing has been transmitted. */
  lemma NewAppliesConfiguration(port: Leuart0, baudRate: u32, status: Status, parity: Parity,
                                stopBits: StopBits, regs: LeuartRegisters)
    ensures var regs' := New(port, baudRate, status, parity, stopBits, regs).1;
            && LastInit(regs'.calls).Some?
            && LastInit(regs'.calls).value.baudrate == baudRate
            && StatusFrom(LastInit(regs'.calls).value.enable) == status
            && ParityFrom(LastInit(regs'.calls).value.parity) == parity
            && SelectedStopBits(LastInit(regs'.calls).value.stopbits) == RequestedStopBits(stopBits)
            && LastInit(regs'.calls).value.databits == LeuartDatabits8
            && LastInit(regs'.calls).value.refFreq == 0
            && Transmitted(regs'.calls) == Transmitted(regs.calls)
  {
    var regs' := New(port, baudRate, status, parity, stopBits, regs).1;
    assert regs'.calls[..|regs'.calls| - 1] == regs.calls;
  }

  // ---------------------------------------------------------------- polling I/O

  /** Serial interface error. */
  datatype Error = Overrun

  /** `read`: with RXDATAV clear it would block and touches nothing; with it
      set it makes one `LEUART_Rx` call and returns that byte, the oldest one
      waiting. It never reports `Overrun`. */
  function Read(serial: Serial, regs: LeuartRegisters): (r: (Result<u8, NbError<Error>>, LeuartRegisters))
    requires regs.status.rxdatav ==> |regs.rxPending| > 0
    ensures !regs.status.rxdatav ==> r == (Err(WouldBlock), regs)
    ensures regs.status.rxdatav ==>
              && r.0 == Ok(regs.rxPending[0])
              && r.1.rxPending == regs.rxPending[1..]
              && r.1.calls == regs.calls + [LeuartRxCall(regs.rxPending[0])]
              && r.1.status.txbl == regs.status.txbl
              && r.1.status.txc == regs.status.txc
    ensures r.0 != Err(Other(Overrun))
    ensures Coherent(regs) ==> Coherent(r.1)
  {
    if !regs.status.rxdatav then (Err(WouldBlock), regs)
    else
      var (b, regs') := LeuartRx(regs);
      (Ok(b), regs')
  }

  /** `k` reads in a row, keeping the bytes of the ones that succeeded. */
  function ReadRepeatedly(serial: Serial, regs: LeuartRegisters, k: nat): (r: (seq<u8>, LeuartRegisters))
    requires Coherent(regs)
    ensures Coherent(r.1)
    decreases k
  {
    if k == 0 then ([], regs)
    else
      var (first, regs') := Read(serial, regs);
      var (rest, final) := ReadRepeatedly(serial, regs', k - 1);
      ((if first.Ok? then [first.value] else []) + rest, final)
  }

  /** Reads deliver the waiting bytes in arrival order, each exactly once:
      `k` reads take exactly the oldest `k` waiting bytes. */
  lemma {:induction false} ReadsDeliverInOrder(serial: Serial, regs: LeuartRegisters, k: nat)
    requires Coherent(regs)
    requires k <= |regs.rxPending|
    ensures ReadRepeatedly(serial, regs, k).0 == regs.rxPending[..k]
    ensures ReadRepeatedly(serial, regs, k).1.rxPending == regs.rxPending[k..]
    decreases k
  {
    if k > 0 {
      var regs' := Read(serial, regs).1;
      ReadsDeliverInOrder(serial, regs', k - 1);
      assert regs.rxPending[..k] == [regs.rxPending[0]] + regs'.rxPending[..k - 1];
      assert regs'.rxPending[k - 1..] == regs.rxPending[k..];
    }
  }

  /** Polling an empty receiver is idempotent: any number of reads all would
      block and leave the register block as it was. */
  lemma {:induction false} EmptyReadsChangeNothing(serial: Serial, regs: LeuartRegisters, k: nat)
    requires Coherent(regs)
    requires |regs.rxPending| == 0
    ensures ReadRepeatedly(serial, regs, k) == ([], regs)
  {
    if k > 0 {
      assert Read(serial, regs) == (Err(WouldBlock), regs);
      EmptyReadsChangeNothing(serial, regs, k - 1);
      assert ReadRepeatedly(serial, regs, k).0 == [];
    }
  }

  /** Bring up LEUART0 at 115200 baud, both directions, no parity, one stop
      bit; with byte 0x41 waiting, `read` returns it and the receiver is then
      empty. */
  lemma ReadScenario(regs: LeuartRegisters)
    requires regs.rxPending == [0x41] && regs.status.rxdatav
    ensures var (serial, regs') := New(Leuart0, 115200, TransmitterReceiver, NoParity, One, regs);
            && LastInit(regs'.calls) == Some(LeuartInitTypeDef(LeuartEnable, 0, 115200, LeuartDatabits8,
                                                               LeuartNoParity, LeuartStopbits1))
            && Read(serial, regs').0 == Ok(0x41)
            && Read(serial, regs').1.rxPending == []
            && !Read(serial, regs').1.status.rxdatav
  {
  }

  /** `flush`, as written: would block exactly when TXC is set, and has no
      side effects. It never reports `Overrun`. */
  function Flush(serial: Serial, regs: LeuartRegisters): (r: (Result<(), NbError<Error>>, LeuartRegisters))
    ensures r.1 == regs
    ensures r.0 == Err(WouldBlock) <==> regs.status.txc
    ensures r.0 != Err(Other(Overrun))
  {
    if regs.status.txc then (Err(WouldBlock), regs)
    else (Ok(()), regs)
  }

  /** `write(b)`, as written: would block, with no vendor call, exactly when
      TXBL is set; otherwise exactly one `LEUART_Tx(b)` and success. It never
      reports `Overrun`. */
  function Write(serial: Serial, regs: LeuartRegisters, b: u8): (r: (Result<(), NbError<Error>>, LeuartRegisters))
    ensures r.0 == Err(WouldBlock) <==> regs.status.txbl
    ensures regs.status.txbl ==> r.1 == regs
    ensures !regs.status.txbl ==> r.0 == Ok(()) && r.1 == regs.(calls := regs.calls + [LeuartTxCall(b)])
    ensures r.0 != Err(Other(Overrun))
  {
    if regs.status.txbl then (Err(WouldBlock), regs)
    else (Ok(()), LeuartTx(regs, b))
  }

  /** A successful write adds exactly `b` to the transmitted bytes; a refused
      one adds nothing. */
  lemma WriteTransmitsOnce(serial: Serial, regs: LeuartRegisters, b: u8)
    ensures var r := Write(serial, regs, b);
            Transmitted(r.1.calls) == Transmitted(regs.calls) + (if r.0.Ok? then [b] else [])
  {
    var r := Write(serial, regs, b);
    if r.0.Ok? {
      assert r.1.calls[..|r.1.calls| - 1] == regs.calls;
    }
  }

  // ---------------------------------------------------------------- findings

  /** TXBL ("transmit buffer level") set: the transmit buffer can take a byte. */
  predicate TxBufferHasRoom(s: LeuartStatus) {
    s.txbl
  }

  /** TXC ("transmission complete") set: the last byte has left the shifter. */
  predicate TransmissionComplete(s: LeuartStatus) {
    s.txc
  }

  /** The written `write` refuses exactly the buffers that have room, and
      hands a byte to `LEUART_Tx` exactly when the buffer is full; for
      instance, with room it refuses 0x41, and when full it transmits it. */
  lemma WritePolarityInverted(serial: Serial, regs: LeuartRegisters, b: u8)
    ensures Write(serial, regs, b).0 == Err(WouldBlock) <==> TxBufferHasRoom(regs.status)
    ensures (Transmitted(Write(serial, regs, b).1.calls) != Transmitted(regs.calls))
            <==> !TxBufferHasRoom(regs.status)
    ensures var regs := LeuartRegisters(LeuartStatus(false, true, true), [], []);
            TxBufferHasRoom(regs.status) && Write(Serial(Leuart0), regs, 0x41).0 == Err(WouldBlock)
    ensures var regs := LeuartRegisters(LeuartStatus(false, false, false), [], []);
            !TxBufferHasRoom(regs.status) && Write(Serial(Leuart0), regs, 0x41).1.calls == [LeuartTxCall(0x41)]
  {
  }

  /** The written `flush` would block exactly when transmission is complete,
      and reports success exactly while a byte is still going out. */
  lemma FlushPolarityInverted(serial: Serial, regs: LeuartRegisters)
    ensures Flush(serial, regs).0 == Err(WouldBlock) <==> TransmissionComplete(regs.status)
    ensures Flush(serial, regs).0 == Ok(()) <==> !TransmissionComplete(regs.status)
    ensures var regs := LeuartRegisters(LeuartStatus(false, true, true), [], []);
            TransmissionComplete(regs.status) && Flush(Serial(Leuart0), regs).0 == Err(WouldBlock)
    ensures var regs := LeuartRegisters(LeuartStatus(false, false, false), [], []);
            !TransmissionComplete(regs.status) && Flush(Serial(Leuart0), regs).0 == Ok(())
  {
  }

  /** `write` with the flag read the way its name means: `LEUART_Tx` is called
      only when the buffer has room, a buffer with room is always written, and
      nothing else in the register block changes. */
  function WriteIntended(serial: Serial, regs: LeuartRegisters, b: u8): (r: (Result<(), NbError<Error>>, LeuartRegisters))
    ensures TxBufferHasRoom(regs.status) ==>
              r == (Ok(()), regs.(calls := regs.calls + [LeuartTxCall(b)]))
    ensures TxBufferHasRoom(regs.status) ==> Transmitted(r.1.calls) == Transmitted(regs.calls) + [b]
    ensures !TxBufferHasRoom(regs.status) ==> r == (Err(WouldBlock), regs)
  {
    if !regs.status.txbl then (Err(WouldBlock), regs)
    else
      var regs' := LeuartTx(regs, b);
      assert regs'.calls[..|regs'.calls| - 1] == regs.calls;
      (Ok(()), regs')
  }

  /** `flush` with the flag read the way its name means: success exactly once
      transmission is complete, with no side effects. */
  function FlushIntended(serial: Serial, regs: LeuartRegisters): (r: (Result<(), NbError<Error>>, LeuartRegisters))
    ensures r.1 == regs
    ensures r.0 == Ok(()) <==> TransmissionComplete(regs.status)
    ensures !r.0.Ok? ==> r.0 == Err(WouldBlock)
  {
    if !regs.status.txc then (Err(WouldBlock), regs)
    else (Ok(()), regs)
  }
}
