# rust-emlib core, modelled in Dafny

rust-emlib is a Rust hardware-abstraction layer for EFR32 radio microcontrollers.
Behind it sits the vendor's C library: emlib for the LEUART and spidrv for SPI.
This project models the small amount of decision logic the Rust crate puts in front of that library:

- **One-shot acquisition** (`Peripherals::get`, in two revisions). A process-wide `GOT_PERIPHERALS`
  flag makes the first call return the bundle of peripheral handles and every later call return `None`.
  The flag logic is shared in `OneShot` (`oneshot.dfy`).
  Each revision's bundle lives in its own module: `Leuart` (`leuart.dfy`, LEUART0 only) and
  `Peripherals` (`peripherals.dfy`, LEUART0, USART0 and USART1).
- **Configuration translation tables.** These map the crate's closed enums to the vendor vocabulary:
  `Status`, `Parity`, `StopBits`, `Pin`, `BitOrder`, and the SPI clock mode (polarity × phase).
  They also fix the constant fields of `LEUART_Init_TypeDef` and `SPIDRV_Init`.
  Every table is paired with an inverse or a reference definition, and is proved a bijection.
- **Result and error decisions around the vendor calls.** LEUART `read`/`write`/`flush` choose between
  "would block" and acting from one status bit each. SPI `new`/`transfer`/`write` apply a length guard
  and map `ECODE_OK` versus any other code to `Ok` or `Unknown(code)`.

Files:

- `common.dfy`: integer widths, `Option`, `Result` and `nb::Error`.
- `hal.dfy`: embedded-hal's SPI `Mode` and `MODE_0`..`MODE_3`.
- `bindings.dfy`: the vendor vocabulary, plus models of the vendor primitives.
- `oneshot.dfy`, `leuart.dfy`, `usart.dfy`, `peripherals.dfy`: one module per part of the crate.

How the hardware is modelled:

- The vendor enum constants are Dafny datatypes named after the bindings.
  Their numeric values sit in the vendor headers, which are not part of this model; the one exception is `ECODE_OK`, which is 0 in the vendor convention.
  Only their identity matters to the Rust code.
- A LEUART register block is a record holding three things: the three `STATUS` bits the driver reads
  (RXDATAV, TXBL, TXC, each as "set"), the bytes waiting to be received, and a log of vendor calls.
- `LEUART_Init` and `LEUART_Tx` only append to the call log.
- `LEUART_Rx` takes the oldest waiting byte and logs it.
- The SPI driver's calls are appended to a log of `SpidrvCall`s.
- The status code each spidrv call returns is a parameter of the operation, and so are the bytes a full-duplex transfer receives.
- The session record `SPIDRV_Init` fills in is represented by the configuration it was initialised from.
- Peripheral base addresses (`LEUART0_BASE`, `USART0_BASE`, `USART1_BASE`) come from the device
  header of the chip chosen at build time. They are a `MemoryMap` parameter, and their
  distinctness is a stated hypothesis.

LEUART `write` and `flush` are modelled exactly as written: `write` would block when TXBL is set, and `flush`
would block when TXC is set. Two facts make this look inverted:
- On the EFM32 LEUART, STATUS.TXBL ("TX buffer level") is set when the transmit buffer
  has room for another byte. STATUS.TXC ("TX complete") is set when the last byte has
  left the shift register and nothing is left to send.
- embedded-hal's serial `Write` trait says `write` reports WouldBlock only when the byte
  cannot be accepted yet. It says `flush` succeeds only once none of the previously
  written words are still buffered.

Read with those meanings, `write` blocks exactly when the buffer has room, and `flush`
succeeds exactly while a byte is still in flight. The model follows the code. The
discrepancy is recorded under Findings.

## Model

| member | source | states |
|---|---|---|
| OneShot.Claim | src/peripherals.rs:27-30 | one call returns the bundle iff the flag was clear, and always leaves the flag set |
| OneShot.Run | src/peripherals.rs:27-30 | over any run of calls the claimed flag is monotone: a set flag is never reset, and any call leaves it set |
| OneShot.ClaimedRunFails | src/leuart.rs:46-49 | once the flag is set, every later call returns `None`, none succeeds, and the flag stays set |
| OneShot.ExactlyFirstSucceeds | src/peripherals.rs:24-43 | from start-up, of n >= 1 calls exactly the first returns the bundle and all later ones return `None` |
| OneShot.AtMostOnce | src/peripherals.rs:27-42 | from any starting flag, a run hands the bundle out at most once, and exactly once iff the flag started clear and a call was made |
| Leuart.GetPeripherals | src/leuart.rs:43-54 | `get` returns `Some` iff `GOT_PERIPHERALS` was false, and always leaves the flag set |
| Leuart.SecondGetFails | src/leuart.rs:46-49 | a call made after any call returns `None` |
| Leuart.GetRunIsOneShotRun | src/leuart.rs:43-54 | from any flag, a run of n `get` calls gives the same results and final flag as the generic one-shot run on the LEUART0 bundle |
| Leuart.ExactlyFirstGetSucceeds | src/leuart.rs:43-54 | over n >= 1 calls of `get` from start-up, exactly the first yields the LEUART0 bundle, every later one yields `None`, and the flag ends set |
| Leuart.EnableOf | src/leuart.rs:101-106 | the vendor enable switches the receiver on iff the status asks to receive, and the transmitter on iff it asks to transmit |
| Leuart.EnableOfBijective | src/leuart.rs:101-106 | the `Status` to enable-constant table is a bijection onto the four vendor constants |
| Leuart.ParityOf | src/leuart.rs:107-111 | the parity constant decodes back to the caller's `Parity` |
| Leuart.ParityOfBijective | src/leuart.rs:107-111 | the parity table is injective and reaches every vendor parity constant |
| Leuart.StopbitsOf | src/leuart.rs:112-115 | the stop-bit constant selects the same number of stop bits as the caller's `StopBits` |
| Leuart.StopbitsOfBijective | src/leuart.rs:112-115 | the stop-bit table is injective and reaches both vendor constants |
| Leuart.InitConfig | src/leuart.rs:99-118 | the init record carries the caller's baud rate, status, parity and stop bits, with 8 data bits and `refFreq` 0 |
| Leuart.New | src/leuart.rs:92-121 | `Serial::new` keeps the port, makes exactly one `LEUART_Init` call with the constructed record, and changes nothing else |
| Leuart.NewAppliesConfiguration | src/leuart.rs:99-120 | after `Serial::new` the register block's last applied configuration is exactly the caller's settings with 8 data bits and `refFreq` 0, and `Serial::new` transmits nothing |
| Leuart.Read | src/leuart.rs:136-144 | RXDATAV clear: would block, with the register block and call log unchanged; set: one `LEUART_Rx` returning the oldest waiting byte, with TXBL and TXC unchanged; never `Overrun`; keeps the register block coherent |
| Leuart.ReadsDeliverInOrder | src/leuart.rs:139-142 | k reads over k waiting bytes return exactly those bytes in arrival order and consume exactly them |
| Leuart.EmptyReadsChangeNothing | src/leuart.rs:139-141 | polling an empty receiver any number of times returns nothing and changes nothing |
| Leuart.ReadScenario | src/leuart.rs:92-144 | a Serial at 115200 baud, both directions, no parity, one stop bit, with 0x41 waiting, reads `Ok(0x41)` and leaves the receiver empty |
| Leuart.Flush | src/leuart.rs:153-162 | `flush` would block iff TXC is set, has no side effects, and never reports `Overrun` |
| Leuart.Write | src/leuart.rs:164-175 | `write(b)` would block with no vendor call iff TXBL is set; otherwise it makes exactly one `LEUART_Tx(b)` and returns `Ok(())`; never `Overrun` |
| Leuart.WriteTransmitsOnce | src/leuart.rs:167-173 | a successful write adds exactly `b` to the transmitted bytes, and a refused one adds nothing |
| Leuart.WritePolarityInverted | src/leuart.rs:167-171 | for every state, the written `write` refuses iff the buffer has room, and transmits iff it is full; a concrete state shows each |
| Leuart.FlushPolarityInverted | src/leuart.rs:156-158 | for every state, the written `flush` would block iff transmission is complete, and succeeds iff it is not |
| Leuart.WriteIntended | src/leuart.rs:164-175 | with TXBL read as "buffer has room": a buffer with room is always written, exactly once, with one `LEUART_Tx(b)` and nothing else in the register block changed, and a full one never is |
| Leuart.FlushIntended | src/leuart.rs:153-162 | with TXC read as "transmission complete": success exactly when complete, with no side effects |
| Usart.PinToNumber | src/usart.rs:55-90 | every pin's number is below 32 and leads back to that same pin |
| Usart.PinNumberRoundTrip | src/usart.rs:55-90 | decoding a pin's number gives back the pin |
| Usart.NumberPinRoundTrip | src/usart.rs:55-90 | every location 0..31 is the number of exactly the pin found there, so the table is onto 0..31 |
| Usart.PinToNumberInjective | src/usart.rs:55-90 | two pins have the same number iff they are the same pin |
| Usart.BitOrderOf | src/usart.rs:149-152 | the vendor bit order decodes back to the caller's `BitOrder`: MSBFirst to MsbFirst, LSBFirst to LsbFirst |
| Usart.BitOrderBijective | src/usart.rs:149-152 | the bit-order table is injective and reaches both vendor constants |
| Usart.ClockModeOf | src/usart.rs:153-166 | (polarity, phase) maps to the vendor clock mode numbered k exactly when it is embedded-hal's MODE_k |
| Usart.ClockModeBijective | src/usart.rs:153-166 | the clock-mode table is total over the 2×2 inputs, injective, and hits all four constants |
| Usart.SpiConfig | src/usart.rs:139-169 | the `SPIDRV_Init` record carries the port, the four pins' numbers, the bit rate, clock mode and bit order, with frame length 8, dummy value 0, master role, automatic chip select and immediate start |
| Usart.New | src/usart.rs:132-183 | one `SPIDRV_Init` call with that record; `Ok` holding the same port and the initialised session iff the code is `ECODE_OK`, otherwise `Unknown(code)` with the code unchanged |
| Usart.Transfer | src/usart.rs:189-204 | length above `i32::MAX`: `TransferTooBig` with no vendor call; otherwise exactly one `SPIDRV_MTransferB` with the buffer and its exact length; then on `ECODE_OK` the buffer holding the received bytes, the same length as sent; else `Unknown(code)` |
| Usart.Write | src/usart.rs:210-224 | the same length guard with no call, otherwise exactly one `SPIDRV_MTransmitB` with the buffer and its length, then `Ok(())` on `ECODE_OK`, else `Unknown(code)` |
| Usart.LengthGuardBoundary | src/usart.rs:189-224 | a buffer of exactly `i32::MAX` bytes reaches the vendor driver; one of `i32::MAX + 1` gets `TransferTooBig` with no call |
| Usart.WriteScenario | src/usart.rs:132-224 | SPI at 1 MHz in mode 0, MSB first, with init OK: writing three bytes gives `Ok(())` on `ECODE_OK` and `Unknown(5)` on code 5 |
| Peripherals.Get | src/peripherals.rs:24-43 | `get` returns `Some` iff the flag was false, with handles at LEUART0_BASE, USART0_BASE and USART1_BASE, and always leaves the flag set |
| Peripherals.HandlesDistinct | src/peripherals.rs:32-42 | with distinct base addresses, the three handles handed out are pairwise distinct |
| Peripherals.GetRunIsOneShotRun | src/peripherals.rs:24-43 | from any flag, a run of n `get` calls gives the same results and final flag as the generic one-shot run on the three-handle bundle |
| Peripherals.ExactlyFirstGetSucceeds | src/peripherals.rs:24-43 | over n >= 1 calls of `get` from start-up, exactly the first yields the three-handle bundle, every later one yields `None`, and the flag ends set |
| Peripherals.NoBaseIssuedTwice | src/peripherals.rs:15-43 | given distinct base addresses, from any starting flag and over any number of `get` calls, no base address is ever handed out twice |

## Left out

- Leuart.Read: requires that the abstract register block never shows RXDATAV set with no byte waiting. That is the hardware's own guarantee, not a demand on the caller. Without it, `LEUART_Rx` would wait for data that never arrives.
- Leuart.Write, Leuart.Flush: TXBL and TXC are plain booleans driven by the environment. A transmission does not change them, because the model has no transmit timing.
- `hal::blocking::serial::write::Default` (src/leuart.rs:178) is left out. It supplies blocking write-all and flush loops that spin until the status bits change. The model's status bits change only when the environment changes them.
- The `LEUART` trait and `get_ptr` (src/leuart.rs:5-22) are not modelled as operations. Every LEUART operation receives LEUART0's register block directly. `Serial<Port>` is modelled for its one implementor, `LEUART0`.
- Usart.Transfer: the received bytes are a parameter of the same length as the buffer. Which bytes the hardware receives, and how the buffer changes when the vendor call fails, are not modelled.
- The vendor primitives (`LEUART_Init`, `LEUART_Rx`, `LEUART_Tx`, `SPIDRV_Init`, `SPIDRV_MTransferB`, `SPIDRV_MTransmitB`) are foreign code. They appear only as call-log entries; their results are parameters or, for `LEUART_Rx`, come from the register block.
- Raw pointers, volatile register reads and the uninitialised placeholder for `SPIDRV_HandleData` are not modelled. The session record is taken to be whatever `SPIDRV_Init` fills in.
- Numeric values of the vendor constants and of the base addresses are not modelled, except `ECODE_OK`, which is 0 in the vendor convention. The others come from vendor headers that are not part of this model.
- Concurrent or interrupt-context calls to `Peripherals::get` are not modelled. The source makes single-context use the caller's responsibility, so only sequential runs are modelled.
- The blocking behaviour and timing of SPI transfers are not modelled.
- build.rs and src/lib.rs are not modelled: they hold build glue and module declarations.
- The placeholder `it_works` test (src/leuart.rs:180-186) is not modelled.

## Findings

| source | as written | input that shows it | evidently intended | confidence | as-written member | corrected member |
|---|---|---|---|---|---|---|
| src/leuart.rs:167-171 | `write` returns WouldBlock when TXBL is set, and calls `LEUART_Tx` when it is clear | TXBL set, meaning the transmit buffer has room: `write(0x41)` would block; TXBL clear, meaning the buffer is full: the byte goes to `LEUART_Tx` anyway | would block while the buffer is full (TXBL clear), and transmit when it has room | medium, not executed | Leuart.WritePolarityInverted | Leuart.WriteIntended |
| src/leuart.rs:156-158 | `flush` returns WouldBlock when TXC is set | TXC set, meaning transmission is complete: `flush` would block; TXC clear, meaning a byte is still going out: `flush` returns `Ok(())` | would block until TXC is set | medium, not executed | Leuart.FlushPolarityInverted | Leuart.FlushIntended |

The `Leuart.Write` and `Leuart.Flush` operations keep the behaviour as written.
`Leuart.WriteIntended` and `Leuart.FlushIntended` are the corrected definitions.
