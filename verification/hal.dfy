/** The parts of embedded-hal's SPI vocabulary the SPI driver consumes. */
module Hal {

  /** Clock level while the bus is idle (CPOL). */
  datatype Polarity = IdleLow | IdleHigh

  /** Clock edge on which data is captured (CPHA). */
  datatype Phase = CaptureOnFirstTransition | CaptureOnSecondTransition

  /** An SPI clock mode: polarity and phase. */
  datatype Mode = Mode(polarity: Polarity, phase: Phase)

  /** embedded-hal's named modes, indexed by their conventional number:
      mode k has CPOL = k / 2 and CPHA = k % 2. */
  const MODE_0: Mode := Mode(IdleLow, CaptureOnFirstTransition)
  const MODE_1: Mode := Mode(IdleLow, CaptureOnSecondTransition)
  const MODE_2: Mode := Mode(IdleHigh, CaptureOnFirstTransition)
  const MODE_3: Mode := Mode(IdleHigh, CaptureOnSecondTransition)
  const Modes: seq<Mode> := [MODE_0, MODE_1, MODE_2, MODE_3]
}
