/** Modes, exception codes and cell numbers of the simulator. */
module ArmConstants {

  // processor modes
  const USR := 0x10
  const FIQ := 0x11
  const IRQ := 0x12
  const SVC := 0x13
  const ABT := 0x17
  const UND := 0x1b
  const SYS := 0x1f

  predicate KnownMode(mode: nat) {
    mode == USR || mode == FIQ || mode == IRQ || mode == SVC || mode == ABT || mode == UND || mode == SYS
  }

  // return codes of the handlers
  const RESET := 1
  const DATA_ABORT := 2
  const UNDEFINED_INSTRUCTION := 7
  const SOFTWARE_INTERRUPT := 8
  const END_SIMULATION := 9

  // cells of the register table
  const PC := 15
  const CPSR := 16
  const SPSR := 17  // the number under which callers ask for the SPSR of a mode
}
