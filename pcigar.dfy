/**
 * The piggyback register (`pcigar_t`): a short queue of alignment operations
 * carried with each diagonal's offset. The source packs it into a machine
 * word two bits per operation; here it is the sequence of operations it
 * holds, oldest first.
 */
module Pcigar {

  /** The operations a compute step pushes: insertion, deletion, mismatch (or gap close). */
  datatype Op = Ins | Del | Misms

  /** Contents of a register, oldest operation first; the empty register is the word 0. */
  type Register = seq<Op>

  /** Operations one register can hold (`PCIGAR_MAX_LENGTH`: a 32-bit word, two bits each). */
  const MaxLength: nat := 16

  /** `PCIGAR_PUSH_BACK_*`: appends one operation after the newest one. */
  function PushBack(r: Register, op: Op): Register
  {
    r + [op]
  }

  /** `PCIGAR_IS_HALF_FULL`: the register holds at least half its capacity. */
  predicate IsHalfFull(r: Register)
  {
    |r| >= MaxLength / 2
  }
}
