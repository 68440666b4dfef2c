/** Relocation symbols, and the constants the preprocessor names sections and arguments with. */
module Symbols {
  datatype Schema = UcDmaRemotePtr | ShimDma57 | Scaler32 | ControlPacket48 | ShimDma48 | ShimDma57Aie4 | UnknownSchema

  /** size is overloaded: a mask for Scaler32, the transfer length in bytes for ShimDma48. */
  datatype Symbol = Symbol(name: string, pos: nat, addend: nat, size: nat, section: string, schema: Schema, index: nat)

  datatype Option<+T> = None | Some(value: T)

  const CTRL_TEXT := ".ctrltext"
  const CTRL_DATA := ".ctrldata"
  const PREEMPT_SAVE := ".preempt_save"
  const PREEMPT_RESTORE := ".preempt_restore"
  const SCRATCH_PAD := "scratch-pad-mem"
  const CTRLPKT_PM := "ctrlpkt-pm-"
  const CONTROL_PACKET := "control-packet"

  /** Kernel arguments start at 3: opcode, instruction buffer and its size come first. */
  const ARG_OFFSET: nat := 3
  const MAX_ARGPLUS: nat := 0xFFFF_FFFF
}
