/** Field encodings shared by the decoder, the ALU, the branch checker and the assembler. */
module Bpf {
  // Instruction classes
  const LD: int := 0
  const LDX: int := 1
  const ST: int := 2
  const STX: int := 3
  const ALU: int := 4
  const JMP: int := 5
  const JMP32: int := 6
  const ALU64: int := 7

  // ALU operations
  const ADD: int := 0
  const SUB: int := 1
  const MUL: int := 2
  const DIV: int := 3
  const OR: int := 4
  const AND: int := 5
  const LSH: int := 6
  const RSH: int := 7
  const NEG: int := 8
  const MOD: int := 9
  const XOR: int := 10
  const MOV: int := 11
  const ARSH: int := 12
  const END: int := 13

  // Atomic operations
  const XCHG: int := 14
  const CMPXCHG: int := 15

  // Jump operations
  const JA: int := 0
  const JEQ: int := 1
  const JGT: int := 2
  const JGE: int := 3
  const JSET: int := 4
  const JNE: int := 5
  const JSGT: int := 6
  const JSGE: int := 7
  const JCALL: int := 8
  const JEXIT: int := 9
  const JLT: int := 10
  const JLE: int := 11
  const JSLT: int := 12
  const JSLE: int := 13

  // Memory modes
  const MODE_IMM: int := 0
  const MODE_MEM: int := 3
  const MODE_MEMSX: int := 4
  const MODE_ATOMIC: int := 6
}
