/** Instruction encoding, opcode constants and assembler macros (src/assembler.rs). */
module Assembler {

  type byte = x: int | 0 <= x < 256
  type i16 = x: int | -0x8000 <= x < 0x8000
  type i32 = x: int | -0x8000_0000 <= x < 0x8000_0000

  // Instruction classes
  const BPF_LDX: bv8 := 0x01
  const BPF_JMP: bv8 := 0x05
  const BPF_ALU64: bv8 := 0x07
  // Memory sizes
  const BPF_B: bv8 := 0x10
  const BPF_W: bv8 := 0x00
  // ALU operations
  const BPF_ADD: bv8 := 0x00
  const BPF_MOV: bv8 := 0xb0
  // Jump operations
  const BPF_JA: bv8 := 0x00
  const BPF_JEQ: bv8 := 0x10
  const BPF_JGT: bv8 := 0x20
  const BPF_JNE: bv8 := 0x50
  const BPF_EXIT: bv8 := 0x90
  const BPF_JLT: bv8 := 0xa0
  const BPF_JLE: bv8 := 0xb0
  // Source operand: immediate or register
  const BPF_K: bv8 := 0x00
  const BPF_X: bv8 := 0x08
  // Memory mode
  const BPF_MEM: bv8 := 0x60
  // Registers
  const R0: bv8 := 0
  const R1: bv8 := 1
  const R2: bv8 := 2
  const R3: bv8 := 3
  const R4: bv8 := 4
  const R5: bv8 := 5
  const R6: bv8 := 6
  const R7: bv8 := 7

  /** One 64-bit instruction: the two register numbers share the byte `regs`. */
  datatype BpfInsn = BpfInsn(code: bv8, regs: bv8, off: i16, imm: i32) {
    function DstReg(): bv8 { regs & 0x0F }

    function SrcReg(): bv8 { regs >> 4 }
  }

  function New(code: bv8, dst: bv8, src: bv8, off: i16, imm: i32): BpfInsn {
    BpfInsn(code, (src << 4) | (dst & 0x0F), off, imm)
  }

  /** Packing two register numbers into one byte loses neither, and only for four-bit numbers. */
  lemma RegisterPacking(code: bv8, dst: bv8, src: bv8, off: i16, imm: i32)
    ensures New(code, dst, src, off, imm).DstReg() == dst <==> dst < 16
    ensures New(code, dst, src, off, imm).SrcReg() == src <==> src < 16
  {}

  // The assembler macros.

  function Alu64Imm(op: bv8, dst: bv8, imm: i32): BpfInsn {
    New(BPF_ALU64 | op | BPF_K, dst, 0, 0, imm)
  }

  function Alu64Reg(op: bv8, dst: bv8, src: bv8): BpfInsn {
    New(BPF_ALU64 | op | BPF_X, dst, src, 0, 0)
  }

  function LdxMem(size: bv8, dst: bv8, src: bv8, off: i16): BpfInsn {
    New(BPF_LDX | BPF_MEM | size, dst, src, off, 0)
  }

  function JmpImm(op: bv8, dst: bv8, imm: i32, off: i16): BpfInsn {
    New(BPF_JMP | op | BPF_K, dst, 0, off, imm)
  }

  function JmpReg(op: bv8, dst: bv8, src: bv8, off: i16): BpfInsn {
    New(BPF_JMP | op | BPF_X, dst, src, off, 0)
  }

  function ExitInsn(): BpfInsn {
    New(BPF_JMP | BPF_EXIT, 0, 0, 0, 0)
  }
}
