/** Jump offsets and in-place patching of emitted jumps (src/compiler/emit.rs). */
module Emit {
  import opened Assembler

  /** The truncating cast to a signed 16-bit integer: exact on the 16-bit range and only there. */
  function AsI16(x: int): (r: i16)
    ensures (r - x) % 0x1_0000 == 0
    ensures r == x <==> -0x8000 <= x < 0x8000
  {
    (x + 0x8000) % 0x1_0000 - 0x8000
  }

  function JumpOffset(from: nat, to: nat): i16 {
    AsI16(to - from - 1)
  }

  /** The instruction vector under construction: it grows by pushes and is patched in place. */
  class Program {
    var insns: seq<BpfInsn>

    constructor ()
      ensures insns == []
    {
      insns := [];
    }

    method Push(insn: BpfInsn)
      modifies this
      ensures insns == old(insns) + [insn]
    {
      insns := insns + [insn];
    }

    method PatchMatchJump(from: nat, to: nat)
      requires from < |insns|
      modifies this
      ensures insns == old(insns)[from := JmpImm(BPF_JA, R0, 0, JumpOffset(from, to))]
      ensures from + 1 + insns[from].off == to <==> -0x8000 <= to - from - 1 < 0x8000
    {
      insns := insns[from := New(BPF_JMP | BPF_JA, R0, 0, JumpOffset(from, to), 0)];
    }

    method PatchRegJump(from: nat, to: nat, dst: bv8, src: bv8, op: bv8)
      requires from < |insns|
      modifies this
      ensures insns == old(insns)[from := JmpReg(op, dst, src, JumpOffset(from, to))]
      ensures from + 1 + insns[from].off == to <==> -0x8000 <= to - from - 1 < 0x8000
    {
      insns := insns[from := New(BPF_JMP | op | BPF_X, dst, src, JumpOffset(from, to), 0)];
    }

    method PatchImmJump(from: nat, to: nat, dst: bv8, imm: i32, op: bv8)
      requires from < |insns|
      modifies this
      ensures insns == old(insns)[from := JmpImm(op, dst, imm, JumpOffset(from, to))]
      ensures from + 1 + insns[from].off == to <==> -0x8000 <= to - from - 1 < 0x8000
    {
      insns := insns[from := New(BPF_JMP | op | BPF_K, dst, 0, JumpOffset(from, to), imm)];
    }
  }
}
