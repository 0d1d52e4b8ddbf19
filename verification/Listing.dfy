/** The readable program listing (src/assembler.rs, `Display` and `format_program`). */
module Listing {
  import opened Assembler
  import opened Emit

  // ----- numbers as text -----

  function Digit(n: nat): char
    requires n < 16
  {
    "0123456789abcdef"[n]
  }

  function Digits(n: nat): string {
    if n < 10 then [Digit(n)] else Digits(n / 10) + [Digit(n % 10)]
  }

  function Decimal(n: int): string {
    if n < 0 then "-" + Digits(-n) else Digits(n)
  }

  /** Decimal with the sign always written. */
  function Signed(n: int): string {
    if n < 0 then "-" + Digits(-n) else "+" + Digits(n)
  }

  function PadTo4(s: string): string
    decreases 4 - |s|
  {
    if |s| < 4 then PadTo4("0" + s) else s
  }

  function Hex2(n: nat): string
    requires n < 256
  {
    [Digit(n / 16), Digit(n % 16)]
  }

  // ----- one instruction -----

  function Reg(r: bv8): string {
    Digits(r as int)
  }

  /** The printed displacement: relative to the instruction itself, in 16-bit arithmetic. */
  function Displacement(off: i16): string {
    Signed(AsI16(off + 1))
  }

  function LoadText(d: string, size: string, s: string, off: string): string {
    "r" + d + " = *(" + size + " *)(r" + s + " + " + off + ")"
  }

  function MoveText(d: string, op: string, x: string): string {
    "r" + d + " " + op + " " + x
  }

  function JumpText(d: string, op: string, x: string, off: string): string {
    "if r" + d + " " + op + " " + x + " goto " + off
  }

  function UnknownText(code: string, d: string, s: string, off: string, imm: string): string {
    "code=0x" + code + " dst=r" + d + " src=r" + s + " off=" + off + " imm=" + imm
  }

  function Display(insn: BpfInsn): string {
    var d, s := Reg(insn.DstReg()), Reg(insn.SrcReg());
    if insn.code == BPF_JMP | BPF_EXIT then "exit"
    else if insn.code == BPF_LDX | BPF_MEM | BPF_B then LoadText(d, "u8", s, Decimal(insn.off))
    else if insn.code == BPF_LDX | BPF_MEM | BPF_W then LoadText(d, "u32", s, Decimal(insn.off))
    else if insn.code == BPF_ALU64 | BPF_MOV | BPF_K then MoveText(d, "=", Decimal(insn.imm))
    else if insn.code == BPF_ALU64 | BPF_MOV | BPF_X then MoveText(d, "=", "r" + s)
    else if insn.code == BPF_ALU64 | BPF_ADD | BPF_K then MoveText(d, "+=", Decimal(insn.imm))
    else if insn.code == BPF_ALU64 | BPF_ADD | BPF_X then MoveText(d, "+=", "r" + s)
    else if insn.code == BPF_JMP | BPF_JA then "goto " + Displacement(insn.off)
    else if insn.code == BPF_JMP | BPF_JEQ | BPF_K then JumpText(d, "==", Decimal(insn.imm), Displacement(insn.off))
    else if insn.code == BPF_JMP | BPF_JNE | BPF_K then JumpText(d, "!=", Decimal(insn.imm), Displacement(insn.off))
    else if insn.code == BPF_JMP | BPF_JGT | BPF_X then JumpText(d, ">", "r" + s, Displacement(insn.off))
    else if insn.code == BPF_JMP | BPF_JLT | BPF_K then JumpText(d, "<", Decimal(insn.imm), Displacement(insn.off))
    else if insn.code == BPF_JMP | BPF_JLE | BPF_K then JumpText(d, "<=", Decimal(insn.imm), Displacement(insn.off))
    else UnknownText(Hex2(insn.code as int), d, s, Decimal(insn.off), Decimal(insn.imm))
  }

  // ----- the listing -----

  function Join(words: seq<string>, sep: char): string {
    if words == [] then "" else if |words| == 1 then words[0] else words[0] + [sep] + Join(words[1..], sep)
  }

  function Line(i: nat, insn: BpfInsn): string {
    PadTo4(Digits(i)) + ": " + Display(insn)
  }

  function Lines(program: seq<BpfInsn>): (lines: seq<string>)
    ensures |lines| == |program|
  {
    seq(|program|, i requires 0 <= i < |program| => Line(i, program[i]))
  }

  function FormatProgram(program: seq<BpfInsn>): string {
    if program == [] then "# empty program" else Join(Lines(program), '\n')
  }
}
