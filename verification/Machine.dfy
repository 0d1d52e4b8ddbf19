/** An executable semantics of the emitted eBPF instructions, after RFC 9669. */
module Machine {
  import opened Assembler
  import Bits

  const WORD := 0x1_0000_0000_0000_0000
  type Word = x: int | 0 <= x < WORD

  /** The general-purpose registers R0 to R9 and the frame pointer R10. */
  type Registers = r: seq<Word> | |r| == 11 witness [0, 0, 0, 0, 0, 0, 0, 0, 0, 0, 0]

  /** The readable bytes. A load from an address that is not a key faults. */
  type Memory = map<int, byte>

  /** A decoded instruction (RFC 9669, sections 3.1, 4.1, 4.3 and 5.1). */
  datatype Op =
    | LoadByte(dst: nat, src: nat, off: i16)
    | LoadWord(dst: nat, src: nat, off: i16)
    | MovImm(dst: nat, imm: i32)
    | MovReg(dst: nat, src: nat)
    | AddImm(dst: nat, imm: i32)
    | AddReg(dst: nat, src: nat)
    | Goto(off: i16)
    | JeqImm(dst: nat, imm: i32, off: i16)
    | JneImm(dst: nat, imm: i32, off: i16)
    | JltImm(dst: nat, imm: i32, off: i16)
    | JleImm(dst: nat, imm: i32, off: i16)
    | JgtReg(dst: nat, src: nat, off: i16)
    | Exit
    | Illegal

  function LowNibble(b: bv8): nat {
    (b & 0x0F) as int
  }

  function HighNibble(b: bv8): nat {
    (b >> 4) as int
  }

  /**
   * Decoding reads the wire format as numbers: the opcode byte, the destination
   * register in the low and the source register in the high four bits. It is
   * strict: an unused field must be zero, R10 is never written and no register
   * number exceeds 10, otherwise the instruction is illegal.
   */
  function Decode(insn: BpfInsn): Op {
    var dst, src := LowNibble(insn.regs), HighNibble(insn.regs);
    if dst >= 10 || src >= 11 then Illegal
    else if insn.code == 0x71 && insn.imm == 0 then LoadByte(dst, src, insn.off)
    else if insn.code == 0x61 && insn.imm == 0 then LoadWord(dst, src, insn.off)
    else if insn.code == 0xb7 && src == 0 && insn.off == 0 then MovImm(dst, insn.imm)
    else if insn.code == 0xbf && insn.off == 0 && insn.imm == 0 then MovReg(dst, src)
    else if insn.code == 0x07 && src == 0 && insn.off == 0 then AddImm(dst, insn.imm)
    else if insn.code == 0x0f && insn.off == 0 && insn.imm == 0 then AddReg(dst, src)
    else if insn.code == 0x05 && insn.regs == 0 && insn.imm == 0 then Goto(insn.off)
    else if insn.code == 0x15 && src == 0 then JeqImm(dst, insn.imm, insn.off)
    else if insn.code == 0x55 && src == 0 then JneImm(dst, insn.imm, insn.off)
    else if insn.code == 0xa5 && src == 0 then JltImm(dst, insn.imm, insn.off)
    else if insn.code == 0xb5 && src == 0 then JleImm(dst, insn.imm, insn.off)
    else if insn.code == 0x2d && insn.imm == 0 then JgtReg(dst, src, insn.off)
    else if insn.code == 0x95 && insn.regs == 0 && insn.off == 0 && insn.imm == 0 then Exit
    else Illegal
  }

  /** The decoded program: the machine runs this. */
  function Load(program: seq<BpfInsn>): (code: seq<Op>)
    ensures |code| == |program|
    ensures forall i :: 0 <= i < |program| ==> code[i] == Decode(program[i])
  {
    seq(|program|, i requires 0 <= i < |program| => Decode(program[i]))
  }

  // ----- values -----

  /** A 32-bit immediate is sign-extended to 64 bits. */
  function SignExtend(imm: i32): Word {
    if imm < 0 then imm + WORD else imm
  }

  function Wrap(x: int): Word {
    x % WORD
  }

  /** The address of a load: base plus signed offset, modulo 2^64. */
  function Address(base: Word, off: i16): Word {
    Wrap(base + off)
  }

  predicate WordReadable(mem: Memory, a: Word) {
    && a in mem && Wrap(a + 1) in mem && Wrap(a + 2) in mem && Wrap(a + 3) in mem
  }

  /** A zero-extended 32-bit little-endian load. */
  function ReadWord(mem: Memory, a: Word): (w: Word)
    requires WordReadable(mem, a)
    ensures w < 0x1_0000_0000
    ensures w % 0x100 == mem[a]
    ensures (w / 0x100) % 0x100 == mem[Wrap(a + 1)]
    ensures (w / 0x1_0000) % 0x100 == mem[Wrap(a + 2)]
    ensures w / 0x100_0000 == mem[Wrap(a + 3)]
  {
    var b0: int, b1: int, b2: int, b3: int := mem[a], mem[Wrap(a + 1)], mem[Wrap(a + 2)], mem[Wrap(a + 3)];
    Bits.FourBytes(b0, b1, b2, b3, b0 + 0x100 * b1 + 0x1_0000 * b2 + 0x100_0000 * b3);
    b0 + 0x100 * b1 + 0x1_0000 * b2 + 0x100_0000 * b3
  }

  // ----- execution -----

  /** `wrapped` records whether some 64-bit addition of the run so far lost its carry. */
  datatype State = State(pc: int, r: Registers, wrapped: bool)

  datatype Status = Running(s: State) | Exited(s: State) | Faulted

  function Set(s: State, dst: nat, v: Word): State
    requires dst < 11
  {
    State(s.pc + 1, s.r[dst := v], s.wrapped)
  }

  function Add(s: State, dst: nat, x: Word, carry: bool): State
    requires dst < 11
  {
    State(s.pc + 1, s.r[dst := Wrap(s.r[dst] + x)], s.wrapped || carry)
  }

  /** Jumps are relative to the following instruction. */
  function Jump(s: State, taken: bool, off: i16): State {
    State(if taken then s.pc + 1 + off else s.pc + 1, s.r, s.wrapped)
  }

  predicate ValidOp(op: Op) {
    match op
    case LoadByte(d, s, _) => d < 10 && s < 11
    case LoadWord(d, s, _) => d < 10 && s < 11
    case MovImm(d, _) => d < 10
    case MovReg(d, s) => d < 10 && s < 11
    case AddImm(d, _) => d < 10
    case AddReg(d, s) => d < 10 && s < 11
    case Goto(_) => true
    case JeqImm(d, _, _) => d < 11
    case JneImm(d, _, _) => d < 11
    case JltImm(d, _, _) => d < 11
    case JleImm(d, _, _) => d < 11
    case JgtReg(d, s, _) => d < 11 && s < 11
    case Exit => true
    case Illegal => false
  }

  /** One instruction. Leaving the program, an illegal instruction and an unreadable address fault. */
  function Step(code: seq<Op>, mem: Memory, s: State): Status {
    if !(0 <= s.pc < |code|) || !ValidOp(code[s.pc]) then Faulted
    else match code[s.pc]
      case LoadByte(d, src, off) =>
        var a := Address(s.r[src], off);
        if a in mem then Running(Set(s, d, mem[a])) else Faulted
      case LoadWord(d, src, off) =>
        var a := Address(s.r[src], off);
        if WordReadable(mem, a) then Running(Set(s, d, ReadWord(mem, a))) else Faulted
      case MovImm(d, imm) => Running(Set(s, d, SignExtend(imm)))
      case MovReg(d, src) => Running(Set(s, d, s.r[src]))
      case AddImm(d, imm) =>
        Running(Add(s, d, SignExtend(imm), !(0 <= s.r[d] + imm < WORD)))
      case AddReg(d, src) =>
        Running(Add(s, d, s.r[src], s.r[d] + s.r[src] >= WORD))
      case Goto(off) => Running(Jump(s, true, off))
      case JeqImm(d, imm, off) => Running(Jump(s, s.r[d] == SignExtend(imm), off))
      case JneImm(d, imm, off) => Running(Jump(s, s.r[d] != SignExtend(imm), off))
      case JltImm(d, imm, off) => Running(Jump(s, s.r[d] < SignExtend(imm), off))
      case JleImm(d, imm, off) => Running(Jump(s, s.r[d] <= SignExtend(imm), off))
      case JgtReg(d, src, off) => Running(Jump(s, s.r[d] > s.r[src], off))
      case Exit => Exited(s)
  }

  /** At most `n` instructions; a run that has exited or faulted stays as it is. */
  function Run(code: seq<Op>, mem: Memory, s: State, n: nat): Status
    decreases n
  {
    if n == 0 then Running(s)
    else match Step(code, mem, s)
      case Running(s') => Run(code, mem, s', n - 1)
      case other => other
  }

  lemma {:induction false} RunCompose(code: seq<Op>, mem: Memory, s: State, a: nat, t: State, b: nat)
    requires Run(code, mem, s, a) == Running(t)
    ensures Run(code, mem, s, a + b) == Run(code, mem, t, b)
    decreases a
  {
    if a > 0 {
      RunCompose(code, mem, Step(code, mem, s).s, a - 1, t, b);
    }
  }

  lemma RunStep(code: seq<Op>, mem: Memory, s: State, t: State, n: nat)
    requires Step(code, mem, s) == Running(t)
    ensures Run(code, mem, s, n + 1) == Run(code, mem, t, n)
  {}

  /** The run from `s` executes exactly `k` instructions; the last is an exit, in state `fin`. */
  ghost predicate HaltsIn(code: seq<Op>, mem: Memory, s: State, k: nat, fin: State) {
    k > 0 && Run(code, mem, s, k - 1) == Running(fin) && Step(code, mem, fin) == Exited(fin)
  }

  /** Halting is deterministic: after `k` steps, and after any larger number, the outcome is that exit. */
  lemma {:induction false} HaltIsFinal(code: seq<Op>, mem: Memory, s: State, k: nat, fin: State, n: nat)
    requires HaltsIn(code, mem, s, k, fin)
    ensures if n < k then Run(code, mem, s, n).Running? else Run(code, mem, s, n) == Exited(fin)
    decreases k
  {
    if k > 1 && n > 0 {
      var t := Step(code, mem, s).s;
      HaltIsFinal(code, mem, t, k - 1, fin, n - 1);
    }
  }

  /** Steps in front of a halting run. */
  lemma HaltsAfter(code: seq<Op>, mem: Memory, s: State, a: nat, t: State, k: nat, fin: State)
    requires Run(code, mem, s, a) == Running(t)
    requires HaltsIn(code, mem, t, k, fin)
    ensures HaltsIn(code, mem, s, a + k, fin)
  {
    RunCompose(code, mem, s, a, t, k - 1);
  }

  /** Started at its first instruction with registers `r`, the program halts with `v` in R0. */
  ghost predicate Answers(program: seq<BpfInsn>, mem: Memory, r: Registers, v: Word) {
    exists k: nat, fin: State :: HaltsIn(Load(program), mem, State(0, r, false), k, fin) && fin.r[0] == v
  }

  lemma AnswerIsUnique(program: seq<BpfInsn>, mem: Memory, r: Registers, v: Word, w: Word)
    requires Answers(program, mem, r, v) && Answers(program, mem, r, w)
    ensures v == w
  {
    hide Step;
    hide Decode;
    var code, s := Load(program), State(0, r, false);
    var k: nat, fin :| HaltsIn(code, mem, s, k, fin) && fin.r[0] == v;
    var k': nat, fin' :| HaltsIn(code, mem, s, k', fin') && fin'.r[0] == w;
    HaltIsFinal(code, mem, s, k, fin, k + k');
    HaltIsFinal(code, mem, s, k', fin', k + k');
  }
}
