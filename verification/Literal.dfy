/** The literal-search compiler (src/compiler/codegen.rs, `compile_literal_search`). */
module Literal {
  import opened Assembler
  import opened Machine
  import opened Limits
  import opened Emit

  // ----- what the program is for -----

  /** The packet bytes in [data, end). */
  ghost function Buffer(mem: Memory, data: Word, end: Word): (buf: seq<byte>)
    requires forall a :: data <= a < end ==> a in mem
  {
    if data >= end then [] else seq(end - data, i requires 0 <= i < end - data => mem[data + i])
  }

  ghost predicate OccursAt(pattern: seq<byte>, buf: seq<byte>, i: nat) {
    i + |pattern| <= |buf| && forall j :: 0 <= j < |pattern| ==> buf[i + j] == pattern[j]
  }

  ghost predicate Occurs(pattern: seq<byte>, buf: seq<byte>) {
    exists i: nat :: OccursAt(pattern, buf, i)
  }

  ghost predicate LeftmostAt(pattern: seq<byte>, buf: seq<byte>, i: nat) {
    OccursAt(pattern, buf, i) && forall j: nat :: j < i ==> !OccursAt(pattern, buf, j)
  }

  /** R1 points to a context whose two words delimit the packet. Nothing else need be readable. */
  ghost predicate PacketInput(mem: Memory, r: Registers) {
    && WordReadable(mem, Address(r[1], 0))
    && WordReadable(mem, Address(r[1], 4))
    && forall a :: ReadWord(mem, Address(r[1], 0)) <= a < ReadWord(mem, Address(r[1], 4)) ==> a in mem
  }

  ghost function Packet(mem: Memory, r: Registers): seq<byte>
    requires PacketInput(mem, r)
  {
    Buffer(mem, ReadWord(mem, Address(r[1], 0)), ReadWord(mem, Address(r[1], 4)))
  }

  /** The number of instructions a search over m bytes for n pattern bytes may execute. */
  ghost predicate WithinBudget(m: nat, n: nat, k: nat) {
    if n == 0 then k == 4
    else if m < n then k == 10
    else k <= 10 + (m - n + 1) * (2 * n + 7)
  }

  /** What one run of a search program must have done when it exits in state `fin`. */
  ghost predicate SearchOutcome(pattern: seq<byte>, buf: seq<byte>, fin: State) {
    && fin.r[0] == (if Occurs(pattern, buf) then 1 else 0)
    && (pattern != [] && Occurs(pattern, buf) ==> LeftmostAt(pattern, buf, fin.r[4]))
    && !fin.wrapped
  }

  /**
   * On every packet the program exits, within its budget of instructions, with
   * the answer in R0. A load outside the context words and [data, data_end)
   * would fault, because PacketInput promises nothing else to be readable.
   */
  ghost predicate SearchesFor(program: seq<BpfInsn>, pattern: seq<byte>) {
    forall mem: Memory, r: Registers :: PacketInput(mem, r) ==>
      exists k: nat, fin: State ::
        && HaltsIn(Load(program), mem, State(0, r, false), k, fin)
        && WithinBudget(|Packet(mem, r)|, |pattern|, k)
        && SearchOutcome(pattern, Packet(mem, r), fin)
  }

  // ----- the program in closed form -----

  /** Instruction `j` of the search for a non-empty pattern, all jumps resolved. */
  function LiteralInsn(p: seq<byte>, j: nat): BpfInsn
    requires 0 < |p| <= MAX_BPF_PATTERN_LEN && j < 14 + 2 * |p|
  {
    var n := |p|;
    if j == 0 then LdxMem(BPF_W, R2, R1, 0)
    else if j == 1 then LdxMem(BPF_W, R3, R1, 4)
    else if j == 2 then Alu64Imm(BPF_MOV, R4, 0)
    else if j == 3 then Alu64Reg(BPF_MOV, R5, R2)
    else if j == 4 then Alu64Reg(BPF_ADD, R5, R4)
    else if j == 5 then Alu64Reg(BPF_MOV, R6, R5)
    else if j == 6 then Alu64Imm(BPF_ADD, R6, n)
    else if j == 7 then JmpReg(BPF_JGT, R6, R3, 4 + 2 * n)
    else if j < 8 + 2 * n then
      var i := (j - 8) / 2;
      if j % 2 == 0 then LdxMem(BPF_B, R7, R5, i) else JmpImm(BPF_JNE, R7, p[i], 2 * n - 2 * i)
    else if j == 8 + 2 * n then Alu64Imm(BPF_MOV, R0, 1)
    else if j == 9 + 2 * n then ExitInsn()
    else if j == 10 + 2 * n then Alu64Imm(BPF_ADD, R4, 1)
    else if j == 11 + 2 * n then JmpImm(BPF_JA, R0, 0, -9 - 2 * n)
    else if j == 12 + 2 * n then Alu64Imm(BPF_MOV, R0, 0)
    else ExitInsn()
  }

  function LiteralProgram(p: seq<byte>): (program: seq<BpfInsn>)
    requires |p| <= MAX_BPF_PATTERN_LEN
    ensures |program| == LiteralSearchInstructionCount(|p|)
  {
    if p == [] then
      [LdxMem(BPF_W, R2, R1, 0), LdxMem(BPF_W, R3, R1, 4), Alu64Imm(BPF_MOV, R0, 1), ExitInsn()]
    else
      seq(14 + 2 * |p|, j requires 0 <= j < 14 + 2 * |p| => LiteralInsn(p, j))
  }

  // ----- its decoded form -----

  ghost predicate Layout(code: seq<Op>, p: seq<byte>) {
    var n := |p|;
    && 0 < n <= MAX_BPF_PATTERN_LEN
    && |code| == 14 + 2 * n
    && code[0] == LoadWord(2, 1, 0) && code[1] == LoadWord(3, 1, 4) && code[2] == MovImm(4, 0)
    && code[3] == MovReg(5, 2) && code[4] == AddReg(5, 4) && code[5] == MovReg(6, 5)
    && code[6] == AddImm(6, n) && code[7] == JgtReg(6, 3, 4 + 2 * n)
    && (forall i :: 0 <= i < n ==>
          code[8 + 2 * i] == LoadByte(7, 5, i) && code[9 + 2 * i] == JneImm(7, p[i], 2 * n - 2 * i))
    && code[8 + 2 * n] == MovImm(0, 1) && code[9 + 2 * n] == Exit
    && code[10 + 2 * n] == AddImm(4, 1) && code[11 + 2 * n] == Goto(-9 - 2 * n)
    && code[12 + 2 * n] == MovImm(0, 0) && code[13 + 2 * n] == Exit
  }

  lemma LiteralByte(p: seq<byte>, i: nat)
    requires 0 < |p| <= MAX_BPF_PATTERN_LEN && i < |p|
    ensures Decode(LiteralInsn(p, 8 + 2 * i)) == LoadByte(7, 5, i)
    ensures Decode(LiteralInsn(p, 9 + 2 * i)) == JneImm(7, p[i], 2 * |p| - 2 * i)
  {}

  lemma LiteralHead(p: seq<byte>)
    requires 0 < |p| <= MAX_BPF_PATTERN_LEN
    ensures
      var code := Load(LiteralProgram(p));
      && code[0] == LoadWord(2, 1, 0) && code[1] == LoadWord(3, 1, 4) && code[2] == MovImm(4, 0)
      && code[3] == MovReg(5, 2) && code[4] == AddReg(5, 4) && code[5] == MovReg(6, 5)
      && code[6] == AddImm(6, |p|) && code[7] == JgtReg(6, 3, 4 + 2 * |p|)
  {}

  lemma LiteralTailInsns(p: seq<byte>)
    requires 0 < |p| <= MAX_BPF_PATTERN_LEN
    ensures
      var n := |p|;
      && Decode(LiteralInsn(p, 8 + 2 * n)) == MovImm(0, 1) && Decode(LiteralInsn(p, 9 + 2 * n)) == Exit
      && Decode(LiteralInsn(p, 10 + 2 * n)) == AddImm(4, 1) && Decode(LiteralInsn(p, 11 + 2 * n)) == Goto(-9 - 2 * n)
      && Decode(LiteralInsn(p, 12 + 2 * n)) == MovImm(0, 0) && Decode(LiteralInsn(p, 13 + 2 * n)) == Exit
  {}

  lemma LiteralTail(p: seq<byte>)
    requires 0 < |p| <= MAX_BPF_PATTERN_LEN
    ensures
      var n, code := |p|, Load(LiteralProgram(p));
      && code[8 + 2 * n] == MovImm(0, 1) && code[9 + 2 * n] == Exit
      && code[10 + 2 * n] == AddImm(4, 1) && code[11 + 2 * n] == Goto(-9 - 2 * n)
      && code[12 + 2 * n] == MovImm(0, 0) && code[13 + 2 * n] == Exit
  {
    hide Decode;
    hide LiteralInsn;
    LiteralTailInsns(p);
  }

  lemma LiteralLayout(p: seq<byte>)
    requires 0 < |p| <= MAX_BPF_PATTERN_LEN
    ensures Layout(Load(LiteralProgram(p)), p)
  {
    hide Decode;
    hide LiteralInsn;
    var code := Load(LiteralProgram(p));
    LiteralHead(p);
    LiteralTail(p);
    forall i | 0 <= i < |p|
      ensures code[8 + 2 * i] == LoadByte(7, 5, i) && code[9 + 2 * i] == JneImm(7, p[i], 2 * |p| - 2 * i)
    {
      LiteralByte(p, i);
    }
  }

  // ----- running it -----

  lemma Prologue(code: seq<Op>, p: seq<byte>, mem: Memory, r: Registers)
    requires Layout(code, p) && PacketInput(mem, r)
    ensures
      var data, end := ReadWord(mem, Address(r[1], 0)), ReadWord(mem, Address(r[1], 4));
      Run(code, mem, State(0, r, false), 3) == Running(State(3, r[2 := data][3 := end][4 := 0], false))
  {}

  /** R5 and R6 delimit the n bytes at candidate position R4; neither addition wraps. */
  lemma Delimit(code: seq<Op>, p: seq<byte>, mem: Memory, s: State)
    requires Layout(code, p)
    requires s.pc == 3 && s.r[2] < 0x1_0000_0000 && s.r[4] <= 0x1_0000_0000
    ensures
      var a := s.r[2] + s.r[4];
      Run(code, mem, s, 4) == Running(State(7, s.r[5 := a][6 := a + |p|], s.wrapped))
  {
    var a := s.r[2] + s.r[4];
    var s1 := State(4, s.r[5 := s.r[2]], s.wrapped);
    var s2 := State(5, s.r[5 := a], s.wrapped);
    var s3 := State(6, s.r[5 := a][6 := a], s.wrapped);
    assert Step(code, mem, s1) == Running(s2) by {
      assert s1.r[5 := a] == s2.r;
    }
    assert Run(code, mem, s, 4) == Run(code, mem, s2, 2);
    assert s3.r[6 := a + |p|] == s.r[5 := a][6 := a + |p|];
  }

  /** The bounds jump guards all n bytes at once. */
  lemma Candidate(code: seq<Op>, p: seq<byte>, mem: Memory, s: State)
    requires Layout(code, p)
    requires s.pc == 3 && s.r[2] < 0x1_0000_0000 && s.r[4] <= 0x1_0000_0000
    ensures
      var a := s.r[2] + s.r[4];
      var pc := if a + |p| > s.r[3] then 12 + 2 * |p| else 8;
      Run(code, mem, s, 5) == Running(State(pc, s.r[5 := a][6 := a + |p|], s.wrapped))
  {
    Delimit(code, p, mem, s);
    var a := s.r[2] + s.r[4];
    var t := State(7, s.r[5 := a][6 := a + |p|], s.wrapped);
    RunCompose(code, mem, s, 4, t, 1);
  }

  ghost predicate MatchesFrom(mem: Memory, a: int, p: seq<byte>, j: nat) {
    forall i :: j <= i < |p| ==> a + i in mem && mem[a + i] == p[i]
  }

  /** One load and one comparison of the unrolled body. */
  lemma CompareByte(code: seq<Op>, p: seq<byte>, mem: Memory, s: State, j: nat)
    requires Layout(code, p) && j < |p|
    requires s.pc == 8 + 2 * j && s.r[5] + |p| < WORD && s.r[5] + j in mem
    ensures
      var b := mem[s.r[5] + j];
      var pc := if b == p[j] then 8 + 2 * (j + 1) else 10 + 2 * |p|;
      Run(code, mem, s, 2) == Running(State(pc, s.r[7 := b], s.wrapped))
  {}

  /** The unrolled comparison from byte j on: only R7 changes, and the exit taken tells the result. */
  lemma {:induction false} Compare(code: seq<Op>, p: seq<byte>, mem: Memory, s: State, j: nat)
    returns (k: nat, t: State)
    requires Layout(code, p) && j <= |p|
    requires s.pc == 8 + 2 * j && s.r[5] + |p| < WORD
    requires forall a :: s.r[5] <= a < s.r[5] + |p| ==> a in mem
    ensures Run(code, mem, s, k) == Running(t)
    ensures t.r == s.r[7 := t.r[7]] && t.wrapped == s.wrapped
    ensures t.pc == if MatchesFrom(mem, s.r[5], p, j) then 8 + 2 * |p| else 10 + 2 * |p|
    ensures k <= 2 * (|p| - j)
    decreases |p| - j
  {
    hide Machine.Step;
    if j == |p| {
      k, t := 0, s;
      return;
    }
    CompareByte(code, p, mem, s, j);
    var s2 := Run(code, mem, s, 2).s;
    if s2.pc == 10 + 2 * |p| {
      assert mem[s.r[5] + j] != p[j];
      k, t := 2, s2;
    } else {
      k, t := Compare(code, p, mem, s2, j + 1);
      RunCompose(code, mem, s, 2, s2, k);
      k := k + 2;
    }
  }

  /** A match: set R0 to 1 and exit. */
  lemma Found(code: seq<Op>, p: seq<byte>, mem: Memory, s: State)
    requires Layout(code, p) && s.pc == 8 + 2 * |p|
    ensures HaltsIn(code, mem, s, 2, State(s.pc + 1, s.r[0 := 1], s.wrapped))
  {}

  /** The bounds jump was taken: set R0 to 0 and exit. */
  lemma NotFound(code: seq<Op>, p: seq<byte>, mem: Memory, s: State)
    requires Layout(code, p) && s.pc == 12 + 2 * |p|
    ensures HaltsIn(code, mem, s, 2, State(s.pc + 1, s.r[0 := 0], s.wrapped))
  {}

  /** The backward jump, with R4 advanced to the next candidate. */
  lemma NextCandidate(code: seq<Op>, p: seq<byte>, mem: Memory, s: State)
    requires Layout(code, p) && s.pc == 10 + 2 * |p| && s.r[4] < 0x1_0000_0000
    ensures Run(code, mem, s, 2) == Running(State(3, s.r[4 := s.r[4] + 1], s.wrapped))
  {}

  /** A state at the loop head over the packet in [data, end). */
  ghost predicate LoopHead(mem: Memory, s: State, data: Word, end: Word) {
    && s.pc == 3 && s.r[2] == data && s.r[3] == end
    && data < 0x1_0000_0000 && end < 0x1_0000_0000 && s.r[4] <= 0x1_0000_0000
    && forall a :: data <= a < end ==> a in mem
  }

  lemma MatchIsOccurrence(mem: Memory, data: Word, end: Word, p: seq<byte>, i: nat)
    requires forall a :: data <= a < end ==> a in mem
    requires data + i + |p| <= end
    ensures MatchesFrom(mem, data + i, p, 0) <==> OccursAt(p, Buffer(mem, data, end), i)
  {}

  /** One whole candidate: the bounds check, the comparison, and the way back to the loop head. */
  lemma Iteration(code: seq<Op>, p: seq<byte>, mem: Memory, s: State, data: Word, end: Word)
    returns (k: nat, t: State)
    requires Layout(code, p) && LoopHead(mem, s, data, end)
    requires data + s.r[4] + |p| <= end
    ensures k <= 2 * |p| + 7
    ensures t.wrapped == s.wrapped
    ensures if MatchesFrom(mem, data + s.r[4], p, 0)
            then HaltsIn(code, mem, s, k, t) && t.r[0] == 1 && t.r[4] == s.r[4]
            else Run(code, mem, s, k) == Running(t) && LoopHead(mem, t, data, end) && t.r[4] == s.r[4] + 1
  {
    hide Machine.Step;
    Candidate(code, p, mem, s);
    var s5 := Run(code, mem, s, 5).s;
    var kc, c := Compare(code, p, mem, s5, 0);
    RunCompose(code, mem, s, 5, s5, kc);
    if MatchesFrom(mem, data + s.r[4], p, 0) {
      Found(code, p, mem, c);
      k, t := 5 + kc + 2, State(c.pc + 1, c.r[0 := 1], c.wrapped);
      HaltsAfter(code, mem, s, 5 + kc, c, 2, t);
    } else {
      NextCandidate(code, p, mem, c);
      k, t := 5 + kc + 2, State(3, c.r[4 := c.r[4] + 1], c.wrapped);
      RunCompose(code, mem, s, 5 + kc, c, 2);
    }
  }

  lemma LastCandidate(code: seq<Op>, p: seq<byte>, mem: Memory, s: State, data: Word, end: Word)
    returns (fin: State)
    requires Layout(code, p) && LoopHead(mem, s, data, end)
    requires data + s.r[4] + |p| > end
    ensures HaltsIn(code, mem, s, 7, fin) && fin.r[0] == 0 && fin.wrapped == s.wrapped
  {
    hide Machine.Step;
    Candidate(code, p, mem, s);
    var c := Run(code, mem, s, 5).s;
    NotFound(code, p, mem, c);
    fin := State(c.pc + 1, c.r[0 := 0], c.wrapped);
    HaltsAfter(code, mem, s, 5, c, 2, fin);
  }

  /** Candidates that fit from `i` on: the termination measure of the emitted loop. */
  ghost function Remaining(m: nat, i: nat, n: nat): nat {
    if i + n <= m then m - n - i + 1 else 0
  }

  ghost function Budget(candidates: nat, n: nat): nat {
    if candidates == 0 then 7 else (2 * n + 7) + Budget(candidates - 1, n)
  }

  /** The search from candidate `i` on ended in `fin`. */
  ghost predicate SearchedFrom(p: seq<byte>, buf: seq<byte>, i: nat, fin: State) {
    if fin.r[0] == 1
    then i <= fin.r[4] && OccursAt(p, buf, fin.r[4]) && forall j: nat :: i <= j < fin.r[4] ==> !OccursAt(p, buf, j)
    else fin.r[0] == 0 && forall j: nat :: i <= j ==> !OccursAt(p, buf, j)
  }

  /** From loop-head state `s` the program halts in `fin` after `k` steps, having searched on from R4. */
  ghost predicate LoopRun(code: seq<Op>, mem: Memory, s: State, p: seq<byte>, buf: seq<byte>, k: nat, fin: State) {
    && HaltsIn(code, mem, s, k, fin) && fin.wrapped == s.wrapped
    && (Remaining(|buf|, s.r[4], |p|) == 0 ==> k == 7)
    && k <= Budget(Remaining(|buf|, s.r[4], |p|), |p|)
    && SearchedFrom(p, buf, s.r[4], fin)
  }

  /** A failed candidate in front of a loop run from the next candidate. */
  lemma LoopExtends(code: seq<Op>, mem: Memory, s: State, p: seq<byte>, buf: seq<byte>,
                    k1: nat, t: State, k2: nat, fin: State)
    requires Run(code, mem, s, k1) == Running(t) && k1 <= 2 * |p| + 7
    requires s.r[4] <= 0x1_0000_0000 && t.r[4] == s.r[4] + 1 && t.wrapped == s.wrapped
    requires s.r[4] + |p| <= |buf| && !OccursAt(p, buf, s.r[4])
    requires LoopRun(code, mem, t, p, buf, k2, fin)
    ensures LoopRun(code, mem, s, p, buf, k1 + k2, fin)
  {
    hide HaltsIn;
    hide Run;
    HaltsAfter(code, mem, s, k1, t, k2, fin);
  }

  /** The emitted loop halts at the first candidate from R4 on that matches, or with R0 = 0 if none does. */
  lemma {:induction false} Loop(code: seq<Op>, p: seq<byte>, mem: Memory, s: State, data: Word, end: Word, buf: seq<byte>)
    returns (k: nat, fin: State)
    requires Layout(code, p) && LoopHead(mem, s, data, end)
    requires buf == Buffer(mem, data, end)
    ensures LoopRun(code, mem, s, p, buf, k, fin)
    decreases Remaining(|buf|, s.r[4], |p|)
  {
    hide Machine.Step;
    if data + s.r[4] + |p| > end {
      k := 7;
      fin := LastCandidate(code, p, mem, s, data, end);
    } else {
      var t;
      k, t := Iteration(code, p, mem, s, data, end);
      MatchIsOccurrence(mem, data, end, p, s.r[4]);
      if OccursAt(p, buf, s.r[4]) {
        fin := t;
      } else {
        var k2;
        k2, fin := Loop(code, p, mem, t, data, end, buf);
        LoopExtends(code, mem, s, p, buf, k, t, k2, fin);
        k := k + k2;
      }
    }
  }

  lemma {:induction false} BudgetClosed(candidates: nat, n: nat)
    ensures Budget(candidates, n) == candidates * (2 * n + 7) + 7
  {
    if candidates > 0 {
      BudgetClosed(candidates - 1, n);
    }
  }

  lemma BudgetKept(m: nat, n: nat, k: nat)
    requires n > 0
    requires Remaining(m, 0, n) == 0 ==> k == 7
    requires k <= Budget(Remaining(m, 0, n), n)
    ensures WithinBudget(m, n, k + 3)
  {
    BudgetClosed(Remaining(m, 0, n), n);
  }

  // ----- correctness -----

  lemma LiteralRun(p: seq<byte>, mem: Memory, r: Registers) returns (k: nat, fin: State)
    requires 0 < |p| <= MAX_BPF_PATTERN_LEN
    requires PacketInput(mem, r)
    ensures HaltsIn(Load(LiteralProgram(p)), mem, State(0, r, false), k, fin)
    ensures WithinBudget(|Packet(mem, r)|, |p|, k)
    ensures SearchOutcome(p, Packet(mem, r), fin)
  {
    hide Machine.Step;
    hide Machine.Decode;
    hide LiteralInsn;
    var code := Load(LiteralProgram(p));
    LiteralLayout(p);
    Prologue(code, p, mem, r);
    var data, end := ReadWord(mem, Address(r[1], 0)), ReadWord(mem, Address(r[1], 4));
    var s := State(3, r[2 := data][3 := end][4 := 0], false);
    k, fin := Loop(code, p, mem, s, data, end, Packet(mem, r));
    HaltsAfter(code, mem, State(0, r, false), 3, s, k, fin);
    BudgetKept(|Packet(mem, r)|, |p|, k);
    k := k + 3;
  }

  lemma EmptyPatternRun(mem: Memory, r: Registers) returns (fin: State)
    requires PacketInput(mem, r)
    ensures HaltsIn(Load(LiteralProgram([])), mem, State(0, r, false), 4, fin)
    ensures SearchOutcome([], Packet(mem, r), fin)
  {
    var code := Load(LiteralProgram([]));
    assert code[0] == LoadWord(2, 1, 0) && code[1] == LoadWord(3, 1, 4) && code[2] == MovImm(0, 1) && code[3] == Exit;
    var data, end := ReadWord(mem, Address(r[1], 0)), ReadWord(mem, Address(r[1], 4));
    var s0 := State(0, r, false);
    var s1 := State(1, r[2 := data], false);
    var s2 := State(2, r[2 := data][3 := end], false);
    fin := State(3, r[2 := data][3 := end][0 := 1], false);
    RunStep(code, mem, s0, s1, 2);
    RunStep(code, mem, s1, s2, 1);
    RunStep(code, mem, s2, fin, 0);
    assert OccursAt([], Packet(mem, r), 0);
  }

  /** The closed-form program searches for its pattern, for every pattern the compiler accepts. */
  lemma LiteralProgramSearches(p: seq<byte>)
    requires |p| <= MAX_BPF_PATTERN_LEN
    ensures SearchesFor(LiteralProgram(p), p)
  {
    forall mem: Memory, r: Registers | PacketInput(mem, r)
      ensures exists k: nat, fin: State ::
        && HaltsIn(Load(LiteralProgram(p)), mem, State(0, r, false), k, fin)
        && WithinBudget(|Packet(mem, r)|, |p|, k)
        && SearchOutcome(p, Packet(mem, r), fin)
    {
      if p == [] {
        var fin := EmptyPatternRun(mem, r);
        assert WithinBudget(|Packet(mem, r)|, |p|, 4);
      } else {
        var k, fin := LiteralRun(p, mem, r);
      }
    }
  }

  // ----- the compiler -----

  /** What the emission phase has put at index `j`: placeholders where jumps forward will go. */
  ghost function EmittedInsn(p: seq<byte>, j: nat): BpfInsn
    requires 0 < |p| <= MAX_BPF_PATTERN_LEN && j < 14 + 2 * |p|
  {
    if j == 7 || (8 <= j < 8 + 2 * |p| && j % 2 == 1) then ExitInsn() else LiteralInsn(p, j)
  }

  /** The unrolled comparisons, each jump still a placeholder whose index is noted. */
  method EmitComparisons(pattern: seq<byte>, head: seq<BpfInsn>) returns (prog: seq<BpfInsn>, mismatches: seq<nat>)
    requires 0 < |pattern| <= MAX_BPF_PATTERN_LEN && |head| == 8
    requires forall j :: 0 <= j < 8 ==> head[j] == EmittedInsn(pattern, j)
    ensures |prog| == 8 + 2 * |pattern| && |mismatches| == |pattern|
    ensures forall j :: 0 <= j < |prog| ==> prog[j] == EmittedInsn(pattern, j)
    ensures forall k :: 0 <= k < |pattern| ==> mismatches[k] == 9 + 2 * k
  {
    hide Assembler.New;
    prog, mismatches := head, [];
    for i := 0 to |pattern|
      invariant |prog| == 8 + 2 * i && |mismatches| == i
      invariant forall j :: 0 <= j < |prog| ==> prog[j] == EmittedInsn(pattern, j)
      invariant forall k :: 0 <= k < i ==> mismatches[k] == 9 + 2 * k
    {
      prog := prog + [LdxMem(BPF_B, R7, R5, AsI16(i))];
      var jump := |prog|;
      prog := prog + [ExitInsn()];
      mismatches := mismatches + [jump];
    }
  }

  /** The second half of the backpatch phase. */
  method PatchComparisons(pattern: seq<byte>, emitted: seq<BpfInsn>, mismatches: seq<nat>, nextIter: nat)
    returns (prog: seq<BpfInsn>)
    requires 0 < |pattern| <= MAX_BPF_PATTERN_LEN && |mismatches| == |pattern| && nextIter == 10 + 2 * |pattern|
    requires forall k :: 0 <= k < |pattern| ==> mismatches[k] == 9 + 2 * k
    requires |emitted| == 14 + 2 * |pattern|
    requires forall j :: 0 <= j < |emitted| ==>
      emitted[j] == if j == 7 then LiteralInsn(pattern, j) else EmittedInsn(pattern, j)
    ensures prog == LiteralProgram(pattern)
  {
    hide Assembler.New;
    prog := emitted;
    for i := 0 to |mismatches|
      invariant |prog| == 14 + 2 * |pattern|
      invariant forall j :: 0 <= j < |prog| ==>
        prog[j] == if j == 7 || j < 8 + 2 * i then LiteralInsn(pattern, j) else EmittedInsn(pattern, j)
    {
      var jump := mismatches[i];
      prog := prog[jump := JmpImm(BPF_JNE, R7, pattern[i], AsI16(nextIter - jump - 1))];
    }
  }

  method CompileLiteralSearch(pattern: seq<byte>) returns (r: Result<seq<BpfInsn>>)
    ensures r.Ok? <==> |pattern| <= 1024
    ensures r.Err? ==> r.error == if |pattern| > 2041 then PatternTooLong(14 + 2 * |pattern|, 4096)
                                  else PatternTooLong(|pattern|, 1024)
    ensures r.Ok? ==> |r.value| == if pattern == [] then 4 else 14 + 2 * |pattern|
    ensures r.Ok? ==> r.value == LiteralProgram(pattern)
    ensures r.Ok? ==> SearchesFor(r.value, pattern)
  {
    hide SearchesFor;
    hide Assembler.New;
    var limit := CompileWithLimit(LiteralSearchInstructionCount(|pattern|));
    if limit.Err? {
      return Err(limit.error);
    }
    if |pattern| > MAX_BPF_PATTERN_LEN {
      return Err(PatternTooLong(|pattern|, MAX_BPF_PATTERN_LEN));
    }
    LiteralProgramSearches(pattern);
    var prog := [LdxMem(BPF_W, R2, R1, 0), LdxMem(BPF_W, R3, R1, 4)];
    if pattern == [] {
      prog := prog + [Alu64Imm(BPF_MOV, R0, 1)];
      prog := prog + [ExitInsn()];
      return Ok(prog);
    }
    prog := prog + [Alu64Imm(BPF_MOV, R4, 0)];
    var loopStart := |prog|;
    prog := prog + [Alu64Reg(BPF_MOV, R5, R2)];
    prog := prog + [Alu64Reg(BPF_ADD, R5, R4)];
    prog := prog + [Alu64Reg(BPF_MOV, R6, R5)];
    prog := prog + [Alu64Imm(BPF_ADD, R6, |pattern|)];
    var boundsCheck := |prog|;
    prog := prog + [ExitInsn()];

    var mismatches;
    prog, mismatches := EmitComparisons(pattern, prog);

    prog := prog + [Alu64Imm(BPF_MOV, R0, 1)];
    prog := prog + [ExitInsn()];
    var nextIter := |prog|;
    prog := prog + [Alu64Imm(BPF_ADD, R4, 1)];
    var back := AsI16(loopStart - |prog| - 1);
    prog := prog + [JmpImm(BPF_JA, R0, 0, back)];
    var loopFail := |prog|;
    prog := prog + [Alu64Imm(BPF_MOV, R0, 0)];
    prog := prog + [ExitInsn()];

    prog := prog[boundsCheck := JmpReg(BPF_JGT, R6, R3, AsI16(loopFail - boundsCheck - 1))];
    prog := PatchComparisons(pattern, prog, mismatches, nextIter);
    return Ok(prog);
  }
}
