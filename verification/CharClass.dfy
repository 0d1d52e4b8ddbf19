/** The range-based character-class compiler (src/compiler/codegen.rs, `compile_char_class`). */
module CharClass {
  import opened Assembler
  import opened Machine
  import opened Limits
  import opened Emit

  datatype CharRange = CharRange(lo: byte, hi: byte)

  // ----- what the program is for -----

  ghost predicate InRanges(ranges: seq<CharRange>, v: int) {
    exists k :: 0 <= k < |ranges| && ranges[k].lo <= v <= ranges[k].hi
  }

  /** Whatever the 64-bit value of R7, and reading no memory, the program halts within its own length with R0 = v in ranges. */
  ghost predicate Classifies(program: seq<BpfInsn>, ranges: seq<CharRange>) {
    forall mem: Memory, r: Registers :: ClassRun(program, ranges, mem, r)
  }

  ghost predicate ClassRun(program: seq<BpfInsn>, ranges: seq<CharRange>, mem: Memory, r: Registers) {
    exists n: nat, fin: State ::
      && HaltsIn(Load(program), mem, State(0, r, false), n, fin)
      && n <= |program|
      && fin.r[0] == (if InRanges(ranges, r[7]) then 1 else 0)
  }

  // ----- the program in closed form -----

  /** Instruction `j` once the match jumps of the first `m` ranges are patched. */
  function ClassInsn(ranges: seq<CharRange>, j: nat, m: nat): BpfInsn
    requires 4 + 2 * |ranges| <= MAX_BPF_INSTRUCTION_LEN && j < 4 + 2 * |ranges|
  {
    var n, k := |ranges|, j / 2;
    if j < 2 * n then
      if j % 2 == 0 then JmpImm(BPF_JLT, R7, ranges[k].lo, 1)
      else JmpImm(BPF_JLE, R7, ranges[k].hi, if k < m then 2 * n - 2 * k else 0)
    else if j == 2 * n then Alu64Imm(BPF_MOV, R0, 0)
    else if j == 2 * n + 2 then Alu64Imm(BPF_MOV, R0, 1)
    else ExitInsn()
  }

  function ClassProgram(ranges: seq<CharRange>): (program: seq<BpfInsn>)
    requires 4 + 2 * |ranges| <= MAX_BPF_INSTRUCTION_LEN
    ensures |program| == 4 + 2 * |ranges|
  {
    seq(4 + 2 * |ranges|, j requires 0 <= j < 4 + 2 * |ranges| => ClassInsn(ranges, j, |ranges|))
  }

  // ----- its decoded form -----

  ghost predicate Layout(code: seq<Op>, ranges: seq<CharRange>) {
    var n := |ranges|;
    && 4 + 2 * n <= MAX_BPF_INSTRUCTION_LEN
    && |code| == 4 + 2 * n
    && (forall k :: 0 <= k < n ==>
          code[2 * k] == JltImm(7, ranges[k].lo, 1) && code[2 * k + 1] == JleImm(7, ranges[k].hi, 2 * n - 2 * k))
    && code[2 * n] == MovImm(0, 0) && code[2 * n + 1] == Exit
    && code[2 * n + 2] == MovImm(0, 1) && code[2 * n + 3] == Exit
  }

  lemma DecodedRange(ranges: seq<CharRange>, k: nat)
    requires 4 + 2 * |ranges| <= MAX_BPF_INSTRUCTION_LEN && k < |ranges|
    ensures Decode(ClassInsn(ranges, 2 * k, |ranges|)) == JltImm(7, ranges[k].lo, 1)
    ensures Decode(ClassInsn(ranges, 2 * k + 1, |ranges|)) == JleImm(7, ranges[k].hi, 2 * |ranges| - 2 * k)
  {}

  lemma DecodedExits(ranges: seq<CharRange>)
    requires 4 + 2 * |ranges| <= MAX_BPF_INSTRUCTION_LEN
    ensures Decode(ClassInsn(ranges, 2 * |ranges|, |ranges|)) == MovImm(0, 0)
    ensures Decode(ClassInsn(ranges, 2 * |ranges| + 1, |ranges|)) == Exit
    ensures Decode(ClassInsn(ranges, 2 * |ranges| + 2, |ranges|)) == MovImm(0, 1)
    ensures Decode(ClassInsn(ranges, 2 * |ranges| + 3, |ranges|)) == Exit
  {}

  lemma ClassLayout(ranges: seq<CharRange>)
    requires 4 + 2 * |ranges| <= MAX_BPF_INSTRUCTION_LEN
    ensures Layout(Load(ClassProgram(ranges)), ranges)
  {
    hide Machine.Decode;
    hide ClassInsn;
    DecodedExits(ranges);
    var n, code := |ranges|, Load(ClassProgram(ranges));
    forall k | 0 <= k < n
      ensures code[2 * k] == JltImm(7, ranges[k].lo, 1) && code[2 * k + 1] == JleImm(7, ranges[k].hi, 2 * n - 2 * k)
    {
      DecodedRange(ranges, k);
    }
  }

  // ----- running it -----

  /** One range test: to the match exit if R7 is in the range, on to the next range otherwise. */
  lemma OneRange(code: seq<Op>, ranges: seq<CharRange>, mem: Memory, s: State, k: nat) returns (n: nat, t: State)
    requires Layout(code, ranges) && k < |ranges| && s.pc == 2 * k
    ensures Run(code, mem, s, n) == Running(t) && n <= 2
    ensures t == State(if ranges[k].lo <= s.r[7] <= ranges[k].hi then 2 * |ranges| + 2 else 2 * k + 2, s.r, s.wrapped)
  {
    var range := ranges[k];
    if s.r[7] < range.lo {
      n, t := 1, State(2 * k + 2, s.r, s.wrapped);
    } else {
      n := 2;
      t := State(if s.r[7] <= range.hi then 2 * |ranges| + 2 else 2 * k + 2, s.r, s.wrapped);
      RunStep(code, mem, s, State(2 * k + 1, s.r, s.wrapped), 1);
    }
  }

  lemma Leave(code: seq<Op>, ranges: seq<CharRange>, mem: Memory, s: State)
    requires Layout(code, ranges) && (s.pc == 2 * |ranges| || s.pc == 2 * |ranges| + 2)
    ensures HaltsIn(code, mem, s, 2, State(s.pc + 1, s.r[0 := if s.pc == 2 * |ranges| then 0 else 1], s.wrapped))
  {}

  ghost predicate InRangesFrom(ranges: seq<CharRange>, v: int, k: nat) {
    exists j :: k <= j < |ranges| && ranges[j].lo <= v <= ranges[j].hi
  }

  lemma {:induction false} RangesRun(code: seq<Op>, ranges: seq<CharRange>, mem: Memory, s: State, k: nat)
    returns (n: nat, fin: State)
    requires Layout(code, ranges) && k <= |ranges| && s.pc == 2 * k
    ensures HaltsIn(code, mem, s, n, fin) && n <= 2 * (|ranges| - k) + 2
    ensures fin.r[0] == if InRangesFrom(ranges, s.r[7], k) then 1 else 0
    decreases |ranges| - k
  {
    hide Machine.Step;
    hide Layout;
    if k == |ranges| {
      Leave(code, ranges, mem, s);
      n, fin := 2, State(s.pc + 1, s.r[0 := 0], s.wrapped);
      return;
    }
    var m, t := OneRange(code, ranges, mem, s, k);
    if ranges[k].lo <= s.r[7] <= ranges[k].hi {
      Leave(code, ranges, mem, t);
      n, fin := 2, State(t.pc + 1, t.r[0 := 1], t.wrapped);
    } else {
      n, fin := RangesRun(code, ranges, mem, t, k + 1);
    }
    HaltsAfter(code, mem, s, m, t, n, fin);
    n := m + n;
  }

  lemma ClassProgramClassifies(ranges: seq<CharRange>)
    requires 4 + 2 * |ranges| <= MAX_BPF_INSTRUCTION_LEN
    ensures Classifies(ClassProgram(ranges), ranges)
  {
    hide Machine.Step;
    hide Machine.Decode;
    ClassLayout(ranges);
    forall mem: Memory, r: Registers ensures ClassRun(ClassProgram(ranges), ranges, mem, r) {
      var n, fin := RangesRun(Load(ClassProgram(ranges)), ranges, mem, State(0, r, false), 0);
      assert InRangesFrom(ranges, r[7], 0) <==> InRanges(ranges, r[7]);
    }
  }

  // ----- the compiler -----

  ghost predicate HasReversed(ranges: seq<CharRange>) {
    exists k :: 0 <= k < |ranges| && ranges[k].lo > ranges[k].hi
  }

  /** Emission: each match jump still has offset zero, and its index is noted. */
  method EmitRanges(ranges: seq<CharRange>) returns (prog: seq<BpfInsn>, jumps: seq<nat>)
    requires 4 + 2 * |ranges| <= MAX_BPF_INSTRUCTION_LEN
    ensures |prog| == 2 * |ranges| && |jumps| == |ranges|
    ensures forall j :: 0 <= j < |prog| ==> prog[j] == ClassInsn(ranges, j, 0)
    ensures forall k :: 0 <= k < |ranges| ==> jumps[k] == 2 * k + 1
  {
    hide Assembler.New;
    prog, jumps := [], [];
    for k := 0 to |ranges|
      invariant |prog| == 2 * k && |jumps| == k
      invariant forall j :: 0 <= j < |prog| ==> prog[j] == ClassInsn(ranges, j, 0)
      invariant forall i :: 0 <= i < k ==> jumps[i] == 2 * i + 1
    {
      prog := prog + [JmpImm(BPF_JLT, R7, ranges[k].lo, 1)];
      prog := prog + [JmpImm(BPF_JLE, R7, ranges[k].hi, 0)];
      jumps := jumps + [|prog| - 1];
    }
  }

  method CompileCharClass(ranges: seq<CharRange>) returns (r: Result<seq<BpfInsn>>)
    ensures r.Ok? <==> ranges != [] && !HasReversed(ranges) && |ranges| <= 2046
    ensures r.Err? ==> r.error == (if ranges == [] then InvalidPattern(NoRanges)
                                   else if HasReversed(ranges) then InvalidPattern(ReversedRange)
                                   else PatternTooLong(4 + 2 * |ranges|, 4096))
    ensures r.Ok? ==> r.value == ClassProgram(ranges)
    ensures r.Ok? ==> Classifies(r.value, ranges)
  {
    hide Classifies;
    if ranges == [] {
      return Err(InvalidPattern(NoRanges));
    }
    for k := 0 to |ranges|
      invariant forall i :: 0 <= i < k ==> ranges[i].lo <= ranges[i].hi
    {
      if ranges[k].lo > ranges[k].hi {
        return Err(InvalidPattern(ReversedRange));
      }
    }
    var estimated := 4 + |ranges| * 2;
    var limit := CompileWithLimit(estimated);
    if limit.Err? {
      return Err(limit.error);
    }
    ClassProgramClassifies(ranges);
    var prog, jumps := EmitRanges(ranges);
    prog := prog + [Alu64Imm(BPF_MOV, R0, 0)];
    prog := prog + [ExitInsn()];
    var target := |prog|;
    prog := prog + [Alu64Imm(BPF_MOV, R0, 1)];
    prog := prog + [ExitInsn()];
    for k := 0 to |jumps|
      invariant |prog| == 4 + 2 * |ranges|
      invariant forall j :: 0 <= j < |prog| ==> prog[j] == ClassInsn(ranges, j, k)
    {
      var idx := jumps[k];
      prog := prog[idx := prog[idx].(off := AsI16(target) - AsI16(idx) - 1)];
    }
    return Ok(prog);
  }
}
