/** The alternation compiler (src/compiler/codegen.rs, `compile_alternation`). */
module Alternation {
  import opened Assembler
  import opened Machine
  import opened Limits
  import opened Emit

  // ----- what the program is for -----

  /** Address arithmetic of the machine. */
  function Cell(a: Word, i: nat): Word {
    Wrap(a + i)
  }

  ghost predicate ByteAt(mem: Memory, a: int, b: byte) {
    a in mem && mem[a] == b
  }

  /** `alt` stands at address `a` and ends at or before `end`. */
  ghost predicate StandsAt(mem: Memory, a: Word, end: Word, alt: seq<byte>) {
    a + |alt| <= end && forall i :: 0 <= i < |alt| ==> ByteAt(mem, a + i, alt[i])
  }

  ghost predicate SomeStandsAt(mem: Memory, a: Word, end: Word, alts: seq<seq<byte>>) {
    exists k :: 0 <= k < |alts| && StandsAt(mem, a, end, alts[k])
  }

  /** What the emitted code tests: the same with 64-bit address arithmetic, and no test for an empty alternative. */
  ghost predicate Hit(mem: Memory, a: Word, end: Word, alt: seq<byte>) {
    alt == [] || (Wrap(a + |alt|) <= end && forall i :: 0 <= i < |alt| ==> ByteAt(mem, Cell(a, i), alt[i]))
  }

  ghost predicate SomeHit(mem: Memory, a: Word, end: Word, alts: seq<seq<byte>>) {
    exists k :: 0 <= k < |alts| && Hit(mem, a, end, alts[k])
  }

  /** The bytes that a run may look at are readable. */
  ghost predicate Readable(mem: Memory, a: Word, end: Word, alt: seq<byte>) {
    Wrap(a + |alt|) <= end ==> forall i :: 0 <= i < |alt| ==> Cell(a, i) in mem
  }

  ghost predicate AllReadable(mem: Memory, a: Word, end: Word, alts: seq<seq<byte>>) {
    forall k :: 0 <= k < |alts| ==> Readable(mem, a, end, alts[k])
  }

  ghost predicate SomeWraps(a: Word, alts: seq<seq<byte>>) {
    exists k :: 0 <= k < |alts| && a + |alts[k]| >= WORD
  }

  // ----- the program in closed form -----

  function BlockSize(alt: seq<byte>): nat {
    4 + 2 * |alt|
  }

  /** Where block `k` starts. */
  function Start(alts: seq<seq<byte>>, k: nat): nat
    requires k <= |alts|
  {
    if k == 0 then 0 else Start(alts, k - 1) + BlockSize(alts[k - 1])
  }

  ghost predicate Accepted(alts: seq<seq<byte>>) {
    && alts != [] && !HasEmpty(alts)
    && 4 + Start(alts, |alts|) <= MAX_BPF_INSTRUCTION_LEN
  }

  /**
   * Instruction `x` of the block of `alt` once the first `m` mismatch jumps are
   * patched and the other two jumps carry the given offsets.
   */
  function BlockInsn(alt: seq<byte>, x: nat, m: nat, bound: i16, exit: i16): BpfInsn
    requires |alt| < 0x2000 && x < BlockSize(alt)
  {
    if x == 0 then Alu64Reg(BPF_MOV, R6, R5)
    else if x == 1 then Alu64Imm(BPF_ADD, R6, |alt|)
    else if x == 2 then JmpReg(BPF_JGT, R6, R3, bound)
    else if x == 3 + 2 * |alt| then JmpImm(BPF_JA, R0, 0, exit)
    else
      var i := (x - 3) / 2;
      if x % 2 == 1 then LdxMem(BPF_B, R7, R5, i)
      else JmpImm(BPF_JNE, R7, alt[i], if i < m then 2 * |alt| - 2 * i - 1 else 0)
  }

  function Prefix(alt: seq<byte>, n: nat, m: nat, bound: i16, exit: i16): (b: seq<BpfInsn>)
    requires |alt| < 0x2000 && n <= BlockSize(alt)
    ensures |b| == n
  {
    seq(n, x requires 0 <= x < n => BlockInsn(alt, x, m, bound, exit))
  }

  function Block(alt: seq<byte>, m: nat, bound: i16, exit: i16): (b: seq<BpfInsn>)
    requires |alt| < 0x2000
    ensures |b| == BlockSize(alt)
  {
    Prefix(alt, BlockSize(alt), m, bound, exit)
  }

  function Flatten(blocks: seq<seq<BpfInsn>>): seq<BpfInsn> {
    if blocks == [] then [] else Flatten(blocks[..|blocks| - 1]) + blocks[|blocks| - 1]
  }

  const TRAILER: seq<BpfInsn> :=
    [Alu64Imm(BPF_MOV, R0, 0), ExitInsn(), Alu64Imm(BPF_MOV, R0, 1), ExitInsn()]

  /** The finished block `k`: a failed test goes to the next block, a match to the success exit. */
  function FinalBlock(alts: seq<seq<byte>>, k: nat): (b: seq<BpfInsn>)
    requires Accepted(alts) && k < |alts|
  {
    AltLengths(alts, k);
    Block(alts[k], |alts[k]|, 1 + 2 * |alts[k]|, Start(alts, |alts|) - Start(alts, k + 1) + 2)
  }

  function FinalBlocks(alts: seq<seq<byte>>): (blocks: seq<seq<BpfInsn>>)
    requires Accepted(alts)
    ensures Shaped(blocks, alts) && |blocks| == |alts|
    ensures forall k :: 0 <= k < |alts| ==> blocks[k] == FinalBlock(alts, k)
  {
    seq(|alts|, k requires 0 <= k < |alts| => FinalBlock(alts, k))
  }

  function AltProgram(alts: seq<seq<byte>>): seq<BpfInsn>
    requires Accepted(alts)
  {
    Flatten(FinalBlocks(alts)) + TRAILER
  }

  lemma {:induction false} StartMonotone(alts: seq<seq<byte>>, j: nat, k: nat)
    requires j <= k <= |alts|
    ensures Start(alts, j) <= Start(alts, k)
    decreases k
  {
    if j < k {
      StartMonotone(alts, j, k - 1);
    }
  }

  lemma AltLengths(alts: seq<seq<byte>>, k: nat)
    requires Accepted(alts) && k < |alts|
    ensures 0 < |alts[k]| && Start(alts, k) + BlockSize(alts[k]) + 4 <= Start(alts, |alts|) + 4 <= MAX_BPF_INSTRUCTION_LEN
  {
    StartMonotone(alts, k + 1, |alts|);
  }

  ghost predicate Shaped(blocks: seq<seq<BpfInsn>>, alts: seq<seq<byte>>) {
    |blocks| <= |alts| && forall k :: 0 <= k < |blocks| ==> |blocks[k]| == BlockSize(alts[k])
  }

  /** Block `k` stands at Start(k) in the flat program. */
  lemma {:induction false} FlattenAt(blocks: seq<seq<BpfInsn>>, alts: seq<seq<byte>>, k: nat, x: nat)
    requires Shaped(blocks, alts)
    ensures |Flatten(blocks)| == Start(alts, |blocks|)
    ensures k < |blocks| && x < |blocks[k]| ==>
              Start(alts, k) + x < |Flatten(blocks)| && Flatten(blocks)[Start(alts, k) + x] == blocks[k][x]
    decreases |blocks|
  {
    if blocks != [] {
      FlattenAt(blocks[..|blocks| - 1], alts, k, x);
    }
  }

  /** Patching one slot of the flat program patches one slot of one block. */
  lemma {:induction false} FlattenUpdate(blocks: seq<seq<BpfInsn>>, alts: seq<seq<byte>>, k: nat, x: nat, insn: BpfInsn)
    requires Shaped(blocks, alts) && k < |blocks| && x < |blocks[k]|
    ensures Start(alts, k) + x < |Flatten(blocks)|
    ensures Flatten(blocks[k := blocks[k][x := insn]]) == Flatten(blocks)[Start(alts, k) + x := insn]
    decreases |blocks|
  {
    FlattenAt(blocks, alts, k, x);
    var last := |blocks| - 1;
    var patched := blocks[k := blocks[k][x := insn]];
    if k == last {
      assert patched[..last] == blocks[..last];
      FlattenAt(blocks[..last], alts, 0, 0);
    } else {
      FlattenUpdate(blocks[..last], alts, k, x, insn);
      assert patched[..last] == blocks[..last][k := blocks[k][x := insn]];
    }
  }

  // ----- its decoded form -----

  /** The decoded block of `alt` at `b`, whose match jump has offset `out`. */
  ghost predicate BlockAt(code: seq<Op>, b: nat, alt: seq<byte>, out: i16) {
    && 0 < |alt| < 0x2000 && b + BlockSize(alt) <= |code|
    && code[b] == MovReg(6, 5) && code[b + 1] == AddImm(6, |alt|) && code[b + 2] == JgtReg(6, 3, 1 + 2 * |alt|)
    && (forall i :: 0 <= i < |alt| ==>
          && code[b + 3 + 2 * i] == LoadByte(7, 5, i)
          && code[b + 4 + 2 * i] == JneImm(7, alt[i], 2 * |alt| - 2 * i - 1))
    && code[b + 3 + 2 * |alt|] == Goto(out)
  }

  ghost predicate TrailerAt(code: seq<Op>, b: nat) {
    && |code| == b + 4
    && code[b] == MovImm(0, 0) && code[b + 1] == Exit && code[b + 2] == MovImm(0, 1) && code[b + 3] == Exit
  }

  /** The success exit is reached from block `k` by this offset. */
  ghost function Out(alts: seq<seq<byte>>, k: nat): (o: i16)
    requires Accepted(alts) && k < |alts|
  {
    AltLengths(alts, k);
    Start(alts, |alts|) - Start(alts, k + 1) + 2
  }

  ghost predicate Layout(code: seq<Op>, alts: seq<seq<byte>>) {
    && Accepted(alts)
    && TrailerAt(code, Start(alts, |alts|))
    && forall k :: 0 <= k < |alts| ==> BlockAt(code, Start(alts, k), alts[k], Out(alts, k))
  }

  lemma DecodedByte(alt: seq<byte>, i: nat, bound: i16, exit: i16)
    requires |alt| < 0x2000 && i < |alt|
    ensures Decode(BlockInsn(alt, 3 + 2 * i, |alt|, bound, exit)) == LoadByte(7, 5, i)
    ensures Decode(BlockInsn(alt, 4 + 2 * i, |alt|, bound, exit)) == JneImm(7, alt[i], 2 * |alt| - 2 * i - 1)
  {}

  lemma DecodedFrame(alt: seq<byte>, bound: i16, exit: i16)
    requires |alt| < 0x2000
    ensures Decode(BlockInsn(alt, 0, |alt|, bound, exit)) == MovReg(6, 5)
    ensures Decode(BlockInsn(alt, 1, |alt|, bound, exit)) == AddImm(6, |alt|)
    ensures Decode(BlockInsn(alt, 2, |alt|, bound, exit)) == JgtReg(6, 3, bound)
    ensures Decode(BlockInsn(alt, 3 + 2 * |alt|, |alt|, bound, exit)) == Goto(exit)
  {}

  /** What the machine fetches at position `x` of block `k`. */
  lemma Fetch(alts: seq<seq<byte>>, k: nat, x: nat)
    requires Accepted(alts) && k < |alts| && x < BlockSize(alts[k])
    ensures |alts[k]| < 0x2000 && Start(alts, k) + x < |Load(AltProgram(alts))|
    ensures Load(AltProgram(alts))[Start(alts, k) + x]
         == Decode(BlockInsn(alts[k], x, |alts[k]|, 1 + 2 * |alts[k]|, Out(alts, k)))
  {
    hide Machine.Decode;
    hide BlockInsn;
    AltLengths(alts, k);
    FlattenAt(FinalBlocks(alts), alts, k, x);
    assert AltProgram(alts)[Start(alts, k) + x] == FinalBlock(alts, k)[x];
  }

  lemma DecodedBlock(alts: seq<seq<byte>>, k: nat, code: seq<Op>, b: nat)
    requires Accepted(alts) && k < |alts|
    requires code == Load(AltProgram(alts)) && b == Start(alts, k)
    ensures BlockAt(code, b, alts[k], Out(alts, k))
  {
    hide Machine.Decode;
    hide BlockInsn;
    hide AltProgram;
    hide Machine.Load;
    hide Accepted;
    hide Start;
    hide Out;
    var alt := alts[k];
    AltLengths(alts, k);
    Fetch(alts, k, 0);
    Fetch(alts, k, 1);
    Fetch(alts, k, 2);
    Fetch(alts, k, 3 + 2 * |alt|);
    DecodedFrame(alt, 1 + 2 * |alt|, Out(alts, k));
    forall i | 0 <= i < |alt|
      ensures code[b + 3 + 2 * i] == LoadByte(7, 5, i)
           && code[b + 4 + 2 * i] == JneImm(7, alt[i], 2 * |alt| - 2 * i - 1)
    {
      Fetch(alts, k, 3 + 2 * i);
      Fetch(alts, k, 4 + 2 * i);
      DecodedByte(alt, i, 1 + 2 * |alt|, Out(alts, k));
    }
  }

  lemma TrailerDecodes()
    ensures Load(TRAILER) == [MovImm(0, 0), Exit, MovImm(0, 1), Exit]
  {}

  lemma LoadBehind(front: seq<BpfInsn>)
    ensures TrailerAt(Load(front + TRAILER), |front|)
  {
    hide Machine.Decode;
    TrailerDecodes();
    var code := Load(front + TRAILER);
    forall x | 0 <= x < 4 ensures code[|front| + x] == Load(TRAILER)[x] {
      assert (front + TRAILER)[|front| + x] == TRAILER[x];
    }
    assert code[|front|] == code[|front| + 0];
  }

  lemma DecodedTrailer(alts: seq<seq<byte>>)
    requires Accepted(alts)
    ensures TrailerAt(Load(AltProgram(alts)), Start(alts, |alts|))
  {
    hide Machine.Load;
    hide TrailerAt;
    hide Flatten;
    hide FinalBlock;
    hide Accepted;
    hide Start;
    hide FinalBlocks;
    FlattenAt(FinalBlocks(alts), alts, 0, 0);
    LoadBehind(Flatten(FinalBlocks(alts)));
  }

  lemma AltLayout(alts: seq<seq<byte>>)
    requires Accepted(alts)
    ensures Layout(Load(AltProgram(alts)), alts)
  {
    hide AltProgram;
    hide Machine.Load;
    hide BlockAt;
    DecodedTrailer(alts);
    forall k | 0 <= k < |alts|
      ensures BlockAt(Load(AltProgram(alts)), Start(alts, k), alts[k], Out(alts, k))
    {
      DecodedBlock(alts, k, Load(AltProgram(alts)), Start(alts, k));
    }
  }

  // ----- running it -----

  /** The bounds test of a block. */
  lemma Bounds(code: seq<Op>, b: nat, alt: seq<byte>, out: i16, mem: Memory, s: State)
    requires BlockAt(code, b, alt, out) && s.pc == b
    ensures
      var end := Wrap(s.r[5] + |alt|);
      var pc := if end > s.r[3] then b + BlockSize(alt) else b + 3;
      Run(code, mem, s, 3) == Running(State(pc, s.r[6 := end], s.wrapped || s.r[5] + |alt| >= WORD))
  {}

  lemma CompareByte(code: seq<Op>, b: nat, alt: seq<byte>, out: i16, mem: Memory, s: State, j: nat)
    requires BlockAt(code, b, alt, out) && j < |alt|
    requires s.pc == b + 3 + 2 * j && Cell(s.r[5], j) in mem
    ensures
      var v := mem[Cell(s.r[5], j)];
      var pc := if v == alt[j] then b + 3 + 2 * (j + 1) else b + BlockSize(alt);
      Run(code, mem, s, 2) == Running(State(pc, s.r[7 := v], s.wrapped))
  {}

  ghost predicate MatchesFrom(mem: Memory, a: Word, alt: seq<byte>, j: nat) {
    forall i :: j <= i < |alt| ==> ByteAt(mem, Cell(a, i), alt[i])
  }

  lemma {:induction false} Compare(code: seq<Op>, b: nat, alt: seq<byte>, out: i16, mem: Memory, s: State, j: nat)
    returns (k: nat, t: State)
    requires BlockAt(code, b, alt, out) && j <= |alt|
    requires s.pc == b + 3 + 2 * j
    requires forall i :: 0 <= i < |alt| ==> Cell(s.r[5], i) in mem
    ensures Run(code, mem, s, k) == Running(t)
    ensures t.r == s.r[7 := t.r[7]] && t.wrapped == s.wrapped
    ensures t.pc == if MatchesFrom(mem, s.r[5], alt, j) then b + 3 + 2 * |alt| else b + BlockSize(alt)
    ensures k <= 2 * (|alt| - j)
    decreases |alt| - j
  {
    hide Machine.Step;
    if j == |alt| {
      k, t := 0, s;
      return;
    }
    CompareByte(code, b, alt, out, mem, s, j);
    var s2 := Run(code, mem, s, 2).s;
    if s2.pc == b + BlockSize(alt) {
      assert mem[Cell(s.r[5], j)] != alt[j];
      k, t := 2, s2;
    } else {
      k, t := Compare(code, b, alt, out, mem, s2, j + 1);
      RunCompose(code, mem, s, 2, s2, k);
      k := k + 2;
    }
  }

  lemma TakeMatch(code: seq<Op>, b: nat, alt: seq<byte>, out: i16, mem: Memory, s: State)
    requires BlockAt(code, b, alt, out) && s.pc == b + 3 + 2 * |alt|
    ensures Run(code, mem, s, 1) == Running(State(b + BlockSize(alt) + out, s.r, s.wrapped))
  {}

  /** A whole block: out by the match jump on a hit, on to the next block otherwise. */
  lemma OneBlock(code: seq<Op>, b: nat, alt: seq<byte>, out: i16, mem: Memory, s: State) returns (n: nat, t: State)
    requires BlockAt(code, b, alt, out) && s.pc == b
    requires Readable(mem, s.r[5], s.r[3], alt)
    ensures Run(code, mem, s, n) == Running(t) && n <= BlockSize(alt)
    ensures t.r[5] == s.r[5] && t.r[3] == s.r[3]
    ensures t.wrapped == (s.wrapped || s.r[5] + |alt| >= WORD)
    ensures t.pc == if Hit(mem, s.r[5], s.r[3], alt) then b + BlockSize(alt) + out else b + BlockSize(alt)
  {
    hide Machine.Step;
    Bounds(code, b, alt, out, mem, s);
    var s3 := Run(code, mem, s, 3).s;
    if Wrap(s.r[5] + |alt|) > s.r[3] {
      n, t := 3, s3;
    } else {
      n, t := Compare(code, b, alt, out, mem, s3, 0);
      RunCompose(code, mem, s, 3, s3, n);
      n := n + 3;
      if MatchesFrom(mem, s.r[5], alt, 0) {
        TakeMatch(code, b, alt, out, mem, t);
        RunCompose(code, mem, s, n, t, 1);
        n, t := n + 1, State(b + BlockSize(alt) + out, t.r, t.wrapped);
      }
    }
  }

  lemma BlockRun(alts: seq<seq<byte>>, k: nat, code: seq<Op>, mem: Memory, s: State) returns (n: nat, t: State)
    requires Layout(code, alts) && k < |alts| && s.pc == Start(alts, k)
    requires AllReadable(mem, s.r[5], s.r[3], alts)
    ensures Run(code, mem, s, n) == Running(t) && n <= Start(alts, k + 1) - Start(alts, k)
    ensures t.r[5] == s.r[5] && t.r[3] == s.r[3]
    ensures t.wrapped ==> s.wrapped || SomeWraps(s.r[5], alts)
    ensures t.pc == if Hit(mem, s.r[5], s.r[3], alts[k]) then Start(alts, |alts|) + 2 else Start(alts, k + 1)
  {
    hide Machine.Run;
    hide Machine.Step;
    hide Accepted;
    hide BlockAt;
    hide Hit;
    n, t := OneBlock(code, Start(alts, k), alts[k], Out(alts, k), mem, s);
  }

  /** The two exits. */
  lemma Leave(code: seq<Op>, b: nat, mem: Memory, s: State)
    requires TrailerAt(code, b) && (s.pc == b || s.pc == b + 2)
    ensures HaltsIn(code, mem, s, 2, State(s.pc + 1, s.r[0 := if s.pc == b then 0 else 1], s.wrapped))
  {}

  ghost predicate HitFrom(mem: Memory, a: Word, end: Word, alts: seq<seq<byte>>, k: nat) {
    exists j :: k <= j < |alts| && Hit(mem, a, end, alts[j])
  }

  lemma HitFromUnfolds(mem: Memory, a: Word, end: Word, alts: seq<seq<byte>>, k: nat)
    requires k <= |alts|
    ensures HitFrom(mem, a, end, alts, k) <==> k < |alts| && (Hit(mem, a, end, alts[k]) || HitFrom(mem, a, end, alts, k + 1))
  {}

  /** The blocks from `k` on, tried in order. */
  lemma {:induction false} BlocksRun(alts: seq<seq<byte>>, k: nat, code: seq<Op>, mem: Memory, s: State)
    returns (n: nat, fin: State)
    requires Layout(code, alts) && k <= |alts| && s.pc == Start(alts, k)
    requires TrailerAt(code, Start(alts, |alts|))
    requires AllReadable(mem, s.r[5], s.r[3], alts)
    ensures HaltsIn(code, mem, s, n, fin) && n <= Start(alts, |alts|) - Start(alts, k) + 2
    ensures fin.r[0] == if HitFrom(mem, s.r[5], s.r[3], alts, k) then 1 else 0
    ensures fin.wrapped ==> s.wrapped || SomeWraps(s.r[5], alts)
    decreases |alts| - k
  {
    hide Machine.Run;
    hide Machine.Step;
    hide Machine.HaltsIn;
    hide Accepted;
    hide Hit;
    hide BlockAt;
    hide SomeWraps;
    hide HitFrom;
    hide Layout;
    hide TrailerAt;
    hide AllReadable;
    HitFromUnfolds(mem, s.r[5], s.r[3], alts, k);
    var b := Start(alts, |alts|);
    if k == |alts| {
      Leave(code, b, mem, s);
      n, fin := 2, State(s.pc + 1, s.r[0 := 0], s.wrapped);
      return;
    }
    StartMonotone(alts, k + 1, |alts|);
    var m, t := BlockRun(alts, k, code, mem, s);
    if Hit(mem, s.r[5], s.r[3], alts[k]) {
      Leave(code, b, mem, t);
      n, fin := 2, State(t.pc + 1, t.r[0 := 1], t.wrapped);
    } else {
      n, fin := BlocksRun(alts, k + 1, code, mem, t);
    }
    HaltsAfter(code, mem, s, m, t, n, fin);
    n := m + n;
  }

  // ----- correctness -----

  /** One run of `program` with the scan position in R5 and the end pointer in R3. */
  ghost predicate AlternationRun(program: seq<BpfInsn>, alts: seq<seq<byte>>, mem: Memory, r: Registers) {
    exists n: nat, fin: State ::
      && HaltsIn(Load(program), mem, State(0, r, false), n, fin)
      && n <= |program|
      && fin.r[0] == (if SomeHit(mem, r[5], r[3], alts) then 1 else 0)
      && (fin.wrapped ==> SomeWraps(r[5], alts))
  }

  /** On all registers and memories the program answers, within its own length, whether some alternative hits. */
  ghost predicate Alternates(program: seq<BpfInsn>, alts: seq<seq<byte>>) {
    forall mem: Memory, r: Registers :: AllReadable(mem, r[5], r[3], alts) ==> AlternationRun(program, alts, mem, r)
  }

  lemma AltProgramAlternates(alts: seq<seq<byte>>)
    requires Accepted(alts)
    ensures Alternates(AltProgram(alts), alts)
  {
    hide Machine.Step;
    hide Machine.Decode;
    hide Accepted;
    var code := Load(AltProgram(alts));
    AltLayout(alts);
    forall mem: Memory, r: Registers | AllReadable(mem, r[5], r[3], alts)
      ensures AlternationRun(AltProgram(alts), alts, mem, r)
    {
      var s := State(0, r, false);
      var n, fin := BlocksRun(alts, 0, code, mem, s);
      assert HitFrom(mem, r[5], r[3], alts, 0) <==> SomeHit(mem, r[5], r[3], alts);
    }
  }

  function Shortcut(v: i32): seq<BpfInsn> {
    [Alu64Imm(BPF_MOV, R0, v), ExitInsn()]
  }

  lemma ShortcutRun(v: i32, mem: Memory, r: Registers) returns (fin: State)
    requires v >= 0
    ensures HaltsIn(Load(Shortcut(v)), mem, State(0, r, false), 2, fin)
    ensures fin.r[0] == v && !fin.wrapped
  {
    var code := Load(Shortcut(v));
    assert code[0] == MovImm(0, v) && code[1] == Exit;
    fin := State(1, r[0 := v], false);
  }

  /** The empty list never matches; a list with an empty alternative always does. */
  lemma ShortcutAlternates(alts: seq<seq<byte>>)
    ensures alts == [] ==> Alternates(Shortcut(0), alts)
    ensures HasEmpty(alts) ==> Alternates(Shortcut(1), alts)
  {
    hide Machine.Step;
    hide Machine.Decode;
    forall mem: Memory, r: Registers | alts == [] ensures AlternationRun(Shortcut(0), alts, mem, r) {
      var fin := ShortcutRun(0, mem, r);
    }
    forall mem: Memory, r: Registers | HasEmpty(alts) ensures AlternationRun(Shortcut(1), alts, mem, r) {
      var k :| 0 <= k < |alts| && alts[k] == [];
      assert Hit(mem, r[5], r[3], alts[k]);
      var fin := ShortcutRun(1, mem, r);
    }
  }

  /** What the compiler emits, the shortcuts included. */
  function CompiledAlternation(alts: seq<seq<byte>>): seq<BpfInsn>
    requires EstimateAlternationInstructions(alts) <= MAX_BPF_INSTRUCTION_LEN
  {
    if alts == [] then Shortcut(0)
    else if HasEmpty(alts) then Shortcut(1)
    else
      CostIsStart(alts, 0);
      assert alts[0..] == alts;
      AltProgram(alts)
  }

  lemma {:induction false} CostIsStart(alts: seq<seq<byte>>, k: nat)
    requires !HasEmpty(alts) && k <= |alts|
    ensures AlternativesCost(alts[k..]) == Start(alts, |alts|) - Start(alts, k)
    decreases |alts| - k
  {
    if k < |alts| {
      assert alts[k] != [];
      assert alts[k..][1..] == alts[k + 1..];
      CostIsStart(alts, k + 1);
    }
  }

  /** Every list within the limit compiles to a program of the estimated length that answers correctly. */
  lemma CompiledAlternates(alts: seq<seq<byte>>)
    requires EstimateAlternationInstructions(alts) <= MAX_BPF_INSTRUCTION_LEN
    ensures Alternates(CompiledAlternation(alts), alts)
    ensures |CompiledAlternation(alts)| == EstimateAlternationInstructions(alts)
  {
    hide Alternates;
    hide Block;
    ShortcutAlternates(alts);
    if alts != [] && !HasEmpty(alts) {
      CostIsStart(alts, 0);
      assert alts[0..] == alts;
      AltProgramAlternates(alts);
      FlattenAt(FinalBlocks(alts), alts, 0, 0);
    }
  }
}
