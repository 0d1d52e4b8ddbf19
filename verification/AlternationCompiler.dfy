/** The emission and patching loops of the alternation compiler (src/compiler/codegen.rs, `compile_alternation`). */
module AlternationCompiler {
  import opened Assembler
  import opened Limits
  import opened Emit
  import opened Alternation

  /** Emit one alternative with its jump offsets still zero. */
  method EmitBlock(prog: Program, alt: seq<byte>) returns (bound: nat, mismatches: seq<nat>, matched: nat)
    requires |alt| < 0x2000
    modifies prog
    ensures prog.insns == old(prog.insns) + Block(alt, 0, 0, 0)
    ensures bound == |old(prog.insns)| + 2 && matched == |old(prog.insns)| + 3 + 2 * |alt|
    ensures |mismatches| == |alt|
    ensures forall i :: 0 <= i < |alt| ==> mismatches[i] == |old(prog.insns)| + 4 + 2 * i
  {
    hide Assembler.New;
    ghost var before := prog.insns;
    var boundCheck := |prog.insns|;
    prog.Push(Alu64Reg(BPF_MOV, R6, R5));
    prog.Push(Alu64Imm(BPF_ADD, R6, |alt|));
    prog.Push(JmpReg(BPF_JGT, R6, R3, 0));
    bound := boundCheck + 2;
    mismatches := [];
    for i := 0 to |alt|
      invariant |mismatches| == i && forall j :: 0 <= j < i ==> mismatches[j] == |before| + 4 + 2 * j
      invariant prog.insns == before + Prefix(alt, 3 + 2 * i, 0, 0, 0)
    {
      prog.Push(LdxMem(BPF_B, R7, R5, AsI16(i)));
      mismatches := mismatches + [|prog.insns|];
      prog.Push(JmpImm(BPF_JNE, R7, alt[i], 0));
    }
    matched := |prog.insns|;
    prog.Push(JmpImm(BPF_JA, R0, 0, 0));
  }

  /** The indices noted for block `k`: its start, its bounds jump, its mismatch jumps and its match jump. */
  ghost predicate Noted(alts: seq<seq<byte>>, k: nat, start: nat, bound: nat, mismatches: seq<nat>, matched: nat)
    requires k < |alts|
  {
    && start == Start(alts, k) && bound == start + 2 && matched == start + 3 + 2 * |alts[k]|
    && |mismatches| == |alts[k]|
    && forall i :: 0 <= i < |alts[k]| ==> mismatches[i] == start + 4 + 2 * i
  }

  /** Emit all alternatives and note where each block and each of its jumps stands. */
  method EmitBlocks(prog: Program, alts: seq<seq<byte>>)
    returns (starts: seq<nat>, bounds: seq<nat>, mismatches: seq<seq<nat>>, matches: seq<nat>)
    requires forall q :: 0 <= q < |alts| ==> |alts[q]| < 0x2000
    requires prog.insns == []
    modifies prog
    ensures |mismatches| == |bounds| == |matches| == |starts| == |alts|
    ensures prog.insns == Flatten(MismatchStage(alts, 0, 0))
    ensures forall q :: 0 <= q < |alts| ==> Noted(alts, q, starts[q], bounds[q], mismatches[q], matches[q])
  {
    hide Block;
    hide Start;
    hide Flatten;
    hide MismatchStage;
    hide Noted;
    starts, bounds, mismatches, matches := [], [], [], [];
    FlattenPush([], []);
    ghost var blocks: seq<seq<BpfInsn>> := [];
    for k := 0 to |alts|
      invariant |mismatches| == |bounds| == |matches| == |starts| == |blocks| == k
      invariant forall q :: 0 <= q < k ==> blocks[q] == Block(alts[q], 0, 0, 0)
      invariant prog.insns == Flatten(blocks)
      invariant forall q :: 0 <= q < k ==> Noted(alts, q, starts[q], bounds[q], mismatches[q], matches[q])
    {
      FlattenAt(blocks, alts, 0, 0);
      var start := |prog.insns|;
      var bound, mis, matched := EmitBlock(prog, alts[k]);
      NotedBlock(alts, k, start, bound, mis, matched);
      starts := starts + [start];
      bounds := bounds + [bound];
      matches := matches + [matched];
      mismatches := mismatches + [mis];
      FlattenPush(blocks, Block(alts[k], 0, 0, 0));
      blocks := blocks + [Block(alts[k], 0, 0, 0)];
    }
    StageZero(alts, blocks);
  }

  lemma NotedBlock(alts: seq<seq<byte>>, k: nat, start: nat, bound: nat, mismatches: seq<nat>, matched: nat)
    requires k < |alts| && start == Start(alts, k) && bound == start + 2 && matched == start + 3 + 2 * |alts[k]|
    requires |mismatches| == |alts[k]| && forall i :: 0 <= i < |alts[k]| ==> mismatches[i] == start + 4 + 2 * i
    ensures Noted(alts, k, start, bound, mismatches, matched)
  {}

  lemma StageZero(alts: seq<seq<byte>>, blocks: seq<seq<BpfInsn>>)
    requires |blocks| == |alts| && forall q :: 0 <= q < |alts| ==> |alts[q]| < 0x2000 && blocks[q] == Block(alts[q], 0, 0, 0)
    ensures blocks == MismatchStage(alts, 0, 0)
  {}

  lemma FlattenPush(blocks: seq<seq<BpfInsn>>, b: seq<BpfInsn>)
    ensures Flatten([]) == []
    ensures Flatten(blocks + [b]) == Flatten(blocks) + b
  {}

  /** All blocks with the mismatch jumps patched in the blocks before `k` and the first `m` of block `k`. */
  ghost function MismatchStage(alts: seq<seq<byte>>, k: nat, m: nat): (blocks: seq<seq<BpfInsn>>)
    requires forall q :: 0 <= q < |alts| ==> |alts[q]| < 0x2000
    ensures |blocks| == |alts| && Shaped(blocks, alts)
  {
    seq(|alts|, q requires 0 <= q < |alts| =>
      Block(alts[q], if q < k then |alts[q]| else if q == k then m else 0, 0, 0))
  }

  ghost function BoundStage(alts: seq<seq<byte>>, k: nat): (blocks: seq<seq<BpfInsn>>)
    requires forall q :: 0 <= q < |alts| ==> |alts[q]| < 0x2000
    ensures |blocks| == |alts| && Shaped(blocks, alts)
  {
    seq(|alts|, q requires 0 <= q < |alts| =>
      Block(alts[q], |alts[q]|, if q < k then 1 + 2 * |alts[q]| else 0, 0))
  }

  ghost function MatchStage(alts: seq<seq<byte>>, k: nat): (blocks: seq<seq<BpfInsn>>)
    requires Accepted(alts)
    ensures |blocks| == |alts| && Shaped(blocks, alts)
  {
    AllLengths(alts);
    seq(|alts|, q requires 0 <= q < |alts| =>
      Block(alts[q], |alts[q]|, 1 + 2 * |alts[q]|, if q < k then Out(alts, q) else 0))
  }

  lemma AllLengths(alts: seq<seq<byte>>)
    requires Accepted(alts)
    ensures forall q :: 0 <= q < |alts| ==> 0 < |alts[q]| < 0x2000
  {
    forall q | 0 <= q < |alts| ensures 0 < |alts[q]| < 0x2000 {
      AltLengths(alts, q);
    }
  }

  // One patch of one block.

  lemma BlockMismatch(alt: seq<byte>, i: nat, bound: i16, exit: i16)
    requires |alt| < 0x2000 && i < |alt|
    ensures Block(alt, i, bound, exit)[4 + 2 * i].imm == alt[i]
    ensures Block(alt, i + 1, bound, exit)
         == Block(alt, i, bound, exit)[4 + 2 * i := JmpImm(BPF_JNE, R7, alt[i], 2 * |alt| - 2 * i - 1)]
  {}

  lemma BlockBound(alt: seq<byte>, m: nat, bound: i16, bound': i16, exit: i16)
    requires |alt| < 0x2000
    ensures Block(alt, m, bound', exit) == Block(alt, m, bound, exit)[2 := JmpReg(BPF_JGT, R6, R3, bound')]
  {}

  lemma BlockMatch(alt: seq<byte>, m: nat, bound: i16, exit: i16, exit': i16)
    requires |alt| < 0x2000
    ensures Block(alt, m, bound, exit') == Block(alt, m, bound, exit)[3 + 2 * |alt| := JmpImm(BPF_JA, R0, 0, exit')]
  {}

  // The same patch in the flat program.

  ghost function Laid(blocks: seq<seq<BpfInsn>>): seq<BpfInsn> {
    Flatten(blocks) + TRAILER
  }

  /** Replacing slot `x` of block `k` replaces one slot of the whole program. */
  lemma LaidUpdate(blocks: seq<seq<BpfInsn>>, alts: seq<seq<byte>>, k: nat, x: nat, at: nat, insn: BpfInsn)
    requires Shaped(blocks, alts) && k < |blocks| && x < |blocks[k]| && at == Start(alts, k) + x
    ensures at < |Laid(blocks)| && Laid(blocks)[at] == blocks[k][x]
    ensures Laid(blocks[k := blocks[k][x := insn]]) == Laid(blocks)[at := insn]
  {
    FlattenAt(blocks, alts, k, x);
    FlattenUpdate(blocks, alts, k, x, insn);
  }

  /** An offset of a program within the cap is not truncated. */
  lemma OffsetExact(from: nat, to: nat)
    requires -0x8000 <= to - from - 1 < 0x8000
    ensures JumpOffset(from, to) == to - from - 1
  {}

  lemma MismatchStageStep(alts: seq<seq<byte>>, k: nat, i: nat)
    requires forall q :: 0 <= q < |alts| ==> |alts[q]| < 0x2000
    requires k < |alts| && i < |alts[k]|
    ensures MismatchStage(alts, k, i)[k] == Block(alts[k], i, 0, 0)
    ensures MismatchStage(alts, k, i + 1) == MismatchStage(alts, k, i)[k := Block(alts[k], i + 1, 0, 0)]
  {}

  lemma MismatchOffset(alts: seq<seq<byte>>, k: nat, i: nat, at: nat, next: nat)
    requires k < |alts| && i < |alts[k]| < 0x2000
    requires at == Start(alts, k) + 4 + 2 * i && next == Start(alts, k + 1)
    ensures JumpOffset(at, next) == 2 * |alts[k]| - 2 * i - 1
  {
    OffsetExact(at, next);
  }

  lemma MismatchStep(alts: seq<seq<byte>>, k: nat, i: nat, at: nat, next: nat)
    requires forall q :: 0 <= q < |alts| ==> |alts[q]| < 0x2000
    requires k < |alts| && i < |alts[k]|
    requires at == Start(alts, k) + 4 + 2 * i && next == Start(alts, k + 1)
    ensures at < |Laid(MismatchStage(alts, k, i))| && Laid(MismatchStage(alts, k, i))[at].imm == alts[k][i]
    ensures Laid(MismatchStage(alts, k, i + 1))
         == Laid(MismatchStage(alts, k, i))[at := JmpImm(BPF_JNE, R7, alts[k][i], JumpOffset(at, next))]
  {
    hide Block;
    hide Laid;
    hide MismatchStage;
    hide JumpOffset;
    hide JmpImm;
    hide Start;
    hide Shaped;
    MismatchOffset(alts, k, i, at, next);
    MismatchStageStep(alts, k, i);
    BlockMismatch(alts[k], i, 0, 0);
    var blocks, insn := MismatchStage(alts, k, i), JmpImm(BPF_JNE, R7, alts[k][i], JumpOffset(at, next));
    assert blocks[k][4 + 2 * i := insn] == Block(alts[k], i + 1, 0, 0);
    LaidUpdate(blocks, alts, k, 4 + 2 * i, at, insn);
  }

  lemma BoundStep(alts: seq<seq<byte>>, k: nat, at: nat, next: nat)
    requires forall q :: 0 <= q < |alts| ==> |alts[q]| < 0x2000
    requires k < |alts| && at == Start(alts, k) + 2 && next == Start(alts, k + 1)
    ensures at < |Laid(BoundStage(alts, k))|
    ensures Laid(BoundStage(alts, k + 1))
         == Laid(BoundStage(alts, k))[at := JmpReg(BPF_JGT, R6, R3, JumpOffset(at, next))]
  {
    hide Block;
    hide Assembler.New;
    hide Laid;
    var blocks, insn := BoundStage(alts, k), JmpReg(BPF_JGT, R6, R3, JumpOffset(at, next));
    BlockBound(alts[k], |alts[k]|, 0, 1 + 2 * |alts[k]|, 0);
    LaidUpdate(blocks, alts, k, 2, at, insn);
    assert BoundStage(alts, k + 1) == blocks[k := blocks[k][2 := insn]];
  }

  lemma MatchStageStep(alts: seq<seq<byte>>, k: nat)
    requires Accepted(alts) && k < |alts|
    ensures |alts[k]| < 0x2000 && MatchStage(alts, k)[k] == Block(alts[k], |alts[k]|, 1 + 2 * |alts[k]|, 0)
    ensures MatchStage(alts, k + 1) == MatchStage(alts, k)[k := Block(alts[k], |alts[k]|, 1 + 2 * |alts[k]|, Out(alts, k))]
  {
    hide Block;
    hide Accepted;
    AllLengths(alts);
  }

  lemma MatchStep(alts: seq<seq<byte>>, k: nat, at: nat, success: nat)
    requires Accepted(alts) && k < |alts|
    requires at == Start(alts, k) + 3 + 2 * |alts[k]| && success == Start(alts, |alts|) + 2
    ensures at < |Laid(MatchStage(alts, k))|
    ensures Laid(MatchStage(alts, k + 1))
         == Laid(MatchStage(alts, k))[at := JmpImm(BPF_JA, R0, 0, JumpOffset(at, success))]
  {
    hide Block;
    hide Assembler.New;
    hide Laid;
    hide JumpOffset;
    hide MatchStage;
    AltLengths(alts, k);
    OffsetExact(at, success);
    assert JumpOffset(at, success) == Out(alts, k);
    MatchStageStep(alts, k);
    BlockMatch(alts[k], |alts[k]|, 1 + 2 * |alts[k]|, 0, Out(alts, k));
    LaidUpdate(MatchStage(alts, k), alts, k, 3 + 2 * |alts[k]|, at, JmpImm(BPF_JA, R0, 0, JumpOffset(at, success)));
  }

  lemma StagesMeet(alts: seq<seq<byte>>)
    requires Accepted(alts)
    ensures forall q :: 0 <= q < |alts| ==> |alts[q]| < 0x2000
    ensures MismatchStage(alts, |alts|, 0) == BoundStage(alts, 0)
    ensures BoundStage(alts, |alts|) == MatchStage(alts, 0)
    ensures Laid(MatchStage(alts, |alts|)) == AltProgram(alts)
  {
    hide Block;
    AllLengths(alts);
    assert MatchStage(alts, |alts|) == FinalBlocks(alts);
  }

  lemma NextBlockStage(alts: seq<seq<byte>>, k: nat)
    requires forall q :: 0 <= q < |alts| ==> |alts[q]| < 0x2000
    requires k < |alts|
    ensures MismatchStage(alts, k, |alts[k]|) == MismatchStage(alts, k + 1, 0)
  {}

  // The three patching loops.

  method PatchMismatches(prog: Program, alts: seq<seq<byte>>, mismatches: seq<seq<nat>>, starts: seq<nat>, fail: nat)
    requires Accepted(alts) && |mismatches| == |starts| == |alts| && fail == Start(alts, |alts|)
    requires forall k :: 0 <= k < |alts| ==> |alts[k]| < 0x2000
    requires forall k :: 0 <= k < |alts| ==> starts[k] == Start(alts, k) && |mismatches[k]| == |alts[k]|
    requires forall k, i :: 0 <= k < |alts| && 0 <= i < |alts[k]| ==> mismatches[k][i] == Start(alts, k) + 4 + 2 * i
    requires prog.insns == Laid(MismatchStage(alts, 0, 0))
    modifies prog
    ensures prog.insns == Laid(BoundStage(alts, 0))
  {
    hide Assembler.New;
    hide Laid;
    hide MismatchStage;
    hide BoundStage;
    hide Accepted;
    hide JumpOffset;
    hide Start;
    StagesMeet(alts);
    for k := 0 to |mismatches|
      invariant prog.insns == Laid(MismatchStage(alts, k, 0))
    {
      var next := if k + 1 < |starts| then starts[k + 1] else fail;
      for i := 0 to |mismatches[k]|
        invariant prog.insns == Laid(MismatchStage(alts, k, i))
      {
        var jump := mismatches[k][i];
        MismatchStep(alts, k, i, jump, next);
        var expected := prog.insns[jump].imm;
        prog.PatchImmJump(jump, next, R7, expected, BPF_JNE);
      }
      NextBlockStage(alts, k);
    }
  }

  method PatchBounds(prog: Program, alts: seq<seq<byte>>, bounds: seq<nat>, starts: seq<nat>, fail: nat)
    requires Accepted(alts) && |bounds| == |starts| == |alts| && fail == Start(alts, |alts|)
    requires forall k :: 0 <= k < |alts| ==> |alts[k]| < 0x2000
    requires forall k :: 0 <= k < |alts| ==> starts[k] == Start(alts, k) && bounds[k] == Start(alts, k) + 2
    requires prog.insns == Laid(BoundStage(alts, 0))
    modifies prog
    ensures prog.insns == Laid(MatchStage(alts, 0))
  {
    hide Assembler.New;
    hide Laid;
    hide BoundStage;
    hide MatchStage;
    hide Accepted;
    hide JumpOffset;
    hide Start;
    StagesMeet(alts);
    for k := 0 to |bounds|
      invariant prog.insns == Laid(BoundStage(alts, k))
    {
      var next := if k + 1 < |starts| then starts[k + 1] else fail;
      BoundStep(alts, k, bounds[k], next);
      prog.PatchRegJump(bounds[k], next, R6, R3, BPF_JGT);
    }
  }

  method PatchMatches(prog: Program, alts: seq<seq<byte>>, matches: seq<nat>, success: nat)
    requires Accepted(alts) && |matches| == |alts| && success == Start(alts, |alts|) + 2
    requires forall k :: 0 <= k < |alts| ==> matches[k] == Start(alts, k) + 3 + 2 * |alts[k]|
    requires prog.insns == Laid(MatchStage(alts, 0))
    modifies prog
    ensures prog.insns == AltProgram(alts)
  {
    hide Assembler.New;
    hide Laid;
    hide MatchStage;
    hide AltProgram;
    hide Accepted;
    hide JumpOffset;
    hide Start;
    StagesMeet(alts);
    for k := 0 to |matches|
      invariant prog.insns == Laid(MatchStage(alts, k))
    {
      MatchStep(alts, k, matches[k], success);
      prog.PatchMatchJump(matches[k], success);
    }
  }

  method CompileAlternation(alts: seq<seq<byte>>) returns (r: Result<seq<BpfInsn>>)
    ensures r.Ok? <==> EstimateAlternationInstructions(alts) <= 4096
    ensures r.Err? ==> r.error == PatternTooLong(EstimateAlternationInstructions(alts), 4096)
    ensures r.Ok? ==> |r.value| == EstimateAlternationInstructions(alts)
    ensures r.Ok? ==> r.value == CompiledAlternation(alts)
    ensures r.Ok? ==> Alternates(r.value, alts)
  {
    hide Assembler.New;
    hide Alternates;
    hide Block;
    hide Flatten;
    hide MismatchStage;
    if EstimateAlternationInstructions(alts) <= MAX_BPF_INSTRUCTION_LEN {
      CompiledAlternates(alts);
    }
    if alts == [] {
      return Ok([Alu64Imm(BPF_MOV, R0, 0), ExitInsn()]);
    }
    if HasEmpty(alts) {
      return Ok([Alu64Imm(BPF_MOV, R0, 1), ExitInsn()]);
    }
    CostIsStart(alts, 0);
    assert alts[0..] == alts;
    var limit := CompileWithLimit(EstimateAlternationInstructions(alts));
    if limit.Err? {
      return Err(limit.error);
    }
    AllLengths(alts);
    var prog := new Program();
    var starts, bounds, mismatches, matches := EmitBlocks(prog, alts);
    FlattenAt(MismatchStage(alts, 0, 0), alts, 0, 0);
    var fail := |prog.insns|;
    prog.Push(Alu64Imm(BPF_MOV, R0, 0));
    prog.Push(ExitInsn());
    var success := |prog.insns|;
    prog.Push(Alu64Imm(BPF_MOV, R0, 1));
    prog.Push(ExitInsn());
    assert prog.insns == Laid(MismatchStage(alts, 0, 0));
    PatchMismatches(prog, alts, mismatches, starts, fail);
    PatchBounds(prog, alts, bounds, starts, fail);
    PatchMatches(prog, alts, matches, success);
    return Ok(prog.insns);
  }
}
