/** Control flow of the emitted programs: every jump lands on an instruction, every path ends at an exit. */
module Targets {
  import opened Assembler
  import opened Machine
  import opened Limits
  import Literal
  import Alternation
  import CharClass

  predicate IsJump(op: Op) {
    op.Goto? || op.JeqImm? || op.JneImm? || op.JltImm? || op.JleImm? || op.JgtReg?
  }

  /** Whatever instruction `i` does next, it is an instruction of the program. */
  predicate FlowsInside(code: seq<Op>, i: nat)
    requires i < |code|
  {
    var op := code[i];
    && ValidOp(op)
    && (IsJump(op) ==> 0 <= i + 1 + op.off < |code|)
    && (!op.Exit? && !op.Goto? ==> i + 1 < |code|)
  }

  ghost predicate WellTargeted(code: seq<Op>) {
    code != [] && forall i :: 0 <= i < |code| ==> FlowsInside(code, i)
  }

  ghost predicate ForwardFrom(code: seq<Op>, i: nat)
    requires i < |code|
  {
    IsJump(code[i]) ==> code[i].off >= 0
  }

  ghost predicate ForwardOnly(code: seq<Op>) {
    forall i :: 0 <= i < |code| ==> ForwardFrom(code, i)
  }

  // ----- what these give -----

  /** A run of a well-targeted program never leaves the program: the next fault can only be a load. */
  lemma {:induction false} StaysInside(code: seq<Op>, mem: Memory, s: State, n: nat)
    requires WellTargeted(code) && 0 <= s.pc < |code|
    ensures Run(code, mem, s, n).Running? ==> 0 <= Run(code, mem, s, n).s.pc < |code|
    decreases n
  {
    if n > 0 {
      assert FlowsInside(code, s.pc);
      var next := Step(code, mem, s);
      if next.Running? {
        StaysInside(code, mem, next.s, n - 1);
      }
    }
  }

  /** A program whose jumps all go forward ends within as many steps as it has instructions left. */
  lemma {:induction false} ForwardHalts(code: seq<Op>, mem: Memory, s: State)
    requires WellTargeted(code) && ForwardOnly(code) && 0 <= s.pc < |code|
    ensures !Run(code, mem, s, |code| - s.pc).Running?
    decreases |code| - s.pc
  {
    assert FlowsInside(code, s.pc) && ForwardFrom(code, s.pc);
    var next := Step(code, mem, s);
    if next.Running? {
      ForwardHalts(code, mem, next.s);
      var m, n := |code| - next.s.pc, |code| - s.pc - 1;
      EndedStays(code, mem, next.s, m, n);
    }
  }

  lemma {:induction false} EndedStays(code: seq<Op>, mem: Memory, s: State, m: nat, n: nat)
    requires !Run(code, mem, s, m).Running? && m <= n
    ensures Run(code, mem, s, n) == Run(code, mem, s, m)
    decreases n
  {
    hide Step;
    if m > 0 && Step(code, mem, s).Running? {
      EndedStays(code, mem, Step(code, mem, s).s, m - 1, n - 1);
    }
  }

  // ----- the three compilers -----

  lemma LiteralWellTargeted(p: seq<byte>)
    requires |p| <= MAX_BPF_PATTERN_LEN
    ensures WellTargeted(Load(Literal.LiteralProgram(p)))
  {
    var code := Load(Literal.LiteralProgram(p));
    if p != [] {
      hide Decode;
      hide Literal.LiteralProgram;
      hide Literal.Layout;
      Literal.LiteralLayout(p);
      forall i | 0 <= i < |code| ensures FlowsInside(code, i) {
        LiteralFlows(code, p, i);
      }
    }
  }

  lemma LiteralFlows(code: seq<Op>, p: seq<byte>, i: nat)
    requires Literal.Layout(code, p) && i < |code|
    ensures FlowsInside(code, i)
  {
    if 8 <= i < 8 + 2 * |p| {
      var k := (i - 8) / 2;
      var b := p[k];
      assert i == 8 + 2 * k || i == 9 + 2 * k;
    }
  }

  /** The search has exactly one backward jump: the one that closes its loop. */
  lemma OneBackwardJump(code: seq<Op>, p: seq<byte>, i: nat)
    requires Literal.Layout(code, p) && i < |code|
    ensures ForwardFrom(code, i) <==> i != 11 + 2 * |p|
    ensures i == 11 + 2 * |p| ==> IsJump(code[i]) && i + 1 + code[i].off == 3
  {
    var n := |p|;
    if 8 <= i < 8 + 2 * n {
      var k := (i - 8) / 2;
      var b := p[k];
      assert i == 8 + 2 * k || i == 9 + 2 * k;
    }
  }

  lemma ClassWellTargeted(ranges: seq<CharClass.CharRange>)
    requires 4 + 2 * |ranges| <= MAX_BPF_INSTRUCTION_LEN
    ensures WellTargeted(Load(CharClass.ClassProgram(ranges))) && ForwardOnly(Load(CharClass.ClassProgram(ranges)))
  {
    hide Decode;
    hide CharClass.Layout;
    hide CharClass.ClassInsn;
    var code := Load(CharClass.ClassProgram(ranges));
    CharClass.ClassLayout(ranges);
    forall i | 0 <= i < |code| ensures FlowsInside(code, i) && ForwardFrom(code, i) {
      ClassFlows(code, ranges, i);
    }
  }

  lemma ClassFlows(code: seq<Op>, ranges: seq<CharClass.CharRange>, i: nat)
    requires CharClass.Layout(code, ranges) && i < |code|
    ensures FlowsInside(code, i) && ForwardFrom(code, i)
  {
    if i < 2 * |ranges| {
      var k := i / 2;
      var range := ranges[k];
      assert i == 2 * k || i == 2 * k + 1;
    }
  }

  lemma {:induction false} BlockOf(alts: seq<seq<byte>>, n: nat, i: nat) returns (k: nat)
    requires n <= |alts| && i < Alternation.Start(alts, n)
    ensures k < n && Alternation.Start(alts, k) <= i < Alternation.Start(alts, k) + Alternation.BlockSize(alts[k])
  {
    if i >= Alternation.Start(alts, n - 1) {
      k := n - 1;
    } else {
      k := BlockOf(alts, n - 1, i);
    }
  }

  lemma BlockFlows(code: seq<Op>, b: nat, alt: seq<byte>, out: i16, x: nat)
    requires Alternation.BlockAt(code, b, alt, out) && x < Alternation.BlockSize(alt)
    requires b + Alternation.BlockSize(alt) < |code| && 0 <= out && b + Alternation.BlockSize(alt) + out < |code|
    ensures FlowsInside(code, b + x) && ForwardFrom(code, b + x)
  {
    if 3 <= x < 3 + 2 * |alt| {
      var k := (x - 3) / 2;
      var c := alt[k];
      assert x == 3 + 2 * k || x == 4 + 2 * k;
    }
  }

  lemma AltBlockFlows(code: seq<Op>, alts: seq<seq<byte>>, k: nat, b: nat, x: nat)
    requires Alternation.Layout(code, alts) && k < |alts|
    requires b == Alternation.Start(alts, k) && x < Alternation.BlockSize(alts[k])
    ensures b + x < |code| && FlowsInside(code, b + x) && ForwardFrom(code, b + x)
  {
    hide Alternation.BlockAt;
    hide Alternation.Accepted;
    hide FlowsInside;
    hide ForwardFrom;
    Alternation.StartMonotone(alts, k + 1, |alts|);
    BlockFlows(code, b, alts[k], Alternation.Out(alts, k), x);
  }

  lemma AltFlowsAt(code: seq<Op>, alts: seq<seq<byte>>, i: nat)
    requires Alternation.Layout(code, alts) && i < |code|
    requires Alternation.TrailerAt(code, Alternation.Start(alts, |alts|))
    ensures FlowsInside(code, i) && ForwardFrom(code, i)
  {
    hide Alternation.Layout;
    hide Alternation.TrailerAt;
    hide Alternation.Start;
    hide FlowsInside;
    hide ForwardFrom;
    if i < Alternation.Start(alts, |alts|) {
      var k := BlockOf(alts, |alts|, i);
      var b := Alternation.Start(alts, k);
      AltBlockFlows(code, alts, k, b, i - b);
    } else {
      TrailerFlows(code, Alternation.Start(alts, |alts|), i);
    }
  }

  lemma AltFlows(code: seq<Op>, alts: seq<seq<byte>>)
    requires Alternation.Layout(code, alts)
    ensures WellTargeted(code) && ForwardOnly(code)
  {
    hide FlowsInside;
    hide ForwardFrom;
    forall i | 0 <= i < |code| ensures FlowsInside(code, i) && ForwardFrom(code, i) {
      AltFlowsAt(code, alts, i);
    }
  }

  lemma TrailerFlows(code: seq<Op>, b: nat, i: nat)
    requires Alternation.TrailerAt(code, b) && b <= i < |code|
    ensures FlowsInside(code, i) && ForwardFrom(code, i)
  {}

  lemma AlternationWellTargeted(alts: seq<seq<byte>>)
    requires EstimateAlternationInstructions(alts) <= MAX_BPF_INSTRUCTION_LEN
    ensures WellTargeted(Load(Alternation.CompiledAlternation(alts)))
    ensures ForwardOnly(Load(Alternation.CompiledAlternation(alts)))
  {
    hide Alternation.AltProgram;
    hide Alternation.Layout;
    if alts == [] || Limits.HasEmpty(alts) {
      ShortcutFlows(if alts == [] then 0 else 1);
    } else {
      Alternation.CostIsStart(alts, 0);
      assert alts[0..] == alts;
      Alternation.AltLayout(alts);
      AltFlows(Load(Alternation.AltProgram(alts)), alts);
    }
  }

  lemma ShortcutFlows(v: i32)
    ensures WellTargeted(Load(Alternation.Shortcut(v))) && ForwardOnly(Load(Alternation.Shortcut(v)))
  {}
}
