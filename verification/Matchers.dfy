/** What the two matchers mean to a caller, when they mean it, and that they agree. */
module Matchers {
  import opened Assembler
  import opened Machine
  import opened Limits
  import Literal
  import opened Alternation

  // ----- alternation without wrap-around -----

  /** Without wrap-around, and with R5 <= R3 where an alternative is empty, a hit is an alternative standing at R5. */
  lemma HitIsStanding(alts: seq<seq<byte>>, mem: Memory, a: Word, end: Word)
    requires !SomeWraps(a, alts) && (HasEmpty(alts) ==> a <= end)
    ensures SomeHit(mem, a, end, alts) <==> SomeStandsAt(mem, a, end, alts)
  {}

  /** Only the bytes in [R5, R3) need be readable. */
  lemma SpanSuffices(alts: seq<seq<byte>>, mem: Memory, a: Word, end: Word)
    requires !SomeWraps(a, alts)
    requires forall x :: a <= x < end ==> x in mem
    ensures AllReadable(mem, a, end, alts)
  {}

  /**
   * The alternation program, run where only [R5, R3) is readable, halts within
   * its own length with R0 telling whether some alternative stands at R5, and
   * no addition wraps.
   */
  lemma AlternationCorrect(alts: seq<seq<byte>>, mem: Memory, r: Registers) returns (n: nat, fin: State)
    requires EstimateAlternationInstructions(alts) <= MAX_BPF_INSTRUCTION_LEN
    requires !SomeWraps(r[5], alts) && (HasEmpty(alts) ==> r[5] <= r[3])
    requires forall x :: r[5] <= x < r[3] ==> x in mem
    ensures HaltsIn(Load(CompiledAlternation(alts)), mem, State(0, r, false), n, fin)
    ensures n <= EstimateAlternationInstructions(alts)
    ensures fin.r[0] == if SomeStandsAt(mem, r[5], r[3], alts) then 1 else 0
    ensures !fin.wrapped
  {
    hide CompiledAlternation;
    hide Machine.HaltsIn;
    hide EstimateAlternationInstructions;
    CompiledAlternates(alts);
    SpanSuffices(alts, mem, r[5], r[3]);
    HitIsStanding(alts, mem, r[5], r[3]);
    assert AlternationRun(CompiledAlternation(alts), alts, mem, r);
    n, fin :|
      && HaltsIn(Load(CompiledAlternation(alts)), mem, State(0, r, false), n, fin)
      && n <= |CompiledAlternation(alts)|
      && fin.r[0] == (if SomeHit(mem, r[5], r[3], alts) then 1 else 0)
      && (fin.wrapped ==> SomeWraps(r[5], alts));
  }

  // ----- exactly when the answer can be trusted -----

  ghost predicate Total(mem: Memory) {
    forall x :: 0 <= x < WORD ==> x in mem
  }

  /** On every memory the program started with R5 = a and R3 = end says whether some alternative stands at a. */
  ghost predicate AlwaysRight(alts: seq<seq<byte>>, a: Word, end: Word)
    requires EstimateAlternationInstructions(alts) <= MAX_BPF_INSTRUCTION_LEN
  {
    forall mem: Memory, r: Registers :: Total(mem) && r[5] == a && r[3] == end ==>
      Answers(CompiledAlternation(alts), mem, r, if SomeStandsAt(mem, a, end, alts) then 1 else 0)
  }

  /** `alt` runs past the top of the address space and its wrapped end passes the bounds test. */
  ghost predicate WrapsUnnoticed(a: Word, end: Word, alt: seq<byte>) {
    a + |alt| >= WORD && a + |alt| - WORD <= end
  }

  ghost predicate PrefixFits(alts: seq<seq<byte>>, a: Word, end: Word, alt: seq<byte>) {
    exists j :: 0 <= j < |alts| && alts[j] <= alt && a + |alts[j]| <= end
  }

  /** What a caller can check: no unguarded wrap, and R5 <= R3 if an alternative is empty. */
  ghost predicate Safe(alts: seq<seq<byte>>, a: Word, end: Word) {
    if HasEmpty(alts) then a <= end
    else forall k :: 0 <= k < |alts| && WrapsUnnoticed(a, end, alts[k]) ==> PrefixFits(alts, a, end, alts[k])
  }

  lemma TotalAnswer(alts: seq<seq<byte>>, mem: Memory, r: Registers)
    requires EstimateAlternationInstructions(alts) <= MAX_BPF_INSTRUCTION_LEN && Total(mem)
    ensures Answers(CompiledAlternation(alts), mem, r, if SomeHit(mem, r[5], r[3], alts) then 1 else 0)
  {
    hide CompiledAlternation;
    hide Machine.HaltsIn;
    hide EstimateAlternationInstructions;
    CompiledAlternates(alts);
    assert AllReadable(mem, r[5], r[3], alts);
    assert AlternationRun(CompiledAlternation(alts), alts, mem, r);
  }

  /** Under Safe a hit is always backed by an alternative that really stands there. */
  lemma SafeHits(alts: seq<seq<byte>>, mem: Memory, a: Word, end: Word)
    requires Safe(alts, a, end)
    requires !HasEmpty(alts) ==> forall k :: 0 <= k < |alts| ==> |alts[k]| < WORD
    ensures SomeHit(mem, a, end, alts) <==> SomeStandsAt(mem, a, end, alts)
  {}

  /** A memory that spells `alt` from `a` on, around the top of the address space. */
  ghost function Spelling(a: Word, alt: seq<byte>): (mem: Memory)
    ensures Total(mem)
  {
    map x {:trigger Wrap(x - a)} | 0 <= x < WORD :: if Wrap(x - a) < |alt| then alt[Wrap(x - a)] else 0
  }

  lemma SpellingAt(a: Word, alt: seq<byte>, i: nat)
    requires i < |alt| < WORD
    ensures Spelling(a, alt)[Cell(a, i)] == alt[i]
  {
    assert Wrap(Cell(a, i) - a) == i;
  }

  lemma StandingIsPrefix(mem: Memory, a: Word, end: Word, alt: seq<byte>, pre: seq<byte>)
    requires a + |alt| >= WORD && StandsAt(mem, a, end, pre)
    requires forall i :: 0 <= i < |alt| ==> ByteAt(mem, Cell(a, i), alt[i])
    ensures pre <= alt
  {}

  lemma UnsafeFails(alts: seq<seq<byte>>, a: Word, end: Word) returns (mem: Memory)
    requires !Safe(alts, a, end)
    requires !HasEmpty(alts) ==> forall k :: 0 <= k < |alts| ==> |alts[k]| < WORD
    ensures Total(mem) && SomeHit(mem, a, end, alts) && !SomeStandsAt(mem, a, end, alts)
  {
    if HasEmpty(alts) {
      mem := Spelling(a, []);
      var e :| 0 <= e < |alts| && alts[e] == [];
      assert Hit(mem, a, end, alts[e]);
    } else {
      var k :| 0 <= k < |alts| && WrapsUnnoticed(a, end, alts[k]) && !PrefixFits(alts, a, end, alts[k]);
      var alt := alts[k];
      mem := Spelling(a, alt);
      forall i | 0 <= i < |alt| ensures ByteAt(mem, Cell(a, i), alt[i]) {
        SpellingAt(a, alt, i);
      }
      assert Hit(mem, a, end, alt);
      forall j | 0 <= j < |alts| ensures !StandsAt(mem, a, end, alts[j]) {
        if StandsAt(mem, a, end, alts[j]) {
          StandingIsPrefix(mem, a, end, alt, alts[j]);
        }
      }
    }
  }

  lemma AcceptedLengths(alts: seq<seq<byte>>)
    requires !HasEmpty(alts) && EstimateAlternationInstructions(alts) <= MAX_BPF_INSTRUCTION_LEN
    ensures forall k :: 0 <= k < |alts| ==> |alts[k]| < 0x2000
  {
    if alts != [] {
      CostIsStart(alts, 0);
      assert alts[0..] == alts;
      forall k | 0 <= k < |alts| ensures |alts[k]| < 0x2000 {
        AltLengths(alts, k);
      }
    }
  }

  /** The program is right on every memory if and only if the caller's check succeeds. */
  lemma RightIffSafe(alts: seq<seq<byte>>, a: Word, end: Word)
    requires EstimateAlternationInstructions(alts) <= MAX_BPF_INSTRUCTION_LEN
    ensures AlwaysRight(alts, a, end) <==> Safe(alts, a, end)
  {
    hide CompiledAlternation;
    hide Machine.Answers;
    hide EstimateAlternationInstructions;
    hide Safe;
    hide SomeHit;
    hide SomeStandsAt;
    if !HasEmpty(alts) {
      AcceptedLengths(alts);
    }
    if Safe(alts, a, end) {
      forall mem: Memory, r: Registers | Total(mem) && r[5] == a && r[3] == end
        ensures Answers(CompiledAlternation(alts), mem, r, if SomeStandsAt(mem, a, end, alts) then 1 else 0)
      {
        SafeHits(alts, mem, a, end);
        TotalAnswer(alts, mem, r);
      }
    } else {
      var mem := UnsafeFails(alts, a, end);
      var r: Registers := [0, 0, 0, end, 0, a, 0, 0, 0, 0, 0];
      TotalAnswer(alts, mem, r);
      if AlwaysRight(alts, a, end) {
        assert Answers(CompiledAlternation(alts), mem, r, 0);
        AnswerIsUnique(CompiledAlternation(alts), mem, r, 0, 1);
      }
    }
  }

  /** Two failing calls: an alternative past the top of the address space, and an empty one with R5 > R3. */
  lemma WrongAnswers()
    ensures EstimateAlternationInstructions([[7, 7]]) <= MAX_BPF_INSTRUCTION_LEN && !AlwaysRight([[7, 7]], WORD - 1, 5)
    ensures EstimateAlternationInstructions([[]]) <= MAX_BPF_INSTRUCTION_LEN && !AlwaysRight([[]], 1, 0)
  {
    hide AlwaysRight;
    var wraps: seq<seq<byte>>, empty: seq<seq<byte>> := [[7, 7]], [[]];
    assert !HasEmpty(wraps) && wraps[1..] == [];
    assert AlternativesCost(wraps) == 8;
    assert WrapsUnnoticed(WORD - 1, 5, wraps[0]);
    RightIffSafe(wraps, WORD - 1, 5);
    assert empty[0] == [];
    RightIffSafe(empty, 1, 0);
  }

  // ----- the two matchers agree -----

  lemma LiteralAnswer(p: seq<byte>, mem: Memory, r: Registers)
    requires 0 < |p| <= MAX_BPF_PATTERN_LEN && Literal.PacketInput(mem, r)
    ensures Answers(Literal.LiteralProgram(p), mem, r, if Literal.Occurs(p, Literal.Packet(mem, r)) then 1 else 0)
  {
    hide Literal.LiteralProgram;
    hide Machine.HaltsIn;
    var k, fin := Literal.LiteralRun(p, mem, r);
  }

  lemma AnchoredAnswer(p: seq<byte>, mem: Memory, r: Registers, i: nat)
    requires 0 < |p| <= MAX_BPF_PATTERN_LEN && Literal.PacketInput(mem, r) && i <= |Literal.Packet(mem, r)|
    ensures EstimateAlternationInstructions([p]) <= MAX_BPF_INSTRUCTION_LEN
    ensures Answers(CompiledAlternation([p]), mem, Anchored(mem, r, i),
                    if Literal.OccursAt(p, Literal.Packet(mem, r), i) then 1 else 0)
  {
    hide CompiledAlternation;
    hide Machine.HaltsIn;
    hide StandsAt;
    hide Literal.OccursAt;
    assert !HasEmpty([p]);
    assert [p][1..] == [];
    assert AlternativesCost([p]) == 4 + |p| * 2;
    var r' := Anchored(mem, r, i);
    var n, fin := AlternationCorrect([p], mem, r');
    assert SomeStandsAt(mem, r'[5], r'[3], [p]) <==> StandsAt(mem, r'[5], r'[3], [p][0]);
    OccursWhereItStands(p, mem, ReadWord(mem, Address(r[1], 0)), ReadWord(mem, Address(r[1], 4)), i);
  }

  lemma OccursWhereItStands(p: seq<byte>, mem: Memory, data: Word, end: Word, i: nat)
    requires 0 < |p| && (forall a :: data <= a < end ==> a in mem) && i <= |Literal.Buffer(mem, data, end)|
    ensures data + i < WORD && (Literal.OccursAt(p, Literal.Buffer(mem, data, end), i) <==> StandsAt(mem, data + i, end, p))
  {
    var buf := Literal.Buffer(mem, data, end);
    if Literal.OccursAt(p, buf, i) {
      forall j | 0 <= j < |p| ensures ByteAt(mem, data + i + j, p[j]) {
        assert buf[i + j] == mem[data + (i + j)];
      }
    }
    if StandsAt(mem, data + i, end, p) {
      forall j | 0 <= j < |p| ensures buf[i + j] == p[j] {
        assert ByteAt(mem, data + i + j, p[j]);
        assert buf[i + j] == mem[data + (i + j)];
      }
    }
  }

  /** The registers of an alternation run at packet offset `i`. */
  ghost function Anchored(mem: Memory, r: Registers, i: nat): Registers
    requires Literal.PacketInput(mem, r) && i <= |Literal.Packet(mem, r)|
  {
    r[5 := ReadWord(mem, Address(r[1], 0)) + i][3 := ReadWord(mem, Address(r[1], 4))]
  }

  /** The search answers 1 exactly when the one-alternative matcher answers 1 at some offset of the packet. */
  lemma MatchersAgree(p: seq<byte>, mem: Memory, r: Registers)
    requires 0 < |p| <= MAX_BPF_PATTERN_LEN && Literal.PacketInput(mem, r)
    ensures EstimateAlternationInstructions([p]) <= MAX_BPF_INSTRUCTION_LEN
    ensures Answers(Literal.LiteralProgram(p), mem, r, 1) <==>
            exists i :: 0 <= i <= |Literal.Packet(mem, r)| && Answers(CompiledAlternation([p]), mem, Anchored(mem, r, i), 1)
  {
    hide CompiledAlternation;
    hide Literal.LiteralProgram;
    hide Machine.Answers;
    hide Literal.OccursAt;
    hide Literal.Packet;
    hide EstimateAlternationInstructions;
    var buf := Literal.Packet(mem, r);
    LiteralAnswer(p, mem, r);
    AnchoredAnswer(p, mem, r, 0);
    forall i | 0 <= i <= |buf|
      ensures Answers(CompiledAlternation([p]), mem, Anchored(mem, r, i), 1) <==> Literal.OccursAt(p, buf, i)
    {
      AnchoredAnswer(p, mem, r, i);
      if Answers(CompiledAlternation([p]), mem, Anchored(mem, r, i), 1) && !Literal.OccursAt(p, buf, i) {
        AnswerIsUnique(CompiledAlternation([p]), mem, Anchored(mem, r, i), 0, 1);
      }
    }
    if Answers(Literal.LiteralProgram(p), mem, r, 1) && !Literal.Occurs(p, buf) {
      AnswerIsUnique(Literal.LiteralProgram(p), mem, r, 0, 1);
    }
    OccursInside(p, buf);
  }

  lemma OccursInside(p: seq<byte>, buf: seq<byte>)
    ensures Literal.Occurs(p, buf) <==> exists i: nat :: i <= |buf| && Literal.OccursAt(p, buf, i)
  {}
}
