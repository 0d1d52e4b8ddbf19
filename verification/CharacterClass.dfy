/** Character classes end to end: from class text to running code (src/compiler/codegen.rs, `compile_character_class`). */
module CharacterClass {
  import opened Assembler
  import opened Machine
  import opened Limits
  import opened ClassSyntax
  import opened Utf8
  import CharClass

  // ----- the compiler -----

  function ToCharRange(p: PatternRange): CharClass.CharRange {
    match p
    case Single(b) => CharClass.CharRange(b, b)
    case Span(lo, hi) => CharClass.CharRange(lo, hi)
  }

  function ToCharRanges(ps: seq<PatternRange>): (ranges: seq<CharClass.CharRange>)
    ensures |ranges| == |ps|
  {
    seq(|ps|, k requires 0 <= k < |ps| => ToCharRange(ps[k]))
  }

  /** The value `v` is in the class that the text denotes. */
  ghost predicate Denotes(text: seq<byte>, v: int) {
    Tokens(text, 0).Ok? && DenotedFrom(Tokens(text, 0).value, 0, v)
  }

  predicate Compilable(text: seq<byte>) {
    text == [] || (Parse(text).Ok? && |Parse(text).value| <= 2046)
  }

  ghost predicate TextRun(program: seq<BpfInsn>, text: seq<byte>, mem: Memory, r: Registers) {
    exists n: nat, fin: State ::
      && HaltsIn(Load(program), mem, State(0, r, false), n, fin)
      && n <= |program|
      && fin.r[0] == (if Denotes(text, r[7]) then 1 else 0)
  }

  /** For every 64-bit R7, and reading no memory, the program halts within its own length with R0 = R7 in the class. */
  ghost predicate ClassifiesText(program: seq<BpfInsn>, text: seq<byte>) {
    forall mem: Memory, r: Registers :: TextRun(program, text, mem, r)
  }

  lemma RangesAgree(ps: seq<PatternRange>, v: int)
    ensures CharClass.InRanges(ToCharRanges(ps), v) <==> SomeRangeHas(ps, v)
  {
    if SomeRangeHas(ps, v) {
      var k :| 0 <= k < |ps| && RangeHas(ps[k], v);
      assert ToCharRanges(ps)[k].lo <= v <= ToCharRanges(ps)[k].hi;
    }
    if CharClass.InRanges(ToCharRanges(ps), v) {
      var k :| 0 <= k < |ps| && ToCharRanges(ps)[k].lo <= v <= ToCharRanges(ps)[k].hi;
      assert RangeHas(ps[k], v);
    }
  }

  lemma ClassToText(program: seq<BpfInsn>, text: seq<byte>)
    requires Parse(text).Ok? && CharClass.Classifies(program, ToCharRanges(Parse(text).value))
    ensures ClassifiesText(program, text)
  {
    hide Machine.HaltsIn;
    hide CharClass.InRanges;
    hide Denotes;
    var ps := Parse(text).value;
    forall mem: Memory, r: Registers ensures TextRun(program, text, mem, r) {
      assert CharClass.ClassRun(program, ToCharRanges(ps), mem, r);
      MeaningKept(text, r[7]);
    }
  }

  lemma MeaningKept(text: seq<byte>, v: int)
    requires Parse(text).Ok?
    ensures CharClass.InRanges(ToCharRanges(Parse(text).value), v) <==> Denotes(text, v)
  {
    ParseFacts(text);
    RangesAgree(Parse(text).value, v);
  }

  lemma EmptyClass()
    ensures ClassifiesText([Alu64Imm(BPF_MOV, R0, 0), ExitInsn()], [])
  {
    var program := [Alu64Imm(BPF_MOV, R0, 0), ExitInsn()];
    var code := Load(program);
    assert code[0] == MovImm(0, 0) && code[1] == Exit;
    forall mem: Memory, r: Registers ensures TextRun(program, [], mem, r) {
      var fin := State(1, r[0 := 0], false);
      assert HaltsIn(code, mem, State(0, r, false), 2, fin);
    }
  }

  method CompileCharacterClass(text: seq<byte>) returns (r: Result<seq<BpfInsn>>)
    ensures r.Ok? <==> Compilable(text)
    ensures r.Err? ==> r.error == (if Parse(text).Err? then Parse(text).error
                                   else PatternTooLong(4 + 2 * |Parse(text).value|, 4096))
    ensures r.Ok? ==> ClassifiesText(r.value, text)
    ensures |text| <= 1023 && Parse(text).Ok? ==> r.Ok?
  {
    hide ClassifiesText;
    hide CharClass.Classifies;
    if text == [] {
      EmptyClass();
      return Ok([Alu64Imm(BPF_MOV, R0, 0), ExitInsn()]);
    }
    var parsed := ParseCharacterClass(text);
    if parsed.Err? {
      return Err(parsed.error);
    }
    var ranges := ToCharRanges(parsed.value);
    r := CharClass.CompileCharClass(ranges);
    if r.Ok? {
      ClassToText(r.value, text);
    }
  }

  // ----- what small texts accept -----

  /** The text compiles, to a program that accepts exactly the values in `values`. */
  ghost predicate Accepts(text: seq<byte>, values: set<int>) {
    Compilable(text) && forall v :: Denotes(text, v) <==> v in values
  }

  /** The text is one literal byte: it accepts that byte alone and may be the side of a range. */
  ghost predicate IsLiteral(text: seq<byte>, b: byte) {
    Tokens(text, 0) == Ok([Byte(b)]) && Accepts(text, {b})
  }

  /** The text is a set of bytes that cannot be the side of a range. */
  ghost predicate IsSet(text: seq<byte>, values: set<int>) {
    Tokens(text, 0).Ok? && |Tokens(text, 0).value| == 1 && Tokens(text, 0).value[0].Class? && Accepts(text, values)
  }

  ghost predicate Rejects(text: seq<byte>, reason: Reason) {
    !Compilable(text) && Parse(text) == Err(InvalidPattern(reason))
  }

  lemma OneToken(text: seq<byte>, t: Token)
    requires !Refused(text) && Tokens(text, 0) == Ok([t])
    ensures Parse(text) == Ok(TokenRanges(t))
    ensures forall v :: Denotes(text, v) <==> SomeRangeHas(TokenRanges(t), v)
  {
    var ts := [t];
    PrependNothing(Ranges(ts, 1), TokenRanges(t));
    forall v ensures Denotes(text, v) <==> SomeRangeHas(TokenRanges(t), v) {
      RangesDenote(ts, 0, v);
    }
  }

  /** An ASCII byte and any other byte are never refused. */
  lemma PairNotRefused(a: byte, b: byte)
    requires a < 0x80
    ensures !Refused([a, b])
  {
    assert [a, b][1..] == [b];
    if b >= 0x80 {
      assert !ValidUtf8([b]) && CharLength([a, b]) == 1;
    }
  }

  lemma LiteralText(text: seq<byte>, b: byte)
    requires !Refused(text) && Tokens(text, 0) == Ok([Byte(b)])
    ensures IsLiteral(text, b)
  {
    OneToken(text, Byte(b));
    assert forall v :: SomeRangeHas([Single(b)], v) <==> RangeHas([Single(b)][0], v);
  }

  lemma EscapeTokens(c: byte)
    ensures !Refused([0x5C, c])
    ensures Tokens([0x5C, c], 0) == match Escape(c) case Ok(t) => Ok([t]) case Err(e) => Err(e)
  {
    PairNotRefused(0x5C, c);
    if Escape(c).Ok? {
      PrependNothing(Tokens([0x5C, c], 2), [Escape(c).value]);
    }
  }

  /** A backslash and n, r, t, or one of five marks is one literal byte. */
  lemma EscapedLiterals()
    ensures IsLiteral([0x5C, 0x6E], 0x0A) && IsLiteral([0x5C, 0x72], 0x0D) && IsLiteral([0x5C, 0x74], 0x09)
    ensures forall c: byte :: c in {0x5C, 0x5D, 0x5B, 0x2D, 0x2E} ==> IsLiteral([0x5C, c], c)
  {
    hide IsLiteral;
    EscapeTokens(0x6E);
    LiteralText([0x5C, 0x6E], 0x0A);
    EscapeTokens(0x72);
    LiteralText([0x5C, 0x72], 0x0D);
    EscapeTokens(0x74);
    LiteralText([0x5C, 0x74], 0x09);
    forall c: byte | c in {0x5C, 0x5D, 0x5B, 0x2D, 0x2E} ensures IsLiteral([0x5C, c], c) {
      EscapeTokens(c);
      LiteralText([0x5C, c], c);
    }
  }

  lemma SetText(c: byte, values: set<int>)
    requires Escape(c).Ok? && Escape(c).value.Class? && |Escape(c).value.ranges| <= 4
    requires forall v :: SomeRangeHas(Escape(c).value.ranges, v) <==> v in values
    ensures IsSet([0x5C, c], values)
  {
    EscapeTokens(c);
    OneToken([0x5C, c], Escape(c).value);
  }

  ghost function Interval(lo: int, hi: int): (values: set<int>)
    ensures forall v :: v in values <==> lo <= v <= hi
    decreases hi - lo
  {
    if lo > hi then {} else Interval(lo, hi - 1) + {hi}
  }

  lemma DigitSet()
    ensures IsSet([0x5C, 0x64], Interval(0x30, 0x39))
  {
    hide IsSet;
    hide Interval;
    forall v ensures SomeRangeHas(DIGITS, v) <==> v in Interval(0x30, 0x39) {
      assert RangeHas(DIGITS[0], v) <==> 0x30 <= v <= 0x39;
    }
    SetText(0x64, Interval(0x30, 0x39));
  }

  lemma SpaceSet()
    ensures IsSet([0x5C, 0x73], Interval(0x09, 0x0D) + {0x20})
  {
    hide IsSet;
    hide Interval;
    forall v ensures SomeRangeHas(SPACES, v) <==> v in Interval(0x09, 0x0D) + {0x20} {
      assert RangeHas(SPACES[0], v) <==> 0x09 <= v <= 0x0D;
      assert RangeHas(SPACES[1], v) <==> v == 0x20;
    }
    SetText(0x73, Interval(0x09, 0x0D) + {0x20});
  }

  lemma WordSet()
    ensures IsSet([0x5C, 0x77], Interval(0x61, 0x7A) + Interval(0x41, 0x5A) + Interval(0x30, 0x39) + {0x5F})
  {
    hide IsSet;
    hide Interval;
    var words := Interval(0x61, 0x7A) + Interval(0x41, 0x5A) + Interval(0x30, 0x39) + {0x5F};
    forall v ensures SomeRangeHas(WORDS, v) <==> v in words {
      assert RangeHas(WORDS[0], v) <==> 0x61 <= v <= 0x7A;
      assert RangeHas(WORDS[1], v) <==> 0x41 <= v <= 0x5A;
      assert RangeHas(WORDS[2], v) <==> 0x30 <= v <= 0x39;
      assert RangeHas(WORDS[3], v) <==> v == 0x5F;
    }
    SetText(0x77, words);
  }

  /** A backslash and d, s or w is the set of digits, of white space, of word bytes. */
  lemma EscapedSets()
    ensures IsSet([0x5C, 0x64], Interval(0x30, 0x39))
    ensures IsSet([0x5C, 0x73], Interval(0x09, 0x0D) + {0x20})
    ensures IsSet([0x5C, 0x77], Interval(0x61, 0x7A) + Interval(0x41, 0x5A) + Interval(0x30, 0x39) + {0x5F})
  {
    hide IsSet;
    hide Interval;
    DigitSet();
    SpaceSet();
    WordSet();
  }

  /** A backslash and D, S or W is refused as negated, and before any other byte as unknown. */
  lemma EscapedErrors(c: byte)
    ensures c in {0x44, 0x53, 0x57} ==> Rejects([0x5C, c], NegatedEscape)
    ensures c !in {0x6E, 0x72, 0x74, 0x5C, 0x5D, 0x5B, 0x2D, 0x2E, 0x64, 0x73, 0x77, 0x44, 0x53, 0x57} ==>
              Rejects([0x5C, c], UnknownEscape)
    ensures Rejects([0x5C], UnterminatedEscape)
  {
    EscapeTokens(c);
    assert !HasNonAscii([0x5C]);
  }

  /** Every byte but backslash stands for itself, a lone hyphen included. */
  lemma PlainBytes(b: byte)
    requires b != 0x5C
    ensures Accepts([b], {b}) && (b != 0x2D ==> IsLiteral([b], b))
  {
    assert b >= 0x80 ==> CharLength([b]) == 0;
    var t := if b == 0x2D then Dash else Byte(b);
    PrependNothing(Tokens([b], 1), [t]);
    OneToken([b], t);
    assert forall v :: SomeRangeHas([Single(b)], v) <==> RangeHas([Single(b)][0], v);
  }

  /** Byte, hyphen, byte is the interval between them, or an error if reversed. */
  lemma PlainSpan(lo: byte, hi: byte)
    requires lo !in {0x5C, 0x2D} && hi !in {0x5C, 0x2D}
    ensures if lo <= hi then Accepts([lo, 0x2D, hi], Interval(lo, hi)) else Rejects([lo, 0x2D, hi], ReversedRange)
  {
    var text, ts := [lo, 0x2D, hi], [Byte(lo), Dash, Byte(hi)];
    SpanNotRefused(lo, hi);
    SpanTokens(lo, hi);
    PrependNothing(Ranges(ts, 3), [Span(lo, hi)]);
    if lo <= hi {
      forall v ensures Denotes(text, v) <==> v in Interval(lo, hi) {
        RangesDenote(ts, 0, v);
        assert RangeHas([Span(lo, hi)][0], v) <==> lo <= v <= hi;
      }
    }
  }

  lemma SpanTokens(lo: byte, hi: byte)
    requires lo !in {0x5C, 0x2D} && hi !in {0x5C, 0x2D}
    ensures Tokens([lo, 0x2D, hi], 0) == Ok([Byte(lo), Dash, Byte(hi)])
  {
    var text := [lo, 0x2D, hi];
    PrependNothing(Tokens(text, 3), [Byte(hi)]);
    assert Tokens(text, 2) == Ok([Byte(hi)]);
    assert [Dash] + [Byte(hi)] == [Dash, Byte(hi)];
    assert Tokens(text, 1) == Ok([Dash, Byte(hi)]);
    assert [Byte(lo)] + [Dash, Byte(hi)] == [Byte(lo), Dash, Byte(hi)];
  }

  lemma SpanNotRefused(lo: byte, hi: byte)
    ensures !Refused([lo, 0x2D, hi])
  {
    var text := [lo, 0x2D, hi];
    assert text[1..] == [0x2D, hi];
    PairNotRefused(0x2D, hi);
    if lo >= 0x80 {
      assert CharLength(text) == 0;
    } else if hi >= 0x80 {
      assert [0x2D, hi][1] >= 0x80;
      assert CharLength(text) == 1;
    }
  }

  // ----- spelling a list of ranges as text -----

  function SpellByte(b: byte): seq<byte> {
    if b == BACKSLASH || b == HYPHEN then [BACKSLASH, b] else [b]
  }

  function SpellRange(p: PatternRange): seq<byte> {
    match p
    case Single(b) => SpellByte(b)
    case Span(lo, hi) => SpellByte(lo) + ([HYPHEN] + SpellByte(hi))
  }

  function Spell(ps: seq<PatternRange>): seq<byte> {
    if ps == [] then [] else SpellRange(ps[0]) + Spell(ps[1..])
  }

  ghost function SpelledTokens(ps: seq<PatternRange>): seq<Token> {
    if ps == [] then [] else RangeTokens(ps[0]) + SpelledTokens(ps[1..])
  }

  ghost function RangeTokens(p: PatternRange): seq<Token> {
    match p
    case Single(b) => [Byte(b)]
    case Span(lo, hi) => [Byte(lo), Dash, Byte(hi)]
  }

  /** The tokenizer looks only forward. */
  lemma {:induction false} TokensShift(front: seq<byte>, text: seq<byte>, idx: nat)
    requires idx <= |text|
    ensures Tokens(front + text, |front| + idx) == Tokens(text, idx)
    decreases |text| - idx
  {
    if idx < |text| {
      var n := if text[idx] == BACKSLASH then 2 else 1;
      if idx + n <= |text| {
        TokensShift(front, text, idx + n);
      }
    }
  }

  lemma {:induction false} RangesShift(front: seq<Token>, ts: seq<Token>, idx: nat)
    requires idx <= |ts|
    ensures Ranges(front + ts, |front| + idx) == Ranges(ts, idx)
    decreases |ts| - idx
  {
    if idx < |ts| {
      if TripleAt(ts, idx) {
        RangesShift(front, ts, idx + 3);
      } else {
        RangesShift(front, ts, idx + 1);
      }
    }
  }

  lemma SpelledByteTokens(b: byte, rest: seq<byte>)
    ensures Tokens(SpellByte(b) + rest, 0) == Prepend([Byte(b)], Tokens(rest, 0))
  {
    TokensShift(SpellByte(b), rest, 0);
  }

  lemma DashTokens(rest: seq<byte>)
    ensures Tokens([HYPHEN] + rest, 0) == Prepend([Dash], Tokens(rest, 0))
  {
    TokensShift([HYPHEN], rest, 0);
  }

  lemma SpelledRangeTokens(p: PatternRange, rest: seq<byte>)
    ensures Tokens(SpellRange(p) + rest, 0) == Prepend(RangeTokens(p), Tokens(rest, 0))
  {
    hide Tokens;
    match p {
      case Single(b) =>
        SpelledByteTokens(b, rest);
      case Span(lo, hi) =>
        var right := [HYPHEN] + (SpellByte(hi) + rest);
        SpelledByteTokens(hi, rest);
        DashTokens(SpellByte(hi) + rest);
        SpelledByteTokens(lo, right);
        assert SpellRange(p) + rest == SpellByte(lo) + right;
        PrependTwice([Dash], [Byte(hi)], Tokens(rest, 0));
        PrependTwice([Byte(lo)], [Dash, Byte(hi)], Tokens(rest, 0));
        assert [Dash] + [Byte(hi)] == [Dash, Byte(hi)];
        assert [Byte(lo)] + [Dash, Byte(hi)] == RangeTokens(p);
    }
  }

  lemma {:induction false} SpellTokens(ps: seq<PatternRange>)
    ensures Tokens(Spell(ps), 0) == Ok(SpelledTokens(ps))
  {
    if ps != [] {
      SpellTokens(ps[1..]);
      SpelledRangeTokens(ps[0], Spell(ps[1..]));
    }
  }

  lemma {:induction false} SpelledRanges(ps: seq<PatternRange>)
    requires Ordered(ps)
    ensures Ranges(SpelledTokens(ps), 0) == Ok(ps)
  {
    if ps != [] {
      var rest := SpelledTokens(ps[1..]);
      SpelledRanges(ps[1..]);
      assert rest != [] ==> rest[0].Byte?;
      RangesShift(RangeTokens(ps[0]), rest, 0);
      assert [ps[0]] + ps[1..] == ps;
    }
  }

  /** Parsing the spelling gives back exactly the list, unless the spelling happens to be non-ASCII UTF-8. */
  lemma SpellingRoundTrip(ps: seq<PatternRange>)
    requires Ordered(ps)
    ensures Parse(Spell(ps)) == if Refused(Spell(ps)) then Err(InvalidPattern(NonAsciiCodepoint)) else Ok(ps)
  {
    SpellTokens(ps);
    SpelledRanges(ps);
  }

  predicate AsciiRange(p: PatternRange) {
    match p
    case Single(b) => b < 0x80
    case Span(lo, hi) => lo < 0x80 && hi < 0x80
  }

  lemma {:induction false} AsciiSpelling(ps: seq<PatternRange>)
    requires forall k :: 0 <= k < |ps| ==> AsciiRange(ps[k])
    ensures !HasNonAscii(Spell(ps))
  {
    if ps != [] {
      AsciiSpelling(ps[1..]);
      assert AsciiRange(ps[0]);
      assert forall i :: 0 <= i < |SpellRange(ps[0])| ==> SpellRange(ps[0])[i] < 0x80;
    }
  }

  /** Every list of ordered ASCII ranges has a spelling, and it is never refused. */
  lemma AsciiRoundTrip(ps: seq<PatternRange>)
    requires Ordered(ps) && forall k :: 0 <= k < |ps| ==> AsciiRange(ps[k])
    ensures Parse(Spell(ps)) == Ok(ps)
  {
    AsciiSpelling(ps);
    SpellingRoundTrip(ps);
  }

  /** Some non-ASCII lists have no such luck: two bytes that together form a character. */
  lemma RefusedSpelling()
    ensures Parse(Spell([Single(0xC3), Single(0xA9)])).Err?
  {}

  // ----- 1023 bytes is the best bound -----

  function Words(n: nat): seq<byte> {
    if n == 0 then [] else [BACKSLASH, 0x77] + Words(n - 1)
  }

  ghost function WordTokens(n: nat): seq<Token> {
    if n == 0 then [] else [Class(WORDS)] + WordTokens(n - 1)
  }

  lemma {:induction false} WordsParse(n: nat)
    ensures |Words(n)| == 2 * n && !HasNonAscii(Words(n))
    ensures Tokens(Words(n), 0) == Ok(WordTokens(n))
    ensures Ranges(WordTokens(n), 0).Ok? && |Ranges(WordTokens(n), 0).value| == 4 * n
  {
    if n > 0 {
      WordsParse(n - 1);
      TokensShift([BACKSLASH, 0x77], Words(n - 1), 0);
      RangesShift([Class(WORDS)], WordTokens(n - 1), 0);
    }
  }

  /** A class of 1024 bytes may parse and still be too long to compile. */
  lemma BoundIsTight()
    ensures |Words(512)| == 1024 && Parse(Words(512)).Ok? && !Compilable(Words(512))
  {
    WordsParse(512);
  }
}
