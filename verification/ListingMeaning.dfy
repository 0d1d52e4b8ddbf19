/** The listing can be read back: it says which instructions the program has, and running what it says runs the program. */
module ListingMeaning {
  import opened Assembler
  import opened Machine
  import opened Limits
  import opened Emit
  import opened Targets
  import opened Listing
  import opened ListingReader
  import Literal
  import Alternation
  import CharClass

  // ----- numbers -----

  lemma DigitFacts(n: nat)
    requires n < 16
    ensures n < 10 ==> '0' <= Digit(n) <= '9' && Digit(n) as int == '0' as int + n
    ensures HexValue(Digit(n)) == Some(n)
  {}

  lemma {:induction false} DigitsRead(n: nat)
    ensures AllDigits(Digits(n)) && NatOf(Digits(n)) == n
    ensures n > 0 ==> Digits(n)[0] != '0'
    ensures n >= 10 ==> |Digits(n)| > 1
  {
    DigitFacts(n % 10);
    if n >= 10 {
      DigitsRead(n / 10);
      assert Digits(n)[..|Digits(n)| - 1] == Digits(n / 10);
    }
  }

  lemma NatReads(n: nat)
    ensures ReadNat(Digits(n)) == Some(n)
  {
    DigitsRead(n);
  }

  lemma AfterFront(front: string, s: string)
    ensures After(front + s, front) == Some(s)
  {}

  lemma NotAfter(front: string, s: string)
    requires front != [] && s != [] && front[0] != s[0]
    ensures After(s, front) == None
  {}

  lemma IntReads(n: int)
    ensures ReadInt(Decimal(n)) == Some(n)
  {
    hide Digits;
    hide NatOf;
    if n < 0 {
      NatReads(-n);
      AfterFront("-", Digits(-n));
    } else {
      NatReads(n);
      DigitsRead(n);
      NotAfter("-", Digits(n));
    }
  }

  lemma SignedReads(n: int)
    ensures ReadSigned(Signed(n)) == Some(n)
  {
    hide Digits;
    hide NatOf;
    if n < 0 {
      NatReads(-n);
      AfterFront("-", Digits(-n));
      NotAfter("+", "-" + Digits(-n));
    } else {
      NatReads(n);
      AfterFront("+", Digits(n));
    }
  }

  lemma RegReads(n: nat)
    ensures ReadReg("r" + Digits(n)) == Some(n)
  {
    NatReads(n);
    AfterFront("r", Digits(n));
  }

  lemma HexReads(n: nat)
    requires n < 256
    ensures ReadHex2(Hex2(n)) == Some(n)
  {
    DigitFacts(n / 16);
    DigitFacts(n % 16);
  }

  lemma {:induction false} LeadingZero(s: string)
    requires AllDigits(s)
    ensures AllDigits("0" + s) && NatOf("0" + s) == NatOf(s)
    decreases |s|
  {
    var z := "0" + s;
    assert forall i :: 0 < i < |z| ==> z[i] == s[i - 1];
    if |s| > 1 {
      LeadingZero(s[..|s| - 1]);
      assert z[..|z| - 1] == "0" + s[..|s| - 1];
    } else {
      assert z[..1] == "0" && NatOf("0") == 0;
    }
  }

  lemma {:induction false} PadReads(s: string)
    requires AllDigits(s)
    ensures AllDigits(PadTo4(s)) && NatOf(PadTo4(s)) == NatOf(s)
    ensures if |s| < 4 then |PadTo4(s)| == 4 else PadTo4(s) == s
    decreases 4 - |s|
  {
    if |s| < 4 {
      LeadingZero(s);
      PadReads("0" + s);
    }
  }

  lemma IndexReads(n: nat)
    ensures ReadIndex(PadTo4(Digits(n))) == Some(n)
  {
    hide PadTo4;
    hide NatOf;
    DigitsRead(n);
    PadReads(Digits(n));
  }

  // ----- words -----

  predicate Free(s: string, c: char) {
    forall i :: 0 <= i < |s| ==> s[i] != c
  }

  ghost predicate AllFree(words: seq<string>, c: char) {
    forall k :: 0 <= k < |words| ==> Free(words[k], c)
  }

  lemma {:induction false} CutFinds(a: string, c: char, b: string)
    requires Free(a, c)
    ensures Cut(a + [c] + b, c) == Some((a, b))
    decreases |a|
  {
    var s := a + [c] + b;
    if a == [] {
      assert s[1..] == b;
    } else {
      CutFinds(a[1..], c, b);
      assert s[1..] == a[1..] + [c] + b;
      assert a == [a[0]] + a[1..];
    }
  }

  lemma {:induction false} CutMisses(a: string, c: char)
    requires Free(a, c)
    ensures Cut(a, c) == None
    decreases |a|
  {
    if a != [] {
      CutMisses(a[1..], c);
    }
  }

  /** Words come back from a joined text. */
  lemma {:induction false} SplitJoin(words: seq<string>, c: char)
    requires words != [] && AllFree(words, c)
    ensures Split(Join(words, c), c) == words
    decreases |words|
  {
    assert Free(words[0], c);
    if |words| == 1 {
      CutMisses(words[0], c);
    } else {
      CutFinds(words[0], c, Join(words[1..], c));
      SplitJoin(words[1..], c);
    }
  }

  lemma {:induction false} JoinFree(words: seq<string>, sep: char, c: char)
    requires AllFree(words, c) && sep != c
    ensures Free(Join(words, sep), c)
    decreases |words|
  {
    if words != [] {
      assert Free(words[0], c);
      JoinFree(words[1..], sep, c);
    }
  }

  lemma NumberFree(n: int, c: char)
    requires c == ' ' || c == '\n' || c == ':'
    ensures Free(Decimal(n), c) && Free(Signed(n), c)
    ensures n >= 0 ==> Free(Digits(n), c)
  {
    hide Digits;
    hide NatOf;
    DigitsRead(if n < 0 then -n else n);
  }

  // ----- the statement an instruction is listed as -----

  /** What a listing says of an instruction, by its opcode byte. */
  function StatementOf(insn: BpfInsn): Statement {
    var d, s, t := LowNibble(insn.regs), HighNibble(insn.regs), AsI16(insn.off + 1);
    if insn.code == 0x95 then Leave
    else if insn.code == 0x71 then Fetch(d, "u8", s, insn.off)
    else if insn.code == 0x61 then Fetch(d, "u32", s, insn.off)
    else if insn.code == 0xb7 then Update(d, "=", Number(insn.imm))
    else if insn.code == 0xbf then Update(d, "=", Register(s))
    else if insn.code == 0x07 then Update(d, "+=", Number(insn.imm))
    else if insn.code == 0x0f then Update(d, "+=", Register(s))
    else if insn.code == 0x05 then Go(t)
    else if insn.code == 0x15 then GoIf(d, "==", Number(insn.imm), t)
    else if insn.code == 0x55 then GoIf(d, "!=", Number(insn.imm), t)
    else if insn.code == 0x2d then GoIf(d, ">", Register(s), t)
    else if insn.code == 0xa5 then GoIf(d, "<", Number(insn.imm), t)
    else if insn.code == 0xb5 then GoIf(d, "<=", Number(insn.imm), t)
    else Unknown(insn.code as int, d, s, insn.off, insn.imm)
  }

  predicate Speakable(st: Statement) {
    match st
    case Fetch(_, size, _, _) => IsSize(size)
    case Update(_, op, _) => IsAssignment(op)
    case GoIf(_, op, _, _) => IsComparison(op)
    case Unknown(code, _, _, _, _) => code < 256
    case _ => true
  }

  function OperandWord(x: Operand): string {
    match x
    case Register(r) => "r" + Digits(r)
    case Number(n) => Decimal(n)
  }

  /** The words a statement is written with. */
  function Words(st: Statement): seq<string>
    requires Speakable(st)
  {
    match st
    case Fetch(d, size, b, o) => ["r" + Digits(d), "=", "*(" + size, "*)(r" + Digits(b), "+", Decimal(o) + ")"]
    case Update(d, op, x) => ["r" + Digits(d), op, OperandWord(x)]
    case Go(t) => ["goto", Signed(t)]
    case GoIf(l, op, x, t) => ["if", "r" + Digits(l), op, OperandWord(x), "goto", Signed(t)]
    case Leave => ["exit"]
    case Unknown(c, d, s, o, i) =>
      ["code=0x" + Hex2(c), "dst=r" + Digits(d), "src=r" + Digits(s), "off=" + Decimal(o), "imm=" + Decimal(i)]
  }

  lemma OperandReads(x: Operand)
    ensures ReadOperand(OperandWord(x)) == Some(x)
  {
    hide Digits;
    hide NatOf;
    match x
    case Register(r) => RegReads(r);
    case Number(n) =>
      IntReads(n);
      DigitsRead(if n < 0 then -n else n);
      NotAfter("r", Decimal(n));
  }

  lemma FetchReads(d: nat, size: string, b: nat, o: int)
    requires IsSize(size)
    ensures ReadFetch(Words(Fetch(d, size, b, o))) == Some(Fetch(d, size, b, o))
  {
    hide Digits;
    hide Decimal;
    hide ReadReg;
    hide ReadInt;
    RegReads(d);
    RegReads(b);
    IntReads(o);
    AfterFront("*(", size);
    assert "*)(r" + Digits(b) == "*)(" + ("r" + Digits(b));
    AfterFront("*)(", "r" + Digits(b));
    assert (Decimal(o) + ")")[..|Decimal(o)|] == Decimal(o);
  }

  lemma UnknownReads(c: nat, d: nat, s: nat, o: int, i: int)
    requires c < 256
    ensures ReadUnknown(Words(Unknown(c, d, s, o, i))) == Some(Unknown(c, d, s, o, i))
  {
    hide Digits;
    hide Decimal;
    hide Hex2;
    hide ReadReg;
    hide ReadInt;
    hide ReadHex2;
    HexReads(c);
    RegReads(d);
    RegReads(s);
    IntReads(o);
    IntReads(i);
    AfterFront("code=0x", Hex2(c));
    assert "dst=r" + Digits(d) == "dst=" + ("r" + Digits(d));
    AfterFront("dst=", "r" + Digits(d));
    assert "src=r" + Digits(s) == "src=" + ("r" + Digits(s));
    AfterFront("src=", "r" + Digits(s));
    AfterFront("off=", Decimal(o));
    AfterFront("imm=", Decimal(i));
  }

  lemma WordsRead(st: Statement)
    requires Speakable(st)
    ensures ReadWords(Words(st)) == Some(st)
  {
    hide Digits;
    hide Decimal;
    hide Signed;
    hide OperandWord;
    hide ReadReg;
    hide ReadInt;
    hide ReadSigned;
    hide ReadOperand;
    hide ReadFetch;
    hide ReadUnknown;
    match st
    case Fetch(d, size, b, o) =>
      FetchReads(d, size, b, o);
      assert ("r" + Digits(d))[0] != "if"[0];
    case Update(d, op, x) =>
      RegReads(d);
      OperandReads(x);
    case Go(t) => SignedReads(t);
    case GoIf(l, op, x, t) =>
      RegReads(l);
      OperandReads(x);
      SignedReads(t);
    case Leave =>
    case Unknown(c, d, s, o, i) => UnknownReads(c, d, s, o, i);
  }

  lemma OperandFree(x: Operand, c: char)
    requires c == ' ' || c == '\n'
    ensures Free(OperandWord(x), c)
  {
    hide Digits;
    hide Decimal;
    match x
    case Register(r) => NumberFree(r, c);
    case Number(n) => NumberFree(n, c);
  }

  lemma ConcatFree(a: string, b: string, c: char)
    requires Free(a, c) && Free(b, c)
    ensures Free(a + b, c)
  {}

  lemma FetchMarksFree(size: string, c: char)
    requires IsSize(size) && (c == ' ' || c == '\n')
    ensures Free("r", c) && Free("=", c) && Free("*(", c) && Free(size, c) && Free("*)(r", c) && Free("+", c) && Free(")", c)
  {}

  lemma FetchFree(d: nat, size: string, b: nat, o: int, c: char)
    requires IsSize(size) && (c == ' ' || c == '\n')
    ensures AllFree(Words(Fetch(d, size, b, o)), c)
  {
    hide Digits;
    hide Decimal;
    hide Free;
    FetchMarksFree(size, c);
    NumberFree(d, c);
    NumberFree(b, c);
    NumberFree(o, c);
    ConcatFree("r", Digits(d), c);
    ConcatFree("*(", size, c);
    ConcatFree("*)(r", Digits(b), c);
    ConcatFree(Decimal(o), ")", c);
  }

  lemma HexFree(n: nat, c: char)
    requires n < 256 && (c == ' ' || c == '\n')
    ensures Free(Hex2(n), c)
  {
    DigitFacts(n / 16);
    DigitFacts(n % 16);
  }

  lemma FieldNamesFree(c: char)
    requires c == ' ' || c == '\n'
    ensures Free("code=0x", c) && Free("dst=r", c) && Free("src=r", c) && Free("off=", c) && Free("imm=", c)
  {}

  lemma UnknownFree(n: nat, d: nat, s: nat, o: int, i: int, c: char)
    requires n < 256 && (c == ' ' || c == '\n')
    ensures AllFree(Words(Unknown(n, d, s, o, i)), c)
  {
    hide Digits;
    hide Decimal;
    hide Hex2;
    hide Free;
    FieldNamesFree(c);
    HexFree(n, c);
    NumberFree(d, c);
    NumberFree(s, c);
    NumberFree(o, c);
    NumberFree(i, c);
    ConcatFree("code=0x", Hex2(n), c);
    ConcatFree("dst=r", Digits(d), c);
    ConcatFree("src=r", Digits(s), c);
    ConcatFree("off=", Decimal(o), c);
    ConcatFree("imm=", Decimal(i), c);
  }

  lemma WordsFree(st: Statement, c: char)
    requires Speakable(st) && (c == ' ' || c == '\n')
    ensures AllFree(Words(st), c)
  {
    hide Digits;
    hide Decimal;
    hide Signed;
    hide OperandWord;
    match st
    case Fetch(d, size, b, o) => FetchFree(d, size, b, o, c);
    case Update(d, op, x) =>
      NumberFree(d, c);
      OperandFree(x, c);
    case Go(t) => NumberFree(t, c);
    case GoIf(l, op, x, t) =>
      NumberFree(l, c);
      OperandFree(x, c);
      NumberFree(t, c);
    case Leave =>
    case Unknown(n, d, s, o, i) => UnknownFree(n, d, s, o, i, c);
  }

  // ----- the text of an instruction is those words -----

  lemma Join2(a: string, b: string)
    ensures Join([a, b], ' ') == a + " " + b
    ensures Join([a], ' ') == a
  {}

  lemma Join3(a: string, b: string, c: string)
    ensures Join([a, b, c], ' ') == a + " " + b + " " + c
  {
    assert [a, b, c][1..] == [b, c];
    Join2(b, c);
    assert a + " " + (b + " " + c) == a + " " + b + " " + c;
  }

  lemma JoinMore(a: string, b: string, rest: seq<string>)
    requires rest != []
    ensures Join([a, b] + rest, ' ') == a + " " + b + " " + Join(rest, ' ')
  {
    var r := Join(rest, ' ');
    assert ([a, b] + rest)[1..] == [b] + rest;
    assert ([b] + rest)[1..] == rest;
    assert a + " " + (b + " " + r) == a + " " + b + " " + r;
  }

  lemma FetchText(d: string, size: string, s: string, off: string)
    ensures LoadText(d, size, s, off) == Join(["r" + d, "=", "*(" + size, "*)(r" + s, "+", off + ")"], ' ')
  {
    hide Join;
    var w := ["r" + d, "=", "*(" + size, "*)(r" + s, "+", off + ")"];
    var v := ["*(" + size, "*)(r" + s, "+", off + ")"];
    assert w == [w[0], w[1]] + v && v == [v[0], v[1]] + [v[2], v[3]];
    JoinMore(w[0], w[1], v);
    JoinMore(v[0], v[1], [v[2], v[3]]);
    Join2(v[2], v[3]);
    assert " = *(" == " " + "=" + " " + "*(";
    assert " *)(r" == " " + "*)(r";
    assert " + " == " " + "+" + " ";
  }

  lemma GoIfText(d: string, op: string, x: string, off: string)
    ensures JumpText(d, op, x, off) == Join(["if", "r" + d, op, x, "goto", off], ' ')
  {
    hide Join;
    var w := ["if", "r" + d, op, x, "goto", off];
    assert w == ["if", "r" + d] + [op, x, "goto", off] && [op, x, "goto", off] == [op, x] + ["goto", off];
    JoinMore("if", "r" + d, [op, x, "goto", off]);
    JoinMore(op, x, ["goto", off]);
    Join2("goto", off);
    assert "if r" == "if" + " " + "r";
    assert " goto " == " " + "goto" + " ";
  }

  lemma UnknownTextJoins(code: string, d: string, s: string, off: string, imm: string)
    ensures UnknownText(code, d, s, off, imm)
         == Join(["code=0x" + code, "dst=r" + d, "src=r" + s, "off=" + off, "imm=" + imm], ' ')
  {
    hide Join;
    var w := ["code=0x" + code, "dst=r" + d, "src=r" + s, "off=" + off, "imm=" + imm];
    assert w == [w[0], w[1]] + [w[2], w[3], w[4]];
    JoinMore(w[0], w[1], [w[2], w[3], w[4]]);
    Join3(w[2], w[3], w[4]);
    assert " dst=r" == " " + "dst=r";
    assert " src=r" == " " + "src=r";
    assert " off=" == " " + "off=";
    assert " imm=" == " " + "imm=";
  }

  function TextOf(st: Statement): string
    requires Speakable(st)
  {
    match st
    case Fetch(d, size, b, o) => LoadText(Digits(d), size, Digits(b), Decimal(o))
    case Update(d, op, x) => MoveText(Digits(d), op, OperandWord(x))
    case Go(t) => "goto " + Signed(t)
    case GoIf(l, op, x, t) => JumpText(Digits(l), op, OperandWord(x), Signed(t))
    case Leave => "exit"
    case Unknown(c, d, s, o, i) => UnknownText(Hex2(c), Digits(d), Digits(s), Decimal(o), Decimal(i))
  }

  lemma RegisterText(insn: BpfInsn)
    ensures Reg(insn.DstReg()) == Digits(LowNibble(insn.regs)) && Reg(insn.SrcReg()) == Digits(HighNibble(insn.regs))
  {}

  lemma DisplayIsText(insn: BpfInsn)
    requires Speakable(StatementOf(insn))
    ensures Display(insn) == TextOf(StatementOf(insn))
  {
    hide Speakable;
    hide BpfInsn.DstReg;
    hide BpfInsn.SrcReg;
    hide Reg;
    hide LowNibble;
    hide HighNibble;
    hide Digits;
    hide Decimal;
    hide Signed;
    hide AsI16;
    hide Hex2;
    hide LoadText;
    hide MoveText;
    hide JumpText;
    hide UnknownText;
    RegisterText(insn);
  }

  lemma StatementSpeakable(insn: BpfInsn)
    ensures Speakable(StatementOf(insn))
  {
    hide AsI16;
  }

  lemma TextJoins(st: Statement)
    requires Speakable(st)
    ensures TextOf(st) == Join(Words(st), ' ')
  {
    hide Join;
    hide Digits;
    hide Decimal;
    hide Signed;
    hide Hex2;
    hide LoadText;
    hide MoveText;
    hide JumpText;
    hide UnknownText;
    hide OperandWord;
    match st
    case Fetch(d, size, b, o) => FetchText(Digits(d), size, Digits(b), Decimal(o));
    case Update(d, op, x) => MoveTextJoins(Digits(d), op, OperandWord(x));
    case Go(t) => GoText(Signed(t));
    case GoIf(l, op, x, t) => GoIfText(Digits(l), op, OperandWord(x), Signed(t));
    case Leave => GoText("");
    case Unknown(c, d, s, o, i) => UnknownTextJoins(Hex2(c), Digits(d), Digits(s), Decimal(o), Decimal(i));
  }

  lemma MoveTextJoins(d: string, op: string, x: string)
    ensures MoveText(d, op, x) == Join(["r" + d, op, x], ' ')
  {
    Join3("r" + d, op, x);
  }

  lemma GoText(off: string)
    ensures "goto " + off == Join(["goto", off], ' ') && "exit" == Join(["exit"], ' ')
  {}

  /** For every instruction, legal or not: its text reads as its statement, and has no line break. */
  lemma DisplayReads(insn: BpfInsn)
    ensures ReadStatement(Display(insn)) == Some(StatementOf(insn))
    ensures Free(Display(insn), '\n')
  {
    hide Display;
    hide StatementOf;
    hide Words;
    hide ReadWords;
    hide Speakable;
    hide TextOf;
    var st := StatementOf(insn);
    StatementSpeakable(insn);
    DisplayIsText(insn);
    TextJoins(st);
    WordsRead(st);
    HasWords(st);
    WordsFree(st, ' ');
    SplitJoin(Words(st), ' ');
    WordsFree(st, '\n');
    JoinFree(Words(st), ' ', '\n');
  }

  lemma HasWords(st: Statement)
    requires Speakable(st)
    ensures Words(st) != []
  {}

  // ----- whole listings -----

  lemma LineReads(i: nat, insn: BpfInsn)
    ensures ReadLine(Line(i, insn), i) == Some(StatementOf(insn))
    ensures Free(Line(i, insn), '\n')
  {
    hide Display;
    hide StatementOf;
    hide ReadStatement;
    hide PadTo4;
    hide NatOf;
    var number, text := PadTo4(Digits(i)), Display(insn);
    IndexReads(i);
    DisplayReads(insn);
    CutFinds(number, ':', " " + text);
    assert Line(i, insn) == number + ":" + (" " + text);
    AfterFront(" ", text);
  }

  function Statements(program: seq<BpfInsn>): (sts: seq<Statement>)
    ensures |sts| == |program|
  {
    seq(|program|, i requires 0 <= i < |program| => StatementOf(program[i]))
  }

  lemma {:induction false} LinesRead(program: seq<BpfInsn>, i: nat)
    requires i <= |program|
    ensures ReadLines(Lines(program), i) == Some(Statements(program)[i..])
    decreases |program| - i
  {
    hide Line;
    hide ReadLine;
    hide StatementOf;
    if i < |program| {
      LineReads(i, program[i]);
      LinesRead(program, i + 1);
      assert Lines(program)[i] == Line(i, program[i]);
      assert Statements(program)[i..] == [StatementOf(program[i])] + Statements(program)[i + 1..];
    } else {
      assert Statements(program)[i..] == [];
    }
  }

  /** The listing of any program reads as one statement per instruction, in order, numbered from zero. */
  lemma ListingReads(program: seq<BpfInsn>)
    ensures ReadListing(FormatProgram(program)) == Some(Statements(program))
  {
    hide Line;
    hide ReadLine;
    hide StatementOf;
    if program != [] {
      forall i | 0 <= i < |program| ensures Free(Lines(program)[i], '\n') {
        LineReads(i, program[i]);
      }
      SplitJoin(Lines(program), '\n');
      LinesRead(program, 0);
      NotTheEmptyOne(program);
    }
  }

  lemma NotTheEmptyOne(program: seq<BpfInsn>)
    requires program != []
    ensures FormatProgram(program) != "# empty program"
  {
    hide Display;
    hide PadTo4;
    DigitsRead(0);
    PadReads(Digits(0));
    var first := Lines(program)[0];
    assert first == Line(0, program[0]) && first[0] == PadTo4(Digits(0))[0];
    assert FormatProgram(program)[0] == first[0];
  }

  // ----- which instruction a line stands for -----

  /** The fields that the text of the instruction does not show are zero. */
  predicate NothingHidden(insn: BpfInsn) {
    var s := HighNibble(insn.regs);
    if insn.code == 0x95 then insn.regs == 0 && insn.off == 0 && insn.imm == 0
    else if insn.code == 0x71 || insn.code == 0x61 || insn.code == 0x2d then insn.imm == 0
    else if insn.code == 0xb7 || insn.code == 0x07 then s == 0 && insn.off == 0
    else if insn.code == 0xbf || insn.code == 0x0f then insn.off == 0 && insn.imm == 0
    else if insn.code == 0x05 then insn.regs == 0 && insn.imm == 0
    else if insn.code == 0x15 || insn.code == 0x55 || insn.code == 0xa5 || insn.code == 0xb5 then s == 0
    else true
  }

  lemma ByteBack(x: bv8)
    ensures x as int < 256 && ByteOf(x as int) == x
    ensures x < 16 ==> x as int < 16
  {}

  /** The register byte is determined by the two register numbers. */
  lemma RegsFromParts(regs: bv8)
    ensures var d, s := LowNibble(regs), HighNibble(regs);
      d < 16 && s < 16 && RegByte(d, s) == regs && (RegByte(d, 0) == regs <==> s == 0)
    ensures RegByte(0, 0) == 0
  {
    hide ByteOf;
    ByteBack(0);
    ByteBack(regs & 0x0F);
    ByteBack(regs >> 4);
  }

  lemma OffsetBack(off: i16)
    ensures OffsetOf(AsI16(off + 1)) == off
  {}

  lemma AssembleUpdates(d: nat, s: nat, n: int)
    ensures Assemble(Update(d, "=", Number(n))) == Insn(0xb7, d, 0, 0, n)
    ensures Assemble(Update(d, "=", Register(s))) == Insn(0xbf, d, s, 0, 0)
    ensures Assemble(Update(d, "+=", Number(n))) == Insn(0x07, d, 0, 0, n)
    ensures Assemble(Update(d, "+=", Register(s))) == Insn(0x0f, d, s, 0, 0)
  {
    hide Insn;
  }

  lemma AssembleJumps(d: nat, s: nat, n: int, off: i16)
    ensures var t := AsI16(off + 1);
      && Assemble(Go(t)) == Insn(0x05, 0, 0, off, 0)
      && Assemble(GoIf(d, "==", Number(n), t)) == Insn(0x15, d, 0, off, n)
      && Assemble(GoIf(d, "!=", Number(n), t)) == Insn(0x55, d, 0, off, n)
      && Assemble(GoIf(d, ">", Register(s), t)) == Insn(0x2d, d, s, off, 0)
      && Assemble(GoIf(d, "<", Number(n), t)) == Insn(0xa5, d, 0, off, n)
      && Assemble(GoIf(d, "<=", Number(n), t)) == Insn(0xb5, d, 0, off, n)
  {
    hide Insn;
    OffsetBack(off);
  }

  lemma FieldsBack(insn: BpfInsn)
    ensures var (c, d, s, o, i) := (insn.code, LowNibble(insn.regs), HighNibble(insn.regs), insn.off, insn.imm);
      && Insn(c, d, s, o, i) == Some(insn)
      && (Insn(c, d, s, o, 0) == Some(insn) <==> i == 0)
      && (Insn(c, d, s, 0, 0) == Some(insn) <==> o == 0 && i == 0)
      && (Insn(c, d, 0, o, i) == Some(insn) <==> s == 0)
      && (Insn(c, d, 0, 0, i) == Some(insn) <==> s == 0 && o == 0)
      && (Insn(c, 0, 0, o, 0) == Some(insn) <==> insn.regs == 0 && i == 0)
      && (Insn(c, 0, 0, 0, 0) == Some(insn) <==> insn.regs == 0 && o == 0 && i == 0)
  {
    hide RegByte;
    hide LowNibble;
    hide HighNibble;
    RegsFromParts(insn.regs);
  }

  lemma AssembleOthers(d: nat, s: nat, off: int, imm: int, code: bv8)
    ensures Assemble(Leave) == Insn(0x95, 0, 0, 0, 0)
    ensures Assemble(Fetch(d, "u8", s, off)) == Insn(0x71, d, s, off, 0)
    ensures Assemble(Fetch(d, "u32", s, off)) == Insn(0x61, d, s, off, 0)
    ensures Assemble(Unknown(code as int, d, s, off, imm)) == Insn(code, d, s, off, imm)
  {
    hide Insn;
    hide ByteOf;
    ByteBack(code);
  }

  /** A line's text stands for exactly the instruction it was printed from, unless that has a hidden field. */
  lemma AssembleBack(insn: BpfInsn)
    ensures Assemble(StatementOf(insn)) == Some(insn) <==> NothingHidden(insn)
  {
    hide Assemble;
    hide Insn;
    hide AsI16;
    hide LowNibble;
    hide HighNibble;
    var d, s := LowNibble(insn.regs), HighNibble(insn.regs);
    FieldsBack(insn);
    AssembleUpdates(d, s, insn.imm);
    AssembleJumps(d, s, insn.imm, insn.off);
    AssembleOthers(d, s, insn.off, insn.imm, insn.code);
  }

  ghost predicate AllShown(program: seq<BpfInsn>) {
    forall i :: 0 <= i < |program| ==> NothingHidden(program[i])
  }

  /** The instructions read from the listing are the program, line by line, exactly where no field is hidden. */
  lemma ListingAssembles(program: seq<BpfInsn>)
    ensures var read := ReadListing(FormatProgram(program));
      && read.Some? && |read.value| == |program|
      && forall i :: 0 <= i < |program| ==> (Assemble(read.value[i]) == Some(program[i]) <==> NothingHidden(program[i]))
  {
    hide ReadListing;
    hide FormatProgram;
    hide Assemble;
    hide StatementOf;
    hide NothingHidden;
    ListingReads(program);
    forall i | 0 <= i < |program|
      ensures Assemble(Statements(program)[i]) == Some(program[i]) <==> NothingHidden(program[i])
    {
      AssembleBack(program[i]);
    }
  }

  /** Programs without hidden fields that have the same listing are the same program. */
  lemma ListingInjective(p: seq<BpfInsn>, q: seq<BpfInsn>)
    requires AllShown(p) && AllShown(q) && FormatProgram(p) == FormatProgram(q)
    ensures p == q
  {
    hide ReadListing;
    hide FormatProgram;
    hide Assemble;
    hide NothingHidden;
    ListingAssembles(p);
    ListingAssembles(q);
    forall i | 0 <= i < |p| ensures p[i] == q[i] {
      assert Some(p[i]) == Some(q[i]);
    }
  }

  // ----- running what the listing says -----

  /** The machine's outcome, as a reader of the listing sees it. */
  function Seen(status: Status): Outcome {
    match status
    case Running(s) => Next(s.pc, s.r)
    case Exited(s) => Ends(s.r)
    case Faulted => Fails
  }

  /** What a listing says of a decoded instruction. */
  function Say(op: Op): Statement
    requires op != Illegal
  {
    match op
    case LoadByte(d, s, o) => Fetch(d, "u8", s, o)
    case LoadWord(d, s, o) => Fetch(d, "u32", s, o)
    case MovImm(d, n) => Update(d, "=", Number(n))
    case MovReg(d, s) => Update(d, "=", Register(s))
    case AddImm(d, n) => Update(d, "+=", Number(n))
    case AddReg(d, s) => Update(d, "+=", Register(s))
    case Goto(o) => Go(AsI16(o + 1))
    case JeqImm(d, n, o) => GoIf(d, "==", Number(n), AsI16(o + 1))
    case JneImm(d, n, o) => GoIf(d, "!=", Number(n), AsI16(o + 1))
    case JltImm(d, n, o) => GoIf(d, "<", Number(n), AsI16(o + 1))
    case JleImm(d, n, o) => GoIf(d, "<=", Number(n), AsI16(o + 1))
    case JgtReg(d, s, o) => GoIf(d, ">", Register(s), AsI16(o + 1))
    case Exit => Leave
  }

  lemma LegalHidesNothing(insn: BpfInsn)
    requires Decode(insn) != Illegal
    ensures NothingHidden(insn)
  {
    hide LowNibble;
    hide HighNibble;
  }

  lemma StatementOfLegal(insn: BpfInsn)
    requires Decode(insn) != Illegal
    ensures StatementOf(insn) == Say(Decode(insn))
  {
    hide AsI16;
    hide LowNibble;
    hide HighNibble;
  }

  lemma WrapNear(a: Word, k: nat)
    requires k <= 3
    ensures Wrap(a + k) == if a + k < WORD then a + k else a + k - WORD
  {}

  lemma WrapNext(a: Word, k: nat)
    requires k <= 2
    ensures Wrap(Wrap(a + k) + 1) == Wrap(a + k + 1)
  {
    WrapNear(a, k);
    WrapNear(a, k + 1);
    WrapNear(Wrap(a + k), 1);
  }

  lemma WordIsLittleEndian(mem: Memory, a: Word)
    ensures LittleEndian(mem, a, 1) == if a in mem then Some(mem[a] as int) else None
    ensures LittleEndian(mem, a, 4) == if WordReadable(mem, a) then Some(ReadWord(mem, a) as int) else None
  {
    hide Wrap;
    var b, c, d := Wrap(a + 1), Wrap(a + 2), Wrap(a + 3);
    WrapNext(a, 1);
    WrapNext(a, 2);
    assert forall x: Word :: LittleEndian(mem, x, 0) == Some(0);
    assert LittleEndian(mem, d, 1) == if d in mem then Some(mem[d] as int) else None;
    assert LittleEndian(mem, c, 2)
        == if c in mem && d in mem then Some(mem[c] as int + 0x100 * mem[d] as int) else None;
  }

  lemma PrintedTarget(pc: int, off: i16)
    ensures pc + AsI16(off + 1) == pc + 1 + off <==> off != 0x7FFF
  {}

  predicate Printable(op: Op) {
    op != Illegal && (IsJump(op) ==> op.off != 0x7FFF)
  }

  lemma WrapWord(v: Word)
    ensures Wrap(v) == v
  {}

  lemma FetchRuns(code: seq<Op>, mem: Memory, s: State)
    requires 0 <= s.pc < |code| && ValidOp(code[s.pc]) && (code[s.pc].LoadByte? || code[s.pc].LoadWord?)
    ensures Execute(Say(code[s.pc]), mem, s.pc, s.r) == Seen(Step(code, mem, s))
  {
    hide LittleEndian;
    hide ReadWord;
    hide WordReadable;
    hide Wrap;
    var op := code[s.pc];
    var a := Address(s.r[op.src], op.off);
    WordIsLittleEndian(mem, a);
    if a in mem {
      WrapWord(mem[a]);
    }
    if WordReadable(mem, a) {
      WrapWord(ReadWord(mem, a));
    }
  }

  lemma HoldsMeans(x: Word, y: Word)
    ensures Holds(x, "==", y) <==> x == y
    ensures Holds(x, "!=", y) <==> x != y
    ensures Holds(x, "<", y) <==> x < y
    ensures Holds(x, "<=", y) <==> x <= y
    ensures Holds(x, ">", y) <==> x > y
  {}

  lemma ImmediateValue(imm: i32)
    ensures Wrap(imm) == SignExtend(imm)
  {}

  lemma GoIfRuns(code: seq<Op>, mem: Memory, s: State)
    requires 0 <= s.pc < |code| && ValidOp(code[s.pc]) && IsJump(code[s.pc]) && Printable(code[s.pc])
    ensures Execute(Say(code[s.pc]), mem, s.pc, s.r) == Seen(Step(code, mem, s))
  {
    hide AsI16;
    hide Holds;
    hide Wrap;
    hide SignExtend;
    var op := code[s.pc];
    PrintedTarget(s.pc, op.off);
    if op.JgtReg? {
      HoldsMeans(s.r[op.dst], s.r[op.src]);
    } else if !op.Goto? {
      ImmediateValue(op.imm);
      HoldsMeans(s.r[op.dst], Wrap(op.imm));
    }
  }

  lemma UpdateRuns(code: seq<Op>, mem: Memory, s: State)
    requires 0 <= s.pc < |code| && ValidOp(code[s.pc])
    requires var op := code[s.pc]; op.MovImm? || op.MovReg? || op.AddImm? || op.AddReg? || op.Exit?
    ensures Execute(Say(code[s.pc]), mem, s.pc, s.r) == Seen(Step(code, mem, s))
  {}

  /** The words mean what the instruction does. */
  lemma SayRuns(code: seq<Op>, mem: Memory, s: State)
    requires 0 <= s.pc < |code| && ValidOp(code[s.pc]) && Printable(code[s.pc])
    ensures Execute(Say(code[s.pc]), mem, s.pc, s.r) == Seen(Step(code, mem, s))
  {
    hide Execute;
    hide Step;
    hide Say;
    var op := code[s.pc];
    if op.LoadByte? || op.LoadWord? {
      FetchRuns(code, mem, s);
    } else if IsJump(op) {
      GoIfRuns(code, mem, s);
    } else {
      UpdateRuns(code, mem, s);
    }
  }

  ghost predicate AllPrintable(program: seq<BpfInsn>) {
    forall i :: 0 <= i < |program| ==> Printable(Decode(program[i]))
  }

  lemma DecodedValid(insn: BpfInsn)
    ensures ValidOp(Decode(insn)) <==> Decode(insn) != Illegal
  {
    hide LowNibble;
    hide HighNibble;
  }

  lemma {:induction false} StatementsRun(program: seq<BpfInsn>, mem: Memory, s: State, n: nat)
    requires AllPrintable(program)
    ensures ExecuteAll(Statements(program), mem, s.pc, s.r, n) == Seen(Run(Load(program), mem, s, n))
    decreases n
  {
    hide Decode;
    hide StatementOf;
    hide Say;
    hide Execute;
    if n > 0 && 0 <= s.pc < |program| {
      var insn := program[s.pc];
      assert Printable(Decode(insn));
      DecodedValid(insn);
      StatementOfLegal(insn);
      SayRuns(Load(program), mem, s);
      assert Statements(program)[s.pc] == Say(Load(program)[s.pc]);
      var next := Step(Load(program), mem, s);
      if next.Running? {
        StatementsRun(program, mem, next.s, n - 1);
      }
    }
  }

  /** A taken jump goes where its line says, unless its offset is the largest there is. */
  lemma TakenJump(code: seq<Op>, mem: Memory, s: State)
    requires 0 <= s.pc < |code| && ValidOp(code[s.pc]) && IsJump(code[s.pc])
    requires Step(code, mem, s).s.pc != s.pc + 1
    ensures Execute(Say(code[s.pc]), mem, s.pc, s.r) == Seen(Step(code, mem, s)) <==> code[s.pc].off != 0x7FFF
  {
    hide AsI16;
    hide Holds;
    hide Wrap;
    hide SignExtend;
    var op := code[s.pc];
    PrintedTarget(s.pc, op.off);
    if op.JgtReg? {
      HoldsMeans(s.r[op.dst], s.r[op.src]);
    } else if !op.Goto? {
      ImmediateValue(op.imm);
      HoldsMeans(s.r[op.dst], Wrap(op.imm));
    }
  }

  // ----- compiler output -----

  /** A program that one of the compilers emits. */
  ghost predicate Emitted(program: seq<BpfInsn>) {
    || (exists p :: |p| <= MAX_BPF_PATTERN_LEN && program == Literal.LiteralProgram(p))
    || (exists alts :: EstimateAlternationInstructions(alts) <= MAX_BPF_INSTRUCTION_LEN
                       && program == Alternation.CompiledAlternation(alts))
    || (exists ranges :: 4 + 2 * |ranges| <= MAX_BPF_INSTRUCTION_LEN && program == CharClass.ClassProgram(ranges))
  }

  lemma AlternationLength(alts: seq<seq<byte>>)
    requires EstimateAlternationInstructions(alts) <= MAX_BPF_INSTRUCTION_LEN
    ensures |Alternation.CompiledAlternation(alts)| <= 4096
  {
    hide Alternation.AltProgram;
    hide Decode;
    if alts != [] && !HasEmpty(alts) {
      Alternation.CostIsStart(alts, 0);
      assert alts[0..] == alts;
      Alternation.DecodedTrailer(alts);
    }
  }

  lemma EmittedIsTargeted(program: seq<BpfInsn>)
    requires Emitted(program)
    ensures WellTargeted(Load(program)) && |program| <= 4096
  {
    hide WellTargeted;
    hide Load;
    hide Alternation.CompiledAlternation;
    if p :| |p| <= MAX_BPF_PATTERN_LEN && program == Literal.LiteralProgram(p) {
      LiteralWellTargeted(p);
    } else if alts :| EstimateAlternationInstructions(alts) <= MAX_BPF_INSTRUCTION_LEN
                      && program == Alternation.CompiledAlternation(alts) {
      AlternationWellTargeted(alts);
      AlternationLength(alts);
    } else {
      var ranges :| 4 + 2 * |ranges| <= MAX_BPF_INSTRUCTION_LEN && program == CharClass.ClassProgram(ranges);
      ClassWellTargeted(ranges);
    }
  }

  lemma TargetedIsPrintable(program: seq<BpfInsn>)
    requires WellTargeted(Load(program)) && |program| <= 4096
    ensures AllPrintable(program) && AllShown(program)
  {
    hide Decode;
    hide NothingHidden;
    forall i | 0 <= i < |program| ensures Printable(Decode(program[i])) && NothingHidden(program[i]) {
      assert FlowsInside(Load(program), i);
      LegalHidesNothing(program[i]);
    }
  }

  /** Carrying out the statements, from any registers and for any number of steps, is running the program. */
  ghost predicate RunsAs(sts: seq<Statement>, program: seq<BpfInsn>) {
    forall mem: Memory, r: Registers, n: nat ::
      ExecuteAll(sts, mem, 0, r, n) == Seen(Run(Load(program), mem, State(0, r, false), n))
  }

  /** The listing of compiler output says all: which instructions the program has, and what running it does. */
  lemma EmittedListing(program: seq<BpfInsn>)
    requires Emitted(program)
    ensures var read := ReadListing(FormatProgram(program));
      && read.Some? && |read.value| == |program|
      && (forall i :: 0 <= i < |program| ==> Assemble(read.value[i]) == Some(program[i]))
      && RunsAs(read.value, program)
  {
    hide Emitted;
    hide ReadListing;
    hide FormatProgram;
    hide Assemble;
    hide StatementOf;
    hide NothingHidden;
    hide Load;
    hide ExecuteAll;
    hide AllPrintable;
    EmittedIsTargeted(program);
    TargetedIsPrintable(program);
    ListingReads(program);
    ListingAssembles(program);
    var sts := Statements(program);
    forall mem: Memory, r: Registers, n: nat
      ensures ExecuteAll(sts, mem, 0, r, n) == Seen(Run(Load(program), mem, State(0, r, false), n))
    {
      StatementsRun(program, mem, State(0, r, false), n);
    }
  }
}
