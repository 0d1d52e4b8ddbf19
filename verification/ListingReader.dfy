/** A strict reader of listings, written from the notation alone, and what the words mean on the machine. */
module ListingReader {
  import opened Assembler
  import opened Machine
  import Emit

  datatype Option<+T> = Some(value: T) | None {
    predicate IsFailure() { None? }

    function PropagateFailure<U>(): Option<U>
      requires None?
    {
      None
    }

    function Extract(): T
      requires Some?
    {
      value
    }
  }

  // ----- text -----

  /** What stands before and after the first `c`. */
  function Cut(s: string, c: char): (r: Option<(string, string)>)
    ensures r.Some? ==> |r.value.1| < |s|
  {
    if s == [] then None
    else if s[0] == c then Some(([], s[1..]))
    else
      var (a, b) :- Cut(s[1..], c);
      Some(([s[0]] + a, b))
  }

  function Split(s: string, c: char): seq<string>
    decreases |s|
  {
    match Cut(s, c)
    case None => [s]
    case Some((a, b)) => [a] + Split(b, c)
  }

  function After(s: string, front: string): Option<string> {
    if front <= s then Some(s[|front|..]) else None
  }

  function Before(s: string, last: char): Option<string> {
    if s != [] && s[|s| - 1] == last then Some(s[..|s| - 1]) else None
  }

  // ----- numbers -----

  predicate AllDigits(s: string) {
    s != [] && forall i :: 0 <= i < |s| ==> '0' <= s[i] <= '9'
  }

  function NatOf(s: string): nat
    requires AllDigits(s)
  {
    var d := s[|s| - 1] as int - '0' as int;
    if |s| == 1 then d else 10 * NatOf(s[..|s| - 1]) + d
  }

  /** A decimal without leading zeros. */
  function ReadNat(s: string): Option<nat> {
    if AllDigits(s) && (|s| == 1 || s[0] != '0') then Some(NatOf(s)) else None
  }

  function Minus(n: Option<int>): Option<int> {
    match n
    case Some(k) => Some(-k)
    case None => None
  }

  function ReadInt(s: string): Option<int> {
    match After(s, "-")
    case Some(t) => Minus(ReadNat(t))
    case None => ReadNat(s)
  }

  /** A decimal that must have a sign. */
  function ReadSigned(s: string): Option<int> {
    match After(s, "+")
    case Some(t) => ReadNat(t)
    case None =>
      var t :- After(s, "-");
      Minus(ReadNat(t))
  }

  /** A line number: leading zeros up to four digits. */
  function ReadIndex(s: string): Option<nat> {
    if AllDigits(s) && (|s| == 4 || (|s| > 4 && s[0] != '0')) then Some(NatOf(s)) else None
  }

  function HexValue(c: char): Option<nat> {
    if '0' <= c <= '9' then Some(c as int - '0' as int)
    else if 'a' <= c <= 'f' then Some(c as int - 'a' as int + 10)
    else None
  }

  function ReadHex2(s: string): Option<nat> {
    if |s| != 2 then None
    else
      var hi :- HexValue(s[0]);
      var lo :- HexValue(s[1]);
      Some(16 * hi + lo)
  }

  function ReadReg(s: string): Option<nat> {
    var t :- After(s, "r");
    ReadNat(t)
  }

  // ----- statements -----

  datatype Operand = Register(r: nat) | Number(n: int)

  /** A line's text. Sizes, assignments and comparisons are kept as the words they are written with. */
  datatype Statement =
    | Fetch(dst: nat, size: string, base: nat, disp: int)
    | Update(dst: nat, op: string, x: Operand)
    | Go(disp: int)
    | GoIf(left: nat, op: string, x: Operand, disp: int)
    | Leave
    | Unknown(code: nat, dst: nat, src: nat, off: int, imm: int)

  predicate IsSize(w: string) {
    w == "u8" || w == "u32"
  }

  predicate IsAssignment(w: string) {
    w == "=" || w == "+="
  }

  predicate IsComparison(w: string) {
    w == "==" || w == "!=" || w == "<" || w == "<=" || w == ">"
  }

  function ReadOperand(s: string): Option<Operand> {
    match ReadReg(s)
    case Some(r) => Some(Register(r))
    case None =>
      var n :- ReadInt(s);
      Some(Number(n))
  }

  function ReadFetch(w: seq<string>): Option<Statement>
    requires |w| == 6
  {
    var d :- ReadReg(w[0]);
    var size :- After(w[2], "*(");
    var base :- After(w[3], "*)(");
    var b :- ReadReg(base);
    var disp :- Before(w[5], ')');
    var o :- ReadInt(disp);
    if w[1] == "=" && IsSize(size) && w[4] == "+" then Some(Fetch(d, size, b, o)) else None
  }

  function ReadGoIf(w: seq<string>): Option<Statement>
    requires |w| == 6
  {
    var left :- ReadReg(w[1]);
    var x :- ReadOperand(w[3]);
    var t :- ReadSigned(w[5]);
    if IsComparison(w[2]) && w[4] == "goto" then Some(GoIf(left, w[2], x, t)) else None
  }

  function ReadUpdate(w: seq<string>): Option<Statement>
    requires |w| == 3
  {
    var d :- ReadReg(w[0]);
    var x :- ReadOperand(w[2]);
    if IsAssignment(w[1]) then Some(Update(d, w[1], x)) else None
  }

  function ReadUnknown(w: seq<string>): Option<Statement>
    requires |w| == 5
  {
    var code :- After(w[0], "code=0x");
    var dst :- After(w[1], "dst=");
    var src :- After(w[2], "src=");
    var off :- After(w[3], "off=");
    var imm :- After(w[4], "imm=");
    var c :- ReadHex2(code);
    var d :- ReadReg(dst);
    var s :- ReadReg(src);
    var o :- ReadInt(off);
    var i :- ReadInt(imm);
    Some(Unknown(c, d, s, o, i))
  }

  function ReadWords(w: seq<string>): Option<Statement> {
    if |w| == 1 then (if w[0] == "exit" then Some(Leave) else None)
    else if |w| == 2 then
      var t :- ReadSigned(w[1]);
      if w[0] == "goto" then Some(Go(t)) else None
    else if |w| == 3 then ReadUpdate(w)
    else if |w| == 5 then ReadUnknown(w)
    else if |w| == 6 then (if w[0] == "if" then ReadGoIf(w) else ReadFetch(w))
    else None
  }

  function ReadStatement(text: string): Option<Statement> {
    ReadWords(Split(text, ' '))
  }

  // ----- listings -----

  /** Line `i` of a listing: the number, a colon, a space, the statement. */
  function ReadLine(line: string, i: nat): Option<Statement> {
    var (number, rest) :- Cut(line, ':');
    var n :- ReadIndex(number);
    var text :- After(rest, " ");
    if n == i then ReadStatement(text) else None
  }

  function ReadLines(lines: seq<string>, i: nat): (r: Option<seq<Statement>>)
    requires i <= |lines|
    ensures r.Some? ==> |r.value| == |lines| - i
    decreases |lines| - i
  {
    if i == |lines| then Some([])
    else
      var st :- ReadLine(lines[i], i);
      var rest :- ReadLines(lines, i + 1);
      Some([st] + rest)
  }

  function ReadListing(text: string): Option<seq<Statement>> {
    if text == "# empty program" then Some([]) else ReadLines(Split(text, '\n'), 0)
  }

  // ----- what the statements do -----

  datatype Outcome = Next(pc: int, r: Registers) | Ends(r: Registers) | Fails

  /** The number in `n` bytes from `a` on, the least significant first. */
  function LittleEndian(mem: Memory, a: Word, n: nat): Option<int>
    decreases n
  {
    if n == 0 then Some(0)
    else if a !in mem then None
    else
      var rest :- LittleEndian(mem, Wrap(a + 1), n - 1);
      Some(mem[a] + 0x100 * rest)
  }

  /** Negative numbers are their 64-bit two's complement. */
  function ValueOf(x: Operand, r: Registers): Word
    requires x.Register? ==> x.r < 11
  {
    match x
    case Register(k) => r[k]
    case Number(n) => Wrap(n)
  }

  /** Comparisons are of unsigned 64-bit values. */
  predicate Holds(x: Word, op: string, y: Word) {
    || (op == "==" && x == y)
    || (op == "!=" && x != y)
    || (op == "<" && x < y)
    || (op == "<=" && x <= y)
    || (op == ">" && x > y)
  }

  /** The registers exist, and R10 is not written. */
  predicate RegistersExist(st: Statement) {
    match st
    case Fetch(d, _, b, _) => d < 10 && b < 11
    case Update(d, _, x) => d < 10 && (x.Register? ==> x.r < 11)
    case GoIf(l, _, x, _) => l < 11 && (x.Register? ==> x.r < 11)
    case _ => true
  }

  /** What the statement at position `pc` does. */
  function Execute(st: Statement, mem: Memory, pc: int, r: Registers): Outcome {
    if !RegistersExist(st) then Fails
    else match st
      case Fetch(d, size, b, o) => (
        match LittleEndian(mem, Wrap(r[b] + o), if size == "u8" then 1 else 4)
        case Some(v) => Next(pc + 1, r[d := Wrap(v)])
        case None => Fails)
      case Update(d, op, x) =>
        Next(pc + 1, r[d := if op == "=" then ValueOf(x, r) else Wrap(r[d] + ValueOf(x, r))])
      case Go(t) => Next(pc + t, r)
      case GoIf(l, op, x, t) => Next(if Holds(r[l], op, ValueOf(x, r)) then pc + t else pc + 1, r)
      case Leave => Ends(r)
      case Unknown(_, _, _, _, _) => Fails
  }

  /** At most `n` statements from position `pc`. */
  function ExecuteAll(sts: seq<Statement>, mem: Memory, pc: int, r: Registers, n: nat): Outcome
    decreases n
  {
    if n == 0 then Next(pc, r)
    else if !(0 <= pc < |sts|) then Fails
    else match Execute(sts[pc], mem, pc, r)
      case Next(pc', r') => ExecuteAll(sts, mem, pc', r', n - 1)
      case other => other
  }

  // ----- and which instruction they are -----

  predicate Fits(d: nat, s: nat, off: int, imm: int) {
    d < 16 && s < 16 && -0x8000 <= off < 0x8000 && -0x8000_0000 <= imm < 0x8000_0000
  }

  function ByteOf(n: nat): bv8
    requires n < 256
  {
    n as bv8
  }

  /** Destination in the low and source in the high four bits. */
  function RegByte(d: nat, s: nat): bv8
    requires d < 16 && s < 16
  {
    (ByteOf(s) << 4) | ByteOf(d)
  }

  function Insn(code: bv8, d: nat, s: nat, off: int, imm: int): Option<BpfInsn> {
    if Fits(d, s, off, imm) then Some(BpfInsn(code, RegByte(d, s), off, imm)) else None
  }

  function UpdateCode(op: string, x: Operand): bv8 {
    if op == "=" then (if x.Number? then 0xb7 else 0xbf) else (if x.Number? then 0x07 else 0x0f)
  }

  function CompareCode(op: string, x: Operand): Option<bv8> {
    if x.Register? then (if op == ">" then Some(0x2d) else None)
    else if op == "==" then Some(0x15)
    else if op == "!=" then Some(0x55)
    else if op == "<" then Some(0xa5)
    else if op == "<=" then Some(0xb5)
    else None
  }

  /** The offset of a jump, from its displacement. */
  function OffsetOf(t: int): int {
    Emit.AsI16(t - 1)
  }

  /** The instruction a statement stands for, with every field it does not mention zero. */
  function Assemble(st: Statement): Option<BpfInsn> {
    match st
    case Fetch(d, size, b, o) => Insn(if size == "u8" then 0x71 else 0x61, d, b, o, 0)
    case Update(d, op, Number(n)) => Insn(UpdateCode(op, st.x), d, 0, 0, n)
    case Update(d, op, Register(s)) => Insn(UpdateCode(op, st.x), d, s, 0, 0)
    case Go(t) => Insn(0x05, 0, 0, OffsetOf(t), 0)
    case GoIf(l, op, Number(n), t) => (
      var code :- CompareCode(op, st.x);
      Insn(code, l, 0, OffsetOf(t), n))
    case GoIf(l, op, Register(s), t) => (
      var code :- CompareCode(op, st.x);
      Insn(code, l, s, OffsetOf(t), 0))
    case Leave => Insn(0x95, 0, 0, 0, 0)
    case Unknown(c, d, s, o, i) => if c < 256 then Insn(ByteOf(c), d, s, o, i) else None
  }
}
