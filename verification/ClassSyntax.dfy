/** The character-class front end: escapes, tokens, ranges (src/compiler/verify.rs). */
module ClassSyntax {
  import opened Assembler
  import opened Utf8
  import opened Limits

  datatype PatternRange = Single(b: byte) | Span(lo: byte, hi: byte)

  datatype Token = Byte(b: byte) | Dash | Class(ranges: seq<PatternRange>)

  const BACKSLASH: byte := 0x5C
  const HYPHEN: byte := 0x2D

  // ----- escapes -----

  const DIGITS: seq<PatternRange> := [Span(0x30, 0x39)]
  const SPACES: seq<PatternRange> := [Span(0x09, 0x0D), Single(0x20)]
  const WORDS: seq<PatternRange> := [Span(0x61, 0x7A), Span(0x41, 0x5A), Span(0x30, 0x39), Single(0x5F)]

  /** The token that backslash and `c` stand for. */
  function Escape(c: byte): Result<Token> {
    if c == 0x6E then Ok(Byte(0x0A))                            // n
    else if c == 0x72 then Ok(Byte(0x0D))                       // r
    else if c == 0x74 then Ok(Byte(0x09))                       // t
    else if c in [BACKSLASH, 0x5D, 0x5B, HYPHEN, 0x2E] then Ok(Byte(c))  // \ ] [ - .
    else if c == 0x64 then Ok(Class(DIGITS))                    // d
    else if c == 0x73 then Ok(Class(SPACES))                    // s
    else if c == 0x77 then Ok(Class(WORDS))                     // w
    else if c in [0x44, 0x53, 0x57] then Err(InvalidPattern(NegatedEscape))  // D S W
    else Err(InvalidPattern(UnknownEscape))
  }

  /** The escape at `idx`, and the number of bytes it takes. */
  function DecodeEscape(text: seq<byte>, idx: nat): Result<(Token, nat)>
    requires idx < |text|
  {
    if idx + 1 >= |text| then Err(InvalidPattern(UnterminatedEscape))
    else match Escape(text[idx + 1])
      case Ok(token) => Ok((token, 2))
      case Err(e) => Err(e)
  }

  // ----- tokens -----

  function Prepend<T>(front: seq<T>, r: Result<seq<T>>): Result<seq<T>> {
    match r
    case Ok(back) => Ok(front + back)
    case Err(e) => Err(e)
  }

  lemma PrependNothing<T>(r: Result<seq<T>>, front: seq<T>)
    ensures Prepend([], r) == r
    ensures Prepend(front, Ok([])) == Ok(front)
  {
    if r.Ok? {
      assert [] + r.value == r.value;
    }
    assert front + [] == front;
  }

  lemma PrependTwice<T>(a: seq<T>, b: seq<T>, r: Result<seq<T>>)
    ensures Prepend(a + b, r) == Prepend(a, Prepend(b, r))
  {
    if r.Ok? {
      assert a + b + r.value == a + (b + r.value);
    }
  }

  /** The token stream of the text from `idx` on. */
  function Tokens(text: seq<byte>, idx: nat): Result<seq<Token>>
    requires idx <= |text|
    decreases |text| - idx
  {
    if idx == |text| then Ok([])
    else if text[idx] == BACKSLASH then
      match DecodeEscape(text, idx)
      case Err(e) => Err(e)
      case Ok((token, n)) => Prepend([token], Tokens(text, idx + n))
    else Prepend([if text[idx] == HYPHEN then Dash else Byte(text[idx])], Tokens(text, idx + 1))
  }

  /** How many backslashes stand directly before `i`. */
  ghost function SlashesBefore(text: seq<byte>, i: nat): nat
    requires i <= |text|
  {
    if i > 0 && text[i - 1] == BACKSLASH then 1 + SlashesBefore(text, i - 1) else 0
  }

  /** A position is escaped when an odd number of backslashes precedes it. */
  ghost predicate Escaped(text: seq<byte>, i: nat)
    requires i <= |text|
  {
    SlashesBefore(text, i) % 2 == 1
  }

  /** An unescaped backslash that starts no known escape. */
  ghost predicate BadEscape(text: seq<byte>, i: nat) {
    && i < |text| && text[i] == BACKSLASH && !Escaped(text, i)
    && (i + 1 == |text| || Escape(text[i + 1]).Err?)
  }

  /** The first bad escape from `idx` on is at `i`. */
  ghost predicate FirstBadEscape(text: seq<byte>, idx: nat, i: nat) {
    idx <= i && BadEscape(text, i) && forall j :: idx <= j < i ==> !BadEscape(text, j)
  }

  /** From an unescaped position the scan fails exactly if there is a bad escape, and it reports the first. */
  lemma {:induction false} TokensFail(text: seq<byte>, idx: nat)
    requires idx <= |text| && !Escaped(text, idx)
    ensures Tokens(text, idx).Err? <==> exists i :: idx <= i && BadEscape(text, i)
    ensures Tokens(text, idx).Err? ==>
            exists i :: FirstBadEscape(text, idx, i) && Tokens(text, idx).error == DecodeEscape(text, i).error
    decreases |text| - idx
  {
    if idx == |text| {
    } else if text[idx] == BACKSLASH {
      if BadEscape(text, idx) {
        assert FirstBadEscape(text, idx, idx);
      } else {
        assert Escaped(text, idx + 1);
        assert !BadEscape(text, idx + 1);
        TokensFail(text, idx + 2);
        assert forall i :: FirstBadEscape(text, idx + 2, i) ==> FirstBadEscape(text, idx, i);
      }
    } else {
      TokensFail(text, idx + 1);
      assert forall i :: FirstBadEscape(text, idx + 1, i) ==> FirstBadEscape(text, idx, i);
    }
  }

  /** What an unescaped position stands for, by looking at it and the byte after it only. */
  ghost function TokenAt(text: seq<byte>, i: nat): Token
    requires i < |text| && !BadEscape(text, i) && !Escaped(text, i)
  {
    if text[i] == BACKSLASH then Escape(text[i + 1]).value
    else if text[i] == HYPHEN then Dash
    else Byte(text[i])
  }

  /** One token for each unescaped position, in order. */
  ghost function UnescapedTokens(text: seq<byte>, idx: nat): seq<Token>
    requires idx <= |text| && forall i :: idx <= i ==> !BadEscape(text, i)
    decreases |text| - idx
  {
    if idx == |text| then []
    else if Escaped(text, idx) then UnescapedTokens(text, idx + 1)
    else [TokenAt(text, idx)] + UnescapedTokens(text, idx + 1)
  }

  /** The scan, which steps over escapes, sees exactly the unescaped positions. */
  lemma {:induction false} TokensAreUnescaped(text: seq<byte>, idx: nat)
    requires idx <= |text| && !Escaped(text, idx) && forall i :: idx <= i ==> !BadEscape(text, i)
    ensures Tokens(text, idx) == Ok(UnescapedTokens(text, idx))
    decreases |text| - idx
  {
    if idx == |text| {
    } else if text[idx] == BACKSLASH {
      assert !BadEscape(text, idx) && Escaped(text, idx + 1) && !Escaped(text, idx + 2);
      TokensAreUnescaped(text, idx + 2);
    } else {
      TokensAreUnescaped(text, idx + 1);
    }
  }

  // ----- ranges -----

  predicate TripleAt(ts: seq<Token>, i: int) {
    0 <= i && i + 2 < |ts| && ts[i].Byte? && ts[i + 1].Dash? && ts[i + 2].Byte?
  }

  function TokenRanges(t: Token): seq<PatternRange> {
    match t
    case Byte(b) => [Single(b)]
    case Dash => [Single(HYPHEN)]
    case Class(c) => c
  }

  /** The greedy reader from token `idx` on. */
  function Ranges(ts: seq<Token>, idx: nat): Result<seq<PatternRange>>
    requires idx <= |ts|
    decreases |ts| - idx
  {
    if idx == |ts| then Ok([])
    else if TripleAt(ts, idx) then
      if ts[idx].b > ts[idx + 2].b then Err(InvalidPattern(ReversedRange))
      else Prepend([Span(ts[idx].b, ts[idx + 2].b)], Ranges(ts, idx + 3))
    else if ts[idx].Dash? && idx + 1 < |ts| && ts[idx + 1].Dash? then Err(InvalidPattern(ConsecutiveDashes))
    else Prepend(TokenRanges(ts[idx]), Ranges(ts, idx + 1))
  }

  // When a dash is an operator: a local criterion, independent of the scan.

  /** How many literal-dash pairs stand directly before `i`. */
  ghost function PairsBefore(ts: seq<Token>, i: nat): nat
    requires i <= |ts|
  {
    if i >= 2 && ts[i - 1].Dash? && ts[i - 2].Byte? then 1 + PairsBefore(ts, i - 2) else 0
  }

  /** The dash at `d` joins the literals at its sides: it stands between two, after an even number of pairs. */
  ghost predicate Operator(ts: seq<Token>, d: int) {
    TripleAt(ts, d - 1) && PairsBefore(ts, d - 1) % 2 == 0
  }

  ghost predicate ReversedOperator(ts: seq<Token>, d: int) {
    Operator(ts, d) && ts[d - 1].b > ts[d + 1].b
  }

  ghost predicate AdjacentDashes(ts: seq<Token>, i: int) {
    0 <= i && i + 1 < |ts| && ts[i].Dash? && ts[i + 1].Dash?
  }

  /** Not the operator, nor a side, of any operator. */
  ghost predicate Standalone(ts: seq<Token>, i: int) {
    0 <= i < |ts| && !Operator(ts, i - 1) && !Operator(ts, i) && !Operator(ts, i + 1)
  }

  /** A position the scan stops at: neither the dash nor the right side of an operator. */
  ghost predicate Boundary(ts: seq<Token>, i: int) {
    0 <= i <= |ts| && !Operator(ts, i) && !Operator(ts, i - 1)
  }

  /** The local criterion is the greedy one: from stop to stop. */
  lemma BoundaryStep(ts: seq<Token>, i: nat)
    requires Boundary(ts, i) && i < |ts|
    ensures TripleAt(ts, i) <==> Operator(ts, i + 1)
    ensures TripleAt(ts, i) ==> Boundary(ts, i + 3)
    ensures !TripleAt(ts, i) ==> Boundary(ts, i + 1) && Standalone(ts, i)
  {}

  ghost predicate BadDash(ts: seq<Token>, d: int) {
    AdjacentDashes(ts, d) || ReversedOperator(ts, d)
  }

  ghost predicate FirstBadDash(ts: seq<Token>, idx: int, d: int) {
    idx <= d && BadDash(ts, d) && forall e :: idx <= e < d ==> !BadDash(ts, e)
  }

  /** The reader fails exactly when two dashes are adjacent or an operator has its sides reversed; it reports the first. */
  lemma {:induction false} RangesFail(ts: seq<Token>, idx: nat)
    requires Boundary(ts, idx)
    ensures Ranges(ts, idx).Err? <==> exists d :: idx <= d && BadDash(ts, d)
    ensures Ranges(ts, idx).Err? ==>
            exists d :: FirstBadDash(ts, idx, d) && Ranges(ts, idx).error ==
                        InvalidPattern(if AdjacentDashes(ts, d) then ConsecutiveDashes else ReversedRange)
    decreases |ts| - idx
  {
    if idx == |ts| {
      return;
    }
    BoundaryStep(ts, idx);
    if TripleAt(ts, idx) {
      assert !BadDash(ts, idx);
      if ts[idx].b > ts[idx + 2].b {
        assert FirstBadDash(ts, idx, idx + 1);
      } else {
        RangesFail(ts, idx + 3);
        assert !BadDash(ts, idx + 1) && !BadDash(ts, idx + 2);
        assert forall d :: FirstBadDash(ts, idx + 3, d) ==> FirstBadDash(ts, idx, d);
      }
    } else if AdjacentDashes(ts, idx) {
      assert FirstBadDash(ts, idx, idx);
    } else {
      RangesFail(ts, idx + 1);
      assert !BadDash(ts, idx);
      assert forall d :: FirstBadDash(ts, idx + 1, d) ==> FirstBadDash(ts, idx, d);
    }
  }

  // ----- what a class denotes -----

  predicate RangeHas(p: PatternRange, v: int) {
    match p
    case Single(b) => v == b
    case Span(lo, hi) => lo <= v <= hi
  }

  ghost predicate SomeRangeHas(ps: seq<PatternRange>, v: int) {
    exists k :: 0 <= k < |ps| && RangeHas(ps[k], v)
  }

  /** Value `v` is between the sides of an operator, or is what a standalone token stands for. */
  ghost predicate DenotedFrom(ts: seq<Token>, idx: int, v: int) {
    || (exists d :: idx < d && Operator(ts, d) && ts[d - 1].b <= v <= ts[d + 1].b)
    || (exists i :: idx <= i && Standalone(ts, i) && SomeRangeHas(TokenRanges(ts[i]), v))
  }

  lemma SomeRangeSplits(a: seq<PatternRange>, b: seq<PatternRange>, v: int)
    ensures SomeRangeHas(a + b, v) <==> SomeRangeHas(a, v) || SomeRangeHas(b, v)
  {
    if SomeRangeHas(a, v) {
      var k :| 0 <= k < |a| && RangeHas(a[k], v);
      assert RangeHas((a + b)[k], v);
    }
    if SomeRangeHas(b, v) {
      var k :| 0 <= k < |b| && RangeHas(b[k], v);
      assert RangeHas((a + b)[|a| + k], v);
    }
  }

  lemma DenotedTriple(ts: seq<Token>, i: nat, v: int)
    requires Boundary(ts, i) && TripleAt(ts, i)
    ensures DenotedFrom(ts, i, v) <==> ts[i].b <= v <= ts[i + 2].b || DenotedFrom(ts, i + 3, v)
  {
    BoundaryStep(ts, i);
    assert Operator(ts, i + 1) && !Operator(ts, i + 2) && !Operator(ts, i + 3);
    assert !Standalone(ts, i) && !Standalone(ts, i + 1) && !Standalone(ts, i + 2);
  }

  lemma DenotedOther(ts: seq<Token>, i: nat, v: int)
    requires Boundary(ts, i) && i < |ts| && !TripleAt(ts, i)
    ensures DenotedFrom(ts, i, v) <==> SomeRangeHas(TokenRanges(ts[i]), v) || DenotedFrom(ts, i + 1, v)
  {}

  /** The ranges read cover exactly what the tokens denote. */
  lemma {:induction false} RangesDenote(ts: seq<Token>, idx: nat, v: int)
    requires Boundary(ts, idx) && Ranges(ts, idx).Ok?
    ensures SomeRangeHas(Ranges(ts, idx).value, v) <==> DenotedFrom(ts, idx, v)
    decreases |ts| - idx
  {
    if idx == |ts| {
      return;
    }
    BoundaryStep(ts, idx);
    if TripleAt(ts, idx) {
      DenotedTriple(ts, idx, v);
      RangesDenote(ts, idx + 3, v);
      var head := [Span(ts[idx].b, ts[idx + 2].b)];
      SomeRangeSplits(head, Ranges(ts, idx + 3).value, v);
      assert SomeRangeHas(head, v) <==> RangeHas(head[0], v);
    } else {
      DenotedOther(ts, idx, v);
      RangesDenote(ts, idx + 1, v);
      SomeRangeSplits(TokenRanges(ts[idx]), Ranges(ts, idx + 1).value, v);
    }
  }

  // ----- shape of the ranges -----

  predicate Ordered(ps: seq<PatternRange>) {
    forall k :: 0 <= k < |ps| && ps[k].Span? ==> ps[k].lo <= ps[k].hi
  }

  /** What the tokenizer can produce from `n` bytes. */
  ghost predicate Sized(ts: seq<Token>, idx: nat) {
    forall i :: idx <= i < |ts| && ts[i].Class? ==> 0 < |ts[i].ranges| <= 4 && Ordered(ts[i].ranges)
  }

  /** Bytes that the tokens from `idx` on stand for: a class escape takes two. */
  ghost function MinBytes(ts: seq<Token>, idx: nat): nat
    requires idx <= |ts|
    decreases |ts| - idx
  {
    if idx == |ts| then 0 else (if ts[idx].Class? then 2 else 1) + MinBytes(ts, idx + 1)
  }

  lemma {:induction false} MinBytesPrepend(t: Token, ts: seq<Token>, idx: nat)
    requires idx <= |ts|
    ensures MinBytes([t] + ts, idx + 1) == MinBytes(ts, idx)
    decreases |ts| - idx
  {
    if idx < |ts| {
      MinBytesPrepend(t, ts, idx + 1);
    }
  }

  lemma {:induction false} TokensSized(text: seq<byte>, idx: nat)
    requires idx <= |text| && Tokens(text, idx).Ok?
    ensures Sized(Tokens(text, idx).value, 0)
    ensures MinBytes(Tokens(text, idx).value, 0) <= |text| - idx
    ensures idx < |text| ==> Tokens(text, idx).value != []
    decreases |text| - idx
  {
    if idx < |text| {
      var n := if text[idx] == BACKSLASH then 2 else 1;
      TokensSized(text, idx + n);
      var rest := Tokens(text, idx + n).value;
      MinBytesPrepend(Tokens(text, idx).value[0], rest, 0);
    }
  }

  lemma {:induction false} RangesSized(ts: seq<Token>, idx: nat)
    requires idx <= |ts| && Sized(ts, idx) && Ranges(ts, idx).Ok?
    ensures Ordered(Ranges(ts, idx).value)
    ensures |Ranges(ts, idx).value| <= 2 * MinBytes(ts, idx)
    ensures idx < |ts| ==> Ranges(ts, idx).value != []
    decreases |ts| - idx
  {
    if idx < |ts| {
      if TripleAt(ts, idx) {
        RangesSized(ts, idx + 3);
        assert MinBytes(ts, idx) == 2 + MinBytes(ts, idx + 2);
        assert MinBytes(ts, idx + 2) == 1 + MinBytes(ts, idx + 3);
      } else {
        RangesSized(ts, idx + 1);
      }
    }
  }

  // ----- text that is refused -----

  /** Text that is refused outright: valid UTF-8 that is not all ASCII. */
  predicate Refused(s: seq<byte>) {
    ValidUtf8(s) && HasNonAscii(s)
  }

  /** A text is refused exactly when it encodes a list of scalar values, one of them outside ASCII. */
  lemma RefusedIffEncodesWide(s: seq<byte>)
    ensures Refused(s) <==> exists cs :: EncodeAll(cs) == s && HasWide(cs)
  {
    if Refused(s) {
      var cs := ValidIsEncoded(s);
      WideIffNonAscii(cs);
    }
    if cs :| EncodeAll(cs) == s && HasWide(cs) {
      EncodedIsValid(cs);
      WideIffNonAscii(cs);
    }
  }

  // ----- the parser -----

  /** What the text parses to. */
  function Parse(text: seq<byte>): Result<seq<PatternRange>> {
    if Refused(text) then Err(InvalidPattern(NonAsciiCodepoint))
    else match Tokens(text, 0)
      case Err(e) => Err(e)
      case Ok(ts) => Ranges(ts, 0)
  }

  method TokensToRanges(tokens: seq<Token>) returns (r: Result<seq<PatternRange>>)
    ensures r == Ranges(tokens, 0)
  {
    var ranges: seq<PatternRange> := [];
    var idx := 0;
    PrependNothing(Ranges(tokens, 0), []);
    while idx < |tokens|
      invariant 0 <= idx <= |tokens|
      invariant Ranges(tokens, 0) == Prepend(ranges, Ranges(tokens, idx))
    {
      if idx + 2 < |tokens| {
        if tokens[idx].Byte? && tokens[idx + 1].Dash? && tokens[idx + 2].Byte? {
          var start, end := tokens[idx].b, tokens[idx + 2].b;
          if start > end {
            return Err(InvalidPattern(ReversedRange));
          }
          PrependTwice(ranges, [Span(start, end)], Ranges(tokens, idx + 3));
          ranges := ranges + [Span(start, end)];
          idx := idx + 3;
          continue;
        }
      }
      if tokens[idx].Dash? && idx + 1 < |tokens| && tokens[idx + 1].Dash? {
        return Err(InvalidPattern(ConsecutiveDashes));
      }
      PrependTwice(ranges, TokenRanges(tokens[idx]), Ranges(tokens, idx + 1));
      match tokens[idx] {
        case Byte(b) => ranges := ranges + [Single(b)];
        case Dash => ranges := ranges + [Single(HYPHEN)];
        case Class(c) => ranges := ranges + c;
      }
      idx := idx + 1;
    }
    PrependNothing(Ranges(tokens, 0), ranges);
    return Ok(ranges);
  }

  method ParseCharacterClass(text: seq<byte>) returns (r: Result<seq<PatternRange>>)
    ensures r == Parse(text)
    ensures !Refused(text) ==>
      (r.Err? <==> (exists i :: BadEscape(text, i)) ||
                   (Tokens(text, 0).Ok? && exists d :: 0 <= d && BadDash(Tokens(text, 0).value, d)))
    ensures r.Ok? ==> Ordered(r.value) && |r.value| <= 2 * |text| && (text != [] ==> r.value != [])
    ensures r.Ok? ==> forall v :: SomeRangeHas(r.value, v) <==> DenotedFrom(Tokens(text, 0).value, 0, v)
  {
    if Refused(text) {
      return Err(InvalidPattern(NonAsciiCodepoint));
    }
    TokensFail(text, 0);
    var tokens: seq<Token> := [];
    var idx := 0;
    PrependNothing(Tokens(text, 0), []);
    while idx < |text|
      invariant 0 <= idx <= |text|
      invariant Tokens(text, 0) == Prepend(tokens, Tokens(text, idx))
    {
      if text[idx] == BACKSLASH {
        var decoded := DecodeEscape(text, idx);
        if decoded.Err? {
          return Err(decoded.error);
        }
        PrependTwice(tokens, [decoded.value.0], Tokens(text, idx + decoded.value.1));
        tokens := tokens + [decoded.value.0];
        idx := idx + decoded.value.1;
      } else if text[idx] == HYPHEN {
        PrependTwice(tokens, [Dash], Tokens(text, idx + 1));
        tokens := tokens + [Dash];
        idx := idx + 1;
      } else {
        PrependTwice(tokens, [Byte(text[idx])], Tokens(text, idx + 1));
        tokens := tokens + [Byte(text[idx])];
        idx := idx + 1;
      }
    }
    PrependNothing(Tokens(text, 0), tokens);
    r := TokensToRanges(tokens);
    ParseFacts(text);
  }

  /** All that the parser promises of text it does not refuse. */
  lemma ParseFacts(text: seq<byte>)
    requires Tokens(text, 0).Ok?
    ensures var ts := Tokens(text, 0).value;
      && (Ranges(ts, 0).Err? <==> exists d :: 0 <= d && BadDash(ts, d))
      && (Ranges(ts, 0).Ok? ==>
            var ps := Ranges(ts, 0).value;
            && Ordered(ps) && |ps| <= 2 * |text| && (text != [] ==> ps != [])
            && forall v :: SomeRangeHas(ps, v) <==> DenotedFrom(ts, 0, v))
  {
    var ts := Tokens(text, 0).value;
    TokensSized(text, 0);
    RangesFail(ts, 0);
    if Ranges(ts, 0).Ok? {
      RangesSized(ts, 0);
      forall v ensures SomeRangeHas(Ranges(ts, 0).value, v) <==> DenotedFrom(ts, 0, v) {
        RangesDenote(ts, 0, v);
      }
    }
  }
}
