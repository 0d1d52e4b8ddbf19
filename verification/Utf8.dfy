/** Well-formed UTF-8: the test a class text is put to (src/compiler/verify.rs, `from_utf8`), and what passes it. */
module Utf8 {
  import opened Assembler

  // ----- the test, byte by byte (section 4 of RFC 3629) -----

  predicate Tail(b: byte) {
    0x80 <= b <= 0xBF
  }

  /** The length of the well-formed character at the front of `s`, or 0 if there is none. */
  function CharLength(s: seq<byte>): (n: nat)
    ensures n <= |s|
  {
    if s == [] then 0
    else if s[0] <= 0x7F then 1
    else if |s| >= 2 && 0xC2 <= s[0] <= 0xDF && Tail(s[1]) then 2
    else if |s| >= 3 && Tail(s[2]) && ThreeByteStart(s[0], s[1]) then 3
    else if |s| >= 4 && Tail(s[2]) && Tail(s[3]) && FourByteStart(s[0], s[1]) then 4
    else 0
  }

  predicate ThreeByteStart(a: byte, b: byte) {
    || (a == 0xE0 && 0xA0 <= b <= 0xBF)
    || ((0xE1 <= a <= 0xEC || 0xEE <= a <= 0xEF) && Tail(b))
    || (a == 0xED && 0x80 <= b <= 0x9F)
  }

  predicate FourByteStart(a: byte, b: byte) {
    || (a == 0xF0 && 0x90 <= b <= 0xBF)
    || (0xF1 <= a <= 0xF3 && Tail(b))
    || (a == 0xF4 && 0x80 <= b <= 0x8F)
  }

  predicate ValidUtf8(s: seq<byte>) {
    s == [] || (CharLength(s) > 0 && ValidUtf8(s[CharLength(s)..]))
  }

  predicate HasNonAscii(s: seq<byte>) {
    exists i :: 0 <= i < |s| && s[i] >= 0x80
  }

  // ----- the encoding (section 3 of RFC 3629) -----

  /** A Unicode scalar value: a code point that is not a surrogate. */
  type Scalar = c: int | 0 <= c < 0xD800 || 0xE000 <= c <= 0x10FFFF

  /** Six bits of the value in each byte after the first, marked 10; the number of bytes marked in the first. */
  function Encode(c: Scalar): seq<byte> {
    if c < 0x80 then [c]
    else if c < 0x800 then [0xC0 + c / 0x40, 0x80 + c % 0x40]
    else if c < 0x1_0000 then [0xE0 + c / 0x1000, 0x80 + c / 0x40 % 0x40, 0x80 + c % 0x40]
    else [0xF0 + c / 0x4_0000, 0x80 + c / 0x1000 % 0x40, 0x80 + c / 0x40 % 0x40, 0x80 + c % 0x40]
  }

  function EncodeAll(cs: seq<Scalar>): seq<byte> {
    if cs == [] then [] else Encode(cs[0]) + EncodeAll(cs[1..])
  }

  predicate HasWide(cs: seq<Scalar>) {
    exists k :: 0 <= k < |cs| && cs[k] >= 0x80
  }

  // ----- one character -----

  /** The test takes an encoded value off the front, whole. */
  lemma TakesEncoding(c: Scalar, rest: seq<byte>)
    ensures CharLength(Encode(c) + rest) == |Encode(c)|
  {
    var e := Encode(c);
    assert forall i :: 0 <= i < |e| ==> (e + rest)[i] == e[i];
  }

  /** The value whose bits the bytes of one character carry. */
  function Value(e: seq<byte>): int
    requires 1 <= |e| <= 4
  {
    var b0: int := e[0];
    if |e| == 1 then b0
    else
      var b1: int := e[1];
      if |e| == 2 then (b0 - 0xC0) * 0x40 + b1 - 0x80
      else
        var b2: int := e[2];
        if |e| == 3 then (b0 - 0xE0) * 0x1000 + (b1 - 0x80) * 0x40 + b2 - 0x80
        else
          var b3: int := e[3];
          (b0 - 0xF0) * 0x4_0000 + (b1 - 0x80) * 0x1000 + (b2 - 0x80) * 0x40 + b3 - 0x80
  }

  /** The groups of six bits of a value, and the value they make. */
  lemma Groups(a: nat, b: nat, d: nat, e: nat, c: int)
    requires b < 0x40 && d < 0x40 && e < 0x40 && c == a * 0x4_0000 + b * 0x1000 + d * 0x40 + e
    ensures c / 0x4_0000 == a && c / 0x1000 == a * 0x40 + b && c / 0x1000 % 0x40 == b
    ensures c / 0x40 == (a * 0x40 + b) * 0x40 + d && c / 0x40 % 0x40 == d && c % 0x40 == e
  {}

  lemma GroupsOf(c: nat)
    ensures c == c / 0x4_0000 * 0x4_0000 + c / 0x1000 % 0x40 * 0x1000 + c / 0x40 % 0x40 * 0x40 + c % 0x40
    ensures c == c / 0x1000 * 0x1000 + c / 0x40 % 0x40 * 0x40 + c % 0x40
    ensures c == c / 0x40 * 0x40 + c % 0x40
  {}

  lemma ValueOfEncoding(c: Scalar)
    ensures 1 <= |Encode(c)| <= 4 && Value(Encode(c)) == c
  {
    GroupsOf(c);
  }

  lemma TwoByteValue(b0: int, b1: int)
    requires 0xC2 <= b0 <= 0xDF && 0x80 <= b1 <= 0xBF
    ensures var v := Value([b0, b1]); 0x80 <= v < 0x800 && Encode(v) == [b0, b1]
  {
    Groups(0, 0, b0 - 0xC0, b1 - 0x80, Value([b0, b1]));
  }

  lemma ThreeByteValue(b0: byte, b1: byte, b2: byte)
    requires ThreeByteStart(b0, b1) && Tail(b2)
    ensures var v := Value([b0, b1, b2]); (0x800 <= v < 0xD800 || 0xE000 <= v < 0x1_0000) && Encode(v) == [b0, b1, b2]
  {
    Groups(0, b0 as int - 0xE0, b1 as int - 0x80, b2 as int - 0x80, Value([b0, b1, b2]));
  }

  lemma FourByteValue(b0: byte, b1: byte, b2: byte, b3: byte)
    requires FourByteStart(b0, b1) && Tail(b2) && Tail(b3)
    ensures var v := Value([b0, b1, b2, b3]); 0x1_0000 <= v <= 0x10FFFF && Encode(v) == [b0, b1, b2, b3]
  {
    Groups(b0 as int - 0xF0, b1 as int - 0x80, b2 as int - 0x80, b3 as int - 0x80, Value([b0, b1, b2, b3]));
  }

  /** What the test takes off the front is the encoding of a scalar value. */
  lemma TakesOnlyEncodings(s: seq<byte>) returns (c: Scalar)
    requires CharLength(s) > 0
    ensures Encode(c) == s[..CharLength(s)]
  {
    var n := CharLength(s);
    if n == 1 {
      c := s[0];
    } else {
      hide Encode;
      hide Value;
      if n == 2 {
        assert s[..2] == [s[0], s[1]];
        TwoByteValue(s[0], s[1]);
        c := Value([s[0], s[1]]);
      } else if n == 3 {
        assert s[..3] == [s[0], s[1], s[2]];
        ThreeByteValue(s[0], s[1], s[2]);
        c := Value([s[0], s[1], s[2]]);
      } else {
        assert s[..4] == [s[0], s[1], s[2], s[3]];
        FourByteValue(s[0], s[1], s[2], s[3]);
        c := Value([s[0], s[1], s[2], s[3]]);
      }
    }
  }

  // ----- whole texts -----

  /** Every list of scalar values encodes to text that passes. */
  lemma {:induction false} EncodedIsValid(cs: seq<Scalar>)
    ensures ValidUtf8(EncodeAll(cs))
    decreases |cs|
  {
    hide Encode;
    hide CharLength;
    if cs != [] {
      var e, rest := Encode(cs[0]), EncodeAll(cs[1..]);
      NonEmpty(cs[0]);
      TakesEncoding(cs[0], rest);
      EncodedIsValid(cs[1..]);
      assert (e + rest)[|e|..] == rest;
    }
  }

  lemma NonEmpty(c: Scalar)
    ensures Encode(c) != [] && (c < 0x80 ==> Encode(c) == [c]) && (c >= 0x80 ==> Encode(c)[0] >= 0x80)
  {}

  /** Text that passes is the encoding of a list of scalar values. */
  lemma {:induction false} ValidIsEncoded(s: seq<byte>) returns (cs: seq<Scalar>)
    requires ValidUtf8(s)
    ensures EncodeAll(cs) == s
    decreases |s|
  {
    hide Encode;
    hide CharLength;
    if s == [] {
      cs := [];
    } else {
      var n := CharLength(s);
      var c := TakesOnlyEncodings(s);
      var rest := ValidIsEncoded(s[n..]);
      cs := [c] + rest;
      assert cs[1..] == rest;
      assert s == s[..n] + s[n..];
    }
  }

  /** A byte that is not ASCII means a value that is not. */
  lemma {:induction false} WideIffNonAscii(cs: seq<Scalar>)
    ensures HasNonAscii(EncodeAll(cs)) <==> HasWide(cs)
    decreases |cs|
  {
    hide Encode;
    if cs != [] {
      var e, rest := Encode(cs[0]), EncodeAll(cs[1..]);
      NonEmpty(cs[0]);
      WideIffNonAscii(cs[1..]);
      assert HasWide(cs) <==> cs[0] >= 0x80 || HasWide(cs[1..]) by {
        if k :| 0 <= k < |cs[1..]| && cs[1..][k] >= 0x80 {
          assert cs[k + 1] >= 0x80;
        }
        if k :| 0 <= k < |cs| && cs[k] >= 0x80 {
          assert k == 0 || cs[1..][k - 1] >= 0x80;
        }
      }
      if i :| 0 <= i < |rest| && rest[i] >= 0x80 {
        assert (e + rest)[|e| + i] >= 0x80;
      }
      if cs[0] >= 0x80 {
        assert (e + rest)[0] >= 0x80;
      }
      if i :| 0 <= i < |e + rest| && (e + rest)[i] >= 0x80 {
        assert i < |e| || rest[i - |e|] >= 0x80;
      }
    }
  }

  /** No text has two readings. */
  lemma {:induction false} EncodingUnique(a: seq<Scalar>, b: seq<Scalar>)
    requires EncodeAll(a) == EncodeAll(b)
    ensures a == b
    decreases |a|
  {
    hide Encode;
    hide CharLength;
    hide Value;
    if a != [] {
      NonEmpty(a[0]);
      TakesEncoding(a[0], EncodeAll(a[1..]));
    }
    if b != [] {
      NonEmpty(b[0]);
      TakesEncoding(b[0], EncodeAll(b[1..]));
    }
    if a != [] && b != [] {
      var s, n := EncodeAll(a), |Encode(a[0])|;
      assert s[..n] == Encode(a[0]) && s[..n] == Encode(b[0]);
      assert s[n..] == EncodeAll(a[1..]) && s[n..] == EncodeAll(b[1..]);
      ValueOfEncoding(a[0]);
      ValueOfEncoding(b[0]);
      EncodingUnique(a[1..], b[1..]);
      assert a == [a[0]] + a[1..] && b == [b[0]] + b[1..];
    }
  }

  /** A text passes exactly when it is the encoding of some list of scalar values. */
  lemma ValidIffEncoded(s: seq<byte>)
    ensures ValidUtf8(s) <==> exists cs :: EncodeAll(cs) == s
  {
    if ValidUtf8(s) {
      var cs := ValidIsEncoded(s);
    }
    if cs :| EncodeAll(cs) == s {
      EncodedIsValid(cs);
    }
  }
}
