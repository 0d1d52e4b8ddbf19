/** Record lengths, header words and the double mapping of the data pages (src/loader/ringbuf.rs). */
module RingGeometry {
  import opened Assembler
  import opened Bits

  const BUSY_BIT: nat := 0x8000_0000
  const DISCARD_BIT: nat := 0x4000_0000
  const HDR_SZ: nat := 8
  const U64_MAX: nat := 0xFFFF_FFFF_FFFF_FFFF

  type u32 = x: int | 0 <= x < 0x1_0000_0000
  type u64 = x: int | 0 <= x < 0x1_0000_0000_0000_0000

  // ----- lengths -----

  function SaturatingAdd(a: u64, b: u64): u64 {
    if a + b > U64_MAX then U64_MAX else a + b
  }

  function ClearLowBits(x: u64): (r: u64)
    ensures r == x - x % 8
  {
    MaskMultipleOf8(x);
    BitAnd(x, U64_MAX - 7)
  }

  /** Header and data, rounded up to a multiple of 8; saturating at the largest such 64-bit number. */
  function RoundRecordLen(dataLen: u64): (r: u64)
    ensures r % 8 == 0 && r >= 8
    ensures if dataLen <= 0xFFFF_FFFF_FFFF_FFF0 then dataLen + 8 <= r < dataLen + 16 else r == 0xFFFF_FFFF_FFFF_FFF8
  {
    var total := SaturatingAdd(dataLen, HDR_SZ);
    RoundedDown(dataLen, SaturatingAdd(total, 7));
    ClearLowBits(SaturatingAdd(total, 7))
  }

  lemma RoundedDown(dataLen: u64, x: u64)
    requires x == SaturatingAdd(SaturatingAdd(dataLen, HDR_SZ), 7)
    ensures var r := ClearLowBits(x);
      && r % 8 == 0 && r >= 8
      && if dataLen <= 0xFFFF_FFFF_FFFF_FFF0 then dataLen + 8 <= r < dataLen + 16 else r == 0xFFFF_FFFF_FFFF_FFF8
  {
    hide ClearLowBits;
  }

  function CheckedAdd(a: u64, b: u64): (r: (bool, u64))
  {
    if a + b > U64_MAX then (false, 0) else (true, a + b)
  }

  function CheckedDouble(a: u64): (r: (bool, u64))
  {
    if 2 * a > U64_MAX then (false, 0) else (true, 2 * a)
  }

  /** Does the data slice stay within the two mapped copies? Neither sum may overflow. */
  predicate RecordWithinMapping(dataOffset: u64, dataLen: u64, ringSize: u64)
    ensures RecordWithinMapping(dataOffset, dataLen, ringSize) <==> dataOffset + dataLen <= 2 * ringSize <= 0xFFFF_FFFF_FFFF_FFFF
  {
    var (okEnd, end) := CheckedAdd(dataOffset, dataLen);
    var (okBound, bound) := CheckedDouble(ringSize);
    okEnd && okBound && end <= bound
  }

  // ----- header words -----

  lemma HeaderBits(raw: u32)
    ensures BitAnd(raw, BUSY_BIT) != 0 <==> raw >= 0x8000_0000
    ensures BitAnd(raw, DISCARD_BIT) != 0 <==> (raw / 0x4000_0000) % 2 == 1
    ensures BitAnd(raw, DISCARD_BIT - 1) == raw % 0x4000_0000
  {
    hide BitAnd;
    hide Pow2;
    Pow2Values();
    MaskBit(raw, 31);
    MaskBit(raw, 30);
    MaskLow(raw, 30);
  }

  predicate IsBusy(raw: u32)
    ensures IsBusy(raw) <==> raw >= 0x8000_0000
  {
    HeaderBits(raw);
    BitAnd(raw, BUSY_BIT) != 0
  }

  predicate IsDiscarded(raw: u32)
    ensures IsDiscarded(raw) <==> (raw / 0x4000_0000) % 2 == 1
  {
    HeaderBits(raw);
    BitAnd(raw, DISCARD_BIT) != 0
  }

  /** The length without its two flag bits. */
  function DataLen(raw: u32): (n: nat)
    ensures n == raw % 0x4000_0000
  {
    HeaderBits(raw);
    BitAnd(raw, DISCARD_BIT - 1)
  }

  function WordOf(b: seq<byte>): (w: u32)
    requires |b| == 4
    ensures w % 0x100 == b[0] && (w / 0x100) % 0x100 == b[1]
    ensures (w / 0x1_0000) % 0x100 == b[2] && w / 0x100_0000 == b[3]
  {
    var b0: int, b1: int, b2: int, b3: int := b[0], b[1], b[2], b[3];
    FourBytes(b0, b1, b2, b3, b0 + 0x100 * b1 + 0x1_0000 * b2 + 0x100_0000 * b3);
    b0 + 0x100 * b1 + 0x1_0000 * b2 + 0x100_0000 * b3
  }

  function BytesOf(w: u32): (b: seq<byte>)
    ensures |b| == 4 && WordOf(b) == w
  {
    var w1 := w / 0x100;
    var w2 := w1 / 0x100;
    [w % 0x100, w1 % 0x100, w2 % 0x100, w2 / 0x100]
  }

  // ----- the data pages -----

  /** The byte at ring position `p`: positions count on and on, the ring has |data| cells. */
  function At(data: seq<byte>, p: int): byte
    requires data != []
  {
    data[p % |data|]
  }

  function Bytes(data: seq<byte>, p: nat, n: nat): (s: seq<byte>)
    requires data != []
    ensures |s| == n && forall i :: 0 <= i < n ==> s[i] == At(data, p + i)
  {
    if n == 0 then [] else Bytes(data, p, n - 1) + [At(data, p + n - 1)]
  }

  /** Bytes written at ring positions from `p` on. */
  function Put(data: seq<byte>, p: nat, s: seq<byte>): (data': seq<byte>)
    requires data != []
    ensures |data'| == |data|
  {
    seq(|data|, j requires 0 <= j < |data| =>
      var d := (j - p) % |data|;
      if d < |s| then s[d] else data[j])
  }

  lemma RemainderShift(q: nat, p: nat, n: nat)
    requires n > 0
    ensures (q % n - p) % n == (q - p) % n
  {
    var k := q / n;
    var r := (q % n - p) % n;
    assert q == k * n + q % n;
    assert q - p == k * n + (q % n - p);
    var j := (q % n - p) / n;
    assert q - p == (k + j) * n + r;
    RemainderIs(q - p, n, k + j, r);
  }

  /** Within a window of one ring size, a write changes exactly the positions it covers. */
  lemma PutAt(data: seq<byte>, c: nat, p: nat, s: seq<byte>, q: nat)
    requires data != [] && c <= p && p + |s| <= c + |data| && c <= q < c + |data|
    ensures At(Put(data, p, s), q) == if p <= q < p + |s| then s[q - p] else At(data, q)
  {
    var n := |data|;
    RemainderShift(q, p, n);
    if q >= p {
      RemainderIs(q - p, n, 0, q - p);
    } else {
      RemainderIs(q - p, n, -1, q - p + n);
    }
  }

  lemma PutReads(data: seq<byte>, c: nat, p: nat, s: seq<byte>)
    requires data != [] && c <= p && p + |s| <= c + |data|
    ensures Bytes(Put(data, p, s), p, |s|) == s
  {
    hide At;
    hide Put;
    forall i | 0 <= i < |s| ensures Bytes(Put(data, p, s), p, |s|)[i] == s[i] {
      PutAt(data, c, p, s, p + i);
    }
  }

  lemma PutFrame(data: seq<byte>, c: nat, p: nat, s: seq<byte>, q: nat, n: nat)
    requires data != [] && c <= p && p + |s| <= c + |data|
    requires c <= q && q + n <= c + |data| && (q + n <= p || p + |s| <= q)
    ensures Bytes(Put(data, p, s), q, n) == Bytes(data, q, n)
  {
    hide At;
    hide Put;
    forall i | 0 <= i < n ensures Bytes(Put(data, p, s), q, n)[i] == Bytes(data, q, n)[i] {
      PutAt(data, c, p, s, q + i);
    }
  }

  /** The pages as the consumer sees them: mapped twice, back to back. */
  function Mirror(data: seq<byte>): seq<byte> {
    data + data
  }

  lemma MirrorAt(data: seq<byte>, p: nat, i: nat)
    requires data != [] && p % |data| + i < 2 * |data|
    ensures Mirror(data)[p % |data| + i] == At(data, p + i)
  {
    var n := |data|;
    var x, k := p % n + i, p / n;
    assert p == k * n + p % n;
    if x < n {
      RemainderIs(p + i, n, k, x);
    } else {
      assert p + i == (k + 1) * n + (x - n);
      RemainderIs(p + i, n, k + 1, x - n);
    }
  }

  /** A slice through the mirror is the run of ring positions, also across the end of the ring. */
  lemma MirrorSlice(data: seq<byte>, p: nat, offset: nat, from: nat, n: nat)
    requires data != [] && offset == p % |data| && offset + from + n <= 2 * |data|
    ensures Mirror(data)[offset + from..offset + from + n] == Bytes(data, p + from, n)
  {
    hide At;
    hide Mirror;
    MirrorLength(data);
    var slice := Mirror(data)[offset + from..offset + from + n];
    forall i | 0 <= i < n ensures slice[i] == Bytes(data, p + from, n)[i] {
      MirrorAt(data, p, from + i);
    }
  }

  lemma MirrorLength(data: seq<byte>)
    ensures |Mirror(data)| == 2 * |data|
  {}

  /**
   * For a power-of-two ring, the header at every 8-aligned position lies within
   * the two copies if and only if the ring has at least 4 bytes.
   */
  lemma HeaderInside(ringSize: nat)
    requires IsPowerOfTwo(ringSize)
    ensures (forall pos: nat :: pos % 8 == 0 ==> BitAnd(pos, ringSize - 1) + 8 <= 2 * ringSize) <==> ringSize >= 4
  {
    if ringSize >= 4 {
      forall pos: nat | pos % 8 == 0 ensures BitAnd(pos, ringSize - 1) + HDR_SZ <= 2 * ringSize {
        HeaderFits(pos, ringSize);
      }
    } else {
      var pos: nat := 0;
      assert pos % 8 == 0 && BitAnd(pos, ringSize - 1) == 0;
    }
  }

  lemma {:induction false} LargePowerOfTwo(n: nat)
    requires IsPowerOfTwo(n) && n >= 4
    ensures n == 4 || n % 8 == 0
  {
    if n > 4 {
      assert n / 2 >= 2 && IsPowerOfTwo(n / 2);
      assert (n / 2) % 2 == 0 && IsPowerOfTwo(n / 2 / 2);
      assert n / 2 / 2 > 1;
    }
  }

  lemma HeaderFits(pos: nat, ringSize: nat)
    requires IsPowerOfTwo(ringSize) && ringSize >= 4 && pos % 8 == 0
    ensures BitAnd(pos, ringSize - 1) == pos % ringSize && pos % ringSize + HDR_SZ <= 2 * ringSize
  {
    MaskPowerOfTwo(pos, ringSize);
    LargePowerOfTwo(ringSize);
    if ringSize % 8 != 0 {
      assert pos % 4 == 0;
    }
  }
}
