/**
 * The BPF ring buffer as a step system: one consumer, which follows
 * `consume_ring_records` (src/loader/ringbuf.rs), and an environment that
 * reserves, fills, commits and discards records in any interleaving.
 */
module RingProtocol {
  import opened Assembler
  import opened Bits
  import opened RingGeometry

  /** Positions stay this far below 2^64, so that adding one more record length cannot wrap. */
  const POS_LIMIT: nat := 0xFFFF_FFFF_8000_0000

  type Position = p: int | 0 <= p <= POS_LIMIT
  /** A consumer position: a multiple of 8. */
  type Aligned = p: int | 0 <= p <= U64_MAX && p % 8 == 0
  /** A consumer position below some producer position. */
  type Slot = p: int | 0 <= p < POS_LIMIT && p % 8 == 0
  /** The data pages: a power of two of bytes, at most 32 bits of them, and room for a header in two copies. */
  type RingData = d: seq<byte> | IsPowerOfTwo(|d|) && 4 <= |d| <= 0xFFFF_FFFF witness [0, 0, 0, 0]

  // ----- state -----

  datatype Status = Busy | Committed(payload: seq<byte>) | Discarded

  type RecordLen = n: int | 0 <= n < 0x4000_0000

  /** What the producer did, in reservation order. The code never sees this history. */
  datatype Record = Record(pos: nat, len: RecordLen, status: Status)

  /** The mapped pages, and the history behind them. */
  datatype World = World(data: RingData, producerPos: Position, consumerPos: Aligned, records: seq<Record>)

  /** Where the consumer is in its program. */
  datatype Consumer =
    | Idle
    | Outer(pos: Aligned)
    | Inner(pos: Aligned, limit: Position, any: bool)
    | Loaded(slot: Slot, limit: Position, any: bool, raw: u32)
    | InCallback(slot: Slot, limit: Position, any: bool, raw: u32)

  /** `taken` counts the records whose bytes have been released to the producer, `polls` the polls begun. */
  datatype System = System(w: World, c: Consumer, delivered: seq<seq<byte>>, taken: nat, polls: nat)

  // ----- the consumer's reads: always within the two copies, whatever the bytes -----

  function Offset(data: RingData, pos: Aligned): (o: nat)
    ensures o == pos % |data| && o + HDR_SZ <= |Mirror(data)|
  {
    HeaderFits(pos, |data|);
    BitAnd(pos, |data| - 1)
  }

  function ReadHeader(data: RingData, pos: Aligned): (raw: u32)
    ensures raw == WordOf(Bytes(data, pos, 4))
    ensures raw % 0x100 == At(data, pos) && (raw / 0x100) % 0x100 == At(data, pos + 1)
    ensures (raw / 0x1_0000) % 0x100 == At(data, pos + 2) && raw / 0x100_0000 == At(data, pos + 3)
  {
    var o := Offset(data, pos);
    MirrorSlice(data, pos, o, 0, 4);
    WordOf(Mirror(data)[o..o + 4])
  }

  predicate WithinMapping(data: RingData, pos: Aligned, raw: u32)
    ensures WithinMapping(data, pos, raw) <==> pos % |data| + 8 + raw % 0x4000_0000 <= 2 * |data|
  {
    RecordWithinMapping(Offset(data, pos) + HDR_SZ, DataLen(raw), |data|)
  }

  function ReadPayload(data: RingData, pos: Aligned, raw: u32): (s: seq<byte>)
    requires WithinMapping(data, pos, raw)
    ensures s == Bytes(data, pos + 8, raw % 0x4000_0000)
  {
    var o := Offset(data, pos);
    MirrorSlice(data, pos, o, HDR_SZ, DataLen(raw));
    Mirror(data)[o + HDR_SZ..o + HDR_SZ + DataLen(raw)]
  }

  /** The position after the record: no overflow below the limit. */
  function After(slot: Slot, raw: u32): (pos: Aligned)
    ensures pos == slot + RoundRecordLen(DataLen(raw))
  {
    slot + RoundRecordLen(DataLen(raw))
  }

  // ----- the consumer's steps -----

  function Publish(s: System, pos: Aligned, c: Consumer): System {
    s.(w := s.w.(consumerPos := pos), c := c)
  }

  function Release(s: System, slot: Slot, limit: Position, raw: u32): System {
    Publish(s, After(slot, raw), Inner(After(slot, raw), limit, true)).(taken := s.taken + 1)
  }

  /** One atomic step of `consume_ring_records`; from Idle, the start of the next poll. */
  function ConsumerStep(s: System): System {
    match s.c
    case Idle => s.(c := Outer(s.w.consumerPos), polls := s.polls + 1)
    case Outer(pos) => s.(c := Inner(pos, s.w.producerPos, false))
    case Inner(pos, limit, any) =>
      if pos < limit then s.(c := Loaded(pos, limit, any, ReadHeader(s.w.data, pos)))
      else if any then s.(c := Outer(pos))
      else s.(c := Idle)
    case Loaded(slot, limit, any, raw) =>
      if IsBusy(raw) then Publish(s, slot, Idle)
      else if IsDiscarded(raw) then Release(s, slot, limit, raw)
      else if !WithinMapping(s.w.data, slot, raw) then Publish(s, slot, Idle)
      else s.(c := InCallback(slot, limit, any, raw), delivered := s.delivered + [ReadPayload(s.w.data, slot, raw)])
    case InCallback(slot, limit, any, raw) => Release(s, slot, limit, raw)
  }

  // ----- the producer's steps -----

  datatype Action =
    | Reserve(len: RecordLen, pad: seq<byte>)
    | Write(i: nat, j: nat, b: byte)
    | Commit(i: nat)
    | Discard(i: nat)
    | Corrupt(data: RingData, producerPos: Position)  // outside the protocol

  predicate BusyRecord(w: World, i: nat) {
    i < |w.records| && w.records[i].status.Busy?
  }

  /** What the protocol allows: in particular no byte from the published consumer position on is overwritten. */
  predicate Enabled(w: World, a: Action) {
    match a
    case Reserve(len, pad) =>
      && |pad| == 4
      && w.producerPos + RoundRecordLen(len) <= POS_LIMIT
      && w.producerPos + RoundRecordLen(len) <= w.consumerPos + |w.data|
    case Write(i, j, b) => BusyRecord(w, i) && j < w.records[i].len
    case Commit(i) => BusyRecord(w, i)
    case Discard(i) => BusyRecord(w, i)
    case Corrupt(_, _) => false
  }

  function SetStatus(w: World, i: nat, status: Status): seq<Record>
    requires i < |w.records|
  {
    w.records[i := w.records[i].(status := status)]
  }

  /** The effect of an action; one that is not enabled has none, except that corruption always succeeds. */
  function Effect(w: World, a: Action): (w': World)
    ensures |w'.data| == |w.data| && w'.consumerPos == w.consumerPos
  {
    if a.Corrupt? then
      if |a.data| == |w.data| then w.(data := a.data, producerPos := a.producerPos) else w
    else if !Enabled(w, a) then w
    else match a
      case Reserve(len, pad) =>
        w.(data := Put(w.data, w.producerPos, BytesOf(BUSY_BIT + len) + pad),
           producerPos := w.producerPos + RoundRecordLen(len),
           records := w.records + [Record(w.producerPos, len, Busy)])
      case Write(i, j, b) =>
        w.(data := Put(w.data, w.records[i].pos + HDR_SZ + j, [b]))
      case Commit(i) =>
        var r := w.records[i];
        w.(data := Put(w.data, r.pos, BytesOf(r.len)),
           records := SetStatus(w, i, Committed(Bytes(w.data, r.pos + HDR_SZ, r.len))))
      case Discard(i) =>
        var r := w.records[i];
        w.(data := Put(w.data, r.pos, BytesOf(DISCARD_BIT + r.len)),
           records := SetStatus(w, i, Discarded))
  }

  // ----- interleavings -----

  datatype Move = Consume | Produce(a: Action)

  function Step(s: System, m: Move): System {
    match m
    case Consume => ConsumerStep(s)
    case Produce(a) => s.(w := Effect(s.w, a))
  }

  /** An interleaving, played from `s`. */
  function Play(s: System, ms: seq<Move>): System {
    if ms == [] then s else Step(Play(s, ms[..|ms| - 1]), ms[|ms| - 1])
  }

  /** All producer moves keep to the protocol. */
  ghost predicate Legal(s: System, ms: seq<Move>) {
    forall k :: 0 <= k < |ms| && ms[k].Produce? ==> Enabled(Play(s, ms[..k]).w, ms[k].a)
  }

  /** An empty ring and an idle consumer. */
  ghost predicate Initial(s: System) {
    && s.w.producerPos == 0 && s.w.consumerPos == 0 && s.w.records == []
    && s.c == Idle && s.delivered == [] && s.taken == 0 && s.polls == 0
  }

  // ----- the invariant -----

  /** Where record `k` starts, or would start. */
  ghost function StartOf(records: seq<Record>, end: nat, k: nat): nat {
    if k < |records| then records[k].pos else end
  }

  function HeaderWord(r: Record): u32
  {
    match r.status
    case Busy => BUSY_BIT + r.len
    case Committed(_) => r.len
    case Discarded => DISCARD_BIT + r.len
  }

  ghost function RecordEnd(r: Record): nat
  {
    r.pos + RoundRecordLen(r.len)
  }

  /** The pages hold the header, and once committed the payload, of the record. */
  ghost predicate Stored(data: RingData, r: Record) {
    && WordOf(Bytes(data, r.pos, 4)) == HeaderWord(r)
    && (r.status.Committed? ==> Bytes(data, r.pos + HDR_SZ, r.len) == r.status.payload)
  }

  /** Record `i` ends where the next one starts. */
  ghost predicate Linked(records: seq<Record>, end: nat, i: nat)
    requires i < |records|
  {
    RecordEnd(records[i]) == StartOf(records, end, i + 1) <= end
  }

  /** The records follow one another without gaps from position 0 to the producer position. */
  ghost predicate Chained(records: seq<Record>, end: nat) {
    && StartOf(records, end, 0) == 0
    && (forall i :: 0 <= i < |records| ==> Linked(records, end, i))
    && (forall i, j :: 0 <= i < j < |records| ==> RecordEnd(records[i]) <= records[j].pos)
  }

  ghost predicate NoneBusy(records: seq<Record>, n: nat) {
    forall i :: 0 <= i < n && i < |records| ==> !records[i].status.Busy?
  }

  ghost predicate AllStored(data: RingData, records: seq<Record>, from: nat) {
    forall i :: from <= i < |records| ==> Stored(data, records[i])
  }

  ghost predicate WorldInv(w: World, taken: nat) {
    && Chained(w.records, w.producerPos)
    && taken <= |w.records|
    && w.consumerPos == StartOf(w.records, w.producerPos, taken)
    && w.producerPos <= w.consumerPos + |w.data|
    && NoneBusy(w.records, taken)
    && AllStored(w.data, w.records, taken)
  }

  /** The payloads of the committed ones among the first `n` records, in reservation order. */
  ghost function Payloads(records: seq<Record>, n: nat): seq<seq<byte>>
    requires n <= |records|
  {
    if n == 0 then []
    else Payloads(records, n - 1) + (if records[n - 1].status.Committed? then [records[n - 1].status.payload] else [])
  }

  ghost predicate ConsumerInv(s: System)
    requires WorldInv(s.w, s.taken)
  {
    match s.c
    case Idle => s.delivered == Payloads(s.w.records, s.taken)
    case Outer(pos) => pos == s.w.consumerPos && s.delivered == Payloads(s.w.records, s.taken)
    case Inner(pos, limit, _) =>
      && pos == s.w.consumerPos && limit <= s.w.producerPos
      && s.delivered == Payloads(s.w.records, s.taken)
    case Loaded(slot, limit, _, raw) =>
      && slot == s.w.consumerPos && slot < limit <= s.w.producerPos
      && s.delivered == Payloads(s.w.records, s.taken)
      && s.taken < |s.w.records|
      && (!IsBusy(raw) ==> !s.w.records[s.taken].status.Busy? && raw == HeaderWord(s.w.records[s.taken]))
    case InCallback(slot, limit, _, raw) =>
      && slot == s.w.consumerPos && slot < limit <= s.w.producerPos
      && s.taken < |s.w.records|
      && s.w.records[s.taken].status.Committed? && raw == HeaderWord(s.w.records[s.taken])
      && s.delivered == Payloads(s.w.records, s.taken) + [s.w.records[s.taken].status.payload]
  }

  ghost predicate Inv(s: System) {
    WorldInv(s.w, s.taken) && ConsumerInv(s)
  }

  // ----- the consumer keeps it -----

  lemma HeaderFacts(r: Record)
    ensures IsBusy(HeaderWord(r)) <==> r.status.Busy?
    ensures !r.status.Busy? ==> (IsDiscarded(HeaderWord(r)) <==> r.status.Discarded?)
    ensures DataLen(HeaderWord(r)) == r.len
  {}

  /** The next record starts below the producer position, fits into one ring size and is stored. */
  lemma NextRecord(w: World, taken: nat)
    requires WorldInv(w, taken) && (w.consumerPos < w.producerPos || taken < |w.records|)
    ensures taken < |w.records| && w.records[taken].pos == w.consumerPos < w.producerPos
    ensures RoundRecordLen(w.records[taken].len) <= |w.data|
    ensures RecordEnd(w.records[taken]) == StartOf(w.records, w.producerPos, taken + 1)
    ensures Stored(w.data, w.records[taken])
  {
    hide RoundRecordLen;
    hide Stored;
    assert Linked(w.records, w.producerPos, taken);
  }

  /** The bounds guard never rejects a record of the protocol. */
  lemma GuardAccepts(w: World, taken: nat, slot: Slot, raw: u32)
    requires WorldInv(w, taken) && taken < |w.records| && slot == w.consumerPos
    requires raw == HeaderWord(w.records[taken])
    ensures WithinMapping(w.data, slot, raw)
  {
    hide RoundRecordLen;
    hide WorldInv;
    NextRecord(w, taken);
    HeaderFacts(w.records[taken]);
  }

  lemma ReleaseWorld(w: World, taken: nat, pos: Aligned)
    requires WorldInv(w, taken) && taken < |w.records| && !w.records[taken].status.Busy?
    requires pos == RecordEnd(w.records[taken])
    ensures WorldInv(w.(consumerPos := pos), taken + 1)
  {
    hide RoundRecordLen;
    hide Stored;
    NextRecord(w, taken);
  }

  lemma ReleaseKeeps(s: System, slot: Slot, limit: Position, raw: u32)
    requires WorldInv(s.w, s.taken) && s.taken < |s.w.records| && slot == s.w.consumerPos && limit <= s.w.producerPos
    requires !s.w.records[s.taken].status.Busy? && raw == HeaderWord(s.w.records[s.taken])
    requires s.delivered == Payloads(s.w.records, s.taken + 1)
    ensures Inv(Release(s, slot, limit, raw))
  {
    hide RoundRecordLen;
    hide DataLen;
    hide Payloads;
    hide WorldInv;
    HeaderFacts(s.w.records[s.taken]);
    NextRecord(s.w, s.taken);
    ReleaseWorld(s.w, s.taken, After(slot, raw));
  }

  lemma LoadKeeps(s: System)
    requires Inv(s) && s.c.Inner? && s.c.pos < s.c.limit
    ensures Inv(ConsumerStep(s))
  {
    hide RoundRecordLen;
    hide IsBusy;
    hide Payloads;
    hide ReadHeader;
    hide WorldInv;
    NextRecord(s.w, s.taken);
    HeaderFacts(s.w.records[s.taken]);
  }

  lemma DeliverKeeps(s: System)
    requires Inv(s) && s.c.Loaded? && !IsBusy(s.c.raw) && !IsDiscarded(s.c.raw)
    ensures WithinMapping(s.w.data, s.c.slot, s.c.raw) && Inv(ConsumerStep(s))
  {
    hide RoundRecordLen;
    hide IsBusy;
    hide IsDiscarded;
    hide DataLen;
    hide Payloads;
    hide ReadPayload;
    hide WithinMapping;
    hide WorldInv;
    NextRecord(s.w, s.taken);
    HeaderFacts(s.w.records[s.taken]);
    GuardAccepts(s.w, s.taken, s.c.slot, s.c.raw);
  }

  lemma ConsumerKeepsInv(s: System)
    requires Inv(s)
    ensures Inv(ConsumerStep(s))
  {
    hide RoundRecordLen;
    hide IsBusy;
    hide IsDiscarded;
    hide WorldInv;
    hide Release;
    match s.c
    case Inner(pos, limit, any) =>
      if pos < limit {
        LoadKeeps(s);
      }
    case Loaded(slot, limit, any, raw) =>
      if !IsBusy(raw) {
        if IsDiscarded(raw) {
          HeaderFacts(s.w.records[s.taken]);
          ReleaseKeeps(s, slot, limit, raw);
        } else {
          DeliverKeeps(s);
        }
      }
    case InCallback(slot, limit, any, raw) =>
      ReleaseKeeps(s, slot, limit, raw);
    case _ =>
  }

  // ----- the producer keeps it -----

  /** Histories only grow: places and lengths stay, and a settled record never changes again. */
  ghost predicate Extends(before: seq<Record>, after: seq<Record>) {
    && |before| <= |after|
    && forall i :: 0 <= i < |before| ==>
         && after[i].pos == before[i].pos && after[i].len == before[i].len
         && (!before[i].status.Busy? ==> after[i] == before[i])
  }

  lemma EffectExtends(w: World, a: Action)
    requires Enabled(w, a)
    ensures Extends(w.records, Effect(w, a).records)
    ensures w.producerPos <= Effect(w, a).producerPos
  {}

  lemma {:induction false} PayloadsStable(before: seq<Record>, after: seq<Record>, n: nat)
    requires n <= |before| && Extends(before, after) && NoneBusy(before, n)
    ensures Payloads(before, n) == Payloads(after, n)
  {
    if n > 0 {
      PayloadsStable(before, after, n - 1);
    }
  }

  /** Where a live record lies: within one ring size of the consumer position. */
  lemma LiveSpan(w: World, taken: nat, i: nat)
    requires WorldInv(w, taken) && taken <= i < |w.records|
    ensures w.consumerPos <= w.records[i].pos
    ensures w.records[i].pos + HDR_SZ + w.records[i].len <= RecordEnd(w.records[i]) <= w.producerPos <= w.consumerPos + |w.data|
  {
    hide RoundRecordLen;
    hide Stored;
    assert Linked(w.records, w.producerPos, i);
  }

  /** Writing outside the span of a stored record leaves it stored. */
  lemma StoredElsewhere(data: RingData, c: nat, p: nat, s: seq<byte>, r: Record, data': RingData)
    requires c <= p && p + |s| <= c + |data|
    requires c <= r.pos && r.pos + HDR_SZ + r.len <= c + |data|
    requires r.pos + HDR_SZ + r.len <= p || p + |s| <= r.pos
    requires Stored(data, r) && data' == Put(data, p, s)
    ensures Stored(data', r)
  {
    hide Put;
    hide Bytes;
    PutFrame(data, c, p, s, r.pos, 4);
    PutFrame(data, c, p, s, r.pos + HDR_SZ, r.len);
  }

  /** A write within the span of record `i` leaves every other live record stored. */
  lemma OthersStored(w: World, taken: nat, i: nat, p: nat, s: seq<byte>, data': RingData)
    requires WorldInv(w, taken) && taken <= i < |w.records|
    requires w.records[i].pos <= p && p + |s| <= w.records[i].pos + HDR_SZ + w.records[i].len
    requires data' == Put(w.data, p, s)
    ensures forall j :: taken <= j < |w.records| && j != i ==> Stored(data', w.records[j])
  {
    hide RoundRecordLen;
    hide Put;
    hide Stored;
    hide StartOf;
    LiveSpan(w, taken, i);
    forall j | taken <= j < |w.records| && j != i ensures Stored(data', w.records[j]) {
      LiveSpan(w, taken, j);
      assert RecordEnd(w.records[i]) <= w.records[j].pos || RecordEnd(w.records[j]) <= w.records[i].pos;
      StoredElsewhere(w.data, w.consumerPos, p, s, w.records[j], data');
    }
  }

  lemma BusyIsLive(w: World, taken: nat, i: nat)
    requires WorldInv(w, taken) && BusyRecord(w, i)
    ensures taken <= i
  {
    hide Stored;
    hide RoundRecordLen;
  }

  lemma SameShapeChained(before: seq<Record>, after: seq<Record>, end: nat, k: nat)
    requires |before| == |after| && Chained(before, end)
    requires forall i :: 0 <= i < |before| ==> after[i].pos == before[i].pos && after[i].len == before[i].len
    ensures Chained(after, end) && StartOf(after, end, k) == StartOf(before, end, k)
  {
    hide RoundRecordLen;
    forall i | 0 <= i < |after| ensures Linked(after, end, i) {
      assert Linked(before, end, i);
    }
    forall i, j | 0 <= i < j < |after| ensures RecordEnd(after[i]) <= after[j].pos {
      assert RecordEnd(before[i]) <= before[j].pos;
    }
  }

  /** Settling or writing one busy record: the chain, the window and the other records are as before. */
  lemma RecordUpdated(w: World, taken: nat, i: nat, status: Status, data': RingData, w': World)
    requires WorldInv(w, taken) && BusyRecord(w, i) && |data'| == |w.data|
    requires forall j :: taken <= j < |w.records| && j != i ==> Stored(data', w.records[j])
    requires Stored(data', w.records[i].(status := status))
    requires w' == w.(data := data', records := SetStatus(w, i, status))
    ensures WorldInv(w', taken)
  {
    hide RoundRecordLen;
    hide Stored;
    hide Chained;
    hide StartOf;
    BusyIsLive(w, taken, i);
    SameShapeChained(w.records, w'.records, w.producerPos, taken);
  }

  lemma HeaderWritten(w: World, taken: nat, i: nat, word: u32, data': RingData)
    requires WorldInv(w, taken) && BusyRecord(w, i) && taken <= i
    requires data' == Put(w.data, w.records[i].pos, BytesOf(word))
    ensures WordOf(Bytes(data', w.records[i].pos, 4)) == word
    ensures Bytes(data', w.records[i].pos + HDR_SZ, w.records[i].len) == Bytes(w.data, w.records[i].pos + HDR_SZ, w.records[i].len)
  {
    hide RoundRecordLen;
    hide Put;
    hide Bytes;
    hide Stored;
    hide BytesOf;
    hide WorldInv;
    LiveSpan(w, taken, i);
    PutReads(w.data, w.consumerPos, w.records[i].pos, BytesOf(word));
    PutFrame(w.data, w.consumerPos, w.records[i].pos, BytesOf(word), w.records[i].pos + HDR_SZ, w.records[i].len);
  }

  lemma SettleKeeps(w: World, taken: nat, a: Action)
    requires WorldInv(w, taken) && Enabled(w, a) && (a.Commit? || a.Discard?)
    ensures WorldInv(Effect(w, a), taken)
  {
    hide RoundRecordLen;
    hide Put;
    hide Bytes;
    hide BytesOf;
    hide WorldInv;
    var i, w' := a.i, Effect(w, a);
    BusyIsLive(w, taken, i);
    LiveSpan(w, taken, i);
    var r := w.records[i];
    var word := if a.Commit? then r.len else DISCARD_BIT + r.len;
    OthersStored(w, taken, i, r.pos, BytesOf(word), w'.data);
    HeaderWritten(w, taken, i, word, w'.data);
    RecordUpdated(w, taken, i, w'.records[i].status, w'.data, w');
  }

  lemma WriteKeeps(w: World, taken: nat, a: Action)
    requires WorldInv(w, taken) && Enabled(w, a) && a.Write?
    ensures WorldInv(Effect(w, a), taken)
  {
    hide RoundRecordLen;
    hide Put;
    hide Bytes;
    hide BytesOf;
    hide WorldInv;
    var i, w' := a.i, Effect(w, a);
    BusyIsLive(w, taken, i);
    LiveSpan(w, taken, i);
    var r := w.records[i];
    var p := r.pos + HDR_SZ + a.j;
    OthersStored(w, taken, i, p, [a.b], w'.data);
    PutFrame(w.data, w.consumerPos, p, [a.b], r.pos, 4);
    StoredAt(w, taken, i);
    assert SetStatus(w, i, Busy) == w.records;
    RecordUpdated(w, taken, i, Busy, w'.data, w');
  }

  lemma StoredAt(w: World, taken: nat, i: nat)
    requires WorldInv(w, taken) && taken <= i < |w.records|
    ensures Stored(w.data, w.records[i])
  {
    hide Stored;
    hide RoundRecordLen;
  }

  lemma ChainGrows(records: seq<Record>, end: nat, r: Record, k: nat)
    requires Chained(records, end) && r.pos == end && k <= |records|
    ensures Chained(records + [r], RecordEnd(r))
    ensures StartOf(records + [r], RecordEnd(r), k) == StartOf(records, end, k)
  {
    hide RoundRecordLen;
    var after, end' := records + [r], RecordEnd(r);
    forall i | 0 <= i < |after| ensures Linked(after, end', i) {
      if i < |records| {
        assert Linked(records, end, i);
      }
    }
    forall i, j | 0 <= i < j < |after| ensures RecordEnd(after[i]) <= after[j].pos {
      assert Linked(records, end, i);
    }
  }

  lemma ReserveKeeps(w: World, taken: nat, a: Action)
    requires WorldInv(w, taken) && Enabled(w, a) && a.Reserve?
    ensures WorldInv(Effect(w, a), taken)
  {
    hide RoundRecordLen;
    hide Put;
    hide BytesOf;
    hide Bytes;
    hide Chained;
    hide StartOf;
    var w', r := Effect(w, a), Record(w.producerPos, a.len, Busy);
    var s := BytesOf(BUSY_BIT + a.len) + a.pad;
    ChainGrows(w.records, w.producerPos, r, taken);
    WindowStart(w, taken);
    forall i | taken <= i < |w'.records| ensures Stored(w'.data, w'.records[i]) {
      if i < |w.records| {
        LiveSpan(w, taken, i);
        StoredElsewhere(w.data, w.consumerPos, w.producerPos, s, w.records[i], w'.data);
      } else {
        NewHeader(w.data, w.consumerPos, w.producerPos, BUSY_BIT + a.len, a.pad, w'.data);
      }
    }
  }

  lemma WindowStart(w: World, taken: nat)
    requires WorldInv(w, taken)
    ensures w.consumerPos <= w.producerPos
  {
    hide RoundRecordLen;
    hide Stored;
    if taken < |w.records| {
      assert Linked(w.records, w.producerPos, taken);
    }
  }

  lemma NewHeader(data: RingData, c: nat, p: nat, word: u32, pad: seq<byte>, data': RingData)
    requires c <= p && p + 8 <= c + |data| && |pad| == 4
    requires data' == Put(data, p, BytesOf(word) + pad)
    ensures WordOf(Bytes(data', p, 4)) == word
  {
    hide Put;
    hide BytesOf;
    hide At;
    var s := BytesOf(word) + pad;
    PutReads(data, c, p, s);
    assert Bytes(data', p, 4) == s[..4];
    assert s[..4] == BytesOf(word);
  }

  lemma WorldKept(w: World, taken: nat, a: Action)
    requires WorldInv(w, taken) && Enabled(w, a)
    ensures WorldInv(Effect(w, a), taken)
  {
    hide WorldInv;
    hide Effect;
    hide RoundRecordLen;
    match a
    case Reserve(_, _) => ReserveKeeps(w, taken, a);
    case Write(_, _, _) => WriteKeeps(w, taken, a);
    case Commit(_) => SettleKeeps(w, taken, a);
    case Discard(_) => SettleKeeps(w, taken, a);
  }

  lemma ProducerKeepsInv(s: System, a: Action)
    requires Inv(s) && Enabled(s.w, a)
    ensures Inv(Step(s, Produce(a)))
  {
    hide Effect;
    hide Enabled;
    hide Payloads;
    hide RoundRecordLen;
    hide Chained;
    hide AllStored;
    EffectExtends(s.w, a);
    WorldKept(s.w, s.taken, a);
    PayloadsStable(s.w.records, Effect(s.w, a).records, s.taken);
  }

  // ----- every run -----

  /** Every reachable state satisfies the invariant, whatever the interleaving. */
  lemma {:induction false} RunKeepsInv(s: System, ms: seq<Move>)
    requires Inv(s) && Legal(s, ms)
    ensures Inv(Play(s, ms))
    decreases |ms|
  {
    hide Inv;
    hide Enabled;
    if ms != [] {
      var last := |ms| - 1;
      var front := ms[..last];
      forall k | 0 <= k < |front| && front[k].Produce? ensures Enabled(Play(s, front[..k]).w, front[k].a) {
        assert front[..k] == ms[..k];
      }
      RunKeepsInv(s, front);
      match ms[last] {
        case Consume => ConsumerKeepsInv(Play(s, front));
        case Produce(a) => ProducerKeepsInv(Play(s, front), a);
      }
    }
  }
}
