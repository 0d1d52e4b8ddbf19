/** What the ring-buffer protocol guarantees over every interleaving. */
module RingGuarantees {
  import opened Assembler
  import opened Bits
  import opened RingGeometry
  import opened RingProtocol

  lemma InitialInv(s: System)
    requires Initial(s)
    ensures Inv(s)
  {}

  /** The number of records delivered or skipped so far, the one in the callback included. */
  ghost function Handled(s: System): nat {
    if s.c.InCallback? then s.taken + 1 else s.taken
  }

  /**
   * What the callback got is exactly the payloads of the committed records among
   * the first Handled ones, in reservation order; none of these is still busy;
   * the published consumer position is a record boundary not past the producer.
   */
  ghost predicate InOrder(t: System) {
    && Handled(t) <= |t.w.records|
    && t.delivered == Payloads(t.w.records, Handled(t))
    && NoneBusy(t.w.records, Handled(t))
    && t.w.consumerPos == StartOf(t.w.records, t.w.producerPos, t.taken) <= t.w.producerPos
    && t.w.producerPos <= t.w.consumerPos + |t.w.data|
  }

  lemma InvInOrder(t: System)
    requires Inv(t)
    ensures InOrder(t)
  {
    hide RoundRecordLen;
    hide AllStored;
    hide Chained;
    WindowStart(t.w, t.taken);
  }

  /** In every interleaving from an empty ring, across any number of polls, delivery is in order and exactly once. */
  lemma DeliveryInOrder(s: System, ms: seq<Move>)
    requires Initial(s) && Legal(s, ms)
    ensures InOrder(Play(s, ms))
  {
    hide Play;
    hide Inv;
    hide Legal;
    hide InOrder;
    InitialInv(s);
    RunKeepsInv(s, ms);
    InvInOrder(Play(s, ms));
  }

  // ----- nothing is delivered twice, taken back or reordered later -----

  /** One move only adds to what has been delivered, published, reserved and settled. */
  ghost predicate Grows(s: System, t: System) {
    && s.delivered <= t.delivered
    && s.taken <= t.taken && s.polls <= t.polls
    && s.w.consumerPos <= t.w.consumerPos
    && s.w.producerPos <= t.w.producerPos
    && Extends(s.w.records, t.w.records)
    && |s.w.data| == |t.w.data|
  }

  lemma MoveGrows(s: System, m: Move)
    requires Inv(s) && (m.Produce? ==> Enabled(s.w, m.a))
    ensures Grows(s, Step(s, m))
  {
    hide Effect;
    hide Enabled;
    hide WorldInv;
    hide Payloads;
    match m
    case Produce(a) => EffectExtends(s.w, a);
    case Consume =>
  }

  lemma GrowsTransitive(s: System, t: System, u: System)
    requires Grows(s, t) && Grows(t, u)
    ensures Grows(s, u)
  {}

  lemma LegalPrefix(s: System, ms: seq<Move>, n: nat)
    requires Legal(s, ms) && n <= |ms|
    ensures Legal(s, ms[..n])
  {
    hide Enabled;
    forall k | 0 <= k < n && ms[..n][k].Produce? ensures Enabled(Play(s, ms[..n][..k]).w, ms[..n][k].a) {
      assert ms[..n][..k] == ms[..k];
    }
  }

  /** An earlier moment of a run grows into every later one. */
  lemma {:induction false} RunGrows(s: System, ms: seq<Move>, n: nat)
    requires Inv(s) && Legal(s, ms) && n <= |ms|
    ensures Grows(Play(s, ms[..n]), Play(s, ms))
    decreases |ms|
  {
    hide Inv;
    hide Enabled;
    hide Grows;
    if n == |ms| {
      assert ms[..n] == ms;
      GrowsReflexive(Play(s, ms));
    } else {
      var last := |ms| - 1;
      LegalPrefix(s, ms, last);
      RunGrows(s, ms[..last], n);
      assert ms[..last][..n] == ms[..n];
      RunKeepsInv(s, ms[..last]);
      MoveGrows(Play(s, ms[..last]), ms[last]);
      GrowsTransitive(Play(s, ms[..n]), Play(s, ms[..last]), Play(s, ms));
    }
  }

  lemma GrowsReflexive(s: System)
    ensures Grows(s, s)
  {}

  // ----- the slice in the callback -----

  /** The slice given to the running callback still reads as the payload, and its bytes are not released. */
  ghost predicate SliceIntact(t: System)
    requires t.c.InCallback?
  {
    && t.taken < |t.w.records|
    && t.w.consumerPos == t.c.slot == t.w.records[t.taken].pos
    && WithinMapping(t.w.data, t.c.slot, t.c.raw)
    && t.delivered != []
    && ReadPayload(t.w.data, t.c.slot, t.c.raw) == t.delivered[|t.delivered| - 1]
  }

  lemma InvSliceIntact(t: System)
    requires Inv(t) && t.c.InCallback?
    ensures SliceIntact(t)
  {
    hide RoundRecordLen;
    hide WorldInv;
    hide ReadPayload;
    hide WithinMapping;
    hide DataLen;
    NextRecord(t.w, t.taken);
    HeaderFacts(t.w.records[t.taken]);
    GuardAccepts(t.w, t.taken, t.c.slot, t.c.raw);
  }

  /**
   * As long as a callback runs, whatever the producer does meanwhile, the slice
   * it was given keeps its bytes, and the published position is the record's start.
   */
  lemma SliceStable(s: System, ms: seq<Move>)
    requires Initial(s) && Legal(s, ms) && Play(s, ms).c.InCallback?
    ensures SliceIntact(Play(s, ms))
  {
    hide Play;
    hide Inv;
    hide Legal;
    hide SliceIntact;
    InitialInv(s);
    RunKeepsInv(s, ms);
    InvSliceIntact(Play(s, ms));
  }

  ghost predicate GuardPasses(t: System) {
    t.c.Loaded? && !IsBusy(t.c.raw) && !IsDiscarded(t.c.raw) ==> WithinMapping(t.w.data, t.c.slot, t.c.raw)
  }

  /** The bounds guard never stops a poll that follows the protocol. */
  lemma GuardNeverRejects(s: System, ms: seq<Move>)
    requires Initial(s) && Legal(s, ms)
    ensures GuardPasses(Play(s, ms))
  {
    hide Play;
    hide Legal;
    hide WorldInv;
    hide RoundRecordLen;
    InitialInv(s);
    RunKeepsInv(s, ms);
    var t := Play(s, ms);
    if t.c.Loaded? && !IsBusy(t.c.raw) && !IsDiscarded(t.c.raw) {
      GuardAccepts(t.w, t.taken, t.c.slot, t.c.raw);
    }
  }

  // ----- where a poll stops -----

  /** The header load tells whether the next record is busy at that moment. */
  lemma LoadSeesStatus(s: System)
    requires Inv(s) && s.c.Inner? && s.c.pos < s.c.limit
    ensures s.taken < |s.w.records| && ConsumerStep(s).c.Loaded?
    ensures IsBusy(ConsumerStep(s).c.raw) <==> s.w.records[s.taken].status.Busy?
  {
    hide WorldInv;
    hide RoundRecordLen;
    hide ReadHeader;
    hide IsBusy;
    NextRecord(s.w, s.taken);
    HeaderFacts(s.w.records[s.taken]);
  }

  /**
   * A poll ends in two ways only: the header it loaded was busy, or every
   * record reserved before its last look at the producer position is handled.
   */
  lemma PollEnds(s: System)
    requires Inv(s) && !s.c.Idle? && ConsumerStep(s).c.Idle?
    ensures || (s.c.Loaded? && IsBusy(s.c.raw))
            || (s.c.Inner? && !s.c.any
                && forall i :: 0 <= i < |s.w.records| && s.w.records[i].pos < s.c.limit ==> i < s.taken)
  {
    hide RoundRecordLen;
    hide IsBusy;
    hide IsDiscarded;
    hide Stored;
    if s.c.Loaded? {
      if !IsBusy(s.c.raw) && !IsDiscarded(s.c.raw) {
        DeliverKeeps(s);
      }
    } else {
      forall i | 0 <= i < |s.w.records| && s.w.records[i].pos < s.c.limit ensures i < s.taken {
        if s.taken <= i {
          LiveSpan(s.w, s.taken, i);
        }
      }
    }
  }

  // ----- a poll misses nothing -----

  /** At moment `k` of the run, record `i` is reserved and still busy. */
  ghost predicate BusyAt(s: System, ms: seq<Move>, k: nat, i: nat)
    requires k <= |ms|
  {
    i < |Play(s, ms[..k]).w.records| && Play(s, ms[..k]).w.records[i].status.Busy?
  }

  /** Between moments `a` and `b`, record `i` was busy at some moment. */
  ghost predicate BusySeen(s: System, ms: seq<Move>, a: nat, b: nat, i: nat)
    requires b <= |ms|
  {
    exists k :: a <= k <= b && BusyAt(s, ms, k, i)
  }

  /** The poll begun after moment `a` is over at `t` only if it met a busy record or handled all that was there at `a`. */
  ghost predicate Progress(s: System, ms: seq<Move>, a: nat, b: nat, from: System, t: System)
    requires b <= |ms|
  {
    && (t.polls == from.polls ==> t.c.Idle?)
    && (t.polls == from.polls + 1 ==>
          match t.c
          case Idle => BusySeen(s, ms, a, b, t.taken) || |from.w.records| <= t.taken
          case Outer(_) => true
          case Inner(_, limit, _) => from.w.producerPos <= limit
          case Loaded(_, limit, _, raw) =>
            from.w.producerPos <= limit && (IsBusy(raw) ==> BusySeen(s, ms, a, b, t.taken))
          case InCallback(_, limit, _, _) => from.w.producerPos <= limit)
  }

  /** Everything reserved below the limit has been handled once the position reaches it. */
  lemma LimitReached(from: System, t: System)
    requires Inv(from) && Inv(t) && Grows(from, t)
    requires t.c.Inner? && t.c.limit <= t.c.pos && from.w.producerPos <= t.c.limit
    ensures |from.w.records| <= t.taken
  {
    hide RoundRecordLen;
    hide WorldInv;
    AllEndBelow(from.w, from.taken);
    TakenBound(t);
    if t.taken < |t.w.records| {
      NextRecord(t.w, t.taken);
    }
  }

  lemma AllEndBelow(w: World, taken: nat)
    requires WorldInv(w, taken)
    ensures forall i :: 0 <= i < |w.records| ==> w.records[i].pos < w.producerPos
  {
    hide RoundRecordLen;
    hide Stored;
    forall i | 0 <= i < |w.records| ensures w.records[i].pos < w.producerPos {
      assert Linked(w.records, w.producerPos, i);
    }
  }

  lemma ProgressStep(s: System, ms: seq<Move>, a: nat, b: nat, from: System, t: System, u: System)
    requires a <= b < |ms| && t == Play(s, ms[..b]) && u == Step(t, ms[b])
    requires Inv(from) && Inv(t) && Grows(from, t)
    requires Progress(s, ms, a, b, from, t)
    ensures Progress(s, ms, a, b + 1, from, u)
  {
    hide Play;
    hide Inv;
    hide Effect;
    hide IsBusy;
    hide IsDiscarded;
    hide BusyAt;
    hide After;
    hide WithinMapping;
    hide ReadPayload;
    hide ReadHeader;
    if ms[b].Consume? {
      if t.c.Inner? {
        if t.c.pos < t.c.limit {
          LoadSeesStatus(t);
          if IsBusy(u.c.raw) {
            BusyNow(s, ms, b, t);
          }
        } else if t.polls == from.polls + 1 {
          LimitReached(from, t);
        }
      } else if t.c.Loaded? && !IsBusy(t.c.raw) && !IsDiscarded(t.c.raw) {
        DeliverKeeps(t);
      }
    }
  }

  lemma BusyNow(s: System, ms: seq<Move>, b: nat, t: System)
    requires b < |ms| && t == Play(s, ms[..b])
    requires t.taken < |t.w.records| && t.w.records[t.taken].status.Busy?
    ensures BusyAt(s, ms, b, t.taken)
  {}

  lemma {:induction false} PollProgress(s: System, ms: seq<Move>, a: nat, b: nat)
    requires Inv(s) && Legal(s, ms) && a <= b <= |ms| && Play(s, ms[..a]).c.Idle?
    ensures Progress(s, ms, a, b, Play(s, ms[..a]), Play(s, ms[..b]))
    decreases b
  {
    hide Inv;
    hide Step;
    hide Grows;
    hide Progress;
    hide Enabled;
    var from := Play(s, ms[..a]);
    if a == b {
      ProgressStart(s, ms, a);
    } else {
      PollProgress(s, ms, a, b - 1);
      LegalPrefix(s, ms, a);
      LegalPrefix(s, ms, b - 1);
      RunKeepsInv(s, ms[..a]);
      RunKeepsInv(s, ms[..b - 1]);
      RunGrows(s, ms[..b - 1], a);
      assert ms[..b - 1][..a] == ms[..a];
      assert ms[..b][..b - 1] == ms[..b - 1];
      ProgressStep(s, ms, a, b - 1, from, Play(s, ms[..b - 1]), Play(s, ms[..b]));
    }
  }

  lemma ProgressStart(s: System, ms: seq<Move>, a: nat)
    requires a <= |ms| && Play(s, ms[..a]).c.Idle?
    ensures Progress(s, ms, a, a, Play(s, ms[..a]), Play(s, ms[..a]))
  {}

  /**
   * A whole poll, from moment `a` to moment `b` of any interleaving: it stops
   * before a record that was busy at some moment meanwhile, or it has handled
   * every record that was reserved when it began.
   */
  lemma PollMissesNothing(s: System, ms: seq<Move>, a: nat, b: nat)
    requires Initial(s) && Legal(s, ms) && a <= b <= |ms|
    requires Play(s, ms[..a]).c.Idle? && Play(s, ms[..b]).c.Idle?
    requires Play(s, ms[..b]).polls == Play(s, ms[..a]).polls + 1
    ensures BusySeen(s, ms, a, b, Play(s, ms[..b]).taken) || |Play(s, ms[..a]).w.records| <= Play(s, ms[..b]).taken
  {
    hide Play;
    hide Inv;
    hide Legal;
    hide BusySeen;
    InitialInv(s);
    PollProgress(s, ms, a, b);
  }

  // ----- a poll with a quiet producer drains the ring -----

  function ConsumeTimes(s: System, n: nat): System
    decreases n
  {
    if n == 0 then s else ConsumeTimes(ConsumerStep(s), n - 1)
  }

  lemma {:induction false} ConsumeCompose(s: System, a: nat, b: nat)
    ensures ConsumeTimes(s, a + b) == ConsumeTimes(ConsumeTimes(s, a), b)
    decreases a
  {
    hide ConsumerStep;
    if a > 0 {
      ConsumeCompose(ConsumerStep(s), a - 1, b);
    }
  }

  lemma FewSteps(s: System)
    ensures ConsumeTimes(s, 1) == ConsumerStep(s)
    ensures ConsumeTimes(s, 2) == ConsumerStep(ConsumerStep(s))
    ensures ConsumeTimes(s, 3) == ConsumerStep(ConsumerStep(ConsumerStep(s)))
  {}

  function Consumes(n: nat): seq<Move> {
    if n == 0 then [] else Consumes(n - 1) + [Consume]
  }

  /** Consumer steps in a row are the interleaving without producer moves. */
  lemma {:induction false} ConsumeIsPlay(s: System, n: nat)
    ensures ConsumeTimes(s, n) == Play(s, Consumes(n))
  {
    hide ConsumerStep;
    if n > 0 {
      ConsumeIsPlay(s, n - 1);
      ConsumeCompose(s, n - 1, 1);
      assert Consumes(n)[..|Consumes(n)| - 1] == Consumes(n - 1);
    }
  }

  ghost function FirstBusy(records: seq<Record>, k: nat): nat
    requires k <= |records|
    decreases |records| - k
  {
    if k == |records| || records[k].status.Busy? then k else FirstBusy(records, k + 1)
  }

  /** Handling one settled record takes at most three steps. */
  lemma HandleOne(s: System) returns (n: nat, t: System)
    requires Inv(s) && s.c.Inner? && s.c.pos < s.c.limit
    requires s.taken < |s.w.records| && !s.w.records[s.taken].status.Busy?
    ensures t == ConsumeTimes(s, n) && n <= 3 && Inv(t)
    ensures t.c.Inner? && t.c.limit == s.c.limit && t.c.any
    ensures t.taken == s.taken + 1 && t.w.records == s.w.records && t.w.producerPos == s.w.producerPos
  {
    hide Inv;
    hide IsBusy;
    hide IsDiscarded;
    hide ReadHeader;
    hide WithinMapping;
    hide ReadPayload;
    hide After;
    hide ConsumeTimes;
    FewSteps(s);
    LoadSeesStatus(s);
    ConsumerKeepsInv(s);
    var s1 := ConsumerStep(s);
    var s2 := ConsumerStep(s1);
    ConsumerKeepsInv(s1);
    if IsDiscarded(s1.c.raw) {
      n, t := 2, s2;
    } else {
      DeliverKeeps(s1);
      ConsumerKeepsInv(s2);
      n, t := 3, ConsumerStep(s2);
    }
  }

  /** From the inner loop, with the producer position known and the producer quiet. */
  lemma {:induction false} Drain(s: System) returns (n: nat, t: System)
    requires Inv(s) && s.c.Inner? && s.c.limit == s.w.producerPos
    ensures t == ConsumeTimes(s, n) && Inv(t) && t.c.Idle?
    ensures n <= 3 * (|s.w.records| - s.taken) + 5
    ensures s.taken <= |s.w.records| && t.w.records == s.w.records && t.taken == FirstBusy(s.w.records, s.taken)
    decreases |s.w.records| - s.taken
  {
    hide IsBusy;
    hide IsDiscarded;
    hide ReadHeader;
    hide Inv;
    hide Release;
    hide ConsumeTimes;
    FewSteps(s);
    InnerStatus(s);
    if s.c.pos == s.c.limit {
      n, t := DrainDone(s);
    } else if s.w.records[s.taken].status.Busy? {
      LoadSeesStatus(s);
      ConsumerKeepsInv(s);
      ConsumerKeepsInv(ConsumerStep(s));
      n, t := 2, ConsumerStep(ConsumerStep(s));
    } else {
      var k, u := HandleOne(s);
      n, t := Drain(u);
      ConsumeCompose(s, k, n);
      n := k + n;
    }
  }

  lemma InnerStatus(s: System)
    requires Inv(s) && s.c.Inner? && s.c.limit == s.w.producerPos
    ensures s.taken <= |s.w.records| && s.c.pos <= s.c.limit
    ensures s.c.pos == s.c.limit <==> s.taken == |s.w.records|
  {
    hide RoundRecordLen;
    hide Stored;
    WindowStart(s.w, s.taken);
    if s.taken < |s.w.records| {
      NextRecord(s.w, s.taken);
    }
  }

  lemma DrainDone(s: System) returns (n: nat, t: System)
    requires Inv(s) && s.c.Inner? && s.c.limit == s.w.producerPos == s.c.pos
    ensures t == ConsumeTimes(s, n) && Inv(t) && t.c.Idle? && n <= 3
    ensures t.w == s.w && t.taken == s.taken
  {
    hide WorldInv;
    hide ConsumeTimes;
    FewSteps(s);
    n, t := if s.c.any then 3 else 1, s.(c := Idle);
  }

  /**
   * A poll during which the producer is quiet returns after at most
   * 3 * records + 7 steps, having delivered exactly the committed payloads up to
   * the first busy record, and nothing behind it.
   */
  lemma QuietPollDrains(s: System) returns (n: nat, t: System)
    requires Inv(s) && s.c.Idle?
    ensures t == Play(s, Consumes(n)) && t.c.Idle? && n <= 3 * (|s.w.records| - s.taken) + 7
    ensures s.taken <= |s.w.records| && t.w.records == s.w.records
    ensures t.taken == FirstBusy(s.w.records, s.taken) <= |s.w.records|
    ensures t.delivered == Payloads(s.w.records, t.taken)
  {
    hide WorldInv;
    hide Payloads;
    hide ConsumeTimes;
    hide Play;
    FewSteps(s);
    ConsumerKeepsInv(s);
    ConsumerKeepsInv(ConsumerStep(s));
    n, t := Drain(ConsumerStep(ConsumerStep(s)));
    ConsumeCompose(s, 2, n);
    n := n + 2;
    ConsumeIsPlay(s, n);
    TakenBound(t);
  }

  lemma TakenBound(s: System)
    requires Inv(s)
    ensures s.taken <= |s.w.records|
  {}

  // ----- a record that is reserved and committed arrives -----

  lemma PlayOne(s: System, ms: seq<Move>, m: Move)
    ensures Play(s, ms + [m]) == Step(Play(s, ms), m)
  {
    hide Step;
    assert (ms + [m])[..|ms|] == ms;
  }

  lemma {:induction false} PlayThenConsume(s: System, ms: seq<Move>, n: nat)
    ensures Play(s, ms + Consumes(n)) == Play(Play(s, ms), Consumes(n))
  {
    hide Step;
    if n == 0 {
      assert ms + Consumes(0) == ms;
    } else {
      hide Play;
      var rest := Consumes(n - 1);
      assert Consumes(n) == rest + [Consume];
      PlayThenConsume(s, ms, n - 1);
      hide Consumes;
      assert ms + (rest + [Consume]) == (ms + rest) + [Consume];
      PlayOne(s, ms + rest, Consume);
      PlayOne(Play(s, ms), rest, Consume);
    }
  }

  ghost function ReserveAndCommit(len: RecordLen, pad: seq<byte>): seq<Move> {
    [Produce(Reserve(len, pad)), Produce(Commit(0))]
  }

  lemma ReservedAndCommitted(s: System, len: RecordLen, pad: seq<byte>) returns (t: System)
    requires Initial(s) && Enabled(s.w, Reserve(len, pad))
    ensures t == Play(s, ReserveAndCommit(len, pad)) && Legal(s, ReserveAndCommit(len, pad)) && t.c.Idle?
    ensures |t.w.records| == 1 && t.w.records[0].status.Committed? && |t.w.records[0].status.payload| == len
    ensures t.taken == 0
  {
    hide RoundRecordLen;
    hide Put;
    hide BytesOf;
    var ms := ReserveAndCommit(len, pad);
    var s1 := Step(s, ms[0]);
    t := Step(s1, ms[1]);
    assert ms[..0] == [] && ms[..1] == [ms[0]] && [ms[0]][..0] == [];
    assert Play(s, ms[..0]) == s && Play(s, ms[..1]) == s1;
  }

  /** From every empty ring: reserve, commit, poll is a legal run, and the callback gets one payload of that length. */
  lemma OneRecordArrives(s: System, len: RecordLen, pad: seq<byte>) returns (n: nat, t: System)
    requires Initial(s) && Enabled(s.w, Reserve(len, pad))
    ensures Legal(s, ReserveAndCommit(len, pad))
    ensures t == Play(s, ReserveAndCommit(len, pad) + Consumes(n)) && t.c.Idle?
    ensures |t.delivered| == 1 && |t.delivered[0]| == len
  {
    hide Play;
    hide Legal;
    hide Enabled;
    hide Inv;
    hide ReserveAndCommit;
    var u := ReservedAndCommitted(s, len, pad);
    InitialInv(s);
    RunKeepsInv(s, ReserveAndCommit(len, pad));
    n, t := QuietPollDrains(u);
    PlayThenConsume(s, ReserveAndCommit(len, pad), n);
    assert FirstBusy(u.w.records, 0) == FirstBusy(u.w.records, 1) == 1;
  }

  // ----- whatever the producer does -----

  /** The local position is the published one, and a slice in use lies within the two copies. */
  ghost predicate Coherent(s: System) {
    match s.c
    case Idle => true
    case Outer(pos) => pos == s.w.consumerPos
    case Inner(pos, _, _) => pos == s.w.consumerPos
    case Loaded(slot, _, _, _) => slot == s.w.consumerPos
    case InCallback(slot, _, _, raw) =>
      slot == s.w.consumerPos && slot % |s.w.data| + 8 + raw % 0x4000_0000 <= 2 * |s.w.data|
  }

  /** Any move at all, corruption of all bytes and positions included, keeps this and never moves the consumer back. */
  lemma AnyMove(s: System, m: Move)
    requires Coherent(s)
    ensures Coherent(Step(s, m))
    ensures s.w.consumerPos <= Step(s, m).w.consumerPos
    ensures Step(s, m).c.Loaded? && m.Consume? ==> Offset(s.w.data, Step(s, m).c.slot) + HDR_SZ <= 2 * |s.w.data|
  {}

  /** With arbitrary bytes and headers: reads stay within bounds and published positions never go back. */
  lemma {:induction false} AnyRun(s: System, ms: seq<Move>, n: nat)
    requires Coherent(s) && n <= |ms|
    ensures Coherent(Play(s, ms))
    ensures Play(s, ms[..n]).w.consumerPos <= Play(s, ms).w.consumerPos
    decreases |ms|
  {
    hide Coherent;
    hide Step;
    if n == |ms| {
      assert ms[..n] == ms;
    }
    if ms != [] {
      var last := |ms| - 1;
      AnyRun(s, ms[..last], if n < |ms| then n else 0);
      AnyMove(Play(s, ms[..last]), ms[last]);
      if n < |ms| {
        assert ms[..last][..n] == ms[..n];
      }
    }
  }

  /** A record length: header and data rounded up to a multiple of 8. */
  ghost predicate IsRecordLength(n: int, dataLen: int) {
    n % 8 == 0 && dataLen + 8 <= n < dataLen + 16
  }

  /**
   * What the consumer does with a loaded header, for arbitrary bytes. Bit 31:
   * stop before the record. Bit 30: step over it. Neither, and the data would
   * leave the two copies: stop before it too. Otherwise: hand out the data.
   */
  lemma HeaderDecides(s: System)
    requires Coherent(s) && s.c.Loaded?
    ensures var t, raw, len, n := ConsumerStep(s), s.c.raw, s.c.raw % 0x4000_0000, |s.w.data|;
      if raw >= 0x8000_0000 then t == s.(c := Idle)
      else if raw >= 0x4000_0000 then
        && t.c == Inner(t.w.consumerPos, s.c.limit, true)
        && t.w == s.w.(consumerPos := t.w.consumerPos) && IsRecordLength(t.w.consumerPos - s.w.consumerPos, len)
        && t.delivered == s.delivered && t.taken == s.taken + 1
      else if s.w.consumerPos % n + 8 + raw > 2 * n then t == s.(c := Idle)
      else
        && t.c == InCallback(s.c.slot, s.c.limit, s.c.any, raw) && t.w == s.w
        && t.delivered == s.delivered + [Bytes(s.w.data, s.w.consumerPos + 8, raw)] && t.taken == s.taken
  {
    hide RoundRecordLen;
    hide IsBusy;
    hide IsDiscarded;
    hide DataLen;
    hide WithinMapping;
    hide ReadPayload;
  }

  /** The inner loop loads the header at its position, byte for byte, or leaves when the position has reached the limit. */
  lemma LoopDecides(s: System)
    requires Coherent(s) && s.c.Inner?
    ensures var t, pos, data := ConsumerStep(s), s.w.consumerPos, s.w.data;
      if pos < s.c.limit then
        && t == s.(c := Loaded(pos, s.c.limit, s.c.any, t.c.raw))
        && t.c.raw % 0x100 == At(data, pos) && (t.c.raw / 0x100) % 0x100 == At(data, pos + 1)
        && (t.c.raw / 0x1_0000) % 0x100 == At(data, pos + 2) && t.c.raw / 0x100_0000 == At(data, pos + 3)
      else t == s.(c := if s.c.any then Outer(pos) else Idle)
  {
    hide ReadHeader;
  }

  /** The callback returns: only now is the record stepped over. */
  lemma CallbackReturns(s: System)
    requires Coherent(s) && s.c.InCallback?
    ensures var t := ConsumerStep(s);
      && t.c == Inner(t.w.consumerPos, s.c.limit, true)
      && t.w == s.w.(consumerPos := t.w.consumerPos)
      && IsRecordLength(t.w.consumerPos - s.w.consumerPos, s.c.raw % 0x4000_0000)
      && t.delivered == s.delivered && t.taken == s.taken + 1
  {
    hide RoundRecordLen;
    hide DataLen;
  }

  /** At moment `j` of the run the consumer hands out the data of the record at `pos` under header `raw`. */
  ghost predicate HandsOut(s: System, ms: seq<Move>, j: nat, pos: nat, raw: u32)
    requires j < |ms|
  {
    var t, u := Play(s, ms[..j]), Play(s, ms[..j + 1]);
    && ms[j].Consume? && t.w.consumerPos == pos && raw < 0x4000_0000
    && u.delivered == t.delivered + [Bytes(t.w.data, pos + 8, raw)]
  }

  /** While a callback runs, the last thing delivered is the data of its record. */
  ghost predicate CameFromDelivery(s: System, ms: seq<Move>, k: nat)
    requires k <= |ms| && Play(s, ms[..k]).c.InCallback?
  {
    var t := Play(s, ms[..k]);
    exists j :: 0 <= j < k && HandsOut(s, ms, j, t.w.consumerPos, t.c.raw) && t.delivered == Play(s, ms[..j + 1]).delivered
  }

  lemma PlayNext(s: System, ms: seq<Move>, k: nat)
    requires k < |ms|
    ensures Play(s, ms[..k + 1]) == Step(Play(s, ms[..k]), ms[k])
  {
    hide Step;
    assert ms[..k + 1][..k] == ms[..k];
  }

  lemma CoherentAt(s: System, ms: seq<Move>, k: nat)
    requires Coherent(s) && k <= |ms|
    ensures Coherent(Play(s, ms[..k]))
  {
    hide Play;
    hide Coherent;
    AnyRun(s, ms[..k], 0);
  }

  lemma {:induction false} CallbackCame(s: System, ms: seq<Move>, k: nat)
    requires Coherent(s) && !s.c.InCallback? && k <= |ms|
    ensures Play(s, ms[..k]).c.InCallback? ==> CameFromDelivery(s, ms, k)
    decreases k
  {
    hide Coherent;
    hide HandsOut;
    if k > 0 {
      CallbackCame(s, ms, k - 1);
      CoherentAt(s, ms, k - 1);
      PlayNext(s, ms, k - 1);
      CallbackStep(s, ms, k - 1);
    }
  }

  lemma CallbackStep(s: System, ms: seq<Move>, k: nat)
    requires k < |ms| && Coherent(Play(s, ms[..k]))
    requires Play(s, ms[..k + 1]) == Step(Play(s, ms[..k]), ms[k])
    requires Play(s, ms[..k]).c.InCallback? ==> CameFromDelivery(s, ms, k)
    ensures Play(s, ms[..k + 1]).c.InCallback? ==> CameFromDelivery(s, ms, k + 1)
  {
    hide Play;
    hide Effect;
    hide Coherent;
    var t, u := Play(s, ms[..k]), Play(s, ms[..k + 1]);
    if u.c.InCallback? {
      if ms[k].Produce? {
        hide HandsOut;
        var j :| 0 <= j < k && HandsOut(s, ms, j, t.w.consumerPos, t.c.raw) && t.delivered == Play(s, ms[..j + 1]).delivered;
      } else {
        EntersCallback(t);
        HeaderDecides(t);
        assert HandsOut(s, ms, k, t.w.consumerPos, t.c.raw);
      }
    }
  }

  lemma EntersCallback(t: System)
    requires ConsumerStep(t).c.InCallback?
    ensures t.c.Loaded?
  {}

  /** The step from `t` to `u` passes over a record it may pass over: discarded, or handed out at an earlier moment. */
  ghost predicate PassesRightly(s: System, ms: seq<Move>, k: nat)
    requires k < |ms|
  {
    var t, u := Play(s, ms[..k]), Play(s, ms[..k + 1]);
    u.w.consumerPos != t.w.consumerPos ==>
      && ms[k].Consume? && (t.c.Loaded? || t.c.InCallback?)
      && IsRecordLength(u.w.consumerPos - t.w.consumerPos, t.c.raw % 0x4000_0000)
      && u.delivered == t.delivered && u.taken == t.taken + 1
      && if t.c.Loaded? then 0x4000_0000 <= t.c.raw < 0x8000_0000 else CameFromDelivery(s, ms, k)
  }

  /** Over every run, corruption included, the published position moves only over such records. */
  lemma AdvancesRightly(s: System, ms: seq<Move>, k: nat)
    requires Coherent(s) && !s.c.InCallback? && k < |ms|
    ensures PassesRightly(s, ms, k)
  {
    hide Play;
    hide Coherent;
    hide CameFromDelivery;
    CoherentAt(s, ms, k);
    PlayNext(s, ms, k);
    CallbackCame(s, ms, k);
    var t := Play(s, ms[..k]);
    if ms[k].Consume? {
      if t.c.Loaded? {
        HeaderDecides(t);
      } else if t.c.InCallback? {
        CallbackReturns(t);
      }
    }
  }

  /** Over every run: a record whose data would leave the two copies ends the poll, and nothing else changes. */
  lemma RejectedStops(s: System, ms: seq<Move>, k: nat)
    requires Coherent(s) && k < |ms| && ms[k].Consume? && Play(s, ms[..k]).c.Loaded?
    requires var t := Play(s, ms[..k]);
      t.c.raw < 0x4000_0000 && t.w.consumerPos % |t.w.data| + 8 + t.c.raw > 2 * |t.w.data|
    ensures Play(s, ms[..k + 1]) == Play(s, ms[..k]).(c := Idle)
  {
    hide Play;
    hide Coherent;
    CoherentAt(s, ms, k);
    PlayNext(s, ms, k);
    HeaderDecides(Play(s, ms[..k]));
  }

  /** With arbitrary bytes but a quiet producer, a poll in its inner loop returns. */
  lemma {:induction false} QuietReturns(s: System) returns (n: nat)
    requires s.c.Inner? && s.c.limit == s.w.producerPos
    ensures ConsumeTimes(s, n).c.Idle?
    decreases if s.c.pos < s.c.limit then s.c.limit - s.c.pos else 0
  {
    hide ConsumeTimes;
    hide RoundRecordLen;
    hide IsBusy;
    hide IsDiscarded;
    hide WithinMapping;
    hide ReadPayload;
    hide ReadHeader;
    FewSteps(s);
    if s.c.pos >= s.c.limit {
      n := if s.c.any then 3 else 1;
    } else {
      var k := if ConsumeTimes(s, 2).c.InCallback? then 3 else 2;
      var t := ConsumeTimes(s, k);
      if t.c.Idle? {
        n := k;
      } else {
        n := QuietReturns(t);
        ConsumeCompose(s, k, n);
        n := k + n;
      }
    }
  }
}
