/** The consumer itself (src/loader/ringbuf.rs, `consume_ring_records`), run against any schedule of the producer. */
module RingConsumer {
  import opened Assembler
  import opened Bits
  import opened RingGeometry
  import opened RingProtocol
  import opened RingGuarantees

  /** What the producer does just before the consumer's t-th access, given the state of the ring. */
  type Schedule = (nat, World) -> seq<Action>

  predicate AllEnabled(w: World, acts: seq<Action>)
    decreases |acts|
  {
    acts == [] || (Enabled(w, acts[0]) && AllEnabled(Effect(w, acts[0]), acts[1..]))
  }

  /** A producer that keeps to the protocol. */
  ghost predicate Obedient(schedule: Schedule) {
    forall t, w :: AllEnabled(w, schedule(t, w))
  }

  lemma PlayPush(s: System, ms: seq<Move>, m: Move)
    ensures Play(s, ms + [m]) == Step(Play(s, ms), m)
  {}

  lemma LegalPush(s: System, ms: seq<Move>, m: Move)
    requires Legal(s, ms) && (m.Produce? ==> Enabled(Play(s, ms).w, m.a))
    ensures Legal(s, ms + [m])
  {
    hide Play;
    hide Enabled;
    forall k | 0 <= k < |ms + [m]| && (ms + [m])[k].Produce? ensures Enabled(Play(s, (ms + [m])[..k]).w, (ms + [m])[k].a) {
      if k < |ms| {
        assert (ms + [m])[..k] == ms[..k];
      } else {
        assert (ms + [m])[..k] == ms;
      }
    }
  }

  lemma AlignedSum(a: int, b: int)
    requires a % 8 == 0 && b % 8 == 0
    ensures (a + b) % 8 == 0
  {}

  class RingbufConsumer {
    const schedule: Schedule
    const mask: nat
    /** The mapped pages; `w.records` is history that no code reads. */
    var w: World
    /** The slices handed to the callback. */
    var delivered: seq<seq<byte>>
    var clock: nat
    ghost var taken: nat
    ghost var polls: nat
    /** All moves so far, of both sides, and the state they started from. */
    ghost var moves: seq<Move>
    ghost const origin: System

    constructor (w: World, schedule: Schedule)
      ensures Valid(Idle) && this.w == w && this.schedule == schedule
      ensures delivered == [] && taken == 0 && polls == 0 && moves == [] && origin == System(w, Idle, [], 0, 0)
    {
      this.schedule, this.mask, this.w, this.delivered, this.clock := schedule, |w.data| - 1, w, [], 0;
      this.taken, this.polls, this.moves, this.origin := 0, 0, [], System(w, Idle, [], 0, 0);
    }

    ghost function Sys(c: Consumer): System
      reads this
    {
      System(w, c, delivered, taken, polls)
    }

    /** The object, with the consumer at `c`, is where the recorded interleaving leads. */
    ghost predicate Valid(c: Consumer)
      reads this
    {
      && mask == |w.data| - 1
      && Sys(c) == Play(origin, moves)
      && Coherent(Sys(c)) && Coherent(origin)
      && (Obedient(schedule) ==> Legal(origin, moves))
    }

    /** The producer's turn. */
    method Interleave(ghost c: Consumer)
      requires Valid(c)
      modifies `w, `clock, `moves
      ensures Valid(c) && w.consumerPos == old(w.consumerPos) && old(moves) <= moves
    {
      hide Play;
      hide Enabled;
      hide Effect;
      hide Legal;
      hide Coherent;
      var acts := schedule(clock, w);
      clock := clock + 1;
      assert Obedient(schedule) ==> AllEnabled(w, acts);
      while acts != []
        invariant Valid(c) && w.consumerPos == old(w.consumerPos) && old(moves) <= moves
        invariant Obedient(schedule) ==> AllEnabled(w, acts)
        decreases |acts|
      {
        ghost var m := Produce(acts[0]);
        PlayPush(origin, moves, m);
        AnyMove(Sys(c), m);
        if Obedient(schedule) {
          LegalPush(origin, moves, m);
        }
        w := Effect(w, acts[0]);
        moves := moves + [m];
        acts := acts[1..];
      }
    }

    /** Bookkeeping of one consumer step, which the caller has just made. */
    ghost method Note(before: System, c: Consumer)
      requires before == Play(origin, moves) && Coherent(before) && Coherent(origin)
      requires Obedient(schedule) ==> Legal(origin, moves)
      requires Sys(c) == ConsumerStep(before) && mask == |w.data| - 1
      modifies `moves
      ensures Valid(c) && old(moves) <= moves
    {
      hide Play;
      hide Legal;
      hide Coherent;
      hide ConsumerStep;
      PlayPush(origin, moves, Consume);
      AnyMove(before, Consume);
      if Obedient(schedule) {
        LegalPush(origin, moves, Consume);
      }
      moves := moves + [Consume];
    }

    /** Store the position after a record: its bytes are the producer's again. */
    method Advance(ghost c: Consumer, pos: Aligned, limit: Position)
      requires Valid(c) && ConsumerStep(Sys(c)) == Publish(Sys(c), pos, Inner(pos, limit, true)).(taken := taken + 1)
      modifies `w, `taken, `moves
      ensures Valid(Inner(pos, limit, true)) && old(moves) <= moves
    {
      hide Play;
      hide ConsumerStep;
      hide Legal;
      hide Coherent;
      ghost var before := Sys(c);
      w := w.(consumerPos := pos);
      taken := taken + 1;
      Note(before, Inner(pos, limit, true));
    }

    /** Store the position of a record that stops the poll. */
    method Stop(ghost c: Consumer, pos: Aligned)
      requires Valid(c) && ConsumerStep(Sys(c)) == Publish(Sys(c), pos, Idle)
      modifies `w, `moves
      ensures Valid(Idle) && old(moves) <= moves
    {
      hide Play;
      hide ConsumerStep;
      hide Legal;
      hide Coherent;
      ghost var before := Sys(c);
      w := w.(consumerPos := pos);
      Note(before, Idle);
    }

    /** Load the header of the next record. */
    method LoadHeader(pos: Aligned, limit: Position, any: bool) returns (offset: nat, raw: u32)
      requires Valid(Inner(pos, limit, any)) && pos < limit
      modifies `w, `moves
      ensures Valid(Loaded(pos, limit, any, raw)) && offset == pos % (mask + 1) && old(moves) <= moves
    {
      hide Play;
      hide Legal;
      hide Coherent;
      ghost var before := Sys(Inner(pos, limit, any));
      offset := BitAnd(pos, mask);
      assert offset == Offset(w.data, pos);
      raw := WordOf(Mirror(w.data)[offset..offset + 4]);
      Note(before, Loaded(pos, limit, any, raw));
    }

    /** Hand the slice to the callback. */
    method Callback(pos: Slot, limit: Position, any: bool, raw: u32, dataOffset: nat, dataLen: nat)
      requires Valid(Loaded(pos, limit, any, raw)) && !IsBusy(raw) && !IsDiscarded(raw)
      requires dataOffset == pos % (mask + 1) + HDR_SZ && dataLen == DataLen(raw)
      requires dataOffset + dataLen <= 2 * (mask + 1)
      modifies `delivered, `moves
      ensures Valid(InCallback(pos, limit, any, raw)) && old(delivered) <= delivered && old(moves) <= moves
    {
      hide Play;
      hide Legal;
      hide Coherent;
      hide IsBusy;
      hide IsDiscarded;
      hide DataLen;
      ghost var before := Sys(Loaded(pos, limit, any, raw));
      delivered := delivered + [Mirror(w.data)[dataOffset..dataOffset + dataLen]];
      Note(before, InCallback(pos, limit, any, raw));
    }

    /** One round of the inner loop: `go` tells whether the record was consumed, `next` where the following one starts. */
    method ConsumeRecord(pos: Aligned, limit: Position, any: bool) returns (go: bool, next: Aligned)
      requires Valid(Inner(pos, limit, any)) && pos < limit
      modifies `w, `delivered, `clock, `taken, `moves
      ensures go ==> next > pos && Valid(Inner(next, limit, true))
      ensures !go ==> Valid(Idle)
      ensures old(delivered) <= delivered && old(moves) <= moves
    {
      hide Play;
      hide Legal;
      hide Coherent;
      hide RoundRecordLen;
      hide IsBusy;
      hide IsDiscarded;
      hide DataLen;
      hide Offset;
      hide RecordWithinMapping;
      hide Valid;
      Interleave(Inner(pos, limit, any));
      var offset, raw := LoadHeader(pos, limit, any);
      ghost var c := Loaded(pos, limit, any, raw);
      Interleave(c);
      SizeKept(c);
      AlignedSum(pos, RoundRecordLen(DataLen(raw)));
      if IsBusy(raw) {
        Stop(c, pos);
        return false, pos;
      }
      var dataLen := DataLen(raw);
      var recordLen := RoundRecordLen(dataLen);
      if !IsDiscarded(raw) {
        var dataOffset := offset + HDR_SZ;
        if !RecordWithinMapping(dataOffset, dataLen, mask + 1) {
          Stop(c, pos);
          return false, pos;
        }
        Callback(pos, limit, any, raw, dataOffset, dataLen);
        c := InCallback(pos, limit, any, raw);
        Interleave(c);
      }
      next := pos + recordLen;
      Advance(c, next, limit);
      go := true;
    }

    lemma SizeKept(c: Consumer)
      requires Valid(c)
      ensures mask == |w.data| - 1
    {
      hide Play;
      hide Legal;
      hide Coherent;
    }

    /** What a completed poll has achieved against a producer that keeps to the protocol. */
    ghost predicate Completed(start: nat)
      requires start <= |moves|
      reads this
    {
      && InOrder(Sys(Idle))
      && (|| BusySeen(origin, moves, start, |moves|, taken)
          || |Play(origin, moves[..start]).w.records| <= taken)
    }

    lemma PollDone(start: nat)
      requires Valid(Idle) && start <= |moves| && Play(origin, moves[..start]).c.Idle?
      requires polls == Play(origin, moves[..start]).polls + 1
      requires Obedient(schedule) && Initial(origin)
      ensures Completed(start)
    {
      hide Play;
      hide Legal;
      hide Coherent;
      hide InOrder;
      hide BusySeen;
      assert moves[..|moves|] == moves;
      DeliveryInOrder(origin, moves);
      PollMissesNothing(origin, moves, start, |moves|);
    }

    /**
     * One whole poll. It returns whatever the producer does, never reads outside
     * the two copies of the pages, and is a run of the step system in which the
     * consumer begins and ends exactly one poll. With a producer that keeps to
     * the protocol, delivery is in order and exactly once, and nothing is missed.
     */
    method ConsumeRingRecords()
      requires Valid(Idle)
      modifies `w, `delivered, `clock, `taken, `polls, `moves
      ensures Valid(Idle) && polls == old(polls) + 1
      ensures old(moves) <= moves && old(delivered) <= delivered && old(w.consumerPos) <= w.consumerPos
      ensures Obedient(schedule) && Initial(origin) ==> Completed(|old(moves)|)
    {
      hide Play;
      hide Legal;
      hide Coherent;
      hide Completed;
      ghost var start := |moves|;
      assert moves[..start] == moves;
      Interleave(Idle);
      ghost var before := Sys(Idle);
      var consumerPos := w.consumerPos;
      polls := polls + 1;
      Note(before, Outer(consumerPos));
      var done := false;
      while !done
        invariant old(moves) <= moves && old(delivered) <= delivered && polls == old(polls) + 1
        invariant Valid(if done then Idle else Outer(consumerPos))
        decreases !done, U64_MAX - consumerPos
      {
        done, consumerPos := OuterRound(consumerPos);
      }
      assert moves[..start] == old(moves);
      AnyRun(origin, moves, start);
      if Obedient(schedule) && Initial(origin) {
        PollDone(start);
      }
    }

    /** One round of the outer loop: `done` tells whether the poll is over. */
    method OuterRound(from: Aligned) returns (done: bool, consumerPos: Aligned)
      requires Valid(Outer(from))
      modifies `w, `delivered, `clock, `taken, `moves
      ensures Valid(if done then Idle else Outer(consumerPos))
      ensures old(moves) <= moves && old(delivered) <= delivered
      ensures consumerPos >= from && (!done ==> consumerPos > from)
    {
      hide Play;
      hide Legal;
      hide Coherent;
      consumerPos := from;
      Interleave(Outer(consumerPos));
      ghost var before := Sys(Outer(consumerPos));
      var producerPos := w.producerPos;
      var consumedAny := false;
      Note(before, Inner(consumerPos, producerPos, false));
      while consumerPos < producerPos
        invariant Valid(Inner(consumerPos, producerPos, consumedAny))
        invariant old(moves) <= moves && old(delivered) <= delivered
        invariant consumerPos >= from && (consumedAny ==> consumerPos > from)
        decreases producerPos - consumerPos
      {
        var go, next := ConsumeRecord(consumerPos, producerPos, consumedAny);
        if !go {
          return true, consumerPos;
        }
        consumerPos := next;
        consumedAny := true;
      }
      before := Sys(Inner(consumerPos, producerPos, consumedAny));
      done := !consumedAny;
      Note(before, if done then Idle else Outer(consumerPos));
    }
  }
}
