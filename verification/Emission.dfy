/** The whole path from emit to poll: a producer that runs emit's own steps, interleaved in any way
    with a consumer that reads the slots lent to it. */
module Emission {
  import opened Bits
  import opened Bytes
  import opened Wire
  import opened RingProtocol
  import opened Client

  /** What emit writes of an event at the front of a slot. */
  function Image(e: Event): (b: ByteSeq)
    ensures |b| == HDR_LEN + |e.payload|
  {
    FrameBytes(e.frame) + e.payload
  }

  /** The producer's part of a step, while it emits the first of the events still to do: it stores
      anything within that event's bytes, as often as it likes and in any order, and commits once
      every byte was last stored as the event has it. A begin that finds the ring full, or a slot
      that is given up, leaves nothing behind. The consumer is free. */
  ghost predicate EmitStep(r: Ring, step: Step, todo: seq<Event>, written: set<nat>) {
    match step
    case WriteByte(at, _) => todo != [] && at < |Image(todo[0])|
    case CommitLoadHead => todo != [] && forall at: nat :: at < |Image(todo[0])| ==> at in written
    case CommitStoreHead => todo != []
    case _ => true
  }

  /** The bytes of the event that the slot begun holds. */
  function WrittenAfter(step: Step, todo: seq<Event>, written: set<nat>): set<nat>
    requires step.WriteByte? ==> todo != [] && step.at < |Image(todo[0])|
  {
    match step
    case ProduceLoadTail => {}
    case WriteByte(at, value) => if value == Image(todo[0])[at] then written + {at} else written - {at}
    case _ => written
  }

  function TodoAfter(step: Step, todo: seq<Event>): seq<Event>
    requires step.CommitStoreHead? ==> todo != []
  {
    if step.CommitStoreHead? then todo[1..] else todo
  }

  ghost predicate Emits(r: Ring, steps: seq<Step>, todo: seq<Event>, written: set<nat>)
    decreases |steps|
  {
    steps != [] ==>
      && Enabled(r, steps[0]) && EmitStep(r, steps[0], todo, written)
      && Emits(Take(r, steps[0]), steps[1..], TodoAfter(steps[0], todo), WrittenAfter(steps[0], todo, written))
  }

  ghost predicate Holds(image: ByteSeq, b: ByteSeq, at: nat) {
    at < |b| && at < |image| && image[at] == b[at]
  }

  ghost predicate HoldsAll(image: ByteSeq, b: ByteSeq) {
    forall at: nat :: at < |b| ==> Holds(image, b, at)
  }

  /** The slot begun holds what has been written of the event. */
  ghost predicate Written(r: Ring, todo: seq<Event>, written: set<nat>) {
    match r.producer
    case Writing(_, image) =>
      (written != {} ==> todo != []) && forall at :: at in written ==> Holds(image, Image(todo[0]), at)
    case Committing(_, image) => todo != [] && HoldsAll(image, Image(todo[0]))
    case _ => true
  }

  lemma StepWrites(r: Ring, step: Step, todo: seq<Event>, written: set<nat>)
    requires Inv(r) && Enabled(r, step) && EmitStep(r, step, todo, written) && Written(r, todo, written)
    ensures Written(Take(r, step), TodoAfter(step, todo), WrittenAfter(step, todo, written))
  {
    hide Inv, Image;
  }

  /** A slot that starts with an event's bytes carries the event. */
  lemma ImageCarries(image: ByteSeq, e: Event)
    requires HoldsAll(image, Image(e))
    ensures Carries(image, e)
  {
    var b := Image(e);
    assert HDR_LEN + |e.payload| <= |image| by {
      assert Holds(image, b, |b| - 1);
    }
    forall at: nat | at < |b|
      ensures image[..|b|][at] == b[at]
    {
      assert Holds(image, b, at);
    }
    assert image[..|b|] == b;
    hide FrameBytes;
    assert image[..HDR_LEN] == b[..HDR_LEN] == FrameBytes(e.frame);
    assert image[HDR_LEN..|b|] == b[HDR_LEN..] == e.payload;
  }

  /** Every item sent since r carries the next of the events to do. */
  ghost predicate CarriesAll(sent: seq<ByteSeq>, from: nat, todo: seq<Event>) {
    && from <= |sent| <= from + |todo|
    && forall i :: from <= i < |sent| ==> Carries(sent[i], todo[i - from])
  }

  lemma {:induction false} RunCarries(r: Ring, steps: seq<Step>, r': Ring, todo: seq<Event>, written: set<nat>)
    requires Inv(r) && Reaches(r, steps, r') && Emits(r, steps, todo, written) && Written(r, todo, written)
    ensures CarriesAll(r'.sent, |r.sent|, todo)
    decreases |steps|
  {
    hide Inv, Carries;
    if steps != [] {
      var next, rest := Take(r, steps[0]), TodoAfter(steps[0], todo);
      StepKeepsInv(r, steps[0]);
      StepWrites(r, steps[0], todo, written);
      RunCarries(next, steps[1..], r', rest, WrittenAfter(steps[0], todo, written));
      StepFrame(r, steps[0]);
      if steps[0].CommitStoreHead? {
        ImageCarries(r.producer.image, todo[0]);
        SentGrows(next, steps[1..], r');
        CarriesFirst(r'.sent, |r.sent|, todo);
      }
    }
  }

  lemma CarriesFirst(sent: seq<ByteSeq>, from: nat, todo: seq<Event>)
    requires todo != [] && CarriesAll(sent, from + 1, todo[1..]) && Carries(sent[from], todo[0])
    ensures CarriesAll(sent, from, todo)
  {
    hide Carries;
    forall i | from <= i < |sent|
      ensures Carries(sent[i], todo[i - from])
    {
      assert i > from ==> todo[1..][i - (from + 1)] == todo[i - from];
    }
  }

  lemma {:induction false} SentGrows(r: Ring, steps: seq<Step>, r': Ring)
    requires Reaches(r, steps, r')
    ensures r.sent <= r'.sent && r'.slotSize == r.slotSize
    decreases |steps|
  {
    if steps != [] {
      StepFrame(r, steps[0]);
      hide Take;
      SentGrows(Take(r, steps[0]), steps[1..], r');
    }
  }

  // What the consumer makes of it.

  /** The reads of the slots lent so far: of those given back, and of the one still lent. */
  ghost function Views(r: Ring): seq<map<nat, U8>> {
    match r.consumer
    case Reading(_, view) => r.received + [view]
    case Releasing(_, view) => r.received + [view]
    case _ => r.received
  }

  /** Every byte read within an event's image is that event's. */
  ghost predicate Shows(view: map<nat, U8>, e: Event) {
    forall k :: k in view && k < |Image(e)| ==> view[k] == Image(e)[k]
  }

  ghost predicate Covers(view: map<nat, U8>, n: nat) {
    forall k: nat :: k < n ==> k in view
  }

  /** The first n bytes read decide the first n bytes of the slot. */
  lemma ShownBytes(view: map<nat, U8>, e: Event, slot: ByteSeq, n: nat)
    requires Shows(view, e) && Covers(view, n) && Agrees(view, slot) && n <= |Image(e)|
    ensures n <= |slot| && slot[..n] == Image(e)[..n]
  {
    if n > 0 {
      assert n - 1 in view;
    }
    forall k | 0 <= k < n
      ensures k < |slot| && slot[k] == Image(e)[k]
    {
      assert k in view;
    }
  }

  /** Reading the header alone fixes the frame, and with it where the payload lies. */
  lemma HeaderReadIsFrame(view: map<nat, U8>, e: Event, slot: ByteSeq)
    requires Shows(view, e) && Covers(view, HDR_LEN) && Agrees(view, slot) && Validate(e.frame) == OK
    ensures DecodeFrame(slot) == Decoded(OK, e.frame)
  {
    ShownBytes(view, e, slot, HDR_LEN);
    hide Validate, FrameBytes, DecodeFrame, Agrees, Shows, Covers;
    assert Image(e)[..HDR_LEN] == FrameBytes(e.frame);
    HeaderDecodes(slot, e.frame);
  }

  /** Reading the header and the payload it announces fixes the event, whatever the bytes of the
      slot that were not read are. */
  lemma ReadIsEvent(view: map<nat, U8>, e: Event, slot: ByteSeq)
    requires Shows(view, e) && Covers(view, |Image(e)|) && Agrees(view, slot)
    requires EmittedEvent(e, |slot|) && |slot| < TWO_TO_32
    ensures Client.Open(slot) == Lent(e)
  {
    ShownBytes(view, e, slot, |Image(e)|);
    assert slot[..|Image(e)|] == Image(e);
    hide Shows, Covers, Agrees, EmittedEvent, Client.Open, Image;
    HoldsPrefix(slot, e);
    ImageCarries(slot, e);
    OpenEmitted(slot, e);
  }

  lemma HoldsPrefix(slot: ByteSeq, e: Event)
    requires |Image(e)| <= |slot| && slot[..|Image(e)|] == Image(e)
    ensures HoldsAll(slot, Image(e))
  {
    forall at: nat | at < |Image(e)|
      ensures Holds(slot, Image(e), at)
    {
      assert slot[..|Image(e)|][at] == Image(e)[at];
    }
  }

  /** What was sent agrees with every view of it. */
  lemma ViewsAgree(r: Ring, i: nat)
    requires Inv(r) && i < |Views(r)|
    ensures i < |r.sent| && Agrees(Views(r)[i], r.sent[i])
  {
  }

  lemma AgreeingShows(view: map<nat, U8>, item: ByteSeq, e: Event)
    requires Agrees(view, item) && Carries(item, e)
    ensures Shows(view, e)
  {
    var b := Image(e);
    hide FrameBytes;
    forall k | k in view && k < |b|
      ensures view[k] == b[k]
    {
      if k < HDR_LEN {
        assert item[..HDR_LEN][k] == item[k];
      } else {
        assert item[HDR_LEN..HDR_LEN + |e.payload|][k - HDR_LEN] == item[k];
      }
    }
  }

  /** Under any interleaving, every byte a client has read of a slot, given back or still lent, is
      the byte of the event the producer set out to emit in that place: a header read whole gives
      that event's frame, and header and payload give the event, whatever else the slot holds. So
      the events polled are a prefix of those emitted, none lost, repeated, reordered or mixed. */
  lemma PolledIsPrefixOfEmitted(r: Ring, steps: seq<Step>, r': Ring, events: seq<Event>)
    requires Attached(r) && r.sent == [] && r.slotSize < TWO_TO_32
    requires Reaches(r, steps, r') && Emits(r, steps, events, {})
    requires forall i :: 0 <= i < |events| ==> EmittedEvent(events[i], r.slotSize)
    ensures |Views(r')| <= |r'.sent| <= |events|
    ensures forall i :: 0 <= i < |Views(r')| ==> Shows(Views(r')[i], events[i])
    ensures forall i, slot: ByteSeq :: 0 <= i < |Views(r')| && |slot| == r.slotSize && Agrees(Views(r')[i], slot) ==>
              && (Covers(Views(r')[i], HDR_LEN) ==> DecodeFrame(slot) == Decoded(OK, events[i].frame))
              && (Covers(Views(r')[i], |Image(events[i])|) ==> Client.Open(slot) == Lent(events[i]))
  {
    AttachedInv(r);
    RunKeepsInv(r, steps, r');
    hide Emits, Reaches, Inv, Carries, EmittedEvent, Views, Shows, Agrees, Covers, Image;
    RunCarries(r, steps, r', events, {});
    ViewsBound(r');
    forall i | 0 <= i < |Views(r')|
      ensures Shows(Views(r')[i], events[i])
    {
      ViewsAgree(r', i);
      AgreeingShows(Views(r')[i], r'.sent[i], events[i]);
    }
    forall i, slot: ByteSeq | 0 <= i < |Views(r')| && |slot| == r.slotSize && Agrees(Views(r')[i], slot)
      ensures Covers(Views(r')[i], HDR_LEN) ==> DecodeFrame(slot) == Decoded(OK, events[i].frame)
      ensures Covers(Views(r')[i], |Image(events[i])|) ==> Client.Open(slot) == Lent(events[i])
    {
      EmittedIsValid(events[i], r.slotSize);
      if Covers(Views(r')[i], HDR_LEN) {
        HeaderReadIsFrame(Views(r')[i], events[i], slot);
      }
      if Covers(Views(r')[i], |Image(events[i])|) {
        ReadIsEvent(Views(r')[i], events[i], slot);
      }
    }
  }

  lemma ViewsBound(r: Ring)
    requires Inv(r)
    ensures |Views(r)| <= |r.sent|
  {
    if |Views(r)| > 0 {
      ViewsAgree(r, |Views(r)| - 1);
    }
  }

  lemma EmittedIsValid(e: Event, slotSize: nat)
    requires EmittedEvent(e, slotSize)
    ensures Validate(e.frame) == OK
  {
  }

  // Emit is such a producer.

  /** The stores of a stretch of bytes, from position k on. */
  function Stores(b: ByteSeq, k: nat): (s: seq<Step>)
    requires k <= |b|
    decreases |b| - k
  {
    if k == |b| then [] else [WriteByte(k, b[k])] + Stores(b, k + 1)
  }

  function Zeros(n: nat): (b: ByteSeq)
    ensures |b| == n
  {
    seq(n, i => 0)
  }

  const COMMIT: seq<Step> := [CommitLoadHead, CommitStoreHead]

  /** Emit's steps once it has a free slot: the header is cleared, then written field by field, the
      payload is copied behind it, and the slot is committed. */
  function EmitProgram(e: Event): seq<Step> {
    [ProduceLoadHead, ProduceLoadTail] + (Stores(Zeros(HDR_LEN), 0) + (Stores(Image(e), 0) + COMMIT))
  }

  ghost predicate Begun(r: Ring, e: Event) {
    && 0 < r.capacity == |r.slots| && r.producer.Writing? && r.producer.slot < |r.slots|
    && |r.slots[r.producer.slot]| == |r.producer.image| && |Image(e)| <= |r.producer.image|
  }

  lemma {:induction false} WritesEmit(r: Ring, e: Event, rest: seq<Event>, k: nat, written: set<nat>)
    requires Begun(r, e) && k <= |Image(e)| && forall at: nat :: at < k ==> at in written
    ensures Emits(r, Stores(Image(e), k) + COMMIT, [e] + rest, written)
    decreases |Image(e)| - k
  {
    hide Image;
    var todo := [e] + rest;
    if k == |Image(e)| {
      assert Stores(Image(e), k) + COMMIT == COMMIT && COMMIT[1..] == [CommitStoreHead] && COMMIT[1..][1..] == [];
      var r1 := Take(r, CommitLoadHead);
      assert Emits(Take(r1, CommitStoreHead), [], todo[1..], written);
      assert Emits(r1, [CommitStoreHead], todo, written);
    } else {
      var step, s := WriteByte(k, Image(e)[k]), Stores(Image(e), k) + COMMIT;
      assert s[0] == step && s[1..] == Stores(Image(e), k + 1) + COMMIT;
      WritesEmit(Take(r, step), e, rest, k + 1, written + {k});
    }
  }

  lemma {:induction false} ClearsEmit(r: Ring, e: Event, rest: seq<Event>, k: nat, written: set<nat>)
    requires Begun(r, e) && k <= HDR_LEN
    ensures Emits(r, Stores(Zeros(HDR_LEN), k) + (Stores(Image(e), 0) + COMMIT), [e] + rest, written)
    decreases HDR_LEN - k
  {
    var todo, tail := [e] + rest, Stores(Image(e), 0) + COMMIT;
    if k == HDR_LEN {
      assert Stores(Zeros(HDR_LEN), k) + tail == tail;
      WritesEmit(r, e, rest, 0, written);
    } else {
      var step, s := WriteByte(k, 0), Stores(Zeros(HDR_LEN), k) + tail;
      assert s[0] == step && s[1..] == Stores(Zeros(HDR_LEN), k + 1) + tail;
      ClearsEmit(Take(r, step), e, rest, k + 1, WrittenAfter(step, todo, written));
    }
  }

  /** On a ring with room, emit's own steps are those of such a producer. */
  lemma EmitProgramEmits(r: Ring, e: Event, rest: seq<Event>, written: set<nat>)
    requires Inv(r) && r.producer.Idle? && |r.sent| < |r.received| + r.capacity && |Image(e)| <= r.slotSize
    ensures Emits(r, EmitProgram(e), [e] + rest, written)
  {
    var r1 := Take(r, ProduceLoadHead);
    StepKeepsInv(r, ProduceLoadHead);
    var r2 := Take(r1, ProduceLoadTail);
    StepKeepsInv(r1, ProduceLoadTail);
    BeginAnswers(r1, ProduceLoadTail);
    var todo, tail := [e] + rest, Stores(Zeros(HDR_LEN), 0) + (Stores(Image(e), 0) + COMMIT);
    assert Begun(r2, e);
    hide Image, Inv;
    ClearsEmit(r2, e, rest, 0, {});
    assert ([ProduceLoadHead, ProduceLoadTail] + tail)[1..] == [ProduceLoadTail] + tail;
    assert ([ProduceLoadTail] + tail)[1..] == tail;
    assert Emits(r1, [ProduceLoadTail] + tail, todo, written);
  }
}
