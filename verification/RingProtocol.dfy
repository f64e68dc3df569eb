/** The single-producer/single-consumer ring as a protocol: every step is one atomic load or
    store of an index word, or one plain access to a byte of a slot, and the two sides
    interleave freely. Go's sync/atomic operations are sequentially consistent, so a run is a
    sequence of such steps. */
module RingProtocol {
  import opened Bits
  import opened Bytes

  /** Where the producer is; `image` is its own account of the slot it is filling. */
  datatype Producer =
    | Idle
    | BeginHead(head: U64)
    | Writing(slot: nat, image: ByteSeq)
    | Committing(head: U64, image: ByteSeq)

  /** Where the consumer is; `view` holds the bytes it has read so far. */
  datatype Consumer =
    | Waiting
    | BeginTail(tail: U64)
    | Reading(slot: nat, view: map<nat, U8>)
    | Releasing(tail: U64, view: map<nat, U8>)

  /** The shared words and slots, the two sides, and a history: `base` is the unbounded tail
      index at attach, `sent` what the producer published and `received` what the consumer
      saw, counted from there. */
  datatype Ring = Ring(
    capacity: nat, slotSize: nat, head: U64, tail: U64, slots: seq<ByteSeq>,
    producer: Producer, consumer: Consumer,
    base: nat, sent: seq<ByteSeq>, received: seq<map<nat, U8>>)

  datatype Step =
    | ProduceLoadHead | ProduceLoadTail | WriteByte(at: nat, value: U8) | ProduceAbandon
    | CommitLoadHead | CommitStoreHead
    | ConsumeLoadTail | ConsumeLoadHead | ReadByte(at: nat) | ConsumeAbandon
    | ReleaseLoadTail | ReleaseStoreTail

  function SlotOf(r: Ring, index: U64): nat
    requires r.capacity > 0
  {
    And(index, r.capacity - 1)
  }

  /** The slot of the i-th item since attach, by its unbounded position. */
  function SlotAt(r: Ring, i: nat): nat
    requires r.capacity > 0
  {
    (r.base + i) % r.capacity
  }

  function WrapSub(a: U64, b: U64): U64 {
    (a - b) % TWO_TO_64
  }

  function WrapInc(a: U64): U64 {
    (a + 1) % TWO_TO_64
  }

  ghost predicate Geometry(r: Ring) {
    && 2 <= r.capacity < TWO_TO_32 && IsPow2(r.capacity)
    && |r.slots| == r.capacity
    && forall i :: 0 <= i < r.capacity ==> |r.slots[i]| == r.slotSize
  }

  predicate Enabled(r: Ring, step: Step) {
    0 < r.capacity == |r.slots| &&
    match step
    case ProduceLoadHead => r.producer.Idle?
    case ProduceLoadTail => r.producer.BeginHead?
    case WriteByte(at, _) => r.producer.Writing? && r.producer.slot < |r.slots|
                             && at < |r.slots[r.producer.slot]| && at < |r.producer.image|
    case ProduceAbandon => r.producer.Writing?
    case CommitLoadHead => r.producer.Writing?
    case CommitStoreHead => r.producer.Committing?
    case ConsumeLoadTail => r.consumer.Waiting?
    case ConsumeLoadHead => r.consumer.BeginTail?
    case ReadByte(at) => r.consumer.Reading? && r.consumer.slot < |r.slots|
                         && at < |r.slots[r.consumer.slot]|
    case ConsumeAbandon => r.consumer.Reading?
    case ReleaseLoadTail => r.consumer.Reading?
    case ReleaseStoreTail => r.consumer.Releasing?
  }

  function Take(r: Ring, step: Step): Ring
    requires Enabled(r, step)
  {
    match step
    case ProduceLoadHead => r.(producer := BeginHead(r.head))
    case ProduceLoadTail =>
      if WrapSub(r.producer.head, r.tail) >= r.capacity then r.(producer := Idle)
      else
        var slot := SlotOf(r, r.producer.head);
        r.(producer := Writing(slot, r.slots[slot]))
    case WriteByte(at, value) =>
      var p := r.producer;
      r.(slots := r.slots[p.slot := SetByte(r.slots[p.slot], at, value)],
         producer := Writing(p.slot, SetByte(p.image, at, value)))
    case ProduceAbandon => r.(producer := Idle)
    case CommitLoadHead => r.(producer := Committing(r.head, r.producer.image))
    case CommitStoreHead =>
      r.(head := WrapInc(r.producer.head), producer := Idle, sent := r.sent + [r.producer.image])
    case ConsumeLoadTail => r.(consumer := BeginTail(r.tail))
    case ConsumeLoadHead =>
      if r.head == r.consumer.tail then r.(consumer := Waiting)
      else r.(consumer := Reading(SlotOf(r, r.consumer.tail), map[]))
    case ReadByte(at) =>
      var c := r.consumer;
      r.(consumer := Reading(c.slot, c.view[at := r.slots[c.slot][at]]))
    case ConsumeAbandon => r.(consumer := Waiting)
    case ReleaseLoadTail => r.(consumer := Releasing(r.tail, r.consumer.view))
    case ReleaseStoreTail =>
      r.(tail := WrapInc(r.consumer.tail), consumer := Waiting,
         received := r.received + [r.consumer.view])
  }

  // The invariant.

  /** The bytes that were read agree with the item that was sent. */
  ghost predicate Agrees(view: map<nat, U8>, item: ByteSeq) {
    forall k :: k in view ==> k < |item| && view[k] == item[k]
  }

  ghost predicate Counts(r: Ring) {
    && r.head == (r.base + |r.sent|) % TWO_TO_64
    && r.tail == (r.base + |r.received|) % TWO_TO_64
    && |r.received| <= |r.sent| <= |r.received| + r.capacity
  }

  /** The slots hold the unread items; every item read so far agrees with the item sent. */
  ghost predicate Contents(r: Ring)
    requires r.capacity == |r.slots| > 0
  {
    && (forall i :: 0 <= i < |r.sent| ==> |r.sent[i]| == r.slotSize)
    && (forall i {:trigger r.sent[i]} :: |r.received| <= i < |r.sent| ==>
          r.slots[SlotAt(r, i)] == r.sent[i])
    && (|r.received| <= |r.sent| ==>
          forall i :: 0 <= i < |r.received| ==> Agrees(r.received[i], r.sent[i]))
  }

  ghost predicate ProducerOk(r: Ring)
    requires r.capacity == |r.slots| > 0
  {
    match r.producer
    case Idle => true
    case BeginHead(head) => head == r.head
    case Writing(slot, image) =>
      && |r.sent| < |r.received| + r.capacity
      && slot == SlotAt(r, |r.sent|)
      && image == r.slots[slot]
    case Committing(head, image) =>
      && |r.sent| < |r.received| + r.capacity
      && head == r.head
      && image == r.slots[SlotAt(r, |r.sent|)]
  }

  ghost predicate ConsumerOk(r: Ring)
    requires r.capacity == |r.slots| > 0
  {
    match r.consumer
    case Waiting => true
    case BeginTail(tail) => tail == r.tail
    case Reading(slot, view) =>
      && |r.received| < |r.sent|
      && slot == SlotAt(r, |r.received|)
      && Agrees(view, r.sent[|r.received|])
    case Releasing(tail, view) =>
      && |r.received| < |r.sent|
      && tail == r.tail
      && Agrees(view, r.sent[|r.received|])
  }

  ghost predicate Inv(r: Ring) {
    Geometry(r) && Counts(r) && Contents(r) && ProducerOk(r) && ConsumerOk(r)
  }

  /** The items published and not yet released, oldest first. */
  function Queue(r: Ring): seq<ByteSeq>
    requires |r.received| <= |r.sent|
  {
    r.sent[|r.received|..]
  }

  lemma WrapDistance(base: nat, sent: nat, received: nat)
    requires received <= sent < received + TWO_TO_64
    ensures WrapSub((base + sent) % TWO_TO_64, (base + received) % TWO_TO_64) == sent - received
    ensures (base + sent) % TWO_TO_64 == (base + received) % TWO_TO_64 <==> sent == received
  {
  }

  lemma WrapNext(n: nat)
    ensures WrapInc(n % TWO_TO_64) == (n + 1) % TWO_TO_64
  {
  }

  /** Distinct live positions occupy distinct slots. */
  lemma DistinctSlots(capacity: nat, i: nat, j: nat)
    requires capacity > 0 && i < j < i + capacity
    ensures i % capacity != j % capacity
  {
    if i % capacity == j % capacity {
      var q := j / capacity - i / capacity;
      assert j - i == capacity * q by {
        assert j == capacity * (j / capacity) + j % capacity;
        assert i == capacity * (i / capacity) + i % capacity;
      }
      if q >= 1 {
        MulMono(capacity, 1, q);
      } else {
        MulMono(capacity, q, 0);
      }
    }
  }

  /** Steps of the producer that only look at its own index. */
  lemma ProducerKeepsInv(r: Ring, step: Step)
    requires Inv(r) && Enabled(r, step)
    requires step.ProduceLoadHead? || step.ProduceAbandon? || step.CommitLoadHead?
    ensures Inv(Take(r, step))
  {
    hide Agrees;
  }

  /** Distinct items that are live at once are in distinct slots. */
  lemma DistinctItems(r: Ring, i: nat, j: nat)
    requires r.capacity > 0 && i < j < i + r.capacity
    ensures SlotAt(r, i) != SlotAt(r, j)
  {
    DistinctSlots(r.capacity, r.base + i, r.base + j);
  }

  lemma SlotOfIndex(r: Ring, i: nat)
    requires Geometry(r)
    ensures SlotOf(r, (r.base + i) % TWO_TO_64) == SlotAt(r, i)
  {
    MaskedIndex(r.base + i, r.capacity);
  }

  /** The wrapped indices find the slots of the unbounded ones, and their distance. */
  lemma IndexSlots(r: Ring)
    requires Geometry(r) && Counts(r)
    ensures SlotOf(r, r.head) == SlotAt(r, |r.sent|) && SlotOf(r, r.tail) == SlotAt(r, |r.received|)
    ensures WrapSub(r.head, r.tail) == |r.sent| - |r.received|
    ensures r.head == r.tail <==> |r.sent| == |r.received|
  {
    hide SlotOf, SlotAt, WrapSub, IsPow2;
    SlotOfIndex(r, |r.sent|);
    SlotOfIndex(r, |r.received|);
    WrapDistance(r.base, |r.sent|, |r.received|);
  }

  lemma StartWriteKeepsInv(r: Ring)
    requires Inv(r) && Enabled(r, ProduceLoadTail)
    ensures Inv(Take(r, ProduceLoadTail))
  {
    IndexSlots(r);
    hide Agrees, SlotOf, SlotAt, WrapSub, Contents, ConsumerOk;
    ProducerOnly(r, Take(r, ProduceLoadTail));
  }

  /** Only the producer has moved, and only in what it has begun. */
  lemma ProducerOnly(r: Ring, r': Ring)
    requires Geometry(r) && Contents(r) && ConsumerOk(r) && r' == r.(producer := r'.producer)
    ensures Contents(r') && ConsumerOk(r')
  {
    hide Agrees;
  }

  lemma WriteKeepsInv(r: Ring, step: Step)
    requires Inv(r) && Enabled(r, step) && step.WriteByte?
    ensures Inv(Take(r, step))
  {
    var r' := Take(r, step);
    forall i {:trigger r'.sent[i]} | |r'.received| <= i < |r'.sent|
      ensures r'.slots[SlotAt(r', i)] == r'.sent[i]
    {
      DistinctSlots(r.capacity, r.base + i, r.base + |r.sent|);
    }
  }

  lemma PublishKeepsInv(r: Ring)
    requires Inv(r) && Enabled(r, CommitStoreHead)
    ensures Inv(Take(r, CommitStoreHead))
  {
    WrapNext(r.base + |r.sent|);
  }

  /** Steps of the consumer that only look at its own index. */
  lemma ConsumerKeepsInv(r: Ring, step: Step)
    requires Inv(r) && Enabled(r, step)
    requires step.ConsumeLoadTail? || step.ConsumeAbandon? || step.ReleaseLoadTail?
    ensures Inv(Take(r, step))
  {
    hide Agrees;
  }

  lemma StartReadKeepsInv(r: Ring)
    requires Inv(r) && Enabled(r, ConsumeLoadHead)
    ensures Inv(Take(r, ConsumeLoadHead))
  {
    IndexSlots(r);
    assert |r.received| < |r.sent| ==> Agrees(map[], r.sent[|r.received|]);
    hide Agrees, SlotOf, SlotAt, WrapSub, Contents, ProducerOk;
    ConsumerOnly(r, Take(r, ConsumeLoadHead));
  }

  lemma ConsumerOnly(r: Ring, r': Ring)
    requires Geometry(r) && Contents(r) && ProducerOk(r) && r' == r.(consumer := r'.consumer)
    ensures Contents(r') && ProducerOk(r')
  {
    hide Agrees;
  }

  lemma ReadKeepsInv(r: Ring, step: Step)
    requires Inv(r) && Enabled(r, step) && step.ReadByte?
    ensures Inv(Take(r, step))
  {
    assert r.slots[r.consumer.slot] == r.sent[|r.received|];
  }

  lemma ReleaseKeepsInv(r: Ring)
    requires Inv(r) && Enabled(r, ReleaseStoreTail)
    ensures Inv(Take(r, ReleaseStoreTail))
  {
    WrapNext(r.base + |r.received|);
    hide Agrees, SlotOf, WrapInc, IsPow2;
  }

  lemma StepKeepsInv(r: Ring, step: Step)
    requires Inv(r) && Enabled(r, step)
    ensures Inv(Take(r, step))
  {
    match step
    case ProduceLoadHead => ProducerKeepsInv(r, step);
    case ProduceLoadTail => StartWriteKeepsInv(r);
    case ProduceAbandon => ProducerKeepsInv(r, step);
    case CommitLoadHead => ProducerKeepsInv(r, step);
    case WriteByte(_, _) => WriteKeepsInv(r, step);
    case CommitStoreHead => PublishKeepsInv(r);
    case ReleaseStoreTail => ReleaseKeepsInv(r);
    case ConsumeLoadTail => ConsumerKeepsInv(r, step);
    case ConsumeLoadHead => StartReadKeepsInv(r);
    case ReadByte(_) => ReadKeepsInv(r, step);
    case ConsumeAbandon => ConsumerKeepsInv(r, step);
    case ReleaseLoadTail => ConsumerKeepsInv(r, step);
  }

  // What the invariant gives.

  lemma StepFrame(r: Ring, step: Step)
    requires Enabled(r, step)
    ensures Take(r, step).capacity == r.capacity && Take(r, step).slotSize == r.slotSize
    ensures Take(r, step).base == r.base
    ensures Take(r, step).sent ==
              if step.CommitStoreHead? then r.sent + [r.producer.image] else r.sent
    ensures Take(r, step).received ==
              if step.ReleaseStoreTail? then r.received + [r.consumer.view] else r.received
  {
  }

  lemma Bounds(r: Ring)
    requires Inv(r)
    ensures |r.received| <= |r.sent| <= |r.received| + r.capacity
    ensures WrapSub(r.head, r.tail) == |r.sent| - |r.received|
    ensures r.producer.BeginHead? ==> r.producer.head == r.head
    ensures r.consumer.BeginTail? ==> r.consumer.tail == r.tail
    ensures r.consumer.Releasing? ==> |r.received| < |r.sent| && Agrees(r.consumer.view, r.sent[|r.received|])
  {
    WrapDistance(r.base, |r.sent|, |r.received|);
  }

  /** Every step is a step of a FIFO queue of at most `capacity` items: publishing appends the
      producer's item, releasing removes the oldest and the consumer saw only its bytes, and
      every other step leaves the queue alone. */
  lemma StepRefinesQueue(r: Ring, step: Step)
    requires Inv(r) && Enabled(r, step)
    ensures Inv(Take(r, step))
    ensures |r.received| <= |r.sent| && |Take(r, step).received| <= |Take(r, step).sent|
    ensures |Queue(Take(r, step))| <= r.capacity
    ensures step.CommitStoreHead? ==> Queue(Take(r, step)) == Queue(r) + [r.producer.image]
    ensures step.ReleaseStoreTail? ==>
              && Queue(r) != [] && Queue(Take(r, step)) == Queue(r)[1..]
              && Agrees(r.consumer.view, Queue(r)[0])
    ensures !step.CommitStoreHead? && !step.ReleaseStoreTail? ==> Queue(Take(r, step)) == Queue(r)
  {
    hide Inv, Take;
    StepKeepsInv(r, step);
    StepFrame(r, step);
    Bounds(r);
    Bounds(Take(r, step));
  }

  /** ProduceBegin answers "full" and ConsumeBegin "empty" exactly when, at their second load,
      the queue is. */
  lemma BeginAnswers(r: Ring, step: Step)
    requires Inv(r) && Enabled(r, step)
    ensures |r.received| <= |r.sent|
    ensures step.ProduceLoadTail? ==> (Take(r, step).producer.Idle? <==> |Queue(r)| == r.capacity)
    ensures step.ConsumeLoadHead? ==> (Take(r, step).consumer.Waiting? <==> Queue(r) == [])
  {
    hide Inv;
    Bounds(r);
  }

  /** The slot being written is neither an unread slot nor the one being read. */
  lemma WriterIsAlone(r: Ring)
    requires Inv(r) && r.producer.Writing?
    ensures forall i :: |r.received| <= i < |r.sent| ==> r.producer.slot != SlotAt(r, i)
    ensures r.consumer.Reading? ==> r.consumer.slot != r.producer.slot
  {
    forall i | |r.received| <= i < |r.sent|
      ensures r.producer.slot != SlotAt(r, i)
    {
      DistinctSlots(r.capacity, r.base + i, r.base + |r.sent|);
    }
    if r.consumer.Reading? {
      DistinctSlots(r.capacity, r.base + |r.received|, r.base + |r.sent|);
    }
  }

  /** The two halves of a call to ProduceCommit on a slot that was begun. */
  function Publish(r: Ring): Ring
    requires r.producer.Writing? && 0 < r.capacity == |r.slots|
  {
    Take(Take(r, CommitLoadHead), CommitStoreHead)
  }

  /** The two halves of a call to ConsumeCommit on a slot that is being read. */
  function Release(r: Ring): Ring
    requires r.consumer.Reading? && 0 < r.capacity == |r.slots|
  {
    Take(Take(r, ReleaseLoadTail), ReleaseStoreTail)
  }

  lemma PublishEffect(r: Ring)
    requires Inv(r) && r.producer.Writing?
    ensures Inv(Publish(r)) && |r.received| <= |r.sent|
    ensures Publish(r) ==
              r.(head := WrapInc(r.head), producer := Idle, sent := r.sent + [r.producer.image])
    ensures Queue(Publish(r)) == Queue(r) + [r.producer.image]
  {
    assert 0 < r.capacity == |r.slots|;
    hide Inv;
    StepKeepsInv(r, CommitLoadHead);
    StepRefinesQueue(r, CommitLoadHead);
    StepRefinesQueue(Take(r, CommitLoadHead), CommitStoreHead);
  }

  lemma ReleaseEffect(r: Ring)
    requires Inv(r) && r.consumer.Reading?
    ensures Inv(Release(r)) && |r.received| < |r.sent|
    ensures Release(r) ==
              r.(tail := WrapInc(r.tail), consumer := Waiting, received := r.received + [r.consumer.view])
    ensures Queue(Release(r)) == Queue(r)[1..]
  {
    assert 0 < r.capacity == |r.slots|;
    hide Inv;
    StepKeepsInv(r, ReleaseLoadTail);
    StepRefinesQueue(r, ReleaseLoadTail);
    StepRefinesQueue(Take(r, ReleaseLoadTail), ReleaseStoreTail);
  }

  /** Filling the slot that was begun with any bytes at all disturbs no unread item. */
  lemma FillKeepsContents(r: Ring, bytes: ByteSeq)
    requires Geometry(r) && Counts(r) && Contents(r) && |r.sent| < |r.received| + r.capacity
    ensures Contents(r.(slots := r.slots[SlotAt(r, |r.sent|) := bytes]))
  {
    var r' := r.(slots := r.slots[SlotAt(r, |r.sent|) := bytes]);
    hide Agrees;
    forall i {:trigger r'.sent[i]} | |r'.received| <= i < |r'.sent|
      ensures r'.slots[SlotAt(r', i)] == r'.sent[i]
    {
      DistinctItems(r, i, |r.sent|);
      assert SlotAt(r', i) == SlotAt(r, i);
      assert r.sent[i] == r.slots[SlotAt(r, i)];
    }
    hide SlotAt;
  }

  lemma FillKeepsInv(r: Ring, bytes: ByteSeq)
    requires Inv(r) && r.producer.Idle? && |r.sent| < |r.received| + r.capacity
    requires |bytes| == r.slotSize
    ensures Inv(r.(slots := r.slots[SlotAt(r, |r.sent|) := bytes]))
  {
    hide Agrees, Contents;
    FillKeepsContents(r, bytes);
  }

  // Whole runs.

  ghost predicate Reaches(r: Ring, steps: seq<Step>, r': Ring)
    decreases |steps|
  {
    if steps == [] then r == r'
    else Enabled(r, steps[0]) && Reaches(Take(r, steps[0]), steps[1..], r')
  }

  /** A ring as AttachRing accepts it: the words in use hold whatever is unread. */
  ghost predicate Attached(r: Ring) {
    && Geometry(r)
    && WrapSub(r.head, r.tail) <= r.capacity
    && r.producer.Idle? && r.consumer.Waiting?
    && r.base == r.tail && r.received == []
    && |r.sent| == WrapSub(r.head, r.tail)
    && forall i :: 0 <= i < |r.sent| ==> r.sent[i] == r.slots[SlotAt(r, i)]
  }

  lemma AttachedInv(r: Ring)
    requires Attached(r)
    ensures Inv(r)
  {
  }

  lemma {:induction false} RunKeepsInv(r: Ring, steps: seq<Step>, r': Ring)
    requires Inv(r) && Reaches(r, steps, r')
    ensures Inv(r')
    ensures r'.capacity == r.capacity && r'.slotSize == r.slotSize && r'.base == r.base
    ensures r.sent <= r'.sent && r.received <= r'.received
    decreases |steps|
  {
    hide Inv, Take, Enabled;
    if steps != [] {
      StepKeepsInv(r, steps[0]);
      StepFrame(r, steps[0]);
      RunKeepsInv(Take(r, steps[0]), steps[1..], r');
    }
  }

  ghost predicate Complete(view: map<nat, U8>, size: nat) {
    forall k :: 0 <= k < size ==> k in view
  }

  /** The slot a complete view shows. */
  function Whole(view: map<nat, U8>, size: nat): ByteSeq
    requires Complete(view, size)
  {
    seq(size, k requires 0 <= k < size => view[k])
  }

  lemma WholeIsItem(view: map<nat, U8>, item: ByteSeq)
    requires Agrees(view, item) && Complete(view, |item|)
    ensures Whole(view, |item|) == item
  {
  }

  /** Over any run from an attach, under any interleaving and any index wrap-around, the items
      released are a prefix of the items sent, in order, none lost, repeated or torn, and at
      most `capacity` are ever outstanding. */
  lemma RunIsFifo(r: Ring, steps: seq<Step>, r': Ring)
    requires Attached(r) && Reaches(r, steps, r')
    ensures Inv(r')
    ensures |r'.received| <= |r'.sent| <= |r'.received| + r.capacity
    ensures forall i :: 0 <= i < |r'.received| && Complete(r'.received[i], r.slotSize) ==>
              Whole(r'.received[i], r.slotSize) == r'.sent[i]
  {
    AttachedInv(r);
    RunKeepsInv(r, steps, r');
    forall i | 0 <= i < |r'.received| && Complete(r'.received[i], r.slotSize)
      ensures Whole(r'.received[i], r.slotSize) == r'.sent[i]
    {
      assert Agrees(r'.received[i], r'.sent[i]);
      WholeIsItem(r'.received[i], r'.sent[i]);
    }
  }

  predicate ProducerStep(step: Step) {
    step.ProduceLoadHead? || step.ProduceLoadTail? || step.WriteByte? || step.ProduceAbandon?
    || step.CommitLoadHead? || step.CommitStoreHead?
  }

  lemma LentSlotHoldsItem(r: Ring)
    requires Inv(r) && r.consumer.Reading?
    ensures |r.received| < |r.sent| && r.consumer.slot < |r.slots|
    ensures r.slots[r.consumer.slot] == r.sent[|r.received|]
  {
  }

  /** A slot lent to the reader keeps its bytes whatever the producer does, for as long as the
      reader has not begun to release it. */
  lemma {:induction false} LentSlotIsStable(r: Ring, steps: seq<Step>, r': Ring)
    requires Inv(r) && r.consumer.Reading?
    requires forall i :: 0 <= i < |steps| ==> ProducerStep(steps[i]) || steps[i].ReadByte?
    requires Reaches(r, steps, r')
    ensures r'.consumer.Reading? && r'.consumer.slot == r.consumer.slot < |r.slots| == |r'.slots|
    ensures |r.received| < |r.sent|
    ensures r'.slots[r.consumer.slot] == r.slots[r.consumer.slot] == r.sent[|r.received|]
    decreases |steps|
  {
    LentSlotHoldsItem(r);
    if steps != [] {
      var next := Take(r, steps[0]);
      StepKeepsInv(r, steps[0]);
      StepFrame(r, steps[0]);
      hide Inv;
      LentSlotHoldsItem(next);
      LentSlotIsStable(next, steps[1..], r');
    }
  }
}
