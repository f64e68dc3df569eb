/** One side's view of a mapped ring: geometry checks at attach, and the begin/commit calls on
    the index words and the slot bytes. Each call is stated as the protocol steps it takes. */
module SharedRing {
  import opened Bits
  import opened Bytes
  import opened Wrappers
  import opened RingProtocol

  const RING_MAGIC: U32 := 0x474e4952
  const RING_HDR_BYTES := 192

  /** The geometry fields of a mapped ring header. */
  datatype Header = Header(magic: U32, slot: U32, cap: U32, mask: U32, slotsOff: U32)

  function HeaderAt(mem: ByteSeq): Header
    requires |mem| >= RING_HDR_BYTES
  {
    Header(WordAt(mem, 0, 4), WordAt(mem, 4, 4), WordAt(mem, 8, 4), WordAt(mem, 12, 4), WordAt(mem, 16, 4))
  }

  predicate HeaderOk(h: Header, length: nat) {
    && h.magic == RING_MAGIC
    && h.cap >= 2 && And(h.cap, h.cap - 1) == 0 && h.slot != 0 && h.mask == h.cap - 1
    && h.slotsOff == RING_HDR_BYTES
    && h.slotsOff + h.slot * h.cap <= length
  }

  /** What an accepted header is: the magic, a power of two of at least two slots under its own mask,
      slots of at least one byte right behind the header, and all of them mapped. */
  lemma HeaderMeaning(h: Header, length: nat)
    ensures HeaderOk(h, length) <==>
              && h.magic == 0x474e4952 && h.cap >= 2 && IsPow2(h.cap) && h.mask == h.cap - 1
              && h.slot > 0 && h.slotsOff == 192 && 192 + h.slot * h.cap <= length
  {
    if h.cap >= 2 {
      PowerOfTwoTest(h.cap);
    }
    hide And, IsPow2;
  }

  class RingView {
    const mem: array<U8>
    const slotSize: nat
    const capacity: nat
    const mask: nat
    var head: U64
    var tail: U64

    // The history behind the indices: see RingProtocol.Ring.
    ghost var base: nat
    ghost var sent: seq<ByteSeq>
    ghost var released: nat

    ghost predicate Mapped()
    {
      && 2 <= capacity < TWO_TO_32 && IsPow2(capacity) && mask == capacity - 1
      && slotSize > 0
      && RING_HDR_BYTES + slotSize * capacity <= mem.Length
    }

    /** Where the i-th slot starts in the mapping. */
    function SlotLo(i: nat): (lo: nat)
    {
      RING_HDR_BYTES + slotSize * i
    }

    lemma SlotInside(i: nat)
      requires Mapped() && i < capacity
      ensures SlotLo(i) + slotSize <= mem.Length
    {
      MulMono(slotSize, i + 1, capacity);
    }

    lemma SlotsDisjoint(i: nat, j: nat)
      requires i != j
      ensures SlotLo(i) + slotSize <= SlotLo(j) || SlotLo(j) + slotSize <= SlotLo(i)
    {
      if i < j {
        MulMono(slotSize, i + 1, j);
      } else {
        MulMono(slotSize, j + 1, i);
      }
    }

    /** The i-th slot of a snapshot of the mapping. */
    ghost function SlotIn(b: ByteSeq, i: nat): (slot: ByteSeq)
      requires Mapped() && |b| == mem.Length && i < capacity
      ensures |slot| == slotSize
    {
      SlotInside(i);
      b[SlotLo(i)..SlotLo(i) + slotSize]
    }

    ghost function SlotsIn(b: ByteSeq): (s: seq<ByteSeq>)
      requires Mapped() && |b| == mem.Length
      ensures |s| == capacity
      ensures forall i :: 0 <= i < capacity ==> s[i] == SlotIn(b, i)
    {
      seq(capacity, i requires 0 <= i < capacity => SlotIn(b, i))
    }

    ghost function SlotBytes(i: nat): (b: ByteSeq)
      requires Mapped() && i < capacity
      reads mem
      ensures |b| == slotSize
    {
      SlotIn(mem[..], i)
    }

    ghost function Slots(): (s: seq<ByteSeq>)
      requires Mapped()
      reads mem
      ensures |s| == capacity
      ensures forall i :: 0 <= i < capacity ==> s[i] == SlotBytes(i)
    {
      SlotsIn(mem[..])
    }

    /** The protocol state this view shows between calls. */
    ghost function Protocol(): RingProtocol.Ring
      requires Mapped()
      reads this, mem
    {
      RingProtocol.Ring(capacity, slotSize, head, tail, Slots(), Idle, Waiting, base, sent,
                        seq(released, i => map[]))
    }

    ghost predicate Valid()
      reads this, mem
    {
      Mapped() && Inv(Protocol())
    }

    ghost function Unread(): seq<ByteSeq>
      requires Valid()
      reads this, mem
    {
      Queue(Protocol())
    }

    constructor (mem: array<U8>, slotSize: nat, capacity: nat, head: U64, tail: U64)
      requires 2 <= capacity < TWO_TO_32 && IsPow2(capacity) && slotSize > 0
      requires RING_HDR_BYTES + slotSize * capacity <= mem.Length
      requires WrapSub(head, tail) <= capacity
      ensures Valid() && this.mem == mem && this.slotSize == slotSize && this.capacity == capacity
      ensures this.head == head && this.tail == tail && base == tail && released == 0
      ensures Attached(Protocol())
    {
      this.mem := mem;
      this.slotSize := slotSize;
      this.capacity := capacity;
      this.mask := capacity - 1;
      this.head := head;
      this.tail := tail;
      base := tail;
      released := 0;
      new;
      ghost var s := Slots();
      ghost var t: nat := tail;
      sent := seq(WrapSub(head, tail), i requires 0 <= i => s[(t + i) % capacity]);
      hide *;
      AttachedView(s);
    }

    /** The unread items of a view just attached are the slots between its indices. */
    lemma AttachedView(s: seq<ByteSeq>)
      requires Mapped() && s == Slots() && base == tail && released == 0 && WrapSub(head, tail) <= capacity
      requires |sent| == WrapSub(head, tail)
      requires forall i :: 0 <= i < |sent| ==> sent[i] == s[(base + i) % capacity]
      ensures Attached(Protocol()) && Valid()
    {
      assert Attached(Protocol()) by {
        hide Inv, IsPow2;
        forall i | 0 <= i < |sent|
          ensures sent[i] == Protocol().slots[SlotAt(Protocol(), i)]
        {
        }
      }
      hide Attached, Inv;
      AttachedInv(Protocol());
    }

    /** The slot the next item goes to. */
    ghost function FreeSlot(): (i: nat)
      requires Mapped()
      reads this, mem
      ensures i < capacity
    {
      SlotAt(Protocol(), |sent|)
    }

    /** The slot of the oldest unread item. */
    ghost function OldestSlot(): (i: nat)
      requires Mapped()
      reads this, mem
      ensures i < capacity
    {
      SlotAt(Protocol(), released)
    }

    lemma SlotsAfterFill(was: ByteSeq, now: ByteSeq, free: nat)
      requires Mapped() && free < capacity && |was| == |now| == mem.Length
      requires SlotLo(free) + slotSize <= mem.Length
      requires was[..SlotLo(free)] == now[..SlotLo(free)]
      requires was[SlotLo(free) + slotSize..] == now[SlotLo(free) + slotSize..]
      ensures SlotsIn(now) == SlotsIn(was)[free := SlotIn(now, free)]
    {
      var lo, hi := SlotLo(free), SlotLo(free) + slotSize;
      forall j | 0 <= j < capacity && j != free
        ensures SlotIn(was, j) == SlotIn(now, j)
      {
        SlotInside(j);
        SlotsDisjoint(free, j);
        forall k | SlotLo(j) <= k < SlotLo(j) + slotSize
          ensures was[k] == now[k]
        {
          if k < lo {
            assert was[..lo][k] == now[..lo][k];
          } else {
            assert was[hi..][k - hi] == now[hi..][k - hi];
          }
        }
      }
    }

    /** Bytes written into the slot begun, and nowhere else, disturb no unread item. */
    lemma FreeSlotFilled(before: RingProtocol.Ring, was: ByteSeq, lo: nat)
      requires Mapped() && |was| == mem.Length
      requires Inv(before) && |Queue(before)| < capacity
      requires Protocol().(slots := SlotsIn(was)) == before
      requires lo == SlotLo(FreeSlot()) && lo + slotSize <= mem.Length
      requires mem[..lo] == was[..lo] && mem[lo + slotSize..] == was[lo + slotSize..]
      ensures Valid() && Unread() == Queue(before)
      ensures SlotBytes(FreeSlot()) == mem[lo..lo + slotSize]
      ensures mem[..] == was ==> Protocol() == before
    {
      SlotsAfterFill(was, mem[..], FreeSlot());
      FillKeepsInv(before, SlotBytes(FreeSlot()));
      hide Inv;
      assert Protocol() == before.(slots := Slots());
    }

    /** A writable slot, or None when the ring is full. */
    method ProduceBegin() returns (lo: Option<nat>)
      requires Valid()
      ensures |Unread()| <= capacity && (lo.None? <==> |Unread()| == capacity)
      ensures var p := Take(Take(Protocol(), ProduceLoadHead), ProduceLoadTail).producer;
              lo == if p.Writing? then Some(SlotLo(p.slot)) else None
      ensures lo.Some? ==> lo.value == SlotLo(FreeSlot()) && lo.value + slotSize <= mem.Length
    {
      BeginAnswers(Take(Protocol(), ProduceLoadHead), ProduceLoadTail) by {
        StepKeepsInv(Protocol(), ProduceLoadHead);
      }
      MaskedIndex(base + |sent|, capacity);
      if WrapSub(head, tail) >= capacity {
        return None;
      }
      var i := And(head, mask);
      SlotInside(i);
      return Some(SlotLo(i));
    }

    /** Publishes the slot most recently begun, with the bytes it now holds. */
    method ProduceCommit()
      requires Valid() && |Unread()| < capacity
      modifies this
      ensures Valid()
      ensures Protocol() == old(Publish(Protocol().(producer := Writing(FreeSlot(), SlotBytes(FreeSlot())))))
      ensures Unread() == old(Unread() + [SlotBytes(FreeSlot())])
      ensures released == old(released)
    {
      ghost var begun := Protocol().(producer := Writing(FreeSlot(), SlotBytes(FreeSlot())));
      assert Inv(begun);
      hide Inv;
      PublishEffect(begun);
      sent := sent + [SlotBytes(FreeSlot())];
      head := WrapInc(head);
      assert Protocol() == Publish(begun);
    }

    /** The oldest unread slot, or None when the ring is empty. */
    method ConsumeBegin() returns (lo: Option<nat>)
      requires Valid()
      ensures lo.None? <==> Unread() == []
      ensures var c := Take(Take(Protocol(), ConsumeLoadTail), ConsumeLoadHead).consumer;
              lo == if c.Reading? then Some(SlotLo(c.slot)) else None
      ensures lo.Some? ==> lo.value + slotSize <= mem.Length
      ensures lo.Some? ==> mem[lo.value..lo.value + slotSize] == Unread()[0]
    {
      BeginAnswers(Take(Protocol(), ConsumeLoadTail), ConsumeLoadHead) by {
        StepKeepsInv(Protocol(), ConsumeLoadTail);
      }
      MaskedIndex(base + released, capacity);
      if head == tail {
        return None;
      }
      var i := And(tail, mask);
      SlotInside(i);
      assert Slots()[i] == SlotBytes(i);
      return Some(SlotLo(i));
    }

    /** Releases the oldest slot for reuse. */
    method ConsumeCommit()
      requires Valid() && Unread() != []
      modifies this
      ensures Valid()
      ensures Protocol() == old(Release(Protocol().(consumer := Reading(OldestSlot(), map[]))))
      ensures Unread() == old(Unread())[1..]
      ensures released == old(released) + 1
    {
      ghost var begun := Protocol().(consumer := Reading(OldestSlot(), map[]));
      assert Inv(begun);
      hide Inv;
      ReleaseEffect(begun);
      released := released + 1;
      tail := WrapInc(tail);
      assert Protocol().received == begun.received + [map[]];
      assert Protocol() == Release(begun);
    }
  }

  /** Adopts a mapped ring after checking every geometry field against the bytes mapped. The
      two index words are the atomics at offsets 64 and 128. */
  method AttachRing(mem: array<U8>, head: U64, tail: U64) returns (r: Option<RingView>)
    ensures r.Some? <==>
              && mem.Length >= RING_HDR_BYTES && HeaderOk(HeaderAt(mem[..]), mem.Length)
              && WrapSub(head, tail) <= HeaderAt(mem[..]).cap
    ensures r.Some? ==>
              && r.value.Valid() && Attached(r.value.Protocol()) && r.value.mem == mem
              && r.value.slotSize == HeaderAt(mem[..]).slot && r.value.capacity == HeaderAt(mem[..]).cap
              && r.value.mask == HeaderAt(mem[..]).mask
              && r.value.head == head && r.value.tail == tail
              && |r.value.Unread()| == WrapSub(head, tail)
  {
    if mem.Length < RING_HDR_BYTES {
      return None;
    }
    var h := HeaderAt(mem[..]);
    if !HeaderOk(h, mem.Length) || WrapSub(head, tail) > h.cap {
      return None;
    }
    PowerOfTwoTest(h.cap);
    var view := new RingView(mem, h.slot, h.cap, head, tail);
    return Some(view);
  }
}
