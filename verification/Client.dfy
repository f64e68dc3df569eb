/** The bus client: framing an event into a lent outbound slot, and polling events out of the
    inbound ring with a payload view that stays valid until the next poll. */
module Client {
  import opened Bits
  import opened Bytes
  import opened Wrappers
  import opened Wire
  import RingProtocol
  import opened SharedRing

  datatype SendResult = Sent | ErrProtocol | ErrPayload | ErrEpoch | ErrWouldBlock

  /** A received event, with its payload copied out of the slot. */
  datatype Event = Event(frame: Frame, payload: ByteSeq)

  /** A polled event, whose payload is the stretch [lo, hi) of the inbound mapping; or a payload
      bound outside the slot, at which the source panics. */
  datatype PollResult =
    | NoEvent | Polled(frame: Frame, lo: nat, hi: nat) | PollFailed(error: SendResult) | SliceOutOfRange

  // Framing.

  /** The frame emit builds; an empty payload has no placement. */
  function EmitFrame(handle: U32, flags: U16, kind: U32, corr: U64, length: U32): Frame
    requires flags < 0x100
  {
    Frame(if length > 0 then Or(flags, F_INLINE) else flags, WIRE_VERSION, kind, 0, corr, 0, 0,
          if length > 0 then HDR_LEN else 0, length, handle, 0, 0)
  }

  /** The flag words the client's own calls pass to emit. */
  predicate ClientFlags(flags: U16) {
    flags == F_NOTIFICATION || flags == F_REQUEST || flags == F_REQUEST + F_MORE
    || flags == F_REPLY || flags == F_REPLY + F_MORE || flags == F_CANCEL
  }

  /** The errors emit can answer before it looks at the ring, in its order. */
  function Precheck(attached: bool, epochChanged: bool, inlineBudget: U32, slotSize: U32, length: nat): SendResult {
    if !attached then ErrProtocol
    else if length > 0 && (length % TWO_TO_32 > inlineBudget || HDR_LEN + length > slotSize) then ErrPayload
    else if epochChanged then ErrEpoch
    else Sent
  }

  /** A slot that carries an event: its header, then its payload, then anything. */
  ghost predicate Carries(slot: ByteSeq, e: Event) {
    && HDR_LEN + |e.payload| <= |slot|
    && slot[..HDR_LEN] == FrameBytes(e.frame)
    && slot[HDR_LEN..HDR_LEN + |e.payload|] == e.payload
  }

  ghost predicate EmittedEvent(e: Event, slotSize: nat) {
    && Validate(e.frame) == OK
    && e.frame.payloadLen == |e.payload|
    && e.frame.payloadRef == (if e.payload == [] then 0 else HDR_LEN)
    && (e.payload != [] ==> Has(e.frame.hdrFlags, F_INLINE))
    && HDR_LEN + |e.payload| <= slotSize
  }

  /** What Poll makes of a slot: nothing when the header does not decode, and otherwise its frame,
      with the payload view when the wrapped end of the payload lies within the slot. */
  datatype Opened = Undecoded | Lent(event: Event) | OutOfRange

  function Open(slot: ByteSeq): Opened {
    var d := DecodeFrame(slot);
    var f := d.frame;
    var end := (f.payloadRef + f.payloadLen) % TWO_TO_64;
    if d.result != OK then Undecoded
    else if !(Has(f.hdrFlags, F_INLINE) && f.payloadLen > 0 && end <= |slot|) then Lent(Event(f, []))
    else if f.payloadRef <= end then Lent(Event(f, slot[f.payloadRef..end]))
    else OutOfRange
  }

  /** The slice is out of range exactly when the header decodes to an inline frame whose reference
      and length wrap past 2^64 and land within the slot. */
  lemma SliceInRange(slot: ByteSeq)
    ensures var f := DecodeFrame(slot).frame;
            Open(slot).OutOfRange? <==>
              && DecodeFrame(slot).result == OK && Has(f.hdrFlags, F_INLINE)
              && TWO_TO_64 <= f.payloadRef + f.payloadLen <= TWO_TO_64 + |slot|
  {
    var f := DecodeFrame(slot).frame;
    hide DecodeFrame, Has;
    if f.payloadRef + f.payloadLen >= TWO_TO_64 {
      DivModUnique(f.payloadRef + f.payloadLen, TWO_TO_64, 1, f.payloadRef + f.payloadLen - TWO_TO_64);
    } else {
      DivModUnique(f.payloadRef + f.payloadLen, TWO_TO_64, 0, f.payloadRef + f.payloadLen);
    }
  }

  /** The placement check, which Poll does not run, rules that out. */
  lemma PlacedIsInRange(slot: ByteSeq, arenaSize: U64)
    requires |slot| < TWO_TO_32
    requires DecodeFrame(slot).result == OK ==> CheckPlacement(DecodeFrame(slot).frame, |slot|, arenaSize) == OK
    ensures !Open(slot).OutOfRange?
  {
    SliceInRange(slot);
    hide DecodeFrame, Validate, And;
  }

  /** Validation does not: a valid frame can claim two bytes at the last address there is. */
  lemma ValidFrameOutOfRange(slot: ByteSeq, kind: U32, corr: U64)
    requires corr != 0 && |slot| >= HDR_LEN
    requires slot[..HDR_LEN] == FrameBytes(Frame(F_INLINE + F_REQUEST, WIRE_VERSION, kind, 0, corr, 0, 0,
                                                 TWO_TO_64 - 1, 2, 0, 0, 0))
    ensures Open(slot).OutOfRange?
  {
    var f := Frame(F_INLINE + F_REQUEST, WIRE_VERSION, kind, 0, corr, 0, 0, TWO_TO_64 - 1, 2, 0, 0, 0);
    LoadedFrameValid(f, F_REQUEST);
    HeaderDecodes(slot, f);
    FlagArithmetic(f.hdrFlags);
    hide DecodeFrame, Validate, And, FrameBytes;
    SliceInRange(slot);
  }

  lemma EmittedIsPlaced(e: Event, slotSize: U32, arenaSize: U64)
    requires EmittedEvent(e, slotSize)
    ensures CheckPlacement(e.frame, slotSize, arenaSize) == OK
  {
    hide Validate, And;
  }

  /** A polled slot yields exactly the frame and payload that were emitted into it. */
  lemma OpenEmitted(slot: ByteSeq, e: Event)
    requires |slot| < TWO_TO_32 && Carries(slot, e) && EmittedEvent(e, |slot|)
    ensures Open(slot) == Lent(e)
  {
    HeaderDecodes(slot, e.frame);
    var end := e.frame.payloadRef + e.frame.payloadLen;
    DivModUnique(end, TWO_TO_64, 0, end);
    hide DecodeFrame, FrameBytes, Validate, Has;
    assert slot[HDR_LEN..HDR_LEN + |e.payload|] == e.payload;
  }

  lemma OneBit(v: nat)
    requires v == 4 || v == 8 || v == 16 || v == 32 || v == 1
    ensures ExactlyOne(v)
  {
    PowerOfTwoTest(v);
    assert IsPow2(4) && IsPow2(8) && IsPow2(16) && IsPow2(32) && IsPow2(1);
  }

  lemma OrInline(flags: U16)
    requires ClientFlags(flags)
    ensures Or(flags, F_INLINE) == flags + 1
  {
    FlagArithmetic(flags);
  }

  lemma EmptyFrameValid(f: Frame)
    requires ClientFlags(f.hdrFlags) && f.hdrFlags <= F_MORE && (f.hdrFlags == F_NOTIFICATION <==> f.correlationID == 0)
    requires f.wireVersion == WIRE_VERSION && f.payloadLen == f.payloadRef == f.generation == 0
    ensures Validate(f) == OK
  {
    hide And, ExactlyOne, AndNot;
    FlagArithmetic(f.hdrFlags);
    OneBit(And(f.hdrFlags, PATTERN_MASK));
  }

  lemma LoadedFrameValid(f: Frame, flags: U16)
    requires ClientFlags(flags) && f.hdrFlags == flags + 1 && (flags == F_NOTIFICATION <==> f.correlationID == 0)
    requires f.wireVersion == WIRE_VERSION && 0 < f.payloadLen <= MAX_PAYLOAD && f.generation == 0
    ensures Validate(f) == OK
  {
    hide And, ExactlyOne, AndNot;
    FlagArithmetic(f.hdrFlags);
    OneBit(And(f.hdrFlags, PATTERN_MASK));
    OneBit(1);
  }

  /** Every frame the client builds is valid, given a payload the budget admits. */
  lemma EmitFrameValid(handle: U32, flags: U16, kind: U32, corr: U64, length: U32)
    requires ClientFlags(flags) && (flags == F_NOTIFICATION <==> corr == 0)
    requires flags > F_MORE ==> length > 0
    requires length <= MAX_PAYLOAD
    ensures Validate(EmitFrame(handle, flags, kind, corr, length)) == OK
  {
    var f := EmitFrame(handle, flags, kind, corr, length);
    OrInline(flags);
    hide Validate, And, Or;
    if length > 0 {
      assert f.hdrFlags == flags + 1;
      LoadedFrameValid(f, flags);
    } else {
      EmptyFrameValid(f);
    }
  }

  /** A frame that emit sends, with the payload it copies behind it, is an emitted event. */
  lemma SentIsEmitted(handle: U32, flags: U16, kind: U32, corr: U64, payload: ByteSeq, slotSize: U32)
    requires flags < 0x100 && HDR_LEN + |payload| <= slotSize
    requires Validate(EmitFrame(handle, flags, kind, corr, |payload|)) == OK
    ensures EmittedEvent(Event(EmitFrame(handle, flags, kind, corr, |payload|), payload), slotSize)
  {
    hide Validate, And;
    FlagArithmetic(flags);
    if payload != [] {
      FlagArithmetic(flags + 1 - flags % 2);
    }
  }

  /** What emit answers, given the room in the outbound ring. */
  function EmitResult(pre: SendResult, full: bool, slotSize: U32, f: Frame): SendResult {
    if pre != Sent then pre
    else if full then ErrWouldBlock
    else if slotSize < HDR_LEN || Validate(f) != OK then ErrProtocol
    else Sent
  }

  /** The reasons for emit's answers, the first that holds: no client, a payload over the budget or
      the slot, a restarted host, a full ring, a frame that would not decode. */
  lemma EmitReasons(attached: bool, epochChanged: bool, inlineBudget: U32, slotSize: U32, length: nat,
                    full: bool, f: Frame)
    ensures var r := EmitResult(Precheck(attached, epochChanged, inlineBudget, slotSize, length), full, slotSize, f);
            var fits := length == 0 || (length % 0x1_0000_0000 <= inlineBudget && 64 + length <= slotSize);
            && (r == ErrPayload <==> attached && !fits)
            && (r == ErrEpoch <==> attached && fits && epochChanged)
            && (r == ErrWouldBlock <==> attached && fits && !epochChanged && full)
            && (r == Sent <==>
                  attached && fits && !epochChanged && !full && 64 <= slotSize && Validate(f) == OK)
  {
    hide Validate;
  }

  /** The frame says what the call asked for: its kind, correlation and flags, the sender's handle,
      and a payload, if there is one, inline behind the header. */
  lemma EmitFrameFields(handle: U32, flags: U16, kind: U32, corr: U64, length: U32)
    requires ClientFlags(flags)
    ensures var f := EmitFrame(handle, flags, kind, corr, length);
            && f.eventKind == kind && f.correlationID == corr && f.srcHandle == handle && f.payloadLen == length
            && f.hdrFlags == flags + (if length > 0 then 1 else 0) && f.payloadRef == (if length > 0 then 64 else 0)
            && f.principalRef == 0 && f.seqNo == 0 && f.logicalTS == 0 && f.dstHandle == 0 && f.generation == 0
  {
    OrInline(flags);
  }

  /** The header and then the payload, copied into a slot of the mapping. */
  method FillSlot(mem: array<U8>, lo: nat, hi: nat, f: Frame, payload: ByteSeq) returns (n: nat)
    requires lo <= hi <= mem.Length
    requires HDR_LEN + |payload| <= hi - lo || |payload| == 0
    modifies mem
    ensures n == if hi - lo < HDR_LEN || Validate(f) != OK then 0 else HDR_LEN
    ensures n == 0 ==> mem[..] == old(mem[..])
    ensures mem[..lo] == old(mem[..lo]) && mem[hi..] == old(mem[hi..])
    ensures n == HDR_LEN ==> Carries(mem[lo..hi], Event(f, payload))
  {
    hide FrameBytes, Validate;
    ghost var was := mem[..];
    n := Encode(f, mem, lo, hi);
    ghost var framed := mem[..];
    assert n == 0 ==> framed == was;
    if n != HDR_LEN {
      return;
    }
    var at := lo + HDR_LEN;
    assert framed[..lo] == was[..lo] && framed[hi..] == was[hi..];
    assert framed[lo..at] == FrameBytes(f);
    forall i | 0 <= i < |payload| {
      mem[at + i] := payload[i];
    }
    assert mem[..at] == framed[..at];
    assert mem[lo..hi][..HDR_LEN] == framed[lo..at];
    forall k | 0 <= k < |payload|
      ensures mem[lo..hi][HDR_LEN + k] == payload[k]
    {
      assert mem[at + k] == payload[k];
    }
  }

  /** Decodes a slot in place: its frame, and where in the slot its payload lies. */
  method OpenSlot(slot: ByteSeq) returns (ok: bool, f: Frame, at: nat, end: nat)
    ensures ok <==> !Open(slot).Undecoded?
    ensures ok && at <= end ==> end <= |slot| && Open(slot) == Lent(Event(f, slot[at..end]))
    ensures ok && at > end ==> Open(slot).OutOfRange?
  {
    hide DecodeFrame, And;
    var cell := new FrameCell(ZERO_FRAME);
    var decoded := Decode(slot, cell);
    f := cell.frame;
    if decoded != OK {
      return false, f, 0, 0;
    }
    if Has(f.hdrFlags, F_INLINE) && f.payloadLen > 0
       && (f.payloadRef + f.payloadLen) % TWO_TO_64 <= |slot|
    {
      return true, f, f.payloadRef, (f.payloadRef + f.payloadLen) % TWO_TO_64;
    }
    return true, f, 0, 0;
  }

  /** An attached client. The two rings are separate stretches of the mapping. */
  class BusClient {
    const handle: U32
    const slotSize: U32
    const inlineBudget: U32
    const outbound: RingView
    const inbound: RingView
    var attached: bool
    var pendingRead: bool

    ghost predicate Valid()
      reads this, outbound, outbound.mem, inbound, inbound.mem
    {
      && outbound != inbound && outbound.mem != inbound.mem
      && outbound.Valid() && inbound.Valid()
      && outbound.slotSize == inbound.slotSize == slotSize
      && (pendingRead ==> inbound.Unread() != [])
    }

    constructor (handle: U32, slotSize: U32, inlineBudget: U32,
                 outbound: RingView, inbound: RingView)
      requires outbound != inbound && outbound.mem != inbound.mem
      requires outbound.Valid() && inbound.Valid()
      requires outbound.slotSize == inbound.slotSize == slotSize
      ensures Valid() && attached && !pendingRead
      ensures this.outbound == outbound && this.inbound == inbound
      ensures this.handle == handle && this.slotSize == slotSize
      ensures this.inlineBudget == inlineBudget
    {
      this.handle := handle;
      this.slotSize := slotSize;
      this.inlineBudget := inlineBudget;
      this.outbound := outbound;
      this.inbound := inbound;
      attached := true;
      pendingRead := false;
    }

    /** Frames an event into the slot begun, without publishing it. */
    method FillFree(lo: nat, f: Frame, payload: ByteSeq) returns (n: nat)
      requires Valid() && |outbound.Unread()| < outbound.capacity
      requires lo == outbound.SlotLo(outbound.FreeSlot()) && lo + slotSize <= outbound.mem.Length
      requires HDR_LEN + |payload| <= slotSize || |payload| == 0
      modifies outbound.mem
      ensures Valid() && outbound.Unread() == old(outbound.Unread())
      ensures n == if slotSize < HDR_LEN || Validate(f) != OK then 0 else HDR_LEN
      ensures n == 0 ==> outbound.Protocol() == old(outbound.Protocol())
      ensures n == HDR_LEN ==> Carries(outbound.SlotBytes(outbound.FreeSlot()), Event(f, payload))
    {
      hide RingProtocol.Inv, Validate, Carries;
      ghost var before, was := outbound.Protocol(), outbound.mem[..];
      n := FillSlot(outbound.mem, lo, lo + slotSize, f, payload);
      outbound.FreeSlotFilled(before, was, lo);
    }

    /** Sends one frame. On success the outbound queue gains a slot that carries exactly this
        event; on every error the outbound ring is as it was. */
    method Emit(flags: U16, kind: U32, corr: U64, payload: ByteSeq, epochChanged: bool)
      returns (r: SendResult)
      requires Valid() && flags < 0x100
      modifies outbound, outbound.mem
      ensures Valid()
      ensures var pre := Precheck(attached, epochChanged, inlineBudget, slotSize, |payload|);
              r == EmitResult(pre, |old(outbound.Unread())| == outbound.capacity, slotSize,
                              EmitFrame(handle, flags, kind, corr, if pre == Sent then |payload| else 0))
      ensures r != Sent ==> outbound.Protocol() == old(outbound.Protocol())
      ensures !attached ==> r == ErrProtocol
      ensures attached && epochChanged ==> r == ErrEpoch || r == ErrPayload
      ensures r == Sent && payload != [] ==> |payload| % 0x1_0000_0000 <= inlineBudget && 64 + |payload| <= slotSize
      ensures r == Sent ==>
                && |payload| < TWO_TO_32
                && |outbound.Unread()| == |old(outbound.Unread())| + 1
                && outbound.Unread()[..|old(outbound.Unread())|] == old(outbound.Unread())
                && Carries(outbound.Unread()[|old(outbound.Unread())|],
                           Event(EmitFrame(handle, flags, kind, corr, |payload|), payload))
    {
      hide RingProtocol.Inv, Validate, Carries, RingProtocol.Take;
      if Precheck(attached, epochChanged, inlineBudget, slotSize, |payload|) != Sent {
        return Precheck(attached, epochChanged, inlineBudget, slotSize, |payload|);
      }
      var begun := outbound.ProduceBegin();
      if begun.None? {
        return ErrWouldBlock;
      }
      var f := EmitFrame(handle, flags, kind, corr, |payload|);
      var lo := begun.value;
      var n := FillFree(lo, f, payload);
      if n != HDR_LEN {
        return ErrProtocol;
      }
      outbound.ProduceCommit();
      return Sent;
    }

    /** What is unread once the slot lent by the previous poll has gone back. */
    ghost function Pending(): seq<ByteSeq>
      requires Valid()
      reads this, outbound, outbound.mem, inbound, inbound.mem
    {
      if pendingRead then inbound.Unread()[1..] else inbound.Unread()
    }

    /** Releases the slot the previous poll lent, if any. */
    method GiveBack()
      requires Valid()
      modifies this`pendingRead, inbound
      ensures Valid() && !pendingRead && inbound.Unread() == old(Pending())
    {
      hide RingProtocol.Inv, RingProtocol.Take;
      if pendingRead {
        inbound.ConsumeCommit();
        pendingRead := false;
      }
    }

    /** The outcome of looking at the oldest of the unread slots q. */
    ghost predicate TookNext(q: seq<ByteSeq>, r: PollResult)
      requires Valid()
      reads this, outbound, outbound.mem, inbound, inbound.mem
    {
      if q == [] then r == NoEvent && inbound.Unread() == [] && !pendingRead
      else
        match Open(q[0])
        case Undecoded => r == NoEvent && inbound.Unread() == q[1..] && !pendingRead
        case OutOfRange => r == SliceOutOfRange && inbound.Unread() == q && !pendingRead
        case Lent(event) =>
          && inbound.Unread() == q && pendingRead
          && r.Polled? && r.lo <= r.hi <= inbound.mem.Length
          && event == Event(r.frame, inbound.mem[r.lo..r.hi])
    }

    /** Decodes the oldest unread slot, which starts at `lo`, and bounds its payload in the mapping. */
    method OpenOldest(lo: nat) returns (ok: bool, f: Frame, from: nat, to: nat)
      requires Valid() && inbound.Unread() != [] && lo + slotSize <= inbound.mem.Length
      requires inbound.mem[lo..lo + slotSize] == inbound.Unread()[0]
      ensures ok <==> !Open(inbound.Unread()[0]).Undecoded?
      ensures ok && from > to ==> Open(inbound.Unread()[0]).OutOfRange?
      ensures ok && from <= to ==>
                to <= inbound.mem.Length && Open(inbound.Unread()[0]) == Lent(Event(f, inbound.mem[from..to]))
    {
      hide *;
      var slot := inbound.mem[lo..lo + slotSize];
      var at, end;
      ok, f, at, end := OpenSlot(slot);
      from, to := lo + at, lo + end;
      if ok && at <= end {
        assert slot[at..end] == inbound.mem[lo + at..lo + end];
      }
    }

    method TakeNext() returns (r: PollResult)
      requires Valid() && !pendingRead
      modifies this`pendingRead, inbound
      ensures Valid() && TookNext(old(inbound.Unread()), r)
    {
      hide RingProtocol.Inv, RingProtocol.Take, Open;
      var begun := inbound.ConsumeBegin();
      if begun.None? {
        return NoEvent;
      }
      var ok, f, from, to := OpenOldest(begun.value);
      if !ok {
        inbound.ConsumeCommit();
        return NoEvent;
      }
      if from > to {
        return SliceOutOfRange;
      }
      pendingRead := true;
      return Polled(f, from, to);
    }

    /** Takes the next inbound event. The slot behind the payload view is released only by the
        next poll; a slot that does not decode is dropped. */
    method Poll(epochChanged: bool) returns (r: PollResult)
      requires Valid()
      modifies this`pendingRead, inbound
      ensures Valid()
      ensures !attached ==> r == PollFailed(ErrProtocol)
      ensures attached && epochChanged ==> r == PollFailed(ErrEpoch)
      ensures !attached || epochChanged ==>
                inbound.Protocol() == old(inbound.Protocol()) && pendingRead == old(pendingRead)
      ensures attached && !epochChanged ==> TookNext(old(Pending()), r)
      ensures attached && !epochChanged && old(pendingRead) ==> TookNext(old(inbound.Unread())[1..], r)
      ensures attached && !epochChanged && !old(pendingRead) ==> TookNext(old(inbound.Unread()), r)
    {
      hide RingProtocol.Inv, RingProtocol.Take, Open, TookNext;
      if !attached {
        return PollFailed(ErrProtocol);
      }
      if epochChanged {
        return PollFailed(ErrEpoch);
      }
      GiveBack();
      r := TakeNext();
    }
  }
}
