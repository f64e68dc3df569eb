/** The event frame header: validation, the 64-byte codec and payload placement. */
module Wire {
  import opened Bits
  import opened Bytes

  const WIRE_MAGIC: U32 := 0x30535542
  const WIRE_VERSION: U16 := 3
  const HDR_LEN := 64
  const MAX_PAYLOAD: U32 := 0x10_0000

  const F_INLINE: U16 := 0x01
  const F_ARENA: U16 := 0x02
  const F_NOTIFICATION: U16 := 0x04
  const F_REQUEST: U16 := 0x08
  const F_REPLY: U16 := 0x10
  const F_CANCEL: U16 := 0x20
  const F_CONTROL: U16 := 0x40
  const F_MORE: U16 := 0x80
  const PLACEMENT_MASK: U16 := 0x03
  const PATTERN_MASK: U16 := 0x3c
  const KNOWN_MASK: U16 := 0xff

  const KIND_ERROR: U32 := 3
  const KIND_CAPABILITY_ABSENT: U32 := 4

  datatype Frame = Frame(
    hdrFlags: U16, wireVersion: U16, eventKind: U32, principalRef: U32, correlationID: U64,
    seqNo: U64, logicalTS: U64, payloadRef: U64, payloadLen: U32, srcHandle: U32,
    dstHandle: U32, generation: U32)

  datatype WireResult =
    | OK | ErrShort | ErrMagic | ErrVersion | ErrFlags | ErrPayloadLen | ErrCorrelation

  predicate Has(flags: U16, bit: U16) {
    And(flags, bit) != 0
  }

  predicate ExactlyOne(v: nat) {
    v != 0 && And(v, v - 1) == 0
  }

  function Validate(f: Frame): WireResult {
    var placement := And(f.hdrFlags, PLACEMENT_MASK);
    var pattern := And(f.hdrFlags, PATTERN_MASK);
    if f.wireVersion != WIRE_VERSION then ErrVersion
    else if AndNot(f.hdrFlags, KNOWN_MASK) != 0 then ErrFlags
    else if !ExactlyOne(pattern) then ErrFlags
    else if f.payloadLen > 0 && !ExactlyOne(placement) then ErrFlags
    else if f.payloadLen > 0 && f.payloadLen > MAX_PAYLOAD then ErrPayloadLen
    else if f.payloadLen == 0 && placement != 0 then ErrFlags
    else if f.payloadLen == 0 && f.payloadRef != 0 then ErrPayloadLen
    else if Has(f.hdrFlags, F_MORE)
         && ((pattern != F_REQUEST && pattern != F_REPLY) || placement != F_INLINE || f.payloadLen == 0)
    then ErrFlags
    else if !Has(f.hdrFlags, F_ARENA) && f.generation != 0 then ErrFlags
    else if Has(f.hdrFlags, F_NOTIFICATION) then
      if f.correlationID != 0 then ErrCorrelation else OK
    else if f.correlationID == 0 then ErrCorrelation
    else OK
  }

  function CheckPlacement(f: Frame, slotSize: U32, arenaSize: U64): WireResult {
    if Validate(f) != OK then Validate(f)
    else if f.payloadLen == 0 then OK
    else if Has(f.hdrFlags, F_INLINE) then
      var end := (f.payloadRef + f.payloadLen) % TWO_TO_64;
      if end < f.payloadRef then ErrPayloadLen
      else if f.payloadRef < HDR_LEN || end > slotSize then ErrPayloadLen
      else OK
    else if f.payloadLen > arenaSize then ErrPayloadLen
    else OK
  }

  // The header record: magic, then the frame's fields in wire order.

  const FRAME_WIDTHS: seq<nat> := [4, 2, 2, 4, 4, 8, 8, 8, 8, 4, 4, 4, 4]

  function FrameValues(f: Frame): seq<nat> {
    [WIRE_MAGIC, f.hdrFlags, f.wireVersion, f.eventKind, f.principalRef, f.correlationID, f.seqNo,
     f.logicalTS, f.payloadRef, f.payloadLen, f.srcHandle, f.dstHandle, f.generation]
  }

  function FrameBytes(f: Frame): (b: ByteSeq)
    ensures |b| == HDR_LEN
  {
    FrameLayout();
    Pack(FrameValues(f), FRAME_WIDTHS, 13)
  }

  function FrameAt(b: ByteSeq): Frame
    requires |b| == HDR_LEN
  {
    Frame(WordAt(b, 4, 2), WordAt(b, 6, 2), WordAt(b, 8, 4), WordAt(b, 12, 4), WordAt(b, 16, 8),
          WordAt(b, 24, 8), WordAt(b, 32, 8), WordAt(b, 40, 8), WordAt(b, 48, 4), WordAt(b, 52, 4),
          WordAt(b, 56, 4), WordAt(b, 60, 4))
  }

  datatype Decoded = Decoded(result: WireResult, frame: Frame)

  const ZERO_FRAME := Frame(0, 0, 0, 0, 0, 0, 0, 0, 0, 0, 0, 0)

  /** What decoding a buffer yields; the frame is meaningful only on OK. */
  function DecodeFrame(input: ByteSeq): Decoded {
    if |input| < HDR_LEN then Decoded(ErrShort, ZERO_FRAME)
    else if WordAt(input, 0, 4) != WIRE_MAGIC then Decoded(ErrMagic, ZERO_FRAME)
    else
      var f := FrameAt(input[..HDR_LEN]);
      Decoded(Validate(f), f)
  }

  lemma FrameLayout()
    ensures |FRAME_WIDTHS| == 13
    ensures Offset(FRAME_WIDTHS, 0) == 0 && Offset(FRAME_WIDTHS, 1) == 4
    ensures Offset(FRAME_WIDTHS, 2) == 6 && Offset(FRAME_WIDTHS, 3) == 8
    ensures Offset(FRAME_WIDTHS, 4) == 12 && Offset(FRAME_WIDTHS, 5) == 16
    ensures Offset(FRAME_WIDTHS, 6) == 24 && Offset(FRAME_WIDTHS, 7) == 32
    ensures Offset(FRAME_WIDTHS, 8) == 40 && Offset(FRAME_WIDTHS, 9) == 48
    ensures Offset(FRAME_WIDTHS, 10) == 52 && Offset(FRAME_WIDTHS, 11) == 56
    ensures Offset(FRAME_WIDTHS, 12) == 60 && Offset(FRAME_WIDTHS, 13) == HDR_LEN
  {
    assert Offset(FRAME_WIDTHS, 4) == 12;
    assert Offset(FRAME_WIDTHS, 8) == 40;
  }

  /** Decoding the header of a frame gives the frame back. */
  lemma FrameRoundTrip(f: Frame)
    ensures WordAt(FrameBytes(f), 0, 4) == WIRE_MAGIC
    ensures FrameAt(FrameBytes(f)) == f
  {
    FrameLayout();
    var v := FrameValues(f);
    forall i: nat | i < 13
      ensures Offset(FRAME_WIDTHS, i) + FRAME_WIDTHS[i] <= HDR_LEN
      ensures WordAt(FrameBytes(f), Offset(FRAME_WIDTHS, i), FRAME_WIDTHS[i]) == v[i]
    {
      WordOfPack(v, FRAME_WIDTHS, 13, i);
    }
  }

  /** Re-encoding an accepted header reproduces its bytes. */
  lemma HeaderRoundTrip(input: ByteSeq)
    requires DecodeFrame(input).result == OK
    ensures FrameBytes(DecodeFrame(input).frame) == input[..HDR_LEN]
  {
    FrameLayout();
    var b := input[..HDR_LEN];
    assert b[0..4] == input[0..4];
    assert b == input[..HDR_LEN];
    forall i: nat | i < 13
      ensures HoldsWord(b, FrameValues(FrameAt(b)), FRAME_WIDTHS, i)
    {
    }
    PackOfWords(b, FrameValues(FrameAt(b)), FRAME_WIDTHS, 13);
  }

  /** A buffer that starts with a frame's header decodes to that frame, if it is valid. */
  lemma HeaderDecodes(input: ByteSeq, f: Frame)
    requires |input| >= HDR_LEN && input[..HDR_LEN] == FrameBytes(f)
    ensures DecodeFrame(input).result == Validate(f)
    ensures DecodeFrame(input).frame == f
  {
    FrameRoundTrip(f);
    hide FrameBytes, FrameAt, Validate;
    assert input[0..4] == input[..HDR_LEN][0..4];
  }

  /** A caller's frame variable, as a decode's output. */
  class FrameCell {
    var frame: Frame

    constructor (f: Frame)
      ensures frame == f
    {
      frame := f;
    }
  }

  /** Writes the header into buf[lo..hi], or nothing when it does not fit or is not valid. */
  method Encode(f: Frame, buf: array<U8>, lo: nat, hi: nat) returns (n: nat)
    requires lo <= hi <= buf.Length
    modifies buf
    ensures n == if hi - lo < HDR_LEN || Validate(f) != OK then 0 else HDR_LEN
    ensures buf[..] == old(buf[..lo]) + (if n == 0 then [] else FrameBytes(f)) + old(buf[lo + n..])
  {
    if hi - lo < HDR_LEN || Validate(f) != OK {
      assert buf[..] == buf[..lo] + [] + buf[lo + 0..];
      return 0;
    }
    hide Written, Pack, Validate;
    FrameLayout();
    ghost var was := buf[..];
    forall i | lo <= i < lo + HDR_LEN {
      buf[i] := 0;
    }
    ghost var vs := FrameValues(f);
    NoneWritten(vs, FRAME_WIDTHS, buf[..], lo, was);
    StoreWord(vs, FRAME_WIDTHS, buf, lo, 0, 0, WIRE_MAGIC, 4, was);
    StoreWord(vs, FRAME_WIDTHS, buf, lo, 1, 4, f.hdrFlags, 2, was);
    StoreWord(vs, FRAME_WIDTHS, buf, lo, 2, 6, f.wireVersion, 2, was);
    StoreWord(vs, FRAME_WIDTHS, buf, lo, 3, 8, f.eventKind, 4, was);
    StoreWord(vs, FRAME_WIDTHS, buf, lo, 4, 12, f.principalRef, 4, was);
    StoreWord(vs, FRAME_WIDTHS, buf, lo, 5, 16, f.correlationID, 8, was);
    StoreWord(vs, FRAME_WIDTHS, buf, lo, 6, 24, f.seqNo, 8, was);
    StoreWord(vs, FRAME_WIDTHS, buf, lo, 7, 32, f.logicalTS, 8, was);
    StoreWord(vs, FRAME_WIDTHS, buf, lo, 8, 40, f.payloadRef, 8, was);
    StoreWord(vs, FRAME_WIDTHS, buf, lo, 9, 48, f.payloadLen, 4, was);
    StoreWord(vs, FRAME_WIDTHS, buf, lo, 10, 52, f.srcHandle, 4, was);
    StoreWord(vs, FRAME_WIDTHS, buf, lo, 11, 56, f.dstHandle, 4, was);
    StoreWord(vs, FRAME_WIDTHS, buf, lo, 12, 60, f.generation, 4, was);
    AllWritten(vs, FRAME_WIDTHS, buf[..], lo, was);
    return HDR_LEN;
  }

  /** Fills the caller's frame on OK and leaves it untouched on any error. */
  method Decode(input: ByteSeq, out: FrameCell) returns (r: WireResult)
    modifies out
    ensures r == DecodeFrame(input).result
    ensures out.frame == if r == OK then DecodeFrame(input).frame else old(out.frame)
  {
    if |input| < HDR_LEN {
      return ErrShort;
    }
    if WordAt(input, 0, 4) != WIRE_MAGIC {
      return ErrMagic;
    }
    var f := FrameAt(input[..HDR_LEN]);
    if Validate(f) != OK {
      return Validate(f);
    }
    out.frame := f;
    return OK;
  }

  // What validation accepts, bit by bit.

  ghost predicate WellFormed(f: Frame) {
    var b := (k: nat) => Bit(f.hdrFlags, k);
    && f.wireVersion == WIRE_VERSION
    && f.hdrFlags < 0x100
    && b(2) + b(3) + b(4) + b(5) == 1
    && b(0) + b(1) == (if f.payloadLen > 0 then 1 else 0)
    && f.payloadLen <= MAX_PAYLOAD
    && (f.payloadLen == 0 ==> f.payloadRef == 0)
    && (b(7) == 1 ==> (b(3) == 1 || b(4) == 1) && b(0) == 1)
    && (b(1) == 0 ==> f.generation == 0)
    && (b(2) == 1 <==> f.correlationID == 0)
  }

  lemma SingleBits(x: nat)
    ensures And(x, F_INLINE) == Bit(x, 0) && And(x, F_ARENA) == 2 * Bit(x, 1)
    ensures And(x, F_NOTIFICATION) == 4 * Bit(x, 2) && And(x, F_MORE) == 0x80 * Bit(x, 7)
  {
    AndBit(x, 0);
    AndBit(x, 1);
    AndBit(x, 2);
    AndBit(x, 7);
    assert Pow2(7) == 0x80;
  }

  lemma TwoBits(x: nat)
    ensures And(x, 3) == Bit(x, 0) + 2 * Bit(x, 1)
  {
    AndStep(x, 3);
    AndStep(x / 2, 1);
  }

  lemma FourBits(x: nat)
    ensures And(x, 0xf) == Bit(x, 0) + 2 * Bit(x, 1) + 4 * Bit(x, 2) + 8 * Bit(x, 3)
  {
    var half := x / 2;
    assert Bit(x, 0) == x % 2 && Bit(x, 1) == Bit(half, 0) == half % 2;
    assert Bit(x, 2) == Bit(half, 1) == Bit(half / 2, 0);
    assert Bit(x, 3) == Bit(half, 2) == Bit(half / 2, 1);
    hide And, Bit;
    AndStep(x, 0xf);
    AndStep(half, 7);
    TwoBits(half / 2);
  }

  lemma PatternBits(x: nat)
    ensures And(x, PATTERN_MASK) == 4 * Bit(x, 2) + 8 * Bit(x, 3) + 16 * Bit(x, 4) + 32 * Bit(x, 5)
  {
    var half := x / 2;
    AndStep(x, 0x3c);
    AndStep(half, 0x1e);
    FourBits(half / 2);
    assert Bit(x, 2) == Bit(half, 1) && Bit(x, 3) == Bit(half, 2);
    assert Bit(x, 4) == Bit(half, 3) && Bit(x, 5) == Bit(half, 4);
  }

  lemma KnownBits(x: nat)
    ensures AndNot(x, KNOWN_MASK) == 0 <==> x < 0x100
  {
    AndMask(x, 8);
    assert Pow2(8) == 0x100;
  }

  /** Four times a nibble has one bit set exactly when the nibble is a power of two. */
  lemma NibbleBit(w: nat)
    requires w < 16
    ensures ExactlyOne(4 * w) <==> w == 1 || w == 2 || w == 4 || w == 8
  {
    if w > 0 {
      PowerOfTwoTest(4 * w);
      hide And;
      assert IsPow2(4 * w) == IsPow2(2 * w) by {
        assert (4 * w) / 2 == 2 * w;
      }
      assert IsPow2(2 * w) == IsPow2(w);
      SmallPow2(w);
    }
  }

  lemma SmallPow2(w: nat)
    requires 0 < w < 16
    ensures IsPow2(w) <==> w == 1 || w == 2 || w == 4 || w == 8
  {
    assert IsPow2(1) && IsPow2(2) && IsPow2(4) && IsPow2(8);
    assert !IsPow2(6) && !IsPow2(10) && !IsPow2(12) && !IsPow2(14);
  }

  lemma PatternBit(b2: nat, b3: nat, b4: nat, b5: nat)
    requires b2 < 2 && b3 < 2 && b4 < 2 && b5 < 2
    ensures ExactlyOne(4 * b2 + 8 * b3 + 16 * b4 + 32 * b5) <==> b2 + b3 + b4 + b5 == 1
    ensures (4 * b2 + 8 * b3 + 16 * b4 + 32 * b5 == F_REQUEST || 4 * b2 + 8 * b3 + 16 * b4 + 32 * b5 == F_REPLY)
      <==> (b2 == 0 && b5 == 0 && b3 + b4 == 1)
  {
    hide ExactlyOne;
    NibbleBit(b2 + 2 * b3 + 4 * b4 + 8 * b5);
    assert 4 * (b2 + 2 * b3 + 4 * b4 + 8 * b5) == 4 * b2 + 8 * b3 + 16 * b4 + 32 * b5;
  }

  lemma PlacementBit(b0: nat, b1: nat)
    requires b0 < 2 && b1 < 2
    ensures ExactlyOne(b0 + 2 * b1) <==> b0 + b1 == 1
  {
    assert ExactlyOne(1) && ExactlyOne(2) && !ExactlyOne(3) && !ExactlyOne(0);
  }

  /** The ladder of tests accepts exactly the well-formed headers. */
  lemma ValidateMeaning(f: Frame)
    ensures Validate(f) == OK <==> WellFormed(f)
  {
    hide And, Bit, AndNot, ExactlyOne;
    var x := f.hdrFlags;
    SingleBits(x);
    TwoBits(x);
    PatternBits(x);
    KnownBits(x);
    PlacementBit(Bit(x, 0), Bit(x, 1));
    PatternBit(Bit(x, 2), Bit(x, 3), Bit(x, 4), Bit(x, 5));
  }

  lemma LowMasks(x: nat)
    ensures And(x, 1) == x % 2 && And(x, 3) == x % 4 && And(x, 7) == x % 8
    ensures And(x, 0x3f) == x % 64 && And(x, 0x7f) == x % 128 && And(x, 0xff) == x % 256
  {
    assert Pow2(1) == 2 && Pow2(2) == 4 && Pow2(3) == 8 && Pow2(6) == 64 && Pow2(7) == 128;
    assert Pow2(8) == 256;
    hide Pow2, And;
    AndMask(x, 1);
    AndMask(x, 2);
    AndMask(x, 3);
    AndMask(x, 6);
    AndMask(x, 7);
    AndMask(x, 8);
  }

  lemma DisjointMasks()
    ensures And(1, 2) == 0 && And(3, 4) == 0 && And(3, 0x3c) == 0 && And(0x7f, 0x80) == 0
  {
    AndStep(0x7f, 0x80);
    AndStep(0x3f, 0x40);
    AndStep(0x1f, 0x20);
    AndStep(0xf, 0x10);
    AndStep(7, 8);
    AndStep(3, 4);
    AndStep(3, 0x3c);
    AndStep(1, 0x1e);
    AndStep(1, 2);
    hide And;
  }

  /** The masks used on a known flag word, as arithmetic. */
  lemma FlagArithmetic(x: nat)
    requires x < 0x100
    ensures And(x, F_INLINE) == x % 2 && And(x, F_ARENA) == x % 4 - x % 2
    ensures And(x, PLACEMENT_MASK) == x % 4 && And(x, F_NOTIFICATION) == x % 8 - x % 4
    ensures And(x, PATTERN_MASK) == x % 64 - x % 4
    ensures And(x, F_MORE) == x - x % 128 && AndNot(x, KNOWN_MASK) == 0
  {
    DisjointMasks();
    hide And;
    LowMasks(x);
    AndSplit(x, 1, 2);
    AndSplit(x, 3, 4);
    AndSplit(x, 3, 0x3c);
    AndSplit(x, 0x7f, 0x80);
  }
}
