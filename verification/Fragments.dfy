/** Cutting a body into fragments that fit the inline budget, and the packets they travel in. */
module Fragments {
  import opened Bits
  import opened Bytes
  import opened Wrappers
  import opened Wire
  import opened ModuleProtocol
  import Client

  /** What the two ends of the bus see of an event: the host keeps these and may restamp the
      rest of the frame. */
  datatype Packet = Packet(flags: U16, kind: U32, corr: U64, payload: ByteSeq)

  function PacketOf(e: Client.Event): Packet {
    Packet(e.frame.hdrFlags, e.frame.eventKind, e.frame.correlationID, e.payload)
  }

  predicate IsRequest(p: Packet) {
    Has(p.flags, F_REQUEST)
  }

  predicate IsCancel(p: Packet) {
    Has(p.flags, F_CANCEL)
  }

  predicate HasMore(p: Packet) {
    Has(p.flags, F_MORE)
  }

  // Cutting a body.

  datatype Piece = Piece(bytes: ByteSeq, more: bool)

  /** At least one piece, each of at most `chunk` bytes; all but the last announce more. */
  function Pieces(body: ByteSeq, chunk: nat): (ps: seq<Piece>)
    requires chunk > 0
    ensures ps != []
    decreases |body|
  {
    if |body| <= chunk then [Piece(body, false)]
    else [Piece(body[..chunk], true)] + Pieces(body[chunk..], chunk)
  }

  function Join(ps: seq<Piece>): ByteSeq {
    if ps == [] then [] else Join(ps[..|ps| - 1]) + ps[|ps| - 1].bytes
  }

  lemma {:induction false} JoinCons(p: Piece, ps: seq<Piece>)
    ensures Join([p] + ps) == p.bytes + Join(ps)
  {
    if ps == [] {
      assert ([p] + ps)[..0] == [];
    } else {
      JoinCons(p, ps[..|ps| - 1]);
      assert ([p] + ps)[..|ps|] == [p] + ps[..|ps| - 1];
    }
  }

  lemma JoinSnoc(ps: seq<Piece>, p: Piece)
    ensures Join(ps + [p]) == Join(ps) + p.bytes
  {
    assert (ps + [p])[..|ps|] == ps;
  }

  lemma {:induction false} PiecesWhole(body: ByteSeq, chunk: nat)
    requires chunk > 0
    ensures Join(Pieces(body, chunk)) == body
    decreases |body|
  {
    PiecesCons(body, chunk);
    hide *;
    if |body| <= chunk {
      JoinOne(Piece(body, false));
    } else {
      PiecesWhole(body[chunk..], chunk);
      JoinCons(Piece(body[..chunk], true), Pieces(body[chunk..], chunk));
      assert body[..chunk] + body[chunk..] == body;
    }
  }

  lemma PiecesCons(body: ByteSeq, chunk: nat)
    requires chunk > 0
    ensures Pieces(body, chunk) ==
              if |body| <= chunk then [Piece(body, false)]
              else [Piece(body[..chunk], true)] + Pieces(body[chunk..], chunk)
  {
  }

  lemma JoinOne(p: Piece)
    ensures Join([p]) == p.bytes
  {
    assert [p][..0] == [];
  }

  lemma {:induction false} PiecesShape(body: ByteSeq, chunk: nat, i: nat)
    requires chunk > 0 && i < |Pieces(body, chunk)|
    ensures |Pieces(body, chunk)[i].bytes| <= chunk
    ensures Pieces(body, chunk)[i].more <==> i < |Pieces(body, chunk)| - 1
    ensures Pieces(body, chunk)[i].more ==> |Pieces(body, chunk)[i].bytes| == chunk
    decreases |body|
  {
    if |body| > chunk && i > 0 {
      PiecesShape(body[chunk..], chunk, i - 1);
    }
  }

  /** Cutting loses nothing: the pieces join to the body, only the last one ends the run, none is
      larger than the chunk, and only the last is smaller. */
  lemma PiecesJoin(body: ByteSeq, chunk: nat)
    requires chunk > 0
    ensures Join(Pieces(body, chunk)) == body
    ensures forall i :: 0 <= i < |Pieces(body, chunk)| ==>
              && |Pieces(body, chunk)[i].bytes| <= chunk
              && (Pieces(body, chunk)[i].more <==> i < |Pieces(body, chunk)| - 1)
              && (Pieces(body, chunk)[i].more ==> |Pieces(body, chunk)[i].bytes| == chunk)
  {
    hide Pieces, Join;
    PiecesWhole(body, chunk);
    forall i | 0 <= i < |Pieces(body, chunk)|
      ensures |Pieces(body, chunk)[i].bytes| <= chunk
      ensures Pieces(body, chunk)[i].more <==> i < |Pieces(body, chunk)| - 1
      ensures Pieces(body, chunk)[i].more ==> |Pieces(body, chunk)[i].bytes| == chunk
    {
      PiecesShape(body, chunk, i);
    }
  }

  lemma PiecesFirst(body: ByteSeq, chunk: nat)
    requires chunk > 0
    ensures var ps := Pieces(body, chunk);
            if |body| <= chunk then ps == [Piece(body, false)]
            else |ps| > 1 && ps[0] == Piece(body[..chunk], true) && ps[1..] == Pieces(body[chunk..], chunk)
  {
  }

  /** The loop that cuts a body takes the pieces one by one, from the front. */
  lemma PiecesHead(body: ByteSeq, chunk: nat, offset: nat, i: nat)
    requires chunk > 0 && offset <= |body| && i < |Pieces(body, chunk)|
    requires Pieces(body[offset..], chunk) == Pieces(body, chunk)[i..]
    ensures var part := if |body| - offset > chunk then chunk else |body| - offset;
            && Pieces(body, chunk)[i] == Piece(body[offset..offset + part], offset + part < |body|)
            && (offset + part < |body| ==>
                  i + 1 < |Pieces(body, chunk)|
                  && Pieces(body[offset + part..], chunk) == Pieces(body, chunk)[i + 1..])
            && (offset + part == |body| ==> i + 1 == |Pieces(body, chunk)|)
  {
    var rest, ps := body[offset..], Pieces(body, chunk);
    PiecesFirst(rest, chunk);
    hide Pieces;
    assert ps[i..][0] == ps[i];
    if |rest| > chunk {
      assert rest[..chunk] == body[offset..offset + chunk];
      assert rest[chunk..] == body[offset + chunk..];
      assert ps[i..][1..] == ps[i + 1..];
    } else {
      assert |ps[i..]| == 1;
      assert rest == body[offset..|body|];
    }
  }

  /** n pieces have been taken, up to this offset of the body. */
  ghost predicate Underway(body: ByteSeq, chunk: nat, first: bool, offset: nat, n: nat)
    requires chunk > 0
  {
    var ps := Pieces(body, chunk);
    && offset <= |body| && n <= |ps|
    && (first ==> n == 0 && offset == 0)
    && (first || offset < |body| ==> n < |ps| && Pieces(body[offset..], chunk) == ps[n..])
    && (!first && offset == |body| ==> n == |ps|)
  }

  lemma UnderwayStart(body: ByteSeq, chunk: nat)
    requires chunk > 0
    ensures Underway(body, chunk, true, 0, 0)
  {
    assert body[0..] == body;
  }

  lemma UnderwayNext(body: ByteSeq, chunk: nat, first: bool, offset: nat, n: nat)
    requires chunk > 0 && Underway(body, chunk, first, offset, n) && (first || offset < |body|)
    ensures n < |Pieces(body, chunk)| && Pieces(body[offset..], chunk) == Pieces(body, chunk)[n..]
    ensures var part := if |body| - offset > chunk then chunk else |body| - offset;
            Underway(body, chunk, false, offset + part, n + 1)
  {
    PiecesHead(body, chunk, offset, n);
    hide Pieces;
  }

  lemma AllOut(body: ByteSeq, chunk: nat, offset: nat, n: nat)
    requires chunk > 0 && Underway(body, chunk, false, offset, n) && offset == |body|
    ensures n == |Pieces(body, chunk)|
  {
  }

  lemma {:induction false} JoinBound(ps: seq<Piece>, n: nat)
    requires n <= |ps|
    ensures |Join(ps[..n])| <= |Join(ps)|
    decreases |ps|
  {
    if n < |ps| {
      JoinBound(ps[..|ps| - 1], n);
      assert ps[..|ps| - 1][..n] == ps[..n];
    } else {
      assert ps[..n] == ps;
    }
  }

  // Packets.

  /** A request as the caller states it, with the inline budget of the client it goes through;
      the header fields are the same on every fragment. */
  datatype Request = Request(
    kind: U32, stageID: U32, traceID: U64, deadlineNS: U64, body: ByteSeq, budget: U32)

  function InvokeHeader(r: Request, length: U32): Message {
    Message(OP_INVOKE, STATUS_OK, r.stageID, 0, length, r.deadlineNS, r.traceID)
  }

  function MoreFlag(more: bool): U16 {
    if more then F_MORE else 0
  }

  function RequestPacket(r: Request, corr: U64, p: Piece): Packet
    requires |p.bytes| <= MAX_BODY
  {
    Packet(F_INLINE + F_REQUEST + MoreFlag(p.more), r.kind, corr,
           MessageBytes(InvokeHeader(r, |p.bytes|)) + p.bytes)
  }

  /** A reply as the module states it. */
  datatype Answer = Answer(
    kind: U32, corr: U64, stageID: U32, traceID: U64, status: U16, body: ByteSeq)

  function ResultHeader(a: Answer, length: U32): Message {
    Message(OP_RESULT, a.status, a.stageID, 0, length, 0, a.traceID)
  }

  function ReplyPacket(a: Answer, p: Piece): Packet
    requires |p.bytes| <= MAX_BODY
  {
    Packet(F_INLINE + F_REPLY + MoreFlag(p.more), a.kind, a.corr,
           MessageBytes(ResultHeader(a, |p.bytes|)) + p.bytes)
  }

  /** An inline budget the runtime and the caller accept. */
  predicate BudgetOk(budget: U32) {
    budget > MESSAGE_HEADER_LEN
  }

  function Chunk(budget: U32): nat
    requires BudgetOk(budget)
  {
    budget - MESSAGE_HEADER_LEN
  }

  /** Every piece of a body of this length fits a module message. */
  predicate Framable(length: nat, budget: U32) {
    BudgetOk(budget) && (length <= MAX_BODY || Chunk(budget) <= MAX_BODY)
  }

  lemma PieceFits(body: ByteSeq, chunk: nat, i: nat)
    requires chunk > 0 && (|body| <= MAX_BODY || chunk <= MAX_BODY) && i < |Pieces(body, chunk)|
    ensures |Pieces(body, chunk)[i].bytes| <= MAX_BODY
    ensures |Pieces(body, chunk)[i].bytes| <= chunk
    decreases |body|
  {
    if |body| > chunk && i > 0 {
      PieceFits(body[chunk..], chunk, i - 1);
    }
  }

  /** The packets of one request, in sending order. */
  function RequestStream(r: Request, corr: U64): (ps: seq<Packet>)
    requires Framable(|r.body|, r.budget)
    ensures |ps| == |Pieces(r.body, Chunk(r.budget))|
  {
    var pieces := Pieces(r.body, Chunk(r.budget));
    seq(|pieces|, i requires 0 <= i < |pieces| =>
      PieceFits(r.body, Chunk(r.budget), i); RequestPacket(r, corr, pieces[i]))
  }

  /** The packets of one reply, in sending order. */
  function ReplyStream(a: Answer, budget: U32): (ps: seq<Packet>)
    requires BudgetOk(budget) && |a.body| <= MAX_BODY
    ensures |ps| == |Pieces(a.body, Chunk(budget))|
  {
    var pieces := Pieces(a.body, Chunk(budget));
    seq(|pieces|, i requires 0 <= i < |pieces| =>
      PieceFits(a.body, Chunk(budget), i); ReplyPacket(a, pieces[i]))
  }

  lemma ReplyStreamAt(a: Answer, budget: U32, i: nat)
    requires BudgetOk(budget) && |a.body| <= MAX_BODY && i < |Pieces(a.body, Chunk(budget))|
    requires |Pieces(a.body, Chunk(budget))[i].bytes| <= MAX_BODY
    ensures ReplyStream(a, budget)[i] == ReplyPacket(a, Pieces(a.body, Chunk(budget))[i])
  {
  }

  // What the receiving side makes of them.

  lemma PacketFlags(more: bool)
    ensures var f := F_INLINE + F_REQUEST + MoreFlag(more);
            Has(f, F_REQUEST) && !Has(f, F_CANCEL) && (Has(f, F_MORE) <==> more)
    ensures var f := F_INLINE + F_REPLY + MoreFlag(more);
            !Has(f, F_REQUEST) && !Has(f, F_CANCEL) && (Has(f, F_MORE) <==> more)
  {
    FlagArithmetic(9);
    FlagArithmetic(0x89);
    FlagArithmetic(0x11);
    FlagArithmetic(0x91);
    RequestBits(9);
    RequestBits(0x89);
    RequestBits(0x11);
    RequestBits(0x91);
    hide And;
  }

  lemma RequestBits(x: nat)
    requires x < 0x100
    ensures And(x, F_REQUEST) == x % 16 - x % 8 && And(x, F_CANCEL) == x % 64 - x % 32
  {
    AndMask(x, 3);
    AndMask(x, 4);
    AndMask(x, 5);
    AndMask(x, 6);
    assert Pow2(3) == 8 && Pow2(4) == 16 && Pow2(5) == 32 && Pow2(6) == 64;
    assert And(7, 8) == 0 && And(0x1f, 0x20) == 0;
    AndSplit(x, 7, 8);
    AndSplit(x, 0x1f, 0x20);
    hide And;
  }

  /** A request packet is a request, ends its run exactly when its piece does, and carries the
      request's header and the piece's bytes. */
  lemma RequestPacketOpens(r: Request, corr: U64, p: Piece)
    requires |p.bytes| <= MAX_BODY && r.stageID != 0
    ensures var k := RequestPacket(r, corr, p);
            && IsRequest(k) && !IsCancel(k) && (HasMore(k) <==> p.more)
            && DecodeMessage(k.payload) == Some(InvokeHeader(r, |p.bytes|))
            && |k.payload| == MESSAGE_HEADER_LEN + |p.bytes|
            && k.payload[MESSAGE_HEADER_LEN..] == p.bytes
  {
    PacketFlags(p.more);
    MessageRoundTrip(InvokeHeader(r, |p.bytes|), p.bytes);
    hide And, Pack;
  }

  lemma ReplyPacketOpens(a: Answer, p: Piece)
    requires |p.bytes| <= MAX_BODY && a.stageID != 0 && a.status <= STATUS_INTERNAL
    ensures var k := ReplyPacket(a, p);
            && (HasMore(k) <==> p.more)
            && DecodeMessage(k.payload) == Some(ResultHeader(a, |p.bytes|))
            && |k.payload| == MESSAGE_HEADER_LEN + |p.bytes|
            && k.payload[MESSAGE_HEADER_LEN..] == p.bytes
  {
    PacketFlags(p.more);
    MessageRoundTrip(ResultHeader(a, |p.bytes|), p.bytes);
    hide And, Pack;
  }

  // The packets are what the client emits.

  /** Within the limits the host's geometry sets, no fragment is refused by emit for its own
      sake, and the packet the far end sees is the fragment that was sent. */
  lemma FragmentIsEmitted(handle: U32, budget: U32, slotSize: U32, reply: bool, kind: U32, corr: U64,
                          header: Message, p: Piece)
    requires BudgetOk(budget) && budget + HDR_LEN <= slotSize && budget <= MAX_PAYLOAD
    requires |p.bytes| <= Chunk(budget) && corr != 0
    ensures var payload := MessageBytes(header) + p.bytes;
            var flags := (if reply then F_REPLY else F_REQUEST) + MoreFlag(p.more);
            && flags < 0x100
            && Client.Precheck(true, false, budget, slotSize, |payload|) == Client.Sent
            && |payload| < TWO_TO_32
            && var f := Client.EmitFrame(handle, flags, kind, corr, |payload|);
               Client.EmitResult(Client.Sent, false, slotSize, f) == Client.Sent
               && PacketOf(Client.Event(f, payload)) == Packet(F_INLINE + flags, kind, corr, payload)
  {
    hide And, Validate, Pack, MessageBytes;
    var length := MESSAGE_HEADER_LEN + |p.bytes|;
    var flags: nat := (if reply then F_REPLY else F_REQUEST) + MoreFlag(p.more);
    assert flags == 0x10 || flags == 0x08 || flags == 0x90 || flags == 0x88;
    Client.EmitFrameValid(handle, flags, kind, corr, length);
    FlagArithmetic(flags);
    assert Client.EmitFrame(handle, flags, kind, corr, length).hdrFlags == flags + 1;
  }
}
