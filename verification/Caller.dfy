/** The calling side: fragmenting a request over the client, and collecting the reply. */
module Caller {
  import opened Bits
  import opened Bytes
  import opened Wrappers
  import opened Wire
  import opened ModuleProtocol
  import opened Fragments
  import Client

  /** One poll of the client: nothing yet (with what the context and the clock say), an event, or
      a failure. */
  datatype Poll = Quiet(cancelled: bool, expired: bool) | Event(p: Packet) | Failed(error: Client.SendResult)

  datatype Outcome =
    | Body(bytes: ByteSeq)
    | StatusError(status: U16)
    | CapabilityAbsent | Rejected | Cancelled | DeadlineExceeded
    | BadConfig | RuntimeFailure | BadMessage
    | BusFailed(error: Client.SendResult)
    | Waiting

  // Collecting a reply.

  /** What one event means to a call that has collected `body` so far: None to keep polling. */
  datatype Reaction = Skip | Collect(body: ByteSeq) | Done(outcome: Outcome)

  function React(p: Packet, kind: U32, corr: U64, body: ByteSeq): Reaction {
    if p.corr == corr && p.kind == KIND_CAPABILITY_ABSENT then Done(CapabilityAbsent)
    else if p.corr == corr && p.kind == KIND_ERROR then Done(Rejected)
    else if p.kind != kind || p.corr != corr then Skip
    else
      var m := DecodeMessage(p.payload);
      if m.None? || m.value.operation != OP_RESULT then Skip
      else if m.value.status != STATUS_OK then Done(StatusError(m.value.status))
      else if (|body| % TWO_TO_32 + m.value.bodyLen) % TWO_TO_32 > MAX_BODY then Done(RuntimeFailure)
      else
        var grown := body + p.payload[MESSAGE_HEADER_LEN..MESSAGE_HEADER_LEN + m.value.bodyLen];
        if HasMore(p) then Collect(grown) else Done(Body(grown))
  }

  /** The call's outcome over a sequence of polls. */
  function Await(polls: seq<Poll>, kind: U32, corr: U64, body: ByteSeq): Outcome {
    if polls == [] then Waiting
    else
      match polls[0]
      case Failed(e) => BusFailed(e)
      case Quiet(cancelled, expired) =>
        if cancelled then Cancelled
        else if expired then DeadlineExceeded
        else Await(polls[1..], kind, corr, body)
      case Event(p) =>
        match React(p, kind, corr, body)
        case Skip => Await(polls[1..], kind, corr, body)
        case Collect(grown) => Await(polls[1..], kind, corr, grown)
        case Done(outcome) => outcome
  }

  method AwaitReply(polls: seq<Poll>, kind: U32, corr: U64) returns (r: Outcome)
    ensures r == Await(polls, kind, corr, [])
    ensures forall k, outcome :: EndsEarly(polls, k, kind, corr, outcome) ==> r == outcome
    ensures r.Waiting? <==> Calm(polls) && Collected(Mine(polls, corr), kind, corr, []).Waiting?
  {
    forall k, outcome | EndsEarly(polls, k, kind, corr, outcome)
      ensures Await(polls, kind, corr, []) == outcome
    {
      WaitEndsEarly(polls, k, kind, corr, outcome);
    }
    WaitsIff(polls, kind, corr, []);
    hide EndsEarly, Collected, Mine, Calm, React;
    var body: ByteSeq := [];
    for i := 0 to |polls|
      invariant Await(polls, kind, corr, []) == Await(polls[i..], kind, corr, body)
    {
      assert polls[i..][1..] == polls[i + 1..];
      match polls[i] {
        case Failed(e) => return BusFailed(e);
        case Quiet(cancelled, expired) =>
          if cancelled {
            return Cancelled;
          }
          if expired {
            return DeadlineExceeded;
          }
        case Event(p) =>
          var reaction := React(p, kind, corr, body);
          match reaction {
            case Skip =>
            case Collect(grown) => body := grown;
            case Done(outcome) => return outcome;
          }
      }
    }
    return Waiting;
  }

  /** Events of this correlation, in polling order. */
  function Mine(polls: seq<Poll>, corr: U64): seq<Packet> {
    if polls == [] then []
    else (if polls[0].Event? && polls[0].p.corr == corr then [polls[0].p] else []) + Mine(polls[1..], corr)
  }

  /** No failure, cancellation or deadline while the call waits. */
  ghost predicate Calm(polls: seq<Poll>) {
    forall i :: 0 <= i < |polls| ==> polls[i].Event? || polls[i] == Quiet(false, false)
  }

  /** A collecting call reads the packets of its own correlation and nothing else. */
  function Collected(ps: seq<Packet>, kind: U32, corr: U64, body: ByteSeq): Outcome {
    if ps == [] then Waiting
    else
      match React(ps[0], kind, corr, body)
      case Skip => Collected(ps[1..], kind, corr, body)
      case Collect(grown) => Collected(ps[1..], kind, corr, grown)
      case Done(outcome) => outcome
  }

  /** Interleaved events of other correlations, late fragments of earlier calls among them, make
      no difference. */
  lemma {:induction false} OthersAreSkipped(polls: seq<Poll>, kind: U32, corr: U64, body: ByteSeq)
    requires Calm(polls)
    ensures Await(polls, kind, corr, body) == Collected(Mine(polls, corr), kind, corr, body)
    decreases |polls|
  {
    hide React;
    if polls != [] {
      var rest := polls[1..];
      assert polls[0].Event? || polls[0] == Quiet(false, false);
      match polls[0] {
        case Quiet(_, _) =>
          assert Mine(polls, corr) == Mine(rest, corr);
          OthersAreSkipped(rest, kind, corr, body);
        case Event(p) =>
          if p.corr == corr {
            assert Mine(polls, corr)[0] == p && Mine(polls, corr)[1..] == Mine(rest, corr);
            match React(p, kind, corr, body) {
              case Skip => OthersAreSkipped(rest, kind, corr, body);
              case Collect(grown) => OthersAreSkipped(rest, kind, corr, grown);
              case Done(_) =>
            }
          } else {
            assert Mine(polls, corr) == Mine(rest, corr);
            OtherIsSkipped(p, kind, corr, body);
            OthersAreSkipped(rest, kind, corr, body);
          }
      }
    }
  }

  lemma OtherIsSkipped(p: Packet, kind: U32, corr: U64, body: ByteSeq)
    requires p.corr != corr
    ensures React(p, kind, corr, body) == Skip
  {
  }

  /** What an event means, case by case: the host's own kinds count for this correlation only, what
      is not a result of this kind is passed over, and while the body is within the limit the sum
      that the limit is compared with does not wrap. */
  lemma ReactMeaning(p: Packet, kind: U32, corr: U64, body: ByteSeq)
    requires |body| <= MAX_BODY
    ensures var r, m := React(p, kind, corr, body), DecodeMessage(p.payload);
            var reserved := p.kind == KIND_CAPABILITY_ABSENT || p.kind == KIND_ERROR;
            var result := m.Some? && m.value.operation == OP_RESULT;
            && (p.corr != corr ==> r == Skip)
            && (p.corr == corr && p.kind == KIND_CAPABILITY_ABSENT ==> r == Done(CapabilityAbsent))
            && (p.corr == corr && p.kind == KIND_ERROR ==> r == Done(Rejected))
            && (p.corr == corr && !reserved && (p.kind != kind || !result) ==> r == Skip)
            && (p.corr == corr && !reserved && p.kind == kind && result ==>
                  var bytes := p.payload[MESSAGE_HEADER_LEN..MESSAGE_HEADER_LEN + m.value.bodyLen];
                  && (m.value.status != STATUS_OK ==> r == Done(StatusError(m.value.status)))
                  && (m.value.status == STATUS_OK && |body| + |bytes| > MAX_BODY ==> r == Done(RuntimeFailure))
                  && (m.value.status == STATUS_OK && |body| + |bytes| <= MAX_BODY ==>
                        r == if HasMore(p) then Collect(body + bytes) else Done(Body(body + bytes))))
  {
    DecodedSize(p.payload);
    hide HasMore, DecodeMessage;
  }

  lemma DecodedSize(input: ByteSeq)
    ensures var m := DecodeMessage(input);
            m.Some? ==> m.value.bodyLen <= MAX_BODY && MESSAGE_HEADER_LEN + m.value.bodyLen <= |input|
  {
  }

  // A wait that ends early.

  /** The body collected so far. */
  function Gathered(ps: seq<Packet>, kind: U32, corr: U64, body: ByteSeq): ByteSeq {
    if ps == [] then body
    else
      match React(ps[0], kind, corr, body)
      case Skip => Gathered(ps[1..], kind, corr, body)
      case Collect(grown) => Gathered(ps[1..], kind, corr, grown)
      case Done(_) => body
  }

  lemma {:induction false} AwaitThen(a: seq<Poll>, b: seq<Poll>, kind: U32, corr: U64, body: ByteSeq)
    requires Calm(a) && Collected(Mine(a, corr), kind, corr, body).Waiting?
    ensures Await(a + b, kind, corr, body) == Await(b, kind, corr, Gathered(Mine(a, corr), kind, corr, body))
    decreases |a|
  {
    hide React;
    if a == [] {
      assert a + b == b;
    } else {
      var rest := a[1..];
      assert (a + b)[0] == a[0] && (a + b)[1..] == rest + b;
      assert a[0].Event? || a[0] == Quiet(false, false);
      assert Calm(rest);
      if a[0].Event? && a[0].p.corr == corr {
        var p := a[0].p;
        assert Mine(a, corr)[0] == p && Mine(a, corr)[1..] == Mine(rest, corr);
        match React(p, kind, corr, body) {
          case Skip => AwaitThen(rest, b, kind, corr, body);
          case Collect(grown) => AwaitThen(rest, b, kind, corr, grown);
          case Done(outcome) => DoneIsNotWaiting(p, kind, corr, body);
        }
      } else {
        assert Mine(a, corr) == Mine(rest, corr);
        if a[0].Event? {
          OtherIsSkipped(a[0].p, kind, corr, body);
        }
        AwaitThen(rest, b, kind, corr, body);
      }
    }
  }

  lemma DoneIsNotWaiting(p: Packet, kind: U32, corr: U64, body: ByteSeq)
    ensures React(p, kind, corr, body) != Done(Waiting)
  {
    hide HasMore, DecodeMessage;
  }

  /** Nothing has gone wrong before poll k and the reply is still incomplete; and then the client
      fails, the context or the time ends, or the host refuses the call. */
  ghost predicate EndsEarly(polls: seq<Poll>, k: nat, kind: U32, corr: U64, outcome: Outcome) {
    && k < |polls| && Calm(polls[..k]) && Collected(Mine(polls[..k], corr), kind, corr, []).Waiting?
    && match polls[k]
       case Failed(e) => outcome == BusFailed(e)
       case Quiet(true, _) => outcome == Cancelled
       case Quiet(false, true) => outcome == DeadlineExceeded
       case Quiet(false, false) => false
       case Event(p) =>
         p.corr == corr
         && ((p.kind == KIND_CAPABILITY_ABSENT && outcome == CapabilityAbsent)
             || (p.kind == KIND_ERROR && outcome == Rejected))
  }

  /** The wait then ends there, with that outcome. */
  lemma WaitEndsEarly(polls: seq<Poll>, k: nat, kind: U32, corr: U64, outcome: Outcome)
    requires EndsEarly(polls, k, kind, corr, outcome)
    ensures Await(polls, kind, corr, []) == outcome
  {
    assert polls == polls[..k] + polls[k..] && polls[k..][0] == polls[k];
    hide Collected, Mine, Calm, DecodeMessage, HasMore;
    AwaitThen(polls[..k], polls[k..], kind, corr, []);
  }

  /** And it goes on exactly while nothing has gone wrong and the reply is incomplete. */
  lemma {:induction false} WaitsIff(polls: seq<Poll>, kind: U32, corr: U64, body: ByteSeq)
    ensures Await(polls, kind, corr, body).Waiting? <==>
              Calm(polls) && Collected(Mine(polls, corr), kind, corr, body).Waiting?
    decreases |polls|
  {
    hide React, Collected, Mine;
    if Calm(polls) {
      OthersAreSkipped(polls, kind, corr, body);
    } else {
      var rest := polls[1..];
      if polls[0].Event? {
        DoneIsNotWaiting(polls[0].p, kind, corr, body);
      }
      if polls[0].Event? || polls[0] == Quiet(false, false) {
        assert !Calm(rest) by {
          var i :| 0 <= i < |polls| && !(polls[i].Event? || polls[i] == Quiet(false, false));
          assert rest[i - 1] == polls[i];
        }
        WaitsIff(rest, kind, corr, body);
        if polls[0].Event? && React(polls[0].p, kind, corr, body).Collect? {
          WaitsIff(rest, kind, corr, React(polls[0].p, kind, corr, body).body);
        }
      }
    }
  }

  // A whole reply.

  lemma ReactToPiece(a: Answer, p: Piece, body: ByteSeq)
    requires |p.bytes| <= MAX_BODY && a.stageID != 0 && a.status <= STATUS_INTERNAL
    requires a.kind != KIND_CAPABILITY_ABSENT && a.kind != KIND_ERROR
    requires |body| + |p.bytes| <= MAX_BODY
    ensures React(ReplyPacket(a, p), a.kind, a.corr, body) ==
              if a.status != STATUS_OK then Done(StatusError(a.status))
              else if p.more then Collect(body + p.bytes)
              else Done(Body(body + p.bytes))
  {
    ReplyPacketOpens(a, p);
    hide HasMore, DecodeMessage, MessageBytes;
    var k := ReplyPacket(a, p);
    assert k.payload[MESSAGE_HEADER_LEN..MESSAGE_HEADER_LEN + |p.bytes|] == p.bytes;
  }

  /** Collecting one more piece of an OK reply. */
  lemma CollectPiece(a: Answer, budget: U32, n: nat, body: ByteSeq)
    requires BudgetOk(budget) && a.stageID != 0 && a.status == STATUS_OK && |a.body| <= MAX_BODY
    requires a.kind != KIND_CAPABILITY_ABSENT && a.kind != KIND_ERROR
    requires n < |Pieces(a.body, Chunk(budget))| && body == Join(Pieces(a.body, Chunk(budget))[..n])
    ensures var ps := Pieces(a.body, Chunk(budget));
            var grown := Join(ps[..n + 1]);
            React(ReplyStream(a, budget)[n], a.kind, a.corr, body) ==
              if n < |ps| - 1 then Collect(grown) else Done(Body(a.body))
  {
    hide React, ReplyPacket, ReplyStream, Pieces, Join;
    var ps := Pieces(a.body, Chunk(budget));
    PiecesJoin(a.body, Chunk(budget));
    PieceFits(a.body, Chunk(budget), n);
    ReplyStreamAt(a, budget, n);
    hide *;
    JoinSnoc(ps[..n], ps[n]);
    assert ps[..n] + [ps[n]] == ps[..n + 1];
    JoinBound(ps, n + 1);
    ReactToPiece(a, ps[n], body);
    assert n == |ps| - 1 ==> ps[..n + 1] == ps;
  }

  lemma {:induction false} CollectRest(a: Answer, budget: U32, n: nat, body: ByteSeq)
    requires BudgetOk(budget) && a.stageID != 0 && a.status == STATUS_OK && |a.body| <= MAX_BODY
    requires a.kind != KIND_CAPABILITY_ABSENT && a.kind != KIND_ERROR
    requires n < |Pieces(a.body, Chunk(budget))| && body == Join(Pieces(a.body, Chunk(budget))[..n])
    ensures Collected(ReplyStream(a, budget)[n..], a.kind, a.corr, body) == Body(a.body)
    decreases |Pieces(a.body, Chunk(budget))| - n
  {
    var ps, stream := Pieces(a.body, Chunk(budget)), ReplyStream(a, budget);
    hide React, ReplyPacket, ReplyStream, Pieces, Join;
    CollectPiece(a, budget, n, body);
    assert stream[n..][0] == stream[n] && stream[n..][1..] == stream[n + 1..];
    if n < |ps| - 1 {
      CollectRest(a, budget, n + 1, Join(ps[..n + 1]));
    }
  }

  /** The packets of a reply, wherever they fall among other events, give the call exactly the
      reply's body, or its failure status. */
  lemma AwaitGetsAnswer(polls: seq<Poll>, a: Answer, budget: U32)
    requires BudgetOk(budget) && a.stageID != 0 && |a.body| <= MAX_BODY && a.status <= STATUS_INTERNAL
    requires a.kind != KIND_CAPABILITY_ABSENT && a.kind != KIND_ERROR
    requires Calm(polls) && Mine(polls, a.corr) == ReplyStream(a, budget)
    ensures Await(polls, a.kind, a.corr, []) ==
              if a.status == STATUS_OK then Body(a.body) else StatusError(a.status)
  {
    OthersAreSkipped(polls, a.kind, a.corr, []);
    var ps := Pieces(a.body, Chunk(budget));
    assert ReplyStream(a, budget)[0..] == ReplyStream(a, budget);
    if a.status == STATUS_OK {
      assert ps[..0] == [];
      CollectRest(a, budget, 0, []);
    } else {
      PieceFits(a.body, Chunk(budget), 0);
      ReactToPiece(a, ps[0], []);
      assert ReplyStream(a, budget)[0] == ReplyPacket(a, ps[0]);
    }
  }

  // Sending a request.

  /** What the bus answers to the send after the first k; a bus with nothing more to say is full. */
  function NextAnswer(script: seq<Client.SendResult>, k: nat): Client.SendResult {
    if k < |script| then script[k] else Client.ErrWouldBlock
  }

  /** The client as a sender: `script` is what the bus answers to successive sends, `sent` what
      has gone out. */
  class Link {
    var script: seq<Client.SendResult>
    var sent: seq<Packet>

    constructor (script: seq<Client.SendResult>)
      ensures this.script == script && sent == []
    {
      this.script := script;
      sent := [];
    }

    method RequestFragment(kind: U32, corr: U64, payload: ByteSeq, more: bool) returns (r: Client.SendResult)
      modifies this
      ensures corr == 0 || (more && payload == []) ==>
                r == Client.ErrProtocol && script == old(script) && sent == old(sent)
      ensures corr != 0 && !(more && payload == []) ==>
                && r == NextAnswer(old(script), 0) && script == old(if script == [] then [] else script[1..])
                && sent == old(sent) +
                     (if r != Client.Sent then []
                      else
                         [Packet((if payload == [] then 0 else F_INLINE) + F_REQUEST + MoreFlag(more), kind, corr,
                                 payload)])
    {
      if corr == 0 || (more && payload == []) {
        return Client.ErrProtocol;
      }
      r := Emit((if payload == [] then 0 else F_INLINE) + F_REQUEST + MoreFlag(more), kind, corr, payload);
    }

    method Cancel(kind: U32, corr: U64) returns (r: Client.SendResult)
      modifies this
      ensures r == if corr == 0 then Client.ErrProtocol else NextAnswer(old(script), 0)
      ensures sent == old(sent) + (if r == Client.Sent then [Packet(F_CANCEL, kind, corr, [])] else [])
    {
      if corr == 0 {
        return Client.ErrProtocol;
      }
      r := Emit(F_CANCEL, kind, corr, []);
    }

    method Emit(flags: U16, kind: U32, corr: U64, payload: ByteSeq) returns (r: Client.SendResult)
      modifies this
      ensures r == NextAnswer(old(script), 0) && script == old(if script == [] then [] else script[1..])
      ensures sent == old(sent) + (if r == Client.Sent then [Packet(flags, kind, corr, payload)] else [])
    {
      if script == [] {
        return Client.ErrWouldBlock;
      }
      r := script[0];
      script := script[1..];
      if r == Client.Sent {
        sent := sent + [Packet(flags, kind, corr, payload)];
      }
    }
  }

  lemma StreamAt(r: Request, corr: U64)
    requires Framable(|r.body|, r.budget)
    ensures forall i :: 0 <= i < |RequestStream(r, corr)| ==>
              && |Pieces(r.body, Chunk(r.budget))[i].bytes| <= MAX_BODY
              && RequestStream(r, corr)[i] == RequestPacket(r, corr, Pieces(r.body, Chunk(r.budget))[i])
  {
    forall i | 0 <= i < |RequestStream(r, corr)|
      ensures |Pieces(r.body, Chunk(r.budget))[i].bytes| <= MAX_BODY
    {
      PieceFits(r.body, Chunk(r.budget), i);
    }
  }

  /** Lays a header and a stretch of the body out in the frame buffer. */
  method FrameFragment(header: Message, frame: array<U8>, body: ByteSeq, offset: nat, part: nat)
    returns (payload: Option<ByteSeq>)
    requires MESSAGE_HEADER_LEN + part <= frame.Length && offset + part <= |body|
    modifies frame
    ensures payload == if header.Valid() then Some(MessageBytes(header) + body[offset..offset + part]) else None
  {
    hide MessageBytes;
    var written := ModuleProtocol.Encode(header, frame);
    if written.None? {
      return None;
    }
    assert frame[..MESSAGE_HEADER_LEN] == MessageBytes(header);
    forall k | 0 <= k < part {
      frame[MESSAGE_HEADER_LEN + k] := body[offset + k];
    }
    assert frame[..MESSAGE_HEADER_LEN] == MessageBytes(header);
    var payload' := frame[..MESSAGE_HEADER_LEN + part];
    forall k | 0 <= k < part
      ensures payload'[MESSAGE_HEADER_LEN..][k] == body[offset..offset + part][k]
    {
      assert frame[MESSAGE_HEADER_LEN + k] == body[offset + k];
    }
    assert payload'[MESSAGE_HEADER_LEN..] == body[offset..offset + part];
    assert payload' == payload'[..MESSAGE_HEADER_LEN] + payload'[MESSAGE_HEADER_LEN..];
    assert payload'[..MESSAGE_HEADER_LEN] == frame[..MESSAGE_HEADER_LEN];
    return Some(payload');
  }

  /** Frames and sends the fragment that starts at `offset`. */
  method SendPiece(link: Link, frame: array<U8>, r: Request, corr: U64, offset: nat, ghost i: nat)
    returns (failure: Option<Outcome>, part: nat)
    requires BudgetOk(r.budget) && frame.Length == r.budget && offset <= |r.body|
    requires i < |Pieces(r.body, Chunk(r.budget))|
    requires Pieces(r.body[offset..], Chunk(r.budget)) == Pieces(r.body, Chunk(r.budget))[i..]
    modifies link, frame
    ensures part == if |r.body| - offset > Chunk(r.budget) then Chunk(r.budget) else |r.body| - offset
    ensures failure.Some? ==> link.sent == old(link.sent)
    ensures r.stageID == 0 || part > MAX_BODY ==> failure == Some(BadMessage)
    ensures r.stageID != 0 && Framable(|r.body|, r.budget) && corr == 0 ==>
              failure == Some(BusFailed(Client.ErrProtocol))
    ensures r.stageID != 0 && Framable(|r.body|, r.budget) && corr != 0 ==>
              var answer := NextAnswer(old(link.script), 0);
              && failure == (if answer == Client.Sent then None else Some(BusFailed(answer)))
              && (answer == Client.Sent ==>
                    && link.script == old(if link.script == [] then [] else link.script[1..])
                    && link.sent == old(link.sent) + [RequestStream(r, corr)[i]])
  {
    PiecesHead(r.body, Chunk(r.budget), offset, i);
    if Framable(|r.body|, r.budget) {
      PieceFits(r.body, Chunk(r.budget), i);
      StreamAt(r, corr);
    }
    hide Pieces, RequestStream, MessageBytes;
    part := |r.body| - offset;
    if part > Chunk(r.budget) {
      part := Chunk(r.budget);
    }
    var more := offset + part < |r.body|;
    var payload := FrameFragment(InvokeHeader(r, part), frame, r.body, offset, part);
    if payload.None? {
      return Some(BadMessage), part;
    }
    var answer := link.RequestFragment(r.kind, corr, payload.value, more);
    if answer != Client.Sent {
      return Some(BusFailed(answer)), part;
    }
    return None, part;
  }

  ghost function StreamOf(r: Request, corr: U64): (ps: seq<Packet>)
    ensures BudgetOk(r.budget) && Framable(|r.body|, r.budget) ==> |ps| == |Pieces(r.body, Chunk(r.budget))|
  {
    if Framable(|r.body|, r.budget) then RequestStream(r, corr) else []
  }

  /** The bus takes each of the next n sends. */
  predicate Takes(script: seq<Client.SendResult>, n: nat) {
    n <= |script| && forall i :: 0 <= i < n ==> script[i] == Client.Sent
  }

  /** How many of the next n sends go out before the first that does not. */
  function Taken(script: seq<Client.SendResult>, n: nat): (k: nat)
    ensures k <= n && k <= |script|
  {
    if n == 0 || script == [] || script[0] != Client.Sent then 0 else 1 + Taken(script[1..], n - 1)
  }

  lemma {:induction false} TakenAll(script: seq<Client.SendResult>, n: nat)
    ensures Taken(script, n) == n <==> Takes(script, n)
  {
    if n > 0 && script != [] && script[0] == Client.Sent {
      TakenAll(script[1..], n - 1);
      assert forall i :: 1 <= i < |script| ==> script[i] == script[1..][i - 1];
      assert forall i :: 0 <= i < |script| - 1 ==> script[1..][i] == script[i + 1];
    }
  }

  /** How far a send gets: the fragments out, and the failure if they are not all. */
  datatype Sending = Sending(taken: nat, failure: Option<Outcome>)

  ghost function Sends(r: Request, corr: U64, script: seq<Client.SendResult>): (s: Sending)
    ensures s.taken <= |StreamOf(r, corr)|
  {
    if !BudgetOk(r.budget) then Sending(0, Some(RuntimeFailure))
    else if r.stageID == 0 || !Framable(|r.body|, r.budget) then Sending(0, Some(BadMessage))
    else if corr == 0 then Sending(0, Some(BusFailed(Client.ErrProtocol)))
    else
      var k := Taken(script, |StreamOf(r, corr)|);
      Sending(k, if k == |StreamOf(r, corr)| then None else Some(BusFailed(NextAnswer(script, k))))
  }

  /** A send succeeds exactly when the request can be framed and the bus takes every fragment, and
      a send that fails leaves at least one fragment unsent. */
  lemma SendSucceeds(r: Request, corr: U64, script: seq<Client.SendResult>)
    ensures var n := |StreamOf(r, corr)|;
            Sends(r, corr, script).failure.None? <==>
              Framable(|r.body|, r.budget) && r.stageID != 0 && corr != 0 && Takes(script, n)
    ensures Sends(r, corr, script).failure.Some? && Framable(|r.body|, r.budget) ==>
              Sends(r, corr, script).taken < |RequestStream(r, corr)|
    ensures var failure := Sends(r, corr, script).failure;
            && (failure == Some(RuntimeFailure) <==> !BudgetOk(r.budget))
            && (failure == Some(BadMessage) <==>
                  BudgetOk(r.budget) && (r.stageID == 0 || !Framable(|r.body|, r.budget)))
  {
    TakenAll(script, |StreamOf(r, corr)|);
    hide Pieces, Taken;
  }

  /** Sends every fragment of a request, in order, through one reused frame buffer; stops at the
      first one the bus does not take. A fragment too large for a module message is never framed. */
  method Send(link: Link, r: Request, corr: U64) returns (failure: Option<Outcome>)
    modifies link
    ensures failure == Sends(r, corr, old(link.script)).failure
    ensures link.sent == old(link.sent) + StreamOf(r, corr)[..Sends(r, corr, old(link.script)).taken]
    ensures failure.None? ==> link.script == old(link.script)[Sends(r, corr, old(link.script)).taken..]
  {
    if !BudgetOk(r.budget) {
      return Some(RuntimeFailure);
    }
    hide Taken, Framable;
    ghost var i;
    failure, i := SendPieces(link, r, corr);
  }

  /** The loop of a send. */
  method SendPieces(link: Link, r: Request, corr: U64) returns (failure: Option<Outcome>, ghost i: nat)
    requires BudgetOk(r.budget)
    modifies link
    ensures i <= |StreamOf(r, corr)| && link.sent == old(link.sent) + StreamOf(r, corr)[..i]
    ensures r.stageID == 0 || !Framable(|r.body|, r.budget) ==> failure == Some(BadMessage) && i == 0
    ensures r.stageID != 0 && Framable(|r.body|, r.budget) && corr == 0 ==>
              failure == Some(BusFailed(Client.ErrProtocol)) && i == 0
    ensures r.stageID != 0 && Framable(|r.body|, r.budget) && corr != 0 ==>
              && i == Taken(old(link.script), |StreamOf(r, corr)|)
              && failure ==
                  (if i == |StreamOf(r, corr)| then None else Some(BusFailed(NextAnswer(old(link.script), i))))
    ensures failure.None? ==> i <= |old(link.script)| && link.script == old(link.script)[i..]
  {
    ghost var stream, before, script := StreamOf(r, corr), link.sent, link.script;
    ghost var framable := Framable(|r.body|, r.budget);
    assert !framable ==> |r.body| > MAX_BODY && Chunk(r.budget) > MAX_BODY;
    var frame := new U8[r.budget];
    var first := true;
    var offset := 0;
    i := 0;
    UnderwayStart(r.body, Chunk(r.budget));
    OutStart(before, script, stream);
    hide Pieces, RequestStream, Framable, Underway, StreamOf, Taken, Out, NextAnswer;
    while first || offset < |r.body|
      invariant 0 <= offset <= |r.body| && Underway(r.body, Chunk(r.budget), first, offset, i)
      invariant first ==> i == 0 && offset == 0
      invariant first || (framable && corr != 0 && r.stageID != 0)
      invariant Out(before, script, stream, i, link.sent, link.script)
      decreases |r.body| - offset, first
    {
      UnderwayNext(r.body, Chunk(r.budget), first, offset, i);
      PieceOfStream(r, corr, i);
      first := false;
      OutNext(before, script, stream, i, link.sent, link.script);
      var part;
      failure, part := SendPiece(link, frame, r, corr, offset, i);
      if failure.Some? {
        return;
      }
      offset := offset + part;
      i := i + 1;
    }
    AllOut(r.body, Chunk(r.budget), offset, i);
    StreamLength(r, corr);
    OutAll(before, script, stream, i, link.sent, link.script);
    return None, i;
  }

  /** The first i packets of the stream are out, and the bus's next answers are the rest of the script. */
  ghost predicate Out(before: seq<Packet>, script: seq<Client.SendResult>, stream: seq<Packet>, i: nat,
                      sent: seq<Packet>, rest: seq<Client.SendResult>)
  {
    && i <= |stream| && i <= |script|
    && sent == before + stream[..i] && rest == script[i..]
    && Taken(script, |stream|) == i + Taken(rest, |stream| - i)
  }

  lemma OutStart(before: seq<Packet>, script: seq<Client.SendResult>, stream: seq<Packet>)
    ensures Out(before, script, stream, 0, before, script)
  {
    assert stream[..0] == [] && script[0..] == script;
    hide Taken;
  }

  /** The next answer decides: either one more packet is out, or the send ends here. */
  lemma OutNext(before: seq<Packet>, script: seq<Client.SendResult>, stream: seq<Packet>, i: nat,
                sent: seq<Packet>, rest: seq<Client.SendResult>)
    requires Out(before, script, stream, i, sent, rest)
    ensures i <= |stream| && sent == before + stream[..i]
    ensures NextAnswer(rest, 0) == Client.Sent ==> rest != []
    ensures i < |stream| && NextAnswer(rest, 0) == Client.Sent ==>
              Out(before, script, stream, i + 1, sent + [stream[i]], rest[1..])
    ensures i < |stream| && NextAnswer(rest, 0) != Client.Sent ==>
              Taken(script, |stream|) == i && NextAnswer(script, i) == NextAnswer(rest, 0)
  {
    if i < |stream| {
      assert stream[..i + 1] == stream[..i] + [stream[i]];
    }
  }

  lemma OutAll(before: seq<Packet>, script: seq<Client.SendResult>, stream: seq<Packet>, i: nat,
               sent: seq<Packet>, rest: seq<Client.SendResult>)
    requires Out(before, script, stream, i, sent, rest) && i == |stream|
    ensures i <= |script| && sent == before + stream[..i] && rest == script[i..] && Taken(script, |stream|) == i
  {
  }

  lemma StreamLength(r: Request, corr: U64)
    requires Framable(|r.body|, r.budget)
    ensures |StreamOf(r, corr)| == |Pieces(r.body, Chunk(r.budget))|
  {
  }

  lemma PieceOfStream(r: Request, corr: U64, i: nat)
    requires BudgetOk(r.budget) && i < |Pieces(r.body, Chunk(r.budget))|
    ensures Framable(|r.body|, r.budget) ==> i < |StreamOf(r, corr)| && StreamOf(r, corr) == RequestStream(r, corr)
  {
  }

  /** Whether Call accepts a request of this size: the length is truncated to 32 bits first. */
  predicate AcceptsSize(length: nat) {
    length % TWO_TO_32 <= MAX_BODY
  }

  /** The size check is the documented limit exactly for lengths below 4 GiB and for those whose
      low 32 bits exceed the limit too. */
  lemma SizeCheck(length: nat)
    ensures AcceptsSize(length) == (length <= MAX_BODY) <==>
              length < TWO_TO_32 || length % TWO_TO_32 > MAX_BODY
  {
  }

  /** A body of exactly 4 GiB passes it; and so do 2^24 + 1 lengths in every further 4 GiB. */
  lemma SizeCheckAdmitsOversized(n: nat, low: nat)
    requires n > 0 && low <= MAX_BODY
    ensures AcceptsSize(TWO_TO_32) && TWO_TO_32 > MAX_BODY
    ensures AcceptsSize(n * TWO_TO_32 + low) && n * TWO_TO_32 + low > MAX_BODY
  {
    DivModUnique(n * TWO_TO_32 + low, TWO_TO_32, n, low);
  }

  /** The correlation after this one; the counter wraps. */
  function NextCorrelation(corr: U64): (next: U64)
    ensures next == if corr < TWO_TO_64 - 1 then corr + 1 else 0
  {
    (corr + 1) % TWO_TO_64
  }

  /** One caller: its own client and its own correlation counter. */
  class ModuleCaller {
    const link: Link
    const budget: U32
    var correlation: U64

    constructor (link: Link, budget: U32)
      ensures this.link == link && this.budget == budget && correlation == 0
    {
      this.link := link;
      this.budget := budget;
      correlation := 0;
    }

    /** Issues one call: a fresh correlation, the request's fragments, then the reply. A call that
        fails while waiting publishes a cancel; one whose send fails does not. `Waiting` is a call
        that has not returned yet when the polls run out. */
    method Call(kind: U32, stageID: U32, traceID: U64, deadlineNS: U64, body: ByteSeq, polls: seq<Poll>)
      returns (outcome: Outcome)
      modifies this, link
      ensures !AcceptsSize(|body|) ==>
                outcome == BadConfig && link.sent == old(link.sent) && correlation == old(correlation)
      ensures AcceptsSize(|body|) ==>
                var r := Request(kind, stageID, traceID, deadlineNS, body, budget);
                && correlation == NextCorrelation(old(correlation))
                && Concludes(r, correlation, old(link.script), polls, outcome, old(link.sent), link.sent)
                && EndsWell(r, correlation, old(link.script), polls, outcome, old(link.sent), link.sent)
    {
      ConcludeEarly(Request(kind, stageID, traceID, deadlineNS, body, budget), NextCorrelation(correlation),
                    link.script, polls, link.sent);
      hide EndsWell, EndsEarly, Calm, Collected, Mine, Sends, StreamOf, Await;
      if !AcceptsSize(|body|) {
        return BadConfig;
      }
      correlation := NextCorrelation(correlation);
      var r := Request(kind, stageID, traceID, deadlineNS, body, budget);
      var failure := Send(link, r, correlation);
      if failure.Some? {
        return failure.value;
      }
      outcome := AwaitReply(polls, r.kind, correlation);
      AllTaken(r, correlation, old(link.script));
      if Fails(outcome) {
        var _ := link.Cancel(r.kind, correlation);
      }
    }
  }

  lemma AllTaken(r: Request, corr: U64, script: seq<Client.SendResult>)
    requires Sends(r, corr, script).failure.None?
    ensures corr != 0 && Sends(r, corr, script).taken == |StreamOf(r, corr)|
  {
    SendSucceeds(r, corr, script);
    hide StreamOf, Takes;
  }

  /** An error return, as opposed to a body or a call still waiting. */
  predicate Fails(outcome: Outcome) {
    !outcome.Body? && !outcome.Waiting?
  }

  /** How a call ends, and what it has put on the link: the fragments that went out before it
      waited or gave up, and a cancel after a failed wait when the bus takes it. */
  datatype CallEnd = CallEnd(outcome: Outcome, fragments: seq<Packet>, cancel: seq<Packet>)

  ghost function Conclude(r: Request, corr: U64, script: seq<Client.SendResult>, polls: seq<Poll>): CallEnd {
    var s := Sends(r, corr, script);
    var out := StreamOf(r, corr)[..s.taken];
    if s.failure.Some? then CallEnd(s.failure.value, out, [])
    else
      var outcome := Await(polls, r.kind, corr, []);
      CallEnd(outcome, out,
              if Fails(outcome) && NextAnswer(script, s.taken) == Client.Sent
              then [Packet(F_CANCEL, r.kind, corr, [])] else [])
  }

  /** The call returned so, and has put so much on the link. */
  ghost predicate Concludes(r: Request, corr: U64, script: seq<Client.SendResult>, polls: seq<Poll>, outcome: Outcome,
                            before: seq<Packet>, sent: seq<Packet>)
  {
    var end := Conclude(r, corr, script, polls);
    outcome == end.outcome && sent == before + end.fragments + end.cancel
  }

  /** The request can be framed and the bus takes all of it. */
  ghost predicate Accepted(r: Request, corr: U64, script: seq<Client.SendResult>) {
    Framable(|r.body|, r.budget) && r.stageID != 0 && corr != 0 && Takes(script, |StreamOf(r, corr)|)
  }

  /** One cancel packet, when the bus takes it. */
  ghost function CancelOf(r: Request, corr: U64, script: seq<Client.SendResult>): seq<Packet> {
    if NextAnswer(script, |StreamOf(r, corr)|) == Client.Sent then [Packet(F_CANCEL, r.kind, corr, [])] else []
  }

  /** A call that the bus takes and whose wait ends early returns as its wait ends, with the whole
      request and then one cancel sent; one that returns a body, or is still waiting, has sent nothing
      but the request. */
  ghost predicate EndsWell(r: Request, corr: U64, script: seq<Client.SendResult>, polls: seq<Poll>, outcome: Outcome,
                           before: seq<Packet>, sent: seq<Packet>)
  {
    && (outcome.Body? || outcome.Waiting? ==> sent == before + StreamOf(r, corr))
    && (Accepted(r, corr, script) ==>
          forall k, o :: EndsEarly(polls, k, r.kind, corr, o) ==>
            outcome == o && sent == before + StreamOf(r, corr) + CancelOf(r, corr, script))
  }

  /** A call whose wait ends early ends so, with the whole request and then one cancel on the link;
      a call that returns a body has put nothing but the request there. */
  lemma ConcludeEarly(r: Request, corr: U64, script: seq<Client.SendResult>, polls: seq<Poll>, before: seq<Packet>)
    ensures var end := Conclude(r, corr, script, polls);
            EndsWell(r, corr, script, polls, end.outcome, before, before + end.fragments + end.cancel)
  {
    var end, s := Conclude(r, corr, script, polls), Sends(r, corr, script);
    SendSucceeds(r, corr, script);
    assert s.failure.None? ==> s.taken == |StreamOf(r, corr)|;
    assert StreamOf(r, corr)[..|StreamOf(r, corr)|] == StreamOf(r, corr);
    assert s.failure.Some? ==> !end.outcome.Body? && !end.outcome.Waiting?;
    hide Sends, StreamOf, Await, Takes;
    assert before + StreamOf(r, corr) + [] == before + StreamOf(r, corr);
    forall k, o | EndsEarly(polls, k, r.kind, corr, o)
      ensures Await(polls, r.kind, corr, []) == o && Fails(o)
    {
      WaitEndsEarly(polls, k, r.kind, corr, o);
    }
  }

  /** A call that has every fragment taken ends as its wait ends; any other has left at least one
      fragment unsent and sends no cancel. */
  lemma ConcludeMeaning(r: Request, corr: U64, script: seq<Client.SendResult>, polls: seq<Poll>)
    requires Framable(|r.body|, r.budget) && r.stageID != 0 && corr != 0
    ensures var end, n := Conclude(r, corr, script, polls), |RequestStream(r, corr)|;
            if Takes(script, n) then
              end.outcome == Await(polls, r.kind, corr, []) && end.fragments == RequestStream(r, corr)
            else
              && end.outcome.BusFailed? && end.outcome.error != Client.Sent && end.cancel == []
              && end.fragments < RequestStream(r, corr)
  {
    SendSucceeds(r, corr, script);
    FirstUntaken(script, |RequestStream(r, corr)|);
    hide Await, RequestStream, Taken;
  }

  lemma {:induction false} FirstUntaken(script: seq<Client.SendResult>, n: nat)
    ensures Taken(script, n) < n ==> NextAnswer(script, Taken(script, n)) != Client.Sent
  {
    if n > 0 && script != [] && script[0] == Client.Sent {
      FirstUntaken(script[1..], n - 1);
    }
  }
}
