/** The module envelope: a 40-byte header in front of every request and reply fragment. */
module ModuleProtocol {
  import opened Bits
  import opened Bytes
  import opened Wrappers

  const MESSAGE_MAGIC: U32 := 0x444f4d41
  const MESSAGE_VERSION: U16 := 1
  const MESSAGE_HEADER_LEN := 40
  const MAX_BODY: U32 := 0x100_0000

  const OP_INVOKE: U16 := 1
  const OP_RESULT: U16 := 2

  const STATUS_OK: U16 := 0
  const STATUS_CAPABILITY_ABSENT: U16 := 1
  const STATUS_CANCELLED: U16 := 2
  const STATUS_DEADLINE_EXCEEDED: U16 := 3
  const STATUS_INVALID_REQUEST: U16 := 4
  const STATUS_INTERNAL: U16 := 5

  datatype Message = Message(
    operation: U16, status: U16, stageID: U32, flags: U32, bodyLen: U32, deadlineNS: U64, traceID: U64)
  {
    predicate Valid() {
      && (operation == OP_INVOKE || operation == OP_RESULT)
      && status <= STATUS_INTERNAL && (operation == OP_INVOKE ==> status == STATUS_OK)
      && stageID != 0 && flags == 0 && bodyLen <= MAX_BODY
    }

    predicate DeadlineExpired(nowNS: U64) {
      deadlineNS != 0 && nowNS >= deadlineNS
    }
  }

  const MESSAGE_WIDTHS: seq<nat> := [4, 2, 2, 2, 2, 4, 4, 4, 8, 8]

  function MessageValues(m: Message): seq<nat> {
    [MESSAGE_MAGIC, MESSAGE_VERSION, MESSAGE_HEADER_LEN, m.operation, m.status, m.stageID, m.flags,
     m.bodyLen, m.deadlineNS, m.traceID]
  }

  lemma MessageLayout()
    ensures |MESSAGE_WIDTHS| == 10
    ensures Offset(MESSAGE_WIDTHS, 0) == 0 && Offset(MESSAGE_WIDTHS, 1) == 4
    ensures Offset(MESSAGE_WIDTHS, 2) == 6 && Offset(MESSAGE_WIDTHS, 3) == 8
    ensures Offset(MESSAGE_WIDTHS, 4) == 10 && Offset(MESSAGE_WIDTHS, 5) == 12
    ensures Offset(MESSAGE_WIDTHS, 6) == 16 && Offset(MESSAGE_WIDTHS, 7) == 20
    ensures Offset(MESSAGE_WIDTHS, 8) == 24 && Offset(MESSAGE_WIDTHS, 9) == 32
    ensures Offset(MESSAGE_WIDTHS, 10) == MESSAGE_HEADER_LEN
  {
    assert Offset(MESSAGE_WIDTHS, 4) == 10;
    assert Offset(MESSAGE_WIDTHS, 7) == 20;
  }

  function MessageBytes(m: Message): (b: ByteSeq)
    ensures |b| == MESSAGE_HEADER_LEN
  {
    MessageLayout();
    Pack(MessageValues(m), MESSAGE_WIDTHS, 10)
  }

  function MessageAt(b: ByteSeq): Message
    requires |b| >= MESSAGE_HEADER_LEN
  {
    Message(WordAt(b, 8, 2), WordAt(b, 10, 2), WordAt(b, 12, 4), WordAt(b, 16, 4), WordAt(b, 20, 4),
            WordAt(b, 24, 8), WordAt(b, 32, 8))
  }

  function DecodeMessage(input: ByteSeq): Option<Message> {
    if |input| < MESSAGE_HEADER_LEN || WordAt(input, 0, 4) != MESSAGE_MAGIC
       || WordAt(input, 4, 2) != MESSAGE_VERSION || WordAt(input, 6, 2) != MESSAGE_HEADER_LEN
    then None
    else
      var m := MessageAt(input);
      if !m.Valid() || m.bodyLen > |input| - MESSAGE_HEADER_LEN then None else Some(m)
  }

  /** Each field of an encoded header reads back from its place, whatever follows the header. */
  lemma MessageWord(m: Message, body: ByteSeq, i: nat)
    requires i < 10
    ensures Offset(MESSAGE_WIDTHS, i) + MESSAGE_WIDTHS[i] <= MESSAGE_HEADER_LEN
    ensures WordAt(MessageBytes(m) + body, Offset(MESSAGE_WIDTHS, i), MESSAGE_WIDTHS[i]) == MessageValues(m)[i]
  {
    MessageLayout();
    assert Fits(MessageValues(m), MESSAGE_WIDTHS) && |MessageValues(m)| == 10;
    hide Offset, Pack, WordAt, MessageValues, Fits;
    var at := Offset(MESSAGE_WIDTHS, i);
    WordOfPack(MessageValues(m), MESSAGE_WIDTHS, 10, i);
    WordInFront(MessageBytes(m), body, at, MESSAGE_WIDTHS[i]);
  }

  /** An encoded header in front of its body decodes to the message. */
  lemma MessageRoundTrip(m: Message, body: ByteSeq)
    requires m.Valid() && m.bodyLen <= |body|
    ensures DecodeMessage(MessageBytes(m) + body) == Some(m)
  {
    MessageLayout();
    var v, b := MessageValues(m), MessageBytes(m);
    forall i: nat | i < 10
      ensures Offset(MESSAGE_WIDTHS, i) + MESSAGE_WIDTHS[i] <= MESSAGE_HEADER_LEN
      ensures WordAt(b + body, Offset(MESSAGE_WIDTHS, i), MESSAGE_WIDTHS[i]) == v[i]
    {
      MessageWord(m, body, i);
    }
    hide MessageBytes, WordAt, Pack, Offset;
  }

  /** Re-encoding a decoded message reproduces the header bytes it came from. */
  lemma DecodedHeader(input: ByteSeq)
    requires DecodeMessage(input).Some?
    ensures MessageBytes(DecodeMessage(input).value) == input[..MESSAGE_HEADER_LEN]
    ensures MESSAGE_HEADER_LEN + DecodeMessage(input).value.bodyLen <= |input|
  {
    MessageLayout();
    forall i: nat | i < 10
      ensures HoldsWord(input, MessageValues(MessageAt(input)), MESSAGE_WIDTHS, i)
    {
    }
    PackOfWords(input, MessageValues(MessageAt(input)), MESSAGE_WIDTHS, 10);
  }

  /** Writes the header at the start of a buffer, or reports failure and writes nothing. */
  method Encode(m: Message, out: array<U8>) returns (n: Option<nat>)
    modifies out
    ensures n == if out.Length < MESSAGE_HEADER_LEN || !m.Valid() then None else Some(MESSAGE_HEADER_LEN)
    ensures out[..] == if n.None? then old(out[..]) else MessageBytes(m) + old(out[MESSAGE_HEADER_LEN..])
  {
    if out.Length < MESSAGE_HEADER_LEN || !m.Valid() {
      return None;
    }
    hide Written, Pack;
    MessageLayout();
    ghost var was := out[..];
    forall i | 0 <= i < MESSAGE_HEADER_LEN {
      out[i] := 0;
    }
    ghost var vs := MessageValues(m);
    NoneWritten(vs, MESSAGE_WIDTHS, out[..], 0, was);
    StoreWord(vs, MESSAGE_WIDTHS, out, 0, 0, 0, MESSAGE_MAGIC, 4, was);
    StoreWord(vs, MESSAGE_WIDTHS, out, 0, 1, 4, MESSAGE_VERSION, 2, was);
    StoreWord(vs, MESSAGE_WIDTHS, out, 0, 2, 6, MESSAGE_HEADER_LEN, 2, was);
    StoreWord(vs, MESSAGE_WIDTHS, out, 0, 3, 8, m.operation, 2, was);
    StoreWord(vs, MESSAGE_WIDTHS, out, 0, 4, 10, m.status, 2, was);
    StoreWord(vs, MESSAGE_WIDTHS, out, 0, 5, 12, m.stageID, 4, was);
    StoreWord(vs, MESSAGE_WIDTHS, out, 0, 6, 16, m.flags, 4, was);
    StoreWord(vs, MESSAGE_WIDTHS, out, 0, 7, 20, m.bodyLen, 4, was);
    StoreWord(vs, MESSAGE_WIDTHS, out, 0, 8, 24, m.deadlineNS, 8, was);
    StoreWord(vs, MESSAGE_WIDTHS, out, 0, 9, 32, m.traceID, 8, was);
    AllWritten(vs, MESSAGE_WIDTHS, out[..], 0, was);
    assert out[..] == MessageBytes(m) + was[MESSAGE_HEADER_LEN..];
    return Some(MESSAGE_HEADER_LEN);
  }
}
