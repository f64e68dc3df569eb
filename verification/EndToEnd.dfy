/** The whole path of one call: fragments out, reassembly and one handler start among any other
    traffic, the reply's fragments back among any other events. */
module EndToEnd {
  import opened Bits
  import opened Bytes
  import opened Wrappers
  import opened Wire
  import opened ModuleProtocol
  import opened Fragments
  import opened Runtime
  import opened Streams
  import Client
  import RuntimeHistory
  import opened Caller

  /** The replies to one correlation, out of every packet the module sent. */
  function PacketsFor(replies: seq<Packet>, c: U64): seq<Packet> {
    if replies == [] then []
    else (if replies[0].corr == c then [replies[0]] else []) + PacketsFor(replies[1..], c)
  }

  lemma PacketsForCons(p: Packet, rest: seq<Packet>, c: U64)
    ensures PacketsFor([p] + rest, c) == (if p.corr == c then [p] else []) + PacketsFor(rest, c)
  {
    assert ([p] + rest)[1..] == rest;
  }

  lemma {:induction false} PacketsForConcat(a: seq<Packet>, b: seq<Packet>, c: U64)
    ensures PacketsFor(a + b, c) == PacketsFor(a, c) + PacketsFor(b, c)
  {
    if a == [] {
      assert a + b == b;
    } else {
      hide PacketsFor;
      PacketsForConcat(a[1..], b, c);
      PacketsForCons(a[0], a[1..], c);
      PacketsForCons(a[0], a[1..] + b, c);
      assert a == [a[0]] + a[1..] && a + b == [a[0]] + (a[1..] + b);
    }
  }

  lemma {:induction false} PacketsForUniform(ps: seq<Packet>, corr: U64, c: U64)
    requires forall i :: 0 <= i < |ps| ==> ps[i].corr == corr
    ensures PacketsFor(ps, c) == if corr == c then ps else []
  {
    if ps != [] {
      PacketsForUniform(ps[1..], corr, c);
      assert ps == [ps[0]] + ps[1..];
    }
  }

  /** One more reply adds its own packets, to its own correlation only. */
  lemma RepliesForSnoc(before: seq<Answer>, last: Answer, budget: U32, c: U64)
    requires BudgetOk(budget) && |last.body| <= MAX_BODY
    requires forall i :: 0 <= i < |before| ==> |before[i].body| <= MAX_BODY
    ensures PacketsFor(RuntimeHistory.Expand(before + [last], budget), c) ==
              PacketsFor(RuntimeHistory.Expand(before, budget), c)
              + (if last.corr == c then ReplyStream(last, budget) else [])
  {
    RuntimeHistory.ExpandSnoc(before, last, budget);
    PacketsForUniform(ReplyStream(last, budget), last.corr, c);
    hide PacketsFor, ReplyStream, RuntimeHistory.Expand;
    PacketsForConcat(RuntimeHistory.Expand(before, budget), ReplyStream(last, budget), c);
  }

  /** The reply packets of a correlation are the packets of its answers, in order. */
  lemma {:induction false} RepliesFor(answered: seq<Answer>, budget: U32, c: U64)
    requires BudgetOk(budget)
    requires forall i :: 0 <= i < |answered| ==> |answered[i].body| <= MAX_BODY
    requires |AnswersFor(answered, c)| <= 1
    ensures PacketsFor(RuntimeHistory.Expand(answered, budget), c) ==
              if AnswersFor(answered, c) == [] then []
              else
                assert AnswersFor(answered, c)[0] in answered by { AnswersAreFrom(answered, c); }
                ReplyStream(AnswersFor(answered, c)[0], budget)
    decreases |answered|
  {
    if answered != [] {
      var before, last := answered[..|answered| - 1], answered[|answered| - 1];
      hide PacketsFor, ReplyStream, AnswersFor, RuntimeHistory.Expand;
      assert answered == before + [last];
      AnswersSnoc(before, last, c);
      if last.corr == c {
        assert AnswersFor(before, c) == [] && AnswersFor(answered, c)[0] == last;
      }
      RepliesFor(before, budget, c);
      RepliesForSnoc(before, last, budget, c);
    }
  }

  lemma {:induction false} AnswersAreFrom(answered: seq<Answer>, c: U64)
    ensures forall a :: a in AnswersFor(answered, c) ==> a in answered && a.corr == c
  {
    if answered != [] {
      AnswersAreFrom(answered[1..], c);
    }
  }

  /** What a caller should see of a handler's outcome. */
  function CallOutcome(response: ByteSeq, status: U16): Outcome {
    if status > STATUS_INTERNAL || |response| > MAX_BODY then StatusError(STATUS_INTERNAL)
    else if status == STATUS_OK then Body(response)
    else StatusError(status)
  }

  lemma AnswerOutcome(r: Request, c: U64, h: Handler)
    ensures var a := Normal(AnswerTo(ResultOf(r, c, h)));
            && a.corr == c && a.kind == r.kind && a.stageID == r.stageID
            && (if a.status == STATUS_OK then Body(a.body) else StatusError(a.status)) ==
                 CallOutcome(h(InvocationOf(r), r.body).0, h(InvocationOf(r), r.body).1)
  {
  }

  /** The packets a module sends back for one call are exactly one reply's. */
  lemma CallIsAnswered(cfg: Config, steps: seq<Step>, s': State, r: Request, c: U64, h: Handler)
    requires CallOk(cfg, r, c) && Reaches(cfg, INITIAL, steps, s') && s'.phase.Serving?
    requires Undisturbed(cfg, INITIAL, steps, r, c, h)
    requires Arrivals(steps, c) == RequestStream(r, c) && c !in s'.jobs
    ensures PacketsFor(s'.replies, c) == ReplyStream(Normal(AnswerTo(ResultOf(r, c, h))), cfg.budget)
  {
    InitialInv();
    assert RuntimeHistory.Balanced(cfg, INITIAL);
    StreamIsServed(cfg, steps, s', r, c, h);
    RuntimeHistory.RunBalances(cfg, INITIAL, steps, s');
    hide Undisturbed, Reaches, RequestStream, ReplyStream, ResultOf, Inv;
    RepliesFor(s'.answered, cfg.budget, c);
  }

  /** What a call that gets this far needs of its surroundings: its fragments reach the module in
      order, with room and time, among any other traffic, its handler has ended, and the packets
      the module sends back reach it in order, among any other events. */
  ghost predicate Carried(cfg: Config, steps: seq<Step>, s': State, r: Request, c: U64, h: Handler,
                          fragments: seq<Packet>, polls: seq<Poll>)
  {
    && Reaches(cfg, INITIAL, steps, s') && s'.phase.Serving?
    && Undisturbed(cfg, INITIAL, steps, r, c, h)
    && Arrivals(steps, c) == fragments && c !in s'.jobs
    && Calm(polls) && Mine(polls, c) == PacketsFor(s'.replies, c)
  }

  /** What a caller should see of the handler, given exactly the request's bytes. */
  ghost function HandlersOutcome(r: Request, h: Handler): Outcome {
    CallOutcome(h(InvocationOf(r), r.body).0, h(InvocationOf(r), r.body).1)
  }

  lemma WaitGetsHandlersAnswer(cfg: Config, steps: seq<Step>, s': State, r: Request, c: U64, h: Handler,
                               polls: seq<Poll>)
    requires CallOk(cfg, r, c) && r.kind != KIND_CAPABILITY_ABSENT && r.kind != KIND_ERROR
    requires Carried(cfg, steps, s', r, c, h, RequestStream(r, c), polls)
    ensures Await(polls, r.kind, c, []) == HandlersOutcome(r, h)
  {
    CallIsAnswered(cfg, steps, s', r, c, h);
    AnswerOutcome(r, c, h);
    hide Undisturbed, Reaches, RequestStream, ReplyStream, Await, Mine, PacketsFor, Inv;
    AwaitGetsAnswer(polls, Normal(AnswerTo(ResultOf(r, c, h))), cfg.budget);
  }

  /** End to end: when the bus takes every fragment, and what the call put on the link is carried
      there and back, the call ends with exactly what the handler returns for exactly the
      request's bytes, for every inline budget on either side; and when the bus does not, it ends
      with an error of the bus, having sent less than the whole request. */
  lemma CallReturnsHandlersAnswer(cfg: Config, steps: seq<Step>, s': State, r: Request, c: U64, h: Handler,
                                  script: seq<Client.SendResult>, polls: seq<Poll>)
    requires CallOk(cfg, r, c) && c != 0 && r.kind != KIND_CAPABILITY_ABSENT && r.kind != KIND_ERROR
    ensures var end := Conclude(r, c, script, polls);
            if Takes(script, |RequestStream(r, c)|) then
              && end.fragments == RequestStream(r, c)
              && (Carried(cfg, steps, s', r, c, h, end.fragments, polls) ==> end.outcome == HandlersOutcome(r, h))
            else
              end.outcome.BusFailed? && end.fragments < RequestStream(r, c)
  {
    ConcludeMeaning(r, c, script, polls);
    hide Conclude, Carried, RequestStream, Await, HandlersOutcome;
    if Carried(cfg, steps, s', r, c, h, RequestStream(r, c), polls) {
      WaitGetsHandlersAnswer(cfg, steps, s', r, c, h, polls);
    }
  }

  /** A call that the bus takes and the rest of the world carries there and back. */
  ghost predicate Goes(cfg: Config, steps: seq<Step>, s': State, r: Request, c: U64, h: Handler,
                       script: seq<Client.SendResult>, polls: seq<Poll>)
  {
    && CallOk(cfg, r, c) && c != 0 && r.kind != KIND_CAPABILITY_ABSENT && r.kind != KIND_ERROR
    && Takes(script, |StreamOf(r, c)|) && Carried(cfg, steps, s', r, c, h, StreamOf(r, c), polls)
  }

  /** Some run of a module does so. */
  ghost predicate GoesThrough(r: Request, c: U64, h: Handler, script: seq<Client.SendResult>, polls: seq<Poll>) {
    exists cfg, steps, s' :: Goes(cfg, steps, s', r, c, h, script, polls)
  }

  lemma GoingCallEnds(cfg: Config, steps: seq<Step>, s': State, r: Request, c: U64, h: Handler,
                      script: seq<Client.SendResult>, polls: seq<Poll>)
    requires Goes(cfg, steps, s', r, c, h, script, polls)
    ensures AcceptsSize(|r.body|)
    ensures Conclude(r, c, script, polls).fragments == StreamOf(r, c)
    ensures Conclude(r, c, script, polls).outcome == HandlersOutcome(r, h)
  {
    hide Carried, RequestStream, Conclude, Await, HandlersOutcome;
    CallReturnsHandlersAnswer(cfg, steps, s', r, c, h, script, polls);
  }

  /** The request and nothing else went out, or, after a failure, a cancel too if the bus took it. */
  ghost predicate SendsOnly(r: Request, c: U64, script: seq<Client.SendResult>, outcome: Outcome,
                            before: seq<Packet>, sent: seq<Packet>)
  {
    sent == before + StreamOf(r, c) + if outcome.Body? then [] else CancelOf(r, c, script)
  }

  /** The same of the method: called on a link that takes its fragments, it returns what the
      handler returns, having put exactly the request's fragments, and then at most a cancel, on
      the link. */
  method CallThrough(caller: ModuleCaller, r: Request, polls: seq<Poll>, ghost h: Handler) returns (outcome: Outcome)
    requires r.budget == caller.budget
    requires GoesThrough(r, NextCorrelation(caller.correlation), h, caller.link.script, polls)
    modifies caller, caller.link
    ensures outcome == HandlersOutcome(r, h)
    ensures SendsOnly(r, caller.correlation, old(caller.link.script), outcome, old(caller.link.sent), caller.link.sent)
  {
    ghost var c, script, before := NextCorrelation(caller.correlation), caller.link.script, caller.link.sent;
    hide *;
    GoingCallFits(r, c, h, script, polls);
    SameRequest(r, caller.budget);
    outcome := caller.Call(r.kind, r.stageID, r.traceID, r.deadlineNS, r.body, polls);
    GoingCallSends(r, c, h, script, polls, outcome, before, caller.link.sent);
  }

  /** Such a call sends its request and nothing else, or, when it reports a failure, a cancel too. */
  lemma GoingCallSends(r: Request, c: U64, h: Handler, script: seq<Client.SendResult>, polls: seq<Poll>,
                       outcome: Outcome, before: seq<Packet>, sent: seq<Packet>)
    requires GoesThrough(r, c, h, script, polls)
    requires Concludes(r, c, script, polls, outcome, before, sent)
    ensures outcome == HandlersOutcome(r, h) && SendsOnly(r, c, script, outcome, before, sent)
  {
    hide Goes, Conclude, StreamOf, CancelOf;
    var cfg, steps, s' :| Goes(cfg, steps, s', r, c, h, script, polls);
    GoingCallEnds(cfg, steps, s', r, c, h, script, polls);
    FailureCancels(r, c, script, polls);
  }

  lemma SameRequest(r: Request, budget: U32)
    requires r.budget == budget
    ensures Request(r.kind, r.stageID, r.traceID, r.deadlineNS, r.body, budget) == r
  {
  }

  lemma GoingCallFits(r: Request, c: U64, h: Handler, script: seq<Client.SendResult>, polls: seq<Poll>)
    requires GoesThrough(r, c, h, script, polls)
    ensures AcceptsSize(|r.body|)
  {
    hide Conclude, HandlersOutcome, Goes;
    var cfg, steps, s' :| Goes(cfg, steps, s', r, c, h, script, polls);
    GoingCallEnds(cfg, steps, s', r, c, h, script, polls);
  }

  lemma FailureCancels(r: Request, c: U64, script: seq<Client.SendResult>, polls: seq<Poll>)
    ensures var end := Conclude(r, c, script, polls);
            end.fragments == StreamOf(r, c) ==>
              (end.outcome.Body? ==> end.cancel == [])
              && (end.outcome.StatusError? ==> end.cancel == CancelOf(r, c, script))
  {
    SendSucceeds(r, c, script);
    hide StreamOf, Await, Takes;
  }
}
