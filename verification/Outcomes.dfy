/** What becomes of a job: what its reply says when it was cancelled, when its deadline passed, and
    when neither happened, whatever else the bus carries in the meantime. */
module Outcomes {
  import opened Bits
  import opened Bytes
  import opened Wrappers
  import opened ModuleProtocol
  import opened Fragments
  import opened Runtime
  import opened Streams
  import RuntimeHistory

  /** Cancels and other events of c may come, but no further request. */
  ghost predicate NoRequests(steps: seq<Step>, c: U64) {
    forall i :: 0 <= i < |steps| ==> !Asks(steps[i], c)
  }

  ghost predicate Asks(step: Step, c: U64) {
    step.Receive? && step.p.corr == c && IsRequest(step.p) && !IsCancel(step.p)
  }

  /** The answer to a job. */
  function Reply(w: Work, status: U16, body: ByteSeq): Answer {
    Answer(w.kind, w.corr, w.invocation.stageID, w.invocation.traceID, status, body)
  }

  // A job that has ended.

  /** The job's result waits to be replied to, or has been: once. */
  ghost predicate Settling(v: View, result: ModuleResult, before: seq<Answer>) {
    && v.running == None
    && (v.job.Some? ==> v.results == [result] && v.answers == before)
    && (v.job.None? ==> v.results == [] && v.answers == before + [Normal(AnswerTo(result))])
  }

  /** An event of c that asks for nothing at most flags its job. */
  lemma OwnQuietEvent(cfg: Config, s: State, p: Packet, now: U64, fault: Option<nat>, c: U64)
    requires p.corr == c && !(IsRequest(p) && !IsCancel(p))
    ensures var was, v := ViewOf(s, c), ViewOf(OnEvent(cfg, s, p, now, fault), c);
            && v.running == was.running && v.results == was.results && v.answers == was.answers
            && (was.job.None? ==> v.job == None)
            && (was.job.Some? ==>
                  v.job == Some(was.job.value.(cancelled := was.job.value.cancelled || IsCancel(p))))
  {
    hide IsRequest, IsCancel, HasMore, DecodeMessage, VerdictsFor;
  }

  lemma SettlingStep(cfg: Config, s: State, step: Step, c: U64, result: ModuleResult, before: seq<Answer>)
    requires Inv(s) && Enabled(s, step) && s.phase.Serving? && Take(cfg, s, step).phase.Serving?
    requires !Asks(step, c) && Settling(ViewOf(s, c), result, before)
    ensures Settling(ViewOf(Take(cfg, s, step), c), result, before)
  {
    assert forall k :: k in s.jobs ==> s.jobs[k].work.corr == k;
    hide Inv, ViewOf;
    match step {
      case Receive(p, now, fault) =>
        if p.corr == c {
          OwnQuietEvent(cfg, s, p, now, fault, c);
        } else {
          OtherEvent(cfg, s, p, now, fault, c);
        }
        hide OnEvent, Normal;
      case HandlerReturns(corr, _, _, _) =>
        ReturnView(cfg, s, step, c);
        RunningInView(s, c);
        hide FinalResult;
      case Finish(fault) =>
        FinishView(cfg, s, fault, c);
        hide Runtime.Reply, Normal;
      case _ =>
    }
  }

  lemma RunningInView(s: State, c: U64)
    ensures ViewOf(s, c).running.Some? <==> c in s.running
    ensures ViewOf(s, c).job.Some? <==> c in s.jobs
    ensures c in s.running ==> ViewOf(s, c).running == Some(s.running[c])
    ensures c in s.jobs ==> ViewOf(s, c).job == Some(s.jobs[c])
  {
  }

  lemma {:induction false} SettlingRun(cfg: Config, s: State, steps: seq<Step>, s': State, c: U64,
                                       result: ModuleResult, before: seq<Answer>)
    requires Inv(s) && s.phase.Serving? && Reaches(cfg, s, steps, s') && s'.phase.Serving?
    requires NoRequests(steps, c) && Settling(ViewOf(s, c), result, before)
    ensures Settling(ViewOf(s', c), result, before)
    decreases |steps|
  {
    hide Inv, Settling, ViewOf, Take, Enabled, Asks;
    if steps != [] {
      var next, rest := Take(cfg, s, steps[0]), steps[1..];
      if !next.phase.Serving? {
        RuntimeHistory.NeverServesAgain(cfg, next, rest, s');
      }
      StepKeepsInv(cfg, s, steps[0]);
      SettlingStep(cfg, s, steps[0], c, result, before);
      SettlingRun(cfg, next, rest, s', c, result, before);
    }
  }

  lemma {:induction false} NoResults(done: seq<ModuleResult>, c: U64)
    requires c !in DoneCorrs(done)
    ensures ResultsFor(done, c) == []
  {
    if done != [] {
      assert forall i :: 0 <= i < |done[1..]| ==> done[1..][i] == done[i + 1];
      NoResults(done[1..], c);
    }
  }

  lemma RunningHasNoResults(s: State, c: U64)
    requires Inv(s) && c in s.running
    ensures c in s.jobs && s.jobs[c].work.corr == c && ViewOf(s, c).results == []
  {
    NoResults(s.done, c);
  }

  lemma ReturnSettles(cfg: Config, s: State, step: Step, c: U64)
    requires Inv(s) && step.HandlerReturns? && step.corr == c && Enabled(s, step)
    ensures var r := FinalResult(s.jobs[c], step.response, step.status, step.now);
            Settling(ViewOf(Take(cfg, s, step), c), r, AnswersFor(s.answered, c))
  {
    RunningHasNoResults(s, c);
    ReturnView(cfg, s, step, c);
    hide Inv, FinalResult, Normal;
  }

  /** A handler returns: over any continuation its job gets exactly one answer, which is what the
      return must come to, and has it once the job is gone. */
  lemma ReturnIsAnswered(cfg: Config, s: State, step: Step, steps: seq<Step>, s': State, c: U64)
    requires Inv(s) && s.phase.Serving? && step.HandlerReturns? && step.corr == c && Enabled(s, step)
    requires Reaches(cfg, Take(cfg, s, step), steps, s') && s'.phase.Serving? && NoRequests(steps, c)
    ensures forall r :: Reports(s.jobs[c], step.response, step.status, step.now, r) ==>
              AnswersFor(s'.answered, c) ==
                AnswersFor(s.answered, c) + if c in s'.jobs then [] else [Reply(r.work, r.status, r.body)]
  {
    ReturnFacts(cfg, s, step, c);
    var r := FinalResult(s.jobs[c], step.response, step.status, step.now);
    hide *;
    ReturnSettles(cfg, s, step, c);
    StepKeepsInv(cfg, s, step);
    SettlingRun(cfg, Take(cfg, s, step), steps, s', c, r, AnswersFor(s.answered, c));
    SettledAnswer(s', c, r, AnswersFor(s.answered, c));
  }

  lemma ReturnFacts(cfg: Config, s: State, step: Step, c: U64)
    requires Inv(s) && s.phase.Serving? && step.HandlerReturns? && step.corr == c && Enabled(s, step)
    ensures Take(cfg, s, step).phase.Serving? && c in s.jobs
    ensures forall r :: Reports(s.jobs[c], step.response, step.status, step.now, r) ==>
              r == FinalResult(s.jobs[c], step.response, step.status, step.now)
    ensures var r := FinalResult(s.jobs[c], step.response, step.status, step.now);
            Normal(AnswerTo(r)) == Reply(r.work, r.status, r.body)
  {
    FinalResultReports(s.jobs[c], step.response, step.status, step.now);
    hide Reports, Inv;
  }

  lemma SettledAnswer(s: State, c: U64, result: ModuleResult, before: seq<Answer>)
    requires Settling(ViewOf(s, c), result, before)
    ensures AnswersFor(s.answered, c) == before + if c in s.jobs then [] else [Normal(AnswerTo(result))]
  {
    hide Normal, AnswersFor;
  }

  // A job that is cancelled first.

  /** The job is flagged and its handler still running. */
  ghost predicate Doomed(v: View, w: Work, before: seq<Answer>) {
    v.job == Some(Job(w, true)) && v.running.Some? && v.results == [] && v.answers == before
  }

  lemma DoomedStep(cfg: Config, s: State, step: Step, c: U64, w: Work, before: seq<Answer>)
    requires Inv(s) && Enabled(s, step) && s.phase.Serving? && Take(cfg, s, step).phase.Serving?
    requires !Asks(step, c) && Doomed(ViewOf(s, c), w, before)
    ensures var v := ViewOf(Take(cfg, s, step), c);
            Doomed(v, w, before) || Settling(v, ModuleResult(w, [], STATUS_CANCELLED), before)
  {
    assert forall k :: k in s.jobs ==> s.jobs[k].work.corr == k;
    RunningInView(s, c);
    hide Inv, ViewOf;
    match step {
      case Receive(p, now, fault) =>
        if p.corr == c {
          OwnQuietEvent(cfg, s, p, now, fault, c);
        } else {
          OtherEvent(cfg, s, p, now, fault, c);
        }
        hide OnEvent, Normal;
      case HandlerReturns(corr, response, status, now) =>
        ReturnView(cfg, s, step, c);
        if corr == c {
          FinalResultReports(s.jobs[c], response, status, now);
        }
        hide FinalResult;
      case Finish(fault) =>
        FinishView(cfg, s, fault, c);
        hide Runtime.Reply, Normal;
      case _ =>
    }
  }

  lemma {:induction false} DoomedRun(cfg: Config, s: State, steps: seq<Step>, s': State, c: U64,
                                     w: Work, before: seq<Answer>)
    requires Inv(s) && s.phase.Serving? && Reaches(cfg, s, steps, s') && s'.phase.Serving?
    requires NoRequests(steps, c) && Doomed(ViewOf(s, c), w, before)
    ensures var v := ViewOf(s', c);
            Doomed(v, w, before) || Settling(v, ModuleResult(w, [], STATUS_CANCELLED), before)
    decreases |steps|
  {
    hide Inv, Settling, Doomed, ViewOf, Take, Enabled, Asks;
    if steps != [] {
      var next, rest := Take(cfg, s, steps[0]), steps[1..];
      if !next.phase.Serving? {
        RuntimeHistory.NeverServesAgain(cfg, next, rest, s');
      }
      StepKeepsInv(cfg, s, steps[0]);
      DoomedStep(cfg, s, steps[0], c, w, before);
      if Doomed(ViewOf(next, c), w, before) {
        DoomedRun(cfg, next, rest, s', c, w, before);
      } else {
        SettlingRun(cfg, next, rest, s', c, ModuleResult(w, [], STATUS_CANCELLED), before);
      }
    }
  }

  lemma CancelDooms(cfg: Config, s: State, p: Packet, now: U64, fault: Option<nat>, c: U64)
    requires Inv(s) && c in s.running && p.corr == c && IsCancel(p)
    ensures c in s.jobs && Doomed(ViewOf(OnEvent(cfg, s, p, now, fault), c), s.jobs[c].work, AnswersFor(s.answered, c))
  {
    RunningHasNoResults(s, c);
    RunningInView(s, c);
    OwnQuietEvent(cfg, s, p, now, fault, c);
    hide Inv, OnEvent, IsCancel, IsRequest;
  }

  lemma CancelServes(cfg: Config, s: State, p: Packet, now: U64, fault: Option<nat>)
    requires s.phase.Serving? && IsCancel(p)
    ensures OnEvent(cfg, s, p, now, fault).phase.Serving?
  {
  }

  /** A cancel arrives while the handler is running. From then on, whatever else the bus carries and
      whatever the handler returns and when, the job gets exactly one answer, "cancelled" without a
      body, and has it once it is gone; and until its handler returns the handler can see the flag. */
  lemma CancelIsAnswered(cfg: Config, s: State, p: Packet, now: U64, fault: Option<nat>,
                         steps: seq<Step>, s': State, c: U64)
    requires Inv(s) && s.phase.Serving? && c in s.running && p.corr == c && IsCancel(p)
    requires Reaches(cfg, s, [Receive(p, now, fault)] + steps, s') && s'.phase.Serving? && NoRequests(steps, c)
    ensures c in s.jobs
    ensures AnswersFor(s'.answered, c) ==
              AnswersFor(s.answered, c)
              + if c in s'.jobs then [] else [Reply(s.jobs[c].work, STATUS_CANCELLED, [])]
    ensures c in s'.running ==> c in s'.jobs && s'.jobs[c] == Job(s.jobs[c].work, true)
  {
    hide Inv, OnEvent, IsCancel, NoRequests, Take, AnswersFor;
    var step := Receive(p, now, fault);
    var t := OnEvent(cfg, s, p, now, fault);
    assert ([step] + steps)[1..] == steps;
    ReceiveIsEvent(cfg, s, step);
    CancelServes(cfg, s, p, now, fault);
    CancelDooms(cfg, s, p, now, fault, c);
    StepKeepsInv(cfg, s, step);
    DoomedRun(cfg, t, steps, s', c, s.jobs[c].work, AnswersFor(s.answered, c));
    DoomedAnswer(s', c, s.jobs[c].work, AnswersFor(s.answered, c));
  }

  lemma ReceiveIsEvent(cfg: Config, s: State, step: Step)
    requires step.Receive? && s.phase.Serving?
    ensures Enabled(s, step) && Take(cfg, s, step) == OnEvent(cfg, s, step.p, step.now, step.fault)
  {
    hide OnEvent;
  }

  lemma DoomedAnswer(s: State, c: U64, w: Work, before: seq<Answer>)
    requires var v := ViewOf(s, c);
             Doomed(v, w, before) || Settling(v, ModuleResult(w, [], STATUS_CANCELLED), before)
    ensures AnswersFor(s.answered, c) == before + if c in s.jobs then [] else [Reply(w, STATUS_CANCELLED, [])]
    ensures c in s.running ==> c in s.jobs && s.jobs[c] == Job(w, true)
  {
    RunningInView(s, c);
    assert Normal(AnswerTo(ModuleResult(w, [], STATUS_CANCELLED))) == Reply(w, STATUS_CANCELLED, []);
    hide AnswersFor, ResultsFor, VerdictsFor;
  }

  /** The whole story of a cancelled call: its stream, then a cancel while its handler is running,
      and no further request, among any other traffic. It is started once with the request's bytes,
      seen cancelled, and answered "cancelled", once, when its job is gone. */
  lemma CancelledCall(cfg: Config, first: seq<Step>, s: State, p: Packet, now: U64, fault: Option<nat>,
                      steps: seq<Step>, s': State, r: Request, c: U64, h: Handler)
    requires CallOk(cfg, r, c) && Reaches(cfg, INITIAL, first, s) && s.phase.Serving?
    requires Undisturbed(cfg, INITIAL, first, r, c, h) && Arrivals(first, c) == RequestStream(r, c)
    requires c in s.running && p.corr == c && IsCancel(p)
    requires Reaches(cfg, s, [Receive(p, now, fault)] + steps, s') && s'.phase.Serving? && NoRequests(steps, c)
    ensures Served(s, r, c, h)
    ensures AnswersFor(s'.answered, c) ==
              if c in s'.jobs then [] else [Answer(r.kind, c, r.stageID, r.traceID, STATUS_CANCELLED, [])]
  {
    StreamIsServed(cfg, first, s, r, c, h);
    InitialInv();
    RunKeepsInv(cfg, INITIAL, first, s);
    hide Inv, Reaches, Undisturbed, RequestStream, IsCancel, NoRequests, CallOk, ResultOf;
    CancelIsAnswered(cfg, s, p, now, fault, steps, s', c);
  }

  /** And of a call whose handler returns too late, on a clock that works. */
  lemma LateCall(cfg: Config, first: seq<Step>, s: State, step: Step, steps: seq<Step>, s': State,
                 r: Request, c: U64, h: Handler)
    requires CallOk(cfg, r, c) && Reaches(cfg, INITIAL, first, s) && s.phase.Serving?
    requires Undisturbed(cfg, INITIAL, first, r, c, h) && Arrivals(first, c) == RequestStream(r, c)
    requires step.HandlerReturns? && step.corr == c && Enabled(s, step)
    requires step.now != 0 && r.deadlineNS != 0 && r.deadlineNS <= step.now
    requires Reaches(cfg, Take(cfg, s, step), steps, s') && s'.phase.Serving? && NoRequests(steps, c)
    ensures AnswersFor(s'.answered, c) ==
              if c in s'.jobs then []
              else [Answer(r.kind, c, r.stageID, r.traceID, STATUS_DEADLINE_EXCEEDED, [])]
  {
    StreamIsServed(cfg, first, s, r, c, h);
    InitialInv();
    RunKeepsInv(cfg, INITIAL, first, s);
    var result := ModuleResult(JobOf(r, c).work, [], STATUS_DEADLINE_EXCEEDED);
    assert s.jobs[c] == JobOf(r, c) && Reports(s.jobs[c], step.response, step.status, step.now, result);
    hide Inv, Reaches, Undisturbed, RequestStream, NoRequests, CallOk, ResultOf, Take, Reports;
    ReturnIsAnswered(cfg, s, step, steps, s', c);
  }
}
