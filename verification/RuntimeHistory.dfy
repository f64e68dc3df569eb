/** What whole runs of the serving loop keep: what an assembly holds, and how many replies each
    request gets. */
module RuntimeHistory {
  import opened Bits
  import opened Bytes
  import opened Wrappers
  import opened ModuleProtocol
  import opened Fragments
  import opened Runtime

  // Reassembly.

  /** The fragment a verdict accepts. */
  function PieceOf(v: Verdict): Piece
    requires v.Absorbed? || v.Started?
  {
    Piece(v.part, v.Absorbed?)
  }

  /** The fragments of a correlation accepted since its last reset: a cancel, a refusal or a
      start. */
  function SinceReset(log: seq<Entry>, c: U64): seq<Piece> {
    if log == [] then []
    else
      var last, before := log[|log| - 1], SinceReset(log[..|log| - 1], c);
      if last.corr != c then before
      else if last.verdict.Absorbed? then before + [PieceOf(last.verdict)]
      else []
  }

  lemma SinceResetSnoc(log: seq<Entry>, e: Entry, c: U64)
    ensures SinceReset(log + [e], c) ==
              if e.corr != c then SinceReset(log, c)
              else if e.verdict.Absorbed? then SinceReset(log, c) + [PieceOf(e.verdict)]
              else []
  {
    assert (log + [e])[..|log|] == log;
  }

  ghost predicate Reassembled(s: State) {
    forall c: U64 ::
      && (c in s.assemblies <==> SinceReset(s.log, c) != [])
      && (c in s.assemblies ==> s.assemblies[c].body == Join(SinceReset(s.log, c)))
  }

  /** Every handler was given the fragments of its correlation since the last reset, the final
      one included. */
  ghost predicate StartsComplete(log: seq<Entry>) {
    forall i :: 0 <= i < |log| && log[i].verdict.Started? ==>
      log[i].verdict.assembly.body == Join(SinceReset(log[..i], log[i].corr) + [PieceOf(log[i].verdict)])
  }

  lemma JudgeGrows(cfg: Config, s: State, p: Packet, now: U64)
    ensures var v := Judge(cfg, s, p, now);
            v.Absorbed? || v.Started? ==>
              v.assembly.body == (if p.corr in s.assemblies then s.assemblies[p.corr].body else []) + v.part
  {
    hide IsCancel, IsRequest, HasMore, DecodeMessage, Invalid;
  }

  /** The state before an event and after it, for its own correlation and the others. */
  lemma EventFrame(cfg: Config, s: State, p: Packet, now: U64, fault: Option<nat>)
    ensures var t, v := OnEvent(cfg, s, p, now, fault), Judge(cfg, s, p, now);
            && (v.Ignored? ==> t == s)
            && (!v.Ignored? ==> t.log == s.log + [Entry(p.corr, v)])
            && (forall c :: c != p.corr ==>
                  (c in t.assemblies <==> c in s.assemblies)
                  && (c in s.assemblies ==> t.assemblies[c] == s.assemblies[c]))
            && (!v.Ignored? ==> (p.corr in t.assemblies <==> v.Absorbed?))
            && (v.Absorbed? ==> t.assemblies[p.corr] == v.assembly)
  {
    hide Judge, Reply;
    var v := Judge(cfg, s, p, now);
    match v {
      case Refused(a) =>
        ReplyFrame(cfg, s.(assemblies := Without(s.assemblies, p.corr), log := s.log + [Entry(p.corr, v)]), a, fault);
      case _ =>
    }
  }

  lemma EventReassembles(cfg: Config, s: State, p: Packet, now: U64, fault: Option<nat>)
    requires Reassembled(s) && StartsComplete(s.log)
    ensures Reassembled(OnEvent(cfg, s, p, now, fault))
    ensures StartsComplete(OnEvent(cfg, s, p, now, fault).log)
  {
    EventFrame(cfg, s, p, now, fault);
    JudgeGrows(cfg, s, p, now);
    hide Judge, OnEvent;
    var t, v := OnEvent(cfg, s, p, now, fault), Judge(cfg, s, p, now);
    if !v.Ignored? {
      var e := Entry(p.corr, v);
      if v.Absorbed? || v.Started? {
        JoinSnoc(SinceReset(s.log, p.corr), PieceOf(v));
      }
      forall c: U64
        ensures c in t.assemblies <==> SinceReset(t.log, c) != []
        ensures c in t.assemblies ==> t.assemblies[c].body == Join(SinceReset(t.log, c))
      {
        SinceResetSnoc(s.log, e, c);
      }
      StartsSnoc(s.log, e);
    }
  }

  lemma StartsSnoc(log: seq<Entry>, e: Entry)
    requires StartsComplete(log)
    requires e.verdict.Started? ==> e.verdict.assembly.body == Join(SinceReset(log, e.corr) + [PieceOf(e.verdict)])
    ensures StartsComplete(log + [e])
  {
    var t := log + [e];
    forall i | 0 <= i < |t| && t[i].verdict.Started?
      ensures t[i].verdict.assembly.body == Join(SinceReset(t[..i], t[i].corr) + [PieceOf(t[i].verdict)])
    {
      assert t[..i] == log[..i];
      assert i == |log| ==> log[..i] == log;
    }
  }

  lemma StepReassembles(cfg: Config, s: State, step: Step)
    requires Enabled(s, step) && Reassembled(s) && StartsComplete(s.log)
    ensures Reassembled(Take(cfg, s, step)) && StartsComplete(Take(cfg, s, step).log)
  {
    match step {
      case Receive(p, now, fault) =>
        EventReassembles(cfg, s, p, now, fault);
        hide *;
      case Finish(fault) =>
        var rest := s.(done := s.done[1..], jobs := Without(s.jobs, s.done[0].work.corr));
        ReplyFrame(cfg, rest, AnswerTo(s.done[0]), fault);
        hide Reply, StartsComplete;
      case _ =>
    }
  }

  /** In every reachable state an assembly's body is the concatenation of the fragments of its
      correlation accepted since its last reset, there is an assembly exactly when there are
      such fragments, and every handler started was given exactly them. */
  lemma {:induction false} RunReassembles(cfg: Config, s: State, steps: seq<Step>, s': State)
    requires Reassembled(s) && StartsComplete(s.log) && Reaches(cfg, s, steps, s')
    ensures Reassembled(s') && StartsComplete(s'.log)
    decreases |steps|
  {
    hide Reassembled, StartsComplete, Take, Enabled;
    if steps != [] {
      StepReassembles(cfg, s, steps[0]);
      RunReassembles(cfg, Take(cfg, s, steps[0]), steps[1..], s');
    }
  }

  // Reply accounting.

  function Answers(answered: seq<Answer>, c: U64): nat {
    if answered == [] then 0
    else Answers(answered[..|answered| - 1], c) + (if answered[|answered| - 1].corr == c then 1 else 0)
  }

  /** Requests of a correlation that were refused, or started as a job. */
  function Owed(log: seq<Entry>, c: U64): nat {
    if log == [] then 0
    else
      var last := log[|log| - 1];
      Owed(log[..|log| - 1], c)
      + (if last.corr == c && (last.verdict.Refused? || last.verdict.Started?) then 1 else 0)
  }

  function AllOwed(log: seq<Entry>): nat {
    if log == [] then 0
    else
      var last := log[|log| - 1];
      AllOwed(log[..|log| - 1]) + (if last.verdict.Refused? || last.verdict.Started? then 1 else 0)
  }

  /** The packets of a sequence of logical replies. */
  function Expand(answered: seq<Answer>, budget: U32): seq<Packet>
    requires BudgetOk(budget)
    requires forall i :: 0 <= i < |answered| ==> |answered[i].body| <= MAX_BODY
  {
    if answered == [] then []
    else
      Expand(answered[..|answered| - 1], budget) + ReplyStream(answered[|answered| - 1], budget)
  }

  function Live(s: State, c: U64): nat {
    if c in s.jobs then 1 else 0
  }

  /** Per correlation and in total: replies sent in full, plus live jobs, are the refusals plus
      the jobs started; and the packets sent are exactly those replies, one after another. */
  ghost predicate Balanced(cfg: Config, s: State) {
    && (forall c: U64 :: Answers(s.answered, c) + Live(s, c) == Owed(s.log, c))
    && |s.answered| + |s.jobs| == AllOwed(s.log)
    && Replied(cfg, s.answered, s.replies)
  }

  ghost predicate Replied(cfg: Config, answered: seq<Answer>, replies: seq<Packet>) {
    && BudgetOk(cfg.budget)
    && (forall i :: 0 <= i < |answered| ==>
          answered[i] == Normal(answered[i]) && |answered[i].body| <= MAX_BODY)
    && replies == Expand(answered, cfg.budget)
  }

  lemma CountSnoc(s: State, e: Entry, a: Answer, c: U64)
    ensures Owed(s.log + [e], c) ==
              Owed(s.log, c) + (if e.corr == c && (e.verdict.Refused? || e.verdict.Started?) then 1 else 0)
    ensures AllOwed(s.log + [e]) == AllOwed(s.log) + (if e.verdict.Refused? || e.verdict.Started? then 1 else 0)
    ensures Answers(s.answered + [a], c) == Answers(s.answered, c) + (if a.corr == c then 1 else 0)
  {
    assert (s.log + [e])[..|s.log|] == s.log;
    assert (s.answered + [a])[..|s.answered|] == s.answered;
  }

  lemma ExpandSnoc(answered: seq<Answer>, a: Answer, budget: U32)
    requires BudgetOk(budget) && |a.body| <= MAX_BODY
    requires forall i :: 0 <= i < |answered| ==> |answered[i].body| <= MAX_BODY
    ensures Expand(answered + [a], budget) == Expand(answered, budget) + ReplyStream(a, budget)
  {
    assert (answered + [a])[..|answered|] == answered;
  }

  lemma ReplyReplied(cfg: Config, s: State, a: Answer, fault: Option<nat>)
    requires s.phase.Serving? && Replied(cfg, s.answered, s.replies)
    ensures var t := Reply(cfg, s, a, fault); t.phase.Serving? ==> Replied(cfg, t.answered, t.replies)
  {
    hide Reply, ReplyStream;
    if Reply(cfg, s, a, fault).phase.Serving? {
      WholeReply(cfg, s, a, fault);
      ExpandSnoc(s.answered, Normal(a), cfg.budget);
    }
  }

  /** Sending one whole reply. `s` owes one more reply, to the answer's correlation, than it has
      sent or has live jobs for. */
  lemma ReplyBalances(cfg: Config, s: State, a: Answer, fault: Option<nat>)
    requires s.phase.Serving? && Replied(cfg, s.answered, s.replies)
    requires forall c: U64 :: Answers(s.answered, c) + Live(s, c) + (if c == a.corr then 1 else 0) == Owed(s.log, c)
    requires |s.answered| + |s.jobs| + 1 == AllOwed(s.log)
    ensures Reply(cfg, s, a, fault).phase.Serving? ==> Balanced(cfg, Reply(cfg, s, a, fault))
  {
    var t := Reply(cfg, s, a, fault);
    ReplyReplied(cfg, s, a, fault);
    if t.phase.Serving? {
      WholeReply(cfg, s, a, fault);
    }
    hide Reply, Replied, ReplyStream;
    forall c: U64
      ensures t.phase.Serving? ==> Answers(t.answered, c) + Live(t, c) == Owed(t.log, c)
    {
      CountSnoc(s, Entry(0, Ignored), Normal(a), c);
    }
  }

  lemma EventBalances(cfg: Config, s: State, p: Packet, now: U64, fault: Option<nat>)
    requires s.phase.Serving? && Balanced(cfg, s)
    ensures var t := OnEvent(cfg, s, p, now, fault); t.phase.Serving? ==> Balanced(cfg, t)
  {
    JudgeRoom(cfg, s, p, now);
    JudgeAnswers(cfg, s, p, now);
    hide Judge, Reply, Expand, Normal, Replied;
    var v := Judge(cfg, s, p, now);
    var e := Entry(p.corr, v);
    forall c: U64
      ensures Owed(s.log + [e], c) == Owed(s.log, c) + (if p.corr == c && (v.Refused? || v.Started?) then 1 else 0)
      ensures AllOwed(s.log + [e]) == AllOwed(s.log) + (if v.Refused? || v.Started? then 1 else 0)
    {
      CountSnoc(s, e, Answer(0, 0, 0, 0, 0, []), c);
    }
    assert AllOwed(s.log + [e]) == AllOwed(s.log) + (if v.Refused? || v.Started? then 1 else 0) by {
      CountSnoc(s, e, Answer(0, 0, 0, 0, 0, []), 0);
    }
    match v {
      case Ignored =>
      case CancelSeen =>
        assert CancelJob(s.jobs, p.corr).Keys == s.jobs.Keys;
        assert |CancelJob(s.jobs, p.corr).Keys| == |s.jobs.Keys|;
      case Refused(a) =>
        ReplyBalances(cfg, s.(assemblies := Without(s.assemblies, p.corr), log := s.log + [e]), a, fault);
      case Absorbed(a, _) =>
      case Started(a, _) => InsertSize(s.jobs, p.corr, Job(WorkFor(a, p.corr), false));
    }
  }

  lemma JudgeAnswers(cfg: Config, s: State, p: Packet, now: U64)
    ensures Judge(cfg, s, p, now).Refused? ==>
              var a := Judge(cfg, s, p, now).answer;
              && a.corr == p.corr && a.kind == p.kind && a.body == []
              && STATUS_OK < a.status <= STATUS_INTERNAL
              && (ConfigOk(cfg) ==> a.stageID != 0)
  {
    hide IsCancel, IsRequest, HasMore, DecodeMessage;
  }

  lemma PopLive(s: State)
    requires Inv(s) && s.done != []
    ensures var c := s.done[0].work.corr;
            && c in s.jobs && |Without(s.jobs, c)| == |s.jobs| - 1
            && forall k :: k in Without(s.jobs, c) <==> k in s.jobs && k != c
  {
    PopAccounted(s.jobs, s.running, s.done);
    hide Inv;
    WithoutSize(s.jobs, s.done[0].work.corr);
  }

  lemma FinishBalances(cfg: Config, s: State, fault: Option<nat>)
    requires Inv(s) && s.phase.Serving? && s.done != [] && Balanced(cfg, s)
    ensures var t := Take(cfg, s, Finish(fault)); t.phase.Serving? ==> Balanced(cfg, t)
  {
    hide Inv, Reply, Replied, Without;
    PopLive(s);
    var c := s.done[0].work.corr;
    var rest := s.(done := s.done[1..], jobs := Without(s.jobs, c));
    ReplyBalances(cfg, rest, AnswerTo(s.done[0]), fault);
  }

  lemma StepBalances(cfg: Config, s: State, step: Step)
    requires Inv(s) && Enabled(s, step) && s.phase.Serving? && Balanced(cfg, s)
    ensures Take(cfg, s, step).phase.Serving? ==> Balanced(cfg, Take(cfg, s, step))
  {
    match step {
      case Receive(p, now, fault) =>
        EventBalances(cfg, s, p, now, fault);
        hide *;
      case Finish(fault) =>
        FinishBalances(cfg, s, fault);
        hide Balanced, Reply;
      case _ =>
    }
  }

  /** Over any run that is still serving, every request that was refused or started is answered
      exactly once or is a live job, and every other request was absorbed without a reply. */
  lemma {:induction false} RunBalances(cfg: Config, s: State, steps: seq<Step>, s': State)
    requires Inv(s) && s.phase.Serving? && Balanced(cfg, s) && Reaches(cfg, s, steps, s')
    ensures s'.phase.Serving? ==> Balanced(cfg, s')
    decreases |steps|
  {
    hide Inv, Balanced, Enabled;
    if steps != [] {
      var next := Take(cfg, s, steps[0]);
      StepKeepsInv(cfg, s, steps[0]);
      StepBalances(cfg, s, steps[0]);
      if next.phase.Serving? {
        RunBalances(cfg, next, steps[1..], s');
      } else {
        NeverServesAgain(cfg, next, steps[1..], s');
      }
    }
  }

  lemma {:induction false} NeverServesAgain(cfg: Config, s: State, steps: seq<Step>, s': State)
    requires !s.phase.Serving? && Reaches(cfg, s, steps, s')
    ensures !s'.phase.Serving?
    decreases |steps|
  {
    if steps != [] {
      NeverServesAgain(cfg, Take(cfg, s, steps[0]), steps[1..], s');
    }
  }

  // Through shutdown.

  /** The results of a correlation that a run has drained without replying. */
  function DrainedFor(cfg: Config, s: State, steps: seq<Step>, c: U64): nat
    decreases |steps|
  {
    if steps == [] || !Enabled(s, steps[0]) then 0
    else
      (if steps[0].Drain? && s.done[0].work.corr == c then 1 else 0)
      + DrainedFor(cfg, Take(cfg, s, steps[0]), steps[1..], c)
  }

  /** The run left the loop, if it did, by its context or the host and not in the middle of a reply. */
  ghost predicate LeftInOrder(steps: seq<Step>) {
    exists i :: 0 <= i < |steps| && (steps[i].Shutdown? || steps[i].Leave?)
  }

  lemma {:induction false} NoLateExit(cfg: Config, s: State, steps: seq<Step>, s': State)
    requires !s.phase.Serving? && Reaches(cfg, s, steps, s')
    ensures !LeftInOrder(steps)
    decreases |steps|
  {
    if steps != [] {
      NoLateExit(cfg, Take(cfg, s, steps[0]), steps[1..], s');
      hide Take;
      assert forall i :: 1 <= i < |steps| ==> steps[i] == steps[1..][i - 1];
    }
  }

  lemma IdleStep(cfg: Config, s: State, step: Step)
    requires Inv(s) && !s.phase.Serving? && Enabled(s, step)
    ensures var t := Take(cfg, s, step);
            && t.answered == s.answered && t.log == s.log && t.replies == s.replies && !t.phase.Serving?
            && |t.jobs| + (if step.Drain? then 1 else 0) == |s.jobs|
            && forall c: U64 :: Live(t, c) + (if step.Drain? && s.done[0].work.corr == c then 1 else 0) == Live(s, c)
  {
    if step.Drain? {
      PopLive(s);
    }
    hide Inv, Without;
  }

  lemma {:induction false} AfterServing(cfg: Config, s: State, steps: seq<Step>, s': State)
    requires Inv(s) && !s.phase.Serving? && Reaches(cfg, s, steps, s')
    ensures s'.answered == s.answered && s'.log == s.log && s'.replies == s.replies
    ensures |s'.jobs| + Drains(steps) == |s.jobs|
    ensures forall c: U64 :: Live(s', c) + DrainedFor(cfg, s, steps, c) == Live(s, c)
    decreases |steps|
  {
    if steps != [] {
      IdleStep(cfg, s, steps[0]);
      StepKeepsInv(cfg, s, steps[0]);
      AfterServing(cfg, Take(cfg, s, steps[0]), steps[1..], s');
      hide Inv, Take, Live;
    }
  }

  /** Replies sent in full, live jobs and drained results together are the refusals and the jobs
      started, per correlation and in total; and the packets sent are those replies. */
  ghost predicate Settled(cfg: Config, s: State, steps: seq<Step>, s': State) {
    && (forall c: U64 :: Answers(s'.answered, c) + Live(s', c) + DrainedFor(cfg, s, steps, c) == Owed(s'.log, c))
    && |s'.answered| + |s'.jobs| + Drains(steps) == AllOwed(s'.log)
    && Replied(cfg, s'.answered, s'.replies)
  }

  /** The accounts of a whole run, shutdown included, as long as no reply was cut short. */
  lemma {:induction false} RunSettles(cfg: Config, s: State, steps: seq<Step>, s': State)
    requires Inv(s) && s.phase.Serving? && Balanced(cfg, s) && Reaches(cfg, s, steps, s')
    requires s'.phase.Serving? || LeftInOrder(steps)
    ensures Settled(cfg, s, steps, s')
    decreases |steps|
  {
    hide Inv, Answers, Owed, AllOwed, Replied;
    if steps == [] {
      return;
    }
    var next := Take(cfg, s, steps[0]);
    StepKeepsInv(cfg, s, steps[0]);
    if steps[0].Shutdown? || steps[0].Leave? {
      ExitBalances(cfg, s, steps[0]);
      AfterServing(cfg, next, steps[1..], s');
    } else {
      StepBalances(cfg, s, steps[0]);
      if !next.phase.Serving? {
        NoLateExit(cfg, next, steps[1..], s');
        NeverServesAgain(cfg, next, steps[1..], s');
      }
      LeftLater(steps);
      hide Take, Balanced, LeftInOrder;
      RunSettles(cfg, next, steps[1..], s');
    }
  }

  lemma LeftLater(steps: seq<Step>)
    requires steps != [] && !steps[0].Shutdown? && !steps[0].Leave?
    ensures LeftInOrder(steps) ==> LeftInOrder(steps[1..])
  {
    if LeftInOrder(steps) {
      var i :| 0 <= i < |steps| && (steps[i].Shutdown? || steps[i].Leave?);
      assert steps[1..][i - 1] == steps[i];
    }
  }

  lemma ExitBalances(cfg: Config, s: State, step: Step)
    requires s.phase.Serving? && (step.Shutdown? || step.Leave?) && Balanced(cfg, s)
    ensures !Take(cfg, s, step).phase.Serving? && Balanced(cfg, Take(cfg, s, step))
  {
    assert CancelAll(s.jobs).Keys == s.jobs.Keys;
    assert |CancelAll(s.jobs).Keys| == |s.jobs.Keys|;
    hide Replied, Answers, Owed, AllOwed;
  }

  /** The shape of one logical reply: a run of packets that announce more, closed by one that
      does not; and a failure is a single packet with an empty body. */
  lemma ReplyShape(a: Answer, budget: U32)
    requires BudgetOk(budget) && a == Normal(a)
    ensures var ps := ReplyStream(a, budget);
            && ps != []
            && (forall i :: 0 <= i < |ps| ==> (HasMore(ps[i]) <==> i < |ps| - 1))
            && (forall i :: 0 <= i < |ps| ==> ps[i].corr == a.corr && ps[i].kind == a.kind)
            && (a.status != STATUS_OK ==> |ps| == 1 && |ps[0].payload| == MESSAGE_HEADER_LEN)
  {
    var pieces := Pieces(a.body, Chunk(budget));
    PiecesJoin(a.body, Chunk(budget));
    forall i | 0 <= i < |pieces|
      ensures HasMore(ReplyStream(a, budget)[i]) <==> i < |pieces| - 1
    {
      PacketFlags(pieces[i].more);
    }
  }

  /** One event, one outcome: a request is absorbed and gets no reply, or refused and gets one
      whole reply at once, or started and gets none yet. */
  lemma RequestOutcome(cfg: Config, s: State, p: Packet, now: U64)
    requires s.phase.Serving? && IsRequest(p) && !IsCancel(p) && BudgetOk(cfg.budget) && ConfigOk(cfg)
    ensures var t, v := OnEvent(cfg, s, p, now, None), Judge(cfg, s, p, now);
            && (v.Absorbed? || v.Started? || v.Refused?)
            && t.log == s.log + [Entry(p.corr, v)]
            && t.answered == s.answered + (if v.Refused? then [v.answer] else [])
            && t.replies == s.replies + (if v.Refused? then ReplyStream(v.answer, cfg.budget) else [])
            && (v.Started? <==> p.corr in t.running && p.corr !in s.jobs && p.corr in t.jobs)
  {
    JudgeRequest(cfg, s, p, now);
    JudgeAnswers(cfg, s, p, now);
    JudgeRoom(cfg, s, p, now);
    hide Judge;
  }

  /** The request names a configured kind and that kind's stage, is an invocation, has no job yet,
      and continues the assembly there is, if any. */
  ghost predicate Belongs(cfg: Config, s: State, p: Packet, m: Message) {
    && p.kind in cfg.stages && m.operation == OP_INVOKE && m.stageID == cfg.stages[p.kind]
    && p.corr !in s.jobs
    && (p.corr in s.assemblies ==>
          var a := s.assemblies[p.corr];
          a.kind == p.kind && a.message.stageID == m.stageID
          && a.message.deadlineNS == m.deadlineNS && a.message.traceID == m.traceID)
  }

  /** There is an assembly for it or room for one, and its bytes still fit the body. */
  ghost predicate HasRoom(s: State, p: Packet, m: Message) {
    if p.corr in s.assemblies then |s.assemblies[p.corr].body| + m.bodyLen <= MAX_BODY
    else |s.assemblies| < MAX_IN_FLIGHT && m.bodyLen <= MAX_BODY
  }

  /** Why a request fragment is refused, and that it is not otherwise. */
  lemma RefusalReasons(cfg: Config, s: State, p: Packet, now: U64)
    requires ConfigOk(cfg) && IsRequest(p) && !IsCancel(p)
    ensures var v, m := Judge(cfg, s, p, now), DecodeMessage(p.payload);
            if m.None? || !Belongs(cfg, s, p, m.value) then
              && v.Refused? && v.answer.status == STATUS_INVALID_REQUEST && v.answer.traceID == 0
              && v.answer.stageID == if p.kind in cfg.stages then cfg.stages[p.kind] else 1
            else
              var d := m.value.deadlineNS;
              var expired := d != 0 && now != 0 && d <= now;
              && (v.Refused? ==> v.answer.stageID == m.value.stageID && v.answer.traceID == m.value.traceID)
              && (!HasRoom(s, p, m.value) ==> v.Refused? && v.answer.status == STATUS_INTERNAL)
              && (HasRoom(s, p, m.value) && HasMore(p) ==> v.Absorbed?)
              && (HasRoom(s, p, m.value) && !HasMore(p) ==>
                    && (expired ==> v.Refused? && v.answer.status == STATUS_DEADLINE_EXCEEDED)
                    && (!expired && !cfg.hasHandler ==> v.Refused? && v.answer.status == STATUS_CAPABILITY_ABSENT)
                    && (!expired && cfg.hasHandler && |s.jobs| >= MAX_IN_FLIGHT ==>
                          v.Refused? && v.answer.status == STATUS_INTERNAL)
                    && (!expired && cfg.hasHandler && |s.jobs| < MAX_IN_FLIGHT ==> v.Started?))
  {
    DecodedFits(p);
    hide IsCancel, IsRequest, HasMore, DecodeMessage;
  }

  lemma DecodedFits(p: Packet)
    ensures var m := DecodeMessage(p.payload); m.Some? ==> |BodyOf(p, m.value)| == m.value.bodyLen
  {
    if DecodeMessage(p.payload).Some? {
      DecodedHeader(p.payload);
    }
  }

  lemma JudgeRequest(cfg: Config, s: State, p: Packet, now: U64)
    requires IsRequest(p) && !IsCancel(p)
    ensures var v := Judge(cfg, s, p, now); v.Absorbed? || v.Started? || v.Refused?
  {
    hide IsCancel, IsRequest, HasMore, DecodeMessage, Invalid;
  }
}
