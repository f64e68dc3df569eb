/** The module serving loop as a state machine: one polled event, one finished job, one handler
    return, or one step of shutdown at a time. Handlers run concurrently, so their returns
    interleave with everything else. */
module Runtime {
  import opened Bits
  import opened Bytes
  import opened Wrappers
  import opened ModuleProtocol
  import opened Fragments

  const MAX_IN_FLIGHT := 16

  /** The stage table (event kind to stage), whether a handler is configured, and the client's
      inline budget. */
  datatype Config = Config(stages: map<U32, U32>, hasHandler: bool, budget: U32)

  ghost predicate ConfigOk(cfg: Config) {
    forall k :: k in cfg.stages ==> k != 0 && cfg.stages[k] != 0
  }

  datatype Assembly = Assembly(kind: U32, message: Message, body: ByteSeq)
  datatype Invocation = Invocation(stageID: U32, deadlineNS: U64, traceID: U64)
  type Handler = (Invocation, ByteSeq) -> (ByteSeq, U16)
  datatype Work = Work(kind: U32, corr: U64, invocation: Invocation)
  datatype Job = Job(work: Work, cancelled: bool)
  datatype ModuleResult = ModuleResult(work: Work, body: ByteSeq, status: U16)

  /** What the loop decides about one event. */
  datatype Verdict =
    | Ignored
    | CancelSeen
    | Refused(answer: Answer)
    | Absorbed(assembly: Assembly, part: ByteSeq)
    | Started(assembly: Assembly, part: ByteSeq)

  datatype Entry = Entry(corr: U64, verdict: Verdict)

  datatype Phase = Serving | Draining | Returned

  /** `running` holds the handlers in flight with the body each was given, `done` the channel of
      their results. `replies` is every packet sent, `answered` the replies sent in full, and
      `log` the verdicts on cancels and requests so far: history, which no step reads. */
  datatype State = State(
    assemblies: map<U64, Assembly>, jobs: map<U64, Job>,
    running: map<U64, ByteSeq>, done: seq<ModuleResult>,
    replies: seq<Packet>, answered: seq<Answer>, log: seq<Entry>, phase: Phase)

  const INITIAL := State(map[], map[], map[], [], [], [], [], Serving)

  /** `fault` is the number of fragments of a reply that go out before the bus fails. */
  datatype Step =
    | Receive(p: Packet, now: U64, fault: Option<nat>)
    | HandlerReturns(corr: U64, response: ByteSeq, status: U16, now: U64)
    | Finish(fault: Option<nat>)
    | Shutdown
    | Drain
    | Leave

  // Replies.

  /** A reply never carries an unknown status, an oversized body, or a body with a failure. */
  function Normal(a: Answer): (r: Answer)
    ensures |r.body| <= MAX_BODY && r.status <= STATUS_INTERNAL
    ensures r.status != STATUS_OK ==> r.body == []
  {
    if a.status > STATUS_INTERNAL || |a.body| > MAX_BODY then a.(status := STATUS_INTERNAL, body := [])
    else if a.status != STATUS_OK then a.(body := [])
    else a
  }

  /** An answer goes out in full, or the loop returns: at once when the budget leaves no room for
      a body or the header cannot be encoded, or after `fault` fragments. */
  function Reply(cfg: Config, s: State, a: Answer, fault: Option<nat>): State {
    if !BudgetOk(cfg.budget) || a.stageID == 0 then s.(phase := Returned)
    else
      var ps := ReplyStream(Normal(a), cfg.budget);
      if fault.Some? && fault.value < |ps| then
        s.(replies := s.replies + ps[..fault.value], phase := Returned)
      else
        s.(replies := s.replies + ps, answered := s.answered + [Normal(a)])
  }

  /** A loop that goes on has sent the whole reply. */
  lemma WholeReply(cfg: Config, s: State, a: Answer, fault: Option<nat>)
    requires s.phase.Serving? && Reply(cfg, s, a, fault).phase.Serving?
    ensures BudgetOk(cfg.budget) && a.stageID != 0
    ensures Reply(cfg, s, a, fault) ==
              s.(replies := s.replies + ReplyStream(Normal(a), cfg.budget), answered := s.answered + [Normal(a)])
  {
    hide ReplyStream;
  }

  /** And conversely, without a fault the whole reply goes out. */
  lemma FaultlessReply(cfg: Config, s: State, a: Answer)
    requires s.phase.Serving? && BudgetOk(cfg.budget) && a.stageID != 0
    ensures Reply(cfg, s, a, None) ==
              s.(replies := s.replies + ReplyStream(Normal(a), cfg.budget), answered := s.answered + [Normal(a)])
  {
    hide ReplyStream;
  }

  lemma PartialReply(cfg: Config, s: State, a: Answer, n: nat)
    requires BudgetOk(cfg.budget) && a.stageID != 0 && n < |ReplyStream(Normal(a), cfg.budget)|
    ensures Reply(cfg, s, a, Some(n)) ==
              s.(replies := s.replies + ReplyStream(Normal(a), cfg.budget)[..n], phase := Returned)
  {
    hide ReplyStream;
  }

  // Events.

  function StageFor(cfg: Config, kind: U32): U32 {
    if kind in cfg.stages then cfg.stages[kind] else 0
  }

  predicate SameRun(a: Assembly, kind: U32, m: Message) {
    a.kind == kind && a.message.stageID == m.stageID
    && a.message.deadlineNS == m.deadlineNS && a.message.traceID == m.traceID
  }

  predicate Invalid(cfg: Config, s: State, p: Packet) {
    var m := DecodeMessage(p.payload);
    || StageFor(cfg, p.kind) == 0 || m.None? || m.value.operation != OP_INVOKE
    || m.value.stageID != StageFor(cfg, p.kind) || p.corr in s.jobs
    || (p.corr in s.assemblies && !SameRun(s.assemblies[p.corr], p.kind, m.value))
  }

  function Refusal(p: Packet, stageID: U32, traceID: U64, status: U16): Verdict {
    Refused(Answer(p.kind, p.corr, stageID, traceID, status, []))
  }

  function BodyOf(p: Packet, m: Message): ByteSeq
    requires DecodeMessage(p.payload) == Some(m)
  {
    p.payload[MESSAGE_HEADER_LEN..MESSAGE_HEADER_LEN + m.bodyLen]
  }

  function Judge(cfg: Config, s: State, p: Packet, now: U64): Verdict {
    var stage := StageFor(cfg, p.kind);
    if IsCancel(p) then CancelSeen
    else if !IsRequest(p) then Ignored
    else if Invalid(cfg, s, p) then Refusal(p, if stage == 0 then 1 else stage, 0, STATUS_INVALID_REQUEST)
    else
      var m := DecodeMessage(p.payload).value;
      if p.corr !in s.assemblies && |s.assemblies| >= MAX_IN_FLIGHT then
        Refusal(p, stage, m.traceID, STATUS_INTERNAL)
      else
        var a := if p.corr in s.assemblies then s.assemblies[p.corr] else Assembly(p.kind, m, []);
        var part := BodyOf(p, m);
        if |a.body| + |part| > MAX_BODY then Refusal(p, stage, m.traceID, STATUS_INTERNAL)
        else
          var grown := a.(body := a.body + part);
          if HasMore(p) then Absorbed(grown, part)
          else if m.DeadlineExpired(now) then Refusal(p, stage, m.traceID, STATUS_DEADLINE_EXCEEDED)
          else if !cfg.hasHandler then Refusal(p, stage, m.traceID, STATUS_CAPABILITY_ABSENT)
          else if |s.jobs| >= MAX_IN_FLIGHT then Refusal(p, stage, m.traceID, STATUS_INTERNAL)
          else Started(grown, part)
  }

  function WorkFor(a: Assembly, corr: U64): Work {
    Work(a.kind, corr, Invocation(a.message.stageID, a.message.deadlineNS, a.message.traceID))
  }

  function CancelJob(jobs: map<U64, Job>, corr: U64): map<U64, Job> {
    if corr in jobs then jobs[corr := jobs[corr].(cancelled := true)] else jobs
  }

  function OnEvent(cfg: Config, s: State, p: Packet, now: U64, fault: Option<nat>): State {
    var v := Judge(cfg, s, p, now);
    var rest := Without(s.assemblies, p.corr);
    var log := s.log + [Entry(p.corr, v)];
    match v
    case Ignored => s
    case CancelSeen => s.(jobs := CancelJob(s.jobs, p.corr), assemblies := rest, log := log)
    case Refused(a) => Reply(cfg, s.(assemblies := rest, log := log), a, fault)
    case Absorbed(a, _) => s.(assemblies := s.assemblies[p.corr := a], log := log)
    case Started(a, _) =>
      s.(assemblies := rest, log := log,
         jobs := s.jobs[p.corr := Job(WorkFor(a, p.corr), false)],
         running := s.running[p.corr := a.body])
  }

  // Handlers.

  /** What runHandler reports: the handler's own outcome, overridden by a cancel or an expired
      deadline. */
  function FinalResult(job: Job, response: ByteSeq, status: U16, now: U64): ModuleResult {
    var own :=
      if status > STATUS_INTERNAL || |response| > MAX_BODY then ModuleResult(job.work, [], STATUS_INTERNAL)
      else if status != STATUS_OK then ModuleResult(job.work, [], status)
      else ModuleResult(job.work, response, status);
    var deadline := job.work.invocation.deadlineNS;
    if job.cancelled then ModuleResult(job.work, [], STATUS_CANCELLED)
    else if deadline != 0 && now != 0 && now >= deadline then
      ModuleResult(job.work, [], STATUS_DEADLINE_EXCEEDED)
    else own
  }

  predicate Late(job: Job, now: U64) {
    var deadline := job.work.invocation.deadlineNS;
    deadline != 0 && now != 0 && deadline <= now
  }

  /** What a handler's end must come to: a cancel counts before a passed deadline, and that before
      the handler's own outcome, of which only an OK one keeps its body. */
  ghost predicate Reports(job: Job, response: ByteSeq, status: U16, now: U64, r: ModuleResult) {
    var sound := status <= STATUS_INTERNAL && |response| <= MAX_BODY;
    && r.work == job.work
    && (r.status != STATUS_OK ==> r.body == [])
    && (job.cancelled ==> r.status == STATUS_CANCELLED)
    && (!job.cancelled && Late(job, now) ==> r.status == STATUS_DEADLINE_EXCEEDED)
    && (!job.cancelled && !Late(job, now) ==> r.status == if sound then status else STATUS_INTERNAL)
    && (!job.cancelled && !Late(job, now) && sound && status == STATUS_OK ==> r.body == response)
  }

  lemma FinalResultReports(job: Job, response: ByteSeq, status: U16, now: U64)
    ensures Reports(job, response, status, now, FinalResult(job, response, status, now))
    ensures forall r :: Reports(job, response, status, now, r) ==> r == FinalResult(job, response, status, now)
  {
  }

  function AnswerTo(r: ModuleResult): Answer {
    Answer(r.work.kind, r.work.corr, r.work.invocation.stageID, r.work.invocation.traceID, r.status, r.body)
  }

  function CancelAll(jobs: map<U64, Job>): map<U64, Job> {
    map c | c in jobs :: jobs[c].(cancelled := true)
  }

  predicate Enabled(s: State, step: Step) {
    match step
    case Receive(_, _, _) => s.phase.Serving?
    case HandlerReturns(corr, _, _, _) => corr in s.running && corr in s.jobs && |s.done| < MAX_IN_FLIGHT
    case Finish(_) => s.phase.Serving? && s.done != []
    case Shutdown => s.phase.Serving?
    case Drain => s.phase.Draining? && s.done != []
    case Leave => s.phase.Serving?
  }

  function Take(cfg: Config, s: State, step: Step): State
    requires Enabled(s, step)
  {
    match step
    case Receive(p, now, fault) => OnEvent(cfg, s, p, now, fault)
    case HandlerReturns(corr, response, status, now) =>
      s.(running := Without(s.running, corr),
         done := s.done + [FinalResult(s.jobs[corr], response, status, now)])
    case Finish(fault) =>
      var r := s.done[0];
      Reply(cfg, s.(done := s.done[1..], jobs := Without(s.jobs, r.work.corr)), AnswerTo(r), fault)
    case Shutdown =>
      s.(jobs := CancelAll(s.jobs), phase := if s.jobs == map[] then Returned else Draining)
    case Drain =>
      var left := Without(s.jobs, s.done[0].work.corr);
      s.(done := s.done[1..], jobs := left, phase := if left == map[] then Returned else Draining)
    case Leave => s.(phase := Returned)
  }

  // The invariant.

  ghost function DoneCorrs(done: seq<ModuleResult>): set<U64> {
    set i | 0 <= i < |done| :: done[i].work.corr
  }

  ghost predicate DistinctDone(done: seq<ModuleResult>) {
    forall i, j :: 0 <= i < j < |done| ==> done[i].work.corr != done[j].work.corr
  }

  /** Every job is either running or finished and queued, never both: a bijection. */
  ghost predicate Accounted(jobs: map<U64, Job>, running: map<U64, ByteSeq>, done: seq<ModuleResult>) {
    && DistinctDone(done)
    && running.Keys !! DoneCorrs(done)
    && running.Keys + DoneCorrs(done) == jobs.Keys
    && (forall c :: c in jobs ==> jobs[c].work.corr == c)
    && WorksMatch(jobs, done)
  }

  ghost predicate WorksMatch(jobs: map<U64, Job>, done: seq<ModuleResult>) {
    forall i :: 0 <= i < |done| ==> done[i].work.corr in jobs && done[i].work == jobs[done[i].work.corr].work
  }

  ghost predicate Inv(s: State) {
    && s.assemblies.Keys !! s.jobs.Keys
    && |s.assemblies| <= MAX_IN_FLIGHT
    && |s.jobs| <= MAX_IN_FLIGHT
    && (forall c :: c in s.assemblies ==> |s.assemblies[c].body| <= MAX_BODY)
    && Accounted(s.jobs, s.running, s.done)
    && (s.phase.Draining? ==> s.jobs != map[])
  }

  lemma DoneSnoc(done: seq<ModuleResult>, r: ModuleResult)
    ensures DoneCorrs(done + [r]) == DoneCorrs(done) + {r.work.corr}
  {
    var t := done + [r];
    assert t[|done|] == r && forall i :: 0 <= i < |done| ==> t[i] == done[i];
  }

  lemma DoneTail(done: seq<ModuleResult>)
    requires done != [] && DistinctDone(done)
    ensures DistinctDone(done[1..])
    ensures DoneCorrs(done) == DoneCorrs(done[1..]) + {done[0].work.corr}
    ensures done[0].work.corr !in DoneCorrs(done[1..])
  {
    var t := done[1..];
    assert forall i :: 0 <= i < |t| ==> t[i] == done[i + 1];
    assert forall i :: 1 <= i < |done| ==> done[i] == t[i - 1];
  }

  lemma StartAccounted(jobs: map<U64, Job>, running: map<U64, ByteSeq>, done: seq<ModuleResult>,
                       corr: U64, job: Job, body: ByteSeq)
    requires Accounted(jobs, running, done) && corr !in jobs && job.work.corr == corr
    ensures Accounted(jobs[corr := job], running[corr := body], done)
  {
    assert jobs[corr := job].Keys == jobs.Keys + {corr};
    assert running[corr := body].Keys == running.Keys + {corr};
  }

  lemma SnocWorks(jobs: map<U64, Job>, done: seq<ModuleResult>, r: ModuleResult)
    requires DistinctDone(done) && WorksMatch(jobs, done) && r.work.corr !in DoneCorrs(done)
    requires r.work.corr in jobs && r.work == jobs[r.work.corr].work
    ensures DistinctDone(done + [r]) && WorksMatch(jobs, done + [r])
  {
    var t := done + [r];
    forall i, j | 0 <= i < j < |t|
      ensures t[i].work.corr != t[j].work.corr
    {
      assert i < |done| && done[i].work.corr in DoneCorrs(done);
    }
  }

  lemma ReturnAccounted(jobs: map<U64, Job>, running: map<U64, ByteSeq>, done: seq<ModuleResult>,
                        corr: U64, r: ModuleResult)
    requires Accounted(jobs, running, done) && corr in running && corr in jobs && r.work == jobs[corr].work
    ensures Accounted(jobs, Without(running, corr), done + [r])
  {
    hide DistinctDone, WorksMatch, DoneCorrs;
    WithoutSize(running, corr);
    DoneSnoc(done, r);
    SnocWorks(jobs, done, r);
    assert Without(running, corr).Keys == running.Keys - {corr};
  }

  lemma PopWorks(jobs: map<U64, Job>, done: seq<ModuleResult>)
    requires WorksMatch(jobs, done) && done != [] && DistinctDone(done)
    ensures WorksMatch(Without(jobs, done[0].work.corr), done[1..])
  {
    var t := done[1..];
    forall i | 0 <= i < |t|
      ensures t[i].work.corr in Without(jobs, done[0].work.corr)
      ensures t[i].work == Without(jobs, done[0].work.corr)[t[i].work.corr].work
    {
      assert t[i] == done[i + 1];
    }
  }

  lemma PopAccounted(jobs: map<U64, Job>, running: map<U64, ByteSeq>, done: seq<ModuleResult>)
    requires Accounted(jobs, running, done) && done != []
    ensures done[0].work.corr in jobs
    ensures Accounted(Without(jobs, done[0].work.corr), running, done[1..])
  {
    var c, t := done[0].work.corr, done[1..];
    DoneTail(done);
    PopWorks(jobs, done);
    assert c in jobs;
    hide DistinctDone, WorksMatch, DoneCorrs;
    PopKeys(running.Keys, DoneCorrs(t), jobs.Keys, c);
    WithoutSize(jobs, c);
  }

  lemma PopKeys(running: set<U64>, rest: set<U64>, jobs: set<U64>, c: U64)
    requires running !! (rest + {c}) && c !in rest && running + (rest + {c}) == jobs
    ensures running !! rest && running + rest == jobs - {c}
  {
  }

  lemma FlagsAccounted(jobs: map<U64, Job>, jobs': map<U64, Job>, running: map<U64, ByteSeq>,
                       done: seq<ModuleResult>)
    requires Accounted(jobs, running, done)
    requires jobs'.Keys == jobs.Keys && forall c :: c in jobs ==> jobs'[c].work == jobs[c].work
    ensures Accounted(jobs', running, done)
  {
  }

  lemma InitialInv()
    ensures Inv(INITIAL)
  {
  }

  lemma WithoutSize<V>(m: map<U64, V>, c: U64)
    ensures Without(m, c).Keys == m.Keys - {c}
    ensures |Without(m, c)| == if c in m then |m| - 1 else |m|
  {
    assert Without(m, c).Keys == m.Keys - {c};
  }

  lemma InsertSize<V>(m: map<U64, V>, c: U64, v: V)
    ensures |m[c := v]| == if c in m then |m| else |m| + 1
  {
    assert m[c := v].Keys == m.Keys + {c};
  }

  lemma ReplyFrame(cfg: Config, s: State, a: Answer, fault: Option<nat>)
    ensures var t := Reply(cfg, s, a, fault);
            && t.assemblies == s.assemblies && t.jobs == s.jobs && t.running == s.running
            && t.done == s.done && t.log == s.log && (t.phase == s.phase || t.phase == Returned)
  {
  }

  lemma JudgeRoom(cfg: Config, s: State, p: Packet, now: U64)
    ensures Judge(cfg, s, p, now).Absorbed? ==>
              var a := Judge(cfg, s, p, now).assembly;
              && p.corr !in s.jobs && |a.body| <= MAX_BODY
              && (p.corr in s.assemblies || |s.assemblies| < MAX_IN_FLIGHT)
    ensures Judge(cfg, s, p, now).Started? ==>
              p.corr !in s.jobs && |s.jobs| < MAX_IN_FLIGHT
  {
    hide IsCancel, IsRequest, HasMore, DecodeMessage;
  }

  lemma DropAssemblyKeepsInv(s: State, corr: U64, log: seq<Entry>)
    requires Inv(s)
    ensures Inv(s.(assemblies := Without(s.assemblies, corr), log := log))
  {
    WithoutSize(s.assemblies, corr);
  }

  lemma StartKeepsInv(s: State, corr: U64, job: Job, body: ByteSeq)
    requires Inv(s) && s.phase.Serving?
    requires corr !in s.assemblies && corr !in s.jobs && |s.jobs| < MAX_IN_FLIGHT && job.work.corr == corr
    ensures Inv(s.(jobs := s.jobs[corr := job], running := s.running[corr := body]))
  {
    hide Accounted;
    InsertSize(s.jobs, corr, job);
    StartAccounted(s.jobs, s.running, s.done, corr, job, body);
  }

  lemma CancelKeepsInv(s: State, corr: U64)
    requires Inv(s)
    ensures Inv(s.(jobs := CancelJob(s.jobs, corr)))
  {
    hide Accounted;
    if corr in s.jobs {
      InsertSize(s.jobs, corr, s.jobs[corr].(cancelled := true));
      assert CancelJob(s.jobs, corr).Keys == s.jobs.Keys;
    }
    FlagsAccounted(s.jobs, CancelJob(s.jobs, corr), s.running, s.done);
  }

  lemma ReplyKeepsInv(cfg: Config, s: State, a: Answer, fault: Option<nat>)
    requires Inv(s) && s.phase.Serving?
    ensures Inv(Reply(cfg, s, a, fault))
  {
    ReplyFrame(cfg, s, a, fault);
    hide Reply;
  }

  lemma EventKeepsInv(cfg: Config, s: State, p: Packet, now: U64, fault: Option<nat>)
    requires Inv(s) && s.phase.Serving?
    ensures Inv(OnEvent(cfg, s, p, now, fault))
  {
    JudgeRoom(cfg, s, p, now);
    hide Judge, Reply, Inv;
    var v := Judge(cfg, s, p, now);
    var rest := s.(assemblies := Without(s.assemblies, p.corr), log := s.log + [Entry(p.corr, v)]);
    DropAssemblyKeepsInv(s, p.corr, rest.log);
    match v
    case Ignored =>
    case CancelSeen => CancelKeepsInv(rest, p.corr);
    case Refused(a) => ReplyKeepsInv(cfg, rest, a, fault);
    case Absorbed(a, _) => GrowKeepsInv(s, p.corr, a, rest.log);
    case Started(a, _) => StartKeepsInv(rest, p.corr, Job(WorkFor(a, p.corr), false), a.body);
  }

  lemma GrowKeepsInv(s: State, corr: U64, a: Assembly, log: seq<Entry>)
    requires Inv(s) && corr !in s.jobs && |a.body| <= MAX_BODY
    requires corr in s.assemblies || |s.assemblies| < MAX_IN_FLIGHT
    ensures Inv(s.(assemblies := s.assemblies[corr := a], log := log))
  {
    InsertSize(s.assemblies, corr, a);
  }

  lemma ReturnKeepsInv(s: State, corr: U64, r: ModuleResult)
    requires Inv(s) && corr in s.running && corr in s.jobs && r.work == s.jobs[corr].work
    ensures Inv(s.(running := Without(s.running, corr), done := s.done + [r]))
  {
    hide Accounted;
    ReturnAccounted(s.jobs, s.running, s.done, corr, r);
  }

  lemma PopKeepsInv(s: State, phase: Phase)
    requires Inv(s) && s.done != []
    requires phase.Draining? ==> Without(s.jobs, s.done[0].work.corr) != map[]
    ensures Inv(s.(done := s.done[1..], jobs := Without(s.jobs, s.done[0].work.corr), phase := phase))
    ensures |Without(s.jobs, s.done[0].work.corr)| == |s.jobs| - 1
  {
    hide Accounted;
    WithoutSize(s.jobs, s.done[0].work.corr);
    PopAccounted(s.jobs, s.running, s.done);
  }

  lemma CancelAllWorks(jobs: map<U64, Job>)
    ensures CancelAll(jobs).Keys == jobs.Keys && |CancelAll(jobs)| == |jobs|
    ensures forall c :: c in jobs ==> CancelAll(jobs)[c].work == jobs[c].work
    ensures jobs != map[] ==> CancelAll(jobs) != map[]
  {
    assert CancelAll(jobs).Keys == jobs.Keys;
    assert |CancelAll(jobs).Keys| == |jobs.Keys|;
    if jobs != map[] {
      var c :| c in jobs;
      assert c in CancelAll(jobs);
    }
  }

  lemma ShutdownKeepsInv(s: State)
    requires Inv(s)
    ensures Inv(s.(jobs := CancelAll(s.jobs), phase := if s.jobs == map[] then Returned else Draining))
    ensures |CancelAll(s.jobs)| == |s.jobs|
  {
    hide Accounted, CancelAll;
    CancelAllWorks(s.jobs);
    FlagsAccounted(s.jobs, CancelAll(s.jobs), s.running, s.done);
  }

  lemma FinishKeepsInv(cfg: Config, s: State, fault: Option<nat>)
    requires Inv(s) && Enabled(s, Finish(fault))
    ensures Inv(Take(cfg, s, Finish(fault)))
  {
    hide Inv, Reply;
    PopKeepsInv(s, s.phase);
    ReplyKeepsInv(cfg, s.(done := s.done[1..], jobs := Without(s.jobs, s.done[0].work.corr)),
                  AnswerTo(s.done[0]), fault);
  }

  lemma LeaveKeepsInv(s: State)
    requires Inv(s)
    ensures Inv(s.(phase := Returned))
  {
  }

  lemma StepKeepsInv(cfg: Config, s: State, step: Step)
    requires Inv(s) && Enabled(s, step)
    ensures Inv(Take(cfg, s, step))
  {
    hide Inv, OnEvent, Reply, FinalResult;
    match step
    case Receive(p, now, fault) => EventKeepsInv(cfg, s, p, now, fault);
    case HandlerReturns(corr, response, status, now) =>
      FinalWork(s.jobs[corr], response, status, now);
      ReturnKeepsInv(s, corr, FinalResult(s.jobs[corr], response, status, now));
    case Finish(fault) => FinishKeepsInv(cfg, s, fault);
    case Shutdown => ShutdownKeepsInv(s);
    case Drain =>
      var left := Without(s.jobs, s.done[0].work.corr);
      PopKeepsInv(s, if left == map[] then Returned else Draining);
    case Leave => LeaveKeepsInv(s);
  }

  lemma FinalWork(job: Job, response: ByteSeq, status: U16, now: U64)
    ensures FinalResult(job, response, status, now).work == job.work
  {
  }

  // What it gives.

  lemma {:induction false} DoneCount(done: seq<ModuleResult>)
    requires DistinctDone(done)
    ensures |DoneCorrs(done)| == |done|
  {
    if done != [] {
      var n := |done| - 1;
      DoneCount(done[..n]);
      assert DoneCorrs(done) == DoneCorrs(done[..n]) + {done[n].work.corr} by {
        assert forall i :: 0 <= i < n ==> done[..n][i] == done[i];
      }
      assert done[n].work.corr !in DoneCorrs(done[..n]);
    } else {
      assert DoneCorrs(done) == {};
    }
  }

  /** Outstanding handlers and queued results are exactly the jobs, so the result channel always
      has room for every handler still running, even after the loop has returned. */
  lemma NoHandlerBlocks(s: State)
    requires Inv(s)
    ensures |s.running| + |s.done| == |s.jobs|
    ensures forall c, response, status, now ::
              c in s.running ==> Enabled(s, HandlerReturns(c, response, status, now))
  {
    DoneCount(s.done);
    assert |s.running.Keys + DoneCorrs(s.done)| == |s.running.Keys| + |DoneCorrs(s.done)|;
    assert |s.jobs.Keys| == |s.jobs|;
    assert |s.running.Keys| == |s.running|;
    forall c, response, status, now | c in s.running
      ensures Enabled(s, HandlerReturns(c, response, status, now))
    {
      assert |s.running| >= 1;
    }
  }

  // Whole runs.

  ghost predicate Reaches(cfg: Config, s: State, steps: seq<Step>, s': State)
    decreases |steps|
  {
    if steps == [] then s == s'
    else Enabled(s, steps[0]) && Reaches(cfg, Take(cfg, s, steps[0]), steps[1..], s')
  }

  lemma {:induction false} ReachesSnoc(cfg: Config, s: State, steps: seq<Step>, s': State, step: Step)
    requires Reaches(cfg, s, steps, s') && Enabled(s', step)
    ensures Reaches(cfg, s, steps + [step], Take(cfg, s', step))
    decreases |steps|
  {
    hide Take, Enabled;
    if steps == [] {
      assert [step][1..] == [] && [] + [step] == [step];
      assert Reaches(cfg, Take(cfg, s, step), [], Take(cfg, s', step));
    } else {
      ReachesSnoc(cfg, Take(cfg, s, steps[0]), steps[1..], s', step);
      assert (steps + [step])[1..] == steps[1..] + [step];
    }
  }

  lemma {:induction false} ReachesThen(cfg: Config, s: State, steps: seq<Step>, s1: State, steps': seq<Step>, s2: State)
    requires Reaches(cfg, s, steps, s1) && Reaches(cfg, s1, steps', s2)
    ensures Reaches(cfg, s, steps + steps', s2)
    decreases |steps|
  {
    hide Take, Enabled;
    if steps == [] {
      assert [] + steps' == steps';
    } else {
      ReachesThen(cfg, Take(cfg, s, steps[0]), steps[1..], s1, steps', s2);
      assert (steps + steps')[1..] == steps[1..] + steps';
    }
  }

  lemma {:induction false} RunKeepsInv(cfg: Config, s: State, steps: seq<Step>, s': State)
    requires Inv(s) && Reaches(cfg, s, steps, s')
    ensures Inv(s')
    decreases |steps|
  {
    hide Inv, Take, Enabled;
    if steps != [] {
      StepKeepsInv(cfg, s, steps[0]);
      RunKeepsInv(cfg, Take(cfg, s, steps[0]), steps[1..], s');
    }
  }

  function Drains(steps: seq<Step>): nat {
    if steps == [] then 0 else (if steps[0].Drain? then 1 else 0) + Drains(steps[1..])
  }

  /** Shutdown receives exactly one result per outstanding job and then returns, with no handler
      left and nothing left in the channel; while it waits, either a result is ready or a
      handler is still running, so it ends once the handlers return. */
  lemma {:induction false} ShutdownDrains(cfg: Config, s: State, steps: seq<Step>, s': State)
    requires Inv(s) && s.phase.Draining? && Reaches(cfg, s, steps, s')
    ensures Inv(s') && |s'.jobs| + Drains(steps) == |s.jobs|
    ensures s'.phase.Draining? ==> s'.done != [] || s'.running != map[]
    ensures !s'.phase.Draining? ==>
              s'.phase.Returned? && s'.jobs == map[] && s'.running == map[] && s'.done == []
    decreases |steps|
  {
    if steps == [] {
      DrainProgress(s);
    } else {
      var next := Take(cfg, s, steps[0]);
      StepKeepsInv(cfg, s, steps[0]);
      if steps[0].Drain? {
        PopKeepsInv(s, Returned);
      }
      if next.phase.Draining? {
        ShutdownDrains(cfg, next, steps[1..], s');
      } else {
        AfterReturn(cfg, next, steps[1..], s');
      }
    }
  }

  lemma DrainProgress(s: State)
    requires Inv(s) && s.phase.Draining?
    ensures s.done != [] || s.running != map[]
  {
    NoHandlerBlocks(s);
    assert |s.jobs| > 0;
  }

  lemma {:induction false} AfterReturn(cfg: Config, s: State, steps: seq<Step>, s': State)
    requires Inv(s) && s.phase.Returned? && s.jobs == map[] && Reaches(cfg, s, steps, s')
    ensures s' == s && s.running == map[] && s.done == [] && Drains(steps) == 0
    decreases |steps|
  {
    NoHandlerBlocks(s);
  }
}
