/** One call's fragments among any other traffic: the serving loop starts the handler exactly
    once with exactly the bytes the caller cut up, and answers once with what it returned. */
module Streams {
  import opened Bits
  import opened Bytes
  import opened Wrappers
  import opened ModuleProtocol
  import opened Fragments
  import opened Runtime
  import RuntimeHistory

  // Everything in the state that concerns one correlation.

  datatype View = View(
    assembly: Option<Assembly>, job: Option<Job>, running: Option<ByteSeq>,
    results: seq<ModuleResult>, answers: seq<Answer>, verdicts: seq<Verdict>)

  function ResultsFor(done: seq<ModuleResult>, c: U64): seq<ModuleResult> {
    if done == [] then []
    else (if done[0].work.corr == c then [done[0]] else []) + ResultsFor(done[1..], c)
  }

  function AnswersFor(answered: seq<Answer>, c: U64): seq<Answer> {
    if answered == [] then []
    else (if answered[0].corr == c then [answered[0]] else []) + AnswersFor(answered[1..], c)
  }

  function VerdictsFor(log: seq<Entry>, c: U64): seq<Verdict> {
    if log == [] then []
    else (if log[0].corr == c then [log[0].verdict] else []) + VerdictsFor(log[1..], c)
  }

  lemma {:induction false} ResultsSnoc(done: seq<ModuleResult>, r: ModuleResult, c: U64)
    ensures ResultsFor(done + [r], c) == ResultsFor(done, c) + (if r.work.corr == c then [r] else [])
  {
    if done != [] {
      ResultsSnoc(done[1..], r, c);
      assert (done + [r])[1..] == done[1..] + [r];
    }
  }

  lemma {:induction false} AnswersSnoc(answered: seq<Answer>, a: Answer, c: U64)
    ensures AnswersFor(answered + [a], c) == AnswersFor(answered, c) + (if a.corr == c then [a] else [])
  {
    if answered != [] {
      AnswersSnoc(answered[1..], a, c);
      assert (answered + [a])[1..] == answered[1..] + [a];
    }
  }

  lemma {:induction false} VerdictsSnoc(log: seq<Entry>, e: Entry, c: U64)
    ensures VerdictsFor(log + [e], c) == VerdictsFor(log, c) + (if e.corr == c then [e.verdict] else [])
  {
    if log != [] {
      VerdictsSnoc(log[1..], e, c);
      assert (log + [e])[1..] == log[1..] + [e];
    }
  }

  function Lookup<V>(m: map<U64, V>, c: U64): Option<V> {
    if c in m then Some(m[c]) else None
  }

  function ViewOf(s: State, c: U64): View {
    View(Lookup(s.assemblies, c), Lookup(s.jobs, c), Lookup(s.running, c),
         ResultsFor(s.done, c), AnswersFor(s.answered, c), VerdictsFor(s.log, c))
  }

  // The life of one call.

  ghost predicate CallOk(cfg: Config, r: Request, c: U64) {
    && BudgetOk(cfg.budget) && BudgetOk(r.budget) && cfg.hasHandler && |r.body| <= MAX_BODY
    && r.stageID != 0 && r.kind in cfg.stages && cfg.stages[r.kind] == r.stageID
  }

  function InvocationOf(r: Request): Invocation {
    Invocation(r.stageID, r.deadlineNS, r.traceID)
  }

  function JobOf(r: Request, c: U64): Job {
    Job(Work(r.kind, c, InvocationOf(r)), false)
  }

  /** The result the handler's outcome becomes when no cancel or deadline intervenes. */
  function ResultOf(r: Request, c: U64, h: Handler): ModuleResult {
    var (response, status) := h(InvocationOf(r), r.body);
    FinalResult(JobOf(r, c), response, status, 0)
  }

  function PiecesOf(r: Request): (ps: seq<Piece>)
    requires BudgetOk(r.budget)
    ensures ps != []
  {
    Pieces(r.body, Chunk(r.budget))
  }

  /** The assembly after n fragments. */
  function AssemblyAfter(r: Request, n: nat): Assembly
    requires BudgetOk(r.budget) && |r.body| <= MAX_BODY && n <= |PiecesOf(r)|
  {
    PieceFits(r.body, Chunk(r.budget), 0);
    Assembly(r.kind, InvokeHeader(r, |PiecesOf(r)[0].bytes|), Join(PiecesOf(r)[..n]))
  }

  /** The verdicts on the first n fragments: absorbed, and the last one started. */
  ghost predicate VerdictsOk(r: Request, verdicts: seq<Verdict>, n: nat)
    requires BudgetOk(r.budget) && |r.body| <= MAX_BODY && n <= |PiecesOf(r)|
  {
    && |verdicts| == n
    && (forall i :: 0 <= i < n && i < |PiecesOf(r)| - 1 ==> verdicts[i].Absorbed?)
    && (n == |PiecesOf(r)| ==> verdicts[n - 1].Started? && verdicts[n - 1].assembly.body == r.body)
  }

  ghost predicate Running(v: View, r: Request, c: U64) {
    v.job == Some(JobOf(r, c)) && v.running == Some(r.body) && v.results == [] && v.answers == []
  }

  ghost predicate Queued(v: View, r: Request, c: U64, h: Handler) {
    v.job == Some(JobOf(r, c)) && v.running == None && v.results == [ResultOf(r, c, h)] && v.answers == []
  }

  ghost predicate Answered(v: View, r: Request, c: U64, h: Handler) {
    v.job == None && v.running == None && v.results == [] && v.answers == [Normal(AnswerTo(ResultOf(r, c, h)))]
  }

  /** The call has had its first n fragments seen. */
  ghost predicate Tracks(cfg: Config, v: View, r: Request, c: U64, n: nat, h: Handler)
    requires CallOk(cfg, r, c)
  {
    && n <= |PiecesOf(r)|
    && v.assembly == (if 0 < n < |PiecesOf(r)| then Some(AssemblyAfter(r, n)) else None)
    && VerdictsOk(r, v.verdicts, n)
    && (n < |PiecesOf(r)| ==>
          v.job == None && v.running == None && v.results == [] && v.answers == [])
    && (n == |PiecesOf(r)| ==> Running(v, r, c) || Queued(v, r, c, h) || Answered(v, r, c, h))
  }

  // What the environment grants the call.

  predicate Unexpired(r: Request, now: U64) {
    r.deadlineNS == 0 || now < r.deadlineNS
  }

  /** Room and time for the call's own steps; nothing is asked of any other step. */
  ghost predicate Fair(s: State, step: Step, r: Request, c: U64, h: Handler) {
    match step
    case Receive(p, now, _) =>
      p.corr == c ==>
        && Unexpired(r, now) && (c in s.assemblies || |s.assemblies| < MAX_IN_FLIGHT)
        && (HasMore(p) || |s.jobs| < MAX_IN_FLIGHT)
    case HandlerReturns(corr, response, status, now) =>
      corr == c && c in s.running && c in s.jobs ==>
        Unexpired(r, now) && (response, status) == h(s.jobs[c].work.invocation, s.running[c])
    case _ => true
  }

  ghost predicate Undisturbed(cfg: Config, s: State, steps: seq<Step>, r: Request, c: U64, h: Handler)
    decreases |steps|
  {
    steps != [] ==>
      Enabled(s, steps[0]) && Fair(s, steps[0], r, c, h)
      && Undisturbed(cfg, Take(cfg, s, steps[0]), steps[1..], r, c, h)
  }

  /** The packets of the correlation, in the order the loop polls them. */
  function Arrivals(steps: seq<Step>, c: U64): seq<Packet> {
    if steps == [] then []
    else (if steps[0].Receive? && steps[0].p.corr == c then [steps[0].p] else []) + Arrivals(steps[1..], c)
  }

  // The loop's verdict on the next fragment of the stream.

  lemma StreamStarts(r: Request, n: nat)
    requires BudgetOk(r.budget) && |r.body| <= MAX_BODY && n < |PiecesOf(r)|
    ensures |PiecesOf(r)[n].bytes| <= MAX_BODY
    ensures (PiecesOf(r)[n].more <==> n < |PiecesOf(r)| - 1)
    ensures Join(PiecesOf(r)[..n + 1]) == Join(PiecesOf(r)[..n]) + PiecesOf(r)[n].bytes
    ensures |Join(PiecesOf(r)[..n + 1])| <= MAX_BODY
    ensures n == |PiecesOf(r)| - 1 ==> Join(PiecesOf(r)[..n + 1]) == r.body
  {
    var ps := PiecesOf(r);
    PieceFits(r.body, Chunk(r.budget), n);
    PiecesJoin(r.body, Chunk(r.budget));
    JoinBound(ps, n + 1);
    JoinSnoc(ps[..n], ps[n]);
    assert ps[..n] + [ps[n]] == ps[..n + 1];
    assert ps[..|ps|] == ps;
  }

  /** The next packet of a stream opens to the call's header and the next piece. */
  lemma NextPacket(r: Request, c: U64, n: nat)
    requires BudgetOk(r.budget) && |r.body| <= MAX_BODY && r.stageID != 0 && n < |PiecesOf(r)|
    ensures |PiecesOf(r)[n].bytes| <= MAX_BODY
    ensures var p, piece := RequestStream(r, c)[n], PiecesOf(r)[n];
            var m := InvokeHeader(r, |piece.bytes|);
            && p.corr == c && p.kind == r.kind && IsRequest(p) && !IsCancel(p) && (HasMore(p) <==> piece.more)
            && DecodeMessage(p.payload) == Some(m) && BodyOf(p, m) == piece.bytes
  {
    var ps, p := PiecesOf(r), RequestStream(r, c)[n];
    StreamStarts(r, n);
    RequestPacketOpens(r, c, ps[n]);
    assert p == RequestPacket(r, c, ps[n]);
    hide DecodeMessage, IsRequest, IsCancel, HasMore, Join, Pieces, MessageBytes;
  }

  lemma JudgeNext(cfg: Config, s: State, r: Request, c: U64, n: nat, now: U64, h: Handler)
    requires CallOk(cfg, r, c) && Tracks(cfg, ViewOf(s, c), r, c, n, h) && n < |PiecesOf(r)|
    requires Fair(s, Receive(RequestStream(r, c)[n], now, None), r, c, h)
    ensures var p, part := RequestStream(r, c)[n], PiecesOf(r)[n].bytes;
            Judge(cfg, s, p, now) ==
              if n < |PiecesOf(r)| - 1 then Absorbed(AssemblyAfter(r, n + 1), part)
              else Started(AssemblyAfter(r, n + 1), part)
  {
    hide DecodeMessage, IsRequest, IsCancel, HasMore, Pieces, RequestStream, VerdictsOk, BodyOf;
    var ps := PiecesOf(r);
    var p := RequestStream(r, c)[n];
    StreamStarts(r, n);
    NextPacket(r, c, n);
    assert n == 0 ==> Join(ps[..0]) == [];
    hide Join;
    assert !Invalid(cfg, s, p);
  }

  // How a step changes the view.

  lemma OtherReply(cfg: Config, s: State, a: Answer, fault: Option<nat>, c: U64)
    requires a.corr != c && s.phase.Serving? && Reply(cfg, s, a, fault).phase.Serving?
    ensures ViewOf(Reply(cfg, s, a, fault), c) == ViewOf(s, c)
  {
    WholeReply(cfg, s, a, fault);
    hide Reply;
    AnswersSnoc(s.answered, Normal(a), c);
  }

  lemma OtherLookup<V>(m: map<U64, V>, k: U64, v: V, c: U64)
    requires k != c
    ensures Lookup(Without(m, k), c) == Lookup(m, c) && Lookup(m[k := v], c) == Lookup(m, c)
  {
  }

  /** What a verdict does short of a reply touches only its own correlation. */
  lemma OtherVerdict(s: State, corr: U64, v: Verdict, c: U64)
    requires corr != c
    ensures ViewOf(s.(assemblies := Without(s.assemblies, corr), log := s.log + [Entry(corr, v)]), c) == ViewOf(s, c)
    ensures ViewOf(s.(jobs := CancelJob(s.jobs, corr), assemblies := Without(s.assemblies, corr),
                      log := s.log + [Entry(corr, v)]), c) == ViewOf(s, c)
    ensures v.Absorbed? ==>
              ViewOf(s.(assemblies := s.assemblies[corr := v.assembly], log := s.log + [Entry(corr, v)]), c) ==
                ViewOf(s, c)
    ensures v.Started? ==>
              ViewOf(s.(assemblies := Without(s.assemblies, corr), log := s.log + [Entry(corr, v)],
                        jobs := s.jobs[corr := Job(WorkFor(v.assembly, corr), false)],
                        running := s.running[corr := v.assembly.body]), c) == ViewOf(s, c)
  {
    VerdictsSnoc(s.log, Entry(corr, v), c);
    if corr in s.jobs {
      OtherLookup(s.jobs, corr, s.jobs[corr].(cancelled := true), c);
    }
    if v.Absorbed? || v.Started? {
      OtherLookup(s.assemblies, corr, v.assembly, c);
      OtherLookup(s.jobs, corr, Job(WorkFor(v.assembly, corr), false), c);
      OtherLookup(s.running, corr, v.assembly.body, c);
    }
    hide VerdictsFor, ResultsFor, AnswersFor;
  }

  lemma OtherEvent(cfg: Config, s: State, p: Packet, now: U64, fault: Option<nat>, c: U64)
    requires p.corr != c && s.phase.Serving? && OnEvent(cfg, s, p, now, fault).phase.Serving?
    ensures ViewOf(OnEvent(cfg, s, p, now, fault), c) == ViewOf(s, c)
  {
    hide Judge, Reply, ViewOf, Without, CancelJob;
    RuntimeHistory.JudgeAnswers(cfg, s, p, now);
    var v := Judge(cfg, s, p, now);
    OtherVerdict(s, p.corr, v, c);
    if v.Refused? {
      var log := s.log + [Entry(p.corr, v)];
      OtherReply(cfg, s.(assemblies := Without(s.assemblies, p.corr), log := log), v.answer, fault, c);
    }
  }

  lemma OwnEvent(cfg: Config, s: State, p: Packet, now: U64, fault: Option<nat>, c: U64)
    requires p.corr == c
    ensures var v, t, was := Judge(cfg, s, p, now), OnEvent(cfg, s, p, now, fault), ViewOf(s, c);
            && (v.Absorbed? ==> ViewOf(t, c) == was.(assembly := Some(v.assembly), verdicts := was.verdicts + [v]))
            && (v.Started? ==>
                  ViewOf(t, c) == was.(assembly := None, verdicts := was.verdicts + [v],
                                       job := Some(Job(WorkFor(v.assembly, c), false)),
                                       running := Some(v.assembly.body)))
  {
    hide Judge;
    VerdictsSnoc(s.log, Entry(p.corr, Judge(cfg, s, p, now)), c);
  }

  lemma ReturnView(cfg: Config, s: State, step: Step, c: U64)
    requires Enabled(s, step) && step.HandlerReturns?
    ensures var t, was := Take(cfg, s, step), ViewOf(s, c);
            ViewOf(t, c) ==
              if step.corr != c || s.jobs[step.corr].work.corr != c then
                ViewOf(t, c)
              else
                was.(running := None,
                     results := was.results + [FinalResult(s.jobs[c], step.response, step.status, step.now)])
    ensures step.corr != c && s.jobs[step.corr].work.corr != c ==> ViewOf(Take(cfg, s, step), c) == ViewOf(s, c)
  {
    ResultsSnoc(s.done, FinalResult(s.jobs[step.corr], step.response, step.status, step.now), c);
  }

  lemma FinishView(cfg: Config, s: State, fault: Option<nat>, c: U64)
    requires s.phase.Serving? && s.done != [] && Take(cfg, s, Finish(fault)).phase.Serving?
    ensures var t, was, r := Take(cfg, s, Finish(fault)), ViewOf(s, c), s.done[0];
            ViewOf(t, c) ==
              if r.work.corr != c then was
              else was.(job := None, results := was.results[1..], answers := was.answers + [Normal(AnswerTo(r))])
    ensures s.done[0].work.corr == c ==> ViewOf(s, c).results != [] && ViewOf(s, c).results[0] == s.done[0]
  {
    var rest := s.(done := s.done[1..], jobs := Without(s.jobs, s.done[0].work.corr));
    WholeReply(cfg, rest, AnswerTo(s.done[0]), fault);
    hide Reply, Normal;
    AnswersSnoc(s.answered, Normal(AnswerTo(s.done[0])), c);
  }

  // The step lemma.

  lemma TracksAbsorb(cfg: Config, v: View, r: Request, c: U64, n: nat, h: Handler, verdict: Verdict)
    requires CallOk(cfg, r, c) && Tracks(cfg, v, r, c, n, h) && n < |PiecesOf(r)| - 1
    requires verdict.Absorbed? && verdict.assembly == AssemblyAfter(r, n + 1)
    ensures Tracks(cfg, v.(assembly := Some(verdict.assembly), verdicts := v.verdicts + [verdict]), r, c, n + 1, h)
  {
    hide AssemblyAfter;
  }

  lemma TracksStart(cfg: Config, v: View, r: Request, c: U64, n: nat, h: Handler, verdict: Verdict)
    requires CallOk(cfg, r, c) && Tracks(cfg, v, r, c, n, h) && n == |PiecesOf(r)| - 1
    requires verdict.Started? && verdict.assembly == AssemblyAfter(r, n + 1)
    ensures Tracks(cfg, v.(assembly := None, verdicts := v.verdicts + [verdict],
                           job := Some(Job(WorkFor(verdict.assembly, c), false)),
                           running := Some(verdict.assembly.body)), r, c, n + 1, h)
  {
    StreamStarts(r, n);
  }

  lemma ReceiveTracks(cfg: Config, s: State, p: Packet, now: U64, fault: Option<nat>,
                      r: Request, c: U64, n: nat, h: Handler)
    requires CallOk(cfg, r, c) && Tracks(cfg, ViewOf(s, c), r, c, n, h)
    requires s.phase.Serving? && Fair(s, Receive(p, now, fault), r, c, h)
    requires OnEvent(cfg, s, p, now, fault).phase.Serving?
    requires p.corr == c ==> n < |PiecesOf(r)| && p == RequestStream(r, c)[n]
    ensures Tracks(cfg, ViewOf(OnEvent(cfg, s, p, now, fault), c), r, c, if p.corr == c then n + 1 else n, h)
  {
    if p.corr == c {
      JudgeNext(cfg, s, r, c, n, now, h);
      OwnEvent(cfg, s, p, now, fault, c);
      hide Judge, OnEvent, Tracks, AssemblyAfter, ViewOf, RequestStream;
      if n < |PiecesOf(r)| - 1 {
        TracksAbsorb(cfg, ViewOf(s, c), r, c, n, h, Judge(cfg, s, p, now));
      } else {
        TracksStart(cfg, ViewOf(s, c), r, c, n, h, Judge(cfg, s, p, now));
      }
    } else {
      OtherEvent(cfg, s, p, now, fault, c);
      hide OnEvent;
    }
  }

  lemma ResultUnexpired(r: Request, c: U64, response: ByteSeq, status: U16, now: U64)
    requires Unexpired(r, now)
    ensures FinalResult(JobOf(r, c), response, status, now) == FinalResult(JobOf(r, c), response, status, 0)
  {
  }

  lemma ReturnTracks(cfg: Config, s: State, step: Step, r: Request, c: U64, n: nat, h: Handler)
    requires Inv(s) && CallOk(cfg, r, c) && Tracks(cfg, ViewOf(s, c), r, c, n, h)
    requires step.HandlerReturns? && Enabled(s, step) && Fair(s, step, r, c, h)
    ensures Tracks(cfg, ViewOf(Take(cfg, s, step), c), r, c, n, h)
  {
    assert s.jobs[step.corr].work.corr == step.corr;
    ReturnView(cfg, s, step, c);
    hide Inv, Take, AssemblyAfter, VerdictsOk;
    if step.corr == c {
      assert ViewOf(s, c).running == Some(s.running[c]);
      ResultUnexpired(r, c, step.response, step.status, step.now);
    }
  }

  lemma FinishTracks(cfg: Config, s: State, fault: Option<nat>, r: Request, c: U64, n: nat, h: Handler)
    requires s.phase.Serving? && s.done != [] && Take(cfg, s, Finish(fault)).phase.Serving?
    requires CallOk(cfg, r, c) && Tracks(cfg, ViewOf(s, c), r, c, n, h)
    ensures Tracks(cfg, ViewOf(Take(cfg, s, Finish(fault)), c), r, c, n, h)
  {
    FinishView(cfg, s, fault, c);
    hide Take, AssemblyAfter, VerdictsOk, ResultOf, ViewOf, Normal;
  }

  function Arrived(step: Step, c: U64): nat {
    if step.Receive? && step.p.corr == c then 1 else 0
  }

  lemma StepTracks(cfg: Config, s: State, step: Step, r: Request, c: U64, n: nat, h: Handler)
    requires Inv(s) && CallOk(cfg, r, c) && Tracks(cfg, ViewOf(s, c), r, c, n, h)
    requires Enabled(s, step) && Fair(s, step, r, c, h) && s.phase.Serving? && Take(cfg, s, step).phase.Serving?
    requires Arrived(step, c) == 1 ==> n < |PiecesOf(r)| && step.p == RequestStream(r, c)[n]
    ensures Tracks(cfg, ViewOf(Take(cfg, s, step), c), r, c, n + Arrived(step, c), h)
  {
    hide Inv, Tracks, OnEvent, RequestStream, Reply;
    match step
    case Receive(p, now, fault) => ReceiveTracks(cfg, s, p, now, fault, r, c, n, h);
    case HandlerReturns(_, _, _, _) => ReturnTracks(cfg, s, step, r, c, n, h);
    case Finish(fault) => FinishTracks(cfg, s, fault, r, c, n, h);
    case _ =>
  }

  // Whole runs.

  lemma {:induction false} RunTracks(cfg: Config, s: State, steps: seq<Step>, s': State,
                                     r: Request, c: U64, n: nat, h: Handler)
    requires Inv(s) && CallOk(cfg, r, c) && Tracks(cfg, ViewOf(s, c), r, c, n, h)
    requires s.phase.Serving? && s'.phase.Serving?
    requires Reaches(cfg, s, steps, s') && Undisturbed(cfg, s, steps, r, c, h)
    requires n + |Arrivals(steps, c)| <= |RequestStream(r, c)|
    requires Arrivals(steps, c) == RequestStream(r, c)[n..n + |Arrivals(steps, c)|]
    ensures Inv(s') && Tracks(cfg, ViewOf(s', c), r, c, n + |Arrivals(steps, c)|, h)
    decreases |steps|
  {
    hide Inv, Tracks, Take, Enabled, Fair, ViewOf, Pieces, RequestStream;
    if steps != [] {
      var next, rest := Take(cfg, s, steps[0]), steps[1..];
      if !next.phase.Serving? {
        RuntimeHistory.NeverServesAgain(cfg, next, rest, s');
      }
      ArrivalsCons(steps, c, n, RequestStream(r, c));
      hide Arrivals;
      StepKeepsInv(cfg, s, steps[0]);
      StepTracks(cfg, s, steps[0], r, c, n, h);
      RunTracks(cfg, next, rest, s', r, c, n + Arrived(steps[0], c), h);
    }
  }

  lemma ArrivalsCons(steps: seq<Step>, c: U64, n: nat, stream: seq<Packet>)
    requires steps != [] && n + |Arrivals(steps, c)| <= |stream|
    requires Arrivals(steps, c) == stream[n..n + |Arrivals(steps, c)|]
    ensures |Arrivals(steps, c)| == Arrived(steps[0], c) + |Arrivals(steps[1..], c)|
    ensures Arrived(steps[0], c) == 1 ==> n < |stream| && steps[0].p == stream[n]
    ensures Arrivals(steps[1..], c) ==
              stream[n + Arrived(steps[0], c)..n + Arrived(steps[0], c) + |Arrivals(steps[1..], c)|]
  {
    var a, rest := Arrivals(steps, c), Arrivals(steps[1..], c);
    if Arrived(steps[0], c) == 1 {
      assert a[0] == steps[0].p && a[1..] == rest;
    } else {
      assert a == rest;
    }
  }

  /** The handler was started once, by the last fragment, with exactly the request's bytes; every
      earlier fragment was absorbed, nothing was refused; and the one reply there is, once the
      job has ended, is what the handler returned. */
  ghost predicate Served(s: State, r: Request, c: U64, h: Handler) {
    var v := VerdictsFor(s.log, c);
    && v != [] && (forall i :: 0 <= i < |v| - 1 ==> v[i].Absorbed?)
    && v[|v| - 1].Started? && v[|v| - 1].assembly.body == r.body
    && c !in s.assemblies
    && AnswersFor(s.answered, c) == if c in s.jobs then [] else [Normal(AnswerTo(ResultOf(r, c, h)))]
  }

  /** Whatever else the bus carries, when the packets of a correlation are a call's fragments in
      order, complete, with room and time for them, the loop starts the handler exactly once for
      that correlation, with exactly the request's bytes, refuses nothing, and replies at most
      once, with what the handler returned. */
  lemma StreamIsServed(cfg: Config, steps: seq<Step>, s': State, r: Request, c: U64, h: Handler)
    requires CallOk(cfg, r, c) && Reaches(cfg, INITIAL, steps, s') && s'.phase.Serving?
    requires Undisturbed(cfg, INITIAL, steps, r, c, h)
    requires Arrivals(steps, c) == RequestStream(r, c)
    ensures Served(s', r, c, h)
    ensures |VerdictsFor(s'.log, c)| == |PiecesOf(r)|
    ensures c in s'.jobs ==> s'.jobs[c] == JobOf(r, c)
  {
    InitialInv();
    assert Tracks(cfg, ViewOf(INITIAL, c), r, c, 0, h);
    hide Tracks, Inv, ViewOf, Served;
    assert RequestStream(r, c)[0..0 + |Arrivals(steps, c)|] == RequestStream(r, c);
    RunTracks(cfg, INITIAL, steps, s', r, c, 0, h);
    hide RequestStream, Undisturbed, Reaches;
    TrackedIsServed(cfg, s', r, c, h);
  }

  lemma TrackedIsServed(cfg: Config, s: State, r: Request, c: U64, h: Handler)
    requires CallOk(cfg, r, c) && Tracks(cfg, ViewOf(s, c), r, c, |PiecesOf(r)|, h)
    ensures Served(s, r, c, h)
    ensures |VerdictsFor(s.log, c)| == |PiecesOf(r)|
    ensures c in s.jobs ==> s.jobs[c] == JobOf(r, c)
  {
    hide AssemblyAfter, ResultOf, Normal, Pieces;
  }

  // At most sixteen calls at once always have room.

  /** Time for the call's own steps; room is not assumed. */
  ghost predicate Timely(s: State, step: Step, r: Request, c: U64, h: Handler) {
    match step
    case Receive(p, now, _) => p.corr == c ==> Unexpired(r, now)
    case HandlerReturns(_, _, _, _) => Fair(s, step, r, c, h)
    case _ => true
  }

  /** Every call in `calls` gets time, and every packet belongs to one of them. */
  ghost predicate OnlyCalls(cfg: Config, s: State, steps: seq<Step>, calls: map<U64, Request>, h: Handler)
    decreases |steps|
  {
    steps != [] ==>
      && Enabled(s, steps[0])
      && (steps[0].Receive? ==> steps[0].p.corr in calls)
      && (forall c :: c in calls ==> Timely(s, steps[0], calls[c], c, h))
      && OnlyCalls(cfg, Take(cfg, s, steps[0]), steps[1..], calls, h)
  }

  ghost predicate Within(s: State, corrs: set<U64>) {
    s.assemblies.Keys <= corrs && s.jobs.Keys <= corrs
  }

  lemma StepWithin(cfg: Config, s: State, step: Step, corrs: set<U64>)
    requires Within(s, corrs) && Enabled(s, step) && (step.Receive? ==> step.p.corr in corrs)
    ensures Within(Take(cfg, s, step), corrs)
  {
    hide Judge, Reply;
    match step {
      case Receive(p, now, fault) =>
        var v := Judge(cfg, s, p, now);
        if v.Refused? {
          ReplyFrame(cfg, s.(assemblies := Without(s.assemblies, p.corr), log := s.log + [Entry(p.corr, v)]),
                     v.answer, fault);
        }
      case Finish(fault) =>
        ReplyFrame(cfg, s.(done := s.done[1..], jobs := Without(s.jobs, s.done[0].work.corr)),
                   AnswerTo(s.done[0]), fault);
      case _ =>
    }
  }

  lemma ProperSubset(a: set<U64>, b: set<U64>, c: U64)
    requires a <= b && c in b && c !in a
    ensures |a| < |b|
  {
    assert |b - a| + |a| == |b|;
    assert c in b - a;
  }

  lemma RoomForNext(cfg: Config, s: State, corrs: set<U64>, r: Request, c: U64, n: nat, h: Handler)
    requires Within(s, corrs) && |corrs| <= MAX_IN_FLIGHT && c in corrs
    requires CallOk(cfg, r, c) && Tracks(cfg, ViewOf(s, c), r, c, n, h) && n < |PiecesOf(r)|
    ensures c in s.assemblies || |s.assemblies| < MAX_IN_FLIGHT
    ensures |s.jobs| < MAX_IN_FLIGHT
  {
    hide VerdictsOk, AssemblyAfter, PiecesOf;
    assert ViewOf(s, c).job == None && c !in s.jobs;
    ProperSubset(s.jobs.Keys, corrs, c);
    assert |s.jobs.Keys| == |s.jobs| && |s.assemblies.Keys| == |s.assemblies|;
    if c !in s.assemblies {
      ProperSubset(s.assemblies.Keys, corrs, c);
    }
  }

  lemma {:induction false} CallsAreUndisturbed(cfg: Config, s: State, steps: seq<Step>, s': State,
                                               calls: map<U64, Request>, c: U64, n: nat, h: Handler)
    requires Inv(s) && |calls| <= MAX_IN_FLIGHT && Within(s, calls.Keys) && c in calls
    requires CallOk(cfg, calls[c], c) && Tracks(cfg, ViewOf(s, c), calls[c], c, n, h)
    requires s.phase.Serving? && s'.phase.Serving?
    requires Reaches(cfg, s, steps, s') && OnlyCalls(cfg, s, steps, calls, h)
    requires n + |Arrivals(steps, c)| <= |RequestStream(calls[c], c)|
    requires Arrivals(steps, c) == RequestStream(calls[c], c)[n..n + |Arrivals(steps, c)|]
    ensures Undisturbed(cfg, s, steps, calls[c], c, h)
    decreases |steps|
  {
    hide Inv, Tracks, Take, Enabled, ViewOf, Pieces, RequestStream;
    if steps != [] {
      var r, next, rest := calls[c], Take(cfg, s, steps[0]), steps[1..];
      if !next.phase.Serving? {
        RuntimeHistory.NeverServesAgain(cfg, next, rest, s');
      }
      ArrivalsCons(steps, c, n, RequestStream(r, c));
      hide Arrivals;
      assert |calls.Keys| == |calls|;
      if n < |PiecesOf(r)| {
        RoomForNext(cfg, s, calls.Keys, r, c, n, h);
      }
      assert Timely(s, steps[0], r, c, h) && Fair(s, steps[0], r, c, h);
      hide Fair, Timely;
      StepKeepsInv(cfg, s, steps[0]);
      StepWithin(cfg, s, steps[0], calls.Keys);
      StepTracks(cfg, s, steps[0], r, c, n, h);
      CallsAreUndisturbed(cfg, next, rest, s', calls, c, n + Arrived(steps[0], c), h);
    }
  }

  /** Any order-preserving merge of the streams of at most sixteen calls on distinct correlations,
      with no cancels and no deadline passed: every call's handler is started exactly once, with
      exactly its request's bytes, and answered at most once with what the handler returned. */
  lemma MergeIsServed(cfg: Config, steps: seq<Step>, s': State, calls: map<U64, Request>, h: Handler)
    requires |calls| <= MAX_IN_FLIGHT
    requires forall c :: c in calls ==>
               CallOk(cfg, calls[c], c) && Arrivals(steps, c) == RequestStream(calls[c], c)
    requires Reaches(cfg, INITIAL, steps, s') && s'.phase.Serving? && OnlyCalls(cfg, INITIAL, steps, calls, h)
    ensures forall c :: c in calls ==> Served(s', calls[c], c, h)
  {
    forall c | c in calls
      ensures Served(s', calls[c], c, h)
    {
      assert CallOk(cfg, calls[c], c);
      hide Served, CallOk, OnlyCalls, Reaches, Arrivals;
      CallIsServed(cfg, steps, s', calls, c, h);
    }
  }

  lemma CallIsServed(cfg: Config, steps: seq<Step>, s': State, calls: map<U64, Request>, c: U64, h: Handler)
    requires |calls| <= MAX_IN_FLIGHT && c in calls && CallOk(cfg, calls[c], c)
    requires Reaches(cfg, INITIAL, steps, s') && s'.phase.Serving? && OnlyCalls(cfg, INITIAL, steps, calls, h)
    requires Arrivals(steps, c) == RequestStream(calls[c], c)
    ensures Undisturbed(cfg, INITIAL, steps, calls[c], c, h)
    ensures Served(s', calls[c], c, h)
  {
    InitialInv();
    assert Tracks(cfg, ViewOf(INITIAL, c), calls[c], c, 0, h);
    hide RequestStream, OnlyCalls, Reaches, Tracks, ViewOf, ResultOf, Served;
    assert RequestStream(calls[c], c)[0..0 + |Arrivals(steps, c)|] == RequestStream(calls[c], c);
    CallsAreUndisturbed(cfg, INITIAL, steps, s', calls, c, 0, h);
    StreamIsServed(cfg, steps, s', calls[c], c, h);
  }
}
