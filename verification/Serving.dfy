/** The serving loop and the calls it serves, joined: what the turns of the loop bring decides that
    every call is served, and what its caller sees. */
module Serving {
  import opened Bits
  import opened Bytes
  import opened Wrappers
  import opened Wire
  import opened Fragments
  import opened Runtime
  import opened RuntimeServer
  import opened Streams
  import opened EndToEnd
  import opened Caller
  import Client

  /** The turn polls only packets of the calls, in time, and their handlers end in time, each with
      what the handler makes of what it was given. */
  ghost predicate TurnServes(turn: Turn, calls: map<U64, Request>, h: Handler) {
    && (turn.polled.Event? ==>
          turn.polled.p.corr in calls && Unexpired(calls[turn.polled.p.corr], turn.now))
    && EndingsServe(turn.ended, calls, h)
  }

  ghost predicate EndingsServe(ended: seq<(U64, Ending)>, calls: map<U64, Request>, h: Handler) {
    forall k :: 0 <= k < |ended| && ended[k].0 in calls ==>
      ended[k].1.handler == h && Unexpired(calls[ended[k].0], ended[k].1.now)
  }

  /** The turns bring the streams of the calls, merged in any way that keeps each one's order, and
      nothing else. */
  ghost predicate TurnsServe(cfg: Config, turns: seq<Turn>, calls: map<U64, Request>, h: Handler) {
    && |calls| <= MAX_IN_FLIGHT
    && (forall i :: 0 <= i < |turns| ==> TurnServes(turns[i], calls, h))
    && (forall c :: c in calls ==>
          CallOk(cfg, calls[c], c) && PacketsFor(Events(turns), c) == RequestStream(calls[c], c))
  }

  // Runs of the loop are runs of the calls.

  lemma {:induction false} ReachesSplit(cfg: Config, s: State, a: seq<Step>, b: seq<Step>, s': State)
    requires Reaches(cfg, s, a + b, s')
    ensures Reaches(cfg, s, a, After(cfg, s, a)) && Reaches(cfg, After(cfg, s, a), b, s')
    decreases |a|
  {
    hide Take, Enabled;
    if a == [] {
      assert a + b == b;
    } else {
      assert (a + b)[1..] == a[1..] + b;
      ReachesSplit(cfg, Take(cfg, s, a[0]), a[1..], b, s');
    }
  }

  lemma {:induction false} OnlyCallsThen(cfg: Config, s: State, a: seq<Step>, b: seq<Step>,
                                         calls: map<U64, Request>, h: Handler)
    requires OnlyCalls(cfg, s, a, calls, h) && OnlyCalls(cfg, After(cfg, s, a), b, calls, h)
    ensures OnlyCalls(cfg, s, a + b, calls, h)
    decreases |a|
  {
    hide Take, Enabled, Timely;
    if a == [] {
      assert a + b == b;
    } else {
      assert (a + b)[1..] == a[1..] + b;
      OnlyCallsThen(cfg, Take(cfg, s, a[0]), a[1..], b, calls, h);
    }
  }

  lemma {:induction false} EndingsOnlyCalls(cfg: Config, s: State, ended: seq<(U64, Ending)>, s': State,
                                            calls: map<U64, Request>, h: Handler)
    requires EndingsServe(ended, calls, h) && Reaches(cfg, s, Endings(s.jobs, s.running, ended), s')
    ensures OnlyCalls(cfg, s, Endings(s.jobs, s.running, ended), calls, h)
    decreases |ended|
  {
    if ended != [] {
      var corr, e, rest := ended[0].0, ended[0].1, ended[1..];
      assert EndingsServe(rest, calls, h);
      if corr in s.running && corr in s.jobs {
        var step := Ends(s.jobs, s.running, corr, e);
        assert Endings(s.jobs, s.running, ended) == [step] + Endings(s.jobs, Without(s.running, corr), rest);
        var next := Take(cfg, s, step);
        assert next.jobs == s.jobs && next.running == Without(s.running, corr);
        hide Reaches, Take, FinalResult;
        EndingsOnlyCalls(cfg, next, rest, s', calls, h);
      } else {
        EndingsOnlyCalls(cfg, s, rest, s', calls, h);
      }
    }
  }

  lemma {:induction false} FinishesOnlyCalls(cfg: Config, s: State, steps: seq<Step>, s': State,
                                             calls: map<U64, Request>, h: Handler)
    requires Reaches(cfg, s, steps, s') && forall i :: 0 <= i < |steps| ==> steps[i].Finish?
    ensures OnlyCalls(cfg, s, steps, calls, h)
    decreases |steps|
  {
    hide Take;
    if steps != [] {
      FinishesOnlyCalls(cfg, Take(cfg, s, steps[0]), steps[1..], s', calls, h);
    }
  }

  lemma ServeOnlyCalls(cfg: Config, s: State, attempts: seq<Attempt>, turn: Turn, s': State,
                       calls: map<U64, Request>, h: Handler)
    requires TurnServes(turn, calls, h) && Reaches(cfg, s, ServeCourse(cfg, s, attempts, turn).steps, s')
    ensures OnlyCalls(cfg, s, ServeCourse(cfg, s, attempts, turn).steps, calls, h)
  {
    hide OnEvent, EventFault, AttemptsAfterEvent, Take, EndingsServe;
  }

  lemma TurnOnlyCalls(cfg: Config, s: State, attempts: seq<Attempt>, turn: Turn, s': State,
                      calls: map<U64, Request>, h: Handler)
    requires TurnServes(turn, calls, h) && Reaches(cfg, s, TurnCourse(cfg, s, attempts, turn).steps, s')
    ensures OnlyCalls(cfg, s, TurnCourse(cfg, s, attempts, turn).steps, calls, h)
  {
    var ended := Endings(s.jobs, s.running, turn.ended);
    var s1 := After(cfg, s, ended);
    var finished := Finishes(cfg, s1.done, attempts);
    var s2 := After(cfg, s1, finished.steps);
    var served := if finished.end.Going? then ServeCourse(cfg, s2, finished.attempts, turn).steps else [];
    hide Endings, Finishes, ServeCourse, After, Reaches, OnlyCalls;
    assert finished.steps + [] == finished.steps;
    assert TurnCourse(cfg, s, attempts, turn).steps == ended + (finished.steps + served);
    ReachesSplit(cfg, s, ended, finished.steps + served, s');
    ReachesSplit(cfg, s1, finished.steps, served, s');
    EndingsOnlyCalls(cfg, s, turn.ended, s1, calls, h);
    FinishesMeaning(cfg, s1.done, attempts);
    FinishesOnlyCalls(cfg, s1, finished.steps, s2, calls, h);
    if finished.end.Going? {
      ServeOnlyCalls(cfg, s2, finished.attempts, turn, s', calls, h);
    } else {
      NoCalls(cfg, s2, calls, h);
    }
    OnlyCallsThen(cfg, s1, finished.steps, served, calls, h);
    OnlyCallsThen(cfg, s, ended, finished.steps + served, calls, h);
  }

  lemma NoCalls(cfg: Config, s: State, calls: map<U64, Request>, h: Handler)
    ensures OnlyCalls(cfg, s, [], calls, h)
  {
  }

  lemma {:induction false} LoopOnlyCalls(cfg: Config, s: State, attempts: seq<Attempt>, turns: seq<Turn>, s': State,
                                         calls: map<U64, Request>, h: Handler)
    requires forall i :: 0 <= i < |turns| ==> TurnServes(turns[i], calls, h)
    requires Reaches(cfg, s, LoopCourse(cfg, s, attempts, turns).steps, s')
    ensures OnlyCalls(cfg, s, LoopCourse(cfg, s, attempts, turns).steps, calls, h)
    decreases |turns|
  {
    hide TurnCourse, After, Reaches, OnlyCalls, TurnServes;
    NoCalls(cfg, s, calls, h);
    if turns != [] {
      var c := TurnCourse(cfg, s, attempts, turns[0]);
      if c.end.Going? {
        var next := After(cfg, s, c.steps);
        var rest := LoopCourse(cfg, next, c.attempts, turns[1..]).steps;
        ReachesSplit(cfg, s, c.steps, rest, s');
        TurnOnlyCalls(cfg, s, attempts, turns[0], next, calls, h);
        LoopOnlyCalls(cfg, next, c.attempts, turns[1..], s', calls, h);
        OnlyCallsThen(cfg, s, c.steps, rest, calls, h);
      } else {
        TurnOnlyCalls(cfg, s, attempts, turns[0], s', calls, h);
      }
    }
  }

  lemma {:induction false} ArrivalsReceived(steps: seq<Step>, c: U64)
    ensures Arrivals(steps, c) == PacketsFor(Received(steps), c)
  {
    if steps != [] {
      ArrivalsReceived(steps[1..], c);
      if steps[0].Receive? {
        PacketsForCons(steps[0].p, Received(steps[1..]), c);
      } else {
        assert [] + Received(steps[1..]) == Received(steps[1..]);
      }
    }
  }

  // What a turn leaves.

  lemma {:induction false} EndingsLeave(cfg: Config, s: State, ended: seq<(U64, Ending)>, s': State)
    requires Inv(s) && Reaches(cfg, s, Endings(s.jobs, s.running, ended), s')
    ensures Inv(s') && s'.phase == s.phase && forall c :: c in s'.running ==> c in s.running && !Listed(ended, c)
    decreases |ended|
  {
    hide Inv;
    RunningHaveJobs(s);
    if ended != [] {
      var corr, e, rest := ended[0].0, ended[0].1, ended[1..];
      forall c
        ensures Listed(ended, c) <==> corr == c || Listed(rest, c)
      {
        ListedHead(ended, c);
      }
      if corr in s.running {
        var step := Ends(s.jobs, s.running, corr, e);
        assert Endings(s.jobs, s.running, ended) == [step] + Endings(s.jobs, Without(s.running, corr), rest);
        var next := Take(cfg, s, step);
        StepKeepsInv(cfg, s, step);
        assert next.jobs == s.jobs && next.running == Without(s.running, corr);
        hide Reaches, Take, FinalResult, Listed;
        EndingsLeave(cfg, next, rest, s');
      } else {
        hide Listed;
        EndingsLeave(cfg, s, rest, s');
      }
    }
  }

  lemma {:induction false} FinishesLeave(cfg: Config, s: State, steps: seq<Step>, s': State)
    requires Inv(s) && Reaches(cfg, s, steps, s') && forall i :: 0 <= i < |steps| ==> steps[i].Finish?
    ensures Inv(s') && s'.running == s.running && |s'.done| == |s.done| - |steps|
    decreases |steps|
  {
    hide Inv, Take;
    if steps != [] {
      FinishLeaves(cfg, s, steps[0]);
      StepKeepsInv(cfg, s, steps[0]);
      FinishesLeave(cfg, Take(cfg, s, steps[0]), steps[1..], s');
    }
  }

  lemma FinishLeaves(cfg: Config, s: State, step: Step)
    requires step.Finish? && Enabled(s, step)
    ensures Take(cfg, s, step).running == s.running && |Take(cfg, s, step).done| == |s.done| - 1
  {
    hide Reply;
    ReplyFrame(cfg, s.(done := s.done[1..], jobs := Without(s.jobs, s.done[0].work.corr)),
               AnswerTo(s.done[0]), step.fault);
  }

  /** An event starts no handler and no job but its own correlation's, and queues no result. */
  lemma EventLeaves(cfg: Config, s: State, p: Packet, now: U64, fault: Option<nat>)
    ensures var t := OnEvent(cfg, s, p, now, fault);
            t.done == s.done && forall c :: c != p.corr ==>
              (c in t.running <==> c in s.running) && (c in t.jobs <==> c in s.jobs)
  {
    hide Judge, Reply;
    var v := Judge(cfg, s, p, now);
    if v.Refused? {
      ReplyFrame(cfg, s.(assemblies := Without(s.assemblies, p.corr), log := s.log + [Entry(p.corr, v)]),
                 v.answer, fault);
    }
  }

  /** A loop that goes on after a turn has replied to every result, those of the handlers the turn
      lists included: no job of theirs is left, unless the turn started a new one. */
  lemma TurnLeaves(cfg: Config, s: State, attempts: seq<Attempt>, turn: Turn, s': State)
    requires Inv(s) && TurnCourse(cfg, s, attempts, turn).end.Going?
    requires Reaches(cfg, s, TurnCourse(cfg, s, attempts, turn).steps, s')
    ensures Inv(s') && s'.done == []
    ensures forall c :: Listed(turn.ended, c) && (turn.polled.Event? ==> turn.polled.p.corr != c) ==> c !in s'.jobs
  {
    var ended := Endings(s.jobs, s.running, turn.ended);
    var s1 := After(cfg, s, ended);
    var finished := Finishes(cfg, s1.done, attempts);
    var s2 := After(cfg, s1, finished.steps);
    var served := ServeCourse(cfg, s2, finished.attempts, turn);
    FinishesMeaning(cfg, s1.done, attempts);
    hide Endings, Finishes, ServeCourse, After, Reaches, Listed, Inv;
    ReachesSplit(cfg, s, ended, finished.steps + served.steps, s');
    ReachesSplit(cfg, s1, finished.steps, served.steps, s');
    EndingsLeave(cfg, s, turn.ended, s1);
    FinishesLeave(cfg, s1, finished.steps, s2);
    ServeLeaves(cfg, s2, finished.attempts, turn, s');
    forall c | Listed(turn.ended, c) && (turn.polled.Event? ==> turn.polled.p.corr != c)
      ensures c !in s'.jobs
    {
      NoneLeft(s', c);
    }
  }

  lemma ServeLeaves(cfg: Config, s: State, attempts: seq<Attempt>, turn: Turn, s': State)
    requires Inv(s) && ServeCourse(cfg, s, attempts, turn).end.Going?
    requires Reaches(cfg, s, ServeCourse(cfg, s, attempts, turn).steps, s')
    ensures Inv(s') && s'.done == s.done
    ensures forall c :: (turn.polled.Event? ==> turn.polled.p.corr != c) ==> (c in s'.running <==> c in s.running)
  {
    RunKeepsInv(cfg, s, ServeCourse(cfg, s, attempts, turn).steps, s');
    if turn.polled.Event? {
      var p := turn.polled.p;
      EventLeaves(cfg, s, p, turn.now, EventFault(cfg, s, p, turn.now, attempts));
    }
    hide OnEvent, EventFault, AttemptsAfterEvent, Inv;
  }

  lemma NoneLeft(s: State, c: U64)
    requires Inv(s) && s.done == [] && c !in s.running
    ensures c !in s.jobs
  {
  }

  lemma {:induction false} NoNewJob(cfg: Config, s: State, steps: seq<Step>, s': State, c: U64)
    requires Reaches(cfg, s, steps, s') && c !in s.jobs && PacketsFor(Received(steps), c) == []
    ensures c !in s'.jobs
    decreases |steps|
  {
    if steps != [] {
      var rest := Received(steps[1..]);
      if steps[0].Receive? {
        PacketsForCons(steps[0].p, rest, c);
        EventLeaves(cfg, s, steps[0].p, steps[0].now, steps[0].fault);
      } else {
        assert [] + rest == rest;
        OtherStepJobs(cfg, s, steps[0], c);
      }
      hide Take, Reply, OnEvent, PacketsFor;
      NoNewJob(cfg, Take(cfg, s, steps[0]), steps[1..], s', c);
    }
  }

  lemma OtherStepJobs(cfg: Config, s: State, step: Step, c: U64)
    requires Enabled(s, step) && !step.Receive? && c !in s.jobs
    ensures c !in Take(cfg, s, step).jobs
  {
    hide Reply;
    if step.Finish? {
      ReplyFrame(cfg, s.(done := s.done[1..], jobs := Without(s.jobs, s.done[0].work.corr)),
                 AnswerTo(s.done[0]), step.fault);
    }
  }

  /** The course of some turns, and then of the others. */
  lemma {:induction false} LoopSplit(cfg: Config, s: State, attempts: seq<Attempt>, turns: seq<Turn>, k: nat, s': State)
    requires k <= |turns| && LoopCourse(cfg, s, attempts, turns).end.Going? && Inv(s)
    requires Reaches(cfg, s, LoopCourse(cfg, s, attempts, turns).steps, s')
    ensures var first := LoopCourse(cfg, s, attempts, turns[..k]);
            var mid := After(cfg, s, first.steps);
            var rest := LoopCourse(cfg, mid, first.attempts, turns[k..]);
            && first.end.Going? && rest.end.Going? && Inv(mid) && Reaches(cfg, mid, rest.steps, s')
    decreases k
  {
    hide TurnCourse, Reaches, Inv;
    if k == 0 {
      assert turns[..0] == [] && turns[0..] == turns;
    } else {
      var c := TurnCourse(cfg, s, attempts, turns[0]);
      var next := After(cfg, s, c.steps);
      var first := LoopCourse(cfg, next, c.attempts, turns[1..][..k - 1]);
      assert turns[..k][0] == turns[0] && turns[..k][1..] == turns[1..][..k - 1] && turns[1..][k - 1..] == turns[k..];
      hide After, LoopCourse;
      LoopCons(cfg, s, attempts, turns);
      LoopCons(cfg, s, attempts, turns[..k]);
      ReachesSplit(cfg, s, c.steps, LoopCourse(cfg, next, c.attempts, turns[1..]).steps, s');
      RunKeepsInv(cfg, s, c.steps, next);
      LoopSplit(cfg, next, c.attempts, turns[1..], k - 1, s');
      AfterThen(cfg, s, c.steps, first.steps);
    }
  }

  lemma LoopCons(cfg: Config, s: State, attempts: seq<Attempt>, turns: seq<Turn>)
    requires turns != []
    ensures var c := TurnCourse(cfg, s, attempts, turns[0]);
            && (LoopCourse(cfg, s, attempts, turns).end.Going? ==> c.end.Going?)
            && (c.end.Going? ==>
                  LoopCourse(cfg, s, attempts, turns) ==
                    Then(c.steps, LoopCourse(cfg, After(cfg, s, c.steps), c.attempts, turns[1..])))
  {
  }

  lemma {:induction false} AfterThen(cfg: Config, s: State, a: seq<Step>, b: seq<Step>)
    requires Reaches(cfg, s, a, After(cfg, s, a))
    ensures After(cfg, s, a + b) == After(cfg, After(cfg, s, a), b)
    decreases |a|
  {
    hide Take, Enabled;
    if a == [] {
      assert a + b == b;
    } else {
      assert (a + b)[1..] == a[1..] + b;
      AfterThen(cfg, Take(cfg, s, a[0]), a[1..], b);
    }
  }

  // What the loop does for the calls.

  /** The loop has taken these turns from its start, and goes on. */
  ghost predicate HasTaken(cfg: Config, attempts: seq<Attempt>, turns: seq<Turn>, s: State) {
    var course := LoopCourse(cfg, INITIAL, attempts, turns);
    course.end.Going? && s.phase.Serving? && Reaches(cfg, INITIAL, course.steps, s)
  }

  /** A turn lists the handler of the call as ended after its whole request has been polled. */
  ghost predicate AnswerDue(turns: seq<Turn>, r: Request, c: U64)
    requires Framable(|r.body|, r.budget)
  {
    exists k :: 0 <= k < |turns| && Listed(turns[k].ended, c)
                && PacketsFor(Events(turns[..k]), c) == RequestStream(r, c)
  }

  /** The call has been served; once its handler has ended no job of it is left; and then the
      packets sent back for it are exactly the one reply that carries what the handler returned for
      the request's bytes. */
  ghost predicate Fulfilled(cfg: Config, turns: seq<Turn>, s: State, r: Request, c: U64, h: Handler) {
    && CallOk(cfg, r, c) && Served(s, r, c, h)
    && (AnswerDue(turns, r, c) ==> c !in s.jobs)
    && (c !in s.jobs ==> PacketsFor(s.replies, c) == ReplyStream(Normal(AnswerTo(ResultOf(r, c, h))), cfg.budget))
  }

  lemma {:induction false} EventsConcat(a: seq<Turn>, b: seq<Turn>)
    ensures Events(a + b) == Events(a) + Events(b)
  {
    if a == [] {
      assert a + b == b && Events(a) + Events(b) == Events(b);
    } else {
      EventsConcat(a[1..], b);
      EventsHead(a);
      EventsHead(a + b);
      hide Events;
      assert (a + b)[0] == a[0] && (a + b)[1..] == a[1..] + b;
    }
  }

  /** Once every event of c has been polled none is left to come. */
  lemma NoneToCome(turns: seq<Turn>, k: nat, c: U64)
    requires k < |turns| && PacketsFor(Events(turns[..k]), c) == PacketsFor(Events(turns), c)
    ensures turns[k].polled.Event? ==> turns[k].polled.p.corr != c
    ensures PacketsFor(Events(turns[k + 1..]), c) == []
  {
    var before, later := turns[..k], turns[k..];
    EventsConcat(before, later);
    assert turns == before + later && later[0] == turns[k] && later[1..] == turns[k + 1..];
    PacketsForConcat(Events(before), Events(later), c);
    assert PacketsFor(Events(later), c) == [];
    if turns[k].polled.Event? {
      PacketsForCons(turns[k].polled.p, Events(later[1..]), c);
    } else {
      assert [] + Events(later[1..]) == Events(later[1..]);
    }
  }

  /** A call whose answer is due has been answered: its job is gone. */
  lemma DueIsDone(cfg: Config, attempts: seq<Attempt>, turns: seq<Turn>, s: State, r: Request, c: U64)
    requires Framable(|r.body|, r.budget) && PacketsFor(Events(turns), c) == RequestStream(r, c)
    requires HasTaken(cfg, attempts, turns, s) && AnswerDue(turns, r, c)
    ensures c !in s.jobs
  {
    var k :| 0 <= k < |turns| && Listed(turns[k].ended, c) && PacketsFor(Events(turns[..k]), c) == RequestStream(r, c);
    NoneToCome(turns, k, c);
    InitialInv();
    hide LoopCourse, TurnCourse, Reaches, Inv, After, RequestStream, PacketsFor, Listed, Events;
    LoopSplit(cfg, INITIAL, attempts, turns, k, s);
    var first := LoopCourse(cfg, INITIAL, attempts, turns[..k]);
    var mid := After(cfg, INITIAL, first.steps);
    assert turns[k..][0] == turns[k] && turns[k..][1..] == turns[k + 1..];
    LoopCons(cfg, mid, first.attempts, turns[k..]);
    var c0 := TurnCourse(cfg, mid, first.attempts, turns[k]);
    var next := After(cfg, mid, c0.steps);
    var rest := LoopCourse(cfg, next, c0.attempts, turns[k + 1..]);
    ReachesSplit(cfg, mid, c0.steps, rest.steps, s);
    TurnLeaves(cfg, mid, first.attempts, turns[k], next);
    LoopReceives(cfg, next, c0.attempts, turns[k + 1..]);
    NoNewJob(cfg, next, rest.steps, s, c);
  }

  lemma TurnsAreUndisturbed(cfg: Config, attempts: seq<Attempt>, turns: seq<Turn>, s: State,
                            calls: map<U64, Request>, c: U64, h: Handler)
    requires TurnsServe(cfg, turns, calls, h) && HasTaken(cfg, attempts, turns, s) && c in calls
    ensures var steps := LoopCourse(cfg, INITIAL, attempts, turns).steps;
            && CallOk(cfg, calls[c], c) && Arrivals(steps, c) == RequestStream(calls[c], c)
            && Undisturbed(cfg, INITIAL, steps, calls[c], c, h) && Served(s, calls[c], c, h)
  {
    var steps := LoopCourse(cfg, INITIAL, attempts, turns).steps;
    assert CallOk(cfg, calls[c], c);
    hide LoopCourse, Reaches, TurnServes, RequestStream, PacketsFor, Served, Undisturbed, CallOk;
    LoopOnlyCalls(cfg, INITIAL, attempts, turns, s, calls, h);
    LoopReceives(cfg, INITIAL, attempts, turns);
    ArrivalsReceived(steps, c);
    CallIsServed(cfg, steps, s, calls, c, h);
  }

  /** The turns alone decide it: when they bring the streams of at most sixteen calls, merged in
      any way, and the loop goes on, every call has been started once with its request's bytes and
      answered with its handler's answer. */
  lemma LoopServes(cfg: Config, attempts: seq<Attempt>, turns: seq<Turn>, s: State,
                   calls: map<U64, Request>, h: Handler)
    requires TurnsServe(cfg, turns, calls, h) && HasTaken(cfg, attempts, turns, s)
    ensures forall c :: c in calls ==> Fulfilled(cfg, turns, s, calls[c], c, h)
  {
    var steps := LoopCourse(cfg, INITIAL, attempts, turns).steps;
    hide TurnsServe, LoopCourse, Served, Undisturbed, RequestStream, ReplyStream, ResultOf, PacketsFor;
    forall c | c in calls
      ensures Fulfilled(cfg, turns, s, calls[c], c, h)
    {
      TurnsAreUndisturbed(cfg, attempts, turns, s, calls, c, h);
      CallPackets(cfg, turns, calls, c, h);
      if AnswerDue(turns, calls[c], c) {
        DueIsDone(cfg, attempts, turns, s, calls[c], c);
      }
      if c !in s.jobs {
        CallIsAnswered(cfg, steps, s, calls[c], c, h);
      }
    }
  }

  lemma CallPackets(cfg: Config, turns: seq<Turn>, calls: map<U64, Request>, c: U64, h: Handler)
    requires TurnsServe(cfg, turns, calls, h) && c in calls
    ensures CallOk(cfg, calls[c], c) && PacketsFor(Events(turns), c) == RequestStream(calls[c], c)
  {
    hide TurnServes, PacketsFor, RequestStream;
    assert CallOk(cfg, calls[c], c);
  }

  /** And so a caller whose fragments the bus takes, and whom the loop's replies reach in order,
      ends its call with what the handler returns for its request's bytes. */
  lemma CallerGetsAnswer(cfg: Config, attempts: seq<Attempt>, turns: seq<Turn>, s: State,
                         calls: map<U64, Request>, c: U64, h: Handler,
                         script: seq<Client.SendResult>, polls: seq<Poll>)
    requires TurnsServe(cfg, turns, calls, h) && HasTaken(cfg, attempts, turns, s)
    requires c in calls && c != 0 && Framable(|calls[c].body|, calls[c].budget)
    requires AnswerDue(turns, calls[c], c) || c !in s.jobs
    requires calls[c].kind != KIND_CAPABILITY_ABSENT && calls[c].kind != KIND_ERROR
    requires Takes(script, |RequestStream(calls[c], c)|)
    requires Calm(polls) && Mine(polls, c) == PacketsFor(s.replies, c)
    ensures Conclude(calls[c], c, script, polls).outcome == HandlersOutcome(calls[c], h)
  {
    var steps := LoopCourse(cfg, INITIAL, attempts, turns).steps;
    hide TurnsServe, LoopCourse, Served, Undisturbed, RequestStream, PacketsFor, Conclude, Takes, Calm, Mine,
         HandlersOutcome;
    TurnsAreUndisturbed(cfg, attempts, turns, s, calls, c, h);
    CallPackets(cfg, turns, calls, c, h);
    if AnswerDue(turns, calls[c], c) {
      DueIsDone(cfg, attempts, turns, s, calls[c], c);
    }
    assert Carried(cfg, steps, s, calls[c], c, h, RequestStream(calls[c], c), polls);
    CallReturnsHandlersAnswer(cfg, steps, s, calls[c], c, h, script, polls);
  }

  /** The same of the loop as it runs, from its start. */
  method ServeCalls(server: Server, turns: seq<Turn>, endings: U64 -> Ending,
                    ghost calls: map<U64, Request>, ghost h: Handler) returns (end: LoopEnd)
    requires server.Now() == INITIAL && TurnsServe(server.cfg, turns, calls, h)
    modifies server
    ensures end.Going? ==> HasTaken(server.cfg, old(server.attempts), turns, server.Now())
    ensures end.Going? ==> forall c :: c in calls ==> Fulfilled(server.cfg, turns, server.Now(), calls[c], c, h)
  {
    InitialInv();
    hide Inv, Reaches, KeptTo, LoopCourse, TurnsServe, Fulfilled, HasTaken;
    ghost var steps;
    end, steps := server.RunModuleClient(turns, endings);
    if end.Going? {
      GoingHasTaken(server.cfg, old(server.attempts), turns, steps, server.attempts, server.Now());
      LoopServes(server.cfg, old(server.attempts), turns, server.Now(), calls, h);
    }
  }

  lemma GoingHasTaken(cfg: Config, attempts: seq<Attempt>, turns: seq<Turn>, steps: seq<Step>,
                      left: seq<Attempt>, s: State)
    requires KeptTo(LoopCourse(cfg, INITIAL, attempts, turns), Going, steps, left)
    requires s.phase.Serving? && Reaches(cfg, INITIAL, steps, s)
    ensures HasTaken(cfg, attempts, turns, s)
  {
    hide LoopCourse, Reaches;
  }
}
