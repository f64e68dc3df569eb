/** The serving loop as it runs: the maps, the result channel and the reply loop, updated in
    place, each method tied to the state machine's step. */
module RuntimeServer {
  import opened Bits
  import opened Bytes
  import opened Wrappers
  import opened ModuleProtocol
  import opened Fragments
  import opened Runtime

  /** What one attempt to send a reply fragment meets: taken, or the ring was full and then the
      context ended, the host restarted, or nothing happened, or the bus broke. */
  datatype Attempt = Accepted | Blocked | BlockedThenCancelled | BlockedThenRestarted | Broken

  /** How a handler ends: what it makes of what it was given, and when. */
  datatype Ending = Ending(handler: Handler, now: U64)

  datatype Polled = Quiet | Failed | Event(p: Packet)

  /** One turn of the loop: the handlers that end before it, whether the context has ended or the
      host restarted, the clock, and what the poll brings. */
  datatype Turn = Turn(ended: seq<(U64, Ending)>, cancelled: bool, epochChanged: bool, now: U64, polled: Polled)

  datatype LoopEnd = Going | Drained | EpochChanged | BusError

  /** What a fragment comes to: taken or not, and the attempts left. */
  datatype Settled = Settled(ok: bool, rest: seq<Attempt>)

  /** A full ring is tried again; anything else settles the fragment. Attempts that run out end
      like a context that ends. */
  function Settle(attempts: seq<Attempt>): Settled {
    if attempts == [] then Settled(false, [])
    else if attempts[0].Blocked? then Settle(attempts[1..])
    else Settled(attempts[0].Accepted?, attempts[1..])
  }

  /** How many of the next n fragments go out before one does not, and the attempts left. */
  datatype Progress = Progress(sent: nat, rest: seq<Attempt>)

  function Deliver(attempts: seq<Attempt>, n: nat): (p: Progress)
    ensures p.sent <= n
    decreases n
  {
    if n == 0 then Progress(0, attempts)
    else
      var s := Settle(attempts);
      if !s.ok then Progress(0, s.rest)
      else
        var p := Deliver(s.rest, n - 1);
        Progress(p.sent + 1, p.rest)
  }

  /** The first n packets of the stream are out, and the attempts left settle the others. */
  ghost predicate Delivering(before: seq<Packet>, script: seq<Attempt>, stream: seq<Packet>, n: nat,
                             replies: seq<Packet>, attempts: seq<Attempt>)
  {
    && n <= |stream| && replies == before + stream[..n]
    && var p := Deliver(attempts, |stream| - n);
       Deliver(script, |stream|) == Progress(n + p.sent, p.rest)
  }

  lemma DeliveringStart(before: seq<Packet>, script: seq<Attempt>, stream: seq<Packet>)
    ensures Delivering(before, script, stream, 0, before, script)
  {
    assert stream[..0] == [];
    hide Deliver;
  }

  lemma DeliveringNext(before: seq<Packet>, script: seq<Attempt>, stream: seq<Packet>, n: nat,
                       replies: seq<Packet>, attempts: seq<Attempt>)
    requires Delivering(before, script, stream, n, replies, attempts) && n < |stream|
    ensures var s := Settle(attempts);
            if s.ok then Delivering(before, script, stream, n + 1, replies + [stream[n]], s.rest)
            else Deliver(script, |stream|) == Progress(n, s.rest) && replies + [] == before + stream[..n]
  {
    assert stream[..n + 1] == stream[..n] + [stream[n]];
    hide Settle;
  }

  lemma DeliveringAll(before: seq<Packet>, script: seq<Attempt>, stream: seq<Packet>, n: nat,
                      replies: seq<Packet>, attempts: seq<Attempt>)
    requires Delivering(before, script, stream, n, replies, attempts) && n == |stream|
    ensures Deliver(script, |stream|) == Progress(n, attempts) && replies == before + stream[..n]
  {
  }

  /** The attempts that do not just find the ring full. */
  function Heard(attempts: seq<Attempt>): seq<Attempt> {
    if attempts == [] then []
    else if attempts[0].Blocked? then Heard(attempts[1..])
    else [attempts[0]] + Heard(attempts[1..])
  }

  lemma {:induction false} SettleHears(attempts: seq<Attempt>)
    ensures Settle(attempts).ok <==> Heard(attempts) != [] && Heard(attempts)[0].Accepted?
    ensures Heard(attempts) != [] ==> Heard(Settle(attempts).rest) == Heard(attempts)[1..]
  {
    if attempts != [] && attempts[0].Blocked? {
      SettleHears(attempts[1..]);
    }
  }

  /** However often the ring is full, n fragments all go out exactly when the first n attempts that
      find it otherwise are taken. */
  lemma {:induction false} DeliversAll(attempts: seq<Attempt>, n: nat)
    ensures Deliver(attempts, n).sent == n <==>
              n <= |Heard(attempts)| && forall i :: 0 <= i < n ==> Heard(attempts)[i].Accepted?
    decreases n
  {
    if n > 0 {
      SettleHears(attempts);
      DeliversAll(Settle(attempts).rest, n - 1);
      var h := Heard(attempts);
      if h != [] {
        assert forall i :: 1 <= i < |h| ==> h[i] == h[1..][i - 1];
        assert forall i :: 0 <= i < |h| - 1 ==> h[1..][i] == h[i + 1];
      }
    }
  }

  /** Where the bus cuts a reply short, if it does. */
  function FaultOf(cfg: Config, a: Answer, attempts: seq<Attempt>): Option<nat> {
    if !BudgetOk(cfg.budget) || a.stageID == 0 then None
    else
      var n := |ReplyStream(Normal(a), cfg.budget)|;
      var sent := Deliver(attempts, n).sent;
      if sent == n then None else Some(sent)
  }

  function AttemptsAfter(cfg: Config, a: Answer, attempts: seq<Attempt>): seq<Attempt> {
    if !BudgetOk(cfg.budget) || a.stageID == 0 then attempts
    else Deliver(attempts, |ReplyStream(Normal(a), cfg.budget)|).rest
  }

  /** The loop goes on serving after a reply exactly when the reply could be framed and the bus took
      every fragment of it; and then exactly that reply has gone out, whole. */
  lemma ReplyDelivered(cfg: Config, s: State, a: Answer, attempts: seq<Attempt>)
    requires s.phase.Serving?
    ensures var t := Reply(cfg, s, a, FaultOf(cfg, a, attempts));
            && (t.phase.Serving? <==>
                  && BudgetOk(cfg.budget) && a.stageID != 0
                  && |ReplyStream(Normal(a), cfg.budget)| <= |Heard(attempts)|
                  && forall i :: 0 <= i < |ReplyStream(Normal(a), cfg.budget)| ==> Heard(attempts)[i].Accepted?)
            && (t.phase.Serving? ==> t.replies == s.replies + ReplyStream(Normal(a), cfg.budget))
  {
    if BudgetOk(cfg.budget) && a.stageID != 0 {
      DeliversAll(attempts, |ReplyStream(Normal(a), cfg.budget)|);
    }
    hide Deliver, Heard, ReplyStream;
  }

  /** The same of an event, which is replied to only when it is refused. */
  function EventFault(cfg: Config, s: State, p: Packet, now: U64, attempts: seq<Attempt>): Option<nat> {
    var v := Judge(cfg, s, p, now);
    if v.Refused? then FaultOf(cfg, v.answer, attempts) else None
  }

  function AttemptsAfterEvent(cfg: Config, s: State, p: Packet, now: U64, attempts: seq<Attempt>): seq<Attempt> {
    var v := Judge(cfg, s, p, now);
    if v.Refused? then AttemptsAfter(cfg, v.answer, attempts) else attempts
  }

  // What one pass of the loop does, and in what order.

  /** The steps taken, how they end, and the attempts left. */
  datatype Course = Course(steps: seq<Step>, end: LoopEnd, attempts: seq<Attempt>)

  function Then(first: seq<Step>, rest: Course): Course {
    rest.(steps := first + rest.steps)
  }

  function Ends(jobs: map<U64, Job>, running: map<U64, ByteSeq>, corr: U64, e: Ending): Step
    requires corr in running && corr in jobs
  {
    var (response, status) := e.handler(jobs[corr].work.invocation, running[corr]);
    HandlerReturns(corr, response, status, e.now)
  }

  /** One return for each listed handler that is still running. */
  function Endings(jobs: map<U64, Job>, running: map<U64, ByteSeq>, ended: seq<(U64, Ending)>): seq<Step>
    decreases |ended|
  {
    if ended == [] then []
    else
      var (corr, e) := ended[0];
      if corr in running && corr in jobs then
        [Ends(jobs, running, corr, e)] + Endings(jobs, Without(running, corr), ended[1..])
      else Endings(jobs, running, ended[1..])
  }

  predicate Delivered(cfg: Config, a: Answer, attempts: seq<Attempt>) {
    BudgetOk(cfg.budget) && a.stageID != 0 && FaultOf(cfg, a, attempts).None?
  }

  /** One reply for each result in turn, up to the first that is not delivered. */
  function Finishes(cfg: Config, done: seq<ModuleResult>, attempts: seq<Attempt>): Course
    decreases |done|
  {
    if done == [] then Course([], Going, attempts)
    else
      var a := AnswerTo(done[0]);
      var step, left := Finish(FaultOf(cfg, a, attempts)), AttemptsAfter(cfg, a, attempts);
      if Delivered(cfg, a, attempts) then Then([step], Finishes(cfg, done[1..], left))
      else Course([step], BusError, left)
  }

  /** Shutdown, a restarted host, or one poll. */
  function ServeCourse(cfg: Config, s: State, attempts: seq<Attempt>, turn: Turn): Course {
    if turn.cancelled then Course([Shutdown], Drained, attempts)
    else if turn.epochChanged then Course([Leave], EpochChanged, attempts)
    else
      match turn.polled
      case Quiet => Course([], Going, attempts)
      case Failed => Course([Leave], BusError, attempts)
      case Event(p) =>
        var fault := EventFault(cfg, s, p, turn.now, attempts);
        Course([Receive(p, turn.now, fault)],
               if OnEvent(cfg, s, p, turn.now, fault).phase.Serving? then Going else BusError,
               AttemptsAfterEvent(cfg, s, p, turn.now, attempts))
  }

  /** The state that steps lead to. */
  function After(cfg: Config, s: State, steps: seq<Step>): State
    decreases |steps|
  {
    if steps == [] || !Enabled(s, steps[0]) then s else After(cfg, Take(cfg, s, steps[0]), steps[1..])
  }

  lemma {:induction false} ReachesAfter(cfg: Config, s: State, steps: seq<Step>, s': State)
    requires Reaches(cfg, s, steps, s')
    ensures After(cfg, s, steps) == s'
    decreases |steps|
  {
    hide Take, Enabled;
    if steps != [] {
      ReachesAfter(cfg, Take(cfg, s, steps[0]), steps[1..], s');
    }
  }

  /** One turn: the handlers that have ended queue their results, every result is replied to, and
      then the loop serves. */
  function TurnCourse(cfg: Config, s: State, attempts: seq<Attempt>, turn: Turn): Course {
    var ended := Endings(s.jobs, s.running, turn.ended);
    var s1 := After(cfg, s, ended);
    var finished := Finishes(cfg, s1.done, attempts);
    if !finished.end.Going? then Then(ended, finished)
    else Then(ended, Then(finished.steps, ServeCourse(cfg, After(cfg, s1, finished.steps), finished.attempts, turn)))
  }

  /** Every turn up to the one that ends the loop. */
  function LoopCourse(cfg: Config, s: State, attempts: seq<Attempt>, turns: seq<Turn>): Course
    decreases |turns|
  {
    if turns == [] then Course([], Going, attempts)
    else
      var c := TurnCourse(cfg, s, attempts, turns[0]);
      if !c.end.Going? then c else Then(c.steps, LoopCourse(cfg, After(cfg, s, c.steps), c.attempts, turns[1..]))
  }

  /** The loop has kept to a course; only the results it waits for at the end come in no set order. */
  ghost predicate KeptTo(c: Course, end: LoopEnd, steps: seq<Step>, attempts: seq<Attempt>) {
    && end == c.end && attempts == c.attempts && c.steps <= steps
    && OnlyDrains(steps[|c.steps|..]) && (!end.Drained? ==> steps == c.steps)
  }

  ghost predicate OnlyDrains(steps: seq<Step>) {
    forall i :: 0 <= i < |steps| ==> steps[i].HandlerReturns? || steps[i].Drain?
  }

  /** The turn makes the loop stop of itself: its context has ended, the host has restarted, or the
      poll has failed. */
  predicate Stops(turn: Turn) {
    turn.cancelled || turn.epochChanged || turn.polled.Failed?
  }

  /** Why the loop ends in a turn, the first reason that holds: a reply not delivered, its context,
      the host, the poll, or a refusal not delivered. */
  ghost predicate EndsAt(turn: Turn, end: LoopEnd, steps: seq<Step>) {
    match end
    case Going => false
    case Drained => turn.cancelled
    case EpochChanged => turn.epochChanged && !turn.cancelled && Last(steps) == Some(Leave)
    case BusError =>
      match Last(steps)
      case Some(Finish(_)) => true
      case Some(Leave) => turn.polled.Failed? && !turn.cancelled && !turn.epochChanged
      case Some(Receive(p, _, _)) => turn.polled == Event(p) && !turn.cancelled && !turn.epochChanged
      case _ => false
  }

  ghost function Last(steps: seq<Step>): Option<Step> {
    if steps == [] then None else Some(steps[|steps| - 1])
  }

  lemma EndsAtThen(turn: Turn, end: LoopEnd, first: seq<Step>, steps: seq<Step>)
    requires !end.Going? ==> EndsAt(turn, end, steps)
    ensures !end.Going? ==> EndsAt(turn, end, first + steps)
  {
  }

  lemma KeptToThen(first: seq<Step>, c: Course, end: LoopEnd, steps: seq<Step>, attempts: seq<Attempt>)
    requires KeptTo(c, end, steps, attempts)
    ensures KeptTo(Then(first, c), end, first + steps, attempts)
  {
    assert (first + steps)[|first + c.steps|..] == steps[|c.steps|..];
  }

  lemma ThenThen(a: seq<Step>, b: seq<Step>, c: Course)
    ensures Then(a, Then(b, c)) == Then(a + b, c)
  {
    assert a + (b + c.steps) == a + b + c.steps;
  }

  /** Replying goes on exactly through the results delivered whole. */
  lemma {:induction false} FinishesMeaning(cfg: Config, done: seq<ModuleResult>, attempts: seq<Attempt>)
    ensures var c := Finishes(cfg, done, attempts);
            && |c.steps| <= |done| && (forall i :: 0 <= i < |c.steps| ==> c.steps[i].Finish?)
            && (forall i :: 0 <= i < |c.steps| - 1 ==> c.steps[i].fault.None?)
            && (c.end.Going? || c.end.BusError?)
            && (c.end.Going? ==> |c.steps| == |done| && forall i :: 0 <= i < |c.steps| ==> c.steps[i].fault.None?)
            && (!c.end.Going? ==>
                  && c.steps != []
                  && (!BudgetOk(cfg.budget) || AnswerTo(done[|c.steps| - 1]).stageID == 0
                      || c.steps[|c.steps| - 1].fault.Some?))
    decreases |done|
  {
    hide FaultOf, AttemptsAfter;
    if done != [] && Delivered(cfg, AnswerTo(done[0]), attempts) {
      FinishesMeaning(cfg, done[1..], AttemptsAfter(cfg, AnswerTo(done[0]), attempts));
    }
  }

  // What is received is what was polled.

  function Received(steps: seq<Step>): seq<Packet> {
    if steps == [] then []
    else (if steps[0].Receive? then [steps[0].p] else []) + Received(steps[1..])
  }

  function Events(turns: seq<Turn>): seq<Packet> {
    if turns == [] then []
    else (if turns[0].polled.Event? then [turns[0].polled.p] else []) + Events(turns[1..])
  }

  lemma {:induction false} ReceivedConcat(a: seq<Step>, b: seq<Step>)
    ensures Received(a + b) == Received(a) + Received(b)
  {
    if a == [] {
      assert a + b == b;
    } else {
      ReceivedConcat(a[1..], b);
      assert (a + b)[1..] == a[1..] + b;
    }
  }

  lemma {:induction false} NoneReceived(steps: seq<Step>)
    requires forall i :: 0 <= i < |steps| ==> !steps[i].Receive?
    ensures Received(steps) == []
  {
    if steps != [] {
      NoneReceived(steps[1..]);
    }
  }

  ghost predicate Listed(ended: seq<(U64, Ending)>, c: U64) {
    exists k :: 0 <= k < |ended| && ended[k].0 == c
  }

  ghost predicate ReturnsOf(steps: seq<Step>, c: U64) {
    exists i :: 0 <= i < |steps| && steps[i].HandlerReturns? && steps[i].corr == c
  }

  lemma ListedHead(ended: seq<(U64, Ending)>, c: U64)
    requires ended != []
    ensures Listed(ended, c) <==> ended[0].0 == c || Listed(ended[1..], c)
  {
    if Listed(ended, c) && ended[0].0 != c {
      var k :| 0 <= k < |ended| && ended[k].0 == c;
      assert ended[1..][k - 1].0 == c;
    }
  }

  lemma ReturnsHead(step: Step, steps: seq<Step>, c: U64)
    requires step.HandlerReturns?
    ensures ReturnsOf([step] + steps, c) <==> step.corr == c || ReturnsOf(steps, c)
  {
    var all := [step] + steps;
    assert all[0] == step && forall i :: 0 <= i < |steps| ==> all[i + 1] == steps[i];
    if ReturnsOf(all, c) && step.corr != c {
      var i :| 0 <= i < |all| && all[i].HandlerReturns? && all[i].corr == c;
      assert steps[i - 1].corr == c;
    }
  }

  ghost predicate EachOnce(steps: seq<Step>) {
    && (forall i :: 0 <= i < |steps| ==> steps[i].HandlerReturns?)
    && (forall i, j :: 0 <= i < j < |steps| ==> steps[i].corr != steps[j].corr)
  }

  lemma EachOnceCons(step: Step, steps: seq<Step>)
    requires EachOnce(steps) && step.HandlerReturns? && !ReturnsOf(steps, step.corr)
    ensures EachOnce([step] + steps)
  {
    var all := [step] + steps;
    assert all[0] == step && forall i :: 1 <= i < |all| ==> all[i] == steps[i - 1];
  }

  /** Exactly the listed handlers that are still running return, each once. */
  lemma {:induction false} EndingsMeaning(jobs: map<U64, Job>, running: map<U64, ByteSeq>, ended: seq<(U64, Ending)>)
    ensures EachOnce(Endings(jobs, running, ended))
    ensures forall c ::
              ReturnsOf(Endings(jobs, running, ended), c) <==> c in running && c in jobs && Listed(ended, c)
    decreases |ended|
  {
    hide EachOnce, Listed, ReturnsOf;
    if ended == [] {
      NoEndings();
    } else {
      var corr, e, rest := ended[0].0, ended[0].1, ended[1..];
      forall c
        ensures Listed(ended, c) <==> corr == c || Listed(rest, c)
      {
        ListedHead(ended, c);
      }
      if corr in running && corr in jobs {
        var step, steps := Ends(jobs, running, corr, e), Endings(jobs, Without(running, corr), rest);
        EndingsMeaning(jobs, Without(running, corr), rest);
        EachOnceCons(step, steps);
        forall c
          ensures ReturnsOf([step] + steps, c) <==> corr == c || ReturnsOf(steps, c)
        {
          ReturnsHead(step, steps, c);
        }
      } else {
        EndingsMeaning(jobs, running, rest);
      }
    }
  }

  lemma NoEndings()
    ensures EachOnce([]) && forall c :: !ReturnsOf([], c) && !Listed([], c)
  {
  }

  lemma NoneYet()
    ensures Received([]) == [] && Events([]) == []
  {
  }

  lemma TurnReceives(cfg: Config, s: State, attempts: seq<Attempt>, turn: Turn)
    ensures var c := TurnCourse(cfg, s, attempts, turn);
            && (c.end.Going? ==> Received(c.steps) == Events([turn]))
            && Received(c.steps) <= Events([turn])
  {
    var ended := Endings(s.jobs, s.running, turn.ended);
    var s1 := After(cfg, s, ended);
    var finished := Finishes(cfg, s1.done, attempts);
    EndingsMeaning(s.jobs, s.running, turn.ended);
    FinishesMeaning(cfg, s1.done, attempts);
    hide Endings, Finishes, After;
    NoneReceived(ended);
    NoneReceived(finished.steps);
    ReceivedConcat(ended, finished.steps);
    var s2 := After(cfg, s1, finished.steps);
    ServeReceives(cfg, s2, finished.attempts, turn);
    hide Received, Events;
    var served := ServeCourse(cfg, s2, finished.attempts, turn);
    hide ServeCourse;
    ReceivedConcat(finished.steps, served.steps);
    ReceivedConcat(ended, finished.steps + served.steps);
  }

  lemma ServeReceives(cfg: Config, s: State, attempts: seq<Attempt>, turn: Turn)
    ensures var c := ServeCourse(cfg, s, attempts, turn);
            && (c.end.Going? ==> Received(c.steps) == Events([turn]))
            && Received(c.steps) <= Events([turn])
  {
    hide OnEvent, EventFault, AttemptsAfterEvent;
  }

  lemma EventsHead(turns: seq<Turn>)
    requires turns != []
    ensures Events(turns) == Events([turns[0]]) + Events(turns[1..])
  {
    assert [turns[0]][1..] == [];
  }

  /** The loop receives the events polled, in order: all of them while it goes on, and otherwise
      those up to the turn that ends it. */
  lemma {:induction false} LoopReceives(cfg: Config, s: State, attempts: seq<Attempt>, turns: seq<Turn>)
    ensures var c := LoopCourse(cfg, s, attempts, turns);
            Received(c.steps) <= Events(turns) && (c.end.Going? ==> Received(c.steps) == Events(turns))
    decreases |turns|
  {
    NoneYet();
    if turns != [] {
      var c := TurnCourse(cfg, s, attempts, turns[0]);
      TurnReceives(cfg, s, attempts, turns[0]);
      EventsHead(turns);
      hide TurnCourse, After, Received, Events;
      if c.end.Going? {
        var next := After(cfg, s, c.steps);
        LoopReceives(cfg, next, c.attempts, turns[1..]);
        ReceivedConcat(c.steps, LoopCourse(cfg, next, c.attempts, turns[1..]).steps);
      }
    }
  }

  class Server {
    const cfg: Config
    var assemblies: map<U64, Assembly>
    var jobs: map<U64, Job>
    var running: map<U64, ByteSeq>
    var done: seq<ModuleResult>
    var replies: seq<Packet>
    var phase: Phase
    var attempts: seq<Attempt>
    ghost var answered: seq<Answer>
    ghost var log: seq<Entry>

    ghost function Now(): State
      reads this
    {
      State(assemblies, jobs, running, done, replies, answered, log, phase)
    }

    constructor (cfg: Config, attempts: seq<Attempt>)
      ensures this.cfg == cfg && this.attempts == attempts && Now() == INITIAL
    {
      this.cfg := cfg;
      this.attempts := attempts;
      assemblies, jobs, running := map[], map[], map[];
      done, replies := [], [];
      answered, log := [], [];
      phase := Serving;
    }

    /** Sends one reply packet, retrying while the ring is full. */
    method SendFragment(p: Packet) returns (ok: bool)
      modifies this`attempts, this`replies
      ensures Settled(ok, attempts) == Settle(old(attempts))
      ensures replies == if ok then old(replies) + [p] else old(replies)
    {
      while attempts != []
        invariant replies == old(replies) && Settle(attempts) == Settle(old(attempts))
        decreases |attempts|
      {
        var attempt := attempts[0];
        attempts := attempts[1..];
        match attempt {
          case Accepted =>
            replies := replies + [p];
            return true;
          case Blocked =>
          case _ => return false;
        }
      }
      return false;
    }

    /** Sends the reply fragment that starts at `offset`. */
    method ReplyPiece(a: Answer, offset: nat, ghost i: nat) returns (ok: bool, part: nat)
      requires BudgetOk(cfg.budget) && |a.body| <= MAX_BODY && offset <= |a.body|
      requires i < |Pieces(a.body, Chunk(cfg.budget))|
      requires Pieces(a.body[offset..], Chunk(cfg.budget)) == Pieces(a.body, Chunk(cfg.budget))[i..]
      modifies this`attempts, this`replies
      ensures part == if |a.body| - offset > Chunk(cfg.budget) then Chunk(cfg.budget) else |a.body| - offset
      ensures Settled(ok, attempts) == Settle(old(attempts))
      ensures replies == old(replies) + if ok then [ReplyStream(a, cfg.budget)[i]] else []
    {
      PiecesHead(a.body, Chunk(cfg.budget), offset, i);
      PieceFits(a.body, Chunk(cfg.budget), i);
      ReplyStreamAt(a, cfg.budget, i);
      hide Pieces, ReplyStream, ReplyPacket;
      part := |a.body| - offset;
      if part > Chunk(cfg.budget) {
        part := Chunk(cfg.budget);
      }
      ok := SendFragment(ReplyPacket(a, Piece(a.body[offset..offset + part], offset + part < |a.body|)));
    }

    /** Cuts a body to the inline budget and sends it fragment by fragment, as far as the bus takes them. */
    method SendFragments(a: Answer) returns (ok: bool)
      requires BudgetOk(cfg.budget) && |a.body| <= MAX_BODY
      modifies this`attempts, this`replies
      ensures var stream := ReplyStream(a, cfg.budget);
              var p := Deliver(old(attempts), |stream|);
              && (ok <==> p.sent == |stream|) && attempts == p.rest
              && replies == old(replies) + stream[..p.sent]
    {
      ghost var stream, before, script := ReplyStream(a, cfg.budget), replies, attempts;
      var first := true;
      var offset := 0;
      ghost var n := 0;
      UnderwayStart(a.body, Chunk(cfg.budget));
      DeliveringStart(before, script, stream);
      hide Pieces, ReplyStream, Underway, Deliver, Settle, Delivering;
      while first || offset < |a.body|
        invariant 0 <= offset <= |a.body| && Underway(a.body, Chunk(cfg.budget), first, offset, n)
        invariant first ==> n == 0 && offset == 0
        invariant Delivering(before, script, stream, n, replies, attempts)
        decreases |a.body| - offset, first
      {
        UnderwayNext(a.body, Chunk(cfg.budget), first, offset, n);
        DeliveringNext(before, script, stream, n, replies, attempts);
        first := false;
        var part;
        ok, part := ReplyPiece(a, offset, n);
        if !ok {
          return;
        }
        offset := offset + part;
        n := n + 1;
      }
      AllOut(a.body, Chunk(cfg.budget), offset, n);
      DeliveringAll(before, script, stream, n, replies, attempts);
      ok := true;
    }

    /** Sends one whole reply, or as much of it as the bus takes. */
    method ReplyModuleResult(answer: Answer) returns (ok: bool)
      requires phase.Serving?
      modifies this`attempts, this`replies, this`answered
      ensures var t := Reply(cfg, old(Now()), answer, FaultOf(cfg, answer, old(attempts)));
              Now() == t.(phase := Serving) && (ok <==> t.phase.Serving?)
      ensures attempts == AttemptsAfter(cfg, answer, old(attempts))
    {
      var a := Normal(answer);
      if !BudgetOk(cfg.budget) || a.stageID == 0 {
        return false;
      }
      ghost var n := Deliver(attempts, |ReplyStream(a, cfg.budget)|).sent;
      if n < |ReplyStream(a, cfg.budget)| {
        PartialReply(cfg, Now(), answer, n);
      } else {
        FaultlessReply(cfg, Now(), answer);
        assert ReplyStream(a, cfg.budget)[..n] == ReplyStream(a, cfg.budget);
      }
      hide ReplyStream, Reply, Deliver;
      ok := SendFragments(a);
      if ok {
        answered := answered + [a];
      }
    }

    /** Replies and, when that fails, leaves the loop. */
    method ReplyOrReturn(answer: Answer)
      requires phase.Serving?
      modifies this
      ensures Now() == Reply(cfg, old(Now()), answer, FaultOf(cfg, answer, old(attempts)))
      ensures attempts == AttemptsAfter(cfg, answer, old(attempts))
    {
      hide Reply, FaultOf, AttemptsAfter;
      ReplyFramePhase(cfg, Now(), answer, FaultOf(cfg, answer, attempts));
      var ok := ReplyModuleResult(answer);
      if !ok {
        phase := Returned;
      }
    }

    method Refuse(p: Packet, stageID: U32, traceID: U64, status: U16)
      requires phase.Serving?
      modifies this
      ensures var v := Refusal(p, stageID, traceID, status);
              && Now() == Reply(cfg, old(Now()).(log := old(log) + [Entry(p.corr, v)]), v.answer,
                                FaultOf(cfg, v.answer, old(attempts)))
              && attempts == AttemptsAfter(cfg, v.answer, old(attempts))
    {
      hide Reply, FaultOf, AttemptsAfter;
      log := log + [Entry(p.corr, Refusal(p, stageID, traceID, status))];
      ReplyOrReturn(Answer(p.kind, p.corr, stageID, traceID, status, []));
    }

    /** One polled event, decided and acted on in the loop's own order. */
    method HandleEvent(p: Packet, now: U64)
      requires phase.Serving?
      modifies this
      ensures Now() == OnEvent(cfg, old(Now()), p, now, EventFault(cfg, old(Now()), p, now, old(attempts)))
      ensures attempts == AttemptsAfterEvent(cfg, old(Now()), p, now, old(attempts))
    {
      hide IsCancel, IsRequest, HasMore, DecodeMessage, Reply, FaultOf, AttemptsAfter;
      var corr := p.corr;
      if IsCancel(p) {
        if corr in jobs {
          jobs := jobs[corr := jobs[corr].(cancelled := true)];
        }
        assemblies := Without(assemblies, corr);
        log := log + [Entry(corr, CancelSeen)];
        return;
      }
      if !IsRequest(p) {
        return;
      }
      var stage := StageFor(cfg, p.kind);
      var decoded := DecodeMessage(p.payload);
      var invalid := stage == 0 || decoded.None? || decoded.value.operation != OP_INVOKE
                     || decoded.value.stageID != stage || corr in jobs;
      if !invalid && corr in assemblies {
        invalid := !SameRun(assemblies[corr], p.kind, decoded.value);
      }
      if invalid {
        assemblies := Without(assemblies, corr);
        Refuse(p, if stage == 0 then 1 else stage, 0, STATUS_INVALID_REQUEST);
        return;
      }
      var m := decoded.value;
      if corr !in assemblies && |assemblies| >= MAX_IN_FLIGHT {
        assert Without(assemblies, corr) == assemblies;
        Refuse(p, stage, m.traceID, STATUS_INTERNAL);
        return;
      }
      Accept(p, m, stage, now);
    }

    /** The rest of the loop body, for a fragment that belongs. */
    method Accept(p: Packet, m: Message, stage: U32, now: U64)
      requires phase.Serving? && IsRequest(p) && !IsCancel(p)
      requires !Invalid(cfg, Now(), p) && DecodeMessage(p.payload) == Some(m) && StageFor(cfg, p.kind) == stage
      requires p.corr in assemblies || |assemblies| < MAX_IN_FLIGHT
      modifies this
      ensures Now() == OnEvent(cfg, old(Now()), p, now, EventFault(cfg, old(Now()), p, now, old(attempts)))
      ensures attempts == AttemptsAfterEvent(cfg, old(Now()), p, now, old(attempts))
    {
      hide IsCancel, IsRequest, HasMore, DecodeMessage, Reply, Invalid, FaultOf, AttemptsAfter;
      var corr := p.corr;
      var assembly := if corr in assemblies then assemblies[corr] else Assembly(p.kind, m, []);
      var part := BodyOf(p, m);
      if |assembly.body| + |part| > MAX_BODY {
        assemblies := Without(assemblies, corr);
        Refuse(p, stage, m.traceID, STATUS_INTERNAL);
        return;
      }
      var grown := assembly.(body := assembly.body + part);
      if HasMore(p) {
        assemblies := assemblies[corr := grown];
        log := log + [Entry(corr, Absorbed(grown, part))];
        return;
      }
      assemblies := Without(assemblies, corr);
      if m.DeadlineExpired(now) {
        Refuse(p, stage, m.traceID, STATUS_DEADLINE_EXCEEDED);
        return;
      }
      if !cfg.hasHandler {
        Refuse(p, stage, m.traceID, STATUS_CAPABILITY_ABSENT);
        return;
      }
      if |jobs| >= MAX_IN_FLIGHT {
        Refuse(p, stage, m.traceID, STATUS_INTERNAL);
        return;
      }
      jobs := jobs[corr := Job(WorkFor(grown, corr), false)];
      running := running[corr := grown.body];
      log := log + [Entry(corr, Started(grown, part))];
    }

    /** A handler ends and queues its result. That the channel has room is NoHandlerBlocks. */
    method RunHandler(corr: U64, e: Ending)
      requires Inv(Now()) && corr in running && corr in jobs && |done| < MAX_IN_FLIGHT
      modifies this
      ensures Inv(Now()) && |done| <= MAX_IN_FLIGHT && attempts == old(attempts)
      ensures Now() == old(Take(cfg, Now(), Ends(jobs, running, corr, e)))
      ensures var (response, status) := e.handler(old(jobs)[corr].work.invocation, old(running)[corr]);
              && |done| == |old(done)| + 1 && done[..|old(done)|] == old(done)
              && Reports(old(jobs)[corr], response, status, e.now, done[|old(done)|])
    {
      hide Inv;
      StepKeepsInv(cfg, Now(), Ends(jobs, running, corr, e));
      var (response, status) := e.handler(jobs[corr].work.invocation, running[corr]);
      FinalResultReports(jobs[corr], response, status, e.now);
      done := done + [FinalResult(jobs[corr], response, status, e.now)];
      running := Without(running, corr);
    }

    /** Takes one result off the channel and replies to its request. */
    method FinishWork()
      requires phase.Serving? && done != []
      modifies this
      ensures Now() == Take(cfg, old(Now()), Finish(FaultOf(cfg, AnswerTo(old(done)[0]), old(attempts))))
      ensures attempts == AttemptsAfter(cfg, AnswerTo(old(done)[0]), old(attempts))
    {
      hide Reply, FaultOf, AttemptsAfter;
      var result := done[0];
      done := done[1..];
      jobs := Without(jobs, result.work.corr);
      ReplyOrReturn(AnswerTo(result));
    }

    /** The context has ended: flags every job and starts waiting for their results. */
    method BeginShutdown()
      requires phase.Serving?
      modifies this
      ensures Now() == Take(cfg, old(Now()), Shutdown) && attempts == old(attempts)
      ensures Flagged(old(jobs), jobs)
    {
      var left := jobs.Keys;
      while left != {}
        invariant left <= jobs.Keys == old(jobs).Keys
        invariant forall c :: c in jobs ==>
                    jobs[c] == if c in left then old(jobs)[c] else old(jobs)[c].(cancelled := true)
        invariant Now() == old(Now()).(jobs := jobs) && attempts == old(attempts)
        decreases |left|
      {
        var c :| c in left;
        jobs := jobs[c := jobs[c].(cancelled := true)];
        left := left - {c};
      }
      assert jobs == CancelAll(old(jobs));
      phase := if jobs == map[] then Returned else Draining;
    }

    /** Receives one outstanding result without replying. */
    method DrainOne()
      requires phase.Draining? && done != []
      modifies this
      ensures Now() == Take(cfg, old(Now()), Drain) && attempts == old(attempts)
    {
      jobs := Without(jobs, done[0].work.corr);
      done := done[1..];
      phase := if jobs == map[] then Returned else Draining;
    }

    /** Handlers that are still running end and queue their results. */
    method EndHandlers(ended: seq<(U64, Ending)>) returns (ghost steps: seq<Step>)
      requires Inv(Now()) && phase.Serving?
      modifies this
      ensures Inv(Now()) && phase.Serving? && Reaches(cfg, old(Now()), steps, Now())
      ensures steps == Endings(old(jobs), old(running), ended) && attempts == old(attempts)
    {
      hide Inv, Take, Reaches, Endings;
      steps := [];
      ReachesNothing(cfg, Now());
      EndingsNone(ended);
      for i := 0 to |ended|
        invariant Inv(Now()) && phase.Serving? && Reaches(cfg, old(Now()), steps, Now())
        invariant attempts == old(attempts) && jobs == old(jobs)
        invariant Endings(old(jobs), old(running), ended) == steps + Endings(jobs, running, ended[i..])
      {
        var (corr, e) := ended[i];
        EndingsNext(jobs, running, ended, i);
        RunningHaveJobs(Now());
        if corr in running {
          ghost var step, s1 := Ends(jobs, running, corr, e), Now();
          NoHandlerBlocks(s1);
          ReachesSnoc(cfg, old(Now()), steps, s1, step);
          ReturnFrame(cfg, s1, step);
          RunHandler(corr, e);
          steps := steps + [step];
        }
      }
    }

    /** Replies to every result in the channel, in order, up to the first reply that fails. */
    method FinishAll() returns (ghost steps: seq<Step>)
      requires Inv(Now()) && phase.Serving?
      modifies this
      ensures Inv(Now()) && Reaches(cfg, old(Now()), steps, Now())
      ensures if phase.Serving? then done == [] && |steps| == |old(done)| else phase.Returned?
      ensures Finishes(cfg, old(done), old(attempts)) ==
                Course(steps, if phase.Serving? then Going else BusError, attempts)
    {
      hide Inv, Take, Reaches, FaultOf, AttemptsAfter;
      steps := [];
      ReachesNothing(cfg, Now());
      ghost var whole := Finishes(cfg, done, attempts);
      while phase.Serving? && done != []
        invariant Inv(Now()) && Reaches(cfg, old(Now()), steps, Now()) && !phase.Draining?
        invariant whole ==
                    Then(steps, if phase.Serving? then Finishes(cfg, done, attempts)
                                else Course([], BusError, attempts))
        decreases |done|
      {
        ghost var step := Finish(FaultOf(cfg, AnswerTo(done[0]), attempts));
        StepKeepsInv(cfg, Now(), step);
        ReachesSnoc(cfg, old(Now()), steps, Now(), step);
        FinishFrame(cfg, Now(), attempts);
        ThenThen(steps, [step], Finishes(cfg, done[1..], AttemptsAfter(cfg, AnswerTo(done[0]), attempts)));
        FinishWork();
        steps := steps + [step];
      }
      FinishesMeaning(cfg, old(done), old(attempts));
    }

    /** Waits for every outstanding handler, receiving its result: as many receives as there were
        jobs, after which nothing is running and nothing is queued. */
    method DrainAll(endings: U64 -> Ending) returns (ghost steps: seq<Step>)
      requires Inv(Now()) && phase.Draining?
      modifies this
      ensures Inv(Now()) && Reaches(cfg, old(Now()), steps, Now()) && Drains(steps) == |old(jobs)|
      ensures OnlyDrains(steps) && attempts == old(attempts)
      ensures phase.Returned? && jobs == map[] && running == map[] && done == []
    {
      hide Inv, Take, Reaches;
      steps := [];
      ReachesNothing(cfg, Now());
      while phase.Draining?
        invariant Inv(Now()) && Reaches(cfg, old(Now()), steps, Now())
        invariant OnlyDrains(steps) && attempts == old(attempts)
        decreases |jobs|
      {
        DrainProgress(Now());
        RunningHaveJobs(Now());
        if done == [] {
          var c :| c in running;
          ghost var step := Ends(jobs, running, c, endings(c));
          NoHandlerBlocks(Now());
          ReachesSnoc(cfg, old(Now()), steps, Now(), step);
          ReturnFrame(cfg, Now(), step);
          RunHandler(c, endings(c));
          steps := steps + [step];
        }
        StepKeepsInv(cfg, Now(), Drain);
        ReachesSnoc(cfg, old(Now()), steps, Now(), Drain);
        DrainFrame(cfg, Now());
        DrainOne();
        steps := steps + [Drain];
      }
      ShutdownDrains(cfg, old(Now()), steps, Now());
    }

    /** One turn of the serving loop. */
    method TakeTurn(turn: Turn, endings: U64 -> Ending) returns (end: LoopEnd, ghost steps: seq<Step>)
      requires Inv(Now()) && phase.Serving?
      modifies this
      ensures Inv(Now()) && Reaches(cfg, old(Now()), steps, Now())
      ensures KeptTo(TurnCourse(cfg, old(Now()), old(attempts), turn), end, steps, attempts)
      ensures if end.Going? then phase.Serving? && !Stops(turn) else phase.Returned?
      ensures end.Going? ==> done == []
      ensures !end.Going? ==> EndsAt(turn, end, steps)
      ensures end.Drained? ==> turn.cancelled && jobs == map[] && running == map[] && done == []
    {
      hide Inv, Take, Reaches, Endings, Finishes, ServeCourse, After, KeptTo;
      ghost var more;
      ghost var s0 := Now();
      steps := EndHandlers(turn.ended);
      ghost var s1, ended := Now(), steps;
      ReachesAfter(cfg, s0, ended, s1);
      more := FinishAll();
      ghost var s2, finished := Now(), more;
      ReachesAfter(cfg, s1, finished, s2);
      ReachesThen(cfg, s0, steps, s1, more, s2);
      FinishesMeaning(cfg, s1.done, old(attempts));
      steps := steps + more;
      if phase.Returned? {
        KeptToItself(Course(steps, BusError, attempts));
        return BusError, steps;
      }
      end, more := Serve(turn, endings);
      ReachesThen(cfg, s0, steps, s2, more, Now());
      ghost var served := ServeCourse(cfg, s2, Finishes(cfg, s1.done, old(attempts)).attempts, turn);
      ThenThen(ended, finished, served);
      KeptToThen(steps, served, end, more, attempts);
      EndsAtThen(turn, end, steps, more);
      steps := steps + more;
    }

    /** The rest of a turn: shutdown, a restarted host, or one poll. */
    method Serve(turn: Turn, endings: U64 -> Ending) returns (end: LoopEnd, ghost steps: seq<Step>)
      requires Inv(Now()) && phase.Serving?
      modifies this
      ensures Inv(Now()) && Reaches(cfg, old(Now()), steps, Now())
      ensures KeptTo(ServeCourse(cfg, old(Now()), old(attempts), turn), end, steps, attempts)
      ensures if end.Going? then phase.Serving? && !Stops(turn) else phase.Returned?
      ensures end.Going? ==> done == old(done)
      ensures !end.Going? ==> EndsAt(turn, end, steps)
      ensures end.Drained? ==> turn.cancelled && jobs == map[] && running == map[] && done == []
    {
      hide Inv, Take, Reaches, OnEvent, EventFault, AttemptsAfterEvent;
      steps := [];
      ReachesNothing(cfg, Now());
      if turn.cancelled {
        end := Drained;
        steps := Stop(endings);
        return;
      }
      if turn.epochChanged || turn.polled.Failed? {
        StepKeepsInv(cfg, Now(), Leave);
        ReachesSnoc(cfg, Now(), [], Now(), Leave);
        LeaveFrame(cfg, Now());
        phase := Returned;
        return if turn.epochChanged then EpochChanged else BusError, [] + [Leave];
      }
      if turn.polled.Event? {
        ghost var step := Receive(turn.polled.p, turn.now, EventFault(cfg, Now(), turn.polled.p, turn.now, attempts));
        StepKeepsInv(cfg, Now(), step);
        ReachesSnoc(cfg, Now(), [], Now(), step);
        EventPhase(cfg, Now(), turn.polled.p, turn.now, step.fault);
        HandleEvent(turn.polled.p, turn.now);
        steps := [] + [step];
      }
      end := if phase.Serving? then Going else BusError;
    }

    /** The context has ended: every job is flagged, and the loop waits for all of them. */
    method Stop(endings: U64 -> Ending) returns (ghost steps: seq<Step>)
      requires Inv(Now()) && phase.Serving?
      modifies this
      ensures Inv(Now()) && Reaches(cfg, old(Now()), steps, Now())
      ensures [Shutdown] <= steps && OnlyDrains(steps[1..]) && Drains(steps) == |old(jobs)|
      ensures attempts == old(attempts)
      ensures phase.Returned? && jobs == map[] && running == map[] && done == []
    {
      hide Inv, Take, Reaches, Flagged, Drains;
      ghost var s0 := Now();
      StopFrame(cfg, s0);
      BeginShutdown();
      steps := [Shutdown];
      if phase.Draining? {
        ghost var s1 := Now();
        ghost var more := DrainAll(endings);
        ReachesThen(cfg, s0, steps, s1, more, Now());
        ShutdownFirst(more);
        steps := steps + more;
      } else {
        NothingLeft(Now());
      }
    }

    /** The serving loop, turn by turn, until it returns: what it does is a run of the state
        machine, in the order the turns determine; it receives the events polled, in order; and
        when its context ends it returns with no handler running, no result queued and no job
        outstanding. */
    method RunModuleClient(turns: seq<Turn>, endings: U64 -> Ending) returns (end: LoopEnd, ghost steps: seq<Step>)
      requires Inv(Now()) && phase.Serving?
      modifies this
      ensures Inv(Now()) && Reaches(cfg, old(Now()), steps, Now())
      ensures KeptTo(LoopCourse(cfg, old(Now()), old(attempts), turns), end, steps, attempts)
      ensures Received(steps) <= Events(turns) && (end.Going? ==> Received(steps) == Events(turns))
      ensures if end.Going? then phase.Serving? else phase.Returned?
      ensures end.Going? ==> forall i :: 0 <= i < |turns| ==> !Stops(turns[i])
      ensures end.Going? && turns != [] ==> done == []
      ensures !end.Going? ==> exists i :: 0 <= i < |turns| && EndsAt(turns[i], end, steps)
      ensures end.Drained? ==> jobs == map[] && running == map[] && done == []
    {
      hide *;
      steps, end := [], Going;
      ghost var s0, first := Now(), attempts;
      ReachesNothing(cfg, s0);
      CourseStart(cfg, s0, first, turns);
      for i := 0 to |turns|
        invariant Inv(Now()) && Reaches(cfg, s0, steps, Now()) && phase.Serving? && end.Going?
        invariant LoopCourse(cfg, s0, first, turns) == Then(steps, LoopCourse(cfg, Now(), attempts, turns[i..]))
        invariant forall k :: 0 <= k < i ==> !Stops(turns[k])
        invariant i > 0 ==> done == []
      {
        ghost var s1, left, more := Now(), attempts, [];
        end, more := TakeTurn(turns[i], endings);
        ReachesThen(cfg, s0, steps, s1, more, Now());
        CourseNext(cfg, s0, first, turns, i, steps, s1, left, end, more, Now(), attempts);
        EndsAtThen(turns[i], end, steps, more);
        steps := steps + more;
        if !end.Going? {
          KeptToReceives(cfg, s0, first, turns, end, steps, attempts);
          return;
        }
      }
      CourseEnd(cfg, s0, first, turns, steps, Now(), attempts);
      KeptToReceives(cfg, s0, first, turns, end, steps, attempts);
    }
  }

  lemma CourseStart(cfg: Config, s: State, attempts: seq<Attempt>, turns: seq<Turn>)
    ensures LoopCourse(cfg, s, attempts, turns) == Then([], LoopCourse(cfg, s, attempts, turns[0..]))
  {
    hide LoopCourse;
    assert turns[0..] == turns;
    var c := LoopCourse(cfg, s, attempts, turns);
    assert [] + c.steps == c.steps;
  }

  /** One more turn of a loop that has kept to its course. */
  lemma CourseNext(cfg: Config, s: State, attempts: seq<Attempt>, turns: seq<Turn>, i: nat, steps: seq<Step>,
                   s1: State, left: seq<Attempt>, end: LoopEnd, more: seq<Step>, s2: State, left': seq<Attempt>)
    requires i < |turns|
    requires LoopCourse(cfg, s, attempts, turns) == Then(steps, LoopCourse(cfg, s1, left, turns[i..]))
    requires KeptTo(TurnCourse(cfg, s1, left, turns[i]), end, more, left') && Reaches(cfg, s1, more, s2)
    ensures if end.Going? then
              LoopCourse(cfg, s, attempts, turns) == Then(steps + more, LoopCourse(cfg, s2, left', turns[i + 1..]))
            else KeptTo(LoopCourse(cfg, s, attempts, turns), end, steps + more, left')
  {
    var c := TurnCourse(cfg, s1, left, turns[i]);
    hide TurnCourse, After, Reaches;
    assert turns[i..][0] == turns[i] && turns[i..][1..] == turns[i + 1..];
    if end.Going? {
      ReachesAfter(cfg, s1, more, s2);
      ThenThen(steps, more, LoopCourse(cfg, s2, left', turns[i + 1..]));
    } else {
      KeptToThen(steps, c, end, more, left');
    }
  }

  lemma CourseEnd(cfg: Config, s: State, attempts: seq<Attempt>, turns: seq<Turn>, steps: seq<Step>,
                  s1: State, left: seq<Attempt>)
    requires LoopCourse(cfg, s, attempts, turns) == Then(steps, LoopCourse(cfg, s1, left, turns[|turns|..]))
    ensures KeptTo(LoopCourse(cfg, s, attempts, turns), Going, steps, left)
  {
    hide TurnCourse, After;
    assert steps + [] == steps;
  }

  lemma KeptToReceives(cfg: Config, s: State, attempts: seq<Attempt>, turns: seq<Turn>, end: LoopEnd,
                       steps: seq<Step>, left: seq<Attempt>)
    requires KeptTo(LoopCourse(cfg, s, attempts, turns), end, steps, left)
    ensures Received(steps) <= Events(turns) && (end.Going? ==> Received(steps) == Events(turns))
  {
    hide LoopCourse, Received;
    var c := LoopCourse(cfg, s, attempts, turns);
    LoopReceives(cfg, s, attempts, turns);
    NoneReceived(steps[|c.steps|..]);
    ReceivedConcat(c.steps, steps[|c.steps|..]);
    assert steps == c.steps + steps[|c.steps|..];
  }

  lemma KeptToItself(c: Course)
    ensures KeptTo(c, c.end, c.steps, c.attempts)
  {
  }

  lemma EndingsNone(ended: seq<(U64, Ending)>)
    ensures ended[0..] == ended && forall jobs, running :: Endings(jobs, running, ended[|ended|..]) == []
  {
  }

  lemma EndingsNext(jobs: map<U64, Job>, running: map<U64, ByteSeq>, ended: seq<(U64, Ending)>, i: nat)
    requires i < |ended|
    ensures var (corr, e) := ended[i];
            Endings(jobs, running, ended[i..]) ==
              if corr in running && corr in jobs then
                [Ends(jobs, running, corr, e)] + Endings(jobs, Without(running, corr), ended[i + 1..])
              else Endings(jobs, running, ended[i + 1..])
  {
    assert ended[i..][0] == ended[i] && ended[i..][1..] == ended[i + 1..];
  }

  lemma RunningHaveJobs(s: State)
    requires Inv(s)
    ensures forall c :: c in s.running ==> c in s.jobs
  {
  }

  /** The same jobs, all flagged as cancelled. */
  ghost predicate Flagged(before: map<U64, Job>, jobs: map<U64, Job>) {
    jobs.Keys == before.Keys && forall c :: c in jobs ==> jobs[c].cancelled && jobs[c].work == before[c].work
  }

  lemma ReachesNothing(cfg: Config, s: State)
    ensures Reaches(cfg, s, [], s)
  {
  }

  lemma ReturnFrame(cfg: Config, s: State, step: Step)
    requires step.HandlerReturns? && Enabled(s, step)
    ensures Take(cfg, s, step).phase == s.phase && Take(cfg, s, step).jobs == s.jobs && Take(cfg, s, step).done != []
    ensures Take(cfg, s, step).running == Without(s.running, step.corr)
  {
  }

  /** A reply leaves the loop serving exactly when it is delivered. */
  lemma FinishFrame(cfg: Config, s: State, attempts: seq<Attempt>)
    requires s.phase.Serving? && s.done != []
    ensures var fault := FaultOf(cfg, AnswerTo(s.done[0]), attempts);
            var t := Take(cfg, s, Finish(fault));
            && t.done == s.done[1..] && !t.phase.Draining?
            && (t.phase.Serving? <==> Delivered(cfg, AnswerTo(s.done[0]), attempts))
  {
    hide ReplyStream, Deliver;
  }

  lemma DrainFrame(cfg: Config, s: State)
    requires Inv(s) && Enabled(s, Drain)
    ensures |Take(cfg, s, Drain).jobs| < |s.jobs|
  {
    WithoutSize(s.jobs, s.done[0].work.corr);
  }

  lemma EventPhase(cfg: Config, s: State, p: Packet, now: U64, fault: Option<nat>)
    requires s.phase.Serving?
    ensures Take(cfg, s, Receive(p, now, fault)) == OnEvent(cfg, s, p, now, fault)
    ensures !OnEvent(cfg, s, p, now, fault).phase.Draining? && OnEvent(cfg, s, p, now, fault).done == s.done
  {
    hide Judge, ReplyStream;
  }

  lemma LeaveFrame(cfg: Config, s: State)
    requires s.phase.Serving?
    ensures Take(cfg, s, Leave) == s.(phase := Returned)
  {
  }

  lemma StopFrame(cfg: Config, s: State)
    requires Inv(s) && s.phase.Serving?
    ensures var t := Take(cfg, s, Shutdown);
            && Inv(t) && Reaches(cfg, s, [Shutdown], t) && !t.phase.Serving? && |t.jobs| == |s.jobs|
            && (t.phase.Returned? ==> t.jobs == map[])
    ensures OnlyDrains([Shutdown][1..]) && Drains([Shutdown]) == 0
  {
    ShutdownKeepsInv(s);
    assert [Shutdown][1..] == [];
    hide Inv, CancelAll;
  }

  lemma ShutdownFirst(more: seq<Step>)
    ensures ([Shutdown] + more)[1..] == more && Drains([Shutdown] + more) == Drains(more)
  {
  }

  lemma NothingLeft(s: State)
    requires Inv(s) && s.jobs == map[]
    ensures s.running == map[] && s.done == []
  {
    NoHandlerBlocks(s);
  }

  lemma ReplyFramePhase(cfg: Config, s: State, a: Answer, fault: Option<nat>)
    ensures Reply(cfg, s, a, fault).phase == s.phase || Reply(cfg, s, a, fault).phase == Returned
  {
    hide ReplyStream;
  }
}
