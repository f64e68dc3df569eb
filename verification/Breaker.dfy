/** The embedder's circuit breaker: its saturating, jittered backoff, and what it allows when
    many callers share it and report late. */
module Breaker {
  import opened Wrappers
  import opened Bits

  const THRESHOLD := 3
  const BASE_MS: I64 := 1000
  const MAX_MS: I64 := 30000
  const GOLDEN: U64 := 0x9e3779b97f4a7c15

  function WrapI64(x: int): I64 {
    (x + TWO_TO_63) % TWO_TO_64 - TWO_TO_63
  }

  // Backoff.

  /** The delay before jitter, as doubling without bound and then capping would give it. */
  function Backoff(openCount: nat, baseMS: int, maxMS: int): (d: int)
    requires 1 <= baseMS <= maxMS
    ensures 1 <= d <= maxMS
  {
    MulMono(baseMS, 1, Pow2(openCount));
    Min(baseMS * Pow2(openCount), maxMS)
  }

  function JitterCap(delay: int, maxMS: int): (cap: int)
    requires 1 <= delay <= maxMS
    ensures 0 <= cap && delay + cap <= maxMS && cap <= delay / 4
  {
    Min(delay / 4, maxMS - delay)
  }

  function Mixed(openCount: U32, nowMS: I64): nat {
    Xor(nowMS % TWO_TO_64, (((openCount + 1) % TWO_TO_32) * GOLDEN) % TWO_TO_64)
  }

  /** The delay the breaker uses, for base and max as it corrects them. */
  function Delay(openCount: U32, nowMS: I64, baseMS: I64, maxMS: I64): (r: int)
  {
    var base := Max(baseMS, 1);
    var max := Max(maxMS, base);
    var d := Backoff(openCount, base, max);
    var cap := JitterCap(d, max);
    if cap > 0 then d + Mixed(openCount, nowMS) % (cap + 1) else d
  }

  /** Computes the delay by doubling in 64 bits, stopping before it can overflow. */
  method BreakerDelay(openCount: U32, nowMS: I64, baseMS: I64, maxMS: I64) returns (r: I64)
    ensures r == Delay(openCount, nowMS, baseMS, maxMS)
  {
    var base: I64 := baseMS;
    if base < 1 {
      base := 1;
    }
    var max: I64 := maxMS;
    if max < base {
      max := base;
    }
    var delay: I64 := base;
    var i: U32 := 0;
    assert Backoff(0, base, max) == base;
    DelayOf(openCount, nowMS, baseMS, maxMS, base, max);
    hide *;
    while i < openCount && delay < max
      invariant 0 <= i <= openCount && 1 <= delay
      invariant delay == Backoff(i, base, max)
    {
      BackoffDoubles(i, base, max);
      if delay > max / 2 {
        delay := max;
      } else {
        delay := delay * 2;
      }
      i := i + 1;
    }
    if i < openCount {
      BackoffSaturates(i, openCount, base, max);
    }
    var jitterCap: I64 := delay / 4;
    if jitterCap > max - delay {
      jitterCap := max - delay;
    }
    if jitterCap > 0 {
      delay := delay + Mixed(openCount, nowMS) % (jitterCap + 1);
    }
    return delay;
  }

  lemma DelayOf(openCount: U32, nowMS: I64, baseMS: I64, maxMS: I64, base: I64, max: I64)
    requires base == Max(baseMS, 1) && max == Max(maxMS, base)
    ensures var d := Backoff(openCount, base, max);
            var cap := if d / 4 > max - d then max - d else d / 4;
            Delay(openCount, nowMS, baseMS, maxMS) == if cap > 0 then d + Mixed(openCount, nowMS) % (cap + 1) else d
  {
    hide Backoff, Mixed;
  }

  lemma DoubleStep(k: nat, base: int, max: int)
    requires 1 <= base <= max
    ensures Backoff(k + 1, base, max) == Min(2 * Backoff(k, base, max), max)
  {
    assert base * Pow2(k + 1) == 2 * (base * Pow2(k));
    MulMono(base, 1, Pow2(k));
  }

  /** The halved test decides, without overflow, whether doubling would pass the limit. */
  lemma BackoffDoubles(k: nat, base: int, max: int)
    requires 1 <= base <= max
    ensures var d := Backoff(k, base, max);
            Backoff(k + 1, base, max) == if d > max / 2 then max else 2 * d
  {
    DoubleStep(k, base, max);
    hide Backoff;
  }

  lemma {:induction false} BackoffSaturates(j: nat, k: nat, base: int, max: int)
    requires 1 <= base <= max && j <= k && Backoff(j, base, max) == max
    ensures Backoff(k, base, max) == max
    decreases k - j
  {
    if j < k {
      DoubleStep(j, base, max);
      BackoffSaturates(j + 1, k, base, max);
    }
  }

  /** The delay lies between the pre-jitter backoff and a quarter above it, within the cap. */
  lemma DelayBounds(openCount: U32, nowMS: I64, baseMS: I64, maxMS: I64)
    ensures var base := Max(baseMS, 1);
            var max := Max(maxMS, base);
            var d := Backoff(openCount, base, max);
            d <= Delay(openCount, nowMS, baseMS, maxMS) <= Min(max, d + d / 4)
  {
    hide Mixed, Backoff;
  }

  /** Jitter at any two times never makes a later opening wait less than an earlier one. */
  lemma DelayGrows(openCount: U32, nowMS: I64, laterMS: I64, baseMS: I64, maxMS: I64)
    requires openCount + 1 < TWO_TO_32
    ensures Delay(openCount, nowMS, baseMS, maxMS) <= Delay(openCount + 1, laterMS, baseMS, maxMS)
  {
    DelayBounds(openCount, nowMS, baseMS, maxMS);
    DelayBounds(openCount + 1, laterMS, baseMS, maxMS);
    var base := Max(baseMS, 1);
    DoubleStep(openCount, base, Max(maxMS, base));
    hide Mixed, Backoff, Delay;
  }

  // The breaker.

  datatype State = State(
    failureStreak: U32, openCount: U32, probeInflight: bool, openedAtMS: I64, retryAtMS: I64,
    lastSuccessMS: I64, lastFailureMS: I64, suppressed: U64)

  const CLOSED := State(0, 0, false, 0, 0, 0, 0, 0)

  datatype Permission = Permission(allowed: bool, retryAfterMS: I64)

  predicate Open(b: State) {
    b.retryAtMS > 0
  }

  predicate Eligible(b: State, nowMS: I64) {
    nowMS >= b.retryAtMS || nowMS < b.openedAtMS
  }

  function Ask(b: State, nowMS: I64): Permission {
    if !Open(b) then Permission(true, 0)
    else if Eligible(b, nowMS) && !b.probeInflight then Permission(true, 0)
    else if !Eligible(b, nowMS) then Permission(false, WrapI64(b.retryAtMS - nowMS))
    else Permission(false, 0)
  }

  function AfterAsk(b: State, nowMS: I64): State {
    if !Open(b) then b
    else if Eligible(b, nowMS) && !b.probeInflight then b.(probeInflight := true)
    else b.(suppressed := (b.suppressed + 1) % TWO_TO_64)
  }

  function AfterSuccess(b: State, nowMS: I64): State {
    b.(failureStreak := 0, openCount := 0, probeInflight := false, openedAtMS := 0, retryAtMS := 0,
       lastSuccessMS := nowMS)
  }

  function AfterCancel(b: State): State {
    b.(probeInflight := false)
  }

  function Saturate(n: U32): U32 {
    if n < TWO_TO_32 - 1 then n + 1 else n
  }

  function AfterFailure(b: State, nowMS: I64): State {
    var failed := b.(failureStreak := Saturate(b.failureStreak), lastFailureMS := nowMS, probeInflight := false);
    if failed.failureStreak >= THRESHOLD then
      failed.(openedAtMS := nowMS,
              retryAtMS := WrapI64(nowMS + Delay(b.openCount, nowMS, BASE_MS, MAX_MS)),
              openCount := Saturate(b.openCount))
    else failed
  }

  /** The shared breaker; each method runs under its mutex, so it is one step. */
  class EmbedBreaker {
    var failureStreak: U32
    var openCount: U32
    var probeInflight: bool
    var openedAtMS: I64
    var retryAtMS: I64
    var lastSuccessMS: I64
    var lastFailureMS: I64
    var suppressed: U64

    ghost function Now(): State
      reads this
    {
      State(failureStreak, openCount, probeInflight, openedAtMS, retryAtMS, lastSuccessMS, lastFailureMS, suppressed)
    }

    constructor ()
      ensures Now() == CLOSED
    {
      failureStreak, openCount, probeInflight := 0, 0, false;
      openedAtMS, retryAtMS, lastSuccessMS, lastFailureMS, suppressed := 0, 0, 0, 0, 0;
    }

    method Allow(nowMS: I64) returns (allowed: bool, retryAfterMS: I64)
      modifies this
      ensures Permission(allowed, retryAfterMS) == Ask(old(Now()), nowMS)
      ensures Now() == AfterAsk(old(Now()), nowMS)
    {
      if retryAtMS <= 0 {
        return true, 0;
      }
      var eligible := nowMS >= retryAtMS || nowMS < openedAtMS;
      if eligible && !probeInflight {
        probeInflight := true;
        return true, 0;
      }
      suppressed := (suppressed + 1) % TWO_TO_64;
      if !eligible {
        return false, WrapI64(retryAtMS - nowMS);
      }
      return false, 0;
    }

    method ReportSuccess(nowMS: I64)
      modifies this
      ensures Now() == AfterSuccess(old(Now()), nowMS)
    {
      failureStreak, openCount, probeInflight := 0, 0, false;
      openedAtMS, retryAtMS := 0, 0;
      lastSuccessMS := nowMS;
    }

    method CancelProbe()
      modifies this
      ensures Now() == AfterCancel(old(Now()))
    {
      probeInflight := false;
    }

    method ReportFailure(nowMS: I64)
      modifies this
      ensures Now() == AfterFailure(old(Now()), nowMS)
    {
      if failureStreak < TWO_TO_32 - 1 {
        failureStreak := failureStreak + 1;
      }
      lastFailureMS := nowMS;
      probeInflight := false;
      if failureStreak >= THRESHOLD {
        var delay := BreakerDelay(openCount, nowMS, BASE_MS, MAX_MS);
        openedAtMS := nowMS;
        retryAtMS := WrapI64(nowMS + delay);
        if openCount < TWO_TO_32 - 1 {
          openCount := openCount + 1;
        }
      }
    }
  }

  // Many callers.

  /** A call that was granted and has not reported: the number of open periods begun when it was
      granted, and whether it was granted as a probe. */
  datatype Grant = Grant(period: nat, probe: bool)

  /** The breaker with its callers. `period` counts the times it has opened, `late` the reports
      and cancels in the current open period by calls granted before it opened. */
  datatype World = World(b: State, period: nat, late: nat, calls: map<nat, Grant>, next: nat)

  const START := World(CLOSED, 0, 0, map[], 0)

  datatype Step =
    | AskStep(nowMS: I64)
    | Success(id: nat, nowMS: I64)
    | Failure(id: nat, nowMS: I64)
    | Cancel(id: nat)

  /** A clock that reads a positive time with room for one delay; it may jump either way. */
  predicate SaneClock(nowMS: I64) {
    0 < nowMS < TWO_TO_63 - MAX_MS
  }

  predicate Enabled(w: World, step: Step) {
    match step
    case AskStep(nowMS) => SaneClock(nowMS)
    case Success(id, nowMS) => id in w.calls && SaneClock(nowMS)
    case Failure(id, nowMS) => id in w.calls && SaneClock(nowMS)
    case Cancel(id) => id in w.calls
  }

  /** The call's report takes effect, and counts as late if it was granted before this opening. */
  function Report(w: World, id: nat, b: State): World
    requires id in w.calls
  {
    if !Open(w.b) && Open(b) then World(b, w.period + 1, 0, Without(w.calls, id), w.next)
    else
      var isLate := Open(w.b) && w.calls[id].period < w.period;
      World(b, w.period, if isLate then w.late + 1 else w.late, Without(w.calls, id), w.next)
  }

  function Take(w: World, step: Step): World
    requires Enabled(w, step)
  {
    match step
    case AskStep(nowMS) =>
      var b := AfterAsk(w.b, nowMS);
      if Ask(w.b, nowMS).allowed then
        World(b, w.period, w.late, w.calls[w.next := Grant(w.period, Open(w.b))], w.next + 1)
      else w.(b := b)
    case Success(id, nowMS) => Report(w, id, AfterSuccess(w.b, nowMS))
    case Failure(id, nowMS) => Report(w, id, AfterFailure(w.b, nowMS))
    case Cancel(id) => Report(w, id, AfterCancel(w.b))
  }

  /** The outstanding probes of the current open period. */
  function Probes(w: World): set<nat> {
    set id | id in w.calls && w.calls[id] == Grant(w.period, true)
  }

  ghost predicate BreakerInv(b: State) {
    && (Open(b) <==> b.failureStreak >= THRESHOLD)
    && (Open(b) ==> 0 < b.openedAtMS && BASE_MS <= b.retryAtMS - b.openedAtMS <= MAX_MS)
    && (!Open(b) ==> !b.probeInflight && b.retryAtMS == 0)
  }

  ghost predicate Inv(w: World) {
    && BreakerInv(w.b)
    && (forall id :: id in w.calls ==> id < w.next && w.calls[id].period <= w.period)
    && (Open(w.b) ==> (forall id :: id in w.calls && w.calls[id].period == w.period ==> w.calls[id].probe))
    && (Open(w.b) ==> |Probes(w)| <= w.late + (if w.b.probeInflight then 1 else 0))
    && (Open(w.b) && w.b.probeInflight ==> Probes(w) != {})
  }

  lemma WrapSmall(x: int)
    requires -TWO_TO_63 <= x < TWO_TO_63
    ensures WrapI64(x) == x
  {
  }

  lemma OpenDelay(openCount: U32, nowMS: I64)
    ensures BASE_MS <= Delay(openCount, nowMS, BASE_MS, MAX_MS) <= MAX_MS
  {
    DelayBounds(openCount, nowMS, BASE_MS, MAX_MS);
    hide Delay;
    MulMono(BASE_MS, 1, Pow2(openCount));
  }

  lemma FailureKeepsBreaker(b: State, nowMS: I64)
    requires BreakerInv(b) && SaneClock(nowMS)
    ensures BreakerInv(AfterFailure(b, nowMS)) && !AfterFailure(b, nowMS).probeInflight
    ensures Open(b) ==> Open(AfterFailure(b, nowMS))
  {
    OpenDelay(b.openCount, nowMS);
    WrapSmall(nowMS + Delay(b.openCount, nowMS, BASE_MS, MAX_MS));
    hide Delay, WrapI64;
  }

  /** Whatever the clock reads, a failure at or past the threshold leaves the breaker open exactly
      when the retry time it computes is positive and has not wrapped. */
  lemma OpensExactly(b: State, nowMS: I64)
    requires b.failureStreak >= THRESHOLD - 1
    ensures Open(AfterFailure(b, nowMS)) <==>
              0 < nowMS + Delay(b.openCount, nowMS, BASE_MS, MAX_MS) < TWO_TO_63
  {
    OpenDelay(b.openCount, nowMS);
    hide Delay;
  }

  lemma ReportKeepsInv(w: World, id: nat, b: State)
    requires Inv(w) && id in w.calls && BreakerInv(b) && !b.probeInflight
    ensures Inv(Report(w, id, b))
  {
    var t := Report(w, id, b);
    if Open(b) && Open(w.b) {
      assert Probes(t) == Probes(w) - {id};
    } else if Open(b) {
      assert Probes(t) == {};
    }
  }

  lemma AskKeepsInv(w: World, nowMS: I64)
    requires Inv(w) && SaneClock(nowMS)
    ensures Inv(Take(w, AskStep(nowMS)))
  {
    var t := Take(w, AskStep(nowMS));
    if Ask(w.b, nowMS).allowed && Open(w.b) {
      assert Probes(t) == Probes(w) + {w.next};
    } else if Open(w.b) {
      assert Probes(t) == Probes(w);
    }
  }

  lemma StepKeepsInv(w: World, step: Step)
    requires Inv(w) && Enabled(w, step)
    ensures Inv(Take(w, step))
  {
    match step
    case AskStep(nowMS) => AskKeepsInv(w, nowMS);
    case Success(id, nowMS) => ReportKeepsInv(w, id, AfterSuccess(w.b, nowMS));
    case Failure(id, nowMS) =>
      FailureKeepsBreaker(w.b, nowMS);
      hide AfterFailure;
      ReportKeepsInv(w, id, AfterFailure(w.b, nowMS));
    case Cancel(id) => ReportKeepsInv(w, id, AfterCancel(w.b));
  }

  ghost predicate Reaches(w: World, steps: seq<Step>, w': World)
    decreases |steps|
  {
    if steps == [] then w == w'
    else Enabled(w, steps[0]) && Reaches(Take(w, steps[0]), steps[1..], w')
  }

  lemma {:induction false} RunKeepsInv(w: World, steps: seq<Step>, w': World)
    requires Inv(w) && Reaches(w, steps, w')
    ensures Inv(w')
    decreases |steps|
  {
    hide Inv, Take, Enabled;
    if steps != [] {
      StepKeepsInv(w, steps[0]);
      RunKeepsInv(Take(w, steps[0]), steps[1..], w');
    }
  }

  /** Over every run with concurrent callers and any sane clock: the breaker is open exactly when
      the failure streak has reached the threshold; within an open period the outstanding probes
      are at most the late reports plus the probe in flight; with no late report there is
      exactly the probe the flag says. */
  lemma ProbesAreBounded(steps: seq<Step>, w: World)
    requires Reaches(START, steps, w)
    ensures Open(w.b) <==> w.b.failureStreak >= THRESHOLD
    ensures Open(w.b) ==> |Probes(w)| <= w.late + (if w.b.probeInflight then 1 else 0)
    ensures Open(w.b) && w.late == 0 ==> |Probes(w)| == if w.b.probeInflight then 1 else 0
    ensures Open(w.b) ==> forall id :: id in w.calls && id !in Probes(w) ==> w.calls[id].period < w.period
  {
    RunKeepsInv(START, steps, w);
    if Probes(w) != {} {
      var id :| id in Probes(w);
      assert |Probes(w)| > 0;
    }
  }

  // How long an open period lasts.

  /** The failures reported since the last success, `from` of them before these steps. */
  function Streak(steps: seq<Step>, from: nat): nat {
    if steps == [] then from
    else
      match steps[0]
      case Success(_, _) => Streak(steps[1..], 0)
      case Failure(_, _) => Streak(steps[1..], from + 1)
      case _ => Streak(steps[1..], from)
  }

  /** The time of the last failure reported, `from` if these steps report none. */
  function LastFailure(steps: seq<Step>, from: int): int {
    if steps == [] then from
    else LastFailure(steps[1..], if steps[0].Failure? then steps[0].nowMS else from)
  }

  /** After `streak` failures in a row: open from the third on, since the last of them, and for a
      second after the third, doubled by each further one up to half a minute, with at most a
      quarter of jitter. */
  ghost predicate Waits(b: State, streak: nat) {
    && b.failureStreak == Min(streak, 0xffffffff)
    && b.openCount == Min(Max(streak - 2, 0), 0xffffffff)
    && (Open(b) <==> streak >= 3)
    && (streak < 3 ==> b.openedAtMS == 0 && b.retryAtMS == 0)
    && (streak >= 3 ==>
          var d := Min(1000 * Pow2(streak - 3), 30000);
          && b.openedAtMS == b.lastFailureMS
          && d <= b.retryAtMS - b.openedAtMS <= Min(d + d / 4, 30000))
  }

  lemma SaturatedBackoff(k: nat)
    ensures k >= 5 ==> Min(1000 * Pow2(k), 30000) == 30000
  {
    if k >= 5 {
      assert Backoff(5, 1000, 30000) == 30000;
      BackoffSaturates(5, k, 1000, 30000);
    }
  }

  lemma FailureWaits(b: State, streak: nat, nowMS: I64)
    requires Waits(b, streak) && SaneClock(nowMS)
    ensures Waits(AfterFailure(b, nowMS), streak + 1) && AfterFailure(b, nowMS).lastFailureMS == nowMS
  {
    var d := Delay(b.openCount, nowMS, BASE_MS, MAX_MS);
    OpenDelay(b.openCount, nowMS);
    WrapSmall(nowMS + d);
    DelayBounds(b.openCount, nowMS, BASE_MS, MAX_MS);
    if streak >= 2 {
      SaturatedBackoff(streak - 2);
      SaturatedBackoff(b.openCount);
    }
    hide Delay, WrapI64;
  }

  lemma StepWaits(w: World, step: Step, streak: nat)
    requires Enabled(w, step) && Waits(w.b, streak)
    ensures Waits(Take(w, step).b, Streak([step], streak))
    ensures Take(w, step).b.lastFailureMS == LastFailure([step], w.b.lastFailureMS)
  {
    if step.Failure? {
      FailureWaits(w.b, streak, step.nowMS);
    }
    hide AfterFailure;
  }

  lemma {:induction false} RunWaits(w: World, steps: seq<Step>, w': World, streak: nat)
    requires Reaches(w, steps, w') && Waits(w.b, streak)
    ensures Waits(w'.b, Streak(steps, streak)) && w'.b.lastFailureMS == LastFailure(steps, w.b.lastFailureMS)
    decreases |steps|
  {
    hide Waits, Take, Enabled;
    if steps != [] {
      StepWaits(w, steps[0], streak);
      assert [steps[0]][1..] == [];
      RunWaits(Take(w, steps[0]), steps[1..], w', Streak([steps[0]], streak));
    }
  }

  /** Over every run with concurrent callers and any sane clock, the breaker is what the failures
      in a row make it: open from the third on, opened when the last of them was reported, and for
      min(1000 * 2^(n - 3), 30000) milliseconds after the n-th, with at most a quarter of jitter
      within the cap. */
  lemma OpenPeriods(steps: seq<Step>, w: World)
    requires Reaches(START, steps, w)
    ensures Waits(w.b, Streak(steps, 0))
    ensures Open(w.b) ==> w.b.openedAtMS == LastFailure(steps, 0)
  {
    assert Waits(CLOSED, 0);
    RunWaits(START, steps, w, 0);
  }

  /** While closed every caller is granted at once, and nothing changes. */
  lemma ClosedGrants(steps: seq<Step>, w: World, nowMS: I64)
    requires Reaches(START, steps, w) && SaneClock(nowMS) && Streak(steps, 0) < 3
    ensures Ask(w.b, nowMS) == Permission(true, 0) && Take(w, AskStep(nowMS)).b == w.b
  {
    OpenPeriods(steps, w);
    RunKeepsInv(START, steps, w);
  }

  /** A report counts as late exactly when the breaker was open and its call was granted before it
      opened; an opening starts the count again. */
  lemma LateMeaning(w: World, step: Step)
    requires Enabled(w, step) && !step.AskStep?
    ensures var t := Take(w, step);
            && (t.period > w.period ==> !Open(w.b) && Open(t.b) && t.late == 0)
            && (t.period <= w.period ==>
                  t.late == w.late + if Open(w.b) && w.calls[step.id].period < w.period then 1 else 0)
  {
    hide AfterFailure;
  }

  /** A suppressed caller is told to wait at most the cap; and an eligible one, a clock that has
      jumped behind the opening included, gets the probe unless one is in flight. */
  lemma Suppression(steps: seq<Step>, w: World, nowMS: I64)
    requires Reaches(START, steps, w) && SaneClock(nowMS) && Open(w.b)
    ensures !Ask(w.b, nowMS).allowed ==> 0 <= Ask(w.b, nowMS).retryAfterMS <= MAX_MS
    ensures Ask(w.b, nowMS).retryAfterMS > 0 <==> w.b.openedAtMS <= nowMS < w.b.retryAtMS
    ensures nowMS < w.b.openedAtMS && !w.b.probeInflight ==> Ask(w.b, nowMS).allowed
    ensures w.b.openedAtMS <= nowMS < w.b.retryAtMS ==>
              !Ask(w.b, nowMS).allowed && Ask(w.b, nowMS).retryAfterMS == w.b.retryAtMS - nowMS
    ensures nowMS >= w.b.retryAtMS ==> Ask(w.b, nowMS).allowed == !w.b.probeInflight
    ensures Take(w, AskStep(nowMS)).b.suppressed ==
              (w.b.suppressed + if Ask(w.b, nowMS).allowed then 0 else 1) % TWO_TO_64
  {
    RunKeepsInv(START, steps, w);
  }

  lemma {:induction false} ReachesSnoc(w: World, steps: seq<Step>, w': World, step: Step)
    requires Reaches(w, steps, w') && Enabled(w', step)
    ensures Reaches(w, steps + [step], Take(w', step))
    decreases |steps|
  {
    hide Take, Enabled;
    if steps == [] {
      assert [step][1..] == [];
      assert Reaches(Take(w, step), [], Take(w', step));
    } else {
      ReachesSnoc(Take(w, steps[0]), steps[1..], w', step);
      assert (steps + [step])[1..] == steps[1..] + [step];
    }
  }

  /** Four calls granted while closed, three of which fail and open the breaker. */
  lemma OpenWithStraggler() returns (steps: seq<Step>, w: World)
    ensures Reaches(START, steps, w) && Inv(w)
    ensures Open(w.b) && w.b.openedAtMS == 1000 && !w.b.probeInflight
    ensures w.period == 1 && w.late == 0 && w.next == 4 && w.calls == map[3 := Grant(0, false)]
  {
    steps, w := [], START;
    var w1 := Take(START, AskStep(1000));
    var w2 := Take(w1, AskStep(1000));
    var w3 := Take(w2, AskStep(1000));
    var w4 := Take(w3, AskStep(1000));
    ReachesSnoc(START, [], START, AskStep(1000));
    ReachesSnoc(START, [] + [AskStep(1000)], w1, AskStep(1000));
    ReachesSnoc(START, [] + [AskStep(1000)] + [AskStep(1000)], w2, AskStep(1000));
    ReachesSnoc(START, [] + [AskStep(1000)] + [AskStep(1000)] + [AskStep(1000)], w3, AskStep(1000));
    steps := [] + [AskStep(1000)] + [AskStep(1000)] + [AskStep(1000)] + [AskStep(1000)];
    assert w4.b == CLOSED && w4.calls ==
             map[0 := Grant(0, false), 1 := Grant(0, false), 2 := Grant(0, false), 3 := Grant(0, false)];
    steps, w := FailThree(steps, w4);
  }

  lemma FailThree(before: seq<Step>, w4: World) returns (steps: seq<Step>, w: World)
    requires Reaches(START, before, w4) && w4.b == CLOSED && w4.period == 0 && w4.late == 0 && w4.next == 4
    requires w4.calls == map[0 := Grant(0, false), 1 := Grant(0, false), 2 := Grant(0, false), 3 := Grant(0, false)]
    ensures Reaches(START, steps, w) && Inv(w)
    ensures Open(w.b) && w.b.openedAtMS == 1000 && !w.b.probeInflight
    ensures w.period == 1 && w.late == 0 && w.next == 4 && w.calls == map[3 := Grant(0, false)]
  {
    hide Delay, WrapI64, Reaches;
    var w5 := Take(w4, Failure(0, 1000));
    ReachesSnoc(START, before, w4, Failure(0, 1000));
    assert w5.b.failureStreak == 1 && !Open(w5.b)
           && w5.calls == map[1 := Grant(0, false), 2 := Grant(0, false), 3 := Grant(0, false)];
    var w6 := Take(w5, Failure(1, 1000));
    ReachesSnoc(START, before + [Failure(0, 1000)], w5, Failure(1, 1000));
    assert w6.b.failureStreak == 2 && !Open(w6.b) && w6.calls == map[2 := Grant(0, false), 3 := Grant(0, false)];
    w := Take(w6, Failure(2, 1000));
    steps := before + [Failure(0, 1000)] + [Failure(1, 1000)] + [Failure(2, 1000)];
    ReachesSnoc(START, before + [Failure(0, 1000)] + [Failure(1, 1000)], w6, Failure(2, 1000));
    RunKeepsInv(START, steps, w);
    FailureKeepsBreaker(w6.b, 1000);
    assert w.b.failureStreak == 3;
    assert w.calls == map[3 := Grant(0, false)];
  }

  /** One probe at a time is not unconditional: a call granted before the breaker opened and
      cancelled while it is open clears another call's probe, and a second one is granted. */
  lemma TwoProbes() returns (steps: seq<Step>, w: World)
    ensures Reaches(START, steps, w) && Open(w.b) && |Probes(w)| == 2 && w.late == 1
  {
    hide Reaches;
    var w0;
    steps, w0 := OpenWithStraggler();
    var t: I64 := 100000;
    var w1 := Take(w0, AskStep(t));
    ReachesSnoc(START, steps, w0, AskStep(t));
    steps := steps + [AskStep(t)];
    var w2 := Take(w1, Cancel(3));
    ReachesSnoc(START, steps, w1, Cancel(3));
    steps := steps + [Cancel(3)];
    assert w2.calls == map[4 := Grant(1, true)];
    w := Take(w2, AskStep(t));
    ReachesSnoc(START, steps, w2, AskStep(t));
    steps := steps + [AskStep(t)];
    assert w.calls == map[4 := Grant(1, true), 5 := Grant(1, true)];
    assert Probes(w) == {4, 5};
  }

  // When a second probe can get out.

  /** An outstanding call that was granted before the current opening. */
  ghost predicate HasStraggler(w: World) {
    exists id :: id in w.calls && w.calls[id].period < w.period
  }

  /** The outstanding probes are no more than the flag claims. */
  predicate OneAtMost(w: World) {
    |Probes(w)| <= if w.b.probeInflight then 1 else 0
  }

  /** As long as this open period lasts, nothing is left to report late and the flag is right. */
  ghost predicate Undisturbed(w: World, period: nat) {
    && w.period >= period
    && (w.period == period && Open(w.b) ==> !HasStraggler(w) && OneAtMost(w))
  }

  lemma ReportUndisturbed(w: World, id: nat, b: State, period: nat)
    requires Inv(w) && id in w.calls && !b.probeInflight && Undisturbed(w, period)
    ensures Undisturbed(Report(w, id, b), period)
  {
    var t := Report(w, id, b);
    if t.period == period && Open(b) && Open(w.b) {
      assert id in Probes(w);
      assert Probes(t) == Probes(w) - {id};
    }
  }

  lemma StepUndisturbed(w: World, step: Step, period: nat)
    requires Inv(w) && Enabled(w, step) && Undisturbed(w, period)
    ensures Undisturbed(Take(w, step), period)
  {
    match step
    case AskStep(nowMS) =>
      var t := Take(w, step);
      if Open(w.b) {
        assert Probes(t) == if Ask(w.b, nowMS).allowed then Probes(w) + {w.next} else Probes(w);
      }
    case Success(id, nowMS) => ReportUndisturbed(w, id, AfterSuccess(w.b, nowMS), period);
    case Failure(id, nowMS) => ReportUndisturbed(w, id, AfterFailure(w.b, nowMS), period);
    case Cancel(id) => ReportUndisturbed(w, id, AfterCancel(w.b), period);
  }

  lemma {:induction false} RunUndisturbed(w: World, steps: seq<Step>, w': World, period: nat)
    requires Inv(w) && Undisturbed(w, period) && Reaches(w, steps, w')
    ensures Inv(w') && Undisturbed(w', period)
    decreases |steps|
  {
    hide Inv, Take, Enabled, Undisturbed;
    if steps != [] {
      StepKeepsInv(w, steps[0]);
      StepUndisturbed(w, steps[0], period);
      RunUndisturbed(Take(w, steps[0]), steps[1..], w', period);
    }
  }

  /** A time at which an open breaker grants a probe. */
  lemma ProbeTime(b: State) returns (t: I64)
    requires BreakerInv(b) && Open(b)
    ensures SaneClock(t) && Eligible(b, t)
  {
    t := if b.openedAtMS > 1 then 1 else b.retryAtMS;
  }

  /** A probe beside those outstanding is granted when the flag is down. */
  lemma ProbeBeside(w: World) returns (steps: seq<Step>, w': World)
    requires Inv(w) && Open(w.b) && !w.b.probeInflight
    ensures Reaches(w, steps, w') && Inv(w') && Open(w'.b) && w'.b.probeInflight
    ensures w'.period == w.period && |Probes(w')| == |Probes(w)| + 1
    ensures forall id :: id in w.calls ==> id in w'.calls && w'.calls[id] == w.calls[id]
  {
    var t := ProbeTime(w.b);
    w' := Take(w, AskStep(t));
    StepKeepsInv(w, AskStep(t));
    assert Probes(w') == Probes(w) + {w.next} && w.next !in Probes(w);
    hide Inv, Probes, Open;
    ReachesSnoc(w, [], w, AskStep(t));
    steps := [] + [AskStep(t)];
  }

  /** A straggler's cancel clears the flag and leaves the probes as they are. */
  lemma CancelClears(w: World, id: nat) returns (w': World)
    requires Inv(w) && Open(w.b) && id in w.calls && w.calls[id].period < w.period
    ensures Reaches(w, [Cancel(id)], w') && Inv(w') && Open(w'.b) && !w'.b.probeInflight
    ensures w'.period == w.period && Probes(w') == Probes(w)
  {
    w' := Take(w, Cancel(id));
    StepKeepsInv(w, Cancel(id));
    assert Probes(w') == Probes(w);
    hide Inv, Probes, Open;
    ReachesSnoc(w, [], w, Cancel(id));
    assert [] + [Cancel(id)] == [Cancel(id)];
  }

  lemma {:induction false} ReachesThen(w: World, steps: seq<Step>, w1: World, steps': seq<Step>, w2: World)
    requires Reaches(w, steps, w1) && Reaches(w1, steps', w2)
    ensures Reaches(w, steps + steps', w2)
    decreases |steps|
  {
    hide Take, Enabled;
    if steps == [] {
      assert [] + steps' == steps';
    } else {
      ReachesThen(Take(w, steps[0]), steps[1..], w1, steps', w2);
      assert (steps + steps')[1..] == steps[1..] + steps';
    }
  }

  /** Two probes are out at once at some time in this open period. */
  ghost predicate CanHaveTwo(w: World) {
    exists steps, w' :: Reaches(w, steps, w') && Open(w'.b) && w'.period == w.period && |Probes(w')| >= 2
  }

  /** From any reachable open state, no two probes are ever out at once in the rest of the period
      exactly when no call granted before the breaker opened is still outstanding and the probes
      outstanding now are no more than the flag claims. */
  lemma SecondProbeIff(before: seq<Step>, w: World)
    requires Reaches(START, before, w) && Open(w.b)
    ensures CanHaveTwo(w) <==> HasStraggler(w) || !OneAtMost(w)
  {
    RunKeepsInv(START, before, w);
    if HasStraggler(w) {
      var id :| id in w.calls && w.calls[id].period < w.period;
      StragglerLetsTwo(w, id);
    } else if !OneAtMost(w) {
      FlagDownLetsTwo(w);
    } else if CanHaveTwo(w) {
      var steps, w' :| Reaches(w, steps, w') && Open(w'.b) && w'.period == w.period && |Probes(w')| >= 2;
      RunUndisturbed(w, steps, w', w.period);
    }
  }

  /** In a period without late reports so far, that is a question of stragglers alone. */
  lemma SecondProbeOnlyByStragglers(before: seq<Step>, w: World)
    requires Reaches(START, before, w) && Open(w.b) && w.late == 0
    ensures CanHaveTwo(w) <==> HasStraggler(w)
  {
    SecondProbeIff(before, w);
    ProbesAreBounded(before, w);
    hide CanHaveTwo, HasStraggler, Reaches;
  }

  lemma FlagDownLetsTwo(w: World)
    requires Inv(w) && Open(w.b) && !OneAtMost(w)
    ensures CanHaveTwo(w)
  {
    if w.b.probeInflight {
      assert Reaches(w, [], w);
    } else {
      var steps, w' := ProbeBeside(w);
    }
  }

  lemma StragglerLetsTwo(w: World, id: nat)
    requires Inv(w) && Open(w.b) && id in w.calls && w.calls[id].period < w.period
    ensures CanHaveTwo(w)
  {
    var w0, steps0 := w, [];
    if Probes(w) == {} {
      assert !w.b.probeInflight;
      steps0, w0 := ProbeBeside(w);
    } else {
      var k :| k in Probes(w);
      assert |Probes(w) - {k}| + 1 == |Probes(w)|;
    }
    assert Reaches(w, steps0, w0) && |Probes(w0)| >= 1;
    hide Inv, Probes, Open, Reaches;
    var w1 := CancelClears(w0, id);
    var steps2, w2 := ProbeBeside(w1);
    ReachesThen(w, steps0, w0, [Cancel(id)], w1);
    ReachesThen(w, steps0 + [Cancel(id)], w1, steps2, w2);
  }
}
