/** Splitting content into overlapping windows of about fifty tokens, and when that ever ends. */
module Chunker {
  const CHUNK_CHARS := 200
  const OVERLAP_CHARS := 40
  const MAX_CHUNKS := 8

  predicate IsSpace(c: char) {
    c == ' ' || c == '\t' || c == '\n' || c == '\r' || c == (11 as char) || c == (12 as char)
  }

  predicate IsBreak(c: char) {
    c == '.' || c == '!' || c == '?' || c == ';' || c == '\n'
  }

  // One window.

  /** The end of the last break character between pos and k, or pos when there is none. */
  function ScanBack(c: string, pos: nat, k: nat): (r: nat)
    requires pos <= k <= |c|
    ensures pos <= r <= k
    ensures r > pos ==> IsBreak(c[r - 1])
    ensures forall i :: r <= i < k ==> !IsBreak(c[i])
  {
    if k == pos || IsBreak(c[k - 1]) then k else ScanBack(c, pos, k - 1)
  }

  function BreakAt(c: string, pos: nat): (b: nat)
    requires pos < |c|
    ensures pos < b <= |c| && b <= pos + CHUNK_CHARS
  {
    var end := pos + CHUNK_CHARS;
    if end >= |c| then |c|
    else
      var k := ScanBack(c, pos, end);
      if k == pos then end else k
  }

  /** Where the window's text ends once trailing space is trimmed. */
  function TrimEnd(c: string, pos: nat, b: nat): (e: nat)
    requires pos <= b <= |c|
    ensures pos <= e <= b
    ensures e > pos ==> !IsSpace(c[e - 1])
    ensures forall i :: e <= i < b ==> IsSpace(c[i])
  {
    if b == pos || !IsSpace(c[b - 1]) then b else TrimEnd(c, pos, b - 1)
  }

  /** Back by the overlap; the guard against standing still measures from the break, not from the start. */
  function NextPos(b: nat): nat {
    var pos := if b > OVERLAP_CHARS then b - OVERLAP_CHARS else 0;
    if pos <= (if b > CHUNK_CHARS then b - CHUNK_CHARS else 0) then b else pos
  }

  /** The next window starts further on exactly when the break is beyond the overlap, or within the
      first 40 characters of the content. */
  lemma ProgressCondition(c: string, pos: nat)
    requires pos < |c|
    ensures NextPos(BreakAt(c, pos)) > pos <==>
              BreakAt(c, pos) > pos + OVERLAP_CHARS || BreakAt(c, pos) <= OVERLAP_CHARS
    ensures NextPos(BreakAt(c, pos)) <= BreakAt(c, pos)
    ensures NextPos(BreakAt(c, pos)) == if BreakAt(c, pos) > 40 then BreakAt(c, pos) - 40 else BreakAt(c, pos)
  {
  }

  /** A window ends with the content, or behind the last of the five break characters within two
      hundred, or else at two hundred; and its text ends where only white space follows. */
  lemma WindowMeaning(c: string, pos: nat)
    requires pos < |c|
    ensures var b := BreakAt(c, pos);
            && (pos + 200 >= |c| ==> b == |c|)
            && (pos + 200 < |c| ==>
                  && (b == pos + 200 || c[b - 1] in ".!?;\n")
                  && (forall k :: b <= k < pos + 200 ==> c[k] !in ".!?;\n")
                  && (b == pos + 200 && c[b - 1] !in ".!?;\n" ==> forall k :: pos <= k < b ==> c[k] !in ".!?;\n"))
    ensures var b := BreakAt(c, pos);
            var e := TrimEnd(c, pos, b);
            && (e > pos ==> c[e - 1] !in " \t\n\r" && c[e - 1] != 11 as char && c[e - 1] != 12 as char)
            && forall k :: e <= k < b ==> c[k] in " \t\n\r" || c[k] == 11 as char || c[k] == 12 as char
  {
  }

  // Runs.

  datatype Span = Span(start: nat, stop: nat)
  datatype State = State(pos: nat, windows: seq<Span>, chunks: seq<Span>, done: bool)

  const START := State(0, [], [], false)

  predicate Live(c: string, st: State) {
    !st.done && st.pos < |c| && |st.chunks| < MAX_CHUNKS
  }

  function Step(c: string, st: State): State
    requires Live(c, st)
  {
    var b := BreakAt(c, st.pos);
    var e := TrimEnd(c, st.pos, b);
    var windows := st.windows + [Span(st.pos, b)];
    var chunks := if e > st.pos then st.chunks + [Span(st.pos, e)] else st.chunks;
    if b >= |c| then State(st.pos, windows, chunks, true) else State(NextPos(b), windows, chunks, false)
  }

  function RunFrom(c: string, st: State, n: nat): State
    decreases n
  {
    if n == 0 || !Live(c, st) then st else RunFrom(c, Step(c, st), n - 1)
  }

  lemma {:induction false} RunStep(c: string, st: State, n: nat)
    ensures RunFrom(c, st, n + 1)
         == if Live(c, RunFrom(c, st, n)) then Step(c, RunFrom(c, st, n)) else RunFrom(c, st, n)
    decreases n
  {
    if n > 0 && Live(c, st) {
      hide Step;
      RunStep(c, Step(c, st), n - 1);
    }
  }

  // Termination.

  /** The window gives up its break at or behind the overlap, and all the overlap is space. */
  predicate Stuck(c: string, pos: nat)
    requires pos < |c|
  {
    var b := BreakAt(c, pos);
    b < |c| && OVERLAP_CHARS < b <= pos + OVERLAP_CHARS && forall i :: b - OVERLAP_CHARS <= i < b ==> IsSpace(c[i])
  }

  /** A window that falls back to its overlap finds the same break again. */
  lemma FallsBack(c: string, pos: nat)
    requires pos < |c|
    requires var b := BreakAt(c, pos); b < |c| && OVERLAP_CHARS < b <= pos + OVERLAP_CHARS
    ensures var b := BreakAt(c, pos);
            && NextPos(b) == b - OVERLAP_CHARS <= pos
            && BreakAt(c, b - OVERLAP_CHARS) == b
            && IsBreak(c[b - 1])
  {
    var b := BreakAt(c, pos);
    var q := b - OVERLAP_CHARS;
    assert ScanBack(c, pos, pos + CHUNK_CHARS) == b;
    var r := ScanBack(c, q, q + CHUNK_CHARS);
    assert IsBreak(c[b - 1]);
  }

  lemma StuckStays(c: string, st: State)
    requires Live(c, st) && Stuck(c, st.pos)
    ensures var st' := Step(c, st);
            Live(c, st') && Stuck(c, st'.pos) && st'.chunks == st.chunks
  {
    FallsBack(c, st.pos);
    hide BreakAt, NextPos;
  }

  lemma {:induction false} StuckForever(c: string, st: State, n: nat)
    requires Live(c, st) && Stuck(c, st.pos)
    ensures Live(c, RunFrom(c, st, n))
    decreases n
  {
    hide Step, Stuck;
    if n > 0 {
      StuckStays(c, st);
      StuckForever(c, Step(c, st), n - 1);
    }
  }

  function Emits(c: string, pos: nat): bool {
    pos < |c| && TrimEnd(c, pos, BreakAt(c, pos)) > pos
  }

  /** Without a chunk the run must reach the end; before a chunk it need not go further. */
  function Left(c: string, pos: nat): nat {
    if Emits(c, pos) || pos >= |c| then 0 else |c| - pos
  }

  /** Unless it is stuck, every window brings the end nearer: it yields a chunk, or moves on, or falls
      back to a window that yields one. */
  lemma StepDescends(c: string, st: State)
    requires Live(c, st) && !Stuck(c, st.pos) && Live(c, Step(c, st))
    ensures var st' := Step(c, st);
            |st'.chunks| == |st.chunks| + (if Emits(c, st.pos) then 1 else 0)
            && (Emits(c, st.pos) || Left(c, st'.pos) < Left(c, st.pos))
  {
    var b := BreakAt(c, st.pos);
    var st' := Step(c, st);
    if !Emits(c, st.pos) && st'.pos <= st.pos {
      FallsBack(c, st.pos);
      assert !Stuck(c, st.pos);
      var i :| b - OVERLAP_CHARS <= i < b && !IsSpace(c[i]);
      assert TrimEnd(c, st'.pos, b) > st'.pos;
    }
    hide BreakAt, TrimEnd, NextPos, IsSpace;
  }

  ghost predicate Halts(c: string, st: State) {
    exists n: nat :: !Live(c, RunFrom(c, st, n))
  }

  ghost predicate NeverStuck(c: string, st: State) {
    forall n: nat :: Live(c, RunFrom(c, st, n)) ==> !Stuck(c, RunFrom(c, st, n).pos)
  }

  lemma {:induction false} UnstuckHalts(c: string, st: State)
    requires |st.chunks| <= MAX_CHUNKS && NeverStuck(c, st)
    ensures Halts(c, st)
    decreases MAX_CHUNKS - |st.chunks|, Left(c, st.pos)
  {
    hide Stuck, Emits;
    if Live(c, st) {
      assert RunFrom(c, st, 0) == st;
      var st' := Step(c, st);
      forall n: nat | Live(c, RunFrom(c, st', n))
        ensures !Stuck(c, RunFrom(c, st', n).pos)
      {
        assert RunFrom(c, st', n) == RunFrom(c, st, n + 1);
      }
      if Live(c, st') {
        StepDescends(c, st);
        UnstuckHalts(c, st');
      } else {
        assert RunFrom(c, st', 0) == st';
      }
      var n: nat :| !Live(c, RunFrom(c, st', n));
      assert RunFrom(c, st', n) == RunFrom(c, st, n + 1);
    } else {
      assert RunFrom(c, st, 0) == st;
    }
  }

  /** The chunker halts exactly when no window it reaches is stuck. */
  lemma HaltsIff(c: string)
    ensures Halts(c, START) <==> NeverStuck(c, START)
  {
    hide Stuck, RunFrom;
    if NeverStuck(c, START) {
      UnstuckHalts(c, START);
    } else {
      var n: nat :| Live(c, RunFrom(c, START, n)) && Stuck(c, RunFrom(c, START, n).pos);
      forall m: nat
        ensures Live(c, RunFrom(c, START, m))
      {
        if m <= n {
          LiveBefore(c, START, m, n);
        } else {
          StuckForever(c, RunFrom(c, START, n), m - n);
          RunSplit(c, START, n, m - n);
        }
      }
    }
  }

  lemma {:induction false} LiveBefore(c: string, st: State, m: nat, n: nat)
    requires m <= n && Live(c, RunFrom(c, st, n))
    ensures Live(c, RunFrom(c, st, m))
    decreases m
  {
    hide Step;
    if m > 0 && Live(c, st) {
      LiveBefore(c, Step(c, st), m - 1, n - 1);
    }
  }

  lemma {:induction false} RunSplit(c: string, st: State, n: nat, m: nat)
    ensures RunFrom(c, st, n + m) == RunFrom(c, RunFrom(c, st, n), m)
    decreases n
  {
    hide Step;
    if n > 0 && Live(c, st) {
      RunSplit(c, Step(c, st), n - 1, m);
    }
  }

  /** Every newline has something other than space among the forty characters it ends. */
  predicate NewlinesFollowText(c: string) {
    forall k :: OVERLAP_CHARS - 1 <= k < |c| && c[k] == '\n' ==>
      exists i :: k - OVERLAP_CHARS < i <= k && !IsSpace(c[i])
  }

  /** Only a newline is both a break and space: content in which none ends a run of forty spaces is
      always chunked to an end, content without newlines included. */
  lemma NewlinesFollowTextHalts(c: string)
    requires NewlinesFollowText(c)
    ensures Halts(c, START)
  {
    forall n: nat | Live(c, RunFrom(c, START, n))
      ensures !Stuck(c, RunFrom(c, START, n).pos)
    {
      var pos := RunFrom(c, START, n).pos;
      if Stuck(c, pos) {
        FallsBack(c, pos);
        assert false;
      }
    }
    UnstuckHalts(c, START);
  }

  /** Forty-three spaces and a newline ahead of plain text keep it going for ever. */
  lemma SomeContentNeverHalts(c: string)
    requires |c| >= 300
    requires forall i :: 0 <= i < 43 ==> c[i] == ' '
    requires c[43] == '\n' && forall i :: 44 <= i < |c| ==> c[i] == 'a'
    ensures !Halts(c, START)
  {
    var r0, r4 := ScanBack(c, 0, 200), ScanBack(c, 4, 204);
    assert IsBreak(c[43]);
    assert r0 == 44 && r4 == 44;
    assert BreakAt(c, 0) == 44 && BreakAt(c, 4) == 44;
    assert Stuck(c, 4);
    assert TrimEnd(c, 0, 44) == 0;
    var st := Step(c, START);
    assert st.pos == 4 && Live(c, st);
    assert RunFrom(c, st, 0) == st;
    assert RunFrom(c, START, 1) == st;
    HaltsIff(c);
  }

  // Coverage.

  ghost predicate Within(i: nat, spans: seq<Span>) {
    exists k :: 0 <= k < |spans| && spans[k].start <= i < spans[k].stop
  }

  function Reach(windows: seq<Span>): nat {
    if windows == [] then 0
    else
      var r := Reach(windows[..|windows| - 1]);
      var last := windows[|windows| - 1];
      if last.stop > r then last.stop else r
  }

  ghost predicate Gapless(windows: seq<Span>) {
    forall i :: 0 <= i < Reach(windows) ==> Within(i, windows)
  }

  /** All text ahead of r is in some chunk. */
  ghost predicate TextKept(c: string, r: nat, chunks: seq<Span>)
    requires r <= |c|
  {
    forall i :: 0 <= i < r && !IsSpace(c[i]) ==> Within(i, chunks)
  }

  ghost predicate ChunkOk(c: string, s: Span) {
    s.start < s.stop <= |c| && s.stop <= s.start + CHUNK_CHARS && !IsSpace(c[s.stop - 1])
  }

  /** The windows leave no gap, the chunks keep all their text, and no chunk is empty or too long. */
  ghost predicate Covering(c: string, st: State) {
    && st.pos <= Reach(st.windows) <= |c|
    && Gapless(st.windows)
    && TextKept(c, Reach(st.windows), st.chunks)
    && |st.chunks| <= MAX_CHUNKS
    && (forall k :: 0 <= k < |st.chunks| ==> ChunkOk(c, st.chunks[k]))
    && (st.done ==> Reach(st.windows) == |c|)
    && (|c| > 0 && !st.done ==> st.pos < |c|)
  }

  lemma WithinMore(i: nat, spans: seq<Span>, s: Span)
    ensures Within(i, spans + [s]) <==> Within(i, spans) || s.start <= i < s.stop
  {
    var t := spans + [s];
    if Within(i, spans) {
      var k :| 0 <= k < |spans| && spans[k].start <= i < spans[k].stop;
      assert t[k] == spans[k];
    }
    if s.start <= i < s.stop {
      assert t[|spans|] == s;
    }
  }

  lemma TextIsOk(c: string, pos: nat)
    requires pos < |c|
    ensures var e := TrimEnd(c, pos, BreakAt(c, pos)); e > pos ==> ChunkOk(c, Span(pos, e))
  {
    hide TrimEnd, BreakAt, IsSpace;
  }

  lemma StepShape(c: string, st: State)
    requires Live(c, st)
    ensures var st' := Step(c, st); var b := BreakAt(c, st.pos); var e := TrimEnd(c, st.pos, b);
            && st'.windows == st.windows + [Span(st.pos, b)]
            && st'.chunks == (if e > st.pos then st.chunks + [Span(st.pos, e)] else st.chunks)
            && st'.pos <= b <= |c| && (st'.done ==> b == |c|) && (!st'.done ==> st'.pos < |c|)
  {
    ProgressCondition(c, st.pos);
  }

  lemma ReachMore(windows: seq<Span>, s: Span)
    ensures Reach(windows + [s]) == if s.stop > Reach(windows) then s.stop else Reach(windows)
  {
    assert (windows + [s])[..|windows|] == windows;
  }

  lemma MoreWindows(windows: seq<Span>, s: Span)
    requires Gapless(windows) && s.start <= Reach(windows)
    ensures Gapless(windows + [s])
  {
    ReachMore(windows, s);
    hide Within, Reach;
    forall i | 0 <= i < Reach(windows + [s])
      ensures Within(i, windows + [s])
    {
      WithinMore(i, windows, s);
    }
  }

  lemma MoreText(c: string, r: nat, chunks: seq<Span>, pos: nat, b: nat, chunks': seq<Span>)
    requires r <= |c| && TextKept(c, r, chunks) && pos <= r && pos <= b <= |c|
    requires var e := TrimEnd(c, pos, b); chunks' == if e > pos then chunks + [Span(pos, e)] else chunks
    ensures TextKept(c, if b > r then b else r, chunks')
  {
    var e := TrimEnd(c, pos, b);
    hide Within, TrimEnd;
    forall i | 0 <= i < (if b > r then b else r) && !IsSpace(c[i])
      ensures Within(i, chunks')
    {
      WithinMore(i, chunks, Span(pos, e));
    }
  }

  lemma StepCovers(c: string, st: State)
    requires Live(c, st) && Covering(c, st)
    ensures Covering(c, Step(c, st))
  {
    hide Step, BreakAt, TrimEnd, Gapless, TextKept, Reach, ChunkOk, IsSpace, NextPos;
    var st' := Step(c, st);
    var b := BreakAt(c, st.pos);
    var e := TrimEnd(c, st.pos, b);
    StepShape(c, st);
    TextIsOk(c, st.pos);
    ReachMore(st.windows, Span(st.pos, b));
    MoreWindows(st.windows, Span(st.pos, b));
    MoreText(c, Reach(st.windows), st.chunks, st.pos, b, st'.chunks);
    assert forall k :: 0 <= k < |st'.chunks| ==> ChunkOk(c, st'.chunks[k]);
  }

  lemma StartIsCovered(c: string)
    ensures Covering(c, START)
  {
  }

  /** Whatever the content, and at every moment of a run, what the windows have passed over is an
      unbroken prefix, and all its text is in some chunk. */
  lemma {:induction false} RunCovers(c: string, n: nat)
    ensures Covering(c, RunFrom(c, START, n))
  {
    StartIsCovered(c);
    hide Covering, Step, Live;
    if n > 0 {
      RunCovers(c, n - 1);
      RunStep(c, START, n - 1);
      hide RunFrom;
      if Live(c, RunFrom(c, START, n - 1)) {
        StepCovers(c, RunFrom(c, START, n - 1));
      }
    }
  }

  /** A run that ends short of eight chunks has chunked all the text. */
  lemma HaltedCovers(c: string, n: nat, i: nat)
    requires !Live(c, RunFrom(c, START, n)) && |RunFrom(c, START, n).chunks| < MAX_CHUNKS
    requires i < |c| && !IsSpace(c[i])
    ensures Within(i, RunFrom(c, START, n).chunks)
  {
    RunCovers(c, n);
  }

  // The chunker.

  ghost predicate Sized(c: string, chunks: seq<Span>) {
    forall k :: 0 <= k < |chunks| ==> chunks[k].start <= chunks[k].stop <= |c|
  }

  ghost function Texts(c: string, chunks: seq<Span>): (t: seq<string>)
    requires Sized(c, chunks)
    ensures |t| == |chunks| && forall k :: 0 <= k < |t| ==> t[k] == c[chunks[k].start..chunks[k].stop]
  {
    if chunks == [] then []
    else
      var last := chunks[|chunks| - 1];
      Texts(c, chunks[..|chunks| - 1]) + [c[last.start..last.stop]]
  }

  method FindBreak(c: string, pos: nat) returns (breakAt: nat)
    requires pos < |c|
    ensures breakAt == BreakAt(c, pos)
  {
    var end := pos + CHUNK_CHARS;
    if end >= |c| {
      end := |c|;
    }
    breakAt := end;
    if end < |c| {
      var k := end;
      while k > pos
        invariant pos <= k <= end
        invariant ScanBack(c, pos, end) == ScanBack(c, pos, k)
      {
        if IsBreak(c[k - 1]) {
          return k;
        }
        k := k - 1;
      }
    }
  }

  method Trim(c: string, pos: nat, breakAt: nat) returns (stop: nat)
    requires pos <= breakAt <= |c|
    ensures stop == TrimEnd(c, pos, breakAt)
  {
    stop := breakAt;
    while stop > pos && IsSpace(c[stop - 1])
      invariant pos <= stop <= breakAt
      invariant TrimEnd(c, pos, breakAt) == TrimEnd(c, pos, stop)
    {
      stop := stop - 1;
    }
  }

  /** One window: where it breaks, where its text stops, and where the next one starts. */
  method NextWindow(c: string, pos: nat, ghost st: State) returns (stop: nat, next: nat, atEnd: bool)
    requires Live(c, st) && st.pos == pos
    ensures var st' := Step(c, st);
            && st'.done == atEnd && st'.pos == next
            && pos <= stop <= |c|
            && st'.chunks == if stop > pos then st.chunks + [Span(pos, stop)] else st.chunks
  {
    var breakAt := FindBreak(c, pos);
    stop := Trim(c, pos, breakAt);
    hide BreakAt, TrimEnd;
    atEnd := breakAt >= |c|;
    next := pos;
    if atEnd {
      return;
    }
    next := if breakAt > OVERLAP_CHARS then breakAt - OVERLAP_CHARS else 0;
    if next <= (if breakAt > CHUNK_CHARS then breakAt - CHUNK_CHARS else 0) {
      next := breakAt;
    }
  }

  lemma Advance(c: string, st: State, n: nat)
    requires NeverStuck(c, START) && st == RunFrom(c, START, n) && Live(c, st) && Covering(c, st)
    ensures var st' := Step(c, st);
            && st' == RunFrom(c, START, n + 1) && Covering(c, st')
            && (Live(c, st') ==>
                  |st'.chunks| > |st.chunks| || (|st'.chunks| == |st.chunks| && Left(c, st'.pos) < Left(c, st.pos)))
            && (!st'.done ==> st'.pos < |c|)
  {
    assert !Stuck(c, RunFrom(c, START, n).pos);
    hide Step, Covering, Left, Stuck;
    RunStep(c, START, n);
    StepCovers(c, st);
    StepShape(c, st);
    if Live(c, Step(c, st)) {
      StepDescends(c, st);
    }
  }

  /** The window's text is inserted unless it is all space. */
  method InsertWindow(c: string, pos: nat, ghost st: State, inserted0: seq<string>)
    returns (inserted: seq<string>, next: nat, atEnd: bool)
    requires Live(c, st) && st.pos == pos && Sized(c, st.chunks) && inserted0 == Texts(c, st.chunks)
    ensures var st' := Step(c, st);
            && st'.done == atEnd && st'.pos == next && |st'.chunks| == |inserted|
            && Sized(c, st'.chunks) && inserted == Texts(c, st'.chunks)
  {
    var stop;
    stop, next, atEnd := NextWindow(c, pos, st);
    TextsMore(c, st.chunks, Span(pos, stop));
    hide *;
    inserted := if stop > pos then inserted0 + [c[pos..stop]] else inserted0;
  }

  lemma StartCovers(c: string)
    ensures RunFrom(c, START, 0) == START && START.pos == 0 && !START.done && START.chunks == []
    ensures Covering(c, START) && Sized(c, []) && Texts(c, []) == []
  {
    RunCovers(c, 0);
  }

  /** The run has ended, covering all it passed, and these are its chunks, or the whole content for none. */
  ghost predicate ChunkedBy(c: string, st: State, inserted: seq<string>) {
    && !Live(c, st) && Covering(c, st) && Sized(c, st.chunks)
    && inserted == if c == "" then [] else if st.chunks == [] then [c] else Texts(c, st.chunks)
  }

  /** The chunks inserted for the content, wherever chunking ends at all: at most eight, or the whole
      content when it is nothing but space. */
  method RefreshChunks(c: string) returns (inserted: seq<string>)
    requires NeverStuck(c, START)
    ensures exists n: nat :: ChunkedBy(c, RunFrom(c, START, n), inserted)
  {
    hide Step, Covering, Left, NeverStuck, RunFrom, Sized, Texts, START;
    ghost var n: nat := 0;
    StartCovers(c);
    inserted := [];
    if c == "" {
      assert ChunkedBy(c, RunFrom(c, START, 0), inserted);
      return;
    }
    ghost var st := START;
    var pos, atEnd := 0, false;
    while pos < |c| && |inserted| < MAX_CHUNKS && !atEnd
      invariant st == RunFrom(c, START, n) && Covering(c, st)
      invariant st.pos == pos && st.done == atEnd && |st.chunks| == |inserted|
      invariant Sized(c, st.chunks) && inserted == Texts(c, st.chunks)
      decreases !atEnd, MAX_CHUNKS - |inserted|, Left(c, pos)
    {
      inserted, pos, atEnd := InsertWindow(c, pos, st, inserted);
      Advance(c, st, n);
      st, n := Step(c, st), n + 1;
    }
    if |inserted| == 0 {
      inserted := [c];
    }
    assert ChunkedBy(c, RunFrom(c, START, n), inserted);
  }

  lemma TextsMore(c: string, chunks: seq<Span>, s: Span)
    requires Sized(c, chunks) && s.start <= s.stop <= |c|
    ensures Sized(c, chunks + [s]) && Texts(c, chunks + [s]) == Texts(c, chunks) + [c[s.start..s.stop]]
  {
    assert (chunks + [s])[..|chunks|] == chunks;
  }
}
