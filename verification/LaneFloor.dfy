/** Lane floors: promoting rows of a lane into the top of a ranked list. */
module LaneFloor {
  import opened Wrappers

  datatype Row = Row(id: int, content: string)

  function LaneCount(s: seq<Row>, lane: seq<int>): (n: nat)
    ensures n <= |s|
  {
    if s == [] then 0
    else LaneCount(s[..|s| - 1], lane) + (if s[|s| - 1].id in lane then 1 else 0)
  }

  function Swap(s: seq<Row>, i: nat, j: nat): (t: seq<Row>)
    requires i < |s| && j < |s|
    ensures |t| == |s|
  {
    s[i := s[j]][j := s[i]]
  }

  /** A floored list with what is left of its top window, or a victim sought before the list's start. */
  datatype Floored = Overrun | Floored(rows: seq<Row>, window: int)

  /** The scan of the tail: each lane row found trades places with the last row of the window,
      and the window shrinks to protect it. */
  function Promote(s: seq<Row>, lane: seq<int>, needed: int, tail: nat, total: nat): (r: Floored)
    requires total <= tail <= |s|
    ensures r.Floored? ==> |r.rows| == |s| && 0 <= r.window <= total
    decreases |s| - tail
  {
    if tail == |s| || needed <= 0 then Floored(s, total)
    else if s[tail].id !in lane then Promote(s, lane, needed, tail + 1, total)
    else if total == 0 then Overrun
    else Promote(Swap(s, total - 1, tail), lane, needed - 1, tail + 1, total - 1)
  }

  function ApplyFloor(s: seq<Row>, lane: seq<int>, floorN: int, total: int): (r: Floored)
    ensures r.Floored? ==> |r.rows| == |s| && r.window <= total
  {
    if floorN <= 0 || s == [] || lane == [] || total <= 0 then Floored(s, total)
    else
      var window := Min(total, |s|);
      var inTop := LaneCount(s[..window], lane);
      if inTop >= floorN then Floored(s, window)
      else Promote(s, lane, floorN - inTop, window, window)
  }

  // The scan, step by step.

  /** How many rows the scan promotes. */
  function Promotions(s: seq<Row>, lane: seq<int>, needed: int, tail: nat): int
    requires tail <= |s|
  {
    if needed <= 0 then 0 else Min(needed, LaneCount(s[tail..], lane))
  }

  lemma {:induction false} CountFirst(s: seq<Row>, lane: seq<int>)
    requires s != []
    ensures LaneCount(s, lane) == (if s[0].id in lane then 1 else 0) + LaneCount(s[1..], lane)
  {
    if |s| > 1 {
      var t := s[..|s| - 1];
      CountFirst(t, lane);
      assert t[1..] == s[1..][..|s| - 2];
    }
  }

  lemma {:induction false} CountConcat(a: seq<Row>, b: seq<Row>, lane: seq<int>)
    ensures LaneCount(a + b, lane) == LaneCount(a, lane) + LaneCount(b, lane)
  {
    if b == [] {
      assert a + b == a;
    } else {
      CountConcat(a, b[..|b| - 1], lane);
      assert (a + b)[..|a + b| - 1] == a + b[..|b| - 1];
    }
  }

  lemma SwapKeepsTail(s: seq<Row>, i: nat, j: nat)
    requires i < |s| && j < |s| && i <= j
    ensures Swap(s, i, j)[j + 1..] == s[j + 1..]
  {
  }

  /** The scan runs off the front exactly when it promotes more rows than the window holds;
      otherwise the window shrinks by one for each. */
  lemma {:induction false} PromoteWindow(s: seq<Row>, lane: seq<int>, needed: int, tail: nat, total: nat)
    requires total <= tail <= |s|
    ensures Promote(s, lane, needed, tail, total).Overrun? <==> Promotions(s, lane, needed, tail) > total
    ensures var r := Promote(s, lane, needed, tail, total);
            r.Floored? ==> r.window == total - Promotions(s, lane, needed, tail)
    decreases |s| - tail
  {
    hide Promotions, LaneCount, Swap;
    PromotionsNext(s, lane, needed, tail);
    if tail < |s| && needed > 0 {
      if s[tail].id !in lane {
        PromoteWindow(s, lane, needed, tail + 1, total);
      } else if total > 0 {
        var t := Swap(s, total - 1, tail);
        SwapKeepsTail(s, total - 1, tail);
        SameTailPromotions(s, t, lane, needed - 1, tail + 1);
        PromoteWindow(t, lane, needed - 1, tail + 1, total - 1);
      } else {
        PromotionsNext(s, lane, needed - 1, tail + 1);
      }
    }
  }

  lemma PromotionsNext(s: seq<Row>, lane: seq<int>, needed: int, tail: nat)
    requires tail <= |s|
    ensures 0 <= Promotions(s, lane, needed, tail)
    ensures tail == |s| || needed <= 0 ==> Promotions(s, lane, needed, tail) == 0
    ensures tail < |s| && needed > 0 ==>
              Promotions(s, lane, needed, tail) ==
                if s[tail].id in lane then 1 + Promotions(s, lane, needed - 1, tail + 1)
                else Promotions(s, lane, needed, tail + 1)
  {
    if tail < |s| {
      CountFirst(s[tail..], lane);
      assert s[tail..][1..] == s[tail + 1..];
    }
  }

  lemma SameTailPromotions(s: seq<Row>, t: seq<Row>, lane: seq<int>, needed: int, tail: nat)
    requires tail <= |s| == |t| && s[tail..] == t[tail..]
    ensures Promotions(t, lane, needed, tail) == Promotions(s, lane, needed, tail)
  {
  }

  lemma SwapPermutes(s: seq<Row>, i: nat, j: nat)
    requires i < |s| && j < |s|
    ensures multiset(Swap(s, i, j)) == multiset(s)
  {
  }

  lemma {:induction false} PromotePermutes(s: seq<Row>, lane: seq<int>, needed: int, tail: nat, total: nat)
    requires total <= tail <= |s|
    ensures var r := Promote(s, lane, needed, tail, total);
            r.Floored? ==> multiset(r.rows) == multiset(s)
    decreases |s| - tail
  {
    hide Swap;
    if tail < |s| && needed > 0 {
      if s[tail].id !in lane {
        PromotePermutes(s, lane, needed, tail + 1, total);
      } else if total > 0 {
        SwapPermutes(s, total - 1, tail);
        PromotePermutes(Swap(s, total - 1, tail), lane, needed - 1, tail + 1, total - 1);
      }
    }
  }

  /** What remains of the window is as it was, and so is what the scan has already passed. */
  lemma {:induction false} PromoteKeeps(s: seq<Row>, lane: seq<int>, needed: int, tail: nat, total: nat, k: nat)
    requires total <= tail <= |s|
    requires Promote(s, lane, needed, tail, total).Floored?
    requires k < Promote(s, lane, needed, tail, total).window || total <= k < tail
    ensures Promote(s, lane, needed, tail, total).rows[k] == s[k]
    decreases |s| - tail
  {
    if tail < |s| && needed > 0 {
      if s[tail].id !in lane {
        PromoteKeeps(s, lane, needed, tail + 1, total, k);
      } else {
        PromoteKeeps(Swap(s, total - 1, tail), lane, needed - 1, tail + 1, total - 1, k);
      }
    }
  }

  /** Every slot the window gave up holds a lane row. */
  lemma {:induction false} PromotedAreLane(s: seq<Row>, lane: seq<int>, needed: int, tail: nat, total: nat, k: nat)
    requires total <= tail <= |s|
    requires Promote(s, lane, needed, tail, total).Floored?
    requires Promote(s, lane, needed, tail, total).window <= k < total
    ensures Promote(s, lane, needed, tail, total).rows[k].id in lane
    decreases |s| - tail
  {
    if s[tail].id !in lane {
      PromotedAreLane(s, lane, needed, tail + 1, total, k);
    } else {
      var t := Swap(s, total - 1, tail);
      if k == total - 1 {
        PromoteKeeps(t, lane, needed - 1, tail + 1, total - 1, k);
      } else {
        PromotedAreLane(t, lane, needed - 1, tail + 1, total - 1, k);
      }
    }
  }

  /** A row between the window and w, still ahead of the scan or behind it, ends somewhere before w. */
  lemma {:induction false} PromoteShelters(s: seq<Row>, lane: seq<int>, needed: int, tail: nat, total: nat,
                                           w: nat, k: nat)
    requires total <= tail <= |s| && total <= k < w <= |s|
    requires Promote(s, lane, needed, tail, total).Floored?
    ensures s[k] in Promote(s, lane, needed, tail, total).rows[..w]
    decreases |s| - tail
  {
    var r := Promote(s, lane, needed, tail, total);
    if tail == |s| || needed <= 0 || k < tail {
      if k < tail {
        PromoteKeeps(s, lane, needed, tail, total, k);
      }
      assert r.rows[..w][k] == s[k];
    } else if s[tail].id !in lane {
      PromoteShelters(s, lane, needed, tail + 1, total, w, k);
    } else {
      var t := Swap(s, total - 1, tail);
      if k == tail {
        PromoteKeeps(t, lane, needed - 1, tail + 1, total - 1, total - 1);
        assert r.rows[..w][total - 1] == s[k];
      } else {
        PromoteShelters(t, lane, needed - 1, tail + 1, total - 1, w, k);
      }
    }
  }

  lemma {:induction false} AllLane(s: seq<Row>, lane: seq<int>)
    requires forall k :: 0 <= k < |s| ==> s[k].id in lane
    ensures LaneCount(s, lane) == |s|
  {
    if s != [] {
      AllLane(s[..|s| - 1], lane);
    }
  }

  // One floor.

  /** A floor only permutes the list. */
  lemma FloorPermutes(s: seq<Row>, lane: seq<int>, floorN: int, total: int)
    ensures var r := ApplyFloor(s, lane, floorN, total);
            r.Floored? ==> multiset(r.rows) == multiset(s)
  {
    if !(floorN <= 0 || s == [] || lane == [] || total <= 0) {
      var window := Min(total, |s|);
      PromotePermutes(s, lane, floorN - LaneCount(s[..window], lane), window, window);
    }
  }

  /** A floor acts when it can and its lane falls short of it in the window. */
  predicate Acts(s: seq<Row>, lane: seq<int>, floorN: int, total: int) {
    floorN > 0 && 0 < total <= |s| && lane != [] && LaneCount(s[..total], lane) < floorN
  }

  /** How many rows an acting floor promotes: what it lacks, or all the lane rows behind the window. */
  function Promoted(s: seq<Row>, lane: seq<int>, floorN: int, total: nat): int
    requires total <= |s|
  {
    Min(floorN - LaneCount(s[..total], lane), LaneCount(s[total..], lane))
  }

  /** An acting floor overruns exactly when the rows it must promote and can outnumber its window. */
  lemma FloorOverruns(s: seq<Row>, lane: seq<int>, floorN: int, total: nat)
    requires Acts(s, lane, floorN, total)
    ensures ApplyFloor(s, lane, floorN, total).Overrun?
       <==> Promoted(s, lane, floorN, total) > total
  {
    PromoteWindow(s, lane, floorN - LaneCount(s[..total], lane), total, total);
  }

  /** A floor no larger than its window never overruns. */
  lemma FloorFits(s: seq<Row>, lane: seq<int>, floorN: int, total: int)
    requires floorN <= total
    ensures ApplyFloor(s, lane, floorN, total).Floored?
  {
    if total > 0 && s != [] {
      var window := Min(total, |s|);
      if Acts(s, lane, floorN, window) {
        FloorOverruns(s, lane, floorN, window);
      }
    }
  }

  /** A floor larger than its window can: two lane rows behind a window of one. */
  lemma FloorCanOverrun()
    ensures ApplyFloor([Row(1, ""), Row(2, ""), Row(3, "")], [2, 3], 2, 1).Overrun?
  {
    var s := [Row(1, ""), Row(2, ""), Row(3, "")];
    assert s[..1] == [Row(1, "")] && s[1..] == [Row(2, ""), Row(3, "")];
    assert s[..1][..0] == [];
    assert s[1..][..1] == [Row(2, "")] && s[1..][..1][..0] == [];
    assert LaneCount(s[1..][..1], [2, 3]) == 1;
    FloorOverruns(s, [2, 3], 2, 1);
  }

  /** Lane rows in the original window afterwards: those there before, less the victims of the lane,
      plus those promoted. */
  lemma WindowCount(s: seq<Row>, lane: seq<int>, floorN: int, total: nat)
    requires Acts(s, lane, floorN, total) && ApplyFloor(s, lane, floorN, total).Floored?
    ensures var r := ApplyFloor(s, lane, floorN, total);
            && 0 <= r.window <= total
            && total - r.window == Promoted(s, lane, floorN, total)
            && LaneCount(r.rows[..total], lane)
               == LaneCount(s[..total], lane) - LaneCount(s[r.window..total], lane) + (total - r.window)
  {
    var needed := floorN - LaneCount(s[..total], lane);
    var r := Promote(s, lane, needed, total, total);
    PromoteWindow(s, lane, needed, total, total);
    assert r == ApplyFloor(s, lane, floorN, total);
    hide Promote, ApplyFloor;
    forall k | 0 <= k < r.window
      ensures r.rows[k] == s[k]
    {
      PromoteKeeps(s, lane, needed, total, total, k);
    }
    forall k | 0 <= k < total - r.window
      ensures r.rows[r.window..total][k].id in lane
    {
      PromotedAreLane(s, lane, needed, total, total, r.window + k);
    }
    AllLane(r.rows[r.window..total], lane);
    hide LaneCount;
    assert r.rows[..total] == s[..r.window] + r.rows[r.window..total];
    assert s[..total] == s[..r.window] + s[r.window..total];
    CountConcat(s[..r.window], r.rows[r.window..total], lane);
    CountConcat(s[..r.window], s[r.window..total], lane);
  }

  /** The window ends with the floor's worth of lane rows, or all there are if fewer, exactly when
      none of the rows about to be displaced, the last of the window, is itself of the lane. */
  lemma FloorIsMet(s: seq<Row>, lane: seq<int>, floorN: int, total: nat)
    requires Acts(s, lane, floorN, total) && Promoted(s, lane, floorN, total) <= total
    ensures ApplyFloor(s, lane, floorN, total).Floored?
    ensures LaneCount(ApplyFloor(s, lane, floorN, total).rows[..total], lane) == Min(floorN, LaneCount(s, lane))
            <==> LaneCount(s[total - Promoted(s, lane, floorN, total)..total], lane) == 0
  {
    FloorOverruns(s, lane, floorN, total);
    WindowCount(s, lane, floorN, total);
    CountConcat(s[..total], s[total..], lane);
    assert s == s[..total] + s[total..];
    hide LaneCount;
  }

  /** A victim of the lane does spoil it: the floor asks for two and one is left. */
  lemma FloorCanMiss()
    ensures var s := [Row(1, ""), Row(2, ""), Row(3, "")];
            var r := ApplyFloor(s, [2, 3], 2, 2);
            r == Floored([Row(1, ""), Row(3, ""), Row(2, "")], 1) && LaneCount(r.rows[..2], [2, 3]) == 1
  {
    var s := [Row(1, ""), Row(2, ""), Row(3, "")];
    assert s[..2] == [Row(1, ""), Row(2, "")];
    assert s[..2][..1] == [Row(1, "")] && s[..2][..1][..0] == [];
    assert LaneCount(s[..2][..1], [2, 3]) == 0;
    var t := Swap(s, 1, 2);
    assert t == [Row(1, ""), Row(3, ""), Row(2, "")];
    assert t[..2] == [Row(1, ""), Row(3, "")];
    assert t[..2][..1] == [Row(1, "")] && t[..2][..1][..0] == [];
    assert LaneCount(t[..2][..1], [2, 3]) == 0;
    assert Promote(t, [2, 3], 0, 3, 1) == Floored(t, 1);
  }

  // Two floors in sequence.

  /** The second floor, given the window the first returned, permutes what the first left and keeps
      every row the first promoted within the original window. */
  lemma TwoFloors(s: seq<Row>, lane1: seq<int>, floor1: int, lane2: seq<int>, floor2: int, total: nat)
    requires total <= |s|
    requires ApplyFloor(s, lane1, floor1, total).Floored?
    requires var r1 := ApplyFloor(s, lane1, floor1, total);
             ApplyFloor(r1.rows, lane2, floor2, r1.window).Floored?
    ensures var r1 := ApplyFloor(s, lane1, floor1, total);
            var r2 := ApplyFloor(r1.rows, lane2, floor2, r1.window);
            && multiset(r2.rows) == multiset(s)
            && forall k :: 0 <= r1.window <= k < total ==> r1.rows[k] in r2.rows[..total]
  {
    var r1 := ApplyFloor(s, lane1, floor1, total);
    var r2 := ApplyFloor(r1.rows, lane2, floor2, r1.window);
    FloorPermutes(s, lane1, floor1, total);
    FloorPermutes(r1.rows, lane2, floor2, r1.window);
    forall k | 0 <= r1.window <= k < total
      ensures r1.rows[k] in r2.rows[..total]
    {
      if Acts(r1.rows, lane2, floor2, r1.window) {
        var needed := floor2 - LaneCount(r1.rows[..r1.window], lane2);
        PromoteShelters(r1.rows, lane2, needed, r1.window, r1.window, total, k);
      } else {
        assert r2.rows == r1.rows;
        assert r2.rows[..total][k] == r1.rows[k];
      }
    }
  }

  // The floor in place.

  method IsLane(id: int, lane: seq<int>) returns (found: bool)
    ensures found <==> id in lane
  {
    found := false;
    for j := 0 to |lane|
      invariant !found && id !in lane[..j]
    {
      if id == lane[j] {
        return true;
      }
    }
  }

  method CountLane(matches: array<Row>, total: nat, lane: seq<int>) returns (n: nat)
    requires total <= matches.Length
    ensures n == LaneCount(matches[..total], lane)
  {
    n := 0;
    for i := 0 to total
      invariant n == LaneCount(matches[..i], lane)
    {
      assert matches[..i + 1][..i] == matches[..i];
      var found := IsLane(matches[i].id, lane);
      if found {
        n := n + 1;
      }
    }
  }

  /** The floor in place; nothing is returned when it runs off the front of the list. */
  method ApplyInPlace(matches: array<Row>, count: nat, lane: seq<int>, floorN: int, total: int)
    returns (window: Option<int>)
    requires count <= matches.Length
    modifies matches
    ensures forall k :: count <= k < matches.Length ==> matches[k] == old(matches[k])
    ensures match ApplyFloor(old(matches[..count]), lane, floorN, total)
            case Overrun => window == None
            case Floored(rows, w) => window == Some(w) && matches[..count] == rows
  {
    if floorN <= 0 || count == 0 || |lane| == 0 || total <= 0 {
      return Some(total);
    }
    var top: nat := if total > count then count else total;
    var inTop := CountLane(matches, top, lane);
    assert matches[..count][..top] == matches[..top];
    if inTop >= floorN {
      return Some(top);
    }
    window := PromoteInPlace(matches, count, lane, floorN - inTop, top);
  }

  method PromoteInPlace(matches: array<Row>, count: nat, lane: seq<int>, needed0: int, top: nat)
    returns (window: Option<int>)
    requires top <= count <= matches.Length
    modifies matches
    ensures forall k :: count <= k < matches.Length ==> matches[k] == old(matches[k])
    ensures match Promote(old(matches[..count]), lane, needed0, top, top)
            case Overrun => window == None
            case Floored(rows, w) => window == Some(w) && matches[..count] == rows
  {
    var needed, total, tail := needed0, top, top;
    while tail < count && needed > 0
      invariant 0 <= total <= tail <= count
      invariant forall k :: count <= k < matches.Length ==> matches[k] == old(matches[k])
      invariant Promote(matches[..count], lane, needed, tail, total) ==
                    Promote(old(matches[..count]), lane, needed0, top, top)
      decreases count - tail
    {
      var found := IsLane(matches[tail].id, lane);
      if !found {
        tail := tail + 1;
        continue;
      }
      if total == 0 {
        return None;
      }
      var victim := total - 1;
      ghost var s := matches[..count];
      matches[victim], matches[tail] := matches[tail], matches[victim];
      assert matches[..count] == Swap(s, victim, tail);
      total := total - 1;
      needed := needed - 1;
      tail := tail + 1;
    }
    return Some(total);
  }
}
