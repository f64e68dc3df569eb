/** Visible recall: candidates filtered by scope, ranked by relevance, and ordered by scope. */
module Recall {
  import opened Wrappers
  import opened LaneFloor

  type Ranking = int -> int

  const POOL_MAX := 96
  const SCORES_MAX := 128
  const DEFAULT_LIMIT := 20

  // Merging candidate lists.

  ghost predicate DistinctIds(s: seq<Row>) {
    forall i, j :: 0 <= i < j < |s| ==> s[i].id != s[j].id
  }

  predicate HasId(s: seq<Row>, id: int) {
    exists i :: 0 <= i < |s| && s[i].id == id
  }

  /** The rows of `extra`, in order, whose ids are not yet there, while there is room. */
  function Merged(s: seq<Row>, extra: seq<Row>, cap: nat): seq<Row>
    decreases |extra|
  {
    if extra == [] || |s| >= cap then s
    else Merged(if HasId(s, extra[0].id) then s else s + [extra[0]], extra[1..], cap)
  }

  lemma AppendRow(s: seq<Row>, r: Row)
    ensures DistinctIds(s) && !HasId(s, r.id) ==> DistinctIds(s + [r])
    ensures forall id :: HasId(s + [r], id) <==> HasId(s, id) || r.id == id
  {
    var t := s + [r];
    forall id
      ensures HasId(t, id) <==> HasId(s, id) || r.id == id
    {
      if HasId(s, id) {
        var i :| 0 <= i < |s| && s[i].id == id;
        assert t[i].id == id;
      }
      assert t[|s|].id == r.id;
    }
  }

  /** Merging keeps what was there, adds only rows of the extra list, keeps ids distinct, and unless
      it runs out of room its ids are exactly those of both lists. */
  lemma {:induction false} MergedMeaning(s: seq<Row>, extra: seq<Row>, cap: nat)
    ensures var m := Merged(s, extra, cap);
            && s <= m && (m == s || |m| <= cap)
            && (forall i :: |s| <= i < |m| ==> m[i] in extra)
            && (DistinctIds(s) ==> DistinctIds(m))
            && (|m| < cap ==> forall id :: HasId(m, id) <==> HasId(s, id) || HasId(extra, id))
    decreases |extra|
  {
    if extra != [] && |s| < cap {
      var next := if HasId(s, extra[0].id) then s else s + [extra[0]];
      AppendRow(s, extra[0]);
      MergedMeaning(next, extra[1..], cap);
      forall id
        ensures HasId(extra, id) <==> extra[0].id == id || HasId(extra[1..], id)
      {
        HasIdHead(extra, id);
      }
      hide HasId, DistinctIds;
    }
  }

  lemma HasIdHead(s: seq<Row>, id: int)
    requires s != []
    ensures HasId(s, id) <==> s[0].id == id || HasId(s[1..], id)
  {
    if HasId(s, id) && s[0].id != id {
      var i :| 0 <= i < |s| && s[i].id == id;
      assert s[1..][i - 1].id == id;
    }
  }

  /** A smaller buffer gets the front of what a larger one would. */
  lemma {:induction false} MergedCut(s: seq<Row>, extra: seq<Row>, cap: nat, larger: nat)
    requires |s| <= cap <= larger
    ensures var m := Merged(s, extra, larger);
            Merged(s, extra, cap) == if |m| <= cap then m else m[..cap]
    decreases |extra|
  {
    MergedMeaning(s, extra, larger);
    if extra != [] && |s| < cap {
      MergedCut(if HasId(s, extra[0].id) then s else s + [extra[0]], extra[1..], cap, larger);
    }
  }

  /** The rows of `extra` not yet present are appended while there is room. */
  method Merge(primary: array<Row>, count0: nat, extra: seq<Row>, cap: nat) returns (count: nat)
    requires count0 <= primary.Length && cap <= primary.Length
    modifies primary
    ensures count0 <= count <= primary.Length && (count == count0 || count <= cap)
    ensures primary[..count] == Merged(old(primary[..count0]), extra, cap)
    ensures primary[count..] == old(primary[count..])
    ensures primary[..count0] == old(primary[..count0])
    ensures forall k :: count0 <= k < count ==> primary[k] in extra
    ensures DistinctIds(old(primary[..count0])) ==> DistinctIds(primary[..count])
    ensures count < cap ==> forall e :: 0 <= e < |extra| ==> HasId(primary[..count], extra[e].id)
  {
    count := count0;
    var e := 0;
    ghost var was := primary[..];
    assert extra[0..] == extra;
    while e < |extra| && count < cap
      invariant 0 <= e <= |extra| && count0 <= count <= primary.Length && (count == count0 || count <= cap)
      invariant Merged(was[..count0], extra, cap) == Merged(primary[..count], extra[e..], cap)
      invariant forall k :: count <= k < primary.Length ==> primary[k] == was[k]
    {
      var found := FindId(primary, count, extra[e].id);
      assert extra[e..][1..] == extra[e + 1..];
      if !found {
        ghost var before := primary[..count];
        primary[count] := extra[e];
        assert primary[..count + 1] == before + [extra[e]];
        count := count + 1;
      }
      e := e + 1;
    }
    MergedMeaning(was[..count0], extra, cap);
    MergeEnds(primary[..], was, count0, count, extra, cap);
  }

  lemma MergeEnds(rows: seq<Row>, was: seq<Row>, count0: nat, count: nat, extra: seq<Row>, cap: nat)
    requires |rows| == |was| && count0 <= count <= |was|
    requires rows[..count] == Merged(was[..count0], extra, cap)
    ensures rows[..count0] == was[..count0]
    ensures forall k :: count0 <= k < count ==> rows[k] in extra
    ensures count < cap ==> forall e :: 0 <= e < |extra| ==> HasId(rows[..count], extra[e].id)
  {
    MergedMeaning(was[..count0], extra, cap);
    assert forall k :: 0 <= k < count ==> rows[k] == rows[..count][k];
    assert forall e :: 0 <= e < |extra| ==> HasId(extra, extra[e].id);
    assert rows[..count0] == rows[..count][..count0];
  }

  method FindId(rows: array<Row>, count: nat, id: int) returns (found: bool)
    requires count <= rows.Length
    ensures found <==> HasId(rows[..count], id)
  {
    found := false;
    for p := 0 to count
      invariant !found && forall i :: 0 <= i < p ==> rows[i].id != id
    {
      if rows[p].id == id {
        assert rows[..count][p].id == id;
        return true;
      }
    }
  }

  // Buckets.

  /** The rows of one rank, in order. */
  function Bucket(s: seq<Row>, rank: Ranking, r: int): (b: seq<Row>)
    ensures forall i :: 0 <= i < |b| ==> rank(b[i].id) == r && b[i] in s
  {
    if s == [] then []
    else Bucket(s[..|s| - 1], rank, r) + (if rank(s[|s| - 1].id) == r then [s[|s| - 1]] else [])
  }

  ghost predicate ByRank(s: seq<Row>, rank: Ranking) {
    forall i, j :: 0 <= i < j < |s| ==> rank(s[i].id) >= rank(s[j].id)
  }

  /** The same rows, bucket for bucket in the same order. */
  ghost predicate SameBuckets(s: seq<Row>, t: seq<Row>, rank: Ranking) {
    forall r :: Bucket(s, rank, r) == Bucket(t, rank, r)
  }

  ghost predicate StableSort(s: seq<Row>, t: seq<Row>, rank: Ranking) {
    |t| == |s| && ByRank(t, rank) && SameBuckets(s, t, rank)
  }

  lemma {:induction false} BucketConcat(a: seq<Row>, b: seq<Row>, rank: Ranking, r: int)
    ensures Bucket(a + b, rank, r) == Bucket(a, rank, r) + Bucket(b, rank, r)
  {
    if b == [] {
      assert a + b == a;
    } else {
      BucketConcat(a, b[..|b| - 1], rank, r);
      assert (a + b)[..|a + b| - 1] == a + b[..|b| - 1];
    }
  }

  lemma {:induction false} BucketEmpty(s: seq<Row>, rank: Ranking, r: int)
    requires forall i :: 0 <= i < |s| ==> rank(s[i].id) != r
    ensures Bucket(s, rank, r) == []
  {
    if s != [] {
      BucketEmpty(s[..|s| - 1], rank, r);
    }
  }

  lemma InsertKeepsBucket(a: seq<Row>, b: seq<Row>, x: Row, rank: Ranking, r: int)
    requires forall i :: 0 <= i < |b| ==> rank(b[i].id) < rank(x.id)
    ensures Bucket(a + b + [x], rank, r) == Bucket(a + [x] + b, rank, r)
  {
    hide Bucket;
    BucketConcat(a + b, [x], rank, r);
    BucketConcat(a, b, rank, r);
    BucketConcat(a + [x], b, rank, r);
    BucketConcat(a, [x], rank, r);
    var p, q, w := Bucket(a, rank, r), Bucket(b, rank, r), Bucket([x], rank, r);
    if r == rank(x.id) {
      BucketEmpty(b, rank, r);
      assert p + q == p && p + w + q == p + w;
    } else {
      BucketEmpty([x], rank, r);
      assert p + w == p && p + q + w == p + q;
    }
  }

  /** Moving a row forward over rows of lower rank leaves every bucket as it was. */
  lemma InsertKeepsBuckets(a: seq<Row>, b: seq<Row>, x: Row, rank: Ranking)
    requires forall i :: 0 <= i < |b| ==> rank(b[i].id) < rank(x.id)
    ensures SameBuckets(a + b + [x], a + [x] + b, rank)
  {
    hide Bucket;
    forall r
      ensures Bucket(a + b + [x], rank, r) == Bucket(a + [x] + b, rank, r)
    {
      InsertKeepsBucket(a, b, x, rank, r);
    }
  }

  lemma InsertKeepsOrder(a: seq<Row>, b: seq<Row>, x: Row, rank: Ranking)
    requires ByRank(a + b, rank)
    requires forall i :: 0 <= i < |b| ==> rank(b[i].id) < rank(x.id)
    requires a == [] || rank(a[|a| - 1].id) >= rank(x.id)
    ensures ByRank(a + [x] + b, rank)
  {
    var s, t := a + b, a + [x] + b;
    forall i, j | 0 <= i < j < |t|
      ensures rank(t[i].id) >= rank(t[j].id)
    {
      assert i < |a| ==> t[i] == s[i] == a[i];
      assert j < |a| ==> t[j] == s[j];
      assert i > |a| ==> t[i] == s[i - 1];
      assert j > |a| ==> t[j] == s[j - 1] == b[j - 1 - |a|];
      if i < |a| && j == |a| {
        assert s[i] == a[i] && s[|a| - 1] == a[|a| - 1];
      }
    }
  }

  /** Equal buckets mean equal contents, however often a row occurs. */
  lemma {:induction false} BucketCount(s: seq<Row>, rank: Ranking, x: Row)
    ensures multiset(Bucket(s, rank, rank(x.id)))[x] == multiset(s)[x]
  {
    if s != [] {
      var p, last := s[..|s| - 1], s[|s| - 1];
      BucketCount(p, rank, x);
      assert s == p + [last];
    }
  }

  lemma BucketsPermute(s: seq<Row>, t: seq<Row>, rank: Ranking)
    requires SameBuckets(s, t, rank)
    ensures multiset(s) == multiset(t)
  {
    forall x: Row
      ensures multiset(s)[x] == multiset(t)[x]
    {
      BucketCount(s, rank, x);
      BucketCount(t, rank, x);
      assert Bucket(s, rank, rank(x.id)) == Bucket(t, rank, rank(x.id));
    }
  }

  /** There is only one stable sort of a list. */
  lemma StableSortUnique(s: seq<Row>, t: seq<Row>, u: seq<Row>, rank: Ranking)
    requires StableSort(s, t, rank) && StableSort(s, u, rank)
    ensures t == u
  {
    SortedUnique(t, u, rank);
  }

  lemma {:induction false} SortedUnique(t: seq<Row>, u: seq<Row>, rank: Ranking)
    requires |t| == |u| && ByRank(t, rank) && ByRank(u, rank) && SameBuckets(t, u, rank)
    ensures t == u
  {
    if t != [] {
      LastRank(t, u, rank);
      LastRank(u, t, rank);
      SameLast(t, u, rank);
      SortedUnique(t[..|t| - 1], u[..|u| - 1], rank);
    }
  }

  lemma SameLast(t: seq<Row>, u: seq<Row>, rank: Ranking)
    requires |t| == |u| > 0 && SameBuckets(t, u, rank)
    requires rank(t[|t| - 1].id) == rank(u[|u| - 1].id)
    ensures t[|t| - 1] == u[|u| - 1] && SameBuckets(t[..|t| - 1], u[..|u| - 1], rank)
  {
    var x, y := t[|t| - 1], u[|u| - 1];
    var t', u' := t[..|t| - 1], u[..|u| - 1];
    var r := rank(x.id);
    LastOfBucket(t, rank);
    LastOfBucket(u, rank);
    assert Bucket(t, rank, r) == Bucket(u, rank, r);
    hide Bucket, ByRank;
    SameSnoc(Bucket(t', rank, r), x, Bucket(u', rank, r), y);
    forall q
      ensures Bucket(t', rank, q) == Bucket(u', rank, q)
    {
      assert Bucket(t, rank, q) == Bucket(u, rank, q);
    }
  }

  lemma SameSnoc(a: seq<Row>, x: Row, b: seq<Row>, y: Row)
    requires a + [x] == b + [y]
    ensures a == b && x == y
  {
    assert (a + [x])[|a|] == x && (b + [y])[|b|] == y;
    assert a == (a + [x])[..|a|] && b == (b + [y])[..|b|];
  }

  lemma LastOfBucket(t: seq<Row>, rank: Ranking)
    requires t != []
    ensures var x := t[|t| - 1];
            Bucket(t, rank, rank(x.id)) == Bucket(t[..|t| - 1], rank, rank(x.id)) + [x]
    ensures forall q :: q != rank(t[|t| - 1].id) ==> Bucket(t, rank, q) == Bucket(t[..|t| - 1], rank, q)
  {
  }

  /** The last row's rank is the least of all, in either list. */
  lemma LastRank(t: seq<Row>, u: seq<Row>, rank: Ranking)
    requires |t| == |u| > 0 && ByRank(t, rank) && SameBuckets(t, u, rank)
    ensures rank(t[|t| - 1].id) <= rank(u[|u| - 1].id)
  {
    var y := u[|u| - 1];
    BucketsPermute(t, u, rank);
    assert y in multiset(u);
    assert y in t;
  }

  /** The list before a row's insertion at j, and after. */
  ghost predicate Inserted(p: seq<Row>, x: Row, j: nat, t: seq<Row>, rank: Ranking) {
    && j <= |p|
    && t == p[..j] + [x] + p[j..]
    && (forall k :: j <= k < |p| ==> rank(p[k].id) < rank(x.id))
    && (j > 0 ==> rank(p[j - 1].id) >= rank(x.id))
  }

  /** Inserting the next row into the stable sort of those before it sorts one more. */
  lemma InsertedIsStable(s: seq<Row>, p: seq<Row>, x: Row, j: nat, t: seq<Row>, rank: Ranking)
    requires StableSort(s, p, rank) && Inserted(p, x, j, t, rank)
    ensures StableSort(s + [x], t, rank)
  {
    var a, b := p[..j], p[j..];
    assert a + b == p && a + b + [x] == p + [x];
    InsertKeepsOrder(a, b, x, rank);
    InsertKeepsBuckets(a, b, x, rank);
    forall r
      ensures Bucket(s + [x], rank, r) == Bucket(t, rank, r)
    {
      BucketConcat(s, [x], rank, r);
      BucketConcat(p, [x], rank, r);
      assert Bucket(s, rank, r) == Bucket(p, rank, r);
      assert Bucket(a + b + [x], rank, r) == Bucket(a + [x] + b, rank, r);
    }
  }

  /** Makes room for a row of this rank: rows of lower rank move up by one, with their ranks. */
  method ShiftUp(matches: array<Row>, i: nat, scopeRank: array<int>, currentRank: int) returns (h: nat)
    requires i < matches.Length && i < scopeRank.Length
    modifies matches, scopeRank
    ensures h <= i
    ensures forall k :: 0 <= k < matches.Length && (k < h || i < k) ==> matches[k] == old(matches[k])
    ensures forall k :: h < k <= i ==> matches[k] == old(matches[k - 1])
    ensures forall k :: 0 <= k < scopeRank.Length && (k < h || i < k) ==> scopeRank[k] == old(scopeRank[k])
    ensures forall k :: h < k <= i ==> scopeRank[k] == old(scopeRank[k - 1])
    ensures forall k :: h <= k < i ==> old(scopeRank[k]) < currentRank
    ensures h > 0 ==> old(scopeRank[h - 1]) >= currentRank
  {
    h := i;
    while h > 0 && scopeRank[h - 1] < currentRank
      invariant 0 <= h <= i
      invariant forall k :: 0 <= k < matches.Length && (k < h || i < k) ==> matches[k] == old(matches[k])
      invariant forall k :: h < k <= i ==> matches[k] == old(matches[k - 1])
      invariant forall k :: 0 <= k < scopeRank.Length && (k < h || i < k) ==> scopeRank[k] == old(scopeRank[k])
      invariant forall k :: h < k <= i ==> scopeRank[k] == old(scopeRank[k - 1])
      invariant forall k :: h <= k < i ==> old(scopeRank[k]) < currentRank
    {
      matches[h] := matches[h - 1];
      scopeRank[h] := scopeRank[h - 1];
      h := h - 1;
    }
  }

  /** Moves row i down past the rows of lower rank; ranks move along. */
  method InsertInPlace(matches: array<Row>, i: nat, count: nat, scopeRank: array<int>, rank: Ranking)
    returns (ghost j: nat)
    requires i < count && count <= matches.Length && count <= scopeRank.Length
    requires forall k :: 0 <= k < count ==> scopeRank[k] == rank(matches[k].id)
    modifies matches, scopeRank
    ensures Inserted(old(matches[..i]), old(matches[i]), j, matches[..i + 1], rank)
    ensures forall k :: i < k < matches.Length ==> matches[k] == old(matches[k])
    ensures forall k :: 0 <= k < count ==> scopeRank[k] == rank(matches[k].id)
  {
    ghost var p := matches[..i];
    var current, currentRank := matches[i], scopeRank[i];
    var h := ShiftUp(matches, i, scopeRank, currentRank);
    matches[h] := current;
    scopeRank[h] := currentRank;
    j := h;
    assert forall k :: h < k <= i ==> matches[k] == p[k - 1];
    ShiftedIsInserted(p, current, h, matches[..i + 1]);
  }

  lemma ShiftedIsInserted(p: seq<Row>, x: Row, h: nat, t: seq<Row>)
    requires h <= |p| && |t| == |p| + 1 && t[h] == x
    requires forall k :: 0 <= k < h ==> t[k] == p[k]
    requires forall k :: h < k < |t| ==> t[k] == p[k - 1]
    ensures t == p[..h] + [x] + p[h..]
  {
  }

  /** The sort in place: afterwards the rows are the stable sort of what they were. */
  method SortScopeBuckets(matches: array<Row>, count: nat, scopeRank: array<int>, rank: Ranking)
    requires count <= matches.Length && count <= scopeRank.Length
    modifies matches, scopeRank
    ensures StableSort(old(matches[..count]), matches[..count], rank)
    ensures forall k :: count <= k < matches.Length ==> matches[k] == old(matches[k])
    ensures forall k :: 0 <= k < count ==> scopeRank[k] == rank(matches[k].id)
  {
    for i := 0 to count
      invariant forall k :: 0 <= k < i ==> scopeRank[k] == rank(matches[k].id)
      invariant matches[..] == old(matches[..])
    {
      scopeRank[i] := rank(matches[i].id);
    }
    ghost var s := matches[..];
    var i := 1;
    while i < count
      invariant 1 <= i && (count > 0 ==> i <= count)
      invariant count > 0 ==> StableSort(s[..i], matches[..i], rank)
      invariant forall k :: i <= k < matches.Length || count <= k < matches.Length ==> matches[k] == s[k]
      invariant forall k :: 0 <= k < count ==> scopeRank[k] == rank(matches[k].id)
    {
      ghost var p := matches[..i];
      ghost var j := InsertInPlace(matches, i, count, scopeRank, rank);
      assert s[..i] + [s[i]] == s[..i + 1];
      InsertedIsStable(s[..i], p, s[i], j, matches[..i + 1], rank);
      i := i + 1;
    }
    assert s[..count] == old(matches[..count]);
    if count == 0 {
      assert matches[..0] == [];
    }
  }

  // The filter.

  /** The candidates in scope, in order. */
  function Keep(s: seq<Row>, rank: Ranking, includeAll: bool): (k: seq<Row>)
    ensures |k| <= |s|
    ensures forall i :: 0 <= i < |k| ==> k[i] in s && (includeAll || rank(k[i].id) > 0)
  {
    if s == [] then []
    else
      var last := s[|s| - 1];
      Keep(s[..|s| - 1], rank, includeAll) + (if rank(last.id) <= 0 && !includeAll then [] else [last])
  }

  /** The candidates of two lists in scope are those of the one and then those of the other. */
  lemma {:induction false} KeepInOrder(s: seq<Row>, t: seq<Row>, rank: Ranking, includeAll: bool)
    ensures Keep(s + t, rank, includeAll) == Keep(s, rank, includeAll) + Keep(t, rank, includeAll)
  {
    if t == [] {
      assert s + t == s;
    } else {
      assert (s + t)[..|s + t| - 1] == s + t[..|t| - 1];
      KeepInOrder(s, t[..|t| - 1], rank, includeAll);
    }
  }

  /** No row in scope is dropped. */
  lemma {:induction false} KeepIsComplete(s: seq<Row>, rank: Ranking, includeAll: bool, x: Row)
    requires x in s && (includeAll || rank(x.id) > 0)
    ensures x in Keep(s, rank, includeAll)
  {
    if x != s[|s| - 1] {
      KeepIsComplete(s[..|s| - 1], rank, includeAll, x);
    }
  }

  lemma {:induction false} KeepIsDistinct(s: seq<Row>, rank: Ranking, includeAll: bool)
    requires DistinctIds(s)
    ensures DistinctIds(Keep(s, rank, includeAll))
  {
    if s != [] {
      var p, last := s[..|s| - 1], s[|s| - 1];
      KeepIsDistinct(p, rank, includeAll);
      var kept := Keep(p, rank, includeAll);
      forall i | 0 <= i < |kept|
        ensures kept[i].id != last.id
      {
        assert kept[i] in p;
      }
    }
  }

  lemma KeepNext(s: seq<Row>, i: nat, rank: Ranking, includeAll: bool)
    requires i < |s|
    ensures Keep(s[..i + 1], rank, includeAll)
         == Keep(s[..i], rank, includeAll) + (if rank(s[i].id) <= 0 && !includeAll then [] else [s[i]])
  {
    assert s[..i + 1][..i] == s[..i];
  }

  /** The filter in place, moving kept rows to the front. */
  method FilterInScope(candidates: array<Row>, count: nat, scopeRank: array<int>, rank: Ranking, includeAll: bool)
    returns (kept: nat)
    requires count <= candidates.Length && count <= scopeRank.Length
    modifies candidates, scopeRank
    ensures kept <= count && candidates[..kept] == Keep(old(candidates[..count]), rank, includeAll)
  {
    kept := 0;
    ghost var s := candidates[..];
    assert Keep(s[..0], rank, includeAll) == [];
    assert s[..count] == candidates[..count];
    hide Keep;
    for i := 0 to count
      invariant kept <= i && candidates[..kept] == Keep(s[..i], rank, includeAll)
      invariant forall k :: i <= k < candidates.Length ==> candidates[k] == s[k]
    {
      KeepNext(s, i, rank, includeAll);
      var r := rank(candidates[i].id);
      if r <= 0 && !includeAll {
        continue;
      }
      if kept != i {
        candidates[kept] := candidates[i];
      }
      scopeRank[kept] := r;
      kept := kept + 1;
    }
  }

  // Reranking by relevance, whatever the scores.

  datatype Scored = Scored(row: Row, score: real)

  ghost function Pairs(rows: seq<Row>, scores: seq<real>): (p: seq<Scored>)
    requires |rows| <= |scores|
    ensures |p| == |rows|
  {
    seq(|rows|, i requires 0 <= i < |rows| => Scored(rows[i], scores[i]))
  }

  ghost predicate ByScore(scores: seq<real>) {
    forall i, j :: 0 <= i < j < |scores| ==> scores[i] >= scores[j]
  }

  method FindBest(scores: array<real>, i: nat, count: nat) returns (best: nat)
    requires i < count <= scores.Length
    ensures i <= best < count && forall h :: i <= h < count ==> scores[h] <= scores[best]
  {
    best := i;
    for j := i + 1 to count
      invariant i <= best < count && forall h :: i <= h < j ==> scores[h] <= scores[best]
    {
      if scores[j] > scores[best] {
        best := j;
      }
    }
  }

  method SwapBoth(matches: array<Row>, scores: array<real>, count: nat, i: nat, best: nat)
    requires i < best < count <= matches.Length && count <= scores.Length
    modifies matches, scores
    ensures multiset(Pairs(matches[..count], scores[..count]))
         == multiset(Pairs(old(matches[..count]), old(scores[..count])))
    ensures multiset(matches[..count]) == multiset(old(matches[..count]))
    ensures scores[i] == old(scores[best]) && scores[best] == old(scores[i])
    ensures forall k :: 0 <= k < scores.Length && k != i && k != best ==> scores[k] == old(scores[k])
    ensures forall k :: count <= k < matches.Length ==> matches[k] == old(matches[k])
  {
    ghost var rows, values := matches[..count], scores[..count];
    SwapPairs(rows, values, i, best);
    hide Pairs;
    scores[i], scores[best] := scores[best], scores[i];
    matches[i], matches[best] := matches[best], matches[i];
    assert matches[..count] == rows[i := rows[best]][best := rows[i]];
    assert scores[..count] == values[i := values[best]][best := values[i]];
  }

  /** The final selection sort of the reranker: scores fall, and every row keeps its own score. */
  method SelectionSort(matches: array<Row>, scores: array<real>, count: nat)
    requires count <= matches.Length && count <= scores.Length
    modifies matches, scores
    ensures ByScore(scores[..count])
    ensures multiset(Pairs(matches[..count], scores[..count]))
         == multiset(Pairs(old(matches[..count]), old(scores[..count])))
    ensures multiset(matches[..count]) == multiset(old(matches[..count]))
    ensures forall k :: count <= k < matches.Length ==> matches[k] == old(matches[k])
  {
    hide Pairs;
    var i := 0;
    while i < count - 1
      invariant 0 <= i <= count
      invariant forall g, h :: 0 <= g < i && g < h < count ==> scores[g] >= scores[h]
      invariant multiset(Pairs(matches[..count], scores[..count]))
             == multiset(Pairs(old(matches[..count]), old(scores[..count])))
      invariant multiset(matches[..count]) == multiset(old(matches[..count]))
      invariant forall k :: count <= k < matches.Length ==> matches[k] == old(matches[k])
    {
      var best := FindBest(scores, i, count);
      if best != i {
        SwapBoth(matches, scores, count, i, best);
      }
      i := i + 1;
    }
  }

  lemma SwapPairs(rows: seq<Row>, scores: seq<real>, i: nat, j: nat)
    requires |rows| == |scores| && i < j < |rows|
    ensures multiset(Pairs(rows[i := rows[j]][j := rows[i]], scores[i := scores[j]][j := scores[i]]))
         == multiset(Pairs(rows, scores))
  {
    var p := Pairs(rows, scores);
    assert Pairs(rows[i := rows[j]][j := rows[i]], scores[i := scores[j]][j := scores[i]]) == p[i := p[j]][j := p[i]];
  }

  ghost function PoolScores(pool: seq<Row>, scorer: (seq<Row>, nat) -> real): (s: seq<real>)
    ensures |s| == |pool|
  {
    seq(|pool|, (i: nat) => scorer(pool, i))
  }

  /** The rows by falling score, each with the score it was given. */
  ghost predicate ByRelevance(pool: seq<Row>, scorer: (seq<Row>, nat) -> real, ranked: seq<Row>, scores: seq<real>) {
    && |scores| == |ranked| == |pool|
    && ByScore(scores)
    && multiset(Pairs(ranked, scores)) == multiset(Pairs(pool, PoolScores(pool, scorer)))
    && multiset(ranked) == multiset(pool)
  }

  /** Reranking scores and sorts the whole list, or its first 128 rows; `limit` only caps the answer. */
  method Rerank(matches: array<Row>, count: nat, limit: nat, scorer: (seq<Row>, nat) -> real)
    returns (reranked: nat, ghost scores: seq<real>)
    requires count <= matches.Length
    modifies matches
    ensures forall k :: Min(count, SCORES_MAX) <= k < matches.Length ==> matches[k] == old(matches[k])
    ensures var n := Min(count, SCORES_MAX);
            reranked == Min(n, limit) && ByRelevance(old(matches[..n]), scorer, matches[..n], scores)
  {
    var n := if count > SCORES_MAX then SCORES_MAX else count;
    scores := PoolScores(matches[..n], scorer);
    if count <= 1 {
      assert ByScore(scores);
      return if count < limit then count else limit, scores;
    }
    ghost var pool := matches[..n];
    var score := new real[SCORES_MAX];
    for i := 0 to n
      invariant matches[..n] == pool && matches[..] == old(matches[..])
      invariant score[..i] == scores[..i]
    {
      score[i] := scorer(matches[..n], i);
    }
    assert score[..n] == scores;
    SelectionSort(matches, score, n);
    scores := score[..n];
    reranked := if n < limit then n else limit;
  }

  // The recall.

  datatype Lanes = Lanes(summaries: seq<int>, summaryFloor: int, facts: seq<int>, factFloor: int)

  /** The summary floor and then, within what it left, the fact floor. */
  function BothFloors(s: seq<Row>, lanes: Lanes, total: int): Floored {
    match ApplyFloor(s, lanes.summaries, lanes.summaryFloor, total)
    case Overrun => Overrun
    case Floored(rows, window) => ApplyFloor(rows, lanes.facts, lanes.factFloor, window)
  }

  /** Both floors together fit the window. */
  predicate FloorsFit(lanes: Lanes, window: int) {
    0 <= lanes.summaryFloor && 0 <= lanes.factFloor && lanes.summaryFloor + lanes.factFloor <= window
  }

  /** A window shrinks by no more than the floor. */
  lemma WindowAfter(s: seq<Row>, lane: seq<int>, floorN: int, total: nat)
    requires 0 <= floorN <= total <= |s|
    ensures var r := ApplyFloor(s, lane, floorN, total); r.Floored? && r.window >= total - floorN
  {
    FloorFits(s, lane, floorN, total);
    if Acts(s, lane, floorN, total) {
      WindowCount(s, lane, floorN, total);
    }
  }

  /** Two floors only permute the pool, keep what each promoted in the window, and never overrun
      when together they fit it. */
  lemma BothFloorsPermute(s: seq<Row>, lanes: Lanes, total: nat)
    requires total <= |s|
    ensures FloorsFit(lanes, total) ==> BothFloors(s, lanes, total).Floored?
    ensures var r := BothFloors(s, lanes, total);
            r.Floored? ==> |r.rows| == |s| && multiset(r.rows) == multiset(s)
  {
    var r1 := ApplyFloor(s, lanes.summaries, lanes.summaryFloor, total);
    FloorPermutes(s, lanes.summaries, lanes.summaryFloor, total);
    if r1.Floored? {
      FloorPermutes(r1.rows, lanes.facts, lanes.factFloor, r1.window);
    }
    if FloorsFit(lanes, total) {
      WindowAfter(s, lanes.summaries, lanes.summaryFloor, total);
      FloorFits(r1.rows, lanes.facts, lanes.factFloor, r1.window);
    }
    hide ApplyFloor;
  }

  /** The summary floor comes first, and the fact floor after it leaves every summary that it promoted
      in the window. */
  lemma SummariesStay(s: seq<Row>, lanes: Lanes, total: nat)
    requires total <= |s| && BothFloors(s, lanes, total).Floored?
    ensures var r1 := ApplyFloor(s, lanes.summaries, lanes.summaryFloor, total);
            && r1.Floored?
            && forall k :: 0 <= r1.window <= k < total ==>
                 r1.rows[k] in BothFloors(s, lanes, total).rows[..total]
  {
    hide ApplyFloor;
    TwoFloors(s, lanes.summaries, lanes.summaryFloor, lanes.facts, lanes.factFloor, total);
  }

  /** Both floors in place; out of bounds exactly when one of them overruns. */
  method ApplyLanes(matches: array<Row>, count: nat, lanes: Lanes, total: nat) returns (inBounds: bool)
    requires total <= count <= matches.Length
    modifies matches
    ensures inBounds <==> BothFloors(old(matches[..count]), lanes, total).Floored?
    ensures inBounds ==> matches[..count] == BothFloors(old(matches[..count]), lanes, total).rows
  {
    hide ApplyFloor;
    var window := ApplyInPlace(matches, count, lanes.summaries, lanes.summaryFloor, total);
    if window == None {
      return false;
    }
    window := ApplyInPlace(matches, count, lanes.facts, lanes.factFloor, window.value);
    return window != None;
  }

  /** The limit asked for, twenty when none is, within the room there is. */
  function EffectiveLimit(limit: int, max: nat): (n: nat)
    ensures n <= max && (limit > 0 ==> n <= limit) && (limit <= 0 ==> n <= 20)
    ensures n == max || n == limit || (limit <= 0 && n == 20)
  {
    var l := if limit <= 0 then DEFAULT_LIMIT else limit;
    if l > max then max else l
  }

  /** The answer `out`, with `rest` the rows in scope it omits. */
  ghost predicate Recalled(generated: seq<Row>, rank: Ranking, includeAll: bool, n: nat,
                           out: seq<Row>, rest: seq<Row>)
  {
    var pool := Keep(generated, rank, includeAll);
    && |out| == Min(|pool|, n)
    && multiset(out + rest) == multiset(pool)
    && ByRank(out + rest, rank)
  }

  /** Every row returned was generated and is in scope; ids stay distinct, and ranks fall. */
  lemma RecallMeaning(generated: seq<Row>, rank: Ranking, includeAll: bool, n: nat, out: seq<Row>, rest: seq<Row>)
    requires Recalled(generated, rank, includeAll, n, out, rest)
    ensures forall x :: x in out ==> x in generated && (includeAll || rank(x.id) > 0)
    ensures DistinctIds(generated) ==> DistinctIds(out)
    ensures ByRank(out, rank)
  {
    var pool, all := Keep(generated, rank, includeAll), out + rest;
    assert forall i :: 0 <= i < |out| ==> all[i] == out[i];
    forall x | x in out
      ensures x in pool
    {
      assert x in multiset(all);
    }
    if DistinctIds(generated) {
      KeepIsDistinct(generated, rank, includeAll);
      PermutedDistinct(pool, all);
    }
    hide Keep, ByRank;
    assert ByRank(out, rank) by {
      PrefixByRank(out, rest, rank);
    }
  }

  lemma PrefixByRank(out: seq<Row>, rest: seq<Row>, rank: Ranking)
    requires ByRank(out + rest, rank)
    ensures ByRank(out, rank)
    ensures forall i, j :: 0 <= i < |out| && 0 <= j < |rest| ==> rank(out[i].id) >= rank(rest[j].id)
  {
    var all := out + rest;
    assert forall i :: 0 <= i < |out| ==> all[i] == out[i];
    assert forall j :: 0 <= j < |rest| ==> all[|out| + j] == rest[j];
  }

  /** Nothing in scope that was left out outranks anything returned. */
  lemma OmittedRankNoHigher(generated: seq<Row>, rank: Ranking, includeAll: bool, n: nat, out: seq<Row>, rest: seq<Row>,
                            x: Row, y: Row)
    requires Recalled(generated, rank, includeAll, n, out, rest)
    requires x in out && y !in out
    requires y in generated && (includeAll || rank(y.id) > 0)
    ensures rank(y.id) <= rank(x.id)
  {
    KeepIsComplete(generated, rank, includeAll, y);
    var pool := Keep(generated, rank, includeAll);
    hide Keep, ByRank;
    assert y in multiset(pool) && y in multiset(out + rest);
    PrefixByRank(out, rest, rank);
    assert y in rest;
  }

  ghost predicate SameSizes(s: seq<Row>, t: seq<Row>, rank: Ranking) {
    forall r :: |Bucket(s, rank, r)| == |Bucket(t, rank, r)|
  }

  /** The list without one of its rows. */
  lemma Remove(p: seq<Row>, x: Row, t: seq<Row>) returns (a: seq<Row>, b: seq<Row>)
    requires multiset(p + [x]) == multiset(t)
    ensures t == a + [x] + b && multiset(p) == multiset(a + b)
  {
    assert x in multiset(p + [x]);
    var k :| 0 <= k < |t| && t[k] == x;
    a, b := t[..k], t[k + 1..];
    assert t == a + [x] + b;
    calc {
      multiset(p);
      multiset(p + [x]) - multiset{x};
      multiset(a + [x] + b) - multiset{x};
      multiset(a) + multiset(b);
      multiset(a + b);
    }
  }

  lemma {:induction false} BucketSize(s: seq<Row>, t: seq<Row>, rank: Ranking, r: int)
    requires multiset(s) == multiset(t)
    ensures |Bucket(s, rank, r)| == |Bucket(t, rank, r)|
    decreases |s|
  {
    if s == [] {
      assert |t| == |multiset(t)|;
    } else {
      var p, x := s[..|s| - 1], s[|s| - 1];
      assert s == p + [x];
      var a, b := Remove(p, x, t);
      hide Bucket;
      BucketSize(p, a + b, rank, r);
      BucketConcat(p, [x], rank, r);
      BucketConcat(a, b, rank, r);
      BucketConcat(a + [x], b, rank, r);
      BucketConcat(a, [x], rank, r);
    }
  }

  lemma LastRankAmong(t: seq<Row>, u: seq<Row>, rank: Ranking)
    requires |t| == |u| > 0 && ByRank(t, rank) && SameSizes(t, u, rank)
    ensures rank(t[|t| - 1].id) <= rank(u[|u| - 1].id)
  {
    var r := rank(u[|u| - 1].id);
    LastOfBucket(u, rank);
    assert |Bucket(t, rank, r)| == |Bucket(u, rank, r)| > 0;
    var y := Bucket(t, rank, r)[0];
    assert rank(y.id) == r && y in t;
  }

  /** Lists ordered by rank, with as many rows of each rank, agree in rank position by position. */
  lemma {:induction false} SameRanks(t: seq<Row>, u: seq<Row>, rank: Ranking)
    requires |t| == |u| && ByRank(t, rank) && ByRank(u, rank) && SameSizes(t, u, rank)
    ensures forall i :: 0 <= i < |t| ==> rank(t[i].id) == rank(u[i].id)
  {
    if t != [] {
      LastRankAmong(t, u, rank);
      LastRankAmong(u, t, rank);
      var t', u' := t[..|t| - 1], u[..|u| - 1];
      LastOfBucket(t, rank);
      LastOfBucket(u, rank);
      hide Bucket;
      forall q
        ensures |Bucket(t', rank, q)| == |Bucket(u', rank, q)|
      {
        assert |Bucket(t, rank, q)| == |Bucket(u, rank, q)|;
      }
      SameRanks(t', u', rank);
      assert forall i :: 0 <= i < |t'| ==> t'[i] == t[i] && u'[i] == u[i];
    }
  }

  /** Relevance and lane floors move candidates only within their bucket: whatever the scores and
      floors were, the ranks of the answer are the same, position by position. */
  lemma FeaturesKeepRanks(generated: seq<Row>, rank: Ranking, includeAll: bool, n: nat,
                          out: seq<Row>, rest: seq<Row>, out': seq<Row>, rest': seq<Row>)
    requires Recalled(generated, rank, includeAll, n, out, rest)
    requires Recalled(generated, rank, includeAll, n, out', rest')
    ensures |out| == |out'|
    ensures forall i :: 0 <= i < |out| ==> rank(out[i].id) == rank(out'[i].id)
  {
    var t, u := out + rest, out' + rest';
    assert |t| == |multiset(t)| && |u| == |multiset(u)|;
    hide Keep, Bucket, ByRank;
    forall r
      ensures |Bucket(t, rank, r)| == |Bucket(u, rank, r)|
    {
      BucketSize(t, u, rank, r);
    }
    SameRanks(t, u, rank);
    assert forall i :: 0 <= i < |out| ==> t[i] == out[i] && u[i] == out'[i];
  }

  lemma {:induction false} CountOne(s: seq<Row>, x: Row)
    requires DistinctIds(s)
    ensures multiset(s)[x] <= 1
  {
    if s != [] {
      var p, last := s[..|s| - 1], s[|s| - 1];
      CountOne(p, x);
      assert s == p + [last];
    }
  }

  lemma CountTwo(s: seq<Row>, i: nat, j: nat)
    requires i < j < |s| && s[i] == s[j]
    ensures multiset(s)[s[i]] >= 2
  {
    var a, b := s[..j], s[j + 1..];
    assert s == a + [s[j]] + b;
    assert a[i] == s[i];
    assert s[i] in multiset(a);
  }

  lemma PermutedDistinct(s: seq<Row>, t: seq<Row>)
    requires DistinctIds(s) && multiset(t) == multiset(s)
    ensures DistinctIds(t)
  {
    forall i, j | 0 <= i < j < |t|
      ensures t[i].id != t[j].id
    {
      if t[i] == t[j] {
        CountTwo(t, i, j);
        CountOne(s, t[i]);
      } else {
        assert t[i] in multiset(s) && t[j] in multiset(s);
        var g :| 0 <= g < |s| && s[g] == t[i];
        var h :| 0 <= h < |s| && s[h] == t[j];
      }
    }
  }

  method CopyRows(rows: seq<Row>) returns (a: array<Row>)
    requires |rows| <= POOL_MAX
    ensures fresh(a) && a.Length == POOL_MAX && a[..|rows|] == rows
  {
    a := new Row[POOL_MAX](i => Row(0, ""));
    for i := 0 to |rows|
      invariant a[..i] == rows[..i]
    {
      a[i] := rows[i];
    }
  }

  lemma SortPermutes(s: seq<Row>, t: seq<Row>, rank: Ranking)
    requires StableSort(s, t, rank)
    ensures multiset(s) == multiset(t) && ByRank(t, rank)
  {
    BucketsPermute(s, t, rank);
  }

  lemma SortTwice(s: seq<Row>, t: seq<Row>, u: seq<Row>, rank: Ranking)
    requires StableSort(s, t, rank) && StableSort(t, u, rank)
    ensures StableSort(s, u, rank)
  {
    hide Bucket;
    forall r
      ensures Bucket(s, rank, r) == Bucket(u, rank, r)
    {
      assert Bucket(s, rank, r) == Bucket(t, rank, r);
      assert Bucket(t, rank, r) == Bucket(u, rank, r);
    }
  }

  lemma RelevancePermutes(pool: seq<Row>, scorer: (seq<Row>, nat) -> real, ranked: seq<Row>, scores: seq<real>)
    requires ByRelevance(pool, scorer, ranked, scores)
    ensures multiset(ranked) == multiset(pool)
  {
  }

  /** The candidates in scope, reranked and then sorted by scope. */
  method RankPool(candidates: array<Row>, generated: nat, scopeRank: array<int>, rank: Ranking, includeAll: bool,
                  scorer: (seq<Row>, nat) -> real)
    returns (count: nat, ghost ranked: seq<Row>, ghost scores: seq<real>)
    requires generated <= candidates.Length && generated <= scopeRank.Length && generated <= SCORES_MAX
    modifies candidates, scopeRank
    ensures count <= generated
    ensures var pool := Keep(old(candidates[..generated]), rank, includeAll);
            && |pool| == count && multiset(candidates[..count]) == multiset(pool)
            && ByRelevance(pool, scorer, ranked, scores) && StableSort(ranked, candidates[..count], rank)
  {
    hide Keep, Bucket, StableSort, ByRelevance;
    count := FilterInScope(candidates, generated, scopeRank, rank, includeAll);
    ghost var pool := candidates[..count];
    var rankedCount;
    rankedCount, scores := Rerank(candidates, count, count, scorer);
    ranked := candidates[..count];
    RelevancePermutes(pool, scorer, ranked, scores);
    SortScopeBuckets(candidates, count, scopeRank, rank);
    SortPermutes(ranked, candidates[..count], rank);
  }

  /** What the lane floors make of the pool; with lanes off, nothing. */
  function AfterLanes(s: seq<Row>, lanes: Option<Lanes>, total: int): Floored {
    if lanes.None? then Floored(s, total) else BothFloors(s, lanes.value, total)
  }

  /** The lane floors, and the scope order again after them. */
  method FloorAndSort(candidates: array<Row>, count: nat, scopeRank: array<int>, rank: Ranking, reranked: nat,
                      lanes: Option<Lanes>)
    returns (inBounds: bool)
    requires reranked <= count <= candidates.Length && count <= scopeRank.Length
    modifies candidates, scopeRank
    ensures var r := AfterLanes(old(candidates[..count]), lanes, reranked);
            && (inBounds <==> r.Floored?)
            && (inBounds ==> StableSort(r.rows, candidates[..count], rank))
  {
    hide Bucket, StableSort, ByRank, BothFloors;
    inBounds := true;
    if lanes.Some? {
      inBounds := ApplyLanes(candidates, count, lanes.value, reranked);
      if !inBounds {
        return;
      }
    }
    SortScopeBuckets(candidates, count, scopeRank, rank);
  }

  /** A recall, step by step: the pool in scope by relevance, that sorted by scope, that with the
      lane floors, and that sorted by scope again and cut. */
  ghost predicate Steps(pool: seq<Row>, rank: Ranking, scorer: (seq<Row>, nat) -> real, lanes: Option<Lanes>, n: nat,
                        ranked: seq<Row>, scores: seq<real>, sorted: seq<Row>, out: Option<seq<Row>>, rest: seq<Row>)
  {
    && ByRelevance(pool, scorer, ranked, scores)
    && StableSort(ranked, sorted, rank)
    && var r := AfterLanes(sorted, lanes, Min(|pool|, n));
       && (out.Some? <==> r.Floored?)
       && (out.Some? ==> StableSort(r.rows, out.value + rest, rank) && |out.value| == Min(|pool|, n))
  }

  /** What such a recall answers: with lanes off or floors that fit, always something; and then rows
      in scope, the most in scope first, so that nothing left out outranks anything returned. */
  lemma StepsRecall(generated: seq<Row>, rank: Ranking, includeAll: bool, scorer: (seq<Row>, nat) -> real,
                    lanes: Option<Lanes>, n: nat,
                    ranked: seq<Row>, scores: seq<real>, sorted: seq<Row>, out: Option<seq<Row>>, rest: seq<Row>)
    requires Steps(Keep(generated, rank, includeAll), rank, scorer, lanes, n, ranked, scores, sorted, out, rest)
    ensures lanes.None? || FloorsFit(lanes.value, Min(|Keep(generated, rank, includeAll)|, n)) ==> out.Some?
    ensures out.Some? ==> Recalled(generated, rank, includeAll, n, out.value, rest)
    ensures lanes.None? ==> out.Some? && StableSort(ranked, out.value + rest, rank)
  {
    var pool := Keep(generated, rank, includeAll);
    var window := Min(|pool|, n);
    RelevancePermutes(pool, scorer, ranked, scores);
    SortPermutes(ranked, sorted, rank);
    assert |sorted| == |pool|;
    if lanes.Some? {
      BothFloorsPermute(sorted, lanes.value, window);
    }
    if out.Some? {
      SortPermutes(AfterLanes(sorted, lanes, window).rows, out.value + rest, rank);
    }
    if lanes.None? {
      SortTwice(ranked, sorted, out.value + rest, rank);
    }
    hide Keep, StableSort, ByRelevance, BothFloors, ByRank;
  }

  /** All of one rank. */
  ghost predicate OneBucket(s: seq<Row>, rank: Ranking) {
    forall x, y :: x in s && y in s ==> rank(x.id) == rank(y.id)
  }

  lemma OneBucketStays(s: seq<Row>, t: seq<Row>, rank: Ranking)
    requires OneBucket(s, rank) && StableSort(s, t, rank)
    ensures t == s
  {
    assert ByRank(s, rank);
    StableSortUnique(s, t, s, rank);
  }

  /** Only one of the lanes has a floor. */
  ghost predicate OnlyLane(lanes: Lanes, lane: seq<int>, floorN: int) {
    || (lanes.summaries == lane && lanes.summaryFloor == floorN && lanes.factFloor <= 0)
    || (lanes.facts == lane && lanes.factFloor == floorN && lanes.summaryFloor <= 0)
  }

  /** A lane's floor shows in the answer. Where the scope decides nothing, and only one lane has a
      floor, and that asks for more than relevance alone would return and displaces none of its own
      rows, the answer holds as many rows of the lane as the floor asks for, or all there are. */
  lemma FloorShows(generated: seq<Row>, rank: Ranking, includeAll: bool, scorer: (seq<Row>, nat) -> real,
                   lanes: Lanes, n: nat,
                   ranked: seq<Row>, scores: seq<real>, sorted: seq<Row>, out: Option<seq<Row>>, rest: seq<Row>,
                   lane: seq<int>, floorN: int)
    requires Steps(Keep(generated, rank, includeAll), rank, scorer, Some(lanes), n, ranked, scores, sorted, out, rest)
    requires OneBucket(ranked, rank) && OnlyLane(lanes, lane, floorN) && lane != [] && ranked != [] && n > 0
    requires var w := Min(|ranked|, n);
             var lacking := floorN - LaneCount(ranked[..w], lane);
             var promoted := Min(lacking, LaneCount(ranked[w..], lane));
             lacking > 0 && promoted <= w && LaneCount(ranked[w - promoted..w], lane) == 0
    ensures out.Some? && LaneCount(out.value, lane) == Min(floorN, LaneCount(ranked, lane))
  {
    hide Keep, ByRelevance, StableSort, ApplyFloor, BothFloors, OneBucket, LaneCount, OnlyLane;
    var w := Min(|ranked|, n);
    assert |Keep(generated, rank, includeAll)| == |ranked| by {
      RelevanceSize(Keep(generated, rank, includeAll), scorer, ranked, scores);
    }
    OneBucketStays(ranked, sorted, rank);
    FloorIsMet(ranked, lane, floorN, w);
    var r := ApplyFloor(ranked, lane, floorN, w);
    OneFloor(ranked, lanes, lane, floorN, w);
    FloorPermutes(ranked, lane, floorN, w);
    OneBucketPermutes(ranked, r.rows, rank);
    OneBucketStays(r.rows, out.value + rest, rank);
    assert out.value == (out.value + rest)[..w];
  }

  lemma RelevanceSize(pool: seq<Row>, scorer: (seq<Row>, nat) -> real, ranked: seq<Row>, scores: seq<real>)
    requires ByRelevance(pool, scorer, ranked, scores)
    ensures |ranked| == |pool|
  {
  }

  lemma OneFloor(s: seq<Row>, lanes: Lanes, lane: seq<int>, floorN: int, total: int)
    requires OnlyLane(lanes, lane, floorN) && ApplyFloor(s, lane, floorN, total).Floored?
    ensures BothFloors(s, lanes, total).Floored?
    ensures BothFloors(s, lanes, total).rows == ApplyFloor(s, lane, floorN, total).rows
  {
    hide LaneCount, Promote;
  }

  lemma OneBucketPermutes(s: seq<Row>, t: seq<Row>, rank: Ranking)
    requires OneBucket(s, rank) && multiset(s) == multiset(t)
    ensures OneBucket(t, rank)
  {
    assert forall x :: x in t ==> x in multiset(t);
  }

  /** The recall over generated candidates, step by step. It answers exactly when no lane floor runs
      off the front of the list. */
  method FindVisible(generated: seq<Row>, rank: Ranking, includeAll: bool, limit: int, max: nat,
                     scorer: (seq<Row>, nat) -> real, lanes: Option<Lanes>)
    returns (out: Option<seq<Row>>)
    requires |generated| <= POOL_MAX
    ensures exists ranked, scores, sorted, rest ::
              Steps(Keep(generated, rank, includeAll), rank, scorer, lanes, EffectiveLimit(limit, max),
                    ranked, scores, sorted, out, rest)
    ensures out.Some? ==> |out.value| <= max && |out.value| <= (if limit > 0 then limit else 20)
    ensures out.Some? ==>
              |out.value| == |Keep(generated, rank, includeAll)| || |out.value| == max
              || |out.value| == if limit > 0 then limit else 20
  {
    hide Keep, Bucket, ByRank, StableSort, ByRelevance, AfterLanes;
    var candidates := CopyRows(generated);
    var scopeRank := new int[POOL_MAX];
    var count;
    ghost var ranked, scores;
    count, ranked, scores := RankPool(candidates, |generated|, scopeRank, rank, includeAll, scorer);
    ghost var pool, sorted := Keep(generated, rank, includeAll), candidates[..count];
    var n := EffectiveLimit(limit, max);
    var reranked := if count < n then count else n;
    var inBounds := FloorAndSort(candidates, count, scopeRank, rank, reranked, lanes);
    if !inBounds {
      assert Steps(pool, rank, scorer, lanes, n, ranked, scores, sorted, None, []);
      return None;
    }
    out := Some(candidates[..reranked]);
    ghost var rest := candidates[reranked..count];
    assert out.value + rest == candidates[..count];
    assert Steps(pool, rank, scorer, lanes, n, ranked, scores, sorted, out, rest);
  }
}
