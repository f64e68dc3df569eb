/** PageRank over the memory link graph, with doubles read as reals. */
module PageRank {
  type Matrix = seq<seq<real>>

  const DAMPING := 0.85

  datatype Link = Link(source: int, target: int, relation: string)
  datatype Score = Score(id: int, score: real)

  // The link graph.

  /** The first position of an id, or -1. */
  function IndexOf(ids: seq<int>, id: int): (j: int)
    ensures -1 <= j < |ids|
    ensures j >= 0 ==> id > 0 && ids[j] == id && forall k :: 0 <= k < j ==> ids[k] != id
    ensures j < 0 && id > 0 ==> id !in ids
  {
    if id <= 0 || ids == [] then -1
    else if ids[0] == id then 0
    else
      var j := IndexOf(ids[1..], id);
      if j < 0 then -1 else j + 1
  }

  function Other(l: Link, id: int): int {
    if l.source == id then l.target else l.source
  }

  /** An accepted link of row a joins it to position b. */
  predicate Joins(ids: seq<int>, allowed: string -> bool, a: nat, l: Link, b: nat)
    requires a < |ids|
  {
    allowed(l.relation) && a != b && IndexOf(ids, Other(l, ids[a])) == b
  }

  /** How many of the first m links of row a join it to b. */
  function Hits(ids: seq<int>, allowed: string -> bool, links: seq<Link>, a: nat, b: nat, m: nat): nat
    requires a < |ids| && m <= |links|
  {
    if m == 0 then 0
    else Hits(ids, allowed, links, a, b, m - 1) + (if Joins(ids, allowed, a, links[m - 1], b) then 1 else 0)
  }

  function AllHits(ids: seq<int>, allowed: string -> bool, links: seq<seq<Link>>, a: nat, b: nat): nat
    requires |links| == |ids| && a < |ids|
  {
    Hits(ids, allowed, links[a], a, b, |links[a]|)
  }

  /** The adjacency matrix: each accepted link counts once in each direction. */
  function Adjacency(ids: seq<int>, allowed: string -> bool, links: seq<seq<Link>>): (m: Matrix)
    requires |links| == |ids|
    ensures Square(m, |ids|)
  {
    var n := |ids|;
    seq(n, a requires 0 <= a < n =>
      seq(n, b requires 0 <= b < n =>
        (AllHits(ids, allowed, links, a, b) + AllHits(ids, allowed, links, b, a)) as real))
  }

  ghost predicate Square(m: Matrix, n: nat) {
    |m| == n && forall i :: 0 <= i < n ==> |m[i]| == n
  }

  ghost predicate NonNegative(m: Matrix) {
    forall i, j :: 0 <= i < |m| && 0 <= j < |m[i]| ==> m[i][j] >= 0.0
  }

  /** The graph is symmetric, without negative weights. */
  lemma AdjacencySymmetric(ids: seq<int>, allowed: string -> bool, links: seq<seq<Link>>)
    requires |links| == |ids|
    ensures NonNegative(Adjacency(ids, allowed, links))
    ensures forall a, b :: 0 <= a < |ids| && 0 <= b < |ids| ==>
              Adjacency(ids, allowed, links)[a][b] == Adjacency(ids, allowed, links)[b][a]
  {
  }

  // What it counts.

  /** The ids are positive and no two are equal. */
  ghost predicate Proper(ids: seq<int>) {
    && (forall i :: 0 <= i < |ids| ==> ids[i] > 0)
    && forall i, j :: 0 <= i < j < |ids| ==> ids[i] != ids[j]
  }

  /** Every link the store returns for an id names it. */
  ghost predicate Touching(ids: seq<int>, links: seq<seq<Link>>)
    requires |links| == |ids|
  {
    forall a, k :: 0 <= a < |ids| && 0 <= k < |links[a]| ==>
      links[a][k].source == ids[a] || links[a][k].target == ids[a]
  }

  /** The link is allowed and its ends are x and y. */
  ghost predicate Between(l: Link, allowed: string -> bool, x: int, y: int) {
    allowed(l.relation) && ((l.source == x && l.target == y) || (l.source == y && l.target == x))
  }

  ghost function LinksBetween(row: seq<Link>, allowed: string -> bool, x: int, y: int): set<nat> {
    set k | 0 <= k < |row| && Between(row[k], allowed, x, y)
  }

  lemma JoinsMeaning(ids: seq<int>, allowed: string -> bool, a: nat, l: Link, b: nat)
    requires Proper(ids) && a < |ids| && b < |ids| && a != b && (l.source == ids[a] || l.target == ids[a])
    ensures Joins(ids, allowed, a, l, b) <==> Between(l, allowed, ids[a], ids[b])
  {
    assert ids[a] != ids[b];
  }

  lemma {:induction false} HitsCount(ids: seq<int>, allowed: string -> bool, row: seq<Link>, a: nat, b: nat, m: nat)
    requires Proper(ids) && a < |ids| && b < |ids| && a != b && m <= |row|
    requires forall k :: 0 <= k < |row| ==> row[k].source == ids[a] || row[k].target == ids[a]
    ensures Hits(ids, allowed, row, a, b, m) == |LinksBetween(row[..m], allowed, ids[a], ids[b])|
  {
    if m > 0 {
      HitsCount(ids, allowed, row, a, b, m - 1);
      JoinsMeaning(ids, allowed, a, row[m - 1], b);
      var was := LinksBetween(row[..m - 1], allowed, ids[a], ids[b]);
      var now := LinksBetween(row[..m], allowed, ids[a], ids[b]);
      assert now == if Between(row[m - 1], allowed, ids[a], ids[b]) then was + {m - 1} else was;
    }
  }

  lemma {:induction false} NoSelfHits(ids: seq<int>, allowed: string -> bool, row: seq<Link>, a: nat, m: nat)
    requires a < |ids| && m <= |row|
    ensures Hits(ids, allowed, row, a, a, m) == 0
  {
    if m > 0 {
      NoSelfHits(ids, allowed, row, a, m - 1);
    }
  }

  /** The allowed links between two different ids, those that the store returns for the one and
      those that it returns for the other. */
  ghost function LinkCount(ids: seq<int>, allowed: string -> bool, links: seq<seq<Link>>, a: nat, b: nat): nat
    requires |links| == |ids| && a < |ids| && b < |ids|
  {
    if a == b then 0
    else |LinksBetween(links[a], allowed, ids[a], ids[b])| + |LinksBetween(links[b], allowed, ids[b], ids[a])|
  }

  /** The entry for two different ids is the number of allowed links between them that the store
      returns for the one, and the number that it returns for the other; the diagonal is zero. */
  lemma AdjacencyCounts(ids: seq<int>, allowed: string -> bool, links: seq<seq<Link>>, a: nat, b: nat)
    requires |links| == |ids| && Proper(ids) && Touching(ids, links) && a < |ids| && b < |ids|
    ensures Adjacency(ids, allowed, links)[a][b] == LinkCount(ids, allowed, links, a, b) as real
  {
    if a == b {
      NoSelfHits(ids, allowed, links[a], a, |links[a]|);
    } else {
      HitsCount(ids, allowed, links[a], a, b, |links[a]|);
      HitsCount(ids, allowed, links[b], b, a, |links[b]|);
      assert links[a][..|links[a]|] == links[a] && links[b][..|links[b]|] == links[b];
    }
    hide LinksBetween, Hits;
  }

  // One iteration.

  /** The sum of the first k entries of a row. */
  function Prefix(row: seq<real>, k: nat): real
    requires k <= |row|
  {
    if k == 0 then 0.0 else Prefix(row, k - 1) + row[k - 1]
  }

  /** The share of its score that i passes to j: spread evenly when i has no links. */
  function Share(m: Matrix, n: nat, i: nat, j: nat): real
    requires Square(m, n) && i < n && j < n
  {
    var degree := Prefix(m[i], n);
    if degree <= 0.0 then 1.0 / n as real else m[i][j] / degree
  }

  /** The next score of j, counting what the first k entries pass on. */
  function Received(m: Matrix, s: seq<real>, k: nat, j: nat): real
    requires Square(m, |s|) && k <= |s| && j < |s|
  {
    if k == 0 then (1.0 - DAMPING) / |s| as real
    else Received(m, s, k - 1, j) + DAMPING * s[k - 1] * Share(m, |s|, k - 1, j)
  }

  function Next(m: Matrix, s: seq<real>): (t: seq<real>)
    requires Square(m, |s|)
    ensures |t| == |s|
  {
    seq(|s|, j requires 0 <= j < |s| => Received(m, s, |s|, j))
  }

  function Iterate(m: Matrix, s: seq<real>, times: nat): (t: seq<real>)
    requires Square(m, |s|)
    ensures |t| == |s|
  {
    if times == 0 then s else Next(m, Iterate(m, s, times - 1))
  }

  function Uniform(n: nat): (s: seq<real>)
    requires n > 0
    ensures |s| == n
  {
    seq(n, i => 1.0 / n as real)
  }

  // Mass.

  /** The total the first k entries pass to the first p. */
  function Passed(m: Matrix, s: seq<real>, k: nat, p: nat): real
    requires Square(m, |s|) && k <= |s| && p <= |s|
  {
    if p == 0 then 0.0 else Passed(m, s, k, p - 1) + Received(m, s, k, p - 1)
  }

  function Shares(m: Matrix, n: nat, i: nat, p: nat): real
    requires Square(m, n) && i < n && p <= n
  {
    if p == 0 then 0.0 else Shares(m, n, i, p - 1) + Share(m, n, i, p - 1)
  }

  lemma {:induction false} PassedStep(m: Matrix, s: seq<real>, k: nat, p: nat)
    requires Square(m, |s|) && k < |s| && p <= |s|
    ensures Passed(m, s, k + 1, p) == Passed(m, s, k, p) + DAMPING * s[k] * Shares(m, |s|, k, p)
  {
    hide Share;
    if p > 0 {
      PassedStep(m, s, k, p - 1);
      Distribute3(DAMPING * s[k], Shares(m, |s|, k, p - 1), Share(m, |s|, k, p - 1));
    }
  }

  lemma Distribute3(a: real, b: real, c: real)
    ensures a * (b + c) == a * b + a * c
  {
  }

  lemma {:induction false} DanglingShares(m: Matrix, n: nat, i: nat, p: nat)
    requires Square(m, n) && i < n && p <= n && Prefix(m[i], n) <= 0.0
    ensures Shares(m, n, i, p) == p as real * (1.0 / n as real)
  {
    if p > 0 {
      DanglingShares(m, n, i, p - 1);
      var u := 1.0 / n as real;
      assert (p - 1) as real * u + u == p as real * u;
    }
  }

  lemma {:induction false} LinkedShares(m: Matrix, n: nat, i: nat, p: nat)
    requires Square(m, n) && i < n && p <= n && Prefix(m[i], n) > 0.0
    ensures Shares(m, n, i, p) == Prefix(m[i], p) / Prefix(m[i], n)
  {
    if p > 0 {
      LinkedShares(m, n, i, p - 1);
      AddQuotients(Prefix(m[i], p - 1), m[i][p - 1], Prefix(m[i], n));
    }
  }

  lemma AddQuotients(a: real, b: real, d: real)
    requires d != 0.0
    ensures a / d + b / d == (a + b) / d
  {
  }

  /** Whatever its links, every entry passes on exactly its whole score. */
  lemma SharesAreWhole(m: Matrix, n: nat, i: nat)
    requires Square(m, n) && i < n
    ensures Shares(m, n, i, n) == 1.0
  {
    if Prefix(m[i], n) <= 0.0 {
      DanglingShares(m, n, i, n);
    } else {
      LinkedShares(m, n, i, n);
    }
  }

  lemma {:induction false} PassedBase(m: Matrix, s: seq<real>, p: nat)
    requires Square(m, |s|) && p <= |s| && |s| > 0
    ensures Passed(m, s, 0, p) == p as real * ((1.0 - DAMPING) / |s| as real)
  {
    if p > 0 {
      PassedBase(m, s, p - 1);
      var u := (1.0 - DAMPING) / |s| as real;
      assert (p - 1) as real * u + u == p as real * u;
    }
  }

  lemma {:induction false} PassedTotal(m: Matrix, s: seq<real>, k: nat)
    requires Square(m, |s|) && k <= |s| && |s| > 0
    ensures Passed(m, s, k, |s|) == (1.0 - DAMPING) + DAMPING * Prefix(s, k)
  {
    if k == 0 {
      PassedBase(m, s, |s|);
      var n := |s| as real;
      assert n * ((1.0 - DAMPING) / n) == 1.0 - DAMPING;
    } else {
      PassedTotal(m, s, k - 1);
      PassedStep(m, s, k - 1, |s|);
      SharesAreWhole(m, |s|, k - 1);
    }
  }

  lemma {:induction false} PassedIsNext(m: Matrix, s: seq<real>, p: nat)
    requires Square(m, |s|) && p <= |s|
    ensures Prefix(Next(m, s), p) == Passed(m, s, |s|, p)
  {
    if p > 0 {
      PassedIsNext(m, s, p - 1);
    }
  }

  lemma {:induction false} ReceivedFloor(m: Matrix, s: seq<real>, k: nat, j: nat)
    requires Square(m, |s|) && NonNegative(m) && k <= |s| && j < |s|
    requires forall i :: 0 <= i < |s| ==> s[i] >= 0.0
    ensures Received(m, s, k, j) >= (1.0 - DAMPING) / |s| as real
  {
    if k > 0 {
      ReceivedFloor(m, s, k - 1, j);
      ShareNonNegative(m, |s|, k - 1, j);
      ProductNonNegative(DAMPING * s[k - 1], Share(m, |s|, k - 1, j));
    }
  }

  lemma ProductNonNegative(a: real, b: real)
    requires a >= 0.0 && b >= 0.0
    ensures a * b >= 0.0
  {
  }

  lemma ShareNonNegative(m: Matrix, n: nat, i: nat, j: nat)
    requires Square(m, n) && NonNegative(m) && i < n && j < n
    ensures Share(m, n, i, j) >= 0.0
  {
  }

  ghost predicate Distribution(s: seq<real>) {
    && |s| > 0
    && Prefix(s, |s|) == 1.0
    && forall i :: 0 <= i < |s| ==> s[i] >= (1.0 - DAMPING) / |s| as real
  }

  /** One iteration keeps the total at one and every score at or above its floor. */
  lemma NextIsDistribution(m: Matrix, s: seq<real>)
    requires Square(m, |s|) && NonNegative(m) && Distribution(s)
    ensures Distribution(Next(m, s))
  {
    PassedTotal(m, s, |s|);
    PassedIsNext(m, s, |s|);
    forall j | 0 <= j < |s|
      ensures Next(m, s)[j] >= (1.0 - DAMPING) / |s| as real
    {
      ReceivedFloor(m, s, |s|, j);
    }
  }

  lemma {:induction false} UniformPrefix(n: nat, k: nat)
    requires n > 0 && k <= n
    ensures Prefix(Uniform(n), k) == k as real * (1.0 / n as real)
  {
    if k > 0 {
      UniformPrefix(n, k - 1);
      var u := 1.0 / n as real;
      assert (k - 1) as real * u + u == k as real * u;
    }
  }

  lemma DivideMono(a: real, b: real, d: real)
    requires a <= b && d > 0.0
    ensures a / d <= b / d
  {
  }

  lemma UniformIsDistribution(n: nat)
    requires n > 0
    ensures Distribution(Uniform(n))
  {
    UniformPrefix(n, n);
    var d := n as real;
    assert d * (1.0 / d) == 1.0;
    DivideMono(1.0 - DAMPING, 1.0, d);
    hide Prefix;
  }

  /** After any number of iterations the scores sum to one and none is below 0.15/count. */
  lemma {:induction false} IterateIsDistribution(m: Matrix, n: nat, times: nat)
    requires n > 0 && Square(m, n) && NonNegative(m)
    ensures Distribution(Iterate(m, Uniform(n), times))
    ensures forall i :: 0 <= i < n ==> Iterate(m, Uniform(n), times)[i] >= 0.15 / n as real
  {
    assert forall s :: Distribution(s) ==> forall i :: 0 <= i < |s| ==> s[i] >= 0.15 / |s| as real;
    hide Distribution, Square, NonNegative;
    if times == 0 {
      UniformIsDistribution(n);
    } else {
      IterateIsDistribution(m, n, times - 1);
      NextIsDistribution(m, Iterate(m, Uniform(n), times - 1));
    }
  }

  ghost predicate Symmetric(m: Matrix) {
    forall i, j :: 0 <= i < |m| && 0 <= j < |m| && |m[i]| == |m| == |m[j]| ==> m[i][j] == m[j][i]
  }

  /** A linked entry passes its score on in proportion to its links, a dangling one evenly. */
  lemma ShareMeaning(m: Matrix, n: nat, i: nat, j: nat)
    requires Square(m, n) && i < n && j < n
    ensures Prefix(m[i], n) > 0.0 ==> Share(m, n, i, j) * Prefix(m[i], n) == m[i][j]
    ensures Prefix(m[i], n) <= 0.0 ==> Share(m, n, i, j) * n as real == 1.0
  {
  }

  lemma {:induction false} ReceivedByDegree(m: Matrix, s: seq<real>, total: real, k: nat, j: nat)
    requires Square(m, |s|) && Symmetric(m) && k <= |s| && j < |s| && total > 0.0
    requires forall i :: 0 <= i < |s| ==> Prefix(m[i], |s|) > 0.0 && s[i] == Prefix(m[i], |s|) / total
    ensures Received(m, s, k, j) == 0.15 / |s| as real + 0.85 * (Prefix(m[j], k) / total)
  {
    if k > 0 {
      ReceivedByDegree(m, s, total, k - 1, j);
      ShareMeaning(m, |s|, k - 1, j);
      assert m[k - 1][j] == m[j][k - 1];
      PassedByDegree(Prefix(m[k - 1], |s|), total, Share(m, |s|, k - 1, j), m[j][k - 1], Prefix(m[j], k - 1));
    }
  }

  lemma PassedByDegree(degree: real, total: real, share: real, links: real, before: real)
    requires total > 0.0 && share * degree == links
    ensures 0.85 * (before / total) + 0.85 * (degree / total) * share == 0.85 * ((before + links) / total)
  {
    var t := 1.0 / total;
    assert degree / total == degree * t && before / total == before * t;
    assert (before + links) / total == (before + links) * t;
    assert (degree * t) * share == links * t;
  }

  /** Where nothing dangles, scores in proportion to the number of links are what following links
      leaves as it is: an iteration only mixes them with an even spread, 85 parts to 15. */
  lemma DegreesAreStationary(m: Matrix, s: seq<real>, total: real, j: nat)
    requires Square(m, |s|) && Symmetric(m) && total > 0.0 && j < |s|
    requires forall i :: 0 <= i < |s| ==> Prefix(m[i], |s|) > 0.0 && s[i] == Prefix(m[i], |s|) / total
    ensures Next(m, s)[j] == 0.15 / |s| as real + 0.85 * s[j]
  {
    ReceivedByDegree(m, s, total, |s|, j);
  }

  // The computation in place.

  ghost function Rows(a: array2<real>): (m: Matrix)
    reads a
    ensures |m| == a.Length0
    ensures forall i :: 0 <= i < a.Length0 ==> |m[i]| == a.Length1
    ensures forall i, j :: 0 <= i < a.Length0 && 0 <= j < a.Length1 ==> m[i][j] == a[i, j]
  {
    seq(a.Length0, i requires 0 <= i < a.Length0 reads a =>
      seq(a.Length1, j requires 0 <= j < a.Length1 reads a => a[i, j]))
  }

  /** Links of row a seen so far, when rows before i are done and k links of row i. */
  function Seen(ids: seq<int>, allowed: string -> bool, links: seq<seq<Link>>, a: nat, b: nat, i: nat, k: nat): nat
    requires |links| == |ids| && a < |ids| && (a == i ==> k <= |links[a]|)
  {
    Hits(ids, allowed, links[a], a, b, if a < i then |links[a]| else if a == i then k else 0)
  }

  ghost predicate Counted(adj: array2<real>, ids: seq<int>, allowed: string -> bool, links: seq<seq<Link>>,
                          i: nat, k: nat)
    requires |links| == |ids| == adj.Length0 == adj.Length1
    requires i < |ids| ==> k <= |links[i]|
    reads adj
  {
    forall a, b :: 0 <= a < |ids| && 0 <= b < |ids| ==>
      adj[a, b] == (Seen(ids, allowed, links, a, b, i, k) + Seen(ids, allowed, links, b, a, i, k)) as real
  }

  method CountLink(adj: array2<real>, ids: seq<int>, allowed: string -> bool, links: seq<seq<Link>>, i: nat, k: nat)
    requires |links| == |ids| == adj.Length0 == adj.Length1 && i < |ids| && k < |links[i]|
    requires Counted(adj, ids, allowed, links, i, k)
    modifies adj
    ensures Counted(adj, ids, allowed, links, i, k + 1)
  {
    var l := links[i][k];
    var j := IndexOf(ids, Other(l, ids[i]));
    if j < 0 || i == j || !allowed(l.relation) {
      return;
    }
    adj[i, j] := adj[i, j] + 1.0;
    adj[j, i] := adj[j, i] + 1.0;
  }

  /** With every row done, each link has been counted once from each end. */
  lemma AllCounted(adj: array2<real>, ids: seq<int>, allowed: string -> bool, links: seq<seq<Link>>)
    requires |links| == |ids| == adj.Length0 == adj.Length1
    requires Counted(adj, ids, allowed, links, |ids|, 0)
    ensures Rows(adj) == Adjacency(ids, allowed, links)
  {
    var m, g := Rows(adj), Adjacency(ids, allowed, links);
    forall a | 0 <= a < |ids|
      ensures m[a] == g[a]
    {
      forall b | 0 <= b < |ids|
        ensures m[a][b] == g[a][b]
      {
        assert adj[a, b] ==
                 (Seen(ids, allowed, links, a, b, |ids|, 0) + Seen(ids, allowed, links, b, a, |ids|, 0)) as real;
      }
    }
  }

  method BuildAdjacency(ids: seq<int>, allowed: string -> bool, links: seq<seq<Link>>) returns (adj: array2<real>)
    requires |links| == |ids|
    ensures fresh(adj) && adj.Length0 == adj.Length1 == |ids|
    ensures Rows(adj) == Adjacency(ids, allowed, links)
    ensures Proper(ids) && Touching(ids, links) ==>
              forall a, b :: 0 <= a < |ids| && 0 <= b < |ids| ==>
                adj[a, b] == LinkCount(ids, allowed, links, a, b) as real
  {
    var n := |ids|;
    adj := new real[n, n]((i, j) => 0.0);
    for i := 0 to n
      invariant Counted(adj, ids, allowed, links, i, 0)
    {
      for k := 0 to |links[i]|
        invariant Counted(adj, ids, allowed, links, i, k)
      {
        CountLink(adj, ids, allowed, links, i, k);
      }
      assert Counted(adj, ids, allowed, links, i + 1, 0);
    }
    AllCounted(adj, ids, allowed, links);
    if Proper(ids) && Touching(ids, links) {
      forall a, b | 0 <= a < |ids| && 0 <= b < |ids|
        ensures Rows(adj)[a][b] == LinkCount(ids, allowed, links, a, b) as real
      {
        AdjacencyCounts(ids, allowed, links, a, b);
      }
    }
  }

  method Degree(adj: array2<real>, i: nat) returns (degree: real)
    requires i < adj.Length0
    ensures degree == Prefix(Rows(adj)[i], adj.Length1)
  {
    degree := 0.0;
    for j := 0 to adj.Length1
      invariant degree == Prefix(Rows(adj)[i], j)
    {
      degree := degree + adj[i, j];
    }
  }

  method PassEvenly(share: real, next: array<real>)
    modifies next
    ensures forall j :: 0 <= j < next.Length ==> next[j] == old(next[j]) + share
  {
    for j := 0 to next.Length
      invariant forall h :: 0 <= h < j ==> next[h] == old(next[h]) + share
      invariant forall h :: j <= h < next.Length ==> next[h] == old(next[h])
    {
      next[j] := next[j] + share;
    }
  }

  method PassLinked(row: seq<real>, degree: real, amount: real, next: array<real>)
    requires |row| == next.Length && degree > 0.0
    requires forall j :: 0 <= j < |row| ==> row[j] >= 0.0
    modifies next
    ensures forall j :: 0 <= j < next.Length ==> next[j] == old(next[j]) + amount * (row[j] / degree)
  {
    for j := 0 to next.Length
      invariant forall h :: 0 <= h < j ==> next[h] == old(next[h]) + amount * (row[h] / degree)
      invariant forall h :: j <= h < next.Length ==> next[h] == old(next[h])
    {
      if row[j] <= 0.0 {
        NoShare(degree, amount);
        continue;
      }
      next[j] := next[j] + amount * (row[j] / degree);
    }
  }

  lemma EvenShare(a: real, n: real)
    requires n != 0.0
    ensures a / n == a * (1.0 / n)
  {
  }

  lemma NoShare(degree: real, a: real)
    requires degree != 0.0
    ensures a * (0.0 / degree) == 0.0
  {
  }

  /** Adds what entry i passes on to every entry of `next`. */
  method PassOn(m: Matrix, i: nat, degree: real, score: real, next: array<real>)
    requires Square(m, next.Length) && NonNegative(m) && i < next.Length
    requires degree == Prefix(m[i], next.Length)
    modifies next
    ensures forall j :: 0 <= j < next.Length ==>
              next[j] == old(next[j]) + DAMPING * score * Share(m, next.Length, i, j)
  {
    var n := next.Length as real;
    if degree <= 0.0 {
      EvenShare(DAMPING * score, n);
      PassEvenly(DAMPING * score / n, next);
    } else {
      PassLinked(m[i], degree, DAMPING * score, next);
    }
  }

  method ClearNext(next: array<real>)
    requires next.Length > 0
    modifies next
    ensures forall j :: 0 <= j < next.Length ==> next[j] == (1.0 - DAMPING) / next.Length as real
  {
    for i := 0 to next.Length
      invariant forall j :: 0 <= j < i ==> next[j] == (1.0 - DAMPING) / next.Length as real
    {
      next[i] := (1.0 - DAMPING) / next.Length as real;
    }
  }

  method CopyScores(next: array<real>, scores: array<real>)
    requires scores.Length == next.Length && scores != next
    modifies scores
    ensures scores[..] == next[..]
  {
    for i := 0 to scores.Length
      invariant scores[..i] == next[..i]
    {
      scores[i] := next[i];
    }
  }

  /** What the first k entries pass on has been added up. */
  ghost predicate Gathered(m: Matrix, s: seq<real>, k: nat, t: seq<real>)
    requires Square(m, |s|) && k <= |s|
  {
    |t| == |s| && forall j :: 0 <= j < |s| ==> t[j] == Received(m, s, k, j)
  }

  lemma GatherNext(m: Matrix, s: seq<real>, k: nat, t: seq<real>, t': seq<real>)
    requires Square(m, |s|) && k < |s| && Gathered(m, s, k, t) && |t'| == |s|
    requires forall j :: 0 <= j < |s| ==> t'[j] == t[j] + DAMPING * s[k] * Share(m, |s|, k, j)
    ensures Gathered(m, s, k + 1, t')
  {
    hide Share;
  }

  lemma GatheredAll(m: Matrix, s: seq<real>, t: seq<real>)
    requires Square(m, |s|) && Gathered(m, s, |s|, t)
    ensures t == Next(m, s)
  {
  }

  /** One iteration over the two score buffers. */
  method Refine(adj: array2<real>, m: Matrix, scores: array<real>, next: array<real>)
    requires adj.Length0 == adj.Length1 == scores.Length == next.Length > 0 && scores != next
    requires m == Rows(adj) && Square(m, next.Length) && NonNegative(m)
    modifies scores, next
    ensures scores[..] == Next(m, old(scores[..]))
  {
    ghost var s := scores[..];
    ClearNext(next);
    assert Gathered(m, s, 0, next[..]);
    hide *;
    for i := 0 to next.Length
      invariant scores[..] == s
      invariant Gathered(m, s, i, next[..])
    {
      ghost var before := next[..];
      var degree := Degree(adj, i);
      PassOn(m, i, degree, scores[i], next);
      GatherNext(m, s, i, before, next[..]);
    }
    GatheredAll(m, s, next[..]);
    CopyScores(next, scores);
  }

  ghost function MaxOf(s: seq<real>): (x: real)
    requires s != []
    ensures x in s && forall i :: 0 <= i < |s| ==> s[i] <= x
  {
    if |s| == 1 then s[0]
    else
      var y := MaxOf(s[..|s| - 1]);
      assert forall i :: 0 <= i < |s| - 1 ==> s[i] == s[..|s| - 1][i];
      if s[|s| - 1] > y then s[|s| - 1] else y
  }

  /** Weights against the largest score; a distribution always has a positive one. */
  ghost function Scaled(s: seq<real>, weight: real, i: nat): real
    requires i < |s|
  {
    var max := MaxOf(s);
    if max <= 0.0 then 0.0 else s[i] / max * weight
  }

  method MaxScore(s: seq<real>) returns (max: real)
    requires Distribution(s)
    ensures max == MaxOf(s) > 0.0
  {
    max := 0.0;
    assert s[0] >= (1.0 - DAMPING) / |s| as real > 0.0;
    for i := 0 to |s|
      invariant forall j :: 0 <= j < i ==> s[j] <= max
      invariant if i == 0 then max == 0.0 else max in s
    {
      assert s[i] >= (1.0 - DAMPING) / |s| as real > 0.0;
      if s[i] > max {
        max := s[i];
      }
    }
  }

  /** Scaled scores lie in (0, weight], and the largest is the weight. */
  lemma ScaledRange(s: seq<real>, weight: real, i: nat)
    requires Distribution(s) && weight > 0.0 && i < |s|
    ensures 0.0 < Scaled(s, weight, i) <= weight
    ensures s[i] == MaxOf(s) ==> Scaled(s, weight, i) == weight
  {
    assert s[i] >= (1.0 - DAMPING) / |s| as real > 0.0;
    var max := MaxOf(s);
    hide MaxOf, Distribution;
    FractionRange(s[i], max, weight);
  }

  lemma FractionRange(x: real, max: real, weight: real)
    requires 0.0 < x <= max && weight > 0.0
    ensures 0.0 < x / max * weight <= weight
    ensures x == max ==> x / max * weight == weight
  {
    var q := x / max;
    assert q * max == x;
    assert 0.0 < q <= 1.0;
    if x == max {
      assert q == 1.0;
    }
  }

  /** Divides by the largest score; the exit on a non-positive one is never taken. */
  method Scale(ids: seq<int>, s: seq<real>, weight: real) returns (out: seq<Score>)
    requires |ids| == |s| && Distribution(s)
    ensures |out| == |ids| && forall i :: 0 <= i < |ids| ==> out[i] == Score(ids[i], Scaled(s, weight, i))
  {
    var max := MaxScore(s);
    out := [];
    if max <= 0.0 {
      return;
    }
    for i := 0 to |ids|
      invariant |out| == i && forall j :: 0 <= j < i ==> out[j] == Score(ids[j], Scaled(s, weight, j))
    {
      out := out + [Score(ids[i], s[i] / max * weight)];
    }
  }

  /** What the scores of a set of matches satisfy. */
  ghost predicate Ranked(ids: seq<int>, s: seq<real>, weight: real, out: seq<Score>)
    requires |s| == |ids|
  {
    && Distribution(s)
    && |out| == |ids|
    && (forall i :: 0 <= i < |ids| ==> out[i] == Score(ids[i], Scaled(s, weight, i)))
    && (forall i :: 0 <= i < |ids| ==> 0.0 < out[i].score <= weight)
    && exists i :: 0 <= i < |ids| && out[i].score == weight
  }

  lemma ScaledIsRanked(ids: seq<int>, s: seq<real>, weight: real, out: seq<Score>)
    requires |s| == |ids| == |out| && Distribution(s) && weight > 0.0
    requires forall i :: 0 <= i < |ids| ==> out[i] == Score(ids[i], Scaled(s, weight, i))
    ensures Ranked(ids, s, weight, out)
  {
    assert s != [];
    var top :| 0 <= top < |s| && s[top] == MaxOf(s);
    hide Distribution, Scaled, MaxOf;
    forall i | 0 <= i < |ids|
      ensures 0.0 < out[i].score <= weight
    {
      ScaledRange(s, weight, i);
    }
    ScaledRange(s, weight, top);
    assert out[top].score == weight;
  }

  /** The scores of a set of matches: none when the configuration or the counts rule it out. */
  method PageRankScores(ids: seq<int>, allowed: string -> bool, links: seq<seq<Link>>, enabled: bool,
                        iterations: nat, weight: real, maxOut: nat)
    returns (out: seq<Score>)
    requires |links| == |ids| <= 128
    ensures |ids| <= 1 || !enabled || weight <= 0.0 || maxOut < |ids| ==> out == []
    ensures |ids| > 1 && enabled && weight > 0.0 && maxOut >= |ids| ==>
              Ranked(ids, Iterate(Adjacency(ids, allowed, links), Uniform(|ids|), iterations), weight, out)
  {
    hide *;
    var n := |ids|;
    if n <= 1 || !enabled || weight <= 0.0 || maxOut < n {
      return [];
    }
    var adj := BuildAdjacency(ids, allowed, links);
    AdjacencySymmetric(ids, allowed, links);
    var m := Adjacency(ids, allowed, links);
    var scores := StartScores(n);
    var next := new real[n](i => 0.0);
    IterateStart(m, n);
    for iter := 0 to iterations
      invariant Rows(adj) == m && scores[..] == Iterate(m, Uniform(n), iter)
    {
      Refine(adj, m, scores, next);
      IterateStep(m, n, iter);
    }
    IterateIsDistribution(m, n, iterations);
    out := Scale(ids, scores[..], weight);
    ScaledIsRanked(ids, scores[..], weight, out);
  }

  method StartScores(n: nat) returns (scores: array<real>)
    requires n > 0
    ensures fresh(scores) && scores[..] == Uniform(n)
  {
    scores := new real[n](i => 1.0 / n as real);
  }

  lemma IterateStart(m: Matrix, n: nat)
    requires n > 0 && Square(m, n)
    ensures Iterate(m, Uniform(n), 0) == Uniform(n)
  {
  }

  lemma IterateStep(m: Matrix, n: nat, times: nat)
    requires n > 0 && Square(m, n)
    ensures Iterate(m, Uniform(n), times + 1) == Next(m, Iterate(m, Uniform(n), times))
  {
  }
}
