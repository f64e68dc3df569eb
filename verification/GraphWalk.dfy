/** The bounded breadth-first walk through the typed entity graph. */
module GraphWalk {
  import opened Wrappers
  import opened Bits

  const TABLE_MAX := 256
  const NAME_MAX := 255
  const REL_CO_DISCUSSED := 12
  const MASK_ALL: U32 := 0xffffffff

  /** An entity name as the walk's tables hold it. */
  type Name = s: string | |s| <= NAME_MAX

  datatype Edge = Edge(source: string, relation: string, target: string, relationId: int,
                       subjectKind: int, objectKind: int, weight: int)
  datatype Entry = Entry(source: string, relation: string, target: string, relationId: int,
                         subjectKind: int, objectKind: int, weight: int, hop: nat)

  /** The rows the store returns for each entity, and the relations to follow. */
  datatype Graph = Graph(rows: Name -> seq<Edge>, mask: U32)

  function Fit(s: string): (r: Name)
    ensures r <= s && (|s| <= NAME_MAX ==> r == s) && (|s| > NAME_MAX ==> |r| == NAME_MAX)
  {
    if |s| <= NAME_MAX then s else s[..NAME_MAX]
  }

  // Which edges count.

  /** Codes out of range, such as that of a null, read as a discussion. */
  function RelationOf(e: Edge): (rid: nat)
    ensures rid < 100
  {
    if e.relationId < 0 || e.relationId >= 100 then REL_CO_DISCUSSED else e.relationId
  }

  predicate Accepts(mask: U32, rid: nat) {
    var bit := if rid < 32 then Pow2(rid) else 0;
    And(mask, bit) != 0 || mask == MASK_ALL
  }

  /** A relation is followed when its own bit is set; codes above the mask only by the full mask. */
  lemma AcceptsMeaning(mask: U32, rid: nat)
    ensures Accepts(mask, rid) <==> mask == MASK_ALL || (rid < 32 && Bit(mask, rid) == 1)
  {
    if rid < 32 {
      AndBit(mask, rid);
    }
  }

  predicate Usable(g: Graph, e: Edge) {
    Accepts(g.mask, RelationOf(e)) && e.source != "" && e.relation != "" && e.target != ""
  }

  /** The side of the edge that is not the node, uncut. */
  function Neighbour(e: Edge, node: Name): string {
    if e.source == node then e.target else e.source
  }

  function EntryOf(e: Edge, hop: nat): Entry {
    Entry(e.source, e.relation, e.target, RelationOf(e), e.subjectKind, e.objectKind, e.weight, hop)
  }

  // Distance.

  /** Row b of u leads to v, the neighbour cut as the tables cut it. */
  ghost predicate Leads(g: Graph, u: Name, b: nat, v: Name) {
    b < |g.rows(u)| && Usable(g, g.rows(u)[b]) && Fit(Neighbour(g.rows(u)[b], u)) == v
  }

  ghost function Around(g: Graph, u: Name): set<Name> {
    set b | 0 <= b < |g.rows(u)| && Usable(g, g.rows(u)[b]) :: Fit(Neighbour(g.rows(u)[b], u))
  }

  /** The entities at most k accepted edges from the seed. */
  ghost function Within(g: Graph, seed: Name, k: nat): set<Name> {
    if k == 0 then {seed}
    else
      var inner := Within(g, seed, k - 1);
      inner + set u, v | u in inner && v in Around(g, u) :: v
  }

  lemma WithinStep(g: Graph, seed: Name, k: nat, u: Name, b: nat, v: Name)
    requires u in Within(g, seed, k) && Leads(g, u, b, v)
    ensures v in Within(g, seed, k + 1)
  {
    assert v in Around(g, u);
  }

  lemma WithinOrigin(g: Graph, seed: Name, k: nat, v: Name) returns (u: Name, b: nat)
    requires k > 0 && v in Within(g, seed, k) && v !in Within(g, seed, k - 1)
    ensures u in Within(g, seed, k - 1) && Leads(g, u, b, v)
  {
    u :| u in Within(g, seed, k - 1) && v in Around(g, u);
    b :| 0 <= b < |g.rows(u)| && Usable(g, g.rows(u)[b]) && Fit(Neighbour(g.rows(u)[b], u)) == v;
  }

  lemma WithinInner(g: Graph, seed: Name, k: nat)
    requires k > 0
    ensures Within(g, seed, k - 1) <= Within(g, seed, k)
  {
  }

  lemma {:induction false} WithinGrows(g: Graph, seed: Name, j: nat, k: nat)
    requires j <= k
    ensures Within(g, seed, j) <= Within(g, seed, k)
  {
    hide *;
    if j < k {
      WithinInner(g, seed, k);
      WithinGrows(g, seed, j, k - 1);
    }
  }

  /** Each entity of the path is joined to the one before by an accepted edge. */
  ghost predicate Path(g: Graph, p: seq<Name>) {
    && |p| > 0
    && (|p| > 1 ==> Path(g, p[..|p| - 1]) && p[|p| - 1] in Around(g, p[|p| - 2]))
  }

  /** Within k means reached by a path of at most k accepted edges, and by no other means. */
  lemma WithinIsPaths(g: Graph, seed: Name, k: nat, v: Name)
    ensures v in Within(g, seed, k)
       <==> exists p :: Path(g, p) && |p| <= k + 1 && p[0] == seed && p[|p| - 1] == v
  {
    if v in Within(g, seed, k) {
      var p := PathTo(g, seed, k, v);
    }
    forall p | Path(g, p) && |p| <= k + 1 && p[0] == seed && p[|p| - 1] == v
      ensures v in Within(g, seed, k)
    {
      PathStaysWithin(g, p, seed);
      WithinGrows(g, seed, |p| - 1, k);
    }
  }

  lemma PathBase(g: Graph, seed: Name, v: Name)
    requires v in Within(g, seed, 0)
    ensures v == seed && Path(g, [seed])
  {
  }

  lemma {:induction false} PathTo(g: Graph, seed: Name, k: nat, v: Name) returns (p: seq<Name>)
    requires v in Within(g, seed, k)
    ensures Path(g, p) && 0 < |p| <= k + 1 && p[0] == seed && p[|p| - 1] == v
  {
    hide *;
    if k == 0 {
      PathBase(g, seed, v);
      p := [seed];
    } else if v in Within(g, seed, k - 1) {
      p := PathTo(g, seed, k - 1, v);
    } else {
      var u, b := WithinOrigin(g, seed, k, v);
      var q := PathTo(g, seed, k - 1, u);
      PathExtend(g, q, v, b);
      p := q + [v];
    }
  }

  lemma PathExtend(g: Graph, q: seq<Name>, v: Name, b: nat)
    requires Path(g, q) && Leads(g, q[|q| - 1], b, v)
    ensures Path(g, q + [v])
  {
    assert (q + [v])[..|q|] == q;
  }

  lemma {:induction false} PathStaysWithin(g: Graph, p: seq<Name>, seed: Name)
    requires Path(g, p) && p[0] == seed
    ensures p[|p| - 1] in Within(g, seed, |p| - 1)
  {
    if |p| > 1 {
      var q := p[..|p| - 1];
      PathStaysWithin(g, q, seed);
      assert q[|q| - 1] == p[|p| - 2];
    }
  }

  /** A set of entities that no accepted edge leaves. */
  ghost predicate Closed(g: Graph, s: set<Name>) {
    forall u, b, v :: u in s && Leads(g, u, b, v) ==> v in s
  }

  lemma ClosedStep(g: Graph, seed: Name, k: nat, v: Name)
    requires k > 0 && Closed(g, Within(g, seed, k - 1)) && v in Within(g, seed, k)
    ensures v in Within(g, seed, k - 1)
  {
    if v !in Within(g, seed, k - 1) {
      var u, b := WithinOrigin(g, seed, k, v);
      hide Within, Leads;
    }
  }

  lemma {:induction false} ClosedStays(g: Graph, seed: Name, j: nat, k: nat)
    requires j <= k && Closed(g, Within(g, seed, j))
    ensures Within(g, seed, k) == Within(g, seed, j)
  {
    hide Within, Leads, Closed;
    if j < k {
      ClosedStays(g, seed, j, k - 1);
      WithinGrows(g, seed, j, k);
      forall v | v in Within(g, seed, k)
        ensures v in Within(g, seed, j)
      {
        ClosedStep(g, seed, k, v);
      }
    }
  }

  // What the walk has written.

  /** One entry together with where it came from: row `row` of `from`, reaching `node`. */
  datatype Found = Found(node: Name, from: Name, row: nat, entry: Entry)

  /** The entry is an accepted edge of an entity one hop nearer. */
  ghost predicate Genuine(g: Graph, seed: Name, f: Found, hops: nat) {
    && 1 <= f.entry.hop <= hops
    && f.from in Within(g, seed, f.entry.hop - 1)
    && Leads(g, f.from, f.row, f.node)
    && f.entry == EntryOf(g.rows(f.from)[f.row], f.entry.hop)
  }

  ghost predicate Sound(g: Graph, seed: Name, log: seq<Found>, hops: nat) {
    && (forall i :: 0 <= i < |log| ==> Genuine(g, seed, log[i], hops))
    && (forall i, j :: 0 <= i < j < |log| ==> log[i].entry.hop <= log[j].entry.hop)
  }

  /** Every entity once, and at its exact distance. */
  ghost predicate Exact(g: Graph, seed: Name, log: seq<Found>) {
    && (forall i :: 0 <= i < |log| ==>
          log[i].entry.hop > 0 && log[i].node !in Within(g, seed, log[i].entry.hop - 1))
    && (forall i, j :: 0 <= i < j < |log| ==> log[i].node != log[j].node)
  }

  ghost predicate Writes(out: seq<Entry>, log: seq<Found>) {
    |out| == |log| && forall i :: 0 <= i < |out| ==> out[i] == log[i].entry
  }

  ghost function Nodes(log: seq<Found>): (s: seq<Name>)
    ensures |s| == |log|
  {
    seq(|log|, i requires 0 <= i < |log| => log[i].node)
  }

  lemma PathIsSome(g: Graph, p: seq<Name>)
    requires Path(g, p)
    ensures |p| > 0
  {
  }

  lemma NoShorterPath(g: Graph, seed: Name, v: Name, h: nat, p: seq<Name>)
    requires h > 0 && v !in Within(g, seed, h - 1)
    requires Path(g, p) && p[0] == seed && p[|p| - 1] == v
    ensures |p| > h
  {
    PathIsSome(g, p);
    hide *;
    PathStaysWithin(g, p, seed);
    if |p| <= h {
      WithinGrows(g, seed, |p| - 1, h - 1);
    }
  }

  /** The hop of an exact entry is the length of a shortest path to what it reaches. */
  lemma HopIsShortest(g: Graph, seed: Name, log: seq<Found>, hops: nat, i: nat)
    requires Sound(g, seed, log, hops) && Exact(g, seed, log) && i < |log|
    ensures exists p :: Path(g, p) && |p| == log[i].entry.hop + 1 && p[0] == seed && p[|p| - 1] == log[i].node
    ensures forall p :: Path(g, p) && p[0] == seed && p[|p| - 1] == log[i].node ==> |p| > log[i].entry.hop
  {
    var f := log[i];
    assert Genuine(g, seed, f, hops);
    assert f.entry.hop > 0 && f.node !in Within(g, seed, f.entry.hop - 1);
    hide Within, Exact, Sound, Leads;
    ShortestByHop(g, seed, f, hops);
  }

  lemma ShortestByHop(g: Graph, seed: Name, f: Found, hops: nat)
    requires Genuine(g, seed, f, hops) && f.node !in Within(g, seed, f.entry.hop - 1)
    ensures exists p :: Path(g, p) && |p| == f.entry.hop + 1 && p[0] == seed && p[|p| - 1] == f.node
    ensures forall p :: Path(g, p) && p[0] == seed && p[|p| - 1] == f.node ==> |p| > f.entry.hop
  {
    var h := f.entry.hop;
    hide Within, Around, Leads, EntryOf;
    WithinStep(g, seed, h - 1, f.from, f.row, f.node);
    var q := PathTo(g, seed, h, f.node);
    NoShorterPath(g, seed, f.node, h, q);
    assert |q| == h + 1;
    forall p | Path(g, p) && p[0] == seed && p[|p| - 1] == f.node
      ensures |p| > h
    {
      NoShorterPath(g, seed, f.node, h, p);
    }
  }

  // What this says of the rows' own strings.

  /** Every row the store returns for an entity names it. */
  ghost predicate Touching(g: Graph) {
    forall u, b: nat :: b < |g.rows(u)| ==> g.rows(u)[b].source == u || g.rows(u)[b].target == u
  }

  /** A row with all its names whose relation, a discussion when its code is out of range, has its bit
      in the mask, or any bit when the mask is full. */
  ghost predicate Follows(mask: U32, e: Edge) {
    var code := if 0 <= e.relationId < 100 then e.relationId else REL_CO_DISCUSSED;
    && e.source != "" && e.relation != "" && e.target != ""
    && (mask == MASK_ALL || (code < 32 && Bit(mask, code) == 1))
  }

  lemma UsableFollows(g: Graph, e: Edge)
    ensures Usable(g, e) <==> Follows(g.mask, e)
  {
    AcceptsMeaning(g.mask, RelationOf(e));
    hide Accepts;
  }

  /** One end of the row is u, and the other, as the tables hold it, is v. */
  ghost predicate Joins(e: Edge, u: Name, v: Name) {
    (e.source == u && Fit(e.target) == v) || (e.target == u && Fit(e.source) == v)
  }

  /** The neighbours of an entity are the other ends of its rows that are followed. */
  lemma AroundMeaning(g: Graph, u: Name, v: Name)
    requires Touching(g)
    ensures v in Around(g, u) <==>
              exists b: nat :: b < |g.rows(u)| && Follows(g.mask, g.rows(u)[b]) && Joins(g.rows(u)[b], u, v)
  {
    forall b: nat | b < |g.rows(u)|
      ensures Leads(g, u, b, v) <==> Follows(g.mask, g.rows(u)[b]) && Joins(g.rows(u)[b], u, v)
    {
      LeadsMeaning(g, u, b, v);
    }
    assert v in Around(g, u) <==> exists b: nat :: b < |g.rows(u)| && Leads(g, u, b, v);
    hide Usable, Follows, Joins, Neighbour;
  }

  lemma LeadsMeaning(g: Graph, u: Name, b: nat, v: Name)
    requires Touching(g) && b < |g.rows(u)|
    ensures Leads(g, u, b, v) <==> Follows(g.mask, g.rows(u)[b]) && Joins(g.rows(u)[b], u, v)
  {
    UsableFollows(g, g.rows(u)[b]);
    hide Usable, Follows;
  }

  /** The entry is a copy of a row that is followed, and the row joins the entity it was found from
      and the one it reaches. */
  ghost predicate Faithful(g: Graph, f: Found) {
    && f.row < |g.rows(f.from)|
    && var e := g.rows(f.from)[f.row];
       && Follows(g.mask, e) && Joins(e, f.from, f.node)
       && f.entry.source == e.source && f.entry.relation == e.relation && f.entry.target == e.target
       && f.entry.subjectKind == e.subjectKind && f.entry.objectKind == e.objectKind && f.entry.weight == e.weight
       && f.entry.relationId == if 0 <= e.relationId < 100 then e.relationId else REL_CO_DISCUSSED
  }

  lemma GenuineIsFaithful(g: Graph, seed: Name, f: Found, hops: nat)
    requires Touching(g) && Genuine(g, seed, f, hops)
    ensures Faithful(g, f)
  {
    LeadsMeaning(g, f.from, f.row, f.node);
    hide Within, Usable, Follows, Joins, Neighbour, Fit, Touching;
  }

  /** The entities seen: the seed and those reached. */
  ghost predicate Seen(seed: Name, log: seq<Found>, v: Name) {
    v == seed || v in Nodes(log)
  }

  /** The entity was seen with hops to spare. */
  ghost predicate SeenBefore(seed: Name, log: seq<Found>, hops: nat, u: Name) {
    (u == seed && hops > 0) || exists i :: 0 <= i < |log| && log[i].node == u && log[i].entry.hop < hops
  }

  /** Both ends of every row that is followed, of every entity seen with hops to spare, are seen. */
  ghost predicate Complete(g: Graph, seed: Name, log: seq<Found>, hops: nat) {
    forall u, b: nat :: SeenBefore(seed, log, hops, u) && b < |g.rows(u)| && Follows(g.mask, g.rows(u)[b]) ==>
      Seen(seed, log, Fit(g.rows(u)[b].source)) && Seen(seed, log, Fit(g.rows(u)[b].target))
  }

  lemma GenuineIsNear(g: Graph, seed: Name, f: Found, hops: nat)
    requires Genuine(g, seed, f, hops) && f.entry.hop < hops
    ensures f.node in Within(g, seed, hops - 1)
  {
    hide Within, Leads;
    WithinStep(g, seed, f.entry.hop - 1, f.from, f.row, f.node);
    WithinGrows(g, seed, f.entry.hop, hops - 1);
  }

  lemma SeenBeforeIsNear(g: Graph, seed: Name, log: seq<Found>, hops: nat, u: Name)
    requires Sound(g, seed, log, hops) && SeenBefore(seed, log, hops, u)
    ensures hops > 0 && u in Within(g, seed, hops - 1)
  {
    if u == seed && hops > 0 {
      WithinGrows(g, seed, 0, hops - 1);
      assert seed in Within(g, seed, 0);
    } else {
      hide Within, Genuine;
      var i :| 0 <= i < |log| && log[i].node == u && log[i].entry.hop < hops;
      assert Genuine(g, seed, log[i], hops);
      HopIsPositive(g, seed, log[i], hops);
      GenuineIsNear(g, seed, log[i], hops);
    }
  }

  lemma HopIsPositive(g: Graph, seed: Name, f: Found, hops: nat)
    requires Genuine(g, seed, f, hops)
    ensures f.entry.hop >= 1
  {
  }

  lemma RowEnds(g: Graph, seed: Name, u: Name, b: nat, hops: nat)
    requires Touching(g) && hops > 0 && u in Within(g, seed, hops - 1)
    requires b < |g.rows(u)| && Follows(g.mask, g.rows(u)[b])
    ensures Fit(g.rows(u)[b].source) in Within(g, seed, hops) && Fit(g.rows(u)[b].target) in Within(g, seed, hops)
  {
    hide Within, Leads, Follows;
    var e := g.rows(u)[b];
    var v := if e.source == u then Fit(e.target) else Fit(e.source);
    WithinGrows(g, seed, hops - 1, hops);
    LeadsMeaning(g, u, b, v);
    WithinStep(g, seed, hops - 1, u, b, v);
  }

  lemma ReachedIsComplete(g: Graph, seed: Name, log: seq<Found>, hops: nat)
    requires Touching(g) && Sound(g, seed, log, hops)
    requires forall v :: v in Nodes(log) <==> v in Within(g, seed, hops) && v != seed
    ensures Complete(g, seed, log, hops)
  {
    hide Within, Sound, Follows, SeenBefore, Touching, Nodes, Fit;
    forall u, b: nat | SeenBefore(seed, log, hops, u) && b < |g.rows(u)| && Follows(g.mask, g.rows(u)[b])
      ensures Seen(seed, log, Fit(g.rows(u)[b].source)) && Seen(seed, log, Fit(g.rows(u)[b].target))
    {
      SeenBeforeIsNear(g, seed, log, hops, u);
      RowEnds(g, seed, u, b, hops);
    }
  }

  /** A set of at most as many entities as the tables have rows that the rows of its entities never
      leave: what is in reach of any of them then fits, however many hops are taken. */
  ghost predicate Contains(g: Graph, seed: Name, all: set<Name>) {
    && seed in all && |all| <= TABLE_MAX
    && forall u, b: nat :: u in all && b < |g.rows(u)| && Follows(g.mask, g.rows(u)[b]) ==>
         g.rows(u)[b].source in all && g.rows(u)[b].target in all
  }

  lemma {:induction false} WithinContained(g: Graph, seed: Name, all: set<Name>, k: nat)
    requires Contains(g, seed, all)
    ensures Within(g, seed, k) <= all
  {
    hide *;
    if k == 0 {
      SeedContained(g, seed, all);
    } else {
      WithinContained(g, seed, all, k - 1);
      forall v | v in Within(g, seed, k)
        ensures v in all
      {
        StepContained(g, seed, all, k, v);
      }
    }
  }

  lemma StepContained(g: Graph, seed: Name, all: set<Name>, k: nat, v: Name)
    requires k > 0 && Contains(g, seed, all) && Within(g, seed, k - 1) <= all && v in Within(g, seed, k)
    ensures v in all
  {
    hide *;
    if v !in Within(g, seed, k - 1) {
      var u, b := WithinOrigin(g, seed, k, v);
      RowContained(g, seed, all, u, b, v);
    }
  }

  lemma SeedContained(g: Graph, seed: Name, all: set<Name>)
    requires Contains(g, seed, all)
    ensures Within(g, seed, 0) <= all
  {
  }

  lemma RowContained(g: Graph, seed: Name, all: set<Name>, u: Name, b: nat, v: Name)
    requires Contains(g, seed, all) && u in all && Leads(g, u, b, v)
    ensures v in all
  {
    UsableFollows(g, g.rows(u)[b]);
    hide Usable, Follows;
  }

  lemma ContainedIsSmall(g: Graph, seed: Name, all: set<Name>, hops: nat)
    requires Contains(g, seed, all)
    ensures Small(g, seed, hops)
  {
    WithinContained(g, seed, all, hops);
    SubsetSize(Within(g, seed, hops), all);
    forall u, b: nat | u in Within(g, seed, hops) && b < |g.rows(u)| && Usable(g, g.rows(u)[b])
      ensures |Neighbour(g.rows(u)[b], u)| <= NAME_MAX
    {
      UsableFollows(g, g.rows(u)[b]);
    }
  }

  lemma SubsetSize<T>(a: set<T>, b: set<T>)
    requires a <= b
    ensures |a| <= |b|
  {
    assert |b| == |a| + |b - a| by {
      assert b == a + (b - a);
    }
  }

  // The tables in the middle of hop h + 1.

  /** Everything in reach fits the tables: no more entities than rows, and no name cut short. */
  ghost predicate Small(g: Graph, seed: Name, hops: nat) {
    && |Within(g, seed, hops)| <= TABLE_MAX
    && forall u, b: nat {:trigger Neighbour(g.rows(u)[b], u)} ::
         u in Within(g, seed, hops) && b < |g.rows(u)| && Usable(g, g.rows(u)[b]) ==>
           |Neighbour(g.rows(u)[b], u)| <= NAME_MAX
  }

  /** What holds whatever the size of the graph. */
  ghost predicate Fine(g: Graph, seed: Name, h: nat, visited: seq<Name>, next: seq<Name>, out: seq<Entry>,
                       log: seq<Found>)
  {
    && |visited| <= TABLE_MAX && |next| <= TABLE_MAX
    && (forall v :: v in next ==> v in Within(g, seed, h + 1))
    && Writes(out, log)
    && Sound(g, seed, log, h + 1)
  }

  /** What holds besides while everything in reach fits the tables. */
  ghost predicate Tidy(g: Graph, seed: Name, h: nat, visited: seq<Name>, next: seq<Name>, log: seq<Found>) {
    && visited == [seed] + Nodes(log)
    && |next| < |visited|
    && Exact(g, seed, log)
    && (forall v :: v in Within(g, seed, h) ==> v in visited)
    && (forall v :: v in visited ==> v in Within(g, seed, h) || v in next)
  }

  /** All that row entries up to b of u lead to is marked. */
  ghost predicate Expanded(g: Graph, u: Name, b: nat, visited: seq<Name>) {
    forall c: nat, v :: c < b && Leads(g, u, c, v) ==> v in visited
  }

  lemma {:induction false} DistinctFits(s: seq<Name>, all: set<Name>)
    requires forall i, j :: 0 <= i < j < |s| ==> s[i] != s[j]
    requires forall i :: 0 <= i < |s| ==> s[i] in all
    ensures |s| <= |all|
  {
    if |s| > 0 {
      var last := s[|s| - 1];
      DistinctFits(s[..|s| - 1], all - {last});
    }
  }

  lemma VisitedDistinct(g: Graph, seed: Name, h: nat, visited: seq<Name>, next: seq<Name>, log: seq<Found>)
    requires Tidy(g, seed, h, visited, next, log)
    ensures forall i, j :: 0 <= i < j < |visited| ==> visited[i] != visited[j]
  {
    forall i, j | 0 <= i < j < |visited|
      ensures visited[i] != visited[j]
    {
      var f := log[j - 1];
      assert visited[j] == f.node;
      if i == 0 {
        WithinGrows(g, seed, 0, f.entry.hop - 1);
      } else {
        assert visited[i] == log[i - 1].node;
      }
    }
  }

  /** While all in reach fits, there is room to mark one more. */
  lemma RoomToMark(g: Graph, seed: Name, h: nat, hops: nat, visited: seq<Name>, next: seq<Name>,
                   log: seq<Found>, v: Name)
    requires h < hops && Small(g, seed, hops)
    requires Tidy(g, seed, h, visited, next, log)
    requires forall u :: u in next ==> u in Within(g, seed, h + 1)
    requires v in Within(g, seed, h + 1) && v !in visited
    ensures |visited| < TABLE_MAX && |next| < TABLE_MAX
  {
    hide Within, Exact;
    VisitedDistinct(g, seed, h, visited, next, log);
    WithinGrows(g, seed, h, h + 1);
    WithinGrows(g, seed, h + 1, hops);
    forall i | 0 <= i < |visited|
      ensures visited[i] in Within(g, seed, hops) - {v}
    {
      assert visited[i] in visited;
    }
    DistinctFits(visited, Within(g, seed, hops) - {v});
  }

  lemma MarkFine(g: Graph, seed: Name, h: nat, visited: seq<Name>, next: seq<Name>, out: seq<Entry>, log: seq<Found>,
                 f: Found, visited': seq<Name>, next': seq<Name>)
    requires Fine(g, seed, h, visited, next, out, log)
    requires Genuine(g, seed, f, h + 1) && f.entry.hop == h + 1
    requires |visited'| <= TABLE_MAX && |next'| <= TABLE_MAX
    requires next' == next || next' == next + [f.node]
    ensures Fine(g, seed, h, visited', next', out + [f.entry], log + [f])
  {
    WithinStep(g, seed, h, f.from, f.row, f.node);
    hide Within, Leads;
    var log' := log + [f];
    forall i | 0 <= i < |log'|
      ensures Genuine(g, seed, log'[i], h + 1) && log'[i].entry.hop <= h + 1
    {
      assert i < |log| ==> log'[i] == log[i] && Genuine(g, seed, log[i], h + 1);
    }
    forall i, j | 0 <= i < j < |log'|
      ensures log'[i].entry.hop <= log'[j].entry.hop
    {
      assert j < |log| ==> log'[j] == log[j] && log'[i] == log[i];
    }
  }

  lemma MarkTidy(g: Graph, seed: Name, h: nat, visited: seq<Name>, next: seq<Name>, log: seq<Found>, f: Found)
    requires Tidy(g, seed, h, visited, next, log)
    requires f.node !in visited && f.entry.hop == h + 1
    ensures Tidy(g, seed, h, visited + [f.node], next + [f.node], log + [f])
  {
    hide Within;
    var log' := log + [f];
    assert visited + [f.node] == [seed] + Nodes(log');
    forall i, j | 0 <= i < j < |log'|
      ensures log'[i].node != log'[j].node
    {
      if j == |log| {
        assert visited[i + 1] == log[i].node;
      }
    }
  }

  method Already(visited: seq<Name>, v: string) returns (already: bool)
    ensures already <==> v in visited
  {
    already := false;
    for i := 0 to |visited|
      invariant !already && v !in visited[..i]
    {
      if visited[i] == v {
        return true;
      }
    }
  }

  /** Writes one edge, and marks and queues the entity it leads to while the tables have room. */
  method Mark(g: Graph, ghost seed: Name, h: nat, ghost hops: nat, ghost f: Found, entry: Entry, neighbour: string,
              visited0: seq<Name>, next0: seq<Name>, out0: seq<Entry>, ghost log0: seq<Found>)
    returns (visited: seq<Name>, next: seq<Name>, out: seq<Entry>, ghost log: seq<Found>)
    requires h < hops && Genuine(g, seed, f, h + 1) && f.entry == entry && entry.hop == h + 1
    requires neighbour == Neighbour(g.rows(f.from)[f.row], f.from) && neighbour !in visited0
    requires Fine(g, seed, h, visited0, next0, out0, log0)
    requires Small(g, seed, hops) ==> Tidy(g, seed, h, visited0, next0, log0)
    ensures log == log0 + [f] && out == out0 + [entry] && visited0 <= visited
    ensures Fine(g, seed, h, visited, next, out, log)
    ensures Small(g, seed, hops) ==> Tidy(g, seed, h, visited, next, log) && f.node in visited
  {
    visited, next, out, log := visited0, next0, out0 + [entry], log0 + [f];
    MarkFacts(g, seed, h, hops, f, neighbour);
    FineTables(g, seed, h, visited0, next0, out0, log0);
    hide Within, Small, Fine, Tidy, Genuine, Neighbour;
    if Small(g, seed, hops) {
      RoomToMark(g, seed, h, hops, visited0, next0, log0, f.node);
      MarkTidy(g, seed, h, visited0, next0, log0, f);
    }
    if |visited| < TABLE_MAX {
      visited := visited + [Fit(neighbour)];
    }
    if |next| < TABLE_MAX {
      next := next + [Fit(neighbour)];
    }
    MarkFine(g, seed, h, visited0, next0, out0, log0, f, visited, next);
  }

  /** What a genuine entry reaches, which the tables hold whole while all in reach fits them. */
  lemma MarkFacts(g: Graph, seed: Name, h: nat, hops: nat, f: Found, neighbour: string)
    requires h < hops && Genuine(g, seed, f, h + 1) && f.entry.hop == h + 1
    requires neighbour == Neighbour(g.rows(f.from)[f.row], f.from)
    ensures f.node in Within(g, seed, h + 1) && Fit(neighbour) == f.node
    ensures Small(g, seed, hops) ==> neighbour == f.node
  {
    WithinStep(g, seed, h, f.from, f.row, f.node);
    WithinGrows(g, seed, h, hops);
    hide Within;
  }

  lemma FineTables(g: Graph, seed: Name, h: nat, visited: seq<Name>, next: seq<Name>, out: seq<Entry>,
                   log: seq<Found>)
    requires Fine(g, seed, h, visited, next, out, log)
    ensures |visited| <= TABLE_MAX && |next| <= TABLE_MAX && forall v :: v in next ==> v in Within(g, seed, h + 1)
  {
  }

  /** One node's rows: every accepted edge to an unmarked entity is written and its entity queued. */
  method ExpandNode(g: Graph, ghost seed: Name, node: Name, h: nat, max: nat, ghost hops: nat,
                    visited0: seq<Name>, next0: seq<Name>, out0: seq<Entry>, ghost log0: seq<Found>)
    returns (visited: seq<Name>, next: seq<Name>, out: seq<Entry>, ghost log: seq<Found>)
    requires h < hops && node in Within(g, seed, h) && |out0| <= max
    requires Fine(g, seed, h, visited0, next0, out0, log0)
    requires Small(g, seed, hops) ==> Tidy(g, seed, h, visited0, next0, log0)
    ensures |out| <= max && Fine(g, seed, h, visited, next, out, log)
    ensures forall v :: v in visited0 ==> v in visited
    ensures Small(g, seed, hops) ==> Tidy(g, seed, h, visited, next, log)
    ensures Small(g, seed, hops) && |out| < max ==> Expanded(g, node, |g.rows(node)|, visited)
  {
    visited, next, out, log := visited0, next0, out0, log0;
    var rows := g.rows(node);
    var b := 0;
    hide Within, Small, Fine, Tidy;
    while b < |rows| && |out| < max
      invariant 0 <= b <= |rows| && |out| <= max
      invariant Fine(g, seed, h, visited, next, out, log)
      invariant forall v :: v in visited0 ==> v in visited
      invariant Small(g, seed, hops) ==> Tidy(g, seed, h, visited, next, log)
      invariant Small(g, seed, hops) ==> Expanded(g, node, b, visited)
    {
      var e := rows[b];
      b := b + 1;
      if !Usable(g, e) {
        continue;
      }
      var neighbour := Neighbour(e, node);
      var already := Already(visited, neighbour);
      if already {
        continue;
      }
      ghost var f := Found(Fit(neighbour), node, b - 1, EntryOf(e, h + 1));
      visited, next, out, log := Mark(g, seed, h, hops, f, EntryOf(e, h + 1), neighbour, visited, next, out, log);
    }
  }

  // Between hops.

  ghost predicate Settled(g: Graph, u: Name, visited: seq<Name>) {
    Expanded(g, u, |g.rows(u)|, visited)
  }

  /** Exactly the entities within h are marked, and only the frontier is still to be expanded. */
  ghost predicate Ready(g: Graph, seed: Name, h: nat, frontier: seq<Name>, visited: seq<Name>) {
    && (forall v :: v in visited <==> v in Within(g, seed, h))
    && (forall u :: u in Within(g, seed, h) ==> u in frontier || Settled(g, u, visited))
  }

  lemma StartHop(g: Graph, seed: Name, h: nat, frontier: seq<Name>, visited: seq<Name>, out: seq<Entry>,
                 log: seq<Found>)
    requires |visited| <= TABLE_MAX && Writes(out, log) && Sound(g, seed, log, h)
    ensures Fine(g, seed, h, visited, [], out, log)
    ensures Ready(g, seed, h, frontier, visited) && Exact(g, seed, log) && visited == [seed] + Nodes(log) ==>
              Tidy(g, seed, h, visited, [], log)
  {
    hide Within, Leads, Settled;
  }

  /** Expanding the whole frontier reaches everything one hop further. */
  lemma EndHop(g: Graph, seed: Name, h: nat, next: seq<Name>, visited: seq<Name>, log: seq<Found>)
    requires Tidy(g, seed, h, visited, next, log)
    requires forall v :: v in next ==> v in Within(g, seed, h + 1)
    requires forall u :: u in Within(g, seed, h) ==> Settled(g, u, visited)
    ensures Ready(g, seed, h + 1, next, visited)
  {
    WithinGrows(g, seed, h, h + 1);
    forall v | v in Within(g, seed, h + 1)
      ensures v in visited
    {
      if v !in Within(g, seed, h) {
        var u, b := WithinOrigin(g, seed, h + 1, v);
        assert Settled(g, u, visited);
      }
    }
  }

  /** With nothing left to expand, nothing lies further out. */
  lemma NothingBeyond(g: Graph, seed: Name, h: nat, hops: nat, visited: seq<Name>)
    requires h <= hops && Ready(g, seed, h, [], visited)
    ensures Within(g, seed, hops) == Within(g, seed, h)
  {
    forall u, b, v | u in Within(g, seed, h) && Leads(g, u, b, v)
      ensures v in Within(g, seed, h)
    {
      assert Settled(g, u, visited);
    }
    ClosedStays(g, seed, h, hops);
  }

  lemma SettledStays(g: Graph, u: Name, visited: seq<Name>, visited': seq<Name>)
    requires Settled(g, u, visited) && forall v :: v in visited ==> v in visited'
    ensures Settled(g, u, visited')
  {
    hide Leads;
  }

  /** One hop: every entity of the frontier is expanded while there is room for entries. */
  method ExpandFrontier(g: Graph, ghost seed: Name, frontier: seq<Name>, h: nat, max: nat, ghost hops: nat,
                        visited0: seq<Name>, out0: seq<Entry>, ghost log0: seq<Found>)
    returns (visited: seq<Name>, next: seq<Name>, out: seq<Entry>, ghost log: seq<Found>)
    requires h < hops && |out0| <= max && forall v :: v in frontier ==> v in Within(g, seed, h)
    requires Fine(g, seed, h, visited0, [], out0, log0)
    requires Small(g, seed, hops) ==> Tidy(g, seed, h, visited0, [], log0)
    ensures |out| <= max && Fine(g, seed, h, visited, next, out, log)
    ensures forall v :: v in visited0 ==> v in visited
    ensures Small(g, seed, hops) ==> Tidy(g, seed, h, visited, next, log)
    ensures Small(g, seed, hops) && |out| < max ==> forall u :: u in frontier ==> Settled(g, u, visited)
  {
    visited, next, out, log := visited0, [], out0, log0;
    hide Within, Small, Fine, Tidy, Settled;
    var f := 0;
    while f < |frontier| && |out| < max
      invariant 0 <= f <= |frontier| && |out| <= max
      invariant Fine(g, seed, h, visited, next, out, log)
      invariant forall v :: v in visited0 ==> v in visited
      invariant Small(g, seed, hops) ==> Tidy(g, seed, h, visited, next, log)
      invariant Small(g, seed, hops) && |out| < max ==> forall i :: 0 <= i < f ==> Settled(g, frontier[i], visited)
    {
      ghost var before := visited;
      visited, next, out, log := ExpandNode(g, seed, frontier[f], h, max, hops, visited, next, out, log);
      KeepSettled(g, frontier, f, before, visited);
      f := f + 1;
    }
  }

  /** Marking more leaves the first f entities settled, and f joins them once expanded. */
  lemma KeepSettled(g: Graph, frontier: seq<Name>, f: nat, visited: seq<Name>, visited': seq<Name>)
    requires f < |frontier|
    ensures (forall v :: v in visited ==> v in visited')
            && (forall i :: 0 <= i < f ==> Settled(g, frontier[i], visited))
            && Expanded(g, frontier[f], |g.rows(frontier[f])|, visited') ==>
              forall i :: 0 <= i < f + 1 ==> Settled(g, frontier[i], visited')
  {
    if (forall v :: v in visited ==> v in visited') && (forall i :: 0 <= i < f ==> Settled(g, frontier[i], visited)) {
      forall i | 0 <= i < f
        ensures Settled(g, frontier[i], visited')
      {
        SettledStays(g, frontier[i], visited, visited');
      }
    }
  }

  /** The walk. Every entry is an accepted edge found in order of distance; when at most 256 entities
      are in reach, under names the tables hold whole, each is reached once, by a shortest path, and
      all are unless the output fills up. */
  method Walk(seedEntity: string, g: Graph, maxHops: int, max: int) returns (out: seq<Entry>, ghost log: seq<Found>)
    ensures max <= 0 ==> out == []
    ensures max > 0 ==> |out| <= max
    ensures Writes(out, log) && Sound(g, Fit(seedEntity), log, Max(maxHops, 0))
    ensures Small(g, Fit(seedEntity), Max(maxHops, 0)) ==> Exact(g, Fit(seedEntity), log)
    ensures Small(g, Fit(seedEntity), Max(maxHops, 0)) && |out| < max ==>
              forall v :: v in Nodes(log) <==> v in Within(g, Fit(seedEntity), Max(maxHops, 0)) && v != Fit(seedEntity)
    ensures Touching(g) ==> forall i :: 0 <= i < |log| ==> Faithful(g, log[i])
    ensures Touching(g) && Small(g, Fit(seedEntity), Max(maxHops, 0)) && |out| < max ==>
              Complete(g, Fit(seedEntity), log, Max(maxHops, 0))
  {
    out, log := [], [];
    if max <= 0 {
      return;
    }
    var seed := Fit(seedEntity);
    ghost var hops := Max(maxHops, 0);
    var frontier, visited := [seed], [seed];
    assert Within(g, seed, 0) == {seed};
    assert Small(g, seed, hops) ==> Ready(g, seed, 0, frontier, visited);
    assert Exact(g, seed, log) && Sound(g, seed, log, 0) && visited == [seed] + Nodes(log);
    hide Within, Small, Exact, Sound, Ready, Nodes;
    var hop := 0;
    while hop < maxHops && |frontier| > 0 && |out| < max
      invariant 0 <= hop <= hops && |out| <= max && |visited| <= TABLE_MAX
      invariant forall v :: v in frontier ==> v in Within(g, seed, hop)
      invariant Writes(out, log) && Sound(g, seed, log, hop)
      invariant Small(g, seed, hops) ==> visited == [seed] + Nodes(log) && Exact(g, seed, log)
      invariant Small(g, seed, hops) && |out| < max ==> Ready(g, seed, hop, frontier, visited)
    {
      visited, frontier, out, log := Hop(g, seed, frontier, hop, max, hops, visited, out, log);
      hop := hop + 1;
    }
    SoundLater(g, seed, log, hop, hops);
    if Touching(g) {
      AllFaithful(g, seed, log, hops);
    }
    if Small(g, seed, hops) && |out| < max {
      Finish(g, seed, hop, hops, frontier, visited, log);
      if Touching(g) {
        ReachedIsComplete(g, seed, log, hops);
      }
    }
    hide Touching, Faithful, Complete;
  }

  lemma AllFaithful(g: Graph, seed: Name, log: seq<Found>, hops: nat)
    requires Touching(g) && Sound(g, seed, log, hops)
    ensures forall i :: 0 <= i < |log| ==> Faithful(g, log[i])
  {
    forall i | 0 <= i < |log|
      ensures Faithful(g, log[i])
    {
      assert Genuine(g, seed, log[i], hops);
      GenuineIsFaithful(g, seed, log[i], hops);
    }
  }

  lemma SoundLater(g: Graph, seed: Name, log: seq<Found>, h: nat, hops: nat)
    requires h <= hops && Sound(g, seed, log, h)
    ensures Sound(g, seed, log, hops)
  {
    hide Within, Leads;
  }

  /** At the end of the run the entities written are those in reach, without the seed. */
  lemma Finish(g: Graph, seed: Name, h: nat, hops: nat, frontier: seq<Name>, visited: seq<Name>, log: seq<Found>)
    requires h <= hops && Ready(g, seed, h, frontier, visited) && (h == hops || frontier == [])
    requires visited == [seed] + Nodes(log) && Exact(g, seed, log)
    ensures forall v :: v in Nodes(log) <==> v in Within(g, seed, hops) && v != seed
  {
    if h < hops {
      NothingBeyond(g, seed, h, hops, visited);
    }
    forall v | v in Nodes(log)
      ensures v != seed && v in visited
    {
      var i :| 0 <= i < |log| && Nodes(log)[i] == v;
      WithinGrows(g, seed, 0, log[i].entry.hop - 1);
      assert visited[i + 1] == v;
    }
    forall v | v in visited && v != seed
      ensures v in Nodes(log)
    {
    }
  }

  method Hop(g: Graph, ghost seed: Name, frontier0: seq<Name>, h: nat, max: nat, ghost hops: nat,
             visited0: seq<Name>, out0: seq<Entry>, ghost log0: seq<Found>)
    returns (visited: seq<Name>, frontier: seq<Name>, out: seq<Entry>, ghost log: seq<Found>)
    requires h < hops && |out0| < max && |visited0| <= TABLE_MAX
    requires forall v :: v in frontier0 ==> v in Within(g, seed, h)
    requires Writes(out0, log0) && Sound(g, seed, log0, h)
    requires Small(g, seed, hops) ==> visited0 == [seed] + Nodes(log0) && Exact(g, seed, log0)
    requires Small(g, seed, hops) ==> Ready(g, seed, h, frontier0, visited0)
    ensures |out| <= max && |visited| <= TABLE_MAX
    ensures forall v :: v in frontier ==> v in Within(g, seed, h + 1)
    ensures Writes(out, log) && Sound(g, seed, log, h + 1)
    ensures Small(g, seed, hops) ==> visited == [seed] + Nodes(log) && Exact(g, seed, log)
    ensures Small(g, seed, hops) && |out| < max ==> Ready(g, seed, h + 1, frontier, visited)
  {
    StartHop(g, seed, h, frontier0, visited0, out0, log0);
    var next;
    visited, next, out, log := ExpandFrontier(g, seed, frontier0, h, max, hops, visited0, out0, log0);
    frontier := next[..if |next| < TABLE_MAX then |next| else TABLE_MAX];
    assert frontier == next;
    if Small(g, seed, hops) && |out| < max {
      forall u | u in Within(g, seed, h)
        ensures Settled(g, u, visited)
      {
        if u !in frontier0 {
          SettledStays(g, u, visited0, visited);
        }
      }
      EndHop(g, seed, h, next, visited, log);
    }
    hide Within, Ready, Sound, Exact, Small;
  }
}
