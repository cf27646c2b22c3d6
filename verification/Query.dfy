/** The query pipeline of crates/treedx_graph/src/query/mod.rs: seeds, ranking, truncation and edges. */
module Query {
  import opened Wrappers
  import opened Ordering
  import opened Expansion

  /** The fields of a `GraphNode` the pipeline looks at; `rest` is what the filters look at besides. */
  datatype Node = Node(id: string, nodeType: string, text: Option<string>, rest: string)

  datatype NodeResult = NodeResult(node: Node, score: real, depth: nat, reasons: seq<string>)

  // ---------------------------------------------------------------- options

  /** `value.unwrap_or(20).clamp(1, 50)` */
  function Limit(value: Option<nat>): nat
  {
    var v := if value.Some? then value.value else 20;
    if v < 1 then 1 else if v > 50 then 50 else v
  }

  /** `value.unwrap_or(1).clamp(0, 3)` */
  function Depth(value: Option<nat>): nat
  {
    var v := if value.Some? then value.value else 1;
    if v > 3 then 3 else v
  }

  /** A limit lies between 1 and 50 and a depth between 0 and 3; without one they are 20 and 1. */
  lemma OptionRanges(value: Option<nat>)
    ensures 1 <= Limit(value) <= 50 && Depth(value) <= 3
    ensures value.None? ==> Limit(value) == 20 && Depth(value) == 1
    ensures value.Some? && 1 <= value.value <= 50 ==> Limit(value) == value.value
    ensures value.Some? && value.value <= 3 ==> Depth(value) == value.value
    ensures value.Some? && value.value > 50 ==> Limit(value) == 50
    ensures value.Some? && value.value > 3 ==> Depth(value) == 3
  {
  }

  // ---------------------------------------------------------------- seeds

  /** The seeds that name a node, in the order they were given. */
  function KnownSeeds(seeds: seq<string>, nodes: map<string, Node>): seq<string>
  {
    if seeds == [] then []
    else
      var before := KnownSeeds(seeds[..|seeds| - 1], nodes);
      if seeds[|seeds| - 1] in nodes then before + [seeds[|seeds| - 1]] else before
  }

  /** The known seeds are the given ones that name a node, as often as they are given and in that order. */
  lemma {:induction false} KnownSeedsExact(seeds: seq<string>, nodes: map<string, Node>)
    ensures FiltersTo(seeds, (id: string) => id in nodes, KnownSeeds(seeds, nodes))
  {
    var known := (id: string) => id in nodes;
    if seeds == [] {
      FiltersEmpty(known);
    } else {
      KnownSeedsExact(seeds[..|seeds| - 1], nodes);
      FiltersSnoc(seeds, known, KnownSeeds(seeds[..|seeds| - 1], nodes));
    }
  }

  /** Every given seed that names a node stands at depth 0 with score 100. */
  lemma GivenSeedsCount(links: set<Edge>, seeds: seq<string>, nodes: map<string, Node>, maxDepth: nat,
                        scores: map<string, Entry>)
    requires SeededScores(links, KnownSeeds(seeds, nodes), maxDepth, scores)
    ensures forall id :: id in seeds && id in nodes ==> id in scores && scores[id] == Entry(100.0, 0, ["seed"])
  {
    KnownSeedsExact(seeds, nodes);
    FiltersMembers(seeds, (id: string) => id in nodes, KnownSeeds(seeds, nodes));
  }

  const SEED_ENTRY := Entry(100.0, 0, ["seed"])

  /** The first of these seeds in whose ball v lies. */
  ghost predicate FirstReaching(ball: string -> set<string>, seeds: seq<string>, v: string, i: nat)
  {
    i < |seeds| && v in ball(seeds[i]) && forall j :: 0 <= j < i ==> v !in ball(seeds[j])
  }

  ghost predicate Reached(ball: string -> set<string>, seeds: seq<string>, v: string)
  {
    exists s :: s in seeds && v in ball(s)
  }

  /** Every seed has the seed entry; every other node in some ball has an entry found from the first seed in reach. */
  ghost predicate Seeded(ball: string -> set<string>, found: (string, string, Entry) -> bool,
                         seeds: seq<string>, scores: map<string, Entry>)
  {
    && (forall v :: v in scores <==> Reached(ball, seeds, v))
    && (forall v :: v in seeds ==> v in scores && scores[v] == SEED_ENTRY)
    && (forall v, i: nat :: v in scores && v !in seeds && FirstReaching(ball, seeds, v, i) ==>
          found(seeds[i], v, scores[v]))
  }

  ghost function BallOf(links: set<Edge>, maxDepth: nat): string -> set<string>
  {
    (seed: string) => Ball(links, seed, maxDepth)
  }

  ghost function FoundOf(links: set<Edge>): (string, string, Entry) -> bool
  {
    (seed: string, v: string, entry: Entry) => FoundAt(links, seed, v, entry)
  }

  /** Every seed sits at depth 0; every other node in reach carries its distance from the first seed that reaches it. */
  ghost predicate SeededScores(links: set<Edge>, seeds: seq<string>, maxDepth: nat, scores: map<string, Entry>)
  {
    Seeded(BallOf(links, maxDepth), FoundOf(links), seeds, scores)
  }

  /** What one expansion does, seen through `ball` and `found`. */
  ghost predicate Expanded(ball: string -> set<string>, found: (string, string, Entry) -> bool, seed: string,
                           before: map<string, Entry>, after: map<string, Entry>)
  {
    && (forall v :: v in after <==> v in before || (v in ball(seed) && v != seed))
    && (forall v :: v in before ==> after[v] == before[v])
    && (forall v :: v in after && v !in before ==> found(seed, v, after[v]))
  }

  lemma SeedStep(ball: string -> set<string>, found: (string, string, Entry) -> bool, seeds: seq<string>,
                 scores: map<string, Entry>, seed: string, after: map<string, Entry>)
    requires Seeded(ball, found, seeds, scores) && seed in ball(seed)
    requires Expanded(ball, found, seed, scores[seed := SEED_ENTRY], after)
    ensures Seeded(ball, found, seeds + [seed], after)
  {
    SeedKeys(ball, found, seeds, scores, seed, after);
    SeedEntries(ball, found, seeds, scores, seed, after);
    SeedFound(ball, found, seeds, scores, seed, after);
  }

  lemma SeedKeys(ball: string -> set<string>, found: (string, string, Entry) -> bool, seeds: seq<string>,
                 scores: map<string, Entry>, seed: string, after: map<string, Entry>)
    requires (forall v :: v in scores <==> Reached(ball, seeds, v)) && seed in ball(seed)
    requires forall v :: v in after <==> v in scores || v == seed || v in ball(seed)
    ensures forall v :: v in after <==> Reached(ball, seeds + [seed], v)
  {
    assert forall s :: s in seeds + [seed] <==> s in seeds || s == seed;
  }

  lemma SeedEntries(ball: string -> set<string>, found: (string, string, Entry) -> bool, seeds: seq<string>,
                    scores: map<string, Entry>, seed: string, after: map<string, Entry>)
    requires forall v :: v in seeds ==> v in scores && scores[v] == SEED_ENTRY
    requires Expanded(ball, found, seed, scores[seed := SEED_ENTRY], after)
    ensures forall v :: v in seeds + [seed] ==> v in after && after[v] == SEED_ENTRY
  {
  }

  lemma SeedFound(ball: string -> set<string>, found: (string, string, Entry) -> bool, seeds: seq<string>,
                  scores: map<string, Entry>, seed: string, after: map<string, Entry>)
    requires Seeded(ball, found, seeds, scores)
    requires Expanded(ball, found, seed, scores[seed := SEED_ENTRY], after)
    ensures forall v, i: nat :: v in after && v !in seeds + [seed] && FirstReaching(ball, seeds + [seed], v, i) ==>
              found((seeds + [seed])[i], v, after[v])
  {
    var all := seeds + [seed];
    forall v, i: nat | v in after && v !in all && FirstReaching(ball, all, v, i) ensures found(all[i], v, after[v])
    {
      FirstSnoc(ball, seeds, seed, v, i);
      assert v != seed by { assert all[|seeds|] == seed; }
      assert v !in seeds by { assert forall s :: s in seeds ==> s in all; }
    }
  }

  lemma FirstSnoc(ball: string -> set<string>, seeds: seq<string>, seed: string, v: string, i: nat)
    requires FirstReaching(ball, seeds + [seed], v, i)
    ensures if i < |seeds|
            then (seeds + [seed])[i] == seeds[i] && FirstReaching(ball, seeds, v, i) && Reached(ball, seeds, v)
            else (seeds + [seed])[i] == seed && !Reached(ball, seeds, v)
  {
    var all := seeds + [seed];
    if i < |seeds| {
      assert all[i] == seeds[i];
      assert forall j :: 0 <= j < i ==> all[j] == seeds[j];
    } else {
      forall s | s in seeds ensures v !in ball(s)
      {
        var j :| 0 <= j < |seeds| && seeds[j] == s;
        assert all[j] == s;
      }
    }
  }

  lemma ExpandedByExpand(links: set<Edge>, maxDepth: nat, seed: string, before: map<string, Entry>,
                         after: map<string, Entry>)
    requires ExpandedTo(links, seed, maxDepth, before, after)
    ensures Expanded(BallOf(links, maxDepth), FoundOf(links), seed, before, after)
    ensures seed in BallOf(links, maxDepth)(seed)
  {
    BallGrows(links, seed, 0, maxDepth);
  }

  /** The seed loop of `query_graph`. */
  method ScoreSeeds(edges: seq<Edge>, relations: seq<string>, nodes: map<string, Node>, seeds: seq<string>,
                    maxDepth: nat)
    returns (seedIds: seq<string>, scores: map<string, Entry>)
    ensures seedIds == KnownSeeds(seeds, nodes)
    ensures FiltersTo(seeds, (id: string) => id in nodes, seedIds)
    ensures SeededScores(Links(edges, relations), seedIds, maxDepth, scores)
    ensures forall id :: id in seeds && id in nodes ==> id in scores && scores[id] == Entry(100.0, 0, ["seed"])
  {
    seedIds, scores := [], map[];
    var i := 0;
    while i < |seeds|
      invariant 0 <= i <= |seeds|
      invariant seedIds == KnownSeeds(seeds[..i], nodes)
      invariant SeededScores(Links(edges, relations), seedIds, maxDepth, scores)
    {
      assert seeds[..i + 1][..i] == seeds[..i];
      var seed := seeds[i];
      if seed in nodes {
        var after := Expand(edges, relations, seed, maxDepth, scores[seed := SEED_ENTRY]);
        ghost var links := Links(edges, relations);
        ExpandedByExpand(links, maxDepth, seed, scores[seed := SEED_ENTRY], after);
        SeedStep(BallOf(links, maxDepth), FoundOf(links), seedIds, scores, seed, after);
        seedIds, scores := seedIds + [seed], after;
      }
      i := i + 1;
    }
    TakeAll(seeds);
    KnownSeedsExact(seeds, nodes);
    GivenSeedsCount(Links(edges, relations), seeds, nodes, maxDepth, scores);
  }

  // ---------------------------------------------------------------- the lexical hits

  /** What the hits add up to under one id. */
  function HitScore(hits: seq<(string, real)>, id: string): real
  {
    if hits == [] then 0.0
    else HitScore(hits[..|hits| - 1], id) + (if hits[|hits| - 1].0 == id then hits[|hits| - 1].1 else 0.0)
  }

  function HitCount(hits: seq<(string, real)>, id: string): nat
  {
    if hits == [] then 0
    else HitCount(hits[..|hits| - 1], id) + (if hits[|hits| - 1].0 == id then 1 else 0)
  }

  function Queries(n: nat): (reasons: seq<string>)
    ensures |reasons| == n
  {
    if n == 0 then [] else Queries(n - 1) + ["query"]
  }

  /** The entry of a node after the hits: its score raised, a reason for each hit, its depth as before. */
  function WithHits(before: map<string, Entry>, hits: seq<(string, real)>, id: string): Entry
  {
    var e := if id in before then before[id] else Entry(0.0, 0, []);
    Entry(e.score + HitScore(hits, id), e.depth, e.reasons + Queries(HitCount(hits, id)))
  }

  ghost predicate HitsAdded(before: map<string, Entry>, hits: seq<(string, real)>, scores: map<string, Entry>)
  {
    forall id :: (id in scores <==> id in before || HitCount(hits, id) > 0) &&
                 (id in scores ==> scores[id] == WithHits(before, hits, id))
  }

  /** Hits of different nodes raise the score of each by its own, with one more reason and at the same depth; a node
      that
      was not there before stands at depth 0, and a node that is not hit is left alone. */
  lemma DistinctHitsAdded(before: map<string, Entry>, hits: seq<(string, real)>, scores: map<string, Entry>, k: nat)
    requires HitsAdded(before, hits, scores) && k < |hits|
    requires forall i, j :: 0 <= i < j < |hits| ==> hits[i].0 != hits[j].0
    ensures var id := hits[k].0;
            && id in scores
            && scores[id] == if id in before
                             then Entry(before[id].score + hits[k].1, before[id].depth, before[id].reasons + ["query"])
                             else Entry(hits[k].1, 0, ["query"])
    ensures forall id :: (forall i :: 0 <= i < |hits| ==> hits[i].0 != id) ==> Lookup(scores, id) == Lookup(before, id)
  {
    HitOnce(hits, k);
    assert Queries(1) == Queries(0) + ["query"] == ["query"];
    assert [] + ["query"] == ["query"];
    forall id | forall i :: 0 <= i < |hits| ==> hits[i].0 != id ensures Lookup(scores, id) == Lookup(before, id)
    {
      HitNever(hits, id);
      NoHits(hits, id);
      if id in before { assert before[id].reasons + [] == before[id].reasons; }
    }
  }

  lemma {:induction false} HitNever(hits: seq<(string, real)>, id: string)
    requires forall i :: 0 <= i < |hits| ==> hits[i].0 != id
    ensures HitCount(hits, id) == 0
  {
    if hits != [] { HitNever(hits[..|hits| - 1], id); }
  }

  lemma {:induction false} HitOnce(hits: seq<(string, real)>, k: nat)
    requires k < |hits| && forall i, j :: 0 <= i < j < |hits| ==> hits[i].0 != hits[j].0
    ensures HitCount(hits, hits[k].0) == 1 && HitScore(hits, hits[k].0) == hits[k].1
  {
    var n := |hits| - 1;
    if k < n {
      HitOnce(hits[..n], k);
    } else {
      HitNever(hits[..n], hits[k].0);
      NoHits(hits[..n], hits[k].0);
    }
  }

  lemma HitSnoc(hits: seq<(string, real)>, hit: (string, real), id: string)
    ensures HitCount(hits + [hit], id) == HitCount(hits, id) + (if hit.0 == id then 1 else 0)
    ensures HitScore(hits + [hit], id) == HitScore(hits, id) + (if hit.0 == id then hit.1 else 0.0)
  {
    assert (hits + [hit])[..|hits|] == hits;
  }

  lemma HitStep(before: map<string, Entry>, hits: seq<(string, real)>, scores: map<string, Entry>, hit: (string, real))
    requires HitsAdded(before, hits, scores)
    ensures var e := if hit.0 in scores then scores[hit.0] else Entry(0.0, 0, []);
            HitsAdded(before, hits + [hit], scores[hit.0 := Entry(e.score + hit.1, e.depth, e.reasons + ["query"])])
  {
    if hit.0 !in scores {
      NoHits(hits, hit.0);
    }
    forall id ensures HitCount(hits + [hit], id) == HitCount(hits, id) + (if hit.0 == id then 1 else 0)
              ensures HitScore(hits + [hit], id) == HitScore(hits, id) + (if hit.0 == id then hit.1 else 0.0)
    {
      HitSnoc(hits, hit, id);
    }
  }

  lemma {:induction false} NoHits(hits: seq<(string, real)>, id: string)
    requires HitCount(hits, id) == 0
    ensures HitScore(hits, id) == 0.0
  {
    if hits != [] { NoHits(hits[..|hits| - 1], id); }
  }

  /** The seed ids once hits have been added: a hit joins them if it is not among them yet. */
  function SeedIdsWith(seedIds: seq<string>, hits: seq<(string, real)>): seq<string>
  {
    if hits == [] then seedIds
    else
      var before := SeedIdsWith(seedIds, hits[..|hits| - 1]);
      if hits[|hits| - 1].0 in before then before else before + [hits[|hits| - 1].0]
  }

  /** The given ids come first and stay in place, exactly the hits join them, and none joins twice. */
  lemma {:induction false} SeedIdsExact(seedIds: seq<string>, hits: seq<(string, real)>)
    ensures var all := SeedIdsWith(seedIds, hits);
            && seedIds <= all
            && (forall id :: id in all <==> id in seedIds || HitCount(hits, id) > 0)
            && (forall i, j :: 0 <= i < j < |all| && |seedIds| <= j ==> all[i] != all[j])
  {
    if hits != [] { SeedIdsExact(seedIds, hits[..|hits| - 1]); }
  }

  lemma GivenSeedsAnswered(seeds: seq<string>, nodes: map<string, Node>, hits: seq<(string, real)>)
    ensures forall id :: id in seeds && id in nodes ==> id in SeedIdsWith(KnownSeeds(seeds, nodes), hits)
  {
    SeedIdsExact(KnownSeeds(seeds, nodes), hits);
    KnownSeedsExact(seeds, nodes);
    FiltersMembers(seeds, (id: string) => id in nodes, KnownSeeds(seeds, nodes));
  }

  /** The search part of `query_graph`; also appends new seed ids. */
  method AddHits(scores: map<string, Entry>, hits: seq<(string, real)>, seedIds: seq<string>)
    returns (scores': map<string, Entry>, seedIds': seq<string>)
    ensures HitsAdded(scores, hits, scores')
    ensures seedIds' == SeedIdsWith(seedIds, hits)
  {
    scores', seedIds' := scores, seedIds;
    ghost var done := [];
    var i := 0;
    while i < |hits|
      invariant 0 <= i <= |hits| && done == hits[..i]
      invariant HitsAdded(scores, done, scores')
      invariant seedIds' == SeedIdsWith(seedIds, done)
    {
      TakeSnoc(hits, i);
      scores', seedIds' := AddHit(scores, done, scores', hits[i], seedIds, seedIds');
      done := done + [hits[i]];
      i := i + 1;
    }
    assert hits[..|hits|] == hits;
  }

  /** One hit. */
  method AddHit(ghost before: map<string, Entry>, ghost done: seq<(string, real)>, scores: map<string, Entry>,
                hit: (string, real),
                ghost given: seq<string>, seedIds: seq<string>)
    returns (scores': map<string, Entry>, seedIds': seq<string>)
    requires HitsAdded(before, done, scores)
    requires seedIds == SeedIdsWith(given, done)
    ensures HitsAdded(before, done + [hit], scores')
    ensures seedIds' == SeedIdsWith(given, done + [hit])
  {
    HitStep(before, done, scores, hit);
    assert (done + [hit])[..|done|] == done;
    var e := if hit.0 in scores then scores[hit.0] else Entry(0.0, 0, []);
    scores' := scores[hit.0 := Entry(e.score + hit.1, e.depth, e.reasons + ["query"])];
    seedIds' := if hit.0 in seedIds then seedIds else seedIds + [hit.0];
  }

  // ---------------------------------------------------------------- ranking

  /** Higher scores first, ties by id. */
  predicate RanksBefore(a: NodeResult, b: NodeResult)
  {
    a.score > b.score || (a.score == b.score && Less(a.node.id, b.node.id))
  }

  ghost predicate Ranked(rs: seq<NodeResult>)
  {
    forall i, j :: 0 <= i < j < |rs| ==> RanksBefore(rs[i], rs[j])
  }

  lemma RankTransitive(a: NodeResult, b: NodeResult, c: NodeResult)
    requires RanksBefore(a, b) && RanksBefore(b, c)
    ensures RanksBefore(a, c)
  {
    if a.score == b.score == c.score { LessTransitive(a.node.id, b.node.id, c.node.id); }
  }

  lemma RankTotal(a: NodeResult, b: NodeResult)
    requires a.node.id != b.node.id
    ensures RanksBefore(a, b) || RanksBefore(b, a)
  {
    LeTotal(a.node.id, b.node.id);
  }

  lemma RankAsymmetric(a: NodeResult, b: NodeResult)
    ensures !(RanksBefore(a, b) && RanksBefore(b, a))
  {
    if Le(a.node.id, b.node.id) && Le(b.node.id, a.node.id) { LeAntisymmetric(a.node.id, b.node.id); }
  }

  ghost predicate DistinctIds(rs: seq<NodeResult>)
  {
    forall i, j :: 0 <= i < j < |rs| ==> rs[i].node.id != rs[j].node.id
  }

  /** One step of the sort: put a result at its place in a ranked list. */
  method Insert(ranked: seq<NodeResult>, r: NodeResult) returns (out: seq<NodeResult>)
    requires Ranked(ranked) && forall x :: x in ranked ==> x.node.id != r.node.id
    ensures Ranked(out) && |out| == |ranked| + 1
    ensures forall x :: x in out <==> x in ranked || x == r
  {
    var i := 0;
    while i < |ranked| && RanksBefore(ranked[i], r)
      invariant 0 <= i <= |ranked|
      invariant forall k :: 0 <= k < i ==> RanksBefore(ranked[k], r)
    {
      i := i + 1;
    }
    out := ranked[..i] + [r] + ranked[i..];
    forall k | i <= k < |ranked| ensures RanksBefore(r, ranked[k])
    {
      assert ranked[i] in ranked;
      RankTotal(ranked[i], r);
      if i < k { RankTransitive(r, ranked[i], ranked[k]); }
    }
  }

  /** `nodes.sort_by(...)`. */
  method Rank(rs: seq<NodeResult>) returns (ranked: seq<NodeResult>)
    requires DistinctIds(rs)
    ensures Ranked(ranked) && |ranked| == |rs|
    ensures forall x :: x in ranked <==> x in rs
  {
    ranked := [];
    var i := 0;
    while i < |rs|
      invariant 0 <= i <= |rs| && |ranked| == i
      invariant Ranked(ranked)
      invariant forall x :: x in ranked <==> x in rs[..i]
    {
      assert forall x :: x in rs[..i + 1] <==> x in rs[..i] || x == rs[i] by { TakeSnoc(rs, i); }
      ranked := Insert(ranked, rs[i]);
      i := i + 1;
    }
    assert rs[..|rs|] == rs;
  }

  /** `top` is what is left of the candidates after ranking them and keeping the first `limit`. */
  ghost predicate TopOf(candidates: seq<NodeResult>, limit: nat, top: seq<NodeResult>)
  {
    && Ranked(top)
    && |top| == (if |candidates| < limit then |candidates| else limit)
    && (forall r :: r in top ==> r in candidates)
    && (forall r, k :: r in candidates && r !in top && k in top ==> RanksBefore(k, r))
  }

  /** Higher scores come first, equal ones by id, and nothing that is left out would come before anything kept. */
  lemma TopIsBest(candidates: seq<NodeResult>, limit: nat, top: seq<NodeResult>)
    requires TopOf(candidates, limit, top)
    ensures |top| == limit || |top| == |candidates| < limit
    ensures forall r :: r in top ==> r in candidates
    ensures forall i, j :: 0 <= i < j < |top| ==>
              top[i].score > top[j].score || (top[i].score == top[j].score && Less(top[i].node.id, top[j].node.id))
    ensures forall x, y :: x in top && y in candidates && y !in top ==>
              x.score > y.score || (x.score == y.score && Less(x.node.id, y.node.id))
  {
  }

  lemma TakeIsTop(candidates: seq<NodeResult>, ranked: seq<NodeResult>, limit: nat)
    requires Ranked(ranked) && |ranked| == |candidates| && forall r :: r in ranked <==> r in candidates
    ensures TopOf(candidates, limit, if |ranked| < limit then ranked else ranked[..limit])
  {
    if limit <= |ranked| {
      var top := ranked[..limit];
      assert forall x :: 0 <= x < limit ==> ranked[x] == top[x] && top[x] in top;
      forall r, k | r in candidates && r !in top && k in top ensures RanksBefore(k, r)
      {
        var i :| 0 <= i < |ranked| && ranked[i] == r;
        var j :| 0 <= j < limit && top[j] == k;
        assert limit <= i;
        assert ranked[j] == k;
      }
    }
  }

  /** The answer is the only one: rank and keep leave no choice. */
  lemma TopUnique(candidates: seq<NodeResult>, limit: nat, a: seq<NodeResult>, b: seq<NodeResult>)
    requires DistinctIds(candidates) && TopOf(candidates, limit, a) && TopOf(candidates, limit, b)
    ensures a == b
  {
    var i := 0;
    while i < |a|
      invariant 0 <= i <= |a| && a[..i] == b[..i]
    {
      SamePlace(candidates, limit, a, b, i);
      TakeSnoc(a, i);
      TakeSnoc(b, i);
      i := i + 1;
    }
    assert a[..|a|] == a && b[..|b|] == b;
  }

  lemma SamePlace(candidates: seq<NodeResult>, limit: nat, a: seq<NodeResult>, b: seq<NodeResult>, i: nat)
    requires DistinctIds(candidates) && TopOf(candidates, limit, a) && TopOf(candidates, limit, b)
    requires i < |a| && a[..i] == b[..i]
    ensures a[i] == b[i]
  {
    if a[i] != b[i] {
      NotBefore(candidates, limit, a, b, i);
      NotBefore(candidates, limit, b, a, i);
      DifferentIds(candidates, a[i], b[i]);
      RankTotal(a[i], b[i]);
    }
  }

  lemma DifferentIds(candidates: seq<NodeResult>, x: NodeResult, y: NodeResult)
    requires DistinctIds(candidates) && x in candidates && y in candidates && x != y
    ensures x.node.id != y.node.id
  {
    var i :| 0 <= i < |candidates| && candidates[i] == x;
    var j :| 0 <= j < |candidates| && candidates[j] == y;
    if i < j { assert candidates[i].node.id != candidates[j].node.id; }
    else { assert candidates[j].node.id != candidates[i].node.id; }
  }

  /** At the first place where two answers could differ, neither entry ranks before the other. */
  lemma NotBefore(candidates: seq<NodeResult>, limit: nat, a: seq<NodeResult>, b: seq<NodeResult>, i: nat)
    requires TopOf(candidates, limit, a) && TopOf(candidates, limit, b)
    requires i < |a| && a[..i] == b[..i] && a[i] != b[i]
    ensures !RanksBefore(a[i], b[i])
  {
    assert a[i] in a && b[i] in b;
    RankAsymmetric(a[i], b[i]);
    RankAsymmetric(a[i], a[i]);
    forall k | 0 <= k < |b| ensures b[k] == a[i] ==> RanksBefore(b[i], a[i]) || RanksBefore(a[i], a[i])
    {
      if k < i { assert a[..i][k] == b[..i][k]; }
    }
    assert a[i] !in b ==> RanksBefore(b[i], a[i]);
  }

  // ---------------------------------------------------------------- query_graph

  /** The candidates: scored nodes that exist and pass the filters, in id order. */
  ghost function Candidates(scores: map<string, Entry>, nodes: map<string, Node>, keep: Node -> bool, ids: seq<string>)
    : seq<NodeResult>
    requires forall id :: id in ids ==> id in scores
  {
    if ids == [] then []
    else
      var id := ids[|ids| - 1];
      var before := Candidates(scores, nodes, keep, ids[..|ids| - 1]);
      if id in nodes && keep(nodes[id])
      then before + [NodeResult(nodes[id], scores[id].score, scores[id].depth, scores[id].reasons)] else before
  }

  lemma {:induction false} CandidatesExact(scores: map<string, Entry>, nodes: map<string, Node>, keep: Node -> bool,
                                           ids: seq<string>)
    requires (forall id :: id in ids ==> id in scores) && StrictlySorted(ids)
    requires forall id :: id in nodes ==> nodes[id].id == id
    ensures DistinctIds(Candidates(scores, nodes, keep, ids))
    ensures forall r :: r in Candidates(scores, nodes, keep, ids) <==>
              && r.node.id in ids && r.node.id in nodes && r.node == nodes[r.node.id] && keep(r.node)
              && Entry(r.score, r.depth, r.reasons) == scores[r.node.id]
  {
    if ids != [] {
      var n := |ids| - 1;
      CandidatesExact(scores, nodes, keep, ids[..n]);
      SnocMembers(ids);
      assert ids[n] !in ids[..n];
    }
  }

  /** The answer to a query. */
  datatype Answer = Answer(seedIds: seq<string>, nodes: seq<NodeResult>, edges: seq<Edge>)

  /** The edges between kept nodes whose type is wanted, in their order in the index. */
  function KeptEdges(edges: seq<Edge>, included: set<string>, types: seq<string>): seq<Edge>
  {
    if edges == [] then []
    else
      var e := edges[|edges| - 1];
      var before := KeptEdges(edges[..|edges| - 1], included, types);
      if e.source in included && e.target in included && (types == [] || e.kind in types) then before + [e] else before
  }

  lemma {:induction false} KeptEdgesExact(edges: seq<Edge>, included: set<string>, types: seq<string>)
    ensures forall e :: e in KeptEdges(edges, included, types) <==>
              e in edges && e.source in included && e.target in included && (types == [] || e.kind in types)
  {
    if edges != [] {
      KeptEdgesExact(edges[..|edges| - 1], included, types);
      SnocMembers(edges);
    }
  }

  /** In the order of the index, and as often. */
  lemma {:induction false} KeptEdgesInOrder(edges: seq<Edge>, included: set<string>, types: seq<string>)
    ensures FiltersTo(edges, Between(included, types), KeptEdges(edges, included, types))
  {
    if edges == [] {
      FiltersEmpty(Between(included, types));
    } else {
      KeptEdgesInOrder(edges[..|edges| - 1], included, types);
      FiltersSnoc(edges, Between(included, types), KeptEdges(edges[..|edges| - 1], included, types));
    }
  }

  ghost function Between(included: set<string>, types: seq<string>): Edge -> bool
  {
    (e: Edge) => e.source in included && e.target in included && (types == [] || e.kind in types)
  }

  method FilterEdges(edges: seq<Edge>, included: set<string>, types: seq<string>) returns (kept: seq<Edge>)
    ensures kept == KeptEdges(edges, included, types)
  {
    kept := [];
    var i := 0;
    while i < |edges|
      invariant 0 <= i <= |edges|
      invariant kept == KeptEdges(edges[..i], included, types)
    {
      assert edges[..i + 1][..i] == edges[..i];
      var e := edges[i];
      if e.source in included && e.target in included && (types == [] || e.kind in types) {
        kept := kept + [e];
      }
      i := i + 1;
    }
    assert edges[..|edges|] == edges;
  }

  ghost function AllCandidates(scores: map<string, Entry>, nodes: map<string, Node>, keep: Node -> bool)
    : seq<NodeResult>
  {
    assert forall id :: id in SortedKeys(scores.Keys) <==> id in Elements(SortedKeys(scores.Keys));
    Candidates(scores, nodes, keep, SortedKeys(scores.Keys))
  }

  /** A candidate is a scored node that passes the filters, once, with its score. */
  lemma AllCandidatesExact(scores: map<string, Entry>, nodes: map<string, Node>, keep: Node -> bool)
    requires forall id :: id in nodes ==> nodes[id].id == id
    ensures DistinctIds(AllCandidates(scores, nodes, keep))
    ensures forall r :: r in AllCandidates(scores, nodes, keep) <==>
              && r.node.id in scores && r.node.id in nodes && r.node == nodes[r.node.id] && keep(r.node)
              && Entry(r.score, r.depth, r.reasons) == scores[r.node.id]
  {
    var ids := SortedKeys(scores.Keys);
    assert forall id :: id in ids <==> id in Elements(ids);
    CandidatesExact(scores, nodes, keep, ids);
  }

  /** Collect, filter, sort and truncate. */
  method RankNodes(scores: map<string, Entry>, nodes: map<string, Node>, keep: Node -> bool, limit: nat)
    returns (top: seq<NodeResult>)
    requires forall id :: id in nodes ==> nodes[id].id == id
    ensures TopOf(AllCandidates(scores, nodes, keep), limit, top)
  {
    var ids := ListKeys(scores.Keys);
    assert forall id :: id in ids <==> id in scores by { assert forall id :: id in ids <==> id in Elements(ids); }
    var found := Collect(scores, nodes, keep, ids);
    AllCandidatesExact(scores, nodes, keep);
    var ranked := Rank(found);
    TakeIsTop(found, ranked, limit);
    top := if |ranked| < limit then ranked else ranked[..limit];
  }

  method Collect(scores: map<string, Entry>, nodes: map<string, Node>, keep: Node -> bool, ids: seq<string>)
    returns (found: seq<NodeResult>)
    requires forall id :: id in ids ==> id in scores
    ensures found == Candidates(scores, nodes, keep, ids)
  {
    found := [];
    var i := 0;
    while i < |ids|
      invariant 0 <= i <= |ids|
      invariant found == Candidates(scores, nodes, keep, ids[..i])
    {
      assert ids[i] in ids;
      assert ids[..i + 1][..i] == ids[..i];
      if ids[i] in nodes && keep(nodes[ids[i]]) {
        var e := scores[ids[i]];
        found := found + [NodeResult(nodes[ids[i]], e.score, e.depth, e.reasons)];
      }
      i := i + 1;
    }
    assert ids[..|ids|] == ids;
  }

  /** `query_graph`: `hits` is what the lexical search found, `keep` the path, where and type filters. */
  method QueryGraph(nodes: map<string, Node>, edges: seq<Edge>, relations: seq<string>, seeds: seq<string>,
                    depthOption: Option<nat>, limitOption: Option<nat>, hits: seq<(string, real)>,
                    keep: Node -> bool, edgeTypes: seq<string>)
    returns (answer: Answer, ghost seeded: map<string, Entry>, ghost scores: map<string, Entry>)
    requires forall id :: id in nodes ==> nodes[id].id == id
    ensures SeededScores(Links(edges, relations), KnownSeeds(seeds, nodes), Depth(depthOption), seeded)
    ensures HitsAdded(seeded, hits, scores)
    ensures TopOf(AllCandidates(scores, nodes, keep), Limit(limitOption), answer.nodes)
    ensures forall id :: id in seeds && id in nodes ==> id in seeded && seeded[id] == Entry(100.0, 0, ["seed"])
    ensures answer.seedIds == SeedIdsWith(KnownSeeds(seeds, nodes), hits)
    ensures forall id :: id in seeds && id in nodes ==> id in answer.seedIds
    ensures answer.edges == KeptEdges(edges, set r | r in answer.nodes :: r.node.id, edgeTypes)
  {
    var seedIds, base := ScoreSeeds(edges, relations, nodes, seeds, Depth(depthOption));
    var all;
    all, seedIds := AddHits(base, hits, seedIds);
    var top := RankNodes(all, nodes, keep, Limit(limitOption));
    var kept := FilterEdges(edges, set r | r in top :: r.node.id, edgeTypes);
    answer := Answer(seedIds, top, kept);
    seeded, scores := base, all;
    GivenSeedsAnswered(seeds, nodes, hits);
  }
}
