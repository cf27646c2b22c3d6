/** The distance a node carries when a query has several seeds: that of the first seed that reaches it. */
module Nearest {
  import opened Wrappers
  import opened Ordering
  import opened Expansion
  import opened Query

  /** Whether v lies within n steps of a seed. */
  ghost function Within(links: set<Edge>, v: string): (string, nat) -> bool
  {
    (seed: string, n: nat) => v in Ball(links, seed, n)
  }

  /** d is the distance from the nearest of the seeds. */
  ghost predicate NearestIs(within: (string, nat) -> bool, seeds: seq<string>, d: nat)
  {
    && (exists j :: 0 <= j < |seeds| && within(seeds[j], d))
    && (d > 0 ==> forall j :: 0 <= j < |seeds| ==> !within(seeds[j], d - 1))
  }

  /** The entry of a node that is no seed carries the distance from the first seed that reaches it. */
  lemma DepthIsFirstSeeds(links: set<Edge>, seeds: seq<string>, maxDepth: nat, scores: map<string, Entry>, v: string,
                          i: nat, d: nat)
    requires SeededScores(links, seeds, maxDepth, scores) && v !in seeds
    requires FirstReaching(BallOf(links, maxDepth), seeds, v, i)
    ensures v in scores
    ensures scores[v].depth == d <==> DistanceIs(links, seeds[i], v, d)
  {
    assert Reached(BallOf(links, maxDepth), seeds, v) by { assert seeds[i] in seeds; }
    assert FoundOf(links)(seeds[i], v, scores[v]);
    if DistanceIs(links, seeds[i], v, d) { DistanceUnique(links, seeds[i], v, d, scores[v].depth); }
  }

  /** That is the distance from the nearest seed exactly when no later seed is nearer. */
  lemma NearestIff(links: set<Edge>, seeds: seq<string>, maxDepth: nat, scores: map<string, Entry>, v: string, i: nat)
    requires SeededScores(links, seeds, maxDepth, scores) && v in scores && v !in seeds
    requires FirstReaching(BallOf(links, maxDepth), seeds, v, i)
    ensures scores[v].depth > 0
    ensures NearestIs(Within(links, v), seeds, scores[v].depth) <==>
            forall j :: i < j < |seeds| ==> !Within(links, v)(seeds[j], scores[v].depth - 1)
  {
    var d := scores[v].depth;
    DepthIsFirstSeeds(links, seeds, maxDepth, scores, v, i, d);
    NearestOfFirst(links, seeds, maxDepth, v, i, d);
  }

  lemma FirstDistance(links: set<Edge>, seeds: seq<string>, maxDepth: nat, v: string, i: nat, d: nat)
    requires FirstReaching(BallOf(links, maxDepth), seeds, v, i) && v !in seeds && DistanceIs(links, seeds[i], v, d)
    ensures 0 < d <= maxDepth && Within(links, v)(seeds[i], d) && !Within(links, v)(seeds[i], d - 1)
  {
    assert seeds[i] in seeds && v in BallOf(links, maxDepth)(seeds[i]);
    NearerThan(links, seeds[i], v, d, maxDepth);
  }

  lemma EarlierIsFurther(links: set<Edge>, seeds: seq<string>, maxDepth: nat, v: string, i: nat, j: nat, n: nat)
    requires FirstReaching(BallOf(links, maxDepth), seeds, v, i) && j < i && n <= maxDepth
    ensures !Within(links, v)(seeds[j], n)
  {
    assert v !in BallOf(links, maxDepth)(seeds[j]);
    BallGrows(links, seeds[j], n, maxDepth);
  }

  lemma NearestOfFirst(links: set<Edge>, seeds: seq<string>, maxDepth: nat, v: string, i: nat, d: nat)
    requires FirstReaching(BallOf(links, maxDepth), seeds, v, i) && v !in seeds && DistanceIs(links, seeds[i], v, d)
    ensures d > 0
    ensures NearestIs(Within(links, v), seeds, d) <==>
            forall j :: i < j < |seeds| ==> !Within(links, v)(seeds[j], d - 1)
  {
    FirstDistance(links, seeds, maxDepth, v, i, d);
    forall j | 0 <= j < i ensures !Within(links, v)(seeds[j], d - 1)
    {
      EarlierIsFurther(links, seeds, maxDepth, v, i, j, d - 1);
    }
    NearestGiven(Within(links, v), seeds, i, d);
  }

  lemma NearestGiven(within: (string, nat) -> bool, seeds: seq<string>, i: nat, d: nat)
    requires i < |seeds| && d > 0 && within(seeds[i], d) && !within(seeds[i], d - 1)
    requires forall j :: 0 <= j < i ==> !within(seeds[j], d - 1)
    ensures NearestIs(within, seeds, d) <==> forall j :: i < j < |seeds| ==> !within(seeds[j], d - 1)
  {
  }

  // ---------------------------------------------------------------- over all graphs

  /** Not one of the relations asked for lets any edge be followed. */
  predicate FollowsNothing(relations: seq<string>)
  {
    relations != [] && forall r :: r in relations ==> r !in KNOWN_RELATIONS
  }

  const KNOWN_RELATIONS: set<string> :=
    {"related", "references", "parent", "child", "depends_on", "implements", "supersedes"}

  /** On every graph, every node that is no seed carries the distance from its nearest seed. */
  ghost predicate AlwaysNearest(relations: seq<string>, seeds: seq<string>, maxDepth: nat)
  {
    forall edges: seq<Edge>, v, i: nat, d: nat ::
      FirstReaching(BallOf(Links(edges, relations), maxDepth), seeds, v, i) && v !in seeds
        && DistanceIs(Links(edges, relations), seeds[i], v, d) ==>
      NearestIs(Within(Links(edges, relations), v), seeds, d)
  }

  predicate OneSeed(seeds: seq<string>)
  {
    forall s, t :: s in seeds && t in seeds ==> s == t
  }

  /** The kind of an edge that one of these relations follows. */
  lemma SomeKindFollowed(relations: seq<string>) returns (kind: string)
    requires !FollowsNothing(relations)
    ensures relations == [] || RelationAllowed(kind, relations)
  {
    kind := "";
    if relations != [] {
      var r :| r in relations && r in KNOWN_RELATIONS;
      kind := match r
        case "related" => "LINKS_TO"
        case "references" => "LINKS_TO"
        case "parent" => "PARENT_SECTION"
        case "child" => "CHILD_SECTION"
        case "depends_on" => "DEPENDS_ON"
        case "implements" => "IMPLEMENTS"
        case _ => "SUPERSEDES";
      assert RelationAllows(r, kind);
    }
  }

  lemma NothingFollowed(edges: seq<Edge>, relations: seq<string>)
    requires FollowsNothing(relations)
    ensures Links(edges, relations) == {}
  {
    forall e | e in edges ensures !Followed(e, relations)
    {
      forall r | r in relations ensures !RelationAllows(r, e.kind) { assert r !in KNOWN_RELATIONS; }
    }
  }

  /** Four nodes in a row: a, m, v and b. */
  function Row(kind: string, a: string, m: string, v: string, b: string): seq<Edge>
  {
    [Edge(kind, a, m), Edge(kind, m, v), Edge(kind, v, b)]
  }

  function RowSet(kind: string, a: string, m: string, v: string, b: string): set<Edge>
  {
    {Edge(kind, a, m), Edge(kind, m, v), Edge(kind, v, b)}
  }

  predicate AllDifferent(a: string, m: string, v: string, b: string)
  {
    a != m && a != v && a != b && m != v && m != b && v != b
  }

  /** In a row, v lies two steps from the one end and one from the other. */
  lemma RowDistances(links: set<Edge>, kind: string, a: string, m: string, v: string, b: string)
    requires links == RowSet(kind, a, m, v, b)
    requires AllDifferent(a, m, v, b)
    ensures DistanceIs(links, a, v, 2) && Within(links, v)(b, 1)
  {
    var am, mv, vb := Edge(kind, a, m), Edge(kind, m, v), Edge(kind, v, b);
    assert am in links && mv in links && vb in links;
    assert Joins(am, a, m) && Joins(mv, m, v) && Joins(vb, b, v);
    assert Adjacent(links, a, m) && Adjacent(links, m, v) && Adjacent(links, b, v);
    AdjacentIsEnd(links, a, m);
    AdjacentIsEnd(links, m, v);
    AdjacentIsEnd(links, b, v);
    assert a in Ball(links, a, 0) && b in Ball(links, b, 0);
    assert m in Ball(links, a, 1);
    assert !Adjacent(links, a, v);
    assert v !in Ball(links, a, 1);
    assert v in Around(links, Ball(links, a, 1));
  }

  lemma RowLinks(relations: seq<string>, kind: string, a: string, m: string, v: string, b: string)
    requires relations == [] || RelationAllowed(kind, relations)
    ensures Links(Row(kind, a, m, v, b), relations) == RowSet(kind, a, m, v, b)
  {
  }

  lemma {:induction false} EmptyBall(seed: string, n: nat)
    ensures Ball({}, seed, n) == {seed}
  {
    if n > 0 { EmptyBall(seed, n - 1); }
  }

  lemma Enough(relations: seq<string>, seeds: seq<string>, maxDepth: nat, edges: seq<Edge>, v: string, i: nat, d: nat)
    requires maxDepth <= 1 || OneSeed(seeds) || FollowsNothing(relations)
    requires FirstReaching(BallOf(Links(edges, relations), maxDepth), seeds, v, i) && v !in seeds
    requires DistanceIs(Links(edges, relations), seeds[i], v, d)
    ensures NearestIs(Within(Links(edges, relations), v), seeds, d)
  {
    var links := Links(edges, relations);
    FirstDistance(links, seeds, maxDepth, v, i, d);
    NearestOfFirst(links, seeds, maxDepth, v, i, d);
    forall j | i < j < |seeds| ensures !Within(links, v)(seeds[j], d - 1)
    {
      assert seeds[j] in seeds && seeds[i] in seeds;
      if FollowsNothing(relations) {
        NothingFollowed(edges, relations);
        EmptyBall(seeds[j], d - 1);
      } else if maxDepth <= 1 {
        assert Ball(links, seeds[j], 0) == {seeds[j]};
      }
    }
  }

  /** A row with the first seed at one end and a different seed at the other. */
  lemma RowIsNotNearest(relations: seq<string>, seeds: seq<string>, maxDepth: nat, k: nat)
    requires maxDepth > 1 && k < |seeds| && seeds[k] != seeds[0] && !FollowsNothing(relations)
    ensures !AlwaysNearest(relations, seeds, maxDepth)
  {
    var a, b := seeds[0], seeds[k];
    var m := LongerName(seeds);
    var v := m + "x";
    assert a in seeds && b in seeds && m !in seeds && v !in seeds;
    var kind := SomeKindFollowed(relations);
    var edges := Row(kind, a, m, v, b);
    var links := Links(edges, relations);
    RowLinks(relations, kind, a, m, v, b);
    RowDistances(links, kind, a, m, v, b);
    BallGrows(links, a, 2, maxDepth);
    assert FirstReaching(BallOf(links, maxDepth), seeds, v, 0);
    assert Within(links, v)(seeds[k], 1);
    assert !NearestIs(Within(links, v), seeds, 2);
  }

  /** The distance carried is the nearest one on every graph exactly when the depth is at most one, or there is at
      most one seed, or no edge can be followed at all. */
  lemma AlwaysNearestIff(relations: seq<string>, seeds: seq<string>, maxDepth: nat)
    ensures AlwaysNearest(relations, seeds, maxDepth) <==> maxDepth <= 1 || OneSeed(seeds) || FollowsNothing(relations)
  {
    if maxDepth <= 1 || OneSeed(seeds) || FollowsNothing(relations) {
      forall edges: seq<Edge>, v, i: nat, d: nat |
        FirstReaching(BallOf(Links(edges, relations), maxDepth), seeds, v, i) && v !in seeds
          && DistanceIs(Links(edges, relations), seeds[i], v, d)
        ensures NearestIs(Within(Links(edges, relations), v), seeds, d)
      {
        Enough(relations, seeds, maxDepth, edges, v, i, d);
      }
    } else {
      var k := OtherSeed(seeds);
      RowIsNotNearest(relations, seeds, maxDepth, k);
    }
  }

  lemma OtherSeed(seeds: seq<string>) returns (k: nat)
    requires !OneSeed(seeds)
    ensures k < |seeds| && seeds[k] != seeds[0]
  {
    var s, t :| s in seeds && t in seeds && s != t;
    var other := if s != seeds[0] then s else t;
    k :| k < |seeds| && seeds[k] == other;
  }

  lemma FirstOfTwo(links: set<Edge>, a: string, b: string, v: string, scores: map<string, Entry>)
    requires SeededScores(links, [a, b], 2, scores) && v !in [a, b] && DistanceIs(links, a, v, 2)
    ensures v in scores && scores[v].depth == 2
  {
    var seeds := [a, b];
    assert v in BallOf(links, 2)(a) && seeds[0] == a;
    assert FirstReaching(BallOf(links, 2), seeds, v, 0);
    DepthIsFirstSeeds(links, seeds, 2, scores, v, 0, 2);
  }

  /** With the seeds at the ends of the row a, m, v, b and depth 2, the node v carries 2, its distance from a,
      though it lies next to b. */
  lemma RowCarriesTwo(links: set<Edge>, a: string, m: string, v: string, b: string, scores: map<string, Entry>)
    requires links == RowSet("LINKS_TO", a, m, v, b)
    requires AllDifferent(a, m, v, b)
    requires SeededScores(links, [a, b], 2, scores)
    ensures v in scores && scores[v].depth == 2 && Within(links, v)(b, 1)
  {
    RowDistances(links, "LINKS_TO", a, m, v, b);
    FirstOfTwo(links, a, b, v, scores);
  }

  lemma FirstSeedIsNotNearest(scores: map<string, Entry>)
    requires SeededScores(Links(Row("LINKS_TO", "a", "m", "v", "b"), []), ["a", "b"], Depth(Some(2)), scores)
    ensures "v" in scores && scores["v"].depth == 2
    ensures Within(Links(Row("LINKS_TO", "a", "m", "v", "b"), []), "v")("b", 1)
  {
    RowLinks([], "LINKS_TO", "a", "m", "v", "b");
    RowCarriesTwo(Links(Row("LINKS_TO", "a", "m", "v", "b"), []), "a", "m", "v", "b", scores);
  }
}
