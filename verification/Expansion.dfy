/** The depth-bounded expansion of crates/treedx_graph/src/query/mod.rs. */
module Expansion {
  import opened Wrappers

  datatype Edge = Edge(kind: string, source: string, target: string)

  /** What the score map keeps for a node. */
  datatype Entry = Entry(score: real, depth: nat, reasons: seq<string>)

  function RelationAllows(relation: string, kind: string): bool
  {
    match relation
    case "related" => kind in {"LINKS_TO", "HAS_GROUP", "EFFECTIVE_GROUP", "IN_SERIES", "SAME_DIRECTORY"}
    case "references" => kind in {"LINKS_TO", "REFERENCES"}
    case "parent" => kind == "PARENT_SECTION"
    case "child" => kind == "CHILD_SECTION"
    case "depends_on" => kind == "DEPENDS_ON"
    case "implements" => kind == "IMPLEMENTS"
    case "supersedes" => kind == "SUPERSEDES"
    case _ => false
  }

  predicate RelationAllowed(kind: string, relations: seq<string>)
  {
    exists r :: r in relations && RelationAllows(r, kind)
  }

  /** No relations asked for means every edge counts. */
  predicate Followed(e: Edge, relations: seq<string>)
  {
    relations == [] || RelationAllowed(e.kind, relations)
  }

  /** The edges the expansion may walk. */
  function Links(edges: seq<Edge>, relations: seq<string>): set<Edge>
  {
    set e | e in edges && Followed(e, relations)
  }

  // ---------------------------------------------------------------- distance

  /** The edge joins a and b, in either direction. */
  predicate Joins(e: Edge, a: string, b: string)
  {
    (e.source == a && e.target == b) || (e.target == a && e.source == b)
  }

  ghost predicate Adjacent(links: set<Edge>, a: string, b: string)
  {
    exists e :: e in links && Joins(e, a, b)
  }

  function Ends(links: set<Edge>): set<string>
  {
    (set e | e in links :: e.source) + (set e | e in links :: e.target)
  }

  lemma AdjacentIsEnd(links: set<Edge>, a: string, b: string)
    requires Adjacent(links, a, b)
    ensures b in Ends(links)
  {
    var e :| e in links && Joins(e, a, b);
  }

  /** The nodes within n steps of the seed. */
  ghost function Ball(links: set<Edge>, seed: string, n: nat): set<string>
  {
    if n == 0 then {seed}
    else Ball(links, seed, n - 1) + Around(links, Ball(links, seed, n - 1))
  }

  /** The nodes next to one of these. */
  ghost function Around(links: set<Edge>, nodes: set<string>): set<string>
  {
    set v | v in Ends(links) && exists u :: u in nodes && Adjacent(links, u, v)
  }

  /** d is the length of a shortest way from the seed to v. */
  ghost predicate DistanceIs(links: set<Edge>, seed: string, v: string, d: nat)
  {
    v in Ball(links, seed, d) && (d == 0 || v !in Ball(links, seed, d - 1))
  }

  ghost predicate Walk(links: set<Edge>, path: seq<string>)
  {
    path != [] && forall i :: 0 <= i < |path| - 1 ==> Adjacent(links, path[i], path[i + 1])
  }

  lemma {:induction false} BallHoldsWalks(links: set<Edge>, path: seq<string>, n: nat)
    requires Walk(links, path) && |path| <= n + 1
    ensures path[|path| - 1] in Ball(links, path[0], n)
    decreases n
  {
    if |path| <= n {
      BallHoldsWalks(links, path, n - 1);
    } else if n > 0 {
      var init := path[..|path| - 1];
      BallHoldsWalks(links, init, n - 1);
      assert Adjacent(links, path[|path| - 2], path[|path| - 1]);
      AdjacentIsEnd(links, path[|path| - 2], path[|path| - 1]);
      assert init[|init| - 1] == path[|path| - 2];
    }
  }

  lemma WalkSnoc(links: set<Edge>, path: seq<string>, v: string)
    requires Walk(links, path) && Adjacent(links, path[|path| - 1], v)
    ensures Walk(links, path + [v])
  {
  }

  lemma {:induction false} WalkInBall(links: set<Edge>, seed: string, v: string, n: nat)
    returns (path: seq<string>)
    requires v in Ball(links, seed, n)
    ensures Walk(links, path) && |path| <= n + 1 && path[0] == seed && path[|path| - 1] == v
    decreases n
  {
    if n == 0 {
      path := [seed];
    } else if v in Ball(links, seed, n - 1) {
      path := WalkInBall(links, seed, v, n - 1);
    } else {
      var u :| u in Ball(links, seed, n - 1) && Adjacent(links, u, v);
      var init := WalkInBall(links, seed, u, n - 1);
      WalkSnoc(links, init, v);
      path := init + [v];
    }
  }

  /** A node lies in the ball exactly when a way of at most n edges leads to it. */
  lemma BallIffWalk(links: set<Edge>, seed: string, v: string, n: nat)
    ensures v in Ball(links, seed, n) <==>
            exists path :: Walk(links, path) && |path| <= n + 1 && path[0] == seed && path[|path| - 1] == v
  {
    if v in Ball(links, seed, n) {
      var path := WalkInBall(links, seed, v, n);
    }
    if exists path :: Walk(links, path) && |path| <= n + 1 && path[0] == seed && path[|path| - 1] == v {
      var path :| Walk(links, path) && |path| <= n + 1 && path[0] == seed && path[|path| - 1] == v;
      BallHoldsWalks(links, path, n);
    }
  }

  lemma {:induction false} BallGrows(links: set<Edge>, seed: string, m: nat, n: nat)
    requires m <= n
    ensures Ball(links, seed, m) <= Ball(links, seed, n)
  {
    if m < n { BallGrows(links, seed, m, n - 1); }
  }

  lemma NearerThan(links: set<Edge>, seed: string, v: string, d: nat, n: nat)
    requires DistanceIs(links, seed, v, d) && v in Ball(links, seed, n)
    ensures d <= n
  {
    if n < d { BallGrows(links, seed, n, d - 1); }
  }

  lemma DistanceUnique(links: set<Edge>, seed: string, v: string, d: nat, e: nat)
    requires DistanceIs(links, seed, v, d) && DistanceIs(links, seed, v, e)
    ensures d == e
  {
    NearerThan(links, seed, v, d, e);
    NearerThan(links, seed, v, e, d);
  }

  // ---------------------------------------------------------------- the expansion

  function Pow2(n: nat): (p: real)
    ensures p >= 1.0
  {
    if n == 0 then 1.0 else 2.0 * Pow2(n - 1)
  }

  function DepthScore(depth: nat): real
  {
    100.0 / Pow2(depth)
  }

  /** A node next to the seed scores half of it, and each further step halves the score again. */
  lemma ScoreHalves(depth: nat)
    ensures DepthScore(0) == 100.0 && 2.0 * DepthScore(depth + 1) == DepthScore(depth)
  {
  }

  /** `near(v, n)` says that v lies within n steps of the seed; the loop is proved for any such relation
      it is handed, and this says which one that is. */
  ghost predicate IsNear(links: set<Edge>, seed: string, near: (string, nat) -> bool)
  {
    forall v, n: nat {:trigger v in Ball(links, seed, n)} :: near(v, n) <==> v in Ball(links, seed, n)
  }

  ghost predicate Exact(near: (string, nat) -> bool, v: string, d: nat)
  {
    near(v, d) && (d == 0 || !near(v, d - 1))
  }

  lemma ExactIsDistance(links: set<Edge>, seed: string, near: (string, nat) -> bool, v: string, d: nat)
    requires IsNear(links, seed, near)
    ensures Exact(near, v, d) <==> DistanceIs(links, seed, v, d)
  {
  }

  /** An entry made by the expansion: the true distance, its score, and an edge of a shortest way. */
  ghost predicate Discovered(links: set<Edge>, near: (string, nat) -> bool, v: string, entry: Entry)
  {
    && entry.depth > 0 && Exact(near, v, entry.depth)
    && entry.score == DepthScore(entry.depth)
    && exists e, u :: LastEdge(links, near, v, entry, e, u)
  }

  ghost predicate LastEdge(links: set<Edge>, near: (string, nat) -> bool, v: string, entry: Entry, e: Edge, u: string)
    requires entry.depth > 0
  {
    e in links && Joins(e, u, v) && entry.reasons == ["edge:" + e.kind] && Exact(near, u, entry.depth - 1)
  }

  /** What `expand` has put into the score map once it has seen these nodes. */
  ghost predicate Scored(links: set<Edge>, near: (string, nat) -> bool, seed: string, before: map<string, Entry>,
                         scores: map<string, Entry>, seen: set<string>)
  {
    && (forall v :: v in scores <==> v in before || (v in seen && v != seed))
    && (forall v :: v in before ==> scores[v] == before[v])
    && (forall v :: v in scores && v !in before ==> Discovered(links, near, v, scores[v]))
  }

  /** Depths are true distances. */
  ghost predicate Measured(near: (string, nat) -> bool, seed: string, dist: map<string, nat>, maxDepth: nat)
  {
    && seed in dist && dist[seed] == 0
    && forall v :: v in dist ==> Exact(near, v, dist[v]) && dist[v] <= maxDepth
  }

  /** The queue is ordered by depth and spans at most two depths. */
  ghost predicate Layered(queue: seq<(string, nat)>, dist: map<string, nat>, low: nat)
  {
    && (forall i :: 0 <= i < |queue| ==>
          queue[i].0 in dist && dist[queue[i].0] == queue[i].1 && low <= queue[i].1 <= low + 1)
    && (forall i, j :: 0 <= i < j < |queue| ==> queue[i].1 <= queue[j].1)
  }

  /** v is at the depth limit, or every neighbour of v has been seen. */
  ghost predicate Explored(links: set<Edge>, dist: map<string, nat>, maxDepth: nat, v: string)
    requires v in dist
  {
    dist[v] >= maxDepth || forall e, w :: e in links && Joins(e, v, w) ==> w in dist
  }

  ghost predicate Waiting(queue: seq<(string, nat)>, v: string)
  {
    exists i :: 0 <= i < |queue| && queue[i].0 == v
  }

  ghost predicate AllExplored(links: set<Edge>, dist: map<string, nat>, maxDepth: nat,
                              queue: seq<(string, nat)>, current: Option<string>)
  {
    forall v :: v in dist ==> Waiting(queue, v) || current == Some(v) || Explored(links, dist, maxDepth, v)
  }

  /** Everything within n steps has been seen. */
  ghost predicate AllSeen(near: (string, nat) -> bool, n: nat, dist: map<string, nat>)
  {
    forall v :: near(v, n) ==> v in dist
  }

  /** The ends of the walked edges have been seen. */
  ghost predicate Walked(walked: set<Edge>, current: string, dist: map<string, nat>)
  {
    forall e, w :: e in walked && Joins(e, current, w) ==> w in dist
  }

  /** The state between two turns of the outer loop. */
  ghost predicate Frontier(links: set<Edge>, near: (string, nat) -> bool, seed: string, maxDepth: nat,
                           dist: map<string, nat>, queue: seq<(string, nat)>)
  {
    && Measured(near, seed, dist, maxDepth)
    && (queue != [] ==> Layered(queue, dist, queue[0].1))
    && AllExplored(links, dist, maxDepth, queue, None)
  }

  /** The state while the edges at `current` are walked. */
  ghost predicate Turning(links: set<Edge>, near: (string, nat) -> bool, seed: string, maxDepth: nat,
                          dist: map<string, nat>, queue: seq<(string, nat)>, current: string, depth: nat,
                          walked: set<Edge>)
  {
    && Measured(near, seed, dist, maxDepth)
    && current in dist && dist[current] == depth < maxDepth
    && Layered(queue, dist, depth)
    && AllExplored(links, dist, maxDepth, queue, Some(current))
    && AllSeen(near, depth, dist)
    && Walked(walked, current, dist)
  }

  // ---- facts about balls, handed over through `near`

  lemma NearStep(links: set<Edge>, seed: string, near: (string, nat) -> bool, e: Edge, u: string, v: string, n: nat)
    requires IsNear(links, seed, near) && near(u, n) && e in links && Joins(e, u, v)
    ensures near(v, n + 1)
  {
    assert near(u, n) <==> u in Ball(links, seed, n);
    assert near(v, n + 1) <==> v in Ball(links, seed, n + 1);
    assert Adjacent(links, u, v);
    AdjacentIsEnd(links, u, v);
  }

  lemma NearBack(links: set<Edge>, seed: string, near: (string, nat) -> bool, v: string, n: nat)
    returns (e: Edge, u: string)
    requires IsNear(links, seed, near) && near(v, n + 1) && !near(v, n)
    ensures near(u, n) && e in links && Joins(e, u, v)
  {
    assert near(v, n + 1) <==> v in Ball(links, seed, n + 1);
    assert near(v, n) <==> v in Ball(links, seed, n);
    u :| u in Ball(links, seed, n) && Adjacent(links, u, v);
    e :| e in links && Joins(e, u, v);
  }

  lemma NearSeed(links: set<Edge>, seed: string, near: (string, nat) -> bool)
    requires IsNear(links, seed, near)
    ensures forall v :: near(v, 0) <==> v == seed
  {
    forall v ensures near(v, 0) <==> v == seed { assert near(v, 0) <==> v in Ball(links, seed, 0); }
  }

  lemma NearGrows(links: set<Edge>, seed: string, near: (string, nat) -> bool, v: string, m: nat, n: nat)
    requires IsNear(links, seed, near) && near(v, m) && m <= n
    ensures near(v, n)
  {
    BallGrows(links, seed, m, n);
    assert near(v, m) <==> v in Ball(links, seed, m);
    assert near(v, n) <==> v in Ball(links, seed, n);
  }

  /** If every seen node nearer than n has its neighbours seen, everything within n steps is seen. */
  lemma {:induction false} BallSeen(links: set<Edge>, seed: string, near: (string, nat) -> bool,
                                    dist: map<string, nat>, maxDepth: nat, n: nat)
    requires IsNear(links, seed, near) && Measured(near, seed, dist, maxDepth) && n <= maxDepth
    requires forall v :: v in dist && dist[v] < n ==> Explored(links, dist, maxDepth, v)
    ensures AllSeen(near, n, dist)
  {
    NearSeed(links, seed, near);
    if n > 0 {
      BallSeen(links, seed, near, dist, maxDepth, n - 1);
      forall v | near(v, n) ensures v in dist
      {
        if !near(v, n - 1) {
          var e, u := NearBack(links, seed, near, v, n - 1);
          if n - 1 < dist[u] { NearGrows(links, seed, near, u, n - 1, dist[u] - 1); }
        }
      }
    }
  }

  // ---- the turns

  lemma Popped(queue: seq<(string, nat)>, v: string)
    requires queue != []
    ensures Waiting(queue, v) <==> queue[0].0 == v || Waiting(queue[1..], v)
  {
    if Waiting(queue, v) && queue[0].0 != v {
      var i :| 0 <= i < |queue| && queue[i].0 == v;
      assert queue[1..][i - 1].0 == v;
    }
    if Waiting(queue[1..], v) {
      var i :| 0 <= i < |queue| - 1 && queue[1..][i].0 == v;
      assert queue[i + 1].0 == v;
    }
  }

  lemma WaitingIsDeep(queue: seq<(string, nat)>, dist: map<string, nat>, low: nat, v: string)
    requires Layered(queue, dist, low) && v in dist
    ensures Waiting(queue, v) ==> dist[v] >= low
  {
  }

  lemma TurnStart(links: set<Edge>, near: (string, nat) -> bool, seed: string, maxDepth: nat,
                  dist: map<string, nat>, queue: seq<(string, nat)>)
    requires IsNear(links, seed, near)
    requires Frontier(links, near, seed, maxDepth, dist, queue) && queue != [] && queue[0].1 < maxDepth
    ensures Turning(links, near, seed, maxDepth, dist, queue[1..], queue[0].0, queue[0].1, {})
  {
    forall v | v in dist
      ensures Waiting(queue[1..], v) || Some(queue[0].0) == Some(v) || Explored(links, dist, maxDepth, v)
    {
      Popped(queue, v);
    }
    forall v | v in dist && dist[v] < queue[0].1 ensures Explored(links, dist, maxDepth, v)
    {
      WaitingIsDeep(queue, dist, queue[0].1, v);
    }
    BallSeen(links, seed, near, dist, maxDepth, queue[0].1);
  }

  lemma SkipTurn(links: set<Edge>, near: (string, nat) -> bool, seed: string, maxDepth: nat,
                 dist: map<string, nat>, queue: seq<(string, nat)>)
    requires Frontier(links, near, seed, maxDepth, dist, queue) && queue != [] && queue[0].1 >= maxDepth
    ensures Frontier(links, near, seed, maxDepth, dist, queue[1..])
  {
    assert dist[queue[0].0] == queue[0].1;
    forall v | v in dist ensures Waiting(queue[1..], v) || Explored(links, dist, maxDepth, v)
    {
      Popped(queue, v);
    }
  }

  lemma TurnEnd(links: set<Edge>, near: (string, nat) -> bool, seed: string, maxDepth: nat,
                dist: map<string, nat>, queue: seq<(string, nat)>, current: string, depth: nat)
    requires Turning(links, near, seed, maxDepth, dist, queue, current, depth, links)
    ensures Frontier(links, near, seed, maxDepth, dist, queue)
  {
    assert Explored(links, dist, maxDepth, current);
  }

  /** The node at the other end of an edge that touches `current`. */
  function OtherEnd(e: Edge, current: string): Option<string>
  {
    if e.source == current then Some(e.target)
    else if e.target == current then Some(e.source)
    else None
  }

  lemma OtherEndJoins(e: Edge, current: string)
    ensures forall w :: Joins(e, current, w) <==> OtherEnd(e, current) == Some(w)
  {
  }

  lemma WalkedAdd(walked: set<Edge>, current: string, dist: map<string, nat>, edge: Edge)
    requires Walked(walked, current, dist)
    requires OtherEnd(edge, current).None? || OtherEnd(edge, current).value in dist
    ensures Walked(walked + {edge}, current, dist)
  {
    OtherEndJoins(edge, current);
  }

  lemma AddExplored(links: set<Edge>, dist: map<string, nat>, maxDepth: nat, queue: seq<(string, nat)>,
                    current: string, next: string, depth: nat)
    requires AllExplored(links, dist, maxDepth, queue, Some(current)) && next !in dist
    ensures AllExplored(links, dist[next := depth], maxDepth, queue + [(next, depth)], Some(current))
  {
    var dist' := dist[next := depth];
    var queue' := queue + [(next, depth)];
    forall v | v in dist'
      ensures Waiting(queue', v) || Some(current) == Some(v) || Explored(links, dist', maxDepth, v)
    {
      if v == next {
        assert queue'[|queue|].0 == next;
      } else if Waiting(queue, v) {
        var i :| 0 <= i < |queue| && queue[i].0 == v;
        assert queue'[i].0 == v;
      }
    }
  }

  lemma TurnAdd(links: set<Edge>, near: (string, nat) -> bool, seed: string, maxDepth: nat, dist: map<string, nat>,
                queue: seq<(string, nat)>, current: string, depth: nat, walked: set<Edge>, edge: Edge, next: string)
    requires Turning(links, near, seed, maxDepth, dist, queue, current, depth, walked)
    requires near(next, depth + 1) && OtherEnd(edge, current) == Some(next) && next !in dist
    ensures Exact(near, next, depth + 1)
    ensures Turning(links, near, seed, maxDepth, dist[next := depth + 1], queue + [(next, depth + 1)],
                    current, depth, walked + {edge})
  {
    var dist' := dist[next := depth + 1];
    AddExplored(links, dist, maxDepth, queue, current, next, depth + 1);
    assert Walked(walked, current, dist');
    WalkedAdd(walked, current, dist', edge);
  }

  lemma LinksSnoc(edges: seq<Edge>, relations: seq<string>, k: nat)
    requires k < |edges|
    ensures Links(edges[..k + 1], relations) ==
            Links(edges[..k], relations) + (if Followed(edges[k], relations) then {edges[k]} else {})
    ensures Followed(edges[k], relations) ==> edges[k] in Links(edges, relations)
  {
    TakeSnoc(edges, k);
  }

  /** The inner loop: the edges at one node. */
  method Turn(edges: seq<Edge>, relations: seq<string>, ghost near: (string, nat) -> bool, ghost seed: string,
              ghost maxDepth: nat,
              current: string, depth: nat, queue: seq<(string, nat)>, seen: set<string>, scores: map<string, Entry>,
              ghost before: map<string, Entry>, ghost dist: map<string, nat>)
    returns (queue': seq<(string, nat)>, seen': set<string>, scores': map<string, Entry>, ghost dist': map<string, nat>)
    requires IsNear(Links(edges, relations), seed, near)
    requires Turning(Links(edges, relations), near, seed, maxDepth, dist, queue, current, depth, {})
             && dist.Keys == seen
    requires Scored(Links(edges, relations), near, seed, before, scores, seen)
    ensures Frontier(Links(edges, relations), near, seed, maxDepth, dist', queue') && dist'.Keys == seen'
    ensures Scored(Links(edges, relations), near, seed, before, scores', seen')
    ensures seen <= seen' <= seen + Ends(Links(edges, relations))
    ensures seen' == seen ==> queue' == queue
  {
    queue', seen', scores', dist' := queue, seen, scores, dist;
    ghost var links := Links(edges, relations);
    ghost var walked: set<Edge> := {};
    var k := 0;
    while k < |edges|
      invariant 0 <= k <= |edges| && walked == Links(edges[..k], relations)
      invariant Turning(links, near, seed, maxDepth, dist', queue', current, depth, walked) && dist'.Keys == seen'
      invariant Scored(links, near, seed, before, scores', seen')
      invariant seen <= seen' <= seen + Ends(links)
      invariant seen' == seen ==> queue' == queue
    {
      LinksSnoc(edges, relations, k);
      if Followed(edges[k], relations) {
        queue', seen', scores', dist' :=
          WalkEdge(edges[k], links, near, seed, maxDepth, current, depth, queue', seen', scores',
                   before, dist', walked);
        walked := walked + {edges[k]};
      }
      k := k + 1;
    }
    assert edges[..|edges|] == edges;
    TurnEnd(links, near, seed, maxDepth, dist', queue', current, depth);
  }

  /** One edge that may be walked. */
  method WalkEdge(edge: Edge, ghost links: set<Edge>, ghost near: (string, nat) -> bool, ghost seed: string,
                  ghost maxDepth: nat,
                  current: string, depth: nat, queue: seq<(string, nat)>, seen: set<string>, scores: map<string, Entry>,
                  ghost before: map<string, Entry>, ghost dist: map<string, nat>, ghost walked: set<Edge>)
    returns (queue': seq<(string, nat)>, seen': set<string>, scores': map<string, Entry>, ghost dist': map<string, nat>)
    requires IsNear(links, seed, near) && edge in links
    requires Turning(links, near, seed, maxDepth, dist, queue, current, depth, walked) && dist.Keys == seen
    requires Scored(links, near, seed, before, scores, seen)
    ensures Turning(links, near, seed, maxDepth, dist', queue', current, depth, walked + {edge}) && dist'.Keys == seen'
    ensures Scored(links, near, seed, before, scores', seen')
    ensures seen <= seen' <= seen + Ends(links)
    ensures seen' == seen ==> queue' == queue
  {
    queue', seen', scores', dist' := queue, seen, scores, dist;
    var next := OtherEnd(edge, current);
    if next.Some? && next.value !in seen {
      OtherEndJoins(edge, current);
      NearStep(links, seed, near, edge, current, next.value, depth);
      TurnAdd(links, near, seed, maxDepth, dist, queue, current, depth, walked, edge, next.value);
      scores' := AddScore(links, near, seed, before, scores, seen, edge, current, next.value, depth);
      queue' := queue + [(next.value, depth + 1)];
      seen', dist' := seen + {next.value}, dist[next.value := depth + 1];
    } else {
      WalkedAdd(walked, current, dist, edge);
    }
  }

  /** `scores.entry(next).or_insert(...)`. */
  method AddScore(ghost links: set<Edge>, ghost near: (string, nat) -> bool, ghost seed: string,
                  ghost before: map<string, Entry>,
                  scores: map<string, Entry>, ghost seen: set<string>, edge: Edge, ghost current: string, next: string,
                  depth: nat)
    returns (scores': map<string, Entry>)
    requires Scored(links, near, seed, before, scores, seen) && next !in seen && seed in seen
    requires edge in links && Joins(edge, current, next)
    requires Exact(near, current, depth) && Exact(near, next, depth + 1)
    ensures Scored(links, near, seed, before, scores', seen + {next})
  {
    var entry := Entry(DepthScore(depth + 1), depth + 1, ["edge:" + edge.kind]);
    assert LastEdge(links, near, next, entry, edge, current);
    scores' := if next in scores then scores else scores[next := entry];
    ScoredAdd(links, near, seed, before, scores, seen, next, entry);
  }

  lemma ScoredAdd(links: set<Edge>, near: (string, nat) -> bool, seed: string, before: map<string, Entry>,
                  scores: map<string, Entry>, seen: set<string>, next: string, entry: Entry)
    requires Scored(links, near, seed, before, scores, seen) && next !in seen && next != seed
    requires Discovered(links, near, next, entry)
    ensures Scored(links, near, seed, before, if next in scores then scores else scores[next := entry], seen + {next})
  {
  }

  ghost function Near(links: set<Edge>, seed: string): (near: (string, nat) -> bool)
    ensures IsNear(links, seed, near)
  {
    (v: string, n: nat) => v in Ball(links, seed, n)
  }

  /** `expand`: old entries stay, and the new ones are exactly the other nodes within reach,
      each with its distance from the seed. */
  method Expand(edges: seq<Edge>, relations: seq<string>, seed: string, maxDepth: nat, scores: map<string, Entry>)
    returns (scores': map<string, Entry>)
    ensures ExpandedTo(Links(edges, relations), seed, maxDepth, scores, scores')
  {
    scores' := scores;
    ghost var links := Links(edges, relations);
    ghost var near := Near(links, seed);
    var queue: seq<(string, nat)> := [(seed, 0)];
    var seen := {seed};
    ghost var dist: map<string, nat> := map[seed := 0];
    ghost var universe := Ends(links) + {seed};
    StartFrontier(links, near, seed, maxDepth);
    while queue != []
      invariant Frontier(links, near, seed, maxDepth, dist, queue) && dist.Keys == seen
      invariant Scored(links, near, seed, scores, scores', seen)
      invariant seen <= universe
      decreases universe - seen, |queue|
    {
      var (current, depth) := queue[0];
      if depth >= maxDepth {
        SkipTurn(links, near, seed, maxDepth, dist, queue);
        queue := queue[1..];
      } else {
        TurnStart(links, near, seed, maxDepth, dist, queue);
        ghost var was := seen;
        queue, seen, scores', dist :=
          Turn(edges, relations, near, seed, maxDepth, current, depth, queue[1..], seen, scores', scores, dist);
        LeftShrinks(universe, was, seen);
      }
    }
    SeenIsBall(links, near, seed, maxDepth, dist);
    ScoredIsExpanded(links, near, seed, maxDepth, scores, scores', seen);
  }

  lemma LeftShrinks(universe: set<string>, before: set<string>, after: set<string>)
    requires before <= after <= universe
    ensures after == before || universe - after < universe - before
  {
    if after != before {
      var x :| x in after && x !in before;
      assert x in universe - before && x !in universe - after;
    }
  }

  lemma StartFrontier(links: set<Edge>, near: (string, nat) -> bool, seed: string, maxDepth: nat)
    requires IsNear(links, seed, near)
    ensures Frontier(links, near, seed, maxDepth, map[seed := 0], [(seed, 0)])
  {
    NearSeed(links, seed, near);
    assert [(seed, 0)][0].0 == seed;
    assert Waiting([(seed, 0)], seed);
  }

  lemma SeenIsBall(links: set<Edge>, near: (string, nat) -> bool, seed: string, maxDepth: nat, dist: map<string, nat>)
    requires IsNear(links, seed, near) && Frontier(links, near, seed, maxDepth, dist, [])
    ensures dist.Keys == Ball(links, seed, maxDepth)
  {
    BallSeen(links, seed, near, dist, maxDepth, maxDepth);
    forall v ensures v in dist <==> v in Ball(links, seed, maxDepth)
    {
      assert near(v, maxDepth) <==> v in Ball(links, seed, maxDepth);
      if v in dist { NearGrows(links, seed, near, v, dist[v], maxDepth); }
    }
  }

  // ---------------------------------------------------------------- its result, in terms of distances

  /** The entry of a node found at its distance d >= 1 from the seed, over the last edge of a shortest way. */
  ghost predicate FoundAt(links: set<Edge>, seed: string, v: string, entry: Entry)
  {
    && entry.depth > 0 && DistanceIs(links, seed, v, entry.depth)
    && entry.score == DepthScore(entry.depth)
    && exists e, u :: e in links && Joins(e, u, v) && entry.reasons == ["edge:" + e.kind]
         && DistanceIs(links, seed, u, entry.depth - 1)
  }

  ghost predicate ExpandedTo(links: set<Edge>, seed: string, maxDepth: nat, before: map<string, Entry>,
                             after: map<string, Entry>)
  {
    && (forall v :: v in after <==> v in before || (v in Ball(links, seed, maxDepth) && v != seed))
    && (forall v :: v in before ==> after[v] == before[v])
    && (forall v :: v in after && v !in before ==> FoundAt(links, seed, v, after[v]))
  }

  lemma DiscoveredIsFound(links: set<Edge>, near: (string, nat) -> bool, seed: string, v: string, entry: Entry)
    requires IsNear(links, seed, near) && Discovered(links, near, v, entry)
    ensures FoundAt(links, seed, v, entry)
  {
    ExactIsDistance(links, seed, near, v, entry.depth);
    var e, u :| LastEdge(links, near, v, entry, e, u);
    ExactIsDistance(links, seed, near, u, entry.depth - 1);
  }

  lemma ScoredIsExpanded(links: set<Edge>, near: (string, nat) -> bool, seed: string, maxDepth: nat,
                         before: map<string, Entry>, after: map<string, Entry>, seen: set<string>)
    requires IsNear(links, seed, near) && Scored(links, near, seed, before, after, seen)
    requires seen == Ball(links, seed, maxDepth)
    ensures ExpandedTo(links, seed, maxDepth, before, after)
  {
    forall v | v in after && v !in before ensures FoundAt(links, seed, v, after[v])
    {
      DiscoveredIsFound(links, near, seed, v, after[v]);
    }
  }

  /** A way of exactly d edges that no shorter one replaces. */
  ghost predicate ShortestWay(links: set<Edge>, path: seq<string>, seed: string, v: string, d: nat)
  {
    && Walk(links, path) && |path| == d + 1 && path[0] == seed && path[d] == v
    && forall other :: Walk(links, other) && other[0] == seed && other[|other| - 1] == v ==> |other| >= |path|
  }

  lemma NoShorterWay(links: set<Edge>, seed: string, v: string, d: nat, other: seq<string>)
    requires DistanceIs(links, seed, v, d)
    requires Walk(links, other) && other[0] == seed && other[|other| - 1] == v
    ensures |other| >= d + 1
  {
    if d > 0 && |other| <= d { BallHoldsWalks(links, other, d - 1); }
  }

  lemma DistanceWay(links: set<Edge>, seed: string, v: string, d: nat) returns (path: seq<string>)
    requires DistanceIs(links, seed, v, d)
    ensures ShortestWay(links, path, seed, v, d)
  {
    path := WalkInBall(links, seed, v, d);
    NoShorterWay(links, seed, v, d, path);
    forall other | Walk(links, other) && other[0] == seed && other[|other| - 1] == v ensures |other| >= d + 1
    {
      NoShorterWay(links, seed, v, d, other);
    }
  }

  lemma FirstScores()
    ensures DepthScore(1) == 50.0 && DepthScore(2) == 25.0 && DepthScore(3) == 12.5
  {
    ScoreHalves(0);
    ScoreHalves(1);
    ScoreHalves(2);
  }

  /** What an expansion adds to the scores: a node at the end of a shortest way from the seed, with the length of that
      way and the score for it. */
  lemma NewEntryReads(links: set<Edge>, seed: string, maxDepth: nat, before: map<string, Entry>,
                      after: map<string, Entry>, v: string) returns (path: seq<string>)
    requires ExpandedTo(links, seed, maxDepth, before, after) && v in after && v !in before
    ensures 1 <= after[v].depth && ShortestWay(links, path, seed, v, after[v].depth)
    ensures after[v].score == DepthScore(after[v].depth)
  {
    assert FoundAt(links, seed, v, after[v]);
    path := DistanceWay(links, seed, v, after[v].depth);
  }

  /** Its one reason is an edge to it from a node one step nearer to the seed. */
  lemma NewEntryReason(links: set<Edge>, seed: string, maxDepth: nat, before: map<string, Entry>,
                       after: map<string, Entry>, v: string) returns (e: Edge, u: string)
    requires ExpandedTo(links, seed, maxDepth, before, after) && v in after && v !in before
    ensures e in links && after[v].reasons == ["edge:" + e.kind]
    ensures (e.source == u && e.target == v) || (e.target == u && e.source == v)
    ensures after[v].depth > 0 && DistanceIs(links, seed, u, after[v].depth - 1)
  {
    assert FoundAt(links, seed, v, after[v]);
    e, u :| e in links && Joins(e, u, v) && after[v].reasons == ["edge:" + e.kind]
      && DistanceIs(links, seed, u, after[v].depth - 1);
  }

  /** Which edges a relation follows. */
  lemma RelationKinds(kind: string)
    ensures RelationAllows("related", kind) <==>
            kind in ["LINKS_TO", "HAS_GROUP", "EFFECTIVE_GROUP", "IN_SERIES", "SAME_DIRECTORY"]
    ensures RelationAllows("references", kind) <==> kind in ["LINKS_TO", "REFERENCES"]
    ensures RelationAllows("parent", kind) <==> kind == "PARENT_SECTION"
    ensures RelationAllows("child", kind) <==> kind == "CHILD_SECTION"
    ensures RelationAllows("depends_on", kind) <==> kind == "DEPENDS_ON"
    ensures RelationAllows("implements", kind) <==> kind == "IMPLEMENTS"
    ensures RelationAllows("supersedes", kind) <==> kind == "SUPERSEDES"
  {
  }
}
