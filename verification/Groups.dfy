/** crates/treedx_graph/src/index/groups.rs: group membership inherited along propagating relations. */
module Groups {
  import opened Wrappers
  import opened Ordering
  import opened Text

  datatype Relationship = Relationship(
    from: string, to: string, predicateName: string, propagatesMembership: bool, ownerFileId: string)

  /** The fields of a `GraphNode` this pass looks at. */
  datatype Node = Node(
    id: string, nodeType: string, ownerFileId: Option<string>, groupIds: seq<string>, effectiveGroupIds: seq<string>)

  datatype Data = Relation(predicateName: string, propagatesMembership: bool) | Inherited

  datatype Edge = Edge(kind: string, source: string, target: string, owner: string, data: Data)

  // ---------------------------------------------------------------- reachability

  /** The groups that `group` passes its members on to, in one step. */
  function ParentsOf(rels: seq<Relationship>, group: string): set<string>
  {
    if rels == [] then {}
    else
      var r := rels[|rels| - 1];
      var before := ParentsOf(rels[..|rels| - 1], group);
      if r.propagatesMembership && GroupId(r.from) == group then before + {GroupId(r.to)} else before
  }

  ghost predicate Walk(rels: seq<Relationship>, path: seq<string>)
  {
    path != [] && forall i :: 0 <= i < |path| - 1 ==> path[i + 1] in ParentsOf(rels, path[i])
  }

  ghost predicate WalkFromTo(rels: seq<Relationship>, path: seq<string>, a: string, b: string)
  {
    Walk(rels, path) && path[0] == a && path[|path| - 1] == b
  }

  /** Membership in `a` reaches `b` along zero or more relations. */
  ghost predicate Reaches(rels: seq<Relationship>, a: string, b: string)
  {
    exists path :: WalkFromTo(rels, path, a, b)
  }

  /** Membership in `a` comes back to `a` along one or more relations. */
  ghost predicate OnCycle(rels: seq<Relationship>, a: string)
  {
    exists path :: WalkFromTo(rels, path, a, a) && |path| >= 2
  }

  lemma {:induction false} ParentsIff(rels: seq<Relationship>, group: string, parent: string)
    ensures parent in ParentsOf(rels, group) <==>
            exists r :: r in rels && r.propagatesMembership && GroupId(r.from) == group && GroupId(r.to) == parent
  {
    if rels != [] {
      ParentsIff(rels[..|rels| - 1], group, parent);
      SnocMembers(rels);
    }
  }

  /** Propagating relationships that lead from one group to another, each beginning where the one before ends. */
  ghost predicate Chain(rels: seq<Relationship>, chain: seq<Relationship>, a: string, b: string)
  {
    && (forall i :: 0 <= i < |chain| ==> chain[i] in rels && chain[i].propagatesMembership)
    && (forall i :: 0 <= i < |chain| - 1 ==> GroupId(chain[i].to) == GroupId(chain[i + 1].from))
    && (if chain == [] then a == b else GroupId(chain[0].from) == a && GroupId(chain[|chain| - 1].to) == b)
  }

  lemma ChainSnoc(rels: seq<Relationship>, chain: seq<Relationship>, r: Relationship, a: string)
    requires Chain(rels, chain, a, GroupId(r.from)) && r in rels && r.propagatesMembership
    ensures Chain(rels, chain + [r], a, GroupId(r.to))
  {
  }

  lemma ChainInit(rels: seq<Relationship>, chain: seq<Relationship>, a: string, b: string)
    requires chain != [] && Chain(rels, chain, a, b)
    ensures var last := chain[|chain| - 1];
            && Chain(rels, chain[..|chain| - 1], a, GroupId(last.from)) && GroupId(last.to) == b
            && last in rels && last.propagatesMembership
  {
  }

  lemma WalkToSnoc(rels: seq<Relationship>, path: seq<string>, a: string, m: string, b: string)
    requires WalkFromTo(rels, path, a, m) && b in ParentsOf(rels, m)
    ensures WalkFromTo(rels, path + [b], a, b)
  {
  }

  lemma {:induction false} WalkToChain(rels: seq<Relationship>, path: seq<string>) returns (chain: seq<Relationship>)
    requires Walk(rels, path)
    ensures Chain(rels, chain, path[0], path[|path| - 1]) && |chain| == |path| - 1
    decreases |path|
  {
    var n := |path| - 1;
    if n == 0 {
      chain := [];
    } else {
      var before := WalkToChain(rels, path[..n]);
      assert path[n] in ParentsOf(rels, path[n - 1]);
      ParentsIff(rels, path[n - 1], path[n]);
      var r :| r in rels && r.propagatesMembership && GroupId(r.from) == path[n - 1] && GroupId(r.to) == path[n];
      ChainSnoc(rels, before, r, path[0]);
      chain := before + [r];
    }
  }

  lemma {:induction false} ChainToWalk(rels: seq<Relationship>, chain: seq<Relationship>, a: string, b: string)
    returns (path: seq<string>)
    requires Chain(rels, chain, a, b)
    ensures WalkFromTo(rels, path, a, b) && |path| == |chain| + 1
    decreases |chain|
  {
    if chain == [] {
      path := [a];
    } else {
      var last := chain[|chain| - 1];
      ChainInit(rels, chain, a, b);
      var init := ChainToWalk(rels, chain[..|chain| - 1], a, GroupId(last.from));
      ParentsIff(rels, GroupId(last.from), b);
      WalkToSnoc(rels, init, a, GroupId(last.from), b);
      path := init + [b];
    }
  }

  /** A group reaches another exactly when a chain of propagating relationships leads there. */
  lemma ReachesIffChain(rels: seq<Relationship>, a: string, b: string)
    ensures Reaches(rels, a, b) <==> exists chain :: Chain(rels, chain, a, b)
  {
    if Reaches(rels, a, b) {
      var path :| WalkFromTo(rels, path, a, b);
      var chain := WalkToChain(rels, path);
    }
    if chain :| Chain(rels, chain, a, b) { var path := ChainToWalk(rels, chain, a, b); }
  }

  /** It lies on a cycle exactly when such a chain, not empty, leads back to it. */
  lemma CycleIffChain(rels: seq<Relationship>, a: string)
    ensures OnCycle(rels, a) <==> exists chain :: chain != [] && Chain(rels, chain, a, a)
  {
    if OnCycle(rels, a) {
      var path :| WalkFromTo(rels, path, a, a) && |path| >= 2;
      var chain := WalkToChain(rels, path);
    }
    if chain :| chain != [] && Chain(rels, chain, a, a) { var path := ChainToWalk(rels, chain, a, a); }
  }

  lemma ReachesSelf(rels: seq<Relationship>, a: string)
    ensures Reaches(rels, a, a)
  {
    assert WalkFromTo(rels, [a], a, a);
  }

  lemma ReachesStep(rels: seq<Relationship>, a: string, b: string, c: string)
    requires Reaches(rels, a, b) && c in ParentsOf(rels, b)
    ensures Reaches(rels, a, c)
    ensures a == c ==> OnCycle(rels, a)
  {
    var path :| WalkFromTo(rels, path, a, b);
    assert WalkFromTo(rels, path + [c], a, c);
  }

  ghost predicate ClosedUnder(rels: seq<Relationship>, groups: set<string>)
  {
    forall g :: g in groups ==> ParentsOf(rels, g) <= groups
  }

  lemma {:induction false} WalkStaysInside(rels: seq<Relationship>, groups: set<string>, path: seq<string>, i: nat)
    requires ClosedUnder(rels, groups) && Walk(rels, path) && path[0] in groups && i < |path|
    ensures path[i] in groups
  {
    if i > 0 { WalkStaysInside(rels, groups, path, i - 1); }
  }

  /** A closed set of reachable groups around the origin is the set of reachable groups. */
  lemma ClosureIsReach(rels: seq<Relationship>, origin: string, groups: set<string>)
    requires origin in groups && ClosedUnder(rels, groups)
    requires forall g :: g in groups ==> Reaches(rels, origin, g)
    ensures forall g :: g in groups <==> Reaches(rels, origin, g)
  {
    forall g | Reaches(rels, origin, g) ensures g in groups
    {
      var path :| WalkFromTo(rels, path, origin, g);
      WalkStaysInside(rels, groups, path, |path| - 1);
    }
  }

  /** The origin is on a cycle exactly when some reachable group passes its members back to it. */
  lemma CycleIff(rels: seq<Relationship>, origin: string, groups: set<string>)
    requires forall g :: g in groups <==> Reaches(rels, origin, g)
    ensures OnCycle(rels, origin) <==> exists g :: g in groups && origin in ParentsOf(rels, g)
  {
    if OnCycle(rels, origin) {
      var path :| WalkFromTo(rels, path, origin, origin) && |path| >= 2;
      var g := path[|path| - 2];
      assert WalkFromTo(rels, path[..|path| - 1], origin, g);
      assert path[|path| - 1] in ParentsOf(rels, g);
    }
    if exists g :: g in groups && origin in ParentsOf(rels, g) {
      var g :| g in groups && origin in ParentsOf(rels, g);
      ReachesStep(rels, origin, g, origin);
    }
  }

  // ---------------------------------------------------------------- the parents table

  /** The parents table lists, under every group, the groups it passes its members on to. */
  ghost predicate ParentsTable(parents: map<string, seq<string>>, rels: seq<Relationship>)
  {
    forall g :: Elements(Listed(parents, g)) == ParentsOf(rels, g)
  }

  function Listed(parents: map<string, seq<string>>, g: string): seq<string>
  {
    if g in parents then parents[g] else []
  }

  function RelationEdge(r: Relationship): Edge
  {
    Edge("GROUP_RELATION", GroupId(r.from), GroupId(r.to), r.ownerFileId,
         Relation(r.predicateName, r.propagatesMembership))
  }

  function RelationEdges(rels: seq<Relationship>): (edges: seq<Edge>)
    ensures |edges| == |rels|
  {
    seq(|rels|, i requires 0 <= i < |rels| => RelationEdge(rels[i]))
  }

  lemma ParentsPush(parents: map<string, seq<string>>, rels: seq<Relationship>, r: Relationship)
    requires ParentsTable(parents, rels)
    ensures ParentsTable(
              if r.propagatesMembership
              then parents[GroupId(r.from) := Listed(parents, GroupId(r.from)) + [GroupId(r.to)]]
              else parents, rels + [r])
  {
    assert (rels + [r])[..|rels|] == rels;
    var from, to := GroupId(r.from), GroupId(r.to);
    if r.propagatesMembership {
      var next := parents[from := Listed(parents, from) + [to]];
      forall g ensures Elements(Listed(next, g)) == ParentsOf(rels + [r], g)
      {
        assert Elements(Listed(parents, g)) == ParentsOf(rels, g);
        if g == from { assert Elements(Listed(next, g)) == Elements(Listed(parents, g)) + {to}; }
      }
    }
  }

  /** Every relationship has an edge of its own, in order, between the ids of its groups. */
  lemma RelationEdgesExact(rels: seq<Relationship>)
    ensures |RelationEdges(rels)| == |rels|
    ensures forall i :: 0 <= i < |rels| ==>
              var e, r := RelationEdges(rels)[i], rels[i];
              && e.kind == "GROUP_RELATION" && e.source == GroupId(r.from) && e.target == GroupId(r.to)
              && e.owner == r.ownerFileId && e.data.Relation?
              && e.data.predicateName == r.predicateName && e.data.propagatesMembership == r.propagatesMembership
  {
  }

  method BuildParents(rels: seq<Relationship>) returns (parents: map<string, seq<string>>, edges: seq<Edge>)
    ensures ParentsTable(parents, rels)
    ensures edges == RelationEdges(rels)
  {
    parents, edges := map[], [];
    var i := 0;
    while i < |rels|
      invariant 0 <= i <= |rels|
      invariant ParentsTable(parents, rels[..i])
      invariant edges == RelationEdges(rels[..i])
    {
      edges := edges + [RelationEdge(rels[i])];
      parents := AddParent(parents, rels[..i], rels[i]);
      assert rels[..i + 1] == rels[..i] + [rels[i]];
      i := i + 1;
    }
    assert rels[..|rels|] == rels;
    parents := SortValues(parents);
  }

  method AddParent(parents: map<string, seq<string>>, ghost rels: seq<Relationship>, r: Relationship)
    returns (parents': map<string, seq<string>>)
    requires ParentsTable(parents, rels)
    ensures ParentsTable(parents', rels + [r])
  {
    ParentsPush(parents, rels, r);
    var from, to := GroupId(r.from), GroupId(r.to);
    parents' := if r.propagatesMembership then parents[from := Listed(parents, from) + [to]] else parents;
  }

  /** `sort` and `dedup`. */
  method SortDedup(values: seq<string>) returns (sorted: seq<string>)
    ensures sorted == SortedKeys(Elements(values))
  {
    sorted := ListKeys(set v | v in values);
  }

  method SortValues(parents: map<string, seq<string>>) returns (sorted: map<string, seq<string>>)
    ensures forall g :: Elements(Listed(sorted, g)) == Elements(Listed(parents, g))
  {
    sorted := parents;
    var keys := parents.Keys;
    while keys != {}
      invariant keys <= parents.Keys == sorted.Keys
      invariant forall g :: Elements(Listed(sorted, g)) == Elements(Listed(parents, g))
      decreases keys
    {
      var g :| g in keys;
      var values := SortDedup(sorted[g]);
      sorted := sorted[g := values];
      keys := keys - {g};
    }
  }

  // ---------------------------------------------------------------- the worklist

  function CycleMessage(origin: string): string
  {
    "Membership-propagating group cycle detected at " + origin + "."
  }

  /** Every group some relation leads to. */
  function Targets(rels: seq<Relationship>): set<string>
  {
    set r | r in rels :: GroupId(r.to)
  }

  lemma {:induction false} ParentsAreTargets(rels: seq<Relationship>, g: string)
    ensures ParentsOf(rels, g) <= Targets(rels)
  {
    if rels != [] {
      ParentsAreTargets(rels[..|rels| - 1], g);
      assert rels[|rels| - 1] in rels;
      assert forall r :: r in rels[..|rels| - 1] ==> r in rels;
    }
  }

  /** The worklist loop: what was visited is reachable, and what has left the queue has its parents visited
      (the origin aside, which is visited from the start). */
  ghost predicate Exploring(rels: seq<Relationship>, origin: string, visited: set<string>, queue: seq<string>,
                            cyclic: bool)
  {
    && origin in visited
    && (forall g :: g in queue ==> g in visited)
    && (forall g :: g in visited ==> Reaches(rels, origin, g))
    && (forall g :: g in visited && g !in queue ==> ParentsOf(rels, g) <= visited)
    && (forall g :: g in visited && g !in queue && origin in ParentsOf(rels, g) ==> cyclic)
    && (cyclic ==> OnCycle(rels, origin))
  }

  /** The same while the parents of `current` are being visited, the first `done` of them already. */
  ghost predicate Visiting(rels: seq<Relationship>, origin: string, current: string, done: seq<string>,
                           visited: set<string>, queue: seq<string>, cyclic: bool)
  {
    && origin in visited && current in visited
    && (forall g :: g in queue ==> g in visited)
    && (forall g :: g in visited ==> Reaches(rels, origin, g))
    && (forall g :: g in visited && g !in queue && g != current ==> ParentsOf(rels, g) <= visited)
    && (forall g :: g in visited && g !in queue && g != current && origin in ParentsOf(rels, g) ==> cyclic)
    && (forall g :: g in done ==> g in visited)
    && (origin in done ==> cyclic)
    && (cyclic ==> OnCycle(rels, origin))
  }

  lemma VisitStart(rels: seq<Relationship>, origin: string, visited: set<string>, queue: seq<string>, cyclic: bool)
    requires queue != [] && Exploring(rels, origin, visited, queue, cyclic)
    ensures Visiting(rels, origin, queue[0], [], visited, queue[1..], cyclic)
  {
    assert queue == [queue[0]] + queue[1..];
  }

  lemma VisitOrigin(rels: seq<Relationship>, origin: string, current: string, done: seq<string>,
                    visited: set<string>, queue: seq<string>, cyclic: bool)
    requires Visiting(rels, origin, current, done, visited, queue, cyclic) && origin in ParentsOf(rels, current)
    ensures Visiting(rels, origin, current, done + [origin], visited, queue, true)
  {
    ReachesStep(rels, origin, current, origin);
  }

  lemma VisitKnown(rels: seq<Relationship>, origin: string, current: string, done: seq<string>,
                   visited: set<string>, queue: seq<string>, cyclic: bool, parent: string)
    requires Visiting(rels, origin, current, done, visited, queue, cyclic) && parent in visited && parent != origin
    ensures Visiting(rels, origin, current, done + [parent], visited, queue, cyclic)
  {
  }

  lemma VisitNew(rels: seq<Relationship>, origin: string, current: string, done: seq<string>,
                 visited: set<string>, queue: seq<string>, cyclic: bool, parent: string)
    requires Visiting(rels, origin, current, done, visited, queue, cyclic)
    requires parent in ParentsOf(rels, current) && parent != origin
    ensures Visiting(rels, origin, current, done + [parent], visited + {parent}, queue + [parent], cyclic)
  {
    ReachesStep(rels, origin, current, parent);
    assert forall g :: g in queue + [parent] <==> g in queue || g == parent;
  }

  lemma VisitEnd(rels: seq<Relationship>, origin: string, current: string, done: seq<string>,
                 visited: set<string>, queue: seq<string>, cyclic: bool)
    requires Visiting(rels, origin, current, done, visited, queue, cyclic)
    requires Elements(done) == ParentsOf(rels, current)
    ensures Exploring(rels, origin, visited, queue, cyclic)
  {
    forall g | g in ParentsOf(rels, current) ensures g in visited && g in done { assert g in Elements(done); }
  }

  /** The warnings so far, and the one about this origin if it was found on a cycle. */
  ghost predicate Warned(warnings: seq<string>, before: seq<string>, origin: string, cyclic: bool)
  {
    forall m :: m in warnings <==> m in before || (cyclic && m == CycleMessage(origin))
  }

  /** One parent: the origin is reported and not followed, a new group joins the queue. */
  method VisitOne(parent: string, ghost rels: seq<Relationship>, origin: string, ghost current: string,
                  ghost done: seq<string>,
                  visited: set<string>, queue: seq<string>, warnings: seq<string>, ghost before: seq<string>,
                  ghost cyclic: bool)
    returns (visited': set<string>, queue': seq<string>, warnings': seq<string>, ghost cyclic': bool)
    requires Visiting(rels, origin, current, done, visited, queue, cyclic) && parent in ParentsOf(rels, current)
    requires Warned(warnings, before, origin, cyclic)
    ensures Visiting(rels, origin, current, done + [parent], visited', queue', cyclic')
    ensures visited <= visited' <= visited + {parent}
    ensures visited' == visited ==> queue' == queue
    ensures Warned(warnings', before, origin, cyclic')
  {
    visited', queue', warnings', cyclic' := visited, queue, warnings, cyclic;
    if parent == origin {
      VisitOrigin(rels, origin, current, done, visited, queue, cyclic);
      warnings', cyclic' := warnings + [CycleMessage(origin)], true;
    } else if parent in visited {
      VisitKnown(rels, origin, current, done, visited, queue, cyclic, parent);
    } else {
      VisitNew(rels, origin, current, done, visited, queue, cyclic, parent);
      visited', queue' := visited + {parent}, queue + [parent];
    }
  }

  /** The inner loop: the parents of one group. */
  method VisitParents(list: seq<string>, ghost rels: seq<Relationship>, origin: string, ghost current: string,
                      visited: set<string>, queue: seq<string>, warnings: seq<string>, ghost before: seq<string>,
                      ghost cyclic: bool)
    returns (visited': set<string>, queue': seq<string>, warnings': seq<string>, ghost cyclic': bool)
    requires Visiting(rels, origin, current, [], visited, queue, cyclic) && Elements(list) == ParentsOf(rels, current)
    requires Warned(warnings, before, origin, cyclic)
    ensures Exploring(rels, origin, visited', queue', cyclic')
    ensures visited <= visited' <= visited + Targets(rels)
    ensures visited' == visited ==> queue' == queue
    ensures Warned(warnings', before, origin, cyclic')
  {
    visited', queue', warnings', cyclic' := visited, queue, warnings, cyclic;
    ParentsAreTargets(rels, current);
    ghost var done := [];
    var i := 0;
    while i < |list|
      invariant 0 <= i <= |list| && done == list[..i]
      invariant Visiting(rels, origin, current, done, visited', queue', cyclic')
      invariant Warned(warnings', before, origin, cyclic')
      invariant visited <= visited' <= visited + Targets(rels)
      invariant visited' == visited ==> queue' == queue
    {
      var parent := list[i];
      assert parent in Elements(list);
      visited', queue', warnings', cyclic' :=
        VisitOne(parent, rels, origin, current, done, visited', queue', warnings', before, cyclic');
      TakeSnoc(list, i);
      done := done + [parent];
      i := i + 1;
    }
    VisitEnd(rels, origin, current, done, visited', queue', cyclic');
  }

  /** One origin: the groups reachable from it, and a warning if it is on a cycle.
      Everything visited is also effective, so the caller adds the visited groups to the effective ones. */
  method WalkUp(parents: map<string, seq<string>>, ghost rels: seq<Relationship>, origin: string, warnings: seq<string>)
    returns (visited: set<string>, warnings': seq<string>)
    requires ParentsTable(parents, rels)
    ensures forall g :: g in visited <==> Reaches(rels, origin, g)
    ensures Warned(warnings', warnings, origin, OnCycle(rels, origin))
  {
    visited, warnings' := {origin}, warnings;
    var queue := [origin];
    ghost var cyclic := false;
    ReachesSelf(rels, origin);
    ghost var universe := Targets(rels) + {origin};
    while queue != []
      invariant Exploring(rels, origin, visited, queue, cyclic)
      invariant Warned(warnings', warnings, origin, cyclic)
      invariant visited <= universe
      decreases universe - visited, |queue|
    {
      VisitStart(rels, origin, visited, queue, cyclic);
      var current := queue[0];
      ghost var before := visited;
      visited, queue, warnings', cyclic :=
        VisitParents(Listed(parents, current), rels, origin, current, visited, queue[1..], warnings', warnings, cyclic);
      assert visited != before ==> universe - visited < universe - before;
    }
    ClosureIsReach(rels, origin, visited);
    CycleIff(rels, origin, visited);
  }

  // ---------------------------------------------------------------- the nodes

  predicate IsFile(n: Node)
  {
    n.nodeType == "File"
  }

  /** The groups of the last file with this id among these nodes. */
  function FileGroups(nodes: seq<Node>, id: string): Option<seq<string>>
  {
    if nodes == [] then None
    else
      var n := nodes[|nodes| - 1];
      if IsFile(n) && n.id == id then Some(n.groupIds) else FileGroups(nodes[..|nodes| - 1], id)
  }

  /** The direct groups of a node: its own for a file, its owner file's for anything else. */
  function DirectGroups(nodes: seq<Node>, n: Node): seq<string>
  {
    if IsFile(n) then n.groupIds
    else if n.ownerFileId.Some? && FileGroups(nodes, n.ownerFileId.value).Some?
    then FileGroups(nodes, n.ownerFileId.value).value
    else []
  }

  /** g is reachable from one of these direct groups. */
  ghost predicate ReachedFrom(rels: seq<Relationship>, direct: seq<string>, g: string)
  {
    exists v :: v in direct && Reaches(rels, GroupId(v), g)
  }

  /** The effective groups of a node: exactly what its direct groups reach, sorted. */
  ghost predicate EffectiveOf(rels: seq<Relationship>, direct: seq<string>, effective: seq<string>)
  {
    && StrictlySorted(effective)
    && forall g :: g in effective <==> ReachedFrom(rels, direct, g)
  }

  /** m warns about a cycle through one of these direct groups. */
  ghost predicate CycleWarning(rels: seq<Relationship>, direct: seq<string>, m: string)
  {
    exists v :: v in direct && OnCycle(rels, GroupId(v)) && m == CycleMessage(GroupId(v))
  }

  ghost predicate FileTable(direct: map<string, seq<string>>, nodes: seq<Node>)
  {
    forall id :: FileGroups(nodes, id) == if id in direct then Some(direct[id]) else None
  }

  method DirectByFile(nodes: array<Node>) returns (direct: map<string, seq<string>>)
    ensures FileTable(direct, nodes[..])
  {
    direct := map[];
    var i := 0;
    while i < nodes.Length
      invariant 0 <= i <= nodes.Length
      invariant FileTable(direct, nodes[..i])
    {
      assert nodes[..i + 1][..i] == nodes[..i];
      if nodes[i].nodeType == "File" { direct := direct[nodes[i].id := nodes[i].groupIds]; }
      i := i + 1;
    }
    assert nodes[..nodes.Length] == nodes[..];
  }

  /** The loop over the direct groups of one node. */
  method EffectiveGroups(parents: map<string, seq<string>>, ghost rels: seq<Relationship>, direct: seq<string>,
                         warnings: seq<string>)
    returns (effective: seq<string>, warnings': seq<string>)
    requires ParentsTable(parents, rels)
    ensures EffectiveOf(rels, direct, effective)
    ensures forall m :: m in warnings' <==> m in warnings || CycleWarning(rels, direct, m)
  {
    var reached: set<string> := {};
    warnings' := warnings;
    var i := 0;
    while i < |direct|
      invariant 0 <= i <= |direct|
      invariant forall g :: g in reached <==> ReachedFrom(rels, direct[..i], g)
      invariant forall m :: m in warnings' <==> m in warnings || CycleWarning(rels, direct[..i], m)
    {
      var origin := GroupId(direct[i]);
      var visited;
      ghost var before, reachedBefore := warnings', reached;
      visited, warnings' := WalkUp(parents, rels, origin, warnings');
      reached := reached + visited;
      ReachedSnoc(rels, direct, i);
      i := i + 1;
    }
    assert direct[..|direct|] == direct;
    effective := ListKeys(reached);
    assert forall g :: g in effective <==> g in Elements(effective);
  }

  lemma ReachedSnoc(rels: seq<Relationship>, direct: seq<string>, i: nat)
    requires i < |direct|
    ensures forall g :: ReachedFrom(rels, direct[..i + 1], g) <==>
              ReachedFrom(rels, direct[..i], g) || Reaches(rels, GroupId(direct[i]), g)
    ensures forall m :: CycleWarning(rels, direct[..i + 1], m) <==>
              CycleWarning(rels, direct[..i], m)
                  || (OnCycle(rels, GroupId(direct[i])) && m == CycleMessage(GroupId(direct[i])))
  {
    var d := direct[..i + 1];
    assert forall v :: v in d <==> v in direct[..i] || v == direct[i];
    forall m | CycleWarning(rels, direct[..i], m) ensures CycleWarning(rels, d, m)
    {
      var v :| v in direct[..i] && OnCycle(rels, GroupId(v)) && m == CycleMessage(GroupId(v));
      assert v in d;
    }
    forall m | OnCycle(rels, GroupId(direct[i])) && m == CycleMessage(GroupId(direct[i]))
      ensures CycleWarning(rels, d, m)
    {
      assert direct[i] in d;
    }
  }

  /** The effective groups of one node that are not its direct ones, in order. */
  function InheritedTargets(n: Node, k: nat): seq<string>
    requires k <= |n.effectiveGroupIds|
  {
    if k == 0 then []
    else
      var target := GroupId(n.effectiveGroupIds[k - 1]);
      var before := InheritedTargets(n, k - 1);
      if IsDirect(n, target) then before else before + [target]
  }

  predicate IsDirect(n: Node, target: string)
  {
    exists v :: v in n.groupIds && GroupId(v) == target
  }

  function InheritedEdge(file: string, group: string): Edge
  {
    Edge("EFFECTIVE_GROUP", file, group, file, Inherited)
  }

  function TargetEdges(file: string, targets: seq<string>): (edges: seq<Edge>)
    ensures |edges| == |targets|
  {
    seq(|targets|, i requires 0 <= i < |targets| => InheritedEdge(file, targets[i]))
  }

  function InheritedOf(n: Node): seq<Edge>
  {
    if IsFile(n) then
      TargetEdges(n.id, InheritedTargets(n, |n.effectiveGroupIds|))
    else []
  }

  function InheritedEdges(nodes: seq<Node>): seq<Edge>
  {
    if nodes == [] then [] else InheritedEdges(nodes[..|nodes| - 1]) + InheritedOf(nodes[|nodes| - 1])
  }

  lemma DirectSetIs(n: Node, direct: set<string>)
    requires direct == set v | v in n.groupIds :: GroupId(v)
    ensures forall target :: target in direct <==> IsDirect(n, target)
  {
  }

  lemma TargetEdgesSnoc(file: string, targets: seq<string>, target: string)
    ensures TargetEdges(file, targets + [target]) == TargetEdges(file, targets) + [InheritedEdge(file, target)]
  {
  }

  method NodeInheritedEdges(n: Node) returns (edges: seq<Edge>)
    ensures edges == InheritedOf(n)
  {
    edges := [];
    if n.nodeType != "File" { return; }
    ghost var targets := [];
    var direct := set v | v in n.groupIds :: GroupId(v);
    DirectSetIs(n, direct);
    var k := 0;
    while k < |n.effectiveGroupIds|
      invariant 0 <= k <= |n.effectiveGroupIds|
      invariant targets == InheritedTargets(n, k)
      invariant edges == TargetEdges(n.id, targets)
    {
      var target := GroupId(n.effectiveGroupIds[k]);
      if target !in direct {
        TargetEdgesSnoc(n.id, targets, target);
        edges, targets := edges + [InheritedEdge(n.id, target)], targets + [target];
      }
      k := k + 1;
    }
  }

  method MembershipEdges(nodes: array<Node>) returns (edges: seq<Edge>)
    ensures edges == InheritedEdges(nodes[..])
  {
    edges := [];
    var i := 0;
    while i < nodes.Length
      invariant 0 <= i <= nodes.Length
      invariant edges == InheritedEdges(nodes[..i])
    {
      TakeSnoc(nodes[..], i);
      assert nodes[..][..i] == nodes[..i] && nodes[..][..i + 1] == nodes[..i + 1];
      assert nodes[..i + 1][..i] == nodes[..i];
      var added := NodeInheritedEdges(nodes[i]);
      edges := edges + added;
      i := i + 1;
    }
    assert nodes[..nodes.Length] == nodes[..];
  }

  /** The loop over the nodes. */
  method LabelNodes(nodes: array<Node>, parents: map<string, seq<string>>, ghost rels: seq<Relationship>,
                    warnings: seq<string>)
    returns (warnings': seq<string>)
    requires ParentsTable(parents, rels)
    modifies nodes
    ensures forall i :: 0 <= i < nodes.Length ==> Labelled(rels, old(nodes[..]), old(nodes[i]), nodes[i])
    ensures forall m :: m in warnings' <==> m in warnings || WarnedByNode(rels, old(nodes[..]), nodes.Length, m)
  {
    var direct := DirectByFile(nodes);
    warnings' := warnings;
    ghost var before := nodes[..];
    var i := 0;
    while i < nodes.Length
      invariant 0 <= i <= nodes.Length
      invariant forall k :: 0 <= k < i ==> Labelled(rels, before, before[k], nodes[k])
      invariant forall k :: i <= k < nodes.Length ==> nodes[k] == before[k]
      invariant forall m :: m in warnings' <==> m in warnings || WarnedByNode(rels, before, i, m)
    {
      var node;
      node, warnings' := LabelNode(nodes[i], direct, parents, rels, before, warnings');
      nodes[i] := node;
      i := i + 1;
    }
  }

  /** One round of that loop. */
  method LabelNode(node: Node, direct: map<string, seq<string>>, parents: map<string, seq<string>>,
                   ghost rels: seq<Relationship>, ghost nodes: seq<Node>, warnings: seq<string>)
    returns (node': Node, warnings': seq<string>)
    requires ParentsTable(parents, rels)
    requires FileTable(direct, nodes)
    ensures Labelled(rels, nodes, node, node')
    ensures forall m :: m in warnings' <==> m in warnings || CycleWarning(rels, DirectGroups(nodes, node), m)
  {
    var own := if node.nodeType == "File" then node.groupIds
               else if node.ownerFileId.Some? && node.ownerFileId.value in direct then direct[node.ownerFileId.value]
               else [];
    assert own == DirectGroups(nodes, node);
    var effective;
    effective, warnings' := EffectiveGroups(parents, rels, own, warnings);
    node' := node.(effectiveGroupIds := effective);
  }

  /** A node after the pass: only its effective groups may differ, and they are the reached ones. */
  ghost predicate Labelled(rels: seq<Relationship>, before: seq<Node>, n: Node, n': Node)
  {
    && n' == n.(effectiveGroupIds := n'.effectiveGroupIds)
    && EffectiveOf(rels, DirectGroups(before, n), n'.effectiveGroupIds)
  }

  ghost predicate WarnedByNode(rels: seq<Relationship>, nodes: seq<Node>, k: nat, m: string)
    requires k <= |nodes|
  {
    exists i :: 0 <= i < k && CycleWarning(rels, DirectGroups(nodes, nodes[i]), m)
  }

  /** Node j is the file that owns node i: the last file of the id that node i names. */
  predicate OwnedBy(nodes: seq<Node>, i: nat, j: nat)
    requires i < |nodes| && j < |nodes|
  {
    && nodes[i].nodeType != "File" && nodes[j].nodeType == "File" && nodes[i].ownerFileId == Some(nodes[j].id)
    && forall k :: j < k < |nodes| && nodes[k].nodeType == "File" ==> nodes[k].id != nodes[j].id
  }

  predicate Ownerless(nodes: seq<Node>, i: nat)
    requires i < |nodes|
  {
    nodes[i].nodeType != "File"
    && forall j :: 0 <= j < |nodes| && nodes[j].nodeType == "File" ==> nodes[i].ownerFileId != Some(nodes[j].id)
  }

  /** Nodes before and after the pass: a file has the groups reachable from its own, in order and once each; any other
      node has those of the file that owns it, or none; and nothing else of a node has changed. */
  ghost predicate MembersInherit(rels: seq<Relationship>, before: seq<Node>, after: seq<Node>)
  {
    && |after| == |before|
    && (forall i :: 0 <= i < |before| ==> after[i] == before[i].(effectiveGroupIds := after[i].effectiveGroupIds))
    && (forall i :: 0 <= i < |before| && before[i].nodeType == "File" ==>
          && StrictlySorted(after[i].effectiveGroupIds)
          && forall g :: g in after[i].effectiveGroupIds <==> ReachedFrom(rels, before[i].groupIds, g))
    && (forall i, j :: 0 <= i < |before| && 0 <= j < |before| && OwnedBy(before, i, j) ==>
          after[i].effectiveGroupIds == after[j].effectiveGroupIds)
    && (forall i :: 0 <= i < |before| && Ownerless(before, i) ==> after[i].effectiveGroupIds == [])
  }

  lemma {:induction false} FileGroupsLast(nodes: seq<Node>, j: nat)
    requires j < |nodes| && nodes[j].nodeType == "File"
    requires forall k :: j < k < |nodes| && nodes[k].nodeType == "File" ==> nodes[k].id != nodes[j].id
    ensures FileGroups(nodes, nodes[j].id) == Some(nodes[j].groupIds)
  {
    if j < |nodes| - 1 { FileGroupsLast(nodes[..|nodes| - 1], j); }
  }

  lemma {:induction false} FileGroupsNone(nodes: seq<Node>, id: string)
    requires forall j :: 0 <= j < |nodes| && nodes[j].nodeType == "File" ==> nodes[j].id != id
    ensures FileGroups(nodes, id) == None
  {
    if nodes != [] { FileGroupsNone(nodes[..|nodes| - 1], id); }
  }

  /** The effective groups are determined by the direct ones. */
  lemma EffectiveUnique(rels: seq<Relationship>, direct: seq<string>, a: seq<string>, b: seq<string>)
    requires EffectiveOf(rels, direct, a) && EffectiveOf(rels, direct, b)
    ensures a == b
  {
    forall g ensures g in Elements(a) <==> g in Elements(b) { assert g in a <==> g in b; }
    SortedUnique(a, b);
  }

  lemma LabelledInherits(rels: seq<Relationship>, before: seq<Node>, after: seq<Node>)
    requires |after| == |before| && forall i :: 0 <= i < |before| ==> Labelled(rels, before, before[i], after[i])
    ensures MembersInherit(rels, before, after)
  {
    forall i, j | 0 <= i < |before| && 0 <= j < |before| && OwnedBy(before, i, j)
      ensures after[i].effectiveGroupIds == after[j].effectiveGroupIds
    {
      OwnerPasses(rels, before, after, i, j);
    }
    forall i | 0 <= i < |before| && Ownerless(before, i) ensures after[i].effectiveGroupIds == []
    {
      OwnerlessHasNone(rels, before, after, i);
    }
  }

  lemma OwnerPasses(rels: seq<Relationship>, before: seq<Node>, after: seq<Node>, i: nat, j: nat)
    requires |after| == |before| && i < |before| && j < |before| && OwnedBy(before, i, j)
    requires Labelled(rels, before, before[i], after[i]) && Labelled(rels, before, before[j], after[j])
    ensures after[i].effectiveGroupIds == after[j].effectiveGroupIds
  {
    FileGroupsLast(before, j);
    assert DirectGroups(before, before[i]) == before[j].groupIds == DirectGroups(before, before[j]);
    EffectiveUnique(rels, before[j].groupIds, after[i].effectiveGroupIds, after[j].effectiveGroupIds);
  }

  lemma OwnerlessHasNone(rels: seq<Relationship>, before: seq<Node>, after: seq<Node>, i: nat)
    requires |after| == |before| && i < |before| && Ownerless(before, i) && Labelled(rels, before, before[i], after[i])
    ensures after[i].effectiveGroupIds == []
  {
    if before[i].ownerFileId.Some? { FileGroupsNone(before, before[i].ownerFileId.value); }
    assert DirectGroups(before, before[i]) == [];
    var groups := after[i].effectiveGroupIds;
    assert forall g :: g !in groups;
    NonemptyElements(groups);
  }

  /** `apply_group_hierarchy`. */
  method ApplyGroupHierarchy(nodes: array<Node>, edges: seq<Edge>, rels: seq<Relationship>, warnings: seq<string>)
    returns (edges': seq<Edge>, warnings': seq<string>)
    modifies nodes
    ensures MembersInherit(rels, old(nodes[..]), nodes[..])
    ensures forall i :: 0 <= i < nodes.Length ==> Labelled(rels, old(nodes[..]), old(nodes[i]), nodes[i])
    ensures edges' == edges + RelationEdges(rels) + InheritedEdges(nodes[..])
    ensures StrictlySorted(warnings')
    ensures forall m :: m in warnings' <==> m in warnings || WarnedByNode(rels, old(nodes[..]), nodes.Length, m)
  {
    var parents, relationEdges := BuildParents(rels);
    ghost var before := nodes[..];
    var pushed := LabelNodes(nodes, parents, rels, warnings);
    LabelledInherits(rels, before, nodes[..]);
    var memberships := MembershipEdges(nodes);
    edges' := edges + relationEdges + memberships;
    warnings' := SortDedup(pushed);
    assert forall m :: m in warnings' <==> m in Elements(pushed) by {
      assert forall m :: m in warnings' <==> m in Elements(warnings');
    }
  }

  // ---------------------------------------------------------------- what the pass promises

  lemma {:induction false} FileGroupsIsAFiles(nodes: seq<Node>, id: string)
    requires FileGroups(nodes, id).Some?
    ensures exists n :: n in nodes && IsFile(n) && n.groupIds == FileGroups(nodes, id).value
  {
    var n := nodes[|nodes| - 1];
    if IsFile(n) && n.id == id {
      assert n in nodes;
    } else {
      FileGroupsIsAFiles(nodes[..|nodes| - 1], id);
      var m :| m in nodes[..|nodes| - 1] && IsFile(m) && m.groupIds == FileGroups(nodes, id).value;
      assert m in nodes;
    }
  }

  /** A cycle is reported exactly when it goes through a direct group of some file. */
  lemma WarningsExact(rels: seq<Relationship>, nodes: seq<Node>, m: string)
    ensures WarnedByNode(rels, nodes, |nodes|, m) <==>
            exists n, v :: n in nodes && IsFile(n) && v in n.groupIds && OnCycle(rels, GroupId(v))
                && m == "Membership-propagating group cycle detected at " + GroupId(v) + "."
  {
    if WarnedByNode(rels, nodes, |nodes|, m) {
      var i :| 0 <= i < |nodes| && CycleWarning(rels, DirectGroups(nodes, nodes[i]), m);
      var v :| v in DirectGroups(nodes, nodes[i]) && OnCycle(rels, GroupId(v)) && m == CycleMessage(GroupId(v));
      if IsFile(nodes[i]) {
        assert nodes[i] in nodes;
      } else {
        FileGroupsIsAFiles(nodes, nodes[i].ownerFileId.value);
        var n :| n in nodes && IsFile(n) && n.groupIds == DirectGroups(nodes, nodes[i]);
        assert v in n.groupIds;
      }
    }
    if exists n, v :: n in nodes && IsFile(n) && v in n.groupIds && OnCycle(rels, GroupId(v))
        && m == CycleMessage(GroupId(v)) {
      var n, v :| n in nodes && IsFile(n) && v in n.groupIds && OnCycle(rels, GroupId(v))
          && m == CycleMessage(GroupId(v));
      var i :| 0 <= i < |nodes| && nodes[i] == n;
      assert CycleWarning(rels, DirectGroups(nodes, nodes[i]), m);
    }
  }

  lemma {:induction false} ParentsAreGroupIds(rels: seq<Relationship>, a: string, g: string)
    requires g in ParentsOf(rels, a)
    ensures GroupId(g) == g
  {
    var r := rels[|rels| - 1];
    if g in ParentsOf(rels[..|rels| - 1], a) {
      ParentsAreGroupIds(rels[..|rels| - 1], a, g);
    } else {
      GroupIdIdempotent(r.to);
    }
  }

  /** Effective groups are group ids already, so normalising them again changes nothing. */
  lemma ReachedAreGroupIds(rels: seq<Relationship>, direct: seq<string>, g: string)
    requires ReachedFrom(rels, direct, g)
    ensures GroupId(g) == g
  {
    var v :| v in direct && Reaches(rels, GroupId(v), g);
    var path :| WalkFromTo(rels, path, GroupId(v), g);
    GroupIdIdempotent(v);
    if |path| > 1 {
      assert path[|path| - 1] in ParentsOf(rels, path[|path| - 2]);
      ParentsAreGroupIds(rels, path[|path| - 2], g);
    }
  }

  lemma InheritedTargetsStep(n: Node, k: nat)
    requires 0 < k <= |n.effectiveGroupIds| && GroupId(n.effectiveGroupIds[k - 1]) == n.effectiveGroupIds[k - 1]
    ensures var last := n.effectiveGroupIds[k - 1];
            InheritedTargets(n, k) == InheritedTargets(n, k - 1) + (if IsDirect(n, last) then [] else [last])
  {
  }

  /** The names that are not dropped, in order. */
  ghost function Kept(names: seq<string>, drop: string -> bool): seq<string>
  {
    if names == [] then []
    else Kept(names[..|names| - 1], drop) + (if drop(names[|names| - 1]) then [] else [names[|names| - 1]])
  }

  lemma {:induction false} KeptExact(names: seq<string>, drop: string -> bool)
    requires StrictlySorted(names)
    ensures forall g :: g in Kept(names, drop) <==> g in names && !drop(g)
    ensures StrictlySorted(Kept(names, drop))
  {
    if names != [] {
      var init, last := names[..|names| - 1], names[|names| - 1];
      KeptExact(init, drop);
      SnocMembers(names);
      assert forall g :: g in init ==> Less(g, last);
      if !drop(last) { SortedSnoc(Kept(init, drop), last); }
    }
  }

  ghost function DirectIn(n: Node): string -> bool
  {
    (g: string) => IsDirect(n, g)
  }

  lemma {:induction false} InheritedIsKept(rels: seq<Relationship>, n: Node, k: nat)
    requires k <= |n.effectiveGroupIds| && EffectiveOf(rels, n.groupIds, n.effectiveGroupIds)
    ensures InheritedTargets(n, k) == Kept(n.effectiveGroupIds[..k], DirectIn(n))
  {
    if k > 0 {
      var groups := n.effectiveGroupIds;
      InheritedIsKept(rels, n, k - 1);
      assert groups[k - 1] in groups;
      ReachedAreGroupIds(rels, n.groupIds, groups[k - 1]);
      InheritedTargetsStep(n, k);
      KeptStep(groups, DirectIn(n), k);
    }
  }

  lemma KeptStep(names: seq<string>, drop: string -> bool, k: nat)
    requires 0 < k <= |names|
    ensures Kept(names[..k], drop) == Kept(names[..k - 1], drop) + (if drop(names[k - 1]) then [] else [names[k - 1]])
  {
    TakeTake(names, k, k - 1);
  }

  lemma InheritedTargetsExact(rels: seq<Relationship>, n: Node)
    requires EffectiveOf(rels, n.groupIds, n.effectiveGroupIds)
    ensures forall g :: g in InheritedTargets(n, |n.effectiveGroupIds|) <==> g in n.effectiveGroupIds && !IsDirect(n, g)
    ensures StrictlySorted(InheritedTargets(n, |n.effectiveGroupIds|))
  {
    InheritedIsKept(rels, n, |n.effectiveGroupIds|);
    TakeAll(n.effectiveGroupIds);
    KeptExact(n.effectiveGroupIds, DirectIn(n));
  }

  lemma {:induction false} InheritedEdgeIn(nodes: seq<Node>, e: Edge)
    ensures e in InheritedEdges(nodes) <==> exists n :: n in nodes && e in InheritedOf(n)
  {
    if nodes != [] {
      var init, last := nodes[..|nodes| - 1], nodes[|nodes| - 1];
      InheritedEdgeIn(init, e);
      SnocMembers(nodes);
      if e in InheritedEdges(init) {
        var n :| n in init && e in InheritedOf(n);
        assert n in nodes;
      } else if e in InheritedOf(last) {
        assert last in nodes;
      }
    }
  }

  /** The inherited edges lead from each file to exactly the groups that are effective but not direct. */
  lemma InheritedEdgesExact(rels: seq<Relationship>, nodes: seq<Node>, e: Edge)
    requires forall n :: n in nodes && IsFile(n) ==> EffectiveOf(rels, n.groupIds, n.effectiveGroupIds)
    ensures e in InheritedEdges(nodes) <==>
            exists n :: n in nodes && IsFile(n)
                && e == Edge("EFFECTIVE_GROUP", n.id, e.target, n.id, Inherited)
                && ReachedFrom(rels, n.groupIds, e.target) && !IsDirect(n, e.target)
  {
    InheritedEdgeIn(nodes, e);
    forall n | n in nodes && IsFile(n)
      ensures e in InheritedOf(n) <==>
              e == InheritedEdge(n.id, e.target) && ReachedFrom(rels, n.groupIds, e.target)
              && !IsDirect(n, e.target)
    {
      var all := n.effectiveGroupIds;
      InheritedTargetsExact(rels, n);
      assert all[..|all|] == all;
      assert e.target in all <==> ReachedFrom(rels, n.groupIds, e.target);
      InheritedOfMember(n, e);
    }
  }

  lemma InheritedOfMember(n: Node, e: Edge)
    requires IsFile(n)
    ensures e in InheritedOf(n) <==>
            e == InheritedEdge(n.id, e.target) && e.target in InheritedTargets(n, |n.effectiveGroupIds|)
  {
    var targets := InheritedTargets(n, |n.effectiveGroupIds|);
    if e == InheritedEdge(n.id, e.target) && e.target in targets {
      var i :| 0 <= i < |targets| && targets[i] == e.target;
      assert InheritedOf(n)[i] == e;
    }
  }
}
