/** Whole runs of the workspace store: the lifecycle of a session and the exclusion a lease gives. */
module Leases {
  import opened Wrappers
  import opened Ordering
  import opened Workspace

  datatype Op =
    | Create(input: Input)
    | Quarantine(id: string, version: Option<string>, hash: Option<string>, reason: string)
    | UpdatePolicy(id: string, policyVersion: string, policyHash: string)
    | Commit(id: string, sha: string)
    | Close(id: string)
    | Cleanup
    | Tick(seconds: nat)

  ghost function Step(s: State, op: Op): State
  {
    match op
    case Create(input) => Created(s, input).0
    case Quarantine(id, version, hash, reason) => QuarantinedBy(s, id, version, hash, reason).0
    case UpdatePolicy(id, version, hash) => PolicyUpdated(s, id, version, hash).0
    case Commit(id, sha) => MarkedCommitted(s, id, sha).0
    case Close(id) => ClosedBy(s, id).0
    case Cleanup => Cleaned(s).0
    case Tick(seconds) => s.(now := s.now + seconds)
  }

  ghost function Run(s: State, ops: seq<Op>): State
    decreases |ops|
  {
    if ops == [] then s else Run(Step(s, ops[0]), ops[1..])
  }

  // ---------------------------------------------------------------- lifecycle

  ghost predicate SessionOk(id: string, w: Session)
  {
    && w.id == id
    && (w.status == Ready <==> w.closedAt.None?)
    && (w.status == Ready ==> w.commitSha.None? && w.revokedAt.None? && w.revokedReason.None?)
    && (w.status == Committed ==> w.commitSha.Some?)
    && w.status != Revoked
    && (w.mode == "read_only" || w.mode == "writable")
    && (w.mode == "writable" ==> w.branchName.Some? && w.leaseId == Some(BranchOf(w)))
    && (w.mode == "read_only" ==> w.leaseId.None?)
    && w.createdAt < w.expiresAt
  }

  function BranchOf(w: Session): LeaseKey
    requires w.branchName.Some?
  {
    LeaseKey(w.repositoryId, w.branchName.value)
  }

  ghost predicate Lifecycle(s: State)
  {
    && (forall id :: id in s.sessions ==> SessionOk(id, s.sessions[id]))
    && (forall k :: k in s.leases ==> s.leases[k].id == k)
  }

  predicate Closes(op: Op, id: string)
  {
    match op
    case Close(target) => target == id
    case _ => false
  }

  /** Which status a session may be in after one call. */
  predicate MayFollow(id: string, from: Session, to: Session, op: Op)
  {
    match from.status
    case Ready => true
    case Committed =>
      && to.commitSha == from.commitSha && to.closedAt.Some?
      && (to.status == Committed || (to.status == Closed && Closes(op, id)))
    case _ =>
      || to.status == from.status
      || (to.status == Closed && Closes(op, id))
      || (to.status == Ready && op.Create? && SameRequest(from, op.input))
  }

  /** What one call leaves behind: every record is in order and follows from the one before it. */
  ghost predicate Follows(s: State, op: Op, s': State)
  {
    && (forall id :: id in s'.sessions ==> SessionOk(id, s'.sessions[id]))
    && (forall id :: id in s.sessions ==> id in s'.sessions && MayFollow(id, s.sessions[id], s'.sessions[id], op))
    && (forall k :: k in s'.leases ==> s'.leases[k].id == k)
  }

  /** A call that saves one record and changes leases at most by releasing or taking one. */
  lemma SavedFollows(s: State, op: Op, leases: map<LeaseKey, Lease>, w: Session)
    requires Lifecycle(s) && SessionOk(w.id, w)
    requires w.id in s.sessions ==> MayFollow(w.id, s.sessions[w.id], w, op)
    requires forall k :: k in leases ==> leases[k].id == k
    ensures Follows(s, op, Saved(s.(leases := leases), w))
  {
    SameFollows(s, op);
  }

  lemma SameFollows(s: State, op: Op)
    requires Lifecycle(s)
    ensures Follows(s, op, s)
  {
  }

  /** A create either changes nothing or saves a new session under a free or finished id. */
  lemma CreateShape(s: State, i: Input)
    requires Created(s, i).0 != s
    ensures var s' := Created(s, i).0;
            && i.id in s'.sessions && s' == Saved(s.(leases := s'.leases), s'.sessions[i.id])
            && s'.sessions[i.id] ==
                 NewSession(i, if i.mode == "writable" then s'.sessions[i.id].leaseId else None, s.now)
            && (i.mode == "writable" ==>
                  i.branchName.Some? && s'.sessions[i.id].leaseId == Some(LeaseKey(i.repositoryId, i.branchName.value)))
            && i.mode in ["read_only", "writable"] && i.ttlSeconds > 0
    ensures i.id in s.sessions ==> s.sessions[i.id].status != Ready && s.sessions[i.id].status != Committed
                                   && SameRequest(s.sessions[i.id], i)
    ensures var s' := Created(s, i).0;
            forall k :: k in s'.leases ==> s'.leases[k].id == k || (k in s.leases && s'.leases[k] == s.leases[k])
  {
  }

  lemma CreateFollows(s: State, i: Input)
    requires Lifecycle(s)
    ensures Follows(s, Create(i), Created(s, i).0)
  {
    var s' := Created(s, i).0;
    SameFollows(s, Create(i));
    if s' != s {
      CreateShape(s, i);
      NewSessionOk(i, s'.sessions[i.id].leaseId, s.now);
      SavedFollows(s, Create(i), s'.leases, s'.sessions[i.id]);
    }
  }

  lemma NewSessionOk(i: Input, leaseId: Option<LeaseKey>, now: int)
    requires i.mode in ["read_only", "writable"] && i.ttlSeconds > 0
    requires if i.mode == "writable"
             then i.branchName.Some? && leaseId == Some(LeaseKey(i.repositoryId, i.branchName.value))
             else leaseId.None?
    ensures SessionOk(i.id, NewSession(i, leaseId, now))
  {
    assert "read_only"[0] != "writable"[0];
  }

  lemma QuarantineFollows(s: State, op: Op)
    requires Lifecycle(s) && op.Quarantine? && op.id in s.sessions
    ensures Follows(s, op, Step(s, op))
  {
    assert SessionOk(op.id, s.sessions[op.id]);
    var s' := Step(s, op);
    SavedFollows(s, op, s'.leases, s'.sessions[op.id]);
  }

  lemma CommitFollows(s: State, op: Op)
    requires Lifecycle(s) && op.Commit? && op.id in s.sessions && s.sessions[op.id].status == Ready
    ensures Follows(s, op, Step(s, op))
  {
    assert SessionOk(op.id, s.sessions[op.id]);
    var s' := Step(s, op);
    SavedFollows(s, op, s'.leases, s'.sessions[op.id]);
  }

  lemma CloseFollows(s: State, op: Op)
    requires Lifecycle(s) && op.Close? && op.id in s.sessions && s.sessions[op.id].status != Closed
    ensures Follows(s, op, Step(s, op))
  {
    assert SessionOk(op.id, s.sessions[op.id]);
    var s' := Step(s, op);
    SavedFollows(s, op, s'.leases, s'.sessions[op.id]);
  }

  lemma UpdateFollows(s: State, op: Op)
    requires Lifecycle(s) && op.UpdatePolicy? && op.id in s.sessions
    ensures Follows(s, op, Step(s, op))
  {
    assert SessionOk(op.id, s.sessions[op.id]);
    SavedFollows(s, op, s.leases, Step(s, op).sessions[op.id]);
  }

  lemma CleanupFollows(s: State)
    requires Lifecycle(s)
    ensures Follows(s, Cleanup, Step(s, Cleanup))
  {
    SweptFollows(s, State(Swept(s.sessions, s.now), SweptLeases(s), s.now));
  }

  lemma SweptFollows(s: State, s': State)
    requires Lifecycle(s)
    requires s'.sessions == Swept(s.sessions, s.now) && s'.leases == SweptLeases(s)
    ensures Follows(s, Cleanup, s')
  {
    forall id | id in s.sessions
      ensures SessionOk(id, s'.sessions[id]) && MayFollow(id, s.sessions[id], s'.sessions[id], Cleanup)
    {
      assert SessionOk(id, s.sessions[id]);
    }
  }

  lemma StepLifecycle(s: State, op: Op)
    requires Lifecycle(s)
    ensures Lifecycle(Step(s, op))
    ensures forall id :: id in s.sessions ==>
              id in Step(s, op).sessions && MayFollow(id, s.sessions[id], Step(s, op).sessions[id], op)
  {
    SameFollows(s, op);
    match op {
      case Create(input) => CreateFollows(s, input);
      case Quarantine(id, _, _, _) => if id in s.sessions { QuarantineFollows(s, op); }
      case UpdatePolicy(id, _, _) => if id in s.sessions { UpdateFollows(s, op); }
      case Commit(id, _) => if id in s.sessions && s.sessions[id].status == Ready { CommitFollows(s, op); }
      case Close(id) => if id in s.sessions && s.sessions[id].status != Closed { CloseFollows(s, op); }
      case Cleanup => CleanupFollows(s);
      case Tick(_) =>
    }
  }

  /** Every record in every reachable state obeys the lifecycle. */
  lemma {:induction false} RunLifecycle(s: State, ops: seq<Op>)
    requires Lifecycle(s)
    ensures Lifecycle(Run(s, ops))
    decreases |ops|
  {
    if ops != [] {
      StepLifecycle(s, ops[0]);
      RunLifecycle(Step(s, ops[0]), ops[1..]);
    }
  }

  /** A committed session keeps its sha, and can only ever be closed, whatever is called on the store. */
  lemma {:induction false} CommittedOnlyCloses(s: State, ops: seq<Op>, id: string)
    requires Lifecycle(s) && id in s.sessions && s.sessions[id].status == Committed
    requires forall i :: 0 <= i < |ops| ==> !Closes(ops[i], id)
    ensures id in Run(s, ops).sessions
    ensures Run(s, ops).sessions[id].status == Committed
    ensures Run(s, ops).sessions[id].commitSha == s.sessions[id].commitSha
    decreases |ops|
  {
    if ops != [] {
      StepLifecycle(s, ops[0]);
      CommittedOnlyCloses(Step(s, ops[0]), ops[1..], id);
    }
  }

  // ---------------------------------------------------------------- exclusion

  /** A session that may write to its branch now. */
  predicate Writing(w: Session, now: int)
  {
    w.status == Ready && w.mode == "writable" && w.expiresAt > now
  }

  ghost predicate HoldsLease(s: State, w: Session)
  {
    && w.leaseId.Some? && w.leaseId.value in s.leases
    && var l := s.leases[w.leaseId.value];
    && LeaseHeld(l, s.now) && l.workspaceId == w.id && l.expiresAt == w.expiresAt
  }

  /** Writing sessions hold the lease of their branch, and held leases belong to writing sessions. */
  ghost predicate Exclusive(s: State)
  {
    && (forall id :: id in s.sessions && Writing(s.sessions[id], s.now) ==> HoldsLease(s, s.sessions[id]))
    && (forall k :: k in s.leases && LeaseHeld(s.leases[k], s.now) ==> HeldByWriter(s, k))
  }

  ghost predicate HeldByWriter(s: State, k: LeaseKey)
    requires k in s.leases
  {
    var id := s.leases[k].workspaceId;
    && id in s.sessions && Writing(s.sessions[id], s.now)
    && s.sessions[id].leaseId == Some(k) && s.sessions[id].expiresAt == s.leases[k].expiresAt
  }

  predicate WriteSameBranch(s: State, a: string, b: string)
  {
    && a in s.sessions && Writing(s.sessions[a], s.now)
    && b in s.sessions && Writing(s.sessions[b], s.now)
    && s.sessions[a].repositoryId == s.sessions[b].repositoryId
    && s.sessions[a].branchName == s.sessions[b].branchName
  }

  /** The guarantee: one writing session per branch of a repository. */
  lemma OneWriterPerBranch(s: State, a: string, b: string)
    requires Lifecycle(s) && Exclusive(s) && WriteSameBranch(s, a, b)
    ensures a == b
  {
    assert HoldsLease(s, s.sessions[a]) && HoldsLease(s, s.sessions[b]);
  }

  /** The lease of the branch, if it is held, is held by this session. */
  ghost predicate NotAnothers(s: State, w: Session)
  {
    w.leaseId.Some? && w.leaseId.value in s.leases && LeaseHeld(s.leases[w.leaseId.value], s.now) ==>
      s.leases[w.leaseId.value].workspaceId == w.id
  }

  /** The call releases a lease in the name of this session. */
  predicate Releases(op: Op, id: string, w: Session, now: int)
  {
    match op
    case Quarantine(target, _, _, _) => target == id && w.status == Ready
    case Commit(target, _) => target == id && w.status == Ready
    case Close(target) => target == id && w.status != Closed
    case Cleanup => Overdue(w, now)
    case _ => false
  }

  /** Nobody releases a lease that another session holds. A caller can look this up beforehand. */
  ghost predicate ReleasesOwn(s: State, op: Op)
  {
    forall id :: id in s.sessions && Releases(op, id, s.sessions[id], s.now) ==> NotAnothers(s, s.sessions[id])
  }

  /** A session that was not writing takes a lease that was not held. */
  lemma TakeExclusive(s: State, key: LeaseKey, l: Lease, w: Session)
    requires Lifecycle(s) && Exclusive(s)
    requires key in s.leases ==> !LeaseHeld(s.leases[key], s.now)
    requires w.id in s.sessions ==> !Writing(s.sessions[w.id], s.now)
    requires Writing(w, s.now) && w.leaseId == Some(key)
    requires l.status == Active && l.workspaceId == w.id && l.expiresAt == w.expiresAt
    ensures Exclusive(Saved(s.(leases := s.leases[key := l]), w))
  {
    var s' := Saved(s.(leases := s.leases[key := l]), w);
    forall id | id in s'.sessions && Writing(s'.sessions[id], s'.now) ensures HoldsLease(s', s'.sessions[id])
    {
      if id != w.id { assert HoldsLease(s, s.sessions[id]); }
    }
    forall k | k in s'.leases && LeaseHeld(s'.leases[k], s'.now) ensures HeldByWriter(s', k)
    {
      if k != key { assert HeldByWriter(s, k); }
    }
  }

  /** A session that was not writing, and does not, takes none. */
  lemma ReadExclusive(s: State, w: Session)
    requires Lifecycle(s) && Exclusive(s) && !Writing(w, s.now)
    requires w.id in s.sessions ==> !Writing(s.sessions[w.id], s.now)
    ensures Exclusive(Saved(s, w))
  {
    var s' := Saved(s, w);
    forall id | id in s'.sessions && Writing(s'.sessions[id], s'.now) ensures HoldsLease(s', s'.sessions[id])
    {
      assert HoldsLease(s, s.sessions[id]);
    }
    forall k | k in s'.leases && LeaseHeld(s'.leases[k], s'.now) ensures HeldByWriter(s', k)
    {
      assert HeldByWriter(s, k);
    }
  }

  /** A create that changes anything met no held lease: the session that holds it is writing. */
  lemma HeldIsRefused(s: State, i: Input, key: LeaseKey)
    requires Lifecycle(s) && Exclusive(s) && Created(s, i).0 != s
    requires i.mode == "writable" && i.branchName.Some? && key == LeaseKey(i.repositoryId, i.branchName.value)
    ensures key in s.leases ==> !LeaseHeld(s.leases[key], s.now)
  {
    assert key in s.leases && LeaseHeld(s.leases[key], s.now) ==> HeldByWriter(s, key);
  }

  lemma CreateExclusive(s: State, i: Input)
    requires Lifecycle(s) && Exclusive(s)
    ensures Exclusive(Created(s, i).0)
  {
    var s' := Created(s, i).0;
    if s' != s {
      var w := s'.sessions[i.id];
      if i.mode == "writable" {
        var key := LeaseKey(i.repositoryId, i.branchName.value);
        HeldIsRefused(s, i, key);
        TakeExclusive(s, key, s'.leases[key], w);
      } else {
        ReadExclusive(s, w);
      }
    }
  }

  /** One session leaves the writing state and the lease it names is released. */
  lemma LeaveExclusiveIff(s: State, w: Session, w': Session)
    requires Lifecycle(s) && Exclusive(s) && w.id in s.sessions && s.sessions[w.id] == w
    requires w'.id == w.id && w'.leaseId == w.leaseId && w'.status != Ready
    ensures Exclusive(Saved(Release(s, w.leaseId), w')) <==> NotAnothers(s, w)
  {
    var s' := Saved(Release(s, w.leaseId), w');
    if NotAnothers(s, w) {
      forall id | id in s'.sessions && Writing(s'.sessions[id], s'.now) ensures HoldsLease(s', s'.sessions[id])
      {
        assert HoldsLease(s, s.sessions[id]);
      }
      forall k | k in s'.leases && LeaseHeld(s'.leases[k], s'.now) ensures HeldByWriter(s', k)
      {
        assert HeldByWriter(s, k);
      }
    } else {
      var k := w.leaseId.value;
      assert HeldByWriter(s, k);
      var other := s.leases[k].workspaceId;
      assert s'.sessions[other] == s.sessions[other] && !HoldsLease(s', s'.sessions[other]);
    }
  }

  lemma CleanupExclusiveIff(s: State)
    requires Lifecycle(s) && Exclusive(s)
    ensures Exclusive(Cleaned(s).0) <==> ReleasesOwn(s, Cleanup)
  {
    var s' := Cleaned(s).0;
    if ReleasesOwn(s, Cleanup) {
      forall id | id in s'.sessions && Writing(s'.sessions[id], s'.now) ensures HoldsLease(s', s'.sessions[id])
      {
        var k := s.sessions[id].leaseId.value;
        assert HoldsLease(s, s.sessions[id]);
        forall late | late in s.sessions && Overdue(s.sessions[late], s.now)
          ensures s.sessions[late].leaseId != Some(k)
        {
          assert Releases(Cleanup, late, s.sessions[late], s.now);
        }
      }
      forall k | k in s'.leases && LeaseHeld(s'.leases[k], s'.now) ensures HeldByWriter(s', k)
      {
        assert HeldByWriter(s, k);
      }
    } else {
      var late :| late in s.sessions && Overdue(s.sessions[late], s.now) && !NotAnothers(s, s.sessions[late]);
      var k := s.sessions[late].leaseId.value;
      assert HeldByWriter(s, k);
      var other := s.leases[k].workspaceId;
      assert NamedByOverdue(s.sessions, k, s.now);
      assert s'.sessions[other] == s.sessions[other] && !HoldsLease(s', s'.sessions[other]);
    }
  }

  lemma ReleasesOne(s: State, op: Op, id: string)
    requires id in s.sessions && Releases(op, id, s.sessions[id], s.now) && !op.Cleanup?
    ensures ReleasesOwn(s, op) <==> NotAnothers(s, s.sessions[id])
  {
  }

  /** Exclusion survives a call exactly when the call releases no lease that another session holds. */
  lemma StepExclusiveIff(s: State, op: Op)
    requires Lifecycle(s) && Exclusive(s)
    ensures Exclusive(Step(s, op)) <==> ReleasesOwn(s, op)
  {
    match op {
      case Create(input) => CreateExclusive(s, input);
      case Quarantine(id, version, hash, reason) =>
        if id in s.sessions && s.sessions[id].status == Ready {
          LeaveExclusiveIff(s, s.sessions[id], Step(s, op).sessions[id]);
          ReleasesOne(s, op, id);
        } else if id in s.sessions {
          RestampExclusive(s, s.sessions[id], Step(s, op).sessions[id]);
        }
      case UpdatePolicy(id, version, hash) =>
        if id in s.sessions { RestampExclusive(s, s.sessions[id], Step(s, op).sessions[id]); }
      case Commit(id, sha) =>
        if id in s.sessions && s.sessions[id].status == Ready {
          LeaveExclusiveIff(s, s.sessions[id], Step(s, op).sessions[id]);
          ReleasesOne(s, op, id);
        }
      case Close(id) =>
        if id in s.sessions && s.sessions[id].status != Closed {
          LeaveExclusiveIff(s, s.sessions[id], Step(s, op).sessions[id]);
          ReleasesOne(s, op, id);
        }
      case Cleanup => CleanupExclusiveIff(s);
      case Tick(seconds) => TickExclusive(s, seconds);
    }
  }

  /** Stamping a policy or a revocation on a session does not touch exclusion. */
  lemma RestampExclusive(s: State, w: Session, w': Session)
    requires Lifecycle(s) && Exclusive(s) && w.id in s.sessions && s.sessions[w.id] == w
    requires w'.id == w.id && w'.leaseId == w.leaseId && w'.status == w.status && w'.mode == w.mode
    requires w'.expiresAt == w.expiresAt
    ensures Exclusive(Saved(s, w'))
  {
    var s' := Saved(s, w');
    forall id | id in s'.sessions && Writing(s'.sessions[id], s'.now) ensures HoldsLease(s', s'.sessions[id])
    {
      assert HoldsLease(s, s.sessions[id]);
    }
    forall k | k in s'.leases && LeaseHeld(s'.leases[k], s'.now) ensures HeldByWriter(s', k)
    {
      assert HeldByWriter(s, k);
    }
  }

  lemma TickExclusive(s: State, seconds: nat)
    requires Exclusive(s)
    ensures Exclusive(s.(now := s.now + seconds))
  {
    var s' := s.(now := s.now + seconds);
    forall id | id in s'.sessions && Writing(s'.sessions[id], s'.now) ensures HoldsLease(s', s'.sessions[id])
    {
      assert HoldsLease(s, s.sessions[id]);
    }
    forall k | k in s'.leases && LeaseHeld(s'.leases[k], s'.now) ensures HeldByWriter(s', k)
    {
      assert HeldByWriter(s, k);
    }
  }

  ghost predicate AllReleaseOwn(s: State, ops: seq<Op>)
    decreases |ops|
  {
    ops == [] || (ReleasesOwn(s, ops[0]) && AllReleaseOwn(Step(s, ops[0]), ops[1..]))
  }

  /** Over a whole run whose calls release only their own leases, exclusion holds at the end,
      and so does it after every prefix, which is a run of the same kind. */
  lemma {:induction false} RunExclusive(s: State, ops: seq<Op>)
    requires Lifecycle(s) && Exclusive(s) && AllReleaseOwn(s, ops)
    ensures Lifecycle(Run(s, ops)) && Exclusive(Run(s, ops))
    decreases |ops|
  {
    if ops != [] {
      StepLifecycle(s, ops[0]);
      StepExclusiveIff(s, ops[0]);
      RunExclusive(Step(s, ops[0]), ops[1..]);
    }
  }

  /** From an empty store no such run ever has two sessions writing to one branch. */
  lemma NoTwoWriters(ops: seq<Op>, a: string, b: string)
    requires AllReleaseOwn(State(map[], map[], 0), ops)
    ensures var s := Run(State(map[], map[], 0), ops);
            WriteSameBranch(s, a, b) ==> a == b
  {
    var s0 := State(map[], map[], 0);
    RunExclusive(s0, ops);
    var s := Run(s0, ops);
    if WriteSameBranch(s, a, b) { OneWriterPerBranch(s, a, b); }
  }

  // ---------------------------------------------------------------- the condition is needed

  function Ask(id: string): Input
  {
    Input(id, "repo", "actor", "tenant", "main", "sha", Some("branch"), "writable", [], "", Scope("", None, None), 60)
  }

  /** One session commits, a second takes the branch, the first is closed, a third takes the branch too. */
  lemma ClosingACommittedSessionFreesTheBranch()
    ensures var s := Run(State(map[], map[], 0),
                         [Create(Ask("ws1")), Commit("ws1", "c1"), Create(Ask("ws2")), Close("ws1"),
                          Create(Ask("ws3"))]);
            WriteSameBranch(s, "ws2", "ws3") && "ws2" != "ws3"
  {
    var o1, o2, o3 := Create(Ask("ws1")), Commit("ws1", "c1"), Create(Ask("ws2"));
    var o4, o5 := Close("ws1"), Create(Ask("ws3"));
    assert "ws1" != "ws2" by { assert "ws1"[2] != "ws2"[2]; }
    assert "ws2" != "ws3" by { assert "ws2"[2] != "ws3"[2]; }
    var s0 := State(map[], map[], 0);
    var s1 := Step(s0, o1);
    TakesBranch(s0, "ws1");
    var s2 := Step(s1, o2);
    LetsGo(s1, "ws1", o2);
    var s3 := Step(s2, o3);
    TakesBranch(s2, "ws2");
    var s4 := Step(s3, o4);
    LetsGo(s3, "ws1", o4);
    TakesBranch(s4, "ws3");
    RunCons(s0, o1, [o2, o3, o4, o5]);
    RunCons(s1, o2, [o3, o4, o5]);
    RunCons(s2, o3, [o4, o5]);
    RunCons(s3, o4, [o5]);
    RunCons(s4, o5, []);
  }

  /** A new id gets a writing session whenever the lease of the branch is not held. */
  lemma TakesBranch(s: State, id: string)
    requires id !in s.sessions
    requires BranchKey() in s.leases ==> s.leases[BranchKey()].status == Released
    ensures var s' := Step(s, Create(Ask(id)));
            s' == State(s.sessions[id := NewSession(Ask(id), Some(BranchKey()), s.now)],
                        s.leases[BranchKey() := Lease(BranchKey(), id, "actor", Active, s.now, s.now + 60, None)],
                        s.now)
  {
  }

  /** Committing or closing releases the lease, whoever holds it. */
  lemma LetsGo(s: State, id: string, op: Op)
    requires id in s.sessions && s.sessions[id].leaseId == Some(BranchKey()) && BranchKey() in s.leases
    requires s.sessions[id].id == id
    requires (op.Commit? && op.id == id && s.sessions[id].status == Ready)
          || (op.Close? && op.id == id && s.sessions[id].status != Closed)
    ensures var s' := Step(s, op);
            && s'.sessions == s.sessions[id := s'.sessions[id]]
            && s'.sessions[id].leaseId == Some(BranchKey()) && s'.sessions[id].id == id
            && s'.sessions[id].status == (if op.Commit? then Committed else Closed)
            && s'.leases.Keys == s.leases.Keys && s'.leases[BranchKey()].status == Released
            && s'.now == s.now
  {
  }

  function BranchKey(): LeaseKey
  {
    LeaseKey("repo", "branch")
  }

  lemma RunCons(s: State, op: Op, ops: seq<Op>)
    ensures Run(s, [op] + ops) == Run(Step(s, op), ops)
  {
    assert ([op] + ops)[1..] == ops;
  }

  // ---------------------------------------------------------------- cleanup

  lemma {:induction false} OverdueIdsExact(sessions: map<string, Session>, ids: seq<string>, now: int)
    requires (forall id :: id in ids ==> id in sessions) && StrictlySorted(ids)
    ensures forall id :: id in OverdueIds(sessions, ids, now) <==> id in ids && Overdue(sessions[id], now)
    ensures StrictlySorted(OverdueIds(sessions, ids, now))
  {
    if ids != [] {
      var n := |ids| - 1;
      OverdueIdsExact(sessions, ids[..n], now);
      assert ids == ids[..n] + [ids[n]];
      var init := OverdueIds(sessions, ids[..n], now);
      forall id | id in init ensures Less(id, ids[n])
      {
        var i :| 0 <= i < n && ids[..n][i] == id;
        assert Less(ids[i], ids[n]);
      }
      SortedSnoc(init, ids[n]);
    }
  }

  /** The report names exactly the sessions that went from ready to expired, once each and in order;
      no other record changes, and none that is ready is overdue any more. */
  lemma CleanupExact(s: State)
    requires Lifecycle(s)
    ensures var (s', report) := Cleaned(s);
            && s'.sessions.Keys == s.sessions.Keys
            && StrictlySorted(report.expiredWorkspaceIds)
            && (forall id :: id in report.expiredWorkspaceIds <==>
                  id in s.sessions && s.sessions[id].status == Ready && s'.sessions[id].status == Expired)
            && (forall id :: id in s.sessions && id !in report.expiredWorkspaceIds ==>
                  s'.sessions[id] == s.sessions[id])
            && (forall id :: id in s'.sessions ==> !Overdue(s'.sessions[id], s.now))
  {
    SortedMembers(s.sessions);
    OverdueIdsExact(s.sessions, SortedKeys(s.sessions.Keys), s.now);
  }

  lemma {:induction false} OverdueLeasesExact(sessions: map<string, Session>, ids: seq<string>, now: int)
    requires forall id :: id in ids ==> id in sessions
    ensures forall k :: k in OverdueLeases(sessions, ids, now) <==> NamedIn(sessions, ids, k, now)
  {
    if ids != [] {
      var n := |ids| - 1;
      OverdueLeasesExact(sessions, ids[..n], now);
      TakeAll(ids);
      forall k ensures k in OverdueLeases(sessions, ids, now) <==> NamedIn(sessions, ids, k, now)
      {
        assert ids[n] in ids;
        NamedStep(sessions, ids, n, k, now);
      }
    }
  }

  /** The report also lists exactly the leases that overdue sessions name; those are released, whoever holds them,
      and every other lease is as it was. */
  lemma CleanupLeasesExact(s: State)
    requires Lifecycle(s)
    ensures var (s', report) := Cleaned(s);
            && s'.leases.Keys == s.leases.Keys
            && (forall k :: k in report.releasedLeaseIds <==>
                  exists id :: id in s.sessions && Overdue(s.sessions[id], s.now) && s.sessions[id].leaseId == Some(k))
            && (forall k :: k in s.leases && k in report.releasedLeaseIds ==>
                  s'.leases[k] == s.leases[k].(status := Released, releasedAt := Some(s.now)))
            && (forall k :: k in s.leases && k !in report.releasedLeaseIds ==> s'.leases[k] == s.leases[k])
  {
    var ids := SortedKeys(s.sessions.Keys);
    SortedMembers(s.sessions);
    OverdueLeasesExact(s.sessions, ids, s.now);
    forall k ensures NamedIn(s.sessions, ids, k, s.now) <==> NamedByOverdue(s.sessions, k, s.now) {}
  }

  lemma {:induction false} NothingOverdue(sessions: map<string, Session>, ids: seq<string>, now: int)
    requires forall id :: id in ids ==> id in sessions
    requires forall id :: id in sessions ==> !Overdue(sessions[id], now)
    ensures OverdueIds(sessions, ids, now) == [] && OverdueLeases(sessions, ids, now) == []
  {
    if ids != [] { NothingOverdue(sessions, ids[..|ids| - 1], now); }
  }

  /** A second cleanup at the same time changes nothing and reports nothing. */
  lemma CleanupIdempotent(s: State)
    requires Lifecycle(s)
    ensures Cleaned(Cleaned(s).0) == (Cleaned(s).0, CleanupReport([], []))
  {
    var s' := Cleaned(s).0;
    CleanupExact(s);
    SweptFixed(s');
    SortedMembers(s'.sessions);
    NothingOverdue(s'.sessions, SortedKeys(s'.sessions.Keys), s'.now);
  }

  lemma SweptFixed(s: State)
    requires forall id :: id in s.sessions ==> !Overdue(s.sessions[id], s.now)
    ensures Swept(s.sessions, s.now) == s.sessions && SweptLeases(s) == s.leases
  {
    forall k ensures !NamedByOverdue(s.sessions, k, s.now) {}
  }
}
