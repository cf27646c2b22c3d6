/** What every call on the workspace store answers and records, field by field, and over whole runs where the sha of a
    committed session comes from. */
module Answers {
  import opened Wrappers
  import opened Ordering
  import opened Workspace
  import opened Leases

  datatype Answer =
    | Stored(result: Result<Session, StoreError>)
    | Found(session: Option<Session>)
    | Swept(report: CleanupReport)
    | Nothing

  /** A call and its answer. */
  ghost function Call(s: State, op: Op): (State, Answer)
  {
    match op
    case Create(input) => var (s', r) := Created(s, input); (s', Stored(r))
    case Quarantine(id, version, hash, reason) => var (s', r) := QuarantinedBy(s, id, version, hash, reason); (s',
        Stored(r))
    case UpdatePolicy(id, version, hash) => var (s', r) := PolicyUpdated(s, id, version, hash); (s', Stored(r))
    case Commit(id, sha) => var (s', r) := MarkedCommitted(s, id, sha); (s', Stored(r))
    case Close(id) => var (s', r) := ClosedBy(s, id); (s', Found(r))
    case Cleanup => var (s', r) := Cleaned(s); (s', Swept(r))
    case Tick(seconds) => (s.(now := s.now + seconds), Nothing)
  }

  lemma CallIsStep(s: State, op: Op)
    ensures Call(s, op).0 == Step(s, op)
  {
  }

  /** No record but that of this id is touched, and time stands still. */
  ghost predicate OnlyRecord(s: State, s': State, id: string)
  {
    s'.now == s.now && id in s'.sessions && forall other :: other != id ==>
        Lookup(s'.sessions, other) == Lookup(s.sessions, other)
  }

  /** The lease of this key, if there is one, is released now; every other lease is as it was. */
  ghost predicate LeaseGone(s: State, s': State, key: Option<LeaseKey>)
  {
    && s'.leases.Keys == s.leases.Keys
    && forall k :: k in s.leases ==>
         && (key != Some(k) ==> s'.leases[k] == s.leases[k])
         && (key == Some(k) ==>
               && s'.leases[k].status == Released && s'.leases[k].releasedAt == Some(s.now)
               && s'.leases[k].id == s.leases[k].id && s'.leases[k].workspaceId == s.leases[k].workspaceId
               && s'.leases[k].actorId == s.leases[k].actorId && s'.leases[k].acquiredAt == s.leases[k].acquiredAt
               && s'.leases[k].expiresAt == s.leases[k].expiresAt)
  }

  /** Everything a request fixes is as it was. */
  predicate SameWork(w: Session, w': Session)
  {
    && w'.id == w.id && w'.repositoryId == w.repositoryId && w'.actorId == w.actorId && w'.tenantId == w.tenantId
    && w'.baseRef == w.baseRef && w'.baseCommitSha == w.baseCommitSha && w'.branchName == w.branchName
    && w'.mode == w.mode && w'.allowedPaths == w.allowedPaths && w'.rest == w.rest && w'.leaseId == w.leaseId
    && w'.createdAt == w.createdAt && w'.expiresAt == w.expiresAt
  }

  /** The policy stamp is as it was. */
  predicate SamePolicy(w: Session, w': Session)
  {
    w'.scope == w.scope && w'.policyVersion == w.policyVersion && w'.policyHash == w.policyHash
  }

  predicate SameRevocation(w: Session, w': Session)
  {
    w'.revokedAt == w.revokedAt && w'.revokedReason == w.revokedReason
  }

  /** A commit of a ready session records exactly the sha it was given, closes the session and lets its lease go; any
      other commit is refused and changes nothing. */
  lemma CommitAnswers(s: State, id: string, sha: string)
    requires Lifecycle(s)
    ensures var (s', a) := Call(s, Commit(id, sha));
            && (id !in s.sessions ==> s' == s && a == Stored(Err(NotFound)))
            && (id in s.sessions && s.sessions[id].status != Ready ==> s' == s && a == Stored(Err(Conflict)))
            && (id in s.sessions && s.sessions[id].status == Ready ==>
                  && OnlyRecord(s, s', id) && LeaseGone(s, s', s.sessions[id].leaseId)
                  && var w, w' := s.sessions[id], s'.sessions[id];
                  && a == Stored(Ok(w')) && SameWork(w, w') && SamePolicy(w, w') && SameRevocation(w, w')
                  && w'.status == Committed && w'.commitSha == Some(sha) && w'.closedAt == Some(s.now))
  {
  }

  /** A close ends any session that is not closed and lets its lease go; it answers the record, if there is one. */
  lemma CloseAnswers(s: State, id: string)
    requires Lifecycle(s)
    ensures var (s', a) := Call(s, Close(id));
            && (id !in s.sessions ==> s' == s && a == Found(None))
            && (id in s.sessions && s.sessions[id].status == Closed ==> s' == s && a == Found(Some(s.sessions[id])))
            && (id in s.sessions && s.sessions[id].status != Closed ==>
                  && OnlyRecord(s, s', id) && LeaseGone(s, s', s.sessions[id].leaseId)
                  && var w, w' := s.sessions[id], s'.sessions[id];
                  && a == Found(Some(w')) && SameWork(w, w') && SamePolicy(w, w') && SameRevocation(w, w')
                  && w'.status == Closed && w'.commitSha == w.commitSha && w'.closedAt == Some(s.now))
  {
  }

  /** A quarantine stamps any session with the policy and the reason it is given; it ends a ready one and lets its
      lease go, and leaves the status, closing time and lease of any other as they are. */
  lemma QuarantineAnswers(s: State, id: string, version: Option<string>, hash: Option<string>, reason: string)
    requires Lifecycle(s)
    ensures var (s', a) := Call(s, Quarantine(id, version, hash, reason));
            && (id !in s.sessions ==> s' == s && a == Stored(Err(NotFound)))
            && (id in s.sessions ==>
                  && OnlyRecord(s, s', id)
                  && var w, w' := s.sessions[id], s'.sessions[id];
                  && a == Stored(Ok(w')) && SameWork(w, w') && w'.scope == w.scope && w'.commitSha == w.commitSha
                  && w'.policyVersion == version && w'.policyHash == hash
                  && w'.revokedAt == Some(s.now) && w'.revokedReason == Some(reason)
                  && (if w.status == Ready
                      then w'.status == Quarantined && w'.closedAt == Some(s.now) && LeaseGone(s, s', w.leaseId)
                      else w'.status == w.status && w'.closedAt == w.closedAt && s'.leases == s.leases))
  {
  }

  /** A policy update stamps the session and its scope with the version and hash it is given, and nothing else. */
  lemma UpdateAnswers(s: State, id: string, version: string, hash: string)
    requires Lifecycle(s)
    ensures var (s', a) := Call(s, UpdatePolicy(id, version, hash));
            && s'.leases == s.leases
            && (id !in s.sessions ==> s' == s && a == Stored(Err(NotFound)))
            && (id in s.sessions ==>
                  && OnlyRecord(s, s', id)
                  && var w, w' := s.sessions[id], s'.sessions[id];
                  && a == Stored(Ok(w')) && SameWork(w, w') && SameRevocation(w, w')
                  && w'.status == w.status && w'.commitSha == w.commitSha && w'.closedAt == w.closedAt
                  && w'.policyVersion == w'.scope.policyVersion == Some(version)
                  && w'.policyHash == w'.scope.policyHash == Some(hash) && w'.scope.grants == w.scope.grants)
  {
  }

  // ---------------------------------------------------------------- create

  predicate Sound(i: Input)
  {
    (i.mode == "read_only" || i.mode == "writable") && i.ttlSeconds > 0
  }

  /** The request asks for a session that is there, ready and unexpired. */
  predicate Repeats(s: State, i: Input)
  {
    && i.id in s.sessions && s.sessions[i.id].status == Ready && s.sessions[i.id].expiresAt > s.now
    && Matches(s.sessions[i.id], i)
  }

  predicate Matches(w: Session, i: Input)
  {
    && w.repositoryId == i.repositoryId && w.actorId == i.actorId && w.tenantId == i.tenantId
    && w.baseRef == i.baseRef && w.baseCommitSha == i.baseCommitSha && w.branchName == i.branchName
    && w.mode == i.mode && w.allowedPaths == i.allowedPaths
  }

  /** The id is new, or that of a session which asked for the same and is over without a commit. */
  predicate IdIsFree(s: State, i: Input)
  {
    i.id in s.sessions ==>
      s.sessions[i.id].status != Ready && s.sessions[i.id].status != Committed && Matches(s.sessions[i.id], i)
  }

  /** The branch is held for another session or another actor. */
  predicate BranchIsTaken(s: State, i: Input)
  {
    && i.branchName.Some?
    && var k := LeaseKey(i.repositoryId, i.branchName.value);
    && k in s.leases && s.leases[k].status == Active && s.leases[k].expiresAt > s.now
    && (s.leases[k].workspaceId != i.id || s.leases[k].actorId != i.actorId)
  }

  /** A new record: all that was asked for, ready, from now for the time asked for, with its branch's lease if it
      writes. */
  predicate Fresh(s: State, w: Session, i: Input)
  {
    && w.id == i.id && Matches(w, i) && w.rest == i.rest && w.scope == i.scope
    && w.policyVersion == i.scope.policyVersion && w.policyHash == i.scope.policyHash
    && w.status == Ready && w.createdAt == s.now && w.expiresAt == s.now + i.ttlSeconds
    && w.revokedAt.None? && w.revokedReason.None? && w.commitSha.None? && w.closedAt.None?
    && (i.mode == "read_only" ==> w.leaseId.None?)
    && (i.mode == "writable" ==>
          i.branchName.Some? && w.leaseId == Some(LeaseKey(i.repositoryId, i.branchName.value)))
  }

  lemma CreateRefusals(s: State, i: Input)
    ensures var (s', a) := Call(s, Create(i));
            && (!Sound(i) ==> s' == s && a == Stored(Err(Validation)))
            && (Sound(i) && Repeats(s, i) ==> s' == s && a == Stored(Ok(s.sessions[i.id])))
            && (Sound(i) && !Repeats(s, i) && !IdIsFree(s, i) ==> s' == s && a == Stored(Err(Conflict)))
            && (Sound(i) && IdIsFree(s, i) && i.mode == "writable" && i.branchName.None? ==>
                  s' == s && a == Stored(Err(Validation)))
            && (Sound(i) && IdIsFree(s, i) && i.mode == "writable" && BranchIsTaken(s, i) ==>
                  s' == s && a == Stored(Err(Conflict)))
  {
  }

  /** Any other create records a fresh session; a writable one leaves its branch leased to it, and no other lease
      changes. */
  lemma CreateRecords(s: State, i: Input)
    requires Sound(i) && IdIsFree(s, i)
    requires i.mode == "writable" ==> i.branchName.Some? && !BranchIsTaken(s, i)
    ensures var (s', a) := Call(s, Create(i));
            && OnlyRecord(s, s', i.id) && Fresh(s, s'.sessions[i.id], i) && a == Stored(Ok(s'.sessions[i.id]))
            && (i.mode == "read_only" ==> s'.leases == s.leases)
            && (i.mode == "writable" ==>
                  var k := LeaseKey(i.repositoryId, i.branchName.value);
                  && k in s'.leases && s'.leases[k].status == Active && s'.leases[k].workspaceId == i.id
                  && s'.leases[k].actorId == i.actorId
                  && (forall other :: other != k ==> Lookup(s'.leases, other) == Lookup(s.leases, other))
                  && (if k in s.leases && s.leases[k].status == Active && s.leases[k].expiresAt > s.now
                      then s'.leases[k] == s.leases[k]
                      else s'.leases[k].id == k && s'.leases[k].acquiredAt == s.now && s'.leases[k].releasedAt.None?
                           && s'.leases[k].expiresAt == s.now + i.ttlSeconds))
  {
  }

  // ---------------------------------------------------------------- where a sha comes from

  /** Only a commit of a ready session makes a session committed, with the sha of that call. */
  lemma BecomesCommitted(s: State, op: Op, id: string)
    requires Lifecycle(s) && id in Step(s, op).sessions && Step(s, op).sessions[id].status == Committed
    requires id in s.sessions ==> s.sessions[id].status != Committed
    ensures op.Commit? && op.id == id && id in s.sessions && s.sessions[id].status == Ready
    ensures Step(s, op).sessions[id].commitSha == Some(op.sha)
  {
    match op {
      case Create(_) =>
      case Quarantine(_, _, _, _) =>
      case UpdatePolicy(_, _, _) =>
      case Commit(target, sha) => CommitAnswers(s, target, sha);
      case Close(_) =>
      case Cleanup =>
      case Tick(_) =>
    }
  }

  lemma {:induction false} RunSnoc(s: State, ops: seq<Op>)
    requires ops != []
    ensures Run(s, ops) == Step(Run(s, ops[..|ops| - 1]), ops[|ops| - 1])
    decreases |ops|
  {
    var init := ops[..|ops| - 1];
    if init == [] {
      assert ops == [ops[0]] && ops[1..] == [];
    } else {
      assert ops[1..][..|ops| - 2] == init[1..];
      RunSnoc(Step(s, ops[0]), ops[1..]);
    }
  }

  /** The session is committed with this sha. */
  predicate CommittedWith(s: State, id: string, sha: string)
  {
    id in s.sessions && s.sessions[id].status == Committed && s.sessions[id].commitSha == Some(sha)
  }

  predicate IsReady(s: State, id: string)
  {
    id in s.sessions && s.sessions[id].status == Ready
  }

  /** The n-th call of the run is a commit of the session with this sha, which was ready; from then on it is committed.
      */
  ghost predicate CommittedBy(s: State, ops: seq<Op>, id: string, n: nat, sha: string)
    requires n < |ops|
  {
    && ops[n] == Commit(id, sha) && IsReady(Run(s, ops[..n]), id)
    && forall k :: n < k <= |ops| ==> CommittedWith(Run(s, ops[..k]), id, sha)
  }

  lemma CommittedBySnoc(s: State, ops: seq<Op>, id: string, n: nat, sha: string)
    requires n + 1 < |ops| && CommittedBy(s, ops[..|ops| - 1], id, n, sha) && CommittedWith(Run(s, ops), id, sha)
    ensures CommittedBy(s, ops, id, n, sha)
  {
    var init := ops[..|ops| - 1];
    assert init[n] == ops[n];
    TakeTake(ops, |ops| - 1, n);
    TakeAll(ops);
    forall k | n < k <= |ops| ensures CommittedWith(Run(s, ops[..k]), id, sha)
    {
      if k < |ops| { TakeTake(ops, |ops| - 1, k); }
    }
  }

  /** A session that is committed after a call was so before, with the same sha, or the call committed it. */
  lemma LastCommits(s: State, ops: seq<Op>, id: string, sha: string)
    requires Lifecycle(s) && ops != [] && CommittedWith(Run(s, ops), id, sha)
    ensures var t, last := Run(s, ops[..|ops| - 1]), ops[|ops| - 1];
            CommittedWith(t, id, sha) || (last == Commit(id, sha) && IsReady(t, id))
  {
    var t, last := Run(s, ops[..|ops| - 1]), ops[|ops| - 1];
    RunLifecycle(s, ops[..|ops| - 1]);
    RunSnoc(s, ops);
    if id in t.sessions && t.sessions[id].status == Committed {
      StepLifecycle(t, last);
    } else {
      BecomesCommitted(t, last, id);
    }
  }

  /** A session that a run leaves committed was committed by one of its calls, and has held the sha of that call since.
      */
  lemma {:induction false} CommittedShaIsGiven(s: State, ops: seq<Op>, id: string, sha: string) returns (n: nat)
    requires Lifecycle(s) && !CommittedWith(s, id, sha) && CommittedWith(Run(s, ops), id, sha)
    ensures n < |ops| && CommittedBy(s, ops, id, n, sha)
    decreases |ops|
  {
    var init := ops[..|ops| - 1];
    LastCommits(s, ops, id, sha);
    if CommittedWith(Run(s, init), id, sha) {
      n := CommittedShaIsGiven(s, init, id, sha);
      CommittedBySnoc(s, ops, id, n, sha);
    } else {
      n := |ops| - 1;
      TakeAll(ops);
    }
  }

  // ---------------------------------------------------------------- cleanup

  /** The session has run out of time, and that is all that happened to it. */
  predicate RanOut(w: Session, w': Session, now: int)
  {
    && SameWork(w, w') && SamePolicy(w, w') && SameRevocation(w, w') && w'.commitSha == w.commitSha
    && w'.status == Expired && w'.closedAt == Some(now)
  }

  predicate OutOfTime(w: Session, now: int)
  {
    w.status == Ready && w.expiresAt <= now
  }

  lemma ExpireIsRanOut(w: Session, now: int)
    ensures RanOut(w, Expire(w, now), now)
  {
  }

  /** A cleanup answers with the overdue sessions, ends each of them and changes nothing else of it. */
  lemma CleanupAnswers(s: State)
    requires Lifecycle(s)
    ensures var (s', a) := Call(s, Cleanup);
            && a.Swept? && s'.now == s.now && s'.sessions.Keys == s.sessions.Keys
            && (forall id :: id in s.sessions && OutOfTime(s.sessions[id], s.now) ==>
                  RanOut(s.sessions[id], s'.sessions[id], s.now) && id in a.report.expiredWorkspaceIds)
            && (forall id :: id in s.sessions && !OutOfTime(s.sessions[id], s.now) ==>
                  s'.sessions[id] == s.sessions[id] && id !in a.report.expiredWorkspaceIds)
  {
    var (s', a) := Call(s, Cleanup);
    SortedMembers(s.sessions);
    OverdueIdsExact(s.sessions, SortedKeys(s.sessions.Keys), s.now);
    assert forall id :: id in a.report.expiredWorkspaceIds <==> id in s.sessions && Overdue(s.sessions[id], s.now);
    forall id | id in s.sessions && Overdue(s.sessions[id], s.now)
      ensures RanOut(s.sessions[id], s'.sessions[id], s.now)
    {
      assert s'.sessions[id] == Expire(s.sessions[id], s.now);
      ExpireIsRanOut(s.sessions[id], s.now);
    }
  }
}
