/** crates/treedx_store/src/workspace/mod.rs: workspace sessions and the writable lease of a branch. */
module Workspace {
  import opened Wrappers
  import opened Ordering

  datatype Status = Ready | Committed | Closed | Expired | Quarantined | Revoked

  /** `lease_id` hashes the repository and the branch; the pair stands for the hash. */
  datatype LeaseKey = LeaseKey(repositoryId: string, branchName: string)

  /** The policy stamp of an `EffectiveScope`; `grants` is everything else in it. */
  datatype Scope = Scope(grants: string, policyVersion: Option<string>, policyHash: Option<string>)

  /** `rest` is the part of a record that no step looks at: node, capabilities, materialized path. */
  datatype Session = Session(
    id: string, repositoryId: string, actorId: string, tenantId: string,
    baseRef: string, baseCommitSha: string, branchName: Option<string>, mode: string, allowedPaths: seq<string>,
    rest: string, status: Status, scope: Scope,
    policyVersion: Option<string>, policyHash: Option<string>,
    revokedAt: Option<int>, revokedReason: Option<string>,
    leaseId: Option<LeaseKey>, commitSha: Option<string>,
    createdAt: int, expiresAt: int, closedAt: Option<int>)

  datatype LeaseStatus = Active | Released

  datatype Lease = Lease(
    id: LeaseKey, workspaceId: string, actorId: string, status: LeaseStatus,
    acquiredAt: int, expiresAt: int, releasedAt: Option<int>)

  /** `WorkspaceInput`, its id already chosen by the caller or drawn fresh. */
  datatype Input = Input(
    id: string, repositoryId: string, actorId: string, tenantId: string,
    baseRef: string, baseCommitSha: string, branchName: Option<string>, mode: string, allowedPaths: seq<string>,
    rest: string, scope: Scope, ttlSeconds: int)

  datatype StoreError = Validation | Conflict | NotFound

  datatype State = State(sessions: map<string, Session>, leases: map<LeaseKey, Lease>, now: int)

  datatype CleanupReport = CleanupReport(expiredWorkspaceIds: seq<string>, releasedLeaseIds: seq<LeaseKey>)

  // ---------------------------------------------------------------- what one call does

  predicate LeaseHeld(l: Lease, now: int)
  {
    l.status == Active && l.expiresAt > now
  }

  function Acquired(s: State, key: LeaseKey, workspaceId: string, actorId: string, expiresAt: int)
    : Result<State, StoreError>
  {
    if key in s.leases && LeaseHeld(s.leases[key], s.now) then
      if s.leases[key].workspaceId == workspaceId && s.leases[key].actorId == actorId then Ok(s)
      else Err(Conflict)
    else
      Ok(s.(leases := s.leases[key := Lease(key, workspaceId, actorId, Active, s.now, expiresAt, None)]))
  }

  function ReleasedLease(l: Lease, now: int): Lease
  {
    l.(status := Released, releasedAt := Some(now))
  }

  /** `release_lease`: whoever asks, the lease is gone. */
  function Release(s: State, key: Option<LeaseKey>): State
  {
    if key.Some? && key.value in s.leases
    then s.(leases := s.leases[key.value := ReleasedLease(s.leases[key.value], s.now)])
    else s
  }

  function Saved(s: State, w: Session): State
  {
    s.(sessions := s.sessions[w.id := w])
  }

  predicate SameRequest(w: Session, i: Input)
  {
    && w.repositoryId == i.repositoryId && w.actorId == i.actorId && w.tenantId == i.tenantId
    && w.baseRef == i.baseRef && w.baseCommitSha == i.baseCommitSha
    && w.branchName == i.branchName && w.mode == i.mode && w.allowedPaths == i.allowedPaths
  }

  function NewSession(i: Input, leaseId: Option<LeaseKey>, now: int): Session
  {
    Session(i.id, i.repositoryId, i.actorId, i.tenantId, i.baseRef, i.baseCommitSha, i.branchName, i.mode,
            i.allowedPaths, i.rest, Ready, i.scope, i.scope.policyVersion, i.scope.policyHash,
            None, None, leaseId, None, now, now + i.ttlSeconds, None)
  }

  function Created(s: State, i: Input): (State, Result<Session, StoreError>)
  {
    if i.mode != "read_only" && i.mode != "writable" then (s, Err(Validation))
    else if i.ttlSeconds <= 0 then (s, Err(Validation))
    else if i.id in s.sessions && s.sessions[i.id].status == Ready && s.sessions[i.id].expiresAt > s.now
            && SameRequest(s.sessions[i.id], i) then (s, Ok(s.sessions[i.id]))
    else if i.id in s.sessions && (s.sessions[i.id].status == Ready || s.sessions[i.id].status == Committed
            || !SameRequest(s.sessions[i.id], i)) then (s, Err(Conflict))
    else if i.mode == "writable" then
      if i.branchName.None? then (s, Err(Validation))
      else
        var key := LeaseKey(i.repositoryId, i.branchName.value);
        match Acquired(s, key, i.id, i.actorId, s.now + i.ttlSeconds)
        case Err(e) => (s, Err(e))
        case Ok(s1) =>
          var w := NewSession(i, Some(key), s.now);
          (Saved(s1, w), Ok(w))
    else
      var w := NewSession(i, None, s.now);
      (Saved(s, w), Ok(w))
  }

  function QuarantinedBy(s: State, id: string, version: Option<string>, hash: Option<string>, reason: string)
    : (State, Result<Session, StoreError>)
  {
    if id !in s.sessions then (s, Err(NotFound))
    else
      var w := s.sessions[id];
      var s1 := if w.status == Ready then Release(s, w.leaseId) else s;
      var w1 := if w.status == Ready then w.(status := Quarantined, closedAt := Some(s.now)) else w;
      var w2 := w1.(policyVersion := version, policyHash := hash,
                    revokedAt := Some(s.now), revokedReason := Some(reason));
      (Saved(s1, w2), Ok(w2))
  }

  function PolicyUpdated(s: State, id: string, version: string, hash: string): (State, Result<Session, StoreError>)
  {
    if id !in s.sessions then (s, Err(NotFound))
    else
      var w := s.sessions[id].(policyVersion := Some(version), policyHash := Some(hash),
        scope := s.sessions[id].scope.(policyVersion := Some(version), policyHash := Some(hash)));
      (Saved(s, w), Ok(w))
  }

  function MarkedCommitted(s: State, id: string, sha: string): (State, Result<Session, StoreError>)
  {
    if id !in s.sessions then (s, Err(NotFound))
    else if s.sessions[id].status != Ready then (s, Err(Conflict))
    else
      var w := s.sessions[id].(status := Committed, commitSha := Some(sha), closedAt := Some(s.now));
      (Saved(Release(s, w.leaseId), w), Ok(w))
  }

  function ClosedBy(s: State, id: string): (State, Option<Session>)
  {
    if id !in s.sessions then (s, None)
    else if s.sessions[id].status == Closed then (s, Some(s.sessions[id]))
    else
      var w := s.sessions[id].(status := Closed, closedAt := Some(s.now));
      (Saved(Release(s, w.leaseId), w), Some(w))
  }

  predicate Overdue(w: Session, now: int)
  {
    w.status == Ready && w.expiresAt <= now
  }

  function Expire(w: Session, now: int): Session
  {
    w.(status := Expired, closedAt := Some(now))
  }

  /** The sessions after a cleanup: the overdue ones expired, every other one as it was. */
  function Swept(sessions: map<string, Session>, now: int): map<string, Session>
  {
    map id | id in sessions :: if Overdue(sessions[id], now) then Expire(sessions[id], now) else sessions[id]
  }

  ghost predicate NamedByOverdue(sessions: map<string, Session>, key: LeaseKey, now: int)
  {
    exists id :: id in sessions && Overdue(sessions[id], now) && sessions[id].leaseId == Some(key)
  }

  /** The leases after a cleanup: those an overdue session names are released, every other one is as it was. */
  ghost function SweptLeases(s: State): map<LeaseKey, Lease>
  {
    map k | k in s.leases ::
      if NamedByOverdue(s.sessions, k, s.now) then ReleasedLease(s.leases[k], s.now) else s.leases[k]
  }

  function OverdueIds(sessions: map<string, Session>, ids: seq<string>, now: int): seq<string>
    requires forall id :: id in ids ==> id in sessions
  {
    if ids == [] then []
    else
      var id := ids[|ids| - 1];
      var before := OverdueIds(sessions, ids[..|ids| - 1], now);
      if Overdue(sessions[id], now) then before + [id] else before
  }

  function OverdueLeases(sessions: map<string, Session>, ids: seq<string>, now: int): seq<LeaseKey>
    requires forall id :: id in ids ==> id in sessions
  {
    if ids == [] then []
    else
      var w := sessions[ids[|ids| - 1]];
      var before := OverdueLeases(sessions, ids[..|ids| - 1], now);
      if Overdue(w, now) && w.leaseId.Some? then before + [w.leaseId.value] else before
  }

  lemma SortedMembers(sessions: map<string, Session>)
    ensures forall id :: id in SortedKeys(sessions.Keys) <==> id in sessions
  {
    forall id ensures id in SortedKeys(sessions.Keys) <==> id in sessions
    {
      assert id in Elements(SortedKeys(sessions.Keys)) <==> id in SortedKeys(sessions.Keys);
    }
  }

  ghost function Cleaned(s: State): (State, CleanupReport)
  {
    SortedMembers(s.sessions);
    var ids := SortedKeys(s.sessions.Keys);
    (State(Swept(s.sessions, s.now), SweptLeases(s), s.now),
     CleanupReport(OverdueIds(s.sessions, ids, s.now), OverdueLeases(s.sessions, ids, s.now)))
  }

  // ---------------------------------------------------------------- the store

  class WorkspaceStore {
    var sessions: map<string, Session>
    var leases: map<LeaseKey, Lease>

    ghost function At(now: int): State
      reads this
    {
      State(sessions, leases, now)
    }

    /** Records are filed under their own id. */
    ghost predicate Valid()
      reads this
    {
      forall id :: id in sessions ==> sessions[id].id == id
    }

    constructor ()
      ensures At(0) == State(map[], map[], 0) && Valid()
    {
      sessions, leases := map[], map[];
    }

    method AcquireWritableLease(key: LeaseKey, workspaceId: string, actorId: string, expiresAt: int, now: int)
      returns (r: Result<Lease, StoreError>)
      modifies this`leases
      ensures match Acquired(old(At(now)), key, workspaceId, actorId, expiresAt)
              case Err(e) => r == Err(e) && leases == old(leases)
              case Ok(s) => At(now) == s && key in leases && r == Ok(leases[key])
    {
      if key in leases {
        var existing := leases[key];
        if existing.status == Active && existing.expiresAt > now {
          if existing.workspaceId == workspaceId && existing.actorId == actorId {
            return Ok(existing);
          }
          return Err(Conflict);
        }
      }
      var record := Lease(key, workspaceId, actorId, Active, now, expiresAt, None);
      leases := leases[key := record];
      return Ok(record);
    }

    method ReleaseLease(key: LeaseKey, now: int)
      modifies this`leases
      ensures At(now) == Release(old(At(now)), Some(key))
    {
      if key in leases {
        leases := leases[key := leases[key].(status := Released, releasedAt := Some(now))];
      }
    }

    method PutWorkspace(input: Input, now: int) returns (r: Result<Session, StoreError>)
      modifies this
      ensures (At(now), r) == Created(old(At(now)), input)
    {
      if input.mode != "read_only" && input.mode != "writable" { return Err(Validation); }
      if input.ttlSeconds <= 0 { return Err(Validation); }
      if input.id in sessions {
        var existing := sessions[input.id];
        var sameRequest := SameRequest(existing, input);
        if existing.status == Ready && existing.expiresAt > now && sameRequest { return Ok(existing); }
        if existing.status == Ready || existing.status == Committed || !sameRequest { return Err(Conflict); }
      }
      var leaseId := None;
      if input.mode == "writable" {
        if input.branchName.None? { return Err(Validation); }
        var key := LeaseKey(input.repositoryId, input.branchName.value);
        var lease := AcquireWritableLease(key, input.id, input.actorId, now + input.ttlSeconds, now);
        if lease.Err? { return Err(lease.error); }
        leaseId := Some(key);
      }
      var record := NewSession(input, leaseId, now);
      sessions := sessions[input.id := record];
      return Ok(record);
    }

    method QuarantineWorkspace(id: string, version: Option<string>, hash: Option<string>, reason: string, now: int)
      returns (r: Result<Session, StoreError>)
      requires Valid()
      modifies this
      ensures (At(now), r) == QuarantinedBy(old(At(now)), id, version, hash, reason)
    {
      if id !in sessions { return Err(NotFound); }
      var record := sessions[id];
      if record.status == Ready {
        record := record.(status := Quarantined, closedAt := Some(now));
        if record.leaseId.Some? { ReleaseLease(record.leaseId.value, now); }
      }
      record := record.(policyVersion := version, policyHash := hash);
      record := record.(revokedAt := Some(now), revokedReason := Some(reason));
      sessions := sessions[record.id := record];
      return Ok(record);
    }

    method UpdateWorkspacePolicy(id: string, version: string, hash: string, now: int)
      returns (r: Result<Session, StoreError>)
      requires Valid()
      modifies this
      ensures (At(now), r) == PolicyUpdated(old(At(now)), id, version, hash)
    {
      if id !in sessions { return Err(NotFound); }
      var record := sessions[id].(policyVersion := Some(version), policyHash := Some(hash));
      record := record.(scope := record.scope.(policyVersion := record.policyVersion, policyHash := record.policyHash));
      sessions := sessions[record.id := record];
      return Ok(record);
    }

    method MarkWorkspaceCommitted(id: string, sha: string, now: int) returns (r: Result<Session, StoreError>)
      requires Valid()
      modifies this
      ensures (At(now), r) == MarkedCommitted(old(At(now)), id, sha)
    {
      if id !in sessions { return Err(NotFound); }
      var record := sessions[id];
      if record.status != Ready { return Err(Conflict); }
      record := record.(status := Committed, commitSha := Some(sha), closedAt := Some(now));
      if record.leaseId.Some? { ReleaseLease(record.leaseId.value, now); }
      sessions := sessions[record.id := record];
      return Ok(record);
    }

    method CloseWorkspace(id: string, now: int) returns (r: Option<Session>)
      requires Valid()
      modifies this
      ensures (At(now), r) == ClosedBy(old(At(now)), id)
    {
      if id !in sessions { return None; }
      var record := sessions[id];
      if record.status != Closed {
        record := record.(status := Closed, closedAt := Some(now));
        if record.leaseId.Some? { ReleaseLease(record.leaseId.value, now); }
        sessions := sessions[id := record];
      }
      return Some(record);
    }

    /** `cleanup_expired_workspaces`: walks the records listed at the start, in id order. */
    method CleanupExpiredWorkspaces(now: int) returns (report: CleanupReport)
      requires Valid()
      modifies this
      ensures (At(now), report) == Cleaned(old(At(now)))
    {
      var ids := ListKeys(sessions.Keys);
      SortedMembers(sessions);
      var listed := sessions;
      ghost var before := At(now);
      var expiredIds: seq<string>, releasedIds: seq<LeaseKey> := [], [];
      var i := 0;
      SweptNone(before);
      while i < |ids|
        invariant 0 <= i <= |ids|
        invariant (At(now), CleanupReport(expiredIds, releasedIds)) == SweptSoFar(before, ids[..i])
      {
        SweptStep(before, ids, i);
        expiredIds, releasedIds := ExpireIfOverdue(listed[ids[i]], now, expiredIds, releasedIds);
        i := i + 1;
      }
      assert ids[..|ids|] == ids;
      SweptAll(before, ids);
      report := CleanupReport(expiredIds, releasedIds);
    }

    /** The body of the loop. */
    method ExpireIfOverdue(listed: Session, now: int, expiredIds: seq<string>, releasedIds: seq<LeaseKey>)
      returns (expiredIds': seq<string>, releasedIds': seq<LeaseKey>)
      modifies this
      ensures (At(now), CleanupReport(expiredIds', releasedIds')) ==
              SweptOne(old(At(now)), CleanupReport(expiredIds, releasedIds), listed)
    {
      expiredIds', releasedIds' := expiredIds, releasedIds;
      var workspace := listed;
      if workspace.status == Ready && workspace.expiresAt <= now {
        workspace := workspace.(status := Expired, closedAt := Some(now));
        if workspace.leaseId.Some? {
          ReleaseLease(workspace.leaseId.value, now);
          releasedIds' := releasedIds' + [workspace.leaseId.value];
        }
        expiredIds' := expiredIds' + [workspace.id];
        sessions := sessions[workspace.id := workspace];
      }
    }
  }

  // ---------------------------------------------------------------- the cleanup loop

  ghost function SweptPrefix(sessions: map<string, Session>, ids: seq<string>, now: int): map<string, Session>
  {
    map id | id in sessions ::
      if id in ids && Overdue(sessions[id], now) then Expire(sessions[id], now) else sessions[id]
  }

  ghost predicate NamedIn(sessions: map<string, Session>, ids: seq<string>, key: LeaseKey, now: int)
  {
    exists id :: id in ids && id in sessions && Overdue(sessions[id], now) && sessions[id].leaseId == Some(key)
  }

  ghost function SweptLeasesPrefix(s: State, ids: seq<string>): map<LeaseKey, Lease>
  {
    map k | k in s.leases ::
      if NamedIn(s.sessions, ids, k, s.now) then ReleasedLease(s.leases[k], s.now) else s.leases[k]
  }

  lemma NamedStep(sessions: map<string, Session>, ids: seq<string>, i: nat, key: LeaseKey, now: int)
    requires i < |ids| && ids[i] in sessions
    ensures NamedIn(sessions, ids[..i + 1], key, now) <==>
            NamedIn(sessions, ids[..i], key, now) ||
            (Overdue(sessions[ids[i]], now) && sessions[ids[i]].leaseId == Some(key))
  {
    assert ids[..i + 1] == ids[..i] + [ids[i]];
  }

  /** The state and the report after the records of `ids`, each named once, have been visited. */
  ghost function SweptSoFar(s: State, ids: seq<string>): (State, CleanupReport)
    requires forall id :: id in ids ==> id in s.sessions
  {
    (State(SweptPrefix(s.sessions, ids, s.now), SweptLeasesPrefix(s, ids), s.now),
     CleanupReport(OverdueIds(s.sessions, ids, s.now), OverdueLeases(s.sessions, ids, s.now)))
  }

  /** The body of the loop. */
  function SweptOne(s: State, report: CleanupReport, w: Session): (State, CleanupReport)
  {
    if Overdue(w, s.now) then
      (Saved(Release(s, w.leaseId), Expire(w, s.now)),
       CleanupReport(report.expiredWorkspaceIds + [w.id],
                     if w.leaseId.Some? then report.releasedLeaseIds + [w.leaseId.value] else report.releasedLeaseIds))
    else (s, report)
  }

  lemma SweptNone(s: State)
    ensures SweptSoFar(s, []) == (s, CleanupReport([], []))
  {
    assert SweptPrefix(s.sessions, [], s.now) == s.sessions;
    assert SweptLeasesPrefix(s, []) == s.leases;
  }

  lemma SweptSessionStep(s: State, ids: seq<string>, i: nat)
    requires i < |ids| && ids[i] in s.sessions && StrictlySorted(ids)
    ensures var w := s.sessions[ids[i]];
            SweptPrefix(s.sessions, ids[..i + 1], s.now) ==
            if Overdue(w, s.now) then SweptPrefix(s.sessions, ids[..i], s.now)[ids[i] := Expire(w, s.now)]
            else SweptPrefix(s.sessions, ids[..i], s.now)
  {
    TakeSnoc(ids, i);
  }

  lemma SweptReportStep(s: State, ids: seq<string>, i: nat)
    requires i < |ids| && forall id :: id in ids ==> id in s.sessions
    ensures var w := s.sessions[ids[i]];
            var before, released := OverdueIds(s.sessions, ids[..i], s.now), OverdueLeases(s.sessions, ids[..i], s.now);
            && OverdueIds(s.sessions, ids[..i + 1], s.now) == (if Overdue(w, s.now) then before + [ids[i]] else before)
            && OverdueLeases(s.sessions, ids[..i + 1], s.now) ==
               (if Overdue(w, s.now) && w.leaseId.Some? then released + [w.leaseId.value] else released)
  {
    TakeTake(ids, i + 1, i);
  }

  lemma SweptStep(s: State, ids: seq<string>, i: nat)
    requires i < |ids| && (forall id :: id in ids ==> id in s.sessions) && StrictlySorted(ids)
    requires forall id :: id in s.sessions ==> s.sessions[id].id == id
    ensures ids[i] in ids
    ensures var (s1, report) := SweptSoFar(s, ids[..i]);
            SweptSoFar(s, ids[..i + 1]) == SweptOne(s1, report, s.sessions[ids[i]])
  {
    assert ids[i] in ids;
    SweptSessionStep(s, ids, i);
    SweptReportStep(s, ids, i);
    SweptLeaseStep(s, ids, i);
  }

  lemma SweptLeaseStep(s: State, ids: seq<string>, i: nat)
    requires i < |ids| && ids[i] in s.sessions
    ensures var w := s.sessions[ids[i]];
            SweptLeasesPrefix(s, ids[..i + 1]) ==
            if Overdue(w, s.now) then Release(s.(leases := SweptLeasesPrefix(s, ids[..i])), w.leaseId).leases
            else SweptLeasesPrefix(s, ids[..i])
  {
    forall k ensures NamedIn(s.sessions, ids[..i + 1], k, s.now) <==>
                     NamedIn(s.sessions, ids[..i], k, s.now) ||
                     (Overdue(s.sessions[ids[i]], s.now) && s.sessions[ids[i]].leaseId == Some(k))
    {
      NamedStep(s.sessions, ids, i, k, s.now);
    }
  }

  lemma SweptAll(s: State, ids: seq<string>)
    requires forall id :: id in ids <==> id in s.sessions
    ensures SweptPrefix(s.sessions, ids, s.now) == Swept(s.sessions, s.now)
    ensures SweptLeasesPrefix(s, ids) == SweptLeases(s)
  {
    forall k ensures NamedIn(s.sessions, ids, k, s.now) <==> NamedByOverdue(s.sessions, k, s.now) {}
  }
}
