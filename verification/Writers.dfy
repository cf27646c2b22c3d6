/** One writer per branch, the promise of README.md:667: which calls and which runs keep it. */
module Writers {
  import opened Wrappers
  import opened Ordering
  import opened Workspace
  import opened Leases

  /** No two sessions write to one branch. */
  ghost predicate OneWriter(s: State)
  {
    forall a, b :: WriteSameBranch(s, a, b) ==> a == b
  }

  /** No two sessions write to one branch, nor do they after any one create. */
  ghost predicate PromiseKept(s: State)
  {
    forall i :: OneWriter(Created(s, i).0)
  }

  lemma ExclusiveKeeps(s: State)
    requires Lifecycle(s) && Exclusive(s)
    ensures PromiseKept(s)
  {
    forall i ensures OneWriter(Created(s, i).0)
    {
      var s' := Created(s, i).0;
      CreateExclusive(s, i);
      CreateFollows(s, i);
      forall a, b | WriteSameBranch(s', a, b) ensures a == b { OneWriterPerBranch(s', a, b); }
    }
  }

  /** A session that writes to a branch whose lease is not held is joined by another one. */
  lemma UnheldIsTaken(s: State, id: string, key: LeaseKey)
    requires id in s.sessions && Writing(s.sessions[id], s.now)
    requires s.sessions[id].repositoryId == key.repositoryId && s.sessions[id].branchName == Some(key.branchName)
    requires key in s.leases ==> !LeaseHeld(s.leases[key], s.now)
    ensures !PromiseKept(s)
  {
    var names := SortedKeys(s.sessions.Keys);
    SortedMembers(s.sessions);
    var newId := LongerName(names);
    assert id in names && newId !in s.sessions;
    var i := Ask(newId).(repositoryId := key.repositoryId, branchName := Some(key.branchName));
    var s' := Created(s, i).0;
    assert s'.sessions[newId] == NewSession(i, Some(key), s.now);
    assert WriteSameBranch(s', id, newId);
    assert !OneWriter(Created(s, i).0);
  }

  /** The session whose lease a call releases in another's name goes on writing without it. */
  lemma LosesLease(s: State, op: Op) returns (id: string, key: LeaseKey)
    requires Lifecycle(s) && Exclusive(s) && !ReleasesOwn(s, op)
    ensures var s' := Step(s, op);
            && id in s'.sessions && Writing(s'.sessions[id], s'.now)
            && s'.sessions[id].repositoryId == key.repositoryId && s'.sessions[id].branchName == Some(key.branchName)
            && (key in s'.leases ==> !LeaseHeld(s'.leases[key], s'.now))
  {
    var releaser :| releaser in s.sessions && Releases(op, releaser, s.sessions[releaser], s.now)
      && !NotAnothers(s, s.sessions[releaser]);
    key := s.sessions[releaser].leaseId.value;
    assert HeldByWriter(s, key);
    id := s.leases[key].workspaceId;
    assert SessionOk(id, s.sessions[id]) && SessionOk(releaser, s.sessions[releaser]);
    if op.Cleanup? { assert NamedByOverdue(s.sessions, key, s.now); }
  }

  /** In a state where every writer holds its lease, a call keeps the promise, for itself and any create after it,
      exactly when it releases no lease that another session holds. */
  lemma StepKeepsPromiseIff(s: State, op: Op)
    requires Lifecycle(s) && Exclusive(s)
    ensures PromiseKept(Step(s, op)) <==> ReleasesOwn(s, op)
  {
    if ReleasesOwn(s, op) {
      StepLifecycle(s, op);
      StepExclusiveIff(s, op);
      ExclusiveKeeps(Step(s, op));
    } else {
      var id, key := LosesLease(s, op);
      UnheldIsTaken(Step(s, op), id, key);
    }
  }

  /** After every call of a run the promise is kept. */
  ghost predicate KeptThroughout(s: State, ops: seq<Op>)
  {
    forall n :: 0 <= n <= |ops| ==> PromiseKept(Run(s, ops[..n]))
  }

  lemma RunPrefix(s: State, ops: seq<Op>, n: nat)
    requires 0 < n <= |ops|
    ensures Run(s, ops[..n]) == Run(Step(s, ops[0]), ops[1..][..n - 1])
  {
    assert ops[..n][1..] == ops[1..][..n - 1];
  }

  /** A run keeps the promise throughout exactly when none of its calls releases a lease that another session holds. */
  lemma {:induction false} RunKeepsPromiseIff(s: State, ops: seq<Op>)
    requires Lifecycle(s) && Exclusive(s)
    ensures KeptThroughout(s, ops) <==> AllReleaseOwn(s, ops)
    decreases |ops|
  {
    ExclusiveKeeps(s);
    if ops != [] {
      var s1 := Step(s, ops[0]);
      StepKeepsPromiseIff(s, ops[0]);
      forall n | 0 < n <= |ops| ensures Run(s, ops[..n]) == Run(s1, ops[1..][..n - 1]) { RunPrefix(s, ops, n); }
      assert Run(s, ops[..1]) == s1;
      if ReleasesOwn(s, ops[0]) {
        StepLifecycle(s, ops[0]);
        StepExclusiveIff(s, ops[0]);
        RunKeepsPromiseIff(s1, ops[1..]);
        ThroughoutTail(s, ops);
      }
    }
  }

  lemma ThroughoutTail(s: State, ops: seq<Op>)
    requires ops != [] && PromiseKept(s)
    ensures KeptThroughout(s, ops) <==> KeptThroughout(Step(s, ops[0]), ops[1..])
  {
    var s1, rest := Step(s, ops[0]), ops[1..];
    if KeptThroughout(s, ops) {
      forall n | 0 <= n <= |rest| ensures PromiseKept(Run(s1, rest[..n]))
      {
        RunPrefix(s, ops, n + 1);
        assert PromiseKept(Run(s, ops[..n + 1]));
      }
    }
    if KeptThroughout(s1, rest) {
      forall n | 0 <= n <= |ops| ensures PromiseKept(Run(s, ops[..n]))
      {
        if n > 0 {
          RunPrefix(s, ops, n);
          assert PromiseKept(Run(s1, rest[..n - 1]));
        }
      }
    }
  }

  /** From an empty store: a run never has two writers on one branch, whatever is created after any of its calls,
      exactly when none of its calls releases a lease that another session holds. */
  lemma EmptyStoreKeepsPromiseIff(ops: seq<Op>)
    ensures KeptThroughout(State(map[], map[], 0), ops) <==> AllReleaseOwn(State(map[], map[], 0), ops)
  {
    RunKeepsPromiseIff(State(map[], map[], 0), ops);
  }
}
