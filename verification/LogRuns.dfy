/** Whole runs of one catalog log: writes, reads, compactions and restarts in any order. */
module LogRuns {
  import opened Wrappers
  import opened Ordering
  import opened Log
  import opened Recovery

  datatype Op =
    | Put(id: string, payload: string, clock: Option<int>)
    | Delete(id: string, clock: Option<int>)
    | Batch(recs: seq<(string, string)>, clock: Option<int>)
    | BatchUnindexed(recs: seq<(string, string)>, clock: Option<int>)
    | ReadLatest(clock: Option<int>)
    | ReadRecord(id: string, clock: Option<int>)
    | Compact(plan: bool, clock: Option<int>)
    | Restart

  datatype Response =
    | Done
    | Failed(error: LogError)
    | Table(latest: map<string, string>)
    | Found(payload: Option<string>)
    | Summary(result: CompactResult)

  function Answer(r: Result<(), LogError>): Response
  {
    match r case Ok(_) => Done case Err(e) => Failed(e)
  }

  /** One call. The method each case stands for is proved equal to the function named here. */
  ghost function Step(c: Codec, kind: string, s: State, op: Op): (State, Response)
  {
    match op
    case Put(id, payload, clock) =>
      var (s', r) := Appended(c, kind, s, [(id, payload)], true, clock); (s', Answer(r))
    case Delete(id, clock) => var (s', r) := Deleted(c, kind, s, id, clock); (s', Answer(r))
    case Batch(recs, clock) => var (s', r) := Appended(c, kind, s, recs, true, clock); (s', Answer(r))
    case BatchUnindexed(recs, clock) => var (s', r) := Appended(c, kind, s, recs, false, clock); (s', Answer(r))
    case ReadLatest(clock) =>
      var (s', r) := Loaded(c, kind, s, clock);
      (s', match r case Ok(t) => Table(t) case Err(e) => Failed(e))
    case ReadRecord(id, clock) =>
      var (s', r) := Loaded(c, kind, s, clock);
      (s', match r case Ok(t) => Found(Lookup(t, id)) case Err(e) => Failed(e))
    case Compact(plan, clock) =>
      var (s', r) := Compacted(c, s, plan, clock);
      (s', match r case Ok(x) => Summary(x) case Err(e) => Failed(e))
    case Restart => (s.(index := None), Done)
  }

  ghost function Run(c: Codec, kind: string, s: State, ops: seq<Op>): State
    decreases |ops|
  {
    if ops == [] then s else Run(c, kind, Step(c, kind, s, ops[0]).0, ops[1..])
  }

  // ---------------------------------------------------------------- the plain map

  function PutAll(m: map<string, string>, recs: seq<(string, string)>): map<string, string>
  {
    if recs == [] then m
    else PutAll(m, recs[..|recs| - 1])[recs[|recs| - 1].0 := recs[|recs| - 1].1]
  }

  predicate Shrank(r: Response)
  {
    r.Summary? && r.result.compacted
  }

  /** The table after a call. A compaction that replaced the file forgets the empty id, and nothing else. */
  function NextTable(m: map<string, string>, op: Op, r: Response): map<string, string>
  {
    match op
    case Put(id, payload, _) => m[id := payload]
    case Delete(id, _) => m - {id}
    case Batch(recs, _) => PutAll(m, recs)
    case BatchUnindexed(recs, _) => PutAll(m, recs)
    case Compact(_, _) => if Shrank(r) then m - {""} else m
    case _ => m
  }

  /** Whether an unindexed batch is still unknown to the cached table. */
  function NextStale(stale: bool, op: Op, r: Response): bool
  {
    if op.BatchUnindexed? && op.recs != [] then true
    else if op.Restart? || Shrank(r) then false
    else stale
  }

  ghost predicate Expected(op: Op, r: Response, m: map<string, string>, stale: bool)
  {
    match op
    case ReadLatest(_) => r.Table? && (!stale ==> r.latest == m)
    case ReadRecord(id, _) => r.Found? && (!stale ==> r.payload == Lookup(m, id))
    case Compact(plan, _) => r.Summary? && (plan ==> !Shrank(r))
    case _ => r == Done
  }

  /** The file means `m`. The cached length never falls below the file's, and where the two are
      equal the cached number, and unless stale the cached table, are those of the file. */
  ghost predicate Inv(c: Codec, kind: string, s: State, m: map<string, string>, stale: bool)
  {
    match s.file
    case None => s.index.None? && m == map[]
    case Some(f) =>
      && ReplayAll(c, kind, f).Ok?
      && Fold(ReplayAll(c, kind, f).value) == m
      && (s.index.Some? ==> Cached(s.index.value, Len(f), ReplayAll(c, kind, f).value, m, stale))
  }

  ghost predicate Cached(i: Index, len: nat, envs: seq<Envelope>, m: map<string, string>, stale: bool)
  {
    && i.fileLen >= len
    && (i.fileLen == len ==> i.nextSeq == NextSeq(envs) && (!stale ==> i.latest == m))
  }

  lemma {:induction false} FoldStamp(c: Codec, kind: string, recs: seq<(string, string)>, first: nat,
                                     m: map<string, string>)
    ensures FoldOnto(m, Stamp(c, kind, recs, first)) == PutAll(m, recs)
  {
    if recs != [] {
      var n := |recs| - 1;
      FoldStamp(c, kind, recs[..n], first, m);
      assert Stamp(c, kind, recs, first)[..n] == Stamp(c, kind, recs[..n], first);
    }
  }

  /** After `EnsuredLog` and `EnsuredIndex` the index is there and is that of the file. */
  lemma Ensured(c: Codec, kind: string, s: State, m: map<string, string>, stale: bool, clock: Option<int>)
    requires Inv(c, kind, s, m, stale)
    ensures var s1 := EnsuredLog(kind, s, clock);
            var r := EnsuredIndex(c, kind, s1);
            && Inv(c, kind, s1, m, stale)
            && r.Ok? && Inv(c, kind, r.value, m, stale)
            && r.value.index.value.fileLen == Len(s1.file.value)
            && r.value.index.value.nextSeq == NextSeq(ReplayAll(c, kind, s1.file.value).value)
  {
  }

  lemma WrittenKeeps(c: Codec, kind: string, s: State, m: map<string, string>, stale: bool,
                     envs: seq<Envelope>, indexed: bool, clock: Option<int>)
    requires s.file.Some? && s.index.Some? && Inv(c, kind, s, m, stale) && envs != []
    requires s.index.value.fileLen == Len(s.file.value)
    requires forall e :: e in envs ==> Acceptable(c, kind, e)
    requires envs[|envs| - 1].seqNo + 1 == s.index.value.nextSeq + |envs|
    ensures Inv(c, kind, Written(c, s, envs, if indexed then envs else [], clock), FoldOnto(m, envs), stale || !indexed)
  {
    var f := s.file.value;
    var s' := Written(c, s, envs, if indexed then envs else [], clock);
    var before := ReplayAll(c, kind, f).value;
    ReplayWritten(c, kind, f, s'.file.value, envs);
    FoldOntoAppend(map[], before, envs);
    CachedAfter(s.index.value, s'.index.value, before, envs, m, stale, indexed);
  }

  lemma CachedAfter(i: Index, i': Index, before: seq<Envelope>, envs: seq<Envelope>, m: map<string, string>,
                    stale: bool, indexed: bool)
    requires Cached(i, i.fileLen, before, m, stale) && envs != []
    requires envs[|envs| - 1].seqNo + 1 == i.nextSeq + |envs| == i'.nextSeq
    requires i'.latest == FoldOnto(i.latest, if indexed then envs else [])
    ensures Cached(i', i'.fileLen, before + envs, FoldOnto(m, envs), stale || !indexed)
  {
  }

  lemma ReplayWritten(c: Codec, kind: string, f: File, g: File, envs: seq<Envelope>)
    requires g.header == f.header && g.lines == f.lines + Render(c, envs)
    requires ReplayAll(c, kind, f).Ok?
    requires forall e :: e in envs ==> Acceptable(c, kind, e)
    ensures ReplayAll(c, kind, g) == Ok(ReplayAll(c, kind, f).value + envs)
  {
    ReplayAppended(c, kind, f, g, envs, |envs|);
    assert envs[..|envs|] == envs;
  }

  lemma StampAcceptable(c: Codec, kind: string, recs: seq<(string, string)>, first: nat)
    ensures forall e :: e in Stamp(c, kind, recs, first) ==> Acceptable(c, kind, e)
  {
  }

  lemma AppendedKeeps(c: Codec, kind: string, s: State, m: map<string, string>, stale: bool,
                      recs: seq<(string, string)>, indexed: bool, clock: Option<int>)
    requires Inv(c, kind, s, m, stale)
    ensures var (s', r) := Appended(c, kind, s, recs, indexed, clock);
            r == Ok(()) && Inv(c, kind, s', PutAll(m, recs), stale || (!indexed && recs != []))
  {
    Ensured(c, kind, s, m, stale, clock);
    if recs != [] {
      var s2 := EnsuredIndex(c, kind, EnsuredLog(kind, s, clock)).value;
      var next := s2.index.value.nextSeq;
      StampAcceptable(c, kind, recs, next);
      FoldStamp(c, kind, recs, next, m);
      WrittenKeeps(c, kind, s2, m, stale, Stamp(c, kind, recs, next), indexed, clock);
    }
  }

  lemma DeletedKeeps(c: Codec, kind: string, s: State, m: map<string, string>, stale: bool, id: string,
                     clock: Option<int>)
    requires Inv(c, kind, s, m, stale)
    ensures var (s', r) := Deleted(c, kind, s, id, clock);
            r == Ok(()) && Inv(c, kind, s', m - {id}, stale)
  {
    Ensured(c, kind, s, m, stale, clock);
    var s2 := EnsuredIndex(c, kind, EnsuredLog(kind, s, clock)).value;
    var env := DeleteEnvelope(c, kind, id, s2.index.value.nextSeq);
    assert FoldOnto(m, [env]) == Apply(m, env) by { assert [env][..0] == []; }
    WrittenKeeps(c, kind, s2, m, stale, [env], true, clock);
  }

  /** On a file that replays, compaction reads the very lines the readers do. */
  lemma {:induction false} JsonIsReplay(c: Codec, kind: string, f: File, n: nat)
    requires n <= |f.lines| && Replay(c, kind, f, n).Ok?
    ensures JsonRecords(f, n) == Replay(c, kind, f, n)
    ensures forall e :: e in Replay(c, kind, f, n).value ==> Acceptable(c, kind, e)
  {
    if n > 0 { JsonIsReplay(c, kind, f, n - 1); }
  }

  lemma {:induction false} ReplayRendered(c: Codec, kind: string, f: File, envs: seq<Envelope>, n: nat)
    requires f.lines == Render(c, envs) && n <= |envs|
    requires forall e :: e in envs ==> Acceptable(c, kind, e)
    ensures Replay(c, kind, f, n) == Ok(envs[..n])
  {
    if n > 0 {
      ReplayRendered(c, kind, f, envs, n - 1);
      assert envs[..n] == envs[..n - 1] + [envs[n - 1]];
      assert envs[n - 1] in envs;
    }
  }

  lemma CompactedKeeps(c: Codec, kind: string, s: State, m: map<string, string>, stale: bool, plan: bool,
                       clock: Option<int>)
    requires Inv(c, kind, s, m, stale)
    ensures var (s', r) := Compacted(c, s, plan, clock);
            && r.Ok? && (plan ==> !r.value.compacted)
            && Inv(c, kind, s', if r.value.compacted then m - {""} else m, stale && !r.value.compacted)
  {
    if s.file.Some? {
      var f := s.file.value;
      JsonIsReplay(c, kind, f, |f.lines|);
      var envs := ReplayAll(c, kind, f).value;
      var out := Survivors(Live(envs));
      var g := CompactedFile(c, f, envs, clock);
      CompactionShape(envs);
      CompactionKeepsMeaning(envs);
      ReplayRendered(c, kind, g, out, |out|);
      assert out[..|out|] == out;
    }
  }

  /** Every call keeps the invariant and answers as the plain map would. */
  lemma StepKeeps(c: Codec, kind: string, s: State, op: Op, m: map<string, string>, stale: bool)
    requires Inv(c, kind, s, m, stale)
    ensures var (s', r) := Step(c, kind, s, op);
            && Expected(op, r, m, stale)
            && Inv(c, kind, s', NextTable(m, op, r), NextStale(stale, op, r))
  {
    match op {
      case Put(id, payload, clock) =>
        AppendedKeeps(c, kind, s, m, stale, [(id, payload)], true, clock);
        assert PutAll(m, [(id, payload)]) == m[id := payload] by { assert [(id, payload)][..0] == []; }
      case Delete(id, clock) => DeletedKeeps(c, kind, s, m, stale, id, clock);
      case Batch(recs, clock) => AppendedKeeps(c, kind, s, m, stale, recs, true, clock);
      case BatchUnindexed(recs, clock) => AppendedKeeps(c, kind, s, m, stale, recs, false, clock);
      case ReadLatest(clock) => Ensured(c, kind, s, m, stale, clock);
      case ReadRecord(_, clock) => Ensured(c, kind, s, m, stale, clock);
      case Compact(plan, clock) => CompactedKeeps(c, kind, s, m, stale, plan, clock);
      case Restart =>
    }
  }

  ghost predicate AllExpected(c: Codec, kind: string, s: State, ops: seq<Op>, m: map<string, string>, stale: bool)
    decreases |ops|
  {
    ops == [] ||
    var (s', r) := Step(c, kind, s, ops[0]);
    && Expected(ops[0], r, m, stale)
    && AllExpected(c, kind, s', ops[1..], NextTable(m, ops[0], r), NextStale(stale, ops[0], r))
  }

  /** No run of any calls ever fails, and every read made while no unindexed batch is outstanding
      returns the table of all the writes before it. */
  lemma {:induction false} RunsAnswerAsTheTable(c: Codec, kind: string, s: State, ops: seq<Op>, m: map<string, string>,
                                                stale: bool)
    requires Inv(c, kind, s, m, stale)
    ensures AllExpected(c, kind, s, ops, m, stale)
    decreases |ops|
  {
    if ops != [] {
      StepKeeps(c, kind, s, ops[0], m, stale);
      var (s', r) := Step(c, kind, s, ops[0]);
      RunsAnswerAsTheTable(c, kind, s', ops[1..], NextTable(m, ops[0], r), NextStale(stale, ops[0], r));
    }
  }

  // ---------------------------------------------------------------- the same, read by read

  function ReadOf(op: Op, r: Response): seq<Response>
  {
    if op.ReadLatest? || op.ReadRecord? then [r] else []
  }

  /** What the reads of a run return. */
  ghost function Reads(c: Codec, kind: string, s: State, ops: seq<Op>): seq<Response>
    decreases |ops|
  {
    if ops == [] then []
    else
      var (s', r) := Step(c, kind, s, ops[0]);
      ReadOf(ops[0], r) + Reads(c, kind, s', ops[1..])
  }

  /** The same calls on a map in memory, which has no file, cache, compaction or restart. */
  function MapStep(m: map<string, string>, op: Op): (map<string, string>, seq<Response>)
  {
    match op
    case Put(id, payload, _) => (m[id := payload], [])
    case Delete(id, _) => (m - {id}, [])
    case Batch(recs, _) => (PutAll(m, recs), [])
    case BatchUnindexed(recs, _) => (PutAll(m, recs), [])
    case ReadLatest(_) => (m, [Table(m)])
    case ReadRecord(id, _) => (m, [Found(Lookup(m, id))])
    case Compact(_, _) => (m, [])
    case Restart => (m, [])
  }

  function MapReads(m: map<string, string>, ops: seq<Op>): seq<Response>
    decreases |ops|
  {
    if ops == [] then []
    else
      var (m', out) := MapStep(m, ops[0]);
      out + MapReads(m', ops[1..])
  }

  /** The catalog's own calls: indexed writes under non-empty ids. */
  predicate CatalogOp(op: Op)
  {
    match op
    case Put(id, _, _) => id != ""
    case Batch(recs, _) => forall i :: 0 <= i < |recs| ==> recs[i].0 != ""
    case BatchUnindexed(_, _) => false
    case _ => true
  }

  lemma {:induction false} PutAllKeys(m: map<string, string>, recs: seq<(string, string)>)
    requires "" !in m && forall i :: 0 <= i < |recs| ==> recs[i].0 != ""
    ensures "" !in PutAll(m, recs)
  {
    if recs != [] { PutAllKeys(m, recs[..|recs| - 1]); }
  }

  lemma ExpectedIsMap(op: Op, r: Response, m: map<string, string>)
    requires Expected(op, r, m, false) && "" !in m && CatalogOp(op)
    ensures ReadOf(op, r) == MapStep(m, op).1
    ensures NextTable(m, op, r) == MapStep(m, op).0 && "" !in MapStep(m, op).0
    ensures !NextStale(false, op, r)
  {
    if op.Batch? { PutAllKeys(m, op.recs); }
    assert m - {""} == m;
  }

  lemma StepRefines(c: Codec, kind: string, s: State, op: Op, m: map<string, string>)
    requires Inv(c, kind, s, m, false) && "" !in m && CatalogOp(op)
    ensures var (s', r) := Step(c, kind, s, op);
            var (m', out) := MapStep(m, op);
            ReadOf(op, r) == out && Inv(c, kind, s', m', false) && "" !in m'
  {
    StepKeeps(c, kind, s, op, m, false);
    var (s', r) := Step(c, kind, s, op);
    ExpectedIsMap(op, r, m);
  }

  /** The log refines a plain map over every run of catalog calls, compactions and restarts. */
  lemma {:induction false} LogRefinesMap(c: Codec, kind: string, s: State, ops: seq<Op>, m: map<string, string>)
    requires Inv(c, kind, s, m, false) && "" !in m
    requires forall op :: op in ops ==> CatalogOp(op)
    ensures Reads(c, kind, s, ops) == MapReads(m, ops)
    decreases |ops|
  {
    if ops != [] {
      StepRefines(c, kind, s, ops[0], m);
      LogRefinesMap(c, kind, Step(c, kind, s, ops[0]).0, ops[1..], MapStep(m, ops[0]).0);
    }
  }

  /** From nothing on disk. */
  lemma FreshLogRefinesMap(c: Codec, kind: string, ops: seq<Op>)
    requires forall op :: op in ops ==> CatalogOp(op)
    ensures Reads(c, kind, State(None, None), ops) == MapReads(map[], ops)
  {
    LogRefinesMap(c, kind, State(None, None), ops, map[]);
  }

  // ---------------------------------------------------------------- unindexed batches

  /** Every record of the batch that is the last for its id is already the current one. */
  predicate AlreadyCurrent(m: map<string, string>, recs: seq<(string, string)>)
  {
    forall i :: 0 <= i < |recs| && (forall j :: i < j < |recs| ==> recs[j].0 != recs[i].0) ==>
      recs[i].0 in m && m[recs[i].0] == recs[i].1
  }

  lemma {:induction false} PutAllLast(m: map<string, string>, recs: seq<(string, string)>)
    ensures forall i :: 0 <= i < |recs| && (forall j :: i < j < |recs| ==> recs[j].0 != recs[i].0) ==>
              recs[i].0 in PutAll(m, recs) && PutAll(m, recs)[recs[i].0] == recs[i].1
    ensures forall id :: (forall i :: 0 <= i < |recs| ==> recs[i].0 != id) ==>
            Lookup(PutAll(m, recs), id) == Lookup(m, id)
  {
    if recs != [] {
      var n := |recs| - 1;
      PutAllLast(m, recs[..n]);
      forall i | 0 <= i < |recs| && (forall j :: i < j < |recs| ==> recs[j].0 != recs[i].0)
        ensures recs[i].0 in PutAll(m, recs) && PutAll(m, recs)[recs[i].0] == recs[i].1
      {
        if i < n {
          assert recs[n].0 != recs[i].0;
          assert recs[..n][i] == recs[i];
          assert forall j :: i < j < n ==> recs[..n][j] == recs[j];
        }
      }
      forall id | forall i :: 0 <= i < |recs| ==> recs[i].0 != id
        ensures Lookup(PutAll(m, recs), id) == Lookup(m, id)
      {
        assert recs[n].0 != id;
        assert forall i :: 0 <= i < n ==> recs[..n][i].0 == recs[i].0 != id;
      }
    }
  }

  lemma LastOccurrence(recs: seq<(string, string)>, id: string) returns (k: nat)
    requires exists i :: 0 <= i < |recs| && recs[i].0 == id
    ensures k < |recs| && recs[k].0 == id && forall j :: k < j < |recs| ==> recs[j].0 != id
  {
    k := |recs| - 1;
    while recs[k].0 != id
      invariant 0 <= k < |recs|
      invariant forall j :: k < j < |recs| ==> recs[j].0 != id
      decreases k
    {
      if k == 0 { assert false; }
      k := k - 1;
    }
  }

  lemma PutAllFixedIff(m: map<string, string>, recs: seq<(string, string)>)
    ensures PutAll(m, recs) == m <==> AlreadyCurrent(m, recs)
  {
    PutAllLast(m, recs);
    if AlreadyCurrent(m, recs) {
      forall id ensures Lookup(PutAll(m, recs), id) == Lookup(m, id)
      {
        if exists i :: 0 <= i < |recs| && recs[i].0 == id {
          var i := LastOccurrence(recs, id);
        }
      }
      LookupExtensional(PutAll(m, recs), m);
    }
  }

  /** A read right after an unindexed batch sees the table from before it, so it is right
      exactly when the batch wrote nothing new. */
  lemma UnindexedReadIff(c: Codec, kind: string, s: State, m: map<string, string>,
                         recs: seq<(string, string)>, clock: Option<int>, later: Option<int>)
    requires Inv(c, kind, s, m, false) && recs != []
    ensures var s' := Step(c, kind, s, BatchUnindexed(recs, clock)).0;
            && Step(c, kind, s', ReadLatest(later)).1 == Table(m)
            && (Step(c, kind, s', ReadLatest(later)).1 == Table(PutAll(m, recs)) <==> AlreadyCurrent(m, recs))
  {
    PutAllFixedIff(m, recs);
    Ensured(c, kind, s, m, false, clock);
    var s2 := EnsuredIndex(c, kind, EnsuredLog(kind, s, clock)).value;
    var s' := Step(c, kind, s, BatchUnindexed(recs, clock)).0;
    assert s'.index.value.latest == s2.index.value.latest == m;
    assert IndexIsCurrent(s');
  }

  /** One record that is new: the read still answers with the empty table. */
  lemma UnindexedReadIsStale()
    ensures var s := Step(PlainCodec(), "k", State(None, None), BatchUnindexed([("a", "1")], None)).0;
            && Step(PlainCodec(), "k", s, ReadLatest(None)).1 == Table(map[])
            && PutAll(map[], [("a", "1")]) == map["a" := "1"]
  {
    UnindexedReadIff(PlainCodec(), "k", State(None, None), map[], [("a", "1")], None, None);
    assert [("a", "1")][..0] == [];
  }

  // ---------------------------------------------------------------- sequence numbers

  ghost predicate Numbered(envs: seq<Envelope>)
  {
    forall i :: 0 <= i < |envs| ==> envs[i].seqNo == i + 1
  }

  ghost predicate SeqInv(c: Codec, kind: string, s: State)
  {
    match s.file
    case None => s.index.None?
    case Some(f) =>
      && ReplayAll(c, kind, f).Ok?
      && Numbered(ReplayAll(c, kind, f).value)
      && (s.index.Some? ==> s.index.value.nextSeq == |ReplayAll(c, kind, f).value| + 1)
  }

  lemma WrittenNumbered(c: Codec, kind: string, s: State, envs: seq<Envelope>, indexed: seq<Envelope>,
                        clock: Option<int>)
    requires SeqInv(c, kind, s) && s.file.Some? && s.index.Some?
    requires forall e :: e in envs ==> Acceptable(c, kind, e)
    requires forall i :: 0 <= i < |envs| ==> envs[i].seqNo == s.index.value.nextSeq + i
    ensures SeqInv(c, kind, Written(c, s, envs, indexed, clock))
  {
    var f := s.file.value;
    var g := Written(c, s, envs, indexed, clock).file.value;
    ReplayAppended(c, kind, f, g, envs, |envs|);
    assert envs[..|envs|] == envs;
  }

  lemma EnsuredNumbered(c: Codec, kind: string, s: State, clock: Option<int>)
    requires SeqInv(c, kind, s)
    ensures var s1 := EnsuredLog(kind, s, clock);
            var r := EnsuredIndex(c, kind, s1);
            SeqInv(c, kind, s1) && r.Ok? && SeqInv(c, kind, r.value)
  {
  }

  lemma AppendedNumbered(c: Codec, kind: string, s: State, recs: seq<(string, string)>, indexed: bool,
                         clock: Option<int>)
    requires SeqInv(c, kind, s)
    ensures SeqInv(c, kind, Appended(c, kind, s, recs, indexed, clock).0)
  {
    EnsuredNumbered(c, kind, s, clock);
    if recs != [] {
      var s2 := EnsuredIndex(c, kind, EnsuredLog(kind, s, clock)).value;
      var envs := Stamp(c, kind, recs, s2.index.value.nextSeq);
      WrittenNumbered(c, kind, s2, envs, if indexed then envs else [], clock);
    }
  }

  lemma DeletedNumbered(c: Codec, kind: string, s: State, id: string, clock: Option<int>)
    requires SeqInv(c, kind, s)
    ensures SeqInv(c, kind, Deleted(c, kind, s, id, clock).0)
  {
    EnsuredNumbered(c, kind, s, clock);
    var s2 := EnsuredIndex(c, kind, EnsuredLog(kind, s, clock)).value;
    var env := DeleteEnvelope(c, kind, id, s2.index.value.nextSeq);
    WrittenNumbered(c, kind, s2, [env], [env], clock);
  }

  lemma StepNumbered(c: Codec, kind: string, s: State, op: Op)
    requires SeqInv(c, kind, s) && !op.Compact?
    ensures SeqInv(c, kind, Step(c, kind, s, op).0)
  {
    match op {
      case Put(id, payload, clock) => AppendedNumbered(c, kind, s, [(id, payload)], true, clock);
      case Delete(id, clock) => DeletedNumbered(c, kind, s, id, clock);
      case Batch(recs, clock) => AppendedNumbered(c, kind, s, recs, true, clock);
      case BatchUnindexed(recs, clock) => AppendedNumbered(c, kind, s, recs, false, clock);
      case ReadLatest(clock) => EnsuredNumbered(c, kind, s, clock);
      case ReadRecord(_, clock) => EnsuredNumbered(c, kind, s, clock);
      case Compact(_, _) =>
      case Restart =>
    }
  }

  /** Without compaction, and across restarts and unindexed batches, the lines of a log are numbered
      1, 2, 3, ... and the cached next number continues them. */
  lemma {:induction false} RunsNumberWithoutGaps(c: Codec, kind: string, s: State, ops: seq<Op>)
    requires SeqInv(c, kind, s)
    requires forall i :: 0 <= i < |ops| ==> !ops[i].Compact?
    ensures SeqInv(c, kind, Run(c, kind, s, ops))
    decreases |ops|
  {
    if ops != [] {
      StepNumbered(c, kind, s, ops[0]);
      RunsNumberWithoutGaps(c, kind, Step(c, kind, s, ops[0]).0, ops[1..]);
    }
  }

  /** The number the next write takes is above every number in the file. */
  ghost predicate NextIsFresh(envs: seq<Envelope>)
  {
    forall e :: e in envs ==> e.seqNo < NextSeq(envs)
  }

  lemma ListedLast(live: map<string, Envelope>, out: seq<Envelope>, ks: seq<string>, top: string)
    requires Lists(live, out, ks) && StrictlySorted(ks)
    requires top in live && forall id :: id in live ==> Le(id, top)
    ensures out != [] && out[|out| - 1] == live[top]
  {
    var last := |ks| - 1;
    assert top in ks;
    assert ks[last] in live;
    var t :| 0 <= t < |ks| && ks[t] == top;
    if t < last {
      assert Less(ks[t], ks[last]);
      LeAntisymmetric(ks[last], top);
    }
  }

  lemma ListedMembers(live: map<string, Envelope>, out: seq<Envelope>, ks: seq<string>, bound: nat)
    requires Lists(live, out, ks)
    ensures (forall e :: e in out ==> e.seqNo <= bound) <==> (forall id :: id in live ==> live[id].seqNo <= bound)
  {
    if forall e :: e in out ==> e.seqNo <= bound {
      forall id | id in live ensures live[id].seqNo <= bound
      {
        assert id in ks;
        var i :| 0 <= i < |ks| && ks[i] == id;
        assert out[i] in out;
      }
    }
  }

  lemma ListedFreshIff(live: map<string, Envelope>, out: seq<Envelope>, ks: seq<string>, top: string)
    requires Lists(live, out, ks) && StrictlySorted(ks)
    requires top in live && forall id :: id in live ==> Le(id, top)
    ensures NextIsFresh(out) <==> forall id :: id in live ==> live[id].seqNo <= live[top].seqNo
  {
    ListedLast(live, out, ks, top);
    ListedMembers(live, out, ks, live[top].seqNo);
  }

  /** After a compaction that is so exactly when no survivor was written after the one with the greatest id. */
  lemma CompactionFreshIff(envs: seq<Envelope>, top: string)
    requires top in Live(envs) && forall id :: id in Live(envs) ==> Le(id, top)
    ensures NextIsFresh(Survivors(Live(envs))) <==>
            forall id :: id in Live(envs) ==> Live(envs)[id].seqNo <= Live(envs)[top].seqNo
  {
    SurvivorsLookup(envs);
    ListedFreshIff(Live(envs), Survivors(Live(envs)), SortedKeys(Live(envs).Keys), top);
  }

  function Numbers(envs: seq<Envelope>): (ns: seq<nat>)
  {
    seq(|envs|, i requires 0 <= i < |envs| => envs[i].seqNo)
  }

  /** One put on a log whose index is current. */
  lemma PutStep(c: Codec, kind: string, s: State, envs: seq<Envelope>, id: string, payload: string)
    requires s.file.Some? && ReplayAll(c, kind, s.file.value) == Ok(envs)
    requires s.index.Some? ==> Cached(s.index.value, Len(s.file.value), envs, Fold(envs), false)
    ensures var s' := Step(c, kind, s, Put(id, payload, None)).0;
            var envs' := envs + [PutEnvelope(c, kind, (id, payload), NextSeq(envs))];
            && s'.file.Some? && ReplayAll(c, kind, s'.file.value) == Ok(envs')
            && s'.file.value.lines ==
                 s.file.value.lines + Render(c, [PutEnvelope(c, kind, (id, payload), NextSeq(envs))])
            && s'.file.value.header == s.file.value.header
            && s'.index.Some? && Cached(s'.index.value, Len(s'.file.value), envs', Fold(envs'), false)
  {
    assert Inv(c, kind, s, Fold(envs), false);
    StepKeeps(c, kind, s, Put(id, payload, None), Fold(envs), false);
    Ensured(c, kind, s, Fold(envs), false, None);
    var s' := Step(c, kind, s, Put(id, payload, None)).0;
    var stamped := Stamp(c, kind, [(id, payload)], NextSeq(envs));
    assert stamped == [PutEnvelope(c, kind, (id, payload), NextSeq(envs))];
    ReplayWritten(c, kind, s.file.value, s'.file.value, stamped);
  }

  lemma CompactWitness(c: Codec, s: State, b1: Envelope, a2: Envelope, a3: Envelope)
    requires forall e :: c.width(e) == 1
    requires s.file.Some? && ReplayAll(c, "k", s.file.value) == Ok([b1, a2, a3])
    requires s.file.value.lines == [Record(b1, 1), Record(a2, 1), Record(a3, 1)]
    requires s.index.Some? && s.index.value.fileLen >= Len(s.file.value)
    requires Survivors(Live([b1, a2, a3])) == [a3, b1]
    ensures var s' := Step(c, "k", s, Compact(false, None)).0;
            && s'.file.Some? && ReplayAll(c, "k", s'.file.value) == Ok([a3, b1])
            && s'.index == s.index && s'.index.value.fileLen > Len(s'.file.value)
  {
    var f := s.file.value;
    JsonIsReplay(c, "k", f, 3);
    var g := CompactedFile(c, f, [b1, a2, a3], None);
    BytesOnes(f.lines);
    BytesOnes(g.lines);
    ReplayRendered(c, "k", g, [a3, b1], 2);
    assert [a3, b1][..2] == [a3, b1];
  }

  lemma ThreePuts(c: Codec, s0: State, s1: State, s2: State, s3: State, b1: Envelope, a2: Envelope, a3: Envelope)
    requires forall e :: c.width(e) == 1
    requires s0 == State(Some(File(Some(12), [], None)), None)
    requires s1 == Step(c, "k", s0, Put("b", "1", None)).0
    requires s2 == Step(c, "k", s1, Put("a", "1", None)).0
    requires s3 == Step(c, "k", s2, Put("a", "2", None)).0
    requires b1 == PutEnvelope(c, "k", ("b", "1"), 1)
    requires a2 == PutEnvelope(c, "k", ("a", "1"), 2)
    requires a3 == PutEnvelope(c, "k", ("a", "2"), 3)
    ensures s3.file.Some? && ReplayAll(c, "k", s3.file.value) == Ok([b1, a2, a3])
    ensures s3.file.value.lines == [Record(b1, 1), Record(a2, 1), Record(a3, 1)]
    ensures s3.index.Some? && s3.index.value.fileLen >= Len(s3.file.value)
  {
    assert [] + [b1] == [b1] && [b1] + [a2] == [b1, a2] && [b1, a2] + [a3] == [b1, a2, a3];
    PutStep(c, "k", s0, [], "b", "1");
    PutStep(c, "k", s1, [b1], "a", "1");
    PutStep(c, "k", s2, [b1, a2], "a", "2");
  }

  /** So numbers repeat: b, a, a, compaction, c, d leaves the lines 3, 1, 2, 3. */
  lemma NumbersRepeatAfterCompaction()
    ensures var ops := [Put("b", "1", None), Put("a", "1", None), Put("a", "2", None), Compact(false, None),
                        Put("c", "1", None), Put("d", "1", None)];
            var s := Run(PlainCodec(), "k", State(Some(File(Some(12), [], None)), None), ops);
            && s.file.Some? && ReplayAll(PlainCodec(), "k", s.file.value).Ok?
            && Numbers(ReplayAll(PlainCodec(), "k", s.file.value).value) == [3, 1, 2, 3]
  {
    var c := PlainCodec();
    var s0 := State(Some(File(Some(12), [], None)), None);
    var s1 := Step(c, "k", s0, Put("b", "1", None)).0;
    var s2 := Step(c, "k", s1, Put("a", "1", None)).0;
    var s3 := Step(c, "k", s2, Put("a", "2", None)).0;
    var b1, a2 := PutEnvelope(c, "k", ("b", "1"), 1), PutEnvelope(c, "k", ("a", "1"), 2);
    var a3 := PutEnvelope(c, "k", ("a", "2"), 3);
    ThreePuts(c, s0, s1, s2, s3, b1, a2, a3);
    LiveOfWitness(c, b1, a2, a3);
    CompactWitness(c, s3, b1, a2, a3);
    var s4 := Step(c, "k", s3, Compact(false, None)).0;
    TwoMorePuts(c, s4, a3, b1);
    RunUnroll(c, s0, s1, s2, s3, s4);
  }

  lemma TwoMorePuts(c: Codec, s4: State, a3: Envelope, b1: Envelope)
    requires s4.file.Some? && ReplayAll(c, "k", s4.file.value) == Ok([a3, b1])
    requires s4.index.Some? && s4.index.value.fileLen > Len(s4.file.value)
    requires a3.seqNo == 3 && b1.seqNo == 1
    ensures var s5 := Step(c, "k", s4, Put("c", "1", None)).0;
            var s6 := Step(c, "k", s5, Put("d", "1", None)).0;
            && s6.file.Some? && ReplayAll(c, "k", s6.file.value).Ok?
            && Numbers(ReplayAll(c, "k", s6.file.value).value) == [3, 1, 2, 3]
  {
    var s5 := Step(c, "k", s4, Put("c", "1", None)).0;
    PutStep(c, "k", s4, [a3, b1], "c", "1");
    var c2 := PutEnvelope(c, "k", ("c", "1"), 2);
    assert [a3, b1] + [c2] == [a3, b1, c2];
    PutStep(c, "k", s5, [a3, b1, c2], "d", "1");
  }

  lemma RunUnroll(c: Codec, s0: State, s1: State, s2: State, s3: State, s4: State)
    requires s1 == Step(c, "k", s0, Put("b", "1", None)).0
    requires s2 == Step(c, "k", s1, Put("a", "1", None)).0
    requires s3 == Step(c, "k", s2, Put("a", "2", None)).0
    requires s4 == Step(c, "k", s3, Compact(false, None)).0
    ensures Run(c, "k", s0, [Put("b", "1", None), Put("a", "1", None), Put("a", "2", None), Compact(false, None),
                             Put("c", "1", None), Put("d", "1", None)]) ==
            Step(c, "k", Step(c, "k", s4, Put("c", "1", None)).0, Put("d", "1", None)).0
  {
    var o1, o2, o3, o4, o5, o6 := Put("b", "1", None), Put("a", "1", None), Put("a", "2", None), Compact(false, None),
      Put("c", "1", None), Put("d", "1", None);
    RunCons(c, s0, o1, [o2, o3, o4, o5, o6]);
    RunCons(c, s1, o2, [o3, o4, o5, o6]);
    RunCons(c, s2, o3, [o4, o5, o6]);
    RunCons(c, s3, o4, [o5, o6]);
    RunCons(c, s4, o5, [o6]);
    RunCons(c, Step(c, "k", s4, o5).0, o6, []);
  }

  lemma RunCons(c: Codec, s: State, op: Op, ops: seq<Op>)
    ensures Run(c, "k", s, [op] + ops) == Run(c, "k", Step(c, "k", s, op).0, ops)
  {
    assert ([op] + ops)[1..] == ops;
  }

  lemma LiveOfWitness(c: Codec, b1: Envelope, a2: Envelope, a3: Envelope)
    requires b1 == PutEnvelope(c, "k", ("b", "1"), 1)
    requires a2 == PutEnvelope(c, "k", ("a", "1"), 2)
    requires a3 == PutEnvelope(c, "k", ("a", "2"), 3)
    ensures Survivors(Live([b1, a2, a3])) == [a3, b1]
  {
    assert [b1, a2, a3][..2] == [b1, a2] && [b1, a2][..1] == [b1] && [b1][..0] == [];
    assert Live([b1]) == map["b" := b1];
    assert Live([b1, a2]) == map["b" := b1, "a" := a2];
    assert Live([b1, a2, a3]) == map["b" := b1, "a" := a3];
    assert Elements(["a", "b"]) == {"a", "b"} == (map["b" := b1, "a" := a3]).Keys;
    assert Less("a", "b");
    SortedUnique(["a", "b"], SortedKeys({"a", "b"}));
  }
}
