/** What every read of every run returns, also while the records of an unindexed batch are missing from the cache. */
module CachedReads {
  import opened Wrappers
  import opened Log
  import opened Recovery
  import opened LogRuns

  /** The table a process has in memory; it has none before its first access, and none that is valid after a
      compaction replaced the file. */
  type Seen = Option<map<string, string>>

  /** What an access finds: the table in memory, or else that of the file. */
  function Base(m: map<string, string>, seen: Seen): map<string, string>
  {
    if seen.Some? then seen.value else m
  }

  /** The table in memory after a call. Indexed writes reach it and unindexed ones do not. */
  function NextSeen(m: map<string, string>, seen: Seen, op: Op, r: Response): Seen
  {
    match op
    case Put(id, payload, _) => Some(Base(m, seen)[id := payload])
    case Delete(id, _) => Some(Base(m, seen) - {id})
    case Batch(recs, _) => if recs == [] then seen else Some(PutAll(Base(m, seen), recs))
    case BatchUnindexed(recs, _) => if recs == [] then seen else Some(Base(m, seen))
    case ReadLatest(_) => Some(Base(m, seen))
    case ReadRecord(_, _) => Some(Base(m, seen))
    case Compact(_, _) => if Shrank(r) then None else seen
    case Restart => None
  }

  /** The file means m, and the cache is that of the file but for its table, which is `seen`. */
  ghost predicate CacheIs(c: Codec, kind: string, s: State, m: map<string, string>, seen: Seen)
  {
    match s.file
    case None => s.index.None? && m == map[] && seen.None?
    case Some(f) =>
      && ReplayAll(c, kind, f).Ok?
      && Fold(ReplayAll(c, kind, f).value) == m
      && match seen
         case None => s.index.None? || s.index.value.fileLen > Len(f)
         case Some(t) => s.index == Some(Index(Len(f), f.modified, NextSeq(ReplayAll(c, kind, f).value), t))
  }

  ghost predicate Exactly(op: Op, r: Response, m: map<string, string>, seen: Seen)
  {
    match op
    case ReadLatest(_) => r == Table(Base(m, seen))
    case ReadRecord(id, _) => r == Found(Lookup(Base(m, seen), id))
    case Compact(plan, _) => r.Summary? && (plan ==> !Shrank(r))
    case _ => r == Done
  }

  lemma EnsuredCache(c: Codec, kind: string, s: State, m: map<string, string>, seen: Seen, clock: Option<int>)
    requires CacheIs(c, kind, s, m, seen)
    ensures var s1 := EnsuredLog(kind, s, clock);
            var r := EnsuredIndex(c, kind, s1);
            && CacheIs(c, kind, s1, m, seen)
            && r.Ok? && CacheIs(c, kind, r.value, m, Some(Base(m, seen)))
  {
  }

  lemma WrittenCache(c: Codec, kind: string, s: State, m: map<string, string>, t: map<string, string>,
                     envs: seq<Envelope>, indexed: bool, clock: Option<int>)
    requires s.file.Some? && s.index.Some? && CacheIs(c, kind, s, m, Some(t)) && envs != []
    requires forall e :: e in envs ==> Acceptable(c, kind, e)
    requires envs[|envs| - 1].seqNo + 1 == s.index.value.nextSeq + |envs|
    ensures CacheIs(c, kind, Written(c, s, envs, if indexed then envs else [], clock), FoldOnto(m, envs),
                    Some(if indexed then FoldOnto(t, envs) else t))
  {
    var f := s.file.value;
    var g := Written(c, s, envs, if indexed then envs else [], clock).file.value;
    var before := ReplayAll(c, kind, f).value;
    ReplayWritten(c, kind, f, g, envs);
    FoldOntoAppend(map[], before, envs);
    assert (before + envs)[|before + envs| - 1] == envs[|envs| - 1];
  }

  lemma AppendedCache(c: Codec, kind: string, s: State, m: map<string, string>, seen: Seen,
                      recs: seq<(string, string)>, indexed: bool, clock: Option<int>)
    requires CacheIs(c, kind, s, m, seen)
    ensures var (s', r) := Appended(c, kind, s, recs, indexed, clock);
            var base := Base(m, seen);
            && r == Ok(())
            && CacheIs(c, kind, s', PutAll(m, recs),
                       if recs == [] then seen else Some(if indexed then PutAll(base, recs) else base))
  {
    EnsuredCache(c, kind, s, m, seen, clock);
    if recs != [] {
      var s2 := EnsuredIndex(c, kind, EnsuredLog(kind, s, clock)).value;
      var next := s2.index.value.nextSeq;
      StampAcceptable(c, kind, recs, next);
      FoldStamp(c, kind, recs, next, m);
      FoldStamp(c, kind, recs, next, Base(m, seen));
      WrittenCache(c, kind, s2, m, Base(m, seen), Stamp(c, kind, recs, next), indexed, clock);
    }
  }

  lemma DeletedCache(c: Codec, kind: string, s: State, m: map<string, string>, seen: Seen, id: string,
                     clock: Option<int>)
    requires CacheIs(c, kind, s, m, seen)
    ensures var (s', r) := Deleted(c, kind, s, id, clock);
            r == Ok(()) && CacheIs(c, kind, s', m - {id}, Some(Base(m, seen) - {id}))
  {
    EnsuredCache(c, kind, s, m, seen, clock);
    var s2 := EnsuredIndex(c, kind, EnsuredLog(kind, s, clock)).value;
    var env := DeleteEnvelope(c, kind, id, s2.index.value.nextSeq);
    FoldOne(m, env);
    FoldOne(Base(m, seen), env);
    WrittenCache(c, kind, s2, m, Base(m, seen), [env], true, clock);
  }

  lemma CompactedCache(c: Codec, kind: string, s: State, m: map<string, string>, seen: Seen, plan: bool,
                       clock: Option<int>)
    requires CacheIs(c, kind, s, m, seen)
    ensures var (s', r) := Compacted(c, s, plan, clock);
            && r.Ok? && (plan ==> !r.value.compacted)
            && if r.value.compacted then CacheIs(c, kind, s', m - {""}, None) else CacheIs(c, kind, s', m, seen)
  {
    if s.file.Some? {
      var f := s.file.value;
      JsonIsReplay(c, kind, f, |f.lines|);
      var envs := ReplayAll(c, kind, f).value;
      var out := Survivors(Live(envs));
      CompactionShape(envs);
      CompactionKeepsMeaning(envs);
      ReplayRendered(c, kind, CompactedFile(c, f, envs, clock), out, |out|);
      TakeAll(out);
    }
  }

  /** Every call answers exactly from the table in memory, or from the file if there is none, and leaves the table
      in memory as described. */
  lemma StepAnswersExactly(c: Codec, kind: string, s: State, op: Op, m: map<string, string>, seen: Seen)
    requires CacheIs(c, kind, s, m, seen)
    ensures var (s', r) := Step(c, kind, s, op);
            && Exactly(op, r, m, seen)
            && CacheIs(c, kind, s', NextTable(m, op, r), NextSeen(m, seen, op, r))
  {
    match op {
      case Put(id, payload, clock) =>
        PutAllOne(m, id, payload);
        PutAllOne(Base(m, seen), id, payload);
        AppendedCache(c, kind, s, m, seen, [(id, payload)], true, clock);
      case Delete(id, clock) => DeletedCache(c, kind, s, m, seen, id, clock);
      case Batch(recs, clock) => AppendedCache(c, kind, s, m, seen, recs, true, clock);
      case BatchUnindexed(recs, clock) => AppendedCache(c, kind, s, m, seen, recs, false, clock);
      case ReadLatest(clock) => EnsuredCache(c, kind, s, m, seen, clock);
      case ReadRecord(_, clock) => EnsuredCache(c, kind, s, m, seen, clock);
      case Compact(plan, clock) => CompactedCache(c, kind, s, m, seen, plan, clock);
      case Restart =>
    }
  }

  lemma PutAllOne(m: map<string, string>, id: string, payload: string)
    ensures PutAll(m, [(id, payload)]) == m[id := payload]
  {
    assert [(id, payload)][..0] == [];
  }

  ghost predicate AllExactly(c: Codec, kind: string, s: State, ops: seq<Op>, m: map<string, string>, seen: Seen)
    decreases |ops|
  {
    ops == [] ||
    var (s', r) := Step(c, kind, s, ops[0]);
    && Exactly(ops[0], r, m, seen)
    && AllExactly(c, kind, s', ops[1..], NextTable(m, ops[0], r), NextSeen(m, seen, ops[0], r))
  }

  lemma {:induction false} RunsAnswerExactly(c: Codec, kind: string, s: State, ops: seq<Op>, m: map<string, string>,
                                             seen: Seen)
    requires CacheIs(c, kind, s, m, seen)
    ensures AllExactly(c, kind, s, ops, m, seen)
    decreases |ops|
  {
    if ops != [] {
      StepAnswersExactly(c, kind, s, ops[0], m, seen);
      var (s', r) := Step(c, kind, s, ops[0]);
      RunsAnswerExactly(c, kind, s', ops[1..], NextTable(m, ops[0], r), NextSeen(m, seen, ops[0], r));
    }
  }

  /** From an empty directory, every call of every run answers exactly so. */
  lemma FreshRunsAnswerExactly(c: Codec, kind: string, ops: seq<Op>)
    ensures AllExactly(c, kind, State(None, None), ops, map[], None)
  {
    RunsAnswerExactly(c, kind, State(None, None), ops, map[], None);
  }

  /** Why a file may only be replaced by a shorter one: this log is compacted to one of equal length, and at an equal
      time the cache would pass for current and answer with the record that is gone. */
  lemma EqualLengthWouldMislead(c: Codec, a: Envelope, x: Envelope, f: File, s: State)
    requires c == Codec((payload: string) => payload, (e: Envelope) => 2)
    requires a == Envelope(1, "put", "k", "a", "1", "1") && x == Envelope(2, "put", "k", "", "x", "x")
    requires f == File(None, [Record(a, 1), Record(x, 1)], None)
    requires s == State(Some(f), Some(Index(2, None, 3, map["a" := "1", "" := "x"])))
    ensures var g := CompactedFile(c, f, [a, x], None);
            && ReplayAll(c, "k", f) == Ok([a, x]) && Fold([a, x]) == s.index.value.latest && IndexIsCurrent(s)
            && Len(g) == Len(f) && IndexIsCurrent(s.(file := Some(g)))
            && ReplayAll(c, "k", g).Ok? && "" !in Fold(ReplayAll(c, "k", g).value) && "" in s.index.value.latest
  {
    TwoLines(c, f, a, x);
    FoldTwo(a, x);
    OneSurvivor(a, x);
    CompactionKeepsMeaning([a, x]);
    OneLine(c, CompactedFile(c, f, [a, x], None), a);
  }

  lemma OneLine(c: Codec, g: File, a: Envelope)
    requires Acceptable(c, "k", a) && g.header.None? && g.lines == Render(c, [a])
    ensures ReplayAll(c, "k", g) == Ok([a]) && Len(g) == c.width(a)
  {
    ReplayStep(c, "k", g, 0, []);
    assert [] + [a] == [a];
    var line := Record(a, c.width(a));
    assert g.lines == [line] && g.lines[..0] == [];
    assert Bytes(g.lines) == Bytes([]) + line.bytes;
  }

  /** Of two puts, the one under the empty id does not survive. */
  lemma OneSurvivor(a: Envelope, x: Envelope)
    requires a.op != "delete" && a.id != "" && x.id == ""
    ensures Survivors(Live([a, x])) == [a]
  {
    var envs := [a, x];
    assert envs[..1] == [a] && [a][..0] == [];
    assert Live([]) == map[];
    assert Live([a]) == map[a.id := a];
    assert Live(envs) == Live(envs[..1]);
    CompactionShape(envs);
    var out := Survivors(Live(envs));
    SurvivorsLookup(envs);
    assert |out| == 1;
    assert out[0] in out;
    assert out == [out[0]];
  }

  lemma FoldTwo(a: Envelope, x: Envelope)
    requires a.op != "delete" && x.op != "delete"
    ensures Fold([a, x]) == map[a.id := a.payload][x.id := x.payload]
  {
    assert [a, x][..1] == [a];
    FoldOne(map[], a);
  }

  lemma TwoLines(c: Codec, f: File, a: Envelope, x: Envelope)
    requires Acceptable(c, "k", a) && Acceptable(c, "k", x)
    requires f == File(None, [Record(a, 1), Record(x, 1)], None)
    ensures ReplayAll(c, "k", f) == Ok([a, x]) && Len(f) == 2
  {
    ReplayStep(c, "k", f, 0, []);
    assert [] + [a] == [a];
    ReplayStep(c, "k", f, 1, [a]);
    assert [a] + [x] == [a, x];
    BytesOnes(f.lines);
  }

  lemma ReplayStep(c: Codec, kind: string, f: File, n: nat, out: seq<Envelope>)
    requires n < |f.lines| && Replay(c, kind, f, n) == Ok(out)
    ensures Replay(c, kind, f, n + 1) == ReadLine(c, kind, f.lines[n], LineNo(f, n), out)
  {
  }
}
