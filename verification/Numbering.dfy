/** The numbers on the lines of a log over whole runs, after a compaction as well. */
module Numbering {
  import opened Wrappers
  import opened Ordering
  import opened Log
  import opened Recovery
  import opened LogRuns

  ghost predicate DistinctNumbers(envs: seq<Envelope>)
  {
    forall i, j :: 0 <= i < j < |envs| ==> envs[i].seqNo != envs[j].seqNo
  }

  /** The file replays, and no two of its lines share a number. */
  ghost predicate DistinctLog(c: Codec, kind: string, s: State)
  {
    && s.file.Some? && ReplayAll(c, kind, s.file.value).Ok?
    && DistinctNumbers(ReplayAll(c, kind, s.file.value).value)
  }

  predicate NoCompaction(ops: seq<Op>)
  {
    forall i :: 0 <= i < |ops| ==> !ops[i].Compact?
  }

  /** However the run goes on without a compaction, numbers stay distinct. */
  ghost predicate StaysDistinct(c: Codec, kind: string, s: State)
  {
    forall ops :: NoCompaction(ops) ==> DistinctLog(c, kind, Run(c, kind, s, ops))
  }

  /** The numbers go up by one from the given one. */
  ghost predicate Consecutive(envs: seq<Envelope>, first: nat)
  {
    forall i :: 0 <= i < |envs| ==> envs[i].seqNo == first + i
  }

  /** The lines of a put or a batch. */
  lemma AppendedLines(c: Codec, kind: string, s: State, recs: seq<(string, string)>, indexed: bool, clock: Option<int>,
                      m: map<string, string>, stale: bool) returns (added: seq<Envelope>)
    requires Inv(c, kind, s, m, stale) && s.file.Some?
    ensures var s' := Appended(c, kind, s, recs, indexed, clock).0;
            s'.file.Some? && Continues(c, kind, s.file.value, s'.file.value, added)
    ensures |added| == |recs|
  {
    Ensured(c, kind, s, m, stale, clock);
    var envs := ReplayAll(c, kind, s.file.value).value;
    added := Stamp(c, kind, recs, NextSeq(envs));
    if recs == [] {
      assert envs + added == envs;
    } else {
      ReplayWritten(c, kind, s.file.value, Appended(c, kind, s, recs, indexed, clock).0.file.value, added);
    }
  }

  lemma DeletedLines(c: Codec, kind: string, s: State, id: string, clock: Option<int>, m: map<string, string>,
                     stale: bool)
    returns (added: seq<Envelope>)
    requires Inv(c, kind, s, m, stale) && s.file.Some?
    ensures var s' := Deleted(c, kind, s, id, clock).0;
            s'.file.Some? && Continues(c, kind, s.file.value, s'.file.value, added)
  {
    Ensured(c, kind, s, m, stale, clock);
    added := [DeleteEnvelope(c, kind, id, NextSeq(ReplayAll(c, kind, s.file.value).value))];
    ReplayWritten(c, kind, s.file.value, Deleted(c, kind, s, id, clock).0.file.value, added);
  }

  /** The new file replays as the old one and then these lines, which continue the number of its last line. */
  ghost predicate Continues(c: Codec, kind: string, f: File, g: File, added: seq<Envelope>)
    requires ReplayAll(c, kind, f).Ok?
  {
    var envs := ReplayAll(c, kind, f).value;
    ReplayAll(c, kind, g) == Ok(envs + added) && Consecutive(added, NextSeq(envs))
  }

  /** Every call but a compaction only adds lines, and they continue the number of the last line. */
  lemma StepLines(c: Codec, kind: string, s: State, op: Op, m: map<string, string>, stale: bool)
    returns (added: seq<Envelope>)
    requires Inv(c, kind, s, m, stale) && s.file.Some? && !op.Compact?
    ensures var s' := Step(c, kind, s, op).0;
            s'.file.Some? && Continues(c, kind, s.file.value, s'.file.value, added)
    ensures op.Batch? ==> |added| == |op.recs|
  {
    added := [];
    var envs := ReplayAll(c, kind, s.file.value).value;
    assert envs + [] == envs;
    match op {
      case Put(id, payload, clock) => added := AppendedLines(c, kind, s, [(id, payload)], true, clock, m, stale);
      case Delete(id, clock) => added := DeletedLines(c, kind, s, id, clock, m, stale);
      case Batch(recs, clock) => added := AppendedLines(c, kind, s, recs, true, clock, m, stale);
      case BatchUnindexed(recs, clock) => added := AppendedLines(c, kind, s, recs, false, clock, m, stale);
      case ReadLatest(clock) => Ensured(c, kind, s, m, stale, clock);
      case ReadRecord(_, clock) => Ensured(c, kind, s, m, stale, clock);
      case Compact(_, _) =>
      case Restart =>
    }
  }

  /** Lines that continue from above all numbers leave them distinct, and again below the next one. */
  lemma ConsecutiveKeeps(envs: seq<Envelope>, added: seq<Envelope>)
    requires DistinctNumbers(envs) && NextIsFresh(envs) && Consecutive(added, NextSeq(envs))
    ensures DistinctNumbers(envs + added) && NextIsFresh(envs + added)
  {
    forall i, j | 0 <= i < j < |envs + added| ensures (envs + added)[i].seqNo != (envs + added)[j].seqNo
    {
      if i < |envs| { assert envs[i] in envs; }
    }
    if added == [] { assert envs + added == envs; }
  }

  lemma {:induction false} FreshStaysDistinct(c: Codec, kind: string, s: State, ops: seq<Op>, m: map<string, string>,
                                              stale: bool)
    requires Inv(c, kind, s, m, stale) && DistinctLog(c, kind, s) && NoCompaction(ops)
    requires NextIsFresh(ReplayAll(c, kind, s.file.value).value)
    ensures DistinctLog(c, kind, Run(c, kind, s, ops))
    decreases |ops|
  {
    if ops != [] {
      var op := ops[0];
      var added := StepLines(c, kind, s, op, m, stale);
      ConsecutiveKeeps(ReplayAll(c, kind, s.file.value).value, added);
      StepKeeps(c, kind, s, op, m, stale);
      var (s', r) := Step(c, kind, s, op);
      FreshStaysDistinct(c, kind, s', ops[1..], NextTable(m, op, r), NextStale(stale, op, r));
    }
  }

  /** A number above the last line's is met again by a long enough batch. */
  lemma BatchMeets(c: Codec, kind: string, s: State, m: map<string, string>, stale: bool, i: nat)
    requires Inv(c, kind, s, m, stale) && s.file.Some?
    requires var envs := ReplayAll(c, kind, s.file.value).value; i < |envs| && envs[i].seqNo >= NextSeq(envs)
    ensures !StaysDistinct(c, kind, s)
  {
    var envs := ReplayAll(c, kind, s.file.value).value;
    var n := envs[i].seqNo - NextSeq(envs) + 1;
    var op := Batch(seq(n, _ => ("a", "")), None);
    var added := StepLines(c, kind, s, op, m, stale);
    assert (envs + added)[i] == envs[i] && (envs + added)[|envs| + n - 1] == added[n - 1];
    assert added[n - 1].seqNo == envs[i].seqNo;
    RunOne(c, kind, s, op);
    assert NoCompaction([op]) && !DistinctLog(c, kind, Run(c, kind, s, [op]));
  }

  lemma RunOne(c: Codec, kind: string, s: State, op: Op)
    ensures Run(c, kind, s, [op]) == Step(c, kind, s, op).0
  {
    assert [op][1..] == [];
  }

  /** From a log with distinct numbers, they stay distinct in every run without a compaction
      exactly when the next number is above all of them. */
  lemma StaysDistinctIff(c: Codec, kind: string, s: State, m: map<string, string>, stale: bool)
    requires Inv(c, kind, s, m, stale) && DistinctLog(c, kind, s)
    ensures StaysDistinct(c, kind, s) <==> NextIsFresh(ReplayAll(c, kind, s.file.value).value)
  {
    var envs := ReplayAll(c, kind, s.file.value).value;
    if NextIsFresh(envs) {
      forall ops | NoCompaction(ops) ensures DistinctLog(c, kind, Run(c, kind, s, ops))
      {
        FreshStaysDistinct(c, kind, s, ops, m, stale);
      }
    } else {
      var e :| e in envs && e.seqNo >= NextSeq(envs);
      var i :| 0 <= i < |envs| && envs[i] == e;
      BatchMeets(c, kind, s, m, stale, i);
    }
  }

  /** A number belongs to one envelope. */
  lemma SameNumber(envs: seq<Envelope>, x: Envelope, y: Envelope)
    requires DistinctNumbers(envs) && x in envs && y in envs && x.seqNo == y.seqNo
    ensures x == y
  {
    var a :| 0 <= a < |envs| && envs[a] == x;
    var b :| 0 <= b < |envs| && envs[b] == y;
    assert a == b;
  }

  lemma SurvivorsDistinct(envs: seq<Envelope>)
    requires DistinctNumbers(envs)
    ensures DistinctNumbers(Survivors(Live(envs)))
  {
    CompactionShape(envs);
    PartDistinct(envs, Survivors(Live(envs)));
  }

  lemma PartDistinct(envs: seq<Envelope>, out: seq<Envelope>)
    requires DistinctNumbers(envs) && forall e :: e in out ==> e in envs
    requires forall i, j :: 0 <= i < j < |out| ==> Less(out[i].id, out[j].id)
    ensures DistinctNumbers(out)
  {
    forall i, j | 0 <= i < j < |out| ensures out[i].seqNo != out[j].seqNo
    {
      assert out[i] in out && out[j] in out && Less(out[i].id, out[j].id);
      if out[i].seqNo == out[j].seqNo { SameNumber(envs, out[i], out[j]); }
    }
  }

  /** The greatest id that is there. */
  ghost predicate Greatest(ids: set<string>, top: string)
  {
    top in ids && forall id :: id in ids ==> Le(id, top)
  }

  lemma GreatestExists(ids: set<string>) returns (top: string)
    requires ids != {}
    ensures Greatest(ids, top)
  {
    var ks := SortedKeys(ids);
    NonemptyElements(ks);
    top := ks[|ks| - 1];
    assert top in Elements(ks);
    forall id | id in ids ensures Le(id, top)
    {
      assert id in Elements(ks);
      var i :| 0 <= i < |ks| && ks[i] == id;
      LeReflexive(id);
    }
  }

  lemma FreshIff(envs: seq<Envelope>)
    ensures var live := Live(envs);
            NextIsFresh(Survivors(live)) <==>
            forall top, id :: Greatest(live.Keys, top) && id in live ==> live[id].seqNo <= live[top].seqNo
  {
    var live := Live(envs);
    CompactionShape(envs);
    if live.Keys == {} {
      assert |live| == 0;
    } else {
      var first := GreatestExists(live.Keys);
      CompactionFreshIff(envs, first);
      forall top | Greatest(live.Keys, top) ensures top == first { LeAntisymmetric(top, first); }
    }
  }

  /** After a compaction that replaced the file, numbers stay distinct until the next one, whatever is called,
      exactly when no survivor was written after the survivor with the greatest id. */
  lemma CompactionStaysDistinctIff(c: Codec, kind: string, s: State, m: map<string, string>, stale: bool,
                                   clock: Option<int>)
    requires Inv(c, kind, s, m, stale) && DistinctLog(c, kind, s)
    requires Shrank(Step(c, kind, s, Compact(false, clock)).1)
    ensures var live := Live(ReplayAll(c, kind, s.file.value).value);
            StaysDistinct(c, kind, Step(c, kind, s, Compact(false, clock)).0) <==>
            forall top, id :: Greatest(live.Keys, top) && id in live ==> live[id].seqNo <= live[top].seqNo
  {
    var f := s.file.value;
    var envs := ReplayAll(c, kind, f).value;
    var (s', r) := Step(c, kind, s, Compact(false, clock));
    var out := Survivors(Live(envs));
    JsonIsReplay(c, kind, f, |f.lines|);
    CompactionShape(envs);
    ReplayRendered(c, kind, s'.file.value, out, |out|);
    TakeAll(out);
    SurvivorsDistinct(envs);
    StepKeeps(c, kind, s, Compact(false, clock), m, stale);
    StaysDistinctIff(c, kind, s', NextTable(m, Compact(false, clock), r), NextStale(stale, Compact(false, clock), r));
    FreshIff(envs);
  }
}
