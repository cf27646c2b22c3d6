/** crates/treedx_store/src/log/mod.rs: one append-only log file and the process-wide index cached for it. */
module Log {
  import opened Wrappers

  datatype Envelope = Envelope(seqNo: nat, op: string, kind: string, id: string, hash: string, payload: string)

  /** A line of the file after its header, with the bytes it occupies. */
  datatype Line =
    | Blank(bytes: nat)
    | Malformed(bytes: nat)
    | Record(env: Envelope, bytes: nat)

  /** `header` is the size of the leading "# treedx:" line, if the file has one. */
  datatype File = File(header: Option<nat>, lines: seq<Line>, modified: Option<int>)

  /** `LogIndex`. */
  datatype Index = Index(fileLen: nat, modified: Option<int>, nextSeq: nat, latest: map<string, string>)

  datatype State = State(file: Option<File>, index: Option<Index>)

  datatype LogError = InvalidRecord(line: nat) | Checksum(line: nat) | Io

  /** Payload hashing and JSON rendering stay abstract: any hash, any line width. */
  datatype Codec = Codec(hash: string -> string, width: Envelope -> nat)

  /** A codec for examples: payloads are their own hash, lines one byte wide. */
  function PlainCodec(): Codec
  {
    Codec((payload: string) => payload, (e: Envelope) => 1)
  }

  function Bytes(lines: seq<Line>): nat
  {
    if lines == [] then 0 else Bytes(lines[..|lines| - 1]) + lines[|lines| - 1].bytes
  }

  function Len(f: File): nat
  {
    (if f.header.Some? then f.header.value else 0) + Bytes(f.lines)
  }

  function HeaderBytes(kind: string): nat
  {
    |"# treedx:" + kind + ":v1\n"|
  }

  // ---------------------------------------------------------------- reading

  function LineNo(f: File, i: nat): nat
  {
    i + 1 + (if f.header.Some? then 1 else 0)
  }

  function ReadLine(c: Codec, kind: string, line: Line, lineNo: nat, out: seq<Envelope>)
    : Result<seq<Envelope>, LogError>
  {
    match line
    case Blank(_) => Ok(out)
    case Malformed(_) => Err(InvalidRecord(lineNo))
    case Record(env, _) =>
      if env.kind != kind then Err(InvalidRecord(lineNo))
      else if c.hash(env.payload) != env.hash then Err(Checksum(lineNo))
      else Ok(out + [env])
  }

  /** The envelopes of the first n lines, or the first line that cannot be accepted. */
  function Replay(c: Codec, kind: string, f: File, n: nat): Result<seq<Envelope>, LogError>
    requires n <= |f.lines|
  {
    if n == 0 then Ok([])
    else
      match Replay(c, kind, f, n - 1)
      case Err(e) => Err(e)
      case Ok(out) => ReadLine(c, kind, f.lines[n - 1], LineNo(f, n - 1), out)
  }

  function ReplayAll(c: Codec, kind: string, f: File): Result<seq<Envelope>, LogError>
  {
    Replay(c, kind, f, |f.lines|)
  }

  function Apply(m: map<string, string>, e: Envelope): map<string, string>
  {
    if e.op == "delete" then m - {e.id} else m[e.id := e.payload]
  }

  function FoldOnto(m: map<string, string>, envs: seq<Envelope>): map<string, string>
  {
    if envs == [] then m else Apply(FoldOnto(m, envs[..|envs| - 1]), envs[|envs| - 1])
  }

  /** What the file means: the last write of each id wins, a delete removes it. */
  function Fold(envs: seq<Envelope>): map<string, string>
  {
    FoldOnto(map[], envs)
  }

  function NextSeq(envs: seq<Envelope>): nat
  {
    if envs == [] then 1 else envs[|envs| - 1].seqNo + 1
  }

  // ---------------------------------------------------------------- writing

  function PutEnvelope(c: Codec, kind: string, rec: (string, string), seqNo: nat): Envelope
  {
    Envelope(seqNo, "put", kind, rec.0, c.hash(rec.1), rec.1)
  }

  function DeleteEnvelope(c: Codec, kind: string, id: string, seqNo: nat): Envelope
  {
    Envelope(seqNo, "delete", kind, id, c.hash("null"), "null")
  }

  /** The envelopes of a batch, numbered from `first`. */
  function Stamp(c: Codec, kind: string, recs: seq<(string, string)>, first: nat): (envs: seq<Envelope>)
    ensures |envs| == |recs|
  {
    seq(|recs|, i requires 0 <= i < |recs| => PutEnvelope(c, kind, recs[i], first + i))
  }

  function Render(c: Codec, envs: seq<Envelope>): (lines: seq<Line>)
    ensures |lines| == |envs|
  {
    seq(|envs|, i requires 0 <= i < |envs| => Record(envs[i], c.width(envs[i])))
  }

  function EnsuredLog(kind: string, s: State, clock: Option<int>): (r: State)
    ensures r.file.Some?
  {
    if s.file.Some? then s else s.(file := Some(File(Some(HeaderBytes(kind)), [], clock)))
  }

  predicate IndexIsCurrent(s: State)
    requires s.file.Some?
  {
    && s.index.Some?
    && s.index.value.fileLen == Len(s.file.value)
    && s.index.value.modified == s.file.value.modified
  }

  function EnsuredIndex(c: Codec, kind: string, s: State): (r: Result<State, LogError>)
    requires s.file.Some?
    ensures r.Ok? ==> r.value.index.Some? && r.value.file == s.file
  {
    if IndexIsCurrent(s) then Ok(s)
    else
      match ReplayAll(c, kind, s.file.value)
      case Err(e) => Err(e)
      case Ok(envs) =>
        Ok(s.(index := Some(Index(Len(s.file.value), s.file.value.modified, NextSeq(envs), Fold(envs)))))
  }

  /** The file grows by `envs`; the index learns the new length, and of the contents only `indexed`. */
  function Written(c: Codec, s: State, envs: seq<Envelope>, indexed: seq<Envelope>, clock: Option<int>): State
    requires s.file.Some? && s.index.Some?
  {
    var f := s.file.value.(lines := s.file.value.lines + Render(c, envs), modified := clock);
    var i := s.index.value;
    State(Some(f), Some(Index(Len(f), clock, i.nextSeq + |envs|, FoldOnto(i.latest, indexed))))
  }

  function Appended(c: Codec, kind: string, s: State, recs: seq<(string, string)>, indexed: bool, clock: Option<int>)
    : (State, Result<(), LogError>)
  {
    var s1 := EnsuredLog(kind, s, clock);
    if recs == [] then (s1, Ok(()))
    else
      match EnsuredIndex(c, kind, s1)
      case Err(e) => (s1, Err(e))
      case Ok(s2) =>
        var envs := Stamp(c, kind, recs, s2.index.value.nextSeq);
        (Written(c, s2, envs, if indexed then envs else [], clock), Ok(()))
  }

  function Deleted(c: Codec, kind: string, s: State, id: string, clock: Option<int>)
    : (State, Result<(), LogError>)
  {
    var s1 := EnsuredLog(kind, s, clock);
    match EnsuredIndex(c, kind, s1)
    case Err(e) => (s1, Err(e))
    case Ok(s2) =>
      var env := DeleteEnvelope(c, kind, id, s2.index.value.nextSeq);
      (Written(c, s2, [env], [env], clock), Ok(()))
  }

  function Loaded(c: Codec, kind: string, s: State, clock: Option<int>)
    : (State, Result<map<string, string>, LogError>)
  {
    var s1 := EnsuredLog(kind, s, clock);
    match EnsuredIndex(c, kind, s1)
    case Err(e) => (s1, Err(e))
    case Ok(s2) => (s2, Ok(s2.index.value.latest))
  }

  // ---------------------------------------------------------------- lemmas about the file

  lemma {:induction false} BytesAppend(a: seq<Line>, b: seq<Line>)
    ensures Bytes(a + b) == Bytes(a) + Bytes(b)
  {
    if b == [] {
      assert a + b == a;
    } else {
      var b' := b[..|b| - 1];
      assert (a + b)[..|a + b| - 1] == a + b';
      BytesAppend(a, b');
    }
  }

  lemma {:induction false} BytesOnes(lines: seq<Line>)
    requires forall l :: l in lines ==> l.bytes == 1
    ensures Bytes(lines) == |lines|
  {
    if lines != [] {
      assert lines[|lines| - 1] in lines;
      BytesOnes(lines[..|lines| - 1]);
    }
  }

  lemma {:induction false} FoldOntoAppend(m: map<string, string>, a: seq<Envelope>, b: seq<Envelope>)
    ensures FoldOnto(m, a + b) == FoldOnto(FoldOnto(m, a), b)
  {
    if b == [] {
      assert a + b == a;
    } else {
      var b' := b[..|b| - 1];
      assert (a + b)[..|a + b| - 1] == a + b';
      FoldOntoAppend(m, a, b');
    }
  }

  lemma FoldOne(m: map<string, string>, e: Envelope)
    ensures FoldOnto(m, [e]) == Apply(m, e)
  {
    assert [e][..0] == [];
  }

  /** Replaying a prefix looks at the prefix only. */
  lemma {:induction false} ReplayPrefix(c: Codec, kind: string, f: File, g: File, n: nat)
    requires n <= |f.lines| && f.header == g.header && f.lines <= g.lines
    ensures Replay(c, kind, f, n) == Replay(c, kind, g, n)
  {
    if n > 0 { ReplayPrefix(c, kind, f, g, n - 1); }
  }

  /** The first refused line decides the whole replay. */
  lemma {:induction false} ReplayStops(c: Codec, kind: string, f: File, n: nat, m: nat)
    requires n <= m <= |f.lines| && Replay(c, kind, f, n).Err?
    ensures Replay(c, kind, f, m) == Replay(c, kind, f, n)
  {
    if n < m { ReplayStops(c, kind, f, n, m - 1); }
  }

  ghost predicate Acceptable(c: Codec, kind: string, e: Envelope)
  {
    e.kind == kind && e.hash == c.hash(e.payload)
  }

  /** A line that a reader of this kind accepts: a blank line or an intact record of the kind. */
  predicate Readable(c: Codec, kind: string, line: Line)
  {
    match line
    case Blank(_) => true
    case Malformed(_) => false
    case Record(env, _) => env.kind == kind && env.hash == c.hash(env.payload)
  }

  lemma {:induction false} ReplayPrefixIff(c: Codec, kind: string, f: File, n: nat)
    requires n <= |f.lines|
    ensures Replay(c, kind, f, n).Ok? <==> forall i :: 0 <= i < n ==> Readable(c, kind, f.lines[i])
  {
    if n > 0 { ReplayPrefixIff(c, kind, f, n - 1); }
  }

  /** A log replays exactly when every line of it is accepted. */
  lemma ReplayOkIff(c: Codec, kind: string, f: File)
    ensures ReplayAll(c, kind, f).Ok? <==> forall i :: 0 <= i < |f.lines| ==> Readable(c, kind, f.lines[i])
  {
    ReplayPrefixIff(c, kind, f, |f.lines|);
  }

  /** Otherwise the first line that is not accepted is named, counting the header, as a broken checksum if that is all
      that is wrong. */
  lemma FirstRefusedLine(c: Codec, kind: string, f: File, i: nat)
    requires i < |f.lines| && !Readable(c, kind, f.lines[i])
    requires forall j :: 0 <= j < i ==> Readable(c, kind, f.lines[j])
    ensures var line := i + 1 + (if f.header.Some? then 1 else 0);
            ReplayAll(c, kind, f) ==
            Err(if f.lines[i].Record? && f.lines[i].env.kind == kind then Checksum(line) else InvalidRecord(line))
  {
    ReplayPrefixIff(c, kind, f, i);
    ReplayStops(c, kind, f, i + 1, |f.lines|);
  }

  /** The index says that the file has this length and time. */
  predicate SaysCurrent(s: State)
  {
    && s.file.Some? && s.index.Some?
    && s.index.value.fileLen == Len(s.file.value) && s.index.value.modified == s.file.value.modified
  }

  /** On a log with a line that is not accepted, and no index that passes for current, every read and every write fails,
      and file and index stay as they are. */
  lemma RefusedLogFails(c: Codec, kind: string, s: State, i: nat, clock: Option<int>)
    requires s.file.Some? && i < |s.file.value.lines| && !Readable(c, kind, s.file.value.lines[i]) && !SaysCurrent(s)
    ensures Loaded(c, kind, s, clock).0 == s && Loaded(c, kind, s, clock).1.Err?
    ensures forall id :: Deleted(c, kind, s, id, clock).0 == s && Deleted(c, kind, s, id, clock).1.Err?
    ensures forall recs, indexed :: recs != [] ==>
              && Appended(c, kind, s, recs, indexed, clock).0 == s
              && Appended(c, kind, s, recs, indexed, clock).1.Err?
  {
    ReplayOkIff(c, kind, s.file.value);
  }

  /** An index of another length or time is not answered from: a read folds the file again. */
  lemma OtherIndexIsRebuilt(c: Codec, kind: string, s: State, clock: Option<int>)
    requires s.file.Some? && !SaysCurrent(s) && ReplayAll(c, kind, s.file.value).Ok?
    ensures var (s', r) := Loaded(c, kind, s, clock);
            && r == Ok(Fold(ReplayAll(c, kind, s.file.value).value)) && s'.file == s.file && SaysCurrent(s')
  {
  }

  /** An index that passes for current is answered from as it is. */
  lemma CurrentIndexAnswers(c: Codec, kind: string, s: State, clock: Option<int>)
    requires SaysCurrent(s)
    ensures Loaded(c, kind, s, clock) == (s, Ok(s.index.value.latest))
  {
  }

  /** What a write appends, a later replay reads back. */
  lemma {:induction false} ReplayAppended(c: Codec, kind: string, f: File, g: File, envs: seq<Envelope>, n: nat)
    requires g.header == f.header && g.lines == f.lines + Render(c, envs) && n <= |envs|
    requires ReplayAll(c, kind, f).Ok?
    requires forall e :: e in envs ==> Acceptable(c, kind, e)
    ensures Replay(c, kind, g, |f.lines| + n) == Ok(ReplayAll(c, kind, f).value + envs[..n])
  {
    if n == 0 {
      ReplayPrefix(c, kind, f, g, |f.lines|);
      assert ReplayAll(c, kind, f).value + envs[..0] == ReplayAll(c, kind, f).value;
    } else {
      ReplayAppended(c, kind, f, g, envs, n - 1);
      assert g.lines[|f.lines| + n - 1] == Render(c, envs)[n - 1] == Record(envs[n - 1], c.width(envs[n - 1]));
      assert envs[..n] == envs[..n - 1] + [envs[n - 1]];
      assert envs[n - 1] in envs;
      var out := ReplayAll(c, kind, f).value;
      assert out + envs[..n - 1] + [envs[n - 1]] == out + envs[..n];
    }
  }

  lemma WrittenOne(c: Codec, s: State, env: Envelope, clock: Option<int>)
    requires s.file.Some? && s.index.Some?
    ensures var f := s.file.value.(lines := s.file.value.lines + [Record(env, c.width(env))], modified := clock);
            Written(c, s, [env], [env], clock) ==
            State(Some(f), Some(Index(Len(f), clock, s.index.value.nextSeq + 1, Apply(s.index.value.latest, env))))
  {
    FoldOne(s.index.value.latest, env);
    assert Render(c, [env]) == [Record(env, c.width(env))];
  }

  // ---------------------------------------------------------------- the log itself

  class CatalogLog {
    const kind: string
    const codec: Codec
    var file: Option<File>
    var index: Option<Index>

    ghost function View(): State
      reads this
    {
      State(file, index)
    }

    constructor (kind: string, codec: Codec, file: Option<File>)
      ensures this.kind == kind && this.codec == codec
      ensures View() == State(file, None)
    {
      this.kind, this.codec, this.file, this.index := kind, codec, file, None;
    }

    method EnsureLog(clock: Option<int>)
      modifies this`file
      ensures View() == EnsuredLog(kind, old(View()), clock)
    {
      if file.None? {
        file := Some(File(Some(HeaderBytes(kind)), [], clock));
      }
    }

    /** `replay_envelopes_unlocked`. */
    method ReplayEnvelopes() returns (r: Result<seq<Envelope>, LogError>)
      requires file.Some?
      ensures r == ReplayAll(codec, kind, file.value)
    {
      var f := file.value;
      var out := [];
      var i := 0;
      while i < |f.lines|
        invariant 0 <= i <= |f.lines|
        invariant Replay(codec, kind, f, i) == Ok(out)
      {
        match f.lines[i] {
          case Blank(_) =>
          case Malformed(_) =>
            ReplayStops(codec, kind, f, i + 1, |f.lines|);
            return Err(InvalidRecord(LineNo(f, i)));
          case Record(env, _) =>
            if env.kind != kind {
              ReplayStops(codec, kind, f, i + 1, |f.lines|);
              return Err(InvalidRecord(LineNo(f, i)));
            }
            if codec.hash(env.payload) != env.hash {
              ReplayStops(codec, kind, f, i + 1, |f.lines|);
              return Err(Checksum(LineNo(f, i)));
            }
            out := out + [env];
        }
        i := i + 1;
      }
      return Ok(out);
    }

    /** `ensure_index_unlocked`. */
    method EnsureIndex() returns (r: Result<(), LogError>)
      requires file.Some?
      modifies this`index
      ensures EnsuredIndex(codec, kind, old(View())) ==
              match r case Ok(_) => Ok(View()) case Err(e) => Err(e)
      ensures r.Err? ==> View() == old(View())
    {
      if index.Some? && index.value.fileLen == Len(file.value) && index.value.modified == file.value.modified {
        return Ok(());
      }
      var replayed := ReplayEnvelopes();
      if replayed.Err? {
        return Err(replayed.error);
      }
      var envs := replayed.value;
      var latest: map<string, string> := map[];
      var i := 0;
      while i < |envs|
        invariant 0 <= i <= |envs|
        invariant latest == Fold(envs[..i])
      {
        assert envs[..i + 1][..i] == envs[..i];
        if envs[i].op == "delete" {
          latest := latest - {envs[i].id};
        } else {
          latest := latest[envs[i].id := envs[i].payload];
        }
        i := i + 1;
      }
      assert envs[..|envs|] == envs;
      index := Some(Index(Len(file.value), file.value.modified, NextSeq(envs), latest));
      return Ok(());
    }

    /** `update_index_after_write`, whose loop only ever inserts. */
    method UpdateIndexAfterWrite(nextSeq: nat, records: seq<(string, string)>)
      requires file.Some? && index.Some?
      modifies this`index
      ensures index == Some(Index(Len(file.value), file.value.modified, nextSeq,
                                  FoldOnto(old(index.value.latest), Stamp(codec, kind, records, 0))))
    {
      var latest := index.value.latest;
      ghost var envs := Stamp(codec, kind, records, 0);
      var i := 0;
      while i < |records|
        invariant 0 <= i <= |records|
        invariant latest == FoldOnto(old(index.value.latest), envs[..i])
      {
        assert envs[..i + 1][..i] == envs[..i];
        latest := latest[records[i].0 := records[i].1];
        i := i + 1;
      }
      assert envs[..|envs|] == envs;
      index := Some(Index(Len(file.value), file.value.modified, nextSeq, latest));
    }

    /** `remove_from_index_after_write`. */
    method RemoveFromIndexAfterWrite(nextSeq: nat, id: string)
      requires file.Some? && index.Some?
      modifies this`index
      ensures index == Some(Index(Len(file.value), file.value.modified, nextSeq, old(index.value.latest) - {id}))
    {
      index := Some(Index(Len(file.value), file.value.modified, nextSeq, index.value.latest - {id}));
    }

    /** `append_record`. */
    method AppendRecord(id: string, payload: string, clock: Option<int>) returns (r: Result<(), LogError>)
      modifies this
      ensures (View(), r) == Appended(codec, kind, old(View()), [(id, payload)], true, clock)
    {
      EnsureLog(clock);
      r := EnsureIndex();
      if r.Err? { return; }
      ghost var s := View();
      var seqNo := index.value.nextSeq;
      var env := PutEnvelope(codec, kind, (id, payload), seqNo);
      file := Some(file.value.(lines := file.value.lines + [Record(env, codec.width(env))], modified := clock));
      StampFold(codec, kind, [(id, payload)], seqNo, index.value.latest);
      assert Stamp(codec, kind, [(id, payload)], seqNo) == [env];
      assert Render(codec, [env]) == [Record(env, codec.width(env))];
      UpdateIndexAfterWrite(seqNo + 1, [(id, payload)]);
      assert View() == Written(codec, s, [env], [env], clock);
      r := Ok(());
    }

    /** `append_delete`. */
    method AppendDelete(id: string, clock: Option<int>) returns (r: Result<(), LogError>)
      modifies this
      ensures (View(), r) == Deleted(codec, kind, old(View()), id, clock)
    {
      EnsureLog(clock);
      r := EnsureIndex();
      if r.Err? { return; }
      ghost var s := View();
      var seqNo := index.value.nextSeq;
      var env := DeleteEnvelope(codec, kind, id, seqNo);
      file := Some(file.value.(lines := file.value.lines + [Record(env, codec.width(env))], modified := clock));
      RemoveFromIndexAfterWrite(seqNo + 1, id);
      WrittenOne(codec, s, env, clock);
      assert View() == Written(codec, s, [env], [env], clock);
      r := Ok(());
    }

    /** `append_records` and, with `indexed` false, `append_records_unindexed`. */
    method AppendRecords(records: seq<(string, string)>, indexed: bool, clock: Option<int>)
      returns (r: Result<(), LogError>)
      modifies this
      ensures (View(), r) == Appended(codec, kind, old(View()), records, indexed, clock)
    {
      EnsureLog(clock);
      if records == [] { return Ok(()); }
      r := EnsureIndex();
      if r.Err? { return; }
      ghost var s := View();
      var firstSeq := index.value.nextSeq;
      var output := [];
      var nextSeq := firstSeq;
      var i := 0;
      ghost var envs := Stamp(codec, kind, records, firstSeq);
      while i < |records|
        invariant 0 <= i <= |records|
        invariant nextSeq == firstSeq + i
        invariant output == Render(codec, envs)[..i]
      {
        var env := PutEnvelope(codec, kind, records[i], nextSeq);
        assert Render(codec, envs)[i] == Record(env, codec.width(env));
        output := output + [Record(env, codec.width(env))];
        nextSeq := nextSeq + 1;
        i := i + 1;
      }
      file := Some(file.value.(lines := file.value.lines + output, modified := clock));
      StampFold(codec, kind, records, firstSeq, index.value.latest);
      assert Render(codec, envs)[..|records|] == Render(codec, envs);
      UpdateIndexAfterWrite(nextSeq, if indexed then records else []);
      assert View() == Written(codec, s, envs, if indexed then envs else [], clock);
      r := Ok(());
    }

    /** `replay_latest`. */
    method ReplayLatest(clock: Option<int>) returns (r: Result<map<string, string>, LogError>)
      modifies this
      ensures (View(), r) == Loaded(codec, kind, old(View()), clock)
    {
      EnsureLog(clock);
      var e := EnsureIndex();
      if e.Err? { return Err(e.error); }
      return Ok(index.value.latest);
    }

    /** `replay_record`. */
    method ReplayRecord(id: string, clock: Option<int>) returns (r: Result<Option<string>, LogError>)
      modifies this
      ensures View() == Loaded(codec, kind, old(View()), clock).0
      ensures match Loaded(codec, kind, old(View()), clock).1
              case Err(e) => r == Err(e)
              case Ok(table) => r == Ok(if id in table then Some(table[id]) else None)
    {
      EnsureLog(clock);
      var e := EnsureIndex();
      if e.Err? { return Err(e.error); }
      var latest := index.value.latest;
      return Ok(if id in latest then Some(latest[id]) else None);
    }

    /** A new process starts without any index. */
    method Restart()
      modifies this`index
      ensures View() == old(View()).(index := None)
    {
      index := None;
    }
  }

  /** Folding a batch does not depend on the numbers stamped on it. */
  lemma {:induction false} StampFold(c: Codec, kind: string, recs: seq<(string, string)>, first: nat,
                                     m: map<string, string>)
    ensures FoldOnto(m, Stamp(c, kind, recs, first)) == FoldOnto(m, Stamp(c, kind, recs, 0))
  {
    if recs != [] {
      var n := |recs| - 1;
      StampFold(c, kind, recs[..n], first, m);
      assert Stamp(c, kind, recs, first)[..n] == Stamp(c, kind, recs[..n], first);
      assert Stamp(c, kind, recs, 0)[..n] == Stamp(c, kind, recs[..n], 0);
    }
  }
}
