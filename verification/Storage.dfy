/** `compact_storage` of crates/treedx_store/src/recovery/mod.rs: which logs of a data directory it compacts. */
module Storage {
  import opened Wrappers
  import opened Ordering
  import opened Paths
  import opened Log
  import opened Recovery

  /** What the files hold, by the place of each. */
  type Contents = map<Location, State>

  type Codecs = map<Location, Codec>

  predicate IsAudit(path: string)
  {
    "audit/" <= path
  }

  /** `extension() == Some("tdb")` */
  predicate IsLogName(name: string)
  {
    |name| > 4 && name[|name| - 4..] == ".tdb"
  }

  /** `list_tdb_logs`: the logs below the data directory, by their paths from there. */
  function ListedLogs(disk: Disk): set<string>
  {
    set f | f in disk.files && disk.data < f && IsLogName(f[|f| - 1]) :: PathOf(f[|disk.data|..])
  }

  /** The paths a run works through: the requested ones, or all listed logs without the audit logs. */
  ghost function Requested(disk: Disk, logs: seq<string>): seq<string>
  {
    if logs == [] then SortedKeys(set p | p in ListedLogs(disk) && !IsAudit(p)) else logs
  }

  /** `compact_one` on a path: nothing there is an empty result, and a directory cannot be read. */
  ghost function CompactedAt(disk: Disk, codecs: Codecs, m: Contents, path: string, plan: bool, clock: Option<int>)
    : (r: (Contents, Result<CompactResult, LogError>))
    requires codecs.Keys == m.Keys
    ensures r.0.Keys == m.Keys
  {
    var at := Resolve(disk, path);
    if at.Some? && at.value in m then
      var (s, r) := Compacted(codecs[at.value], m[at.value], plan, clock);
      (m[at.value := s], r)
    else if at.Some? && at.value in disk.dirs then (m, Err(Io))
    else (m, Ok(CompactResult(0, 0, 0, 0, false)))
  }

  /** The loop of `compact_storage`: it ends at the first error, with the logs before it already compacted. */
  ghost function CompactedAll(disk: Disk, codecs: Codecs, m: Contents, paths: seq<string>, plan: bool,
                              clock: Option<int>)
    : (r: (Contents, Result<seq<(string, CompactResult)>, LogError>))
    requires codecs.Keys == m.Keys
    ensures r.0.Keys == m.Keys
  {
    if paths == [] then (m, Ok([]))
    else
      var (m1, files) := CompactedAll(disk, codecs, m, paths[..|paths| - 1], plan, clock);
      var last := paths[|paths| - 1];
      if files.Err? || IsAudit(last) then (m1, files)
      else
        var (m2, r) := CompactedAt(disk, codecs, m1, last, plan, clock);
        (m2, match r case Err(e) => Err(e) case Ok(result) => Ok(files.value + [(last, result)]))
  }

  lemma {:induction false} AllStops(disk: Disk, codecs: Codecs, m: Contents, paths: seq<string>, n: nat, plan: bool,
                                    clock: Option<int>)
    requires codecs.Keys == m.Keys && n <= |paths|
    requires CompactedAll(disk, codecs, m, paths[..n], plan, clock).1.Err?
    ensures CompactedAll(disk, codecs, m, paths, plan, clock) == CompactedAll(disk, codecs, m, paths[..n], plan, clock)
    decreases |paths|
  {
    if n < |paths| {
      var init := paths[..|paths| - 1];
      assert init[..n] == paths[..n];
      AllStops(disk, codecs, m, init, n, plan, clock);
    } else {
      TakeAll(paths);
    }
  }

  lemma AllSnoc(disk: Disk, codecs: Codecs, m: Contents, paths: seq<string>, i: nat, plan: bool, clock: Option<int>)
    requires codecs.Keys == m.Keys && i < |paths|
    ensures var (m1, files) := CompactedAll(disk, codecs, m, paths[..i], plan, clock);
            CompactedAll(disk, codecs, m, paths[..i + 1], plan, clock) ==
            if files.Err? || IsAudit(paths[i]) then (m1, files)
            else
              var (m2, r) := CompactedAt(disk, codecs, m1, paths[i], plan, clock);
              (m2, match r case Err(e) => Err(e) case Ok(result) => Ok(files.value + [(paths[i], result)]))
  {
    assert paths[..i + 1][..i] == paths[..i];
  }

  // ---------------------------------------------------------------- the run itself

  /** Different places hold different logs. */
  ghost predicate Separate(logs: map<Location, CatalogLog>)
  {
    forall p, q :: p in logs && q in logs && p != q ==> logs[p] != logs[q]
  }

  ghost function Views(logs: map<Location, CatalogLog>): (m: Contents)
    reads set p | p in logs :: logs[p]
    ensures m.Keys == logs.Keys
  {
    map p | p in logs :: logs[p].View()
  }

  ghost function CodecsOf(logs: map<Location, CatalogLog>): (codecs: Codecs)
    ensures codecs.Keys == logs.Keys
  {
    map p | p in logs :: logs[p].codec
  }

  /** `compact_one`, with the path it is given. */
  method CompactPath(disk: Disk, logs: map<Location, CatalogLog>, path: string, plan: bool, clock: Option<int>)
    returns (r: Result<CompactResult, LogError>)
    requires Separate(logs)
    modifies (set p | p in logs :: logs[p])`file
    ensures (Views(logs), r) == CompactedAt(disk, CodecsOf(logs), old(Views(logs)), path, plan, clock)
  {
    var at := Resolve(disk, path);
    if at.Some? && at.value in logs {
      r := CompactOne(logs[at.value], plan, clock);
      assert Views(logs) == old(Views(logs))[at.value := logs[at.value].View()];
    } else if at.Some? && at.value in disk.dirs {
      r := Err(Io);
    } else {
      r := Ok(CompactResult(0, 0, 0, 0, false));
    }
  }

  /** `compact_storage` over the files of a disk. */
  method CompactStorage(disk: Disk, logs: map<Location, CatalogLog>, names: seq<string>, plan: bool, clock: Option<int>)
    returns (r: Result<seq<(string, CompactResult)>, LogError>)
    requires Separate(logs) && logs.Keys == disk.files
    modifies (set p | p in logs :: logs[p])`file
    ensures (Views(logs), r) ==
            CompactedAll(disk, CodecsOf(logs), old(Views(logs)), Requested(disk, names), plan, clock)
  {
    var paths := names;
    if names == [] { paths := ListKeys(set p | p in ListedLogs(disk) && !IsAudit(p)); }
    r := CompactPaths(disk, logs, paths, plan, clock);
  }

  /** The loop over the paths. */
  method CompactPaths(disk: Disk, logs: map<Location, CatalogLog>, paths: seq<string>, plan: bool, clock: Option<int>)
    returns (r: Result<seq<(string, CompactResult)>, LogError>)
    requires Separate(logs)
    modifies (set p | p in logs :: logs[p])`file
    ensures (Views(logs), r) == CompactedAll(disk, CodecsOf(logs), old(Views(logs)), paths, plan, clock)
  {
    var files := [];
    ghost var codecs, before := CodecsOf(logs), Views(logs);
    var i := 0;
    while i < |paths|
      invariant 0 <= i <= |paths|
      invariant (Views(logs), Ok(files)) == CompactedAll(disk, codecs, before, paths[..i], plan, clock)
    {
      AllSnoc(disk, codecs, before, paths, i, plan, clock);
      if !IsAudit(paths[i]) {
        var result := CompactPath(disk, logs, paths[i], plan, clock);
        if result.Err? {
          AllStops(disk, codecs, before, paths, i + 1, plan, clock);
          return Err(result.error);
        }
        files := files + [(paths[i], result.value)];
      }
      i := i + 1;
    }
    TakeAll(paths);
    return Ok(files);
  }

  // ---------------------------------------------------------------- which logs a run changes

  /** Some path that is not skipped leads here. */
  ghost predicate Opens(disk: Disk, paths: seq<string>, at: Location)
  {
    exists p :: p in paths && !IsAudit(p) && Resolve(disk, p) == Some(at)
  }

  lemma OpensSnoc(disk: Disk, paths: seq<string>, at: Location)
    requires paths != []
    ensures var last := paths[|paths| - 1];
            Opens(disk, paths, at) <==>
            Opens(disk, paths[..|paths| - 1], at) || (!IsAudit(last) && Resolve(disk, last) == Some(at))
  {
    SnocMembers(paths);
  }

  /** `after` is the compacted form of `before`. */
  ghost predicate Settled(c: Codec, before: State, after: State, plan: bool, clock: Option<int>)
  {
    Compacted(c, before, plan, clock).1.Ok? && after == Compacted(c, before, plan, clock).0
  }

  /** Compacting what is compacted, as when two paths lead to one log, settles nothing else. */
  lemma SettledOnce(c: Codec, before: State, now: State, plan: bool, clock: Option<int>)
    requires now == before || Settled(c, before, now, plan, clock)
    ensures var (after, r) := Compacted(c, now, plan, clock);
            if r.Ok? then Settled(c, before, after, plan, clock) else after == now
  {
    if Settled(c, before, now, plan, clock) { CompactionIdempotent(c, before, plan, clock, clock); }
  }

  /** One path settles the log it leads to, unless it fails, and leaves every other log alone. */
  lemma SettleAt(disk: Disk, codecs: Codecs, m: Contents, path: string, plan: bool, clock: Option<int>, at: Location,
                 before: State)
    requires codecs.Keys == m.Keys && at in m
    requires m[at] == before || Settled(codecs[at], before, m[at], plan, clock)
    ensures var (m', r) := CompactedAt(disk, codecs, m, path, plan, clock);
            if r.Ok? && Resolve(disk, path) == Some(at) then Settled(codecs[at], before, m'[at], plan, clock)
            else m'[at] == m[at]
  {
    SettledOnce(codecs[at], before, m[at], plan, clock);
  }

  /** Every log ends as it was or as its own compaction; a run without an error compacts every log it opens. */
  lemma {:induction false} EachSettles(disk: Disk, codecs: Codecs, m: Contents, paths: seq<string>, plan: bool,
                                       clock: Option<int>, at: Location)
    requires codecs.Keys == m.Keys && at in m
    ensures var (m', r) := CompactedAll(disk, codecs, m, paths, plan, clock);
            && (m'[at] == m[at] || (Opens(disk, paths, at) && Settled(codecs[at], m[at], m'[at], plan, clock)))
            && (r.Ok? && Opens(disk, paths, at) ==> Settled(codecs[at], m[at], m'[at], plan, clock))
  {
    if paths != [] {
      var init, last := paths[..|paths| - 1], paths[|paths| - 1];
      EachSettles(disk, codecs, m, init, plan, clock, at);
      OpensSnoc(disk, paths, at);
      var m1 := CompactedAll(disk, codecs, m, init, plan, clock).0;
      SettleAt(disk, codecs, m1, last, plan, clock, at, m[at]);
    }
  }

  /** A run without an error changes exactly the logs it opens that compaction makes shorter. */
  lemma ChangedIff(disk: Disk, codecs: Codecs, m: Contents, paths: seq<string>, plan: bool, clock: Option<int>,
                   at: Location)
    requires codecs.Keys == m.Keys && at in m
    requires CompactedAll(disk, codecs, m, paths, plan, clock).1.Ok?
    ensures CompactedAll(disk, codecs, m, paths, plan, clock).0[at] != m[at] <==>
            Opens(disk, paths, at) && Compacted(codecs[at], m[at], plan, clock).1.Ok?
              && Compacted(codecs[at], m[at], plan, clock).1.value.compacted
  {
    EachSettles(disk, codecs, m, paths, plan, clock, at);
    if m[at].file.Some? { CompactionNeverGrows(codecs[at], m[at], plan, clock); }
  }

  /** A file is a log if its name is something and then `.tdb`. */
  lemma LogNameIff(name: string)
    ensures IsLogName(name) <==> exists stem :: stem != "" && name == stem + ".tdb"
  {
    if IsLogName(name) { assert name == name[..|name| - 4] + ".tdb"; }
  }

  lemma NamesSnoc(disk: Disk, codecs: Codecs, m: Contents, paths: seq<string>, plan: bool, clock: Option<int>)
    requires codecs.Keys == m.Keys && paths != [] && CompactedAll(disk, codecs, m, paths, plan, clock).1.Ok?
    ensures var init, last := paths[..|paths| - 1], paths[|paths| - 1];
            var before := CompactedAll(disk, codecs, m, init, plan, clock).1;
            && before.Ok?
            && NamesOf(CompactedAll(disk, codecs, m, paths, plan, clock).1.value) ==
               if IsAudit(last) then NamesOf(before.value) else NamesOf(before.value) + [last]
  {
  }

  /** A run without an error reports on every path it does not skip, in order. */
  lemma {:induction false} ReportedPaths(disk: Disk, codecs: Codecs, m: Contents, paths: seq<string>, plan: bool,
                                         clock: Option<int>) returns (names: seq<string>)
    requires codecs.Keys == m.Keys && CompactedAll(disk, codecs, m, paths, plan, clock).1.Ok?
    ensures names == NamesOf(CompactedAll(disk, codecs, m, paths, plan, clock).1.value)
    ensures FiltersTo(paths, NotAudit, names)
  {
    if paths == [] {
      FiltersEmpty(NotAudit);
      names := [];
    } else {
      NamesSnoc(disk, codecs, m, paths, plan, clock);
      var before := ReportedPaths(disk, codecs, m, paths[..|paths| - 1], plan, clock);
      FiltersSnoc(paths, NotAudit, before);
      names := if IsAudit(paths[|paths| - 1]) then before else before + [paths[|paths| - 1]];
    }
  }

  predicate NotAudit(path: string)
  {
    !("audit/" <= path)
  }

  function NamesOf(files: seq<(string, CompactResult)>): (names: seq<string>)
    ensures |names| == |files|
  {
    seq(|files|, i requires 0 <= i < |files| => files[i].0)
  }

  /** A path that leads to no file is reported empty and changes nothing, unless it leads to a directory. */
  lemma NothingThere(disk: Disk, codecs: Codecs, m: Contents, path: string, plan: bool, clock: Option<int>)
    requires codecs.Keys == m.Keys == disk.files
    requires Resolve(disk, path).None? || Resolve(disk, path).value !in disk.files
    ensures var (m', r) := CompactedAt(disk, codecs, m, path, plan, clock);
            && m' == m
            && (r.Err? <==> Resolve(disk, path).Some? && Resolve(disk, path).value in disk.dirs)
            && (r.Ok? ==> r.value == CompactResult(0, 0, 0, 0, false))
  {
  }

  // ---------------------------------------------------------------- audit logs

  predicate BelowAudit(disk: Disk, at: Location)
  {
    disk.data + ["audit"] < at
  }

  /** The path is not skipped and leads to an audit log. */
  predicate HitsAudit(disk: Disk, path: string)
  {
    && !IsAudit(path) && Resolve(disk, path).Some?
    && Resolve(disk, path).value in disk.files && BelowAudit(disk, Resolve(disk, path).value)
  }

  /** The path is not skipped and leads to a directory, which ends the run. */
  predicate HitsDirectory(disk: Disk, path: string)
  {
    && !IsAudit(path) && Resolve(disk, path).Some?
    && Resolve(disk, path).value !in disk.files && Resolve(disk, path).value in disk.dirs
  }

  /** The path leads to an audit log, and none before it leads to a directory. */
  predicate ReachesAuditAt(disk: Disk, paths: seq<string>, i: nat)
    requires i < |paths|
  {
    HitsAudit(disk, paths[i]) && forall j :: 0 <= j < i ==> !HitsDirectory(disk, paths[j])
  }

  /** Some path leads to an audit log, and none before it leads to a directory. */
  ghost predicate ReachesAudit(disk: Disk, paths: seq<string>)
  {
    exists i :: 0 <= i < |paths| && ReachesAuditAt(disk, paths, i)
  }

  ghost predicate AuditKept(disk: Disk, before: Contents, after: Contents)
    requires before.Keys == after.Keys
  {
    forall at :: at in before && BelowAudit(disk, at) ==> after[at] == before[at]
  }

  /** Whatever the files hold, the run leaves every audit log as it was. */
  ghost predicate SparesAudit(disk: Disk, paths: seq<string>)
  {
    forall codecs: Codecs, m: Contents, clock :: codecs.Keys == m.Keys == disk.files ==>
      AuditKept(disk, m, CompactedAll(disk, codecs, m, paths, false, clock).0)
  }

  /** One path that leads to no audit log, or comes after an error, leaves them all alone. */
  lemma QuietStep(disk: Disk, codecs: Codecs, m: Contents, before: Contents, path: string, clock: Option<int>)
    requires codecs.Keys == m.Keys == before.Keys == disk.files && AuditKept(disk, before, m)
    requires !IsAudit(path) && !HitsAudit(disk, path)
    ensures var (m', r) := CompactedAt(disk, codecs, m, path, false, clock);
            AuditKept(disk, before, m') && (r.Ok? ==> !HitsDirectory(disk, path))
  {
  }

  lemma ReachesAuditSnoc(disk: Disk, paths: seq<string>)
    requires paths != []
    ensures var init, last := paths[..|paths| - 1], paths[|paths| - 1];
            ReachesAudit(disk, paths) <==>
            || ReachesAudit(disk, init)
            || (HitsAudit(disk, last) && forall j :: 0 <= j < |init| ==> !HitsDirectory(disk, init[j]))
  {
    var init, last := paths[..|paths| - 1], paths[|paths| - 1];
    forall i | 0 <= i < |init| ensures ReachesAuditAt(disk, paths, i) <==> ReachesAuditAt(disk, init, i)
    {
      assert paths[i] == init[i] && forall j :: 0 <= j < i ==> paths[j] == init[j];
    }
    assert forall j :: 0 <= j < |init| ==> paths[j] == init[j];
    assert ReachesAuditAt(disk, paths, |init|) <==>
           HitsAudit(disk, last) && forall j :: 0 <= j < |init| ==> !HitsDirectory(disk, init[j]);
  }

  lemma {:induction false} QuietRun(disk: Disk, codecs: Codecs, m: Contents, paths: seq<string>, clock: Option<int>)
    requires codecs.Keys == m.Keys == disk.files && !ReachesAudit(disk, paths)
    ensures var (m', r) := CompactedAll(disk, codecs, m, paths, false, clock);
            && AuditKept(disk, m, m')
            && (r.Ok? ==> forall j :: 0 <= j < |paths| ==> !HitsDirectory(disk, paths[j]))
  {
    if paths != [] {
      var init, last := paths[..|paths| - 1], paths[|paths| - 1];
      ReachesAuditSnoc(disk, paths);
      QuietRun(disk, codecs, m, init, clock);
      var (m1, files) := CompactedAll(disk, codecs, m, init, false, clock);
      if files.Ok? && !IsAudit(last) { QuietStep(disk, codecs, m1, m, last, clock); }
    }
  }

  /** A log with one put twice, and the line of that put. */
  function TwiceLine(): Line
  {
    Record(Envelope(1, "put", "k", "a", "", ""), 1)
  }

  function TwicePut(): State
  {
    State(Some(File(None, [TwiceLine(), TwiceLine()], None)), None)
  }

  lemma TwicePutShrinks(clock: Option<int>)
    ensures var (s, r) := Compacted(PlainCodec(), TwicePut(), false, clock);
            r.Ok? && r.value.compacted && s != TwicePut()
  {
    var c, e := PlainCodec(), TwiceLine().env;
    var f := TwicePut().file.value;
    assert f.lines == Render(c, [e, e]);
    JsonRendered(c, f, [e, e], 2);
    assert [e, e][..2] == [e, e] && [e, e][..1] == [e] && [e][..0] == [];
    assert Live([e]) == map["a" := e] && Live([e, e]) == map["a" := e];
    CompactionShape([e, e]);
    BytesOnes(f.lines);
    BytesOnes(Render(c, Survivors(Live([e, e]))));
  }

  /** The log, compacted or not, can be compacted. */
  lemma TwicePutCompacts(s: State, clock: Option<int>)
    requires s == TwicePut() || Settled(PlainCodec(), TwicePut(), s, false, clock)
    ensures Compacted(PlainCodec(), s, false, clock).1.Ok?
  {
    TwicePutShrinks(clock);
    if s != TwicePut() { CompactionIdempotent(PlainCodec(), TwicePut(), false, clock, clock); }
  }

  lemma TwicePutRuns(disk: Disk, codecs: Codecs, m: Contents, path: string, clock: Option<int>)
    requires codecs.Keys == m.Keys == disk.files && !IsAudit(path) && !HitsDirectory(disk, path)
    requires forall at :: at in m ==> codecs[at] == PlainCodec()
    requires forall at :: at in m ==> m[at] == TwicePut() || Settled(PlainCodec(), TwicePut(), m[at], false, clock)
    ensures CompactedAt(disk, codecs, m, path, false, clock).1.Ok?
  {
    var at := Resolve(disk, path);
    if at.Some? && at.value in m { TwicePutCompacts(m[at.value], clock); }
  }

  lemma {:induction false} AllTwiceRuns(disk: Disk, codecs: Codecs, m: Contents, paths: seq<string>, clock: Option<int>)
    requires codecs.Keys == m.Keys == disk.files
    requires forall at :: at in m ==> codecs[at] == PlainCodec() && m[at] == TwicePut()
    requires forall j :: 0 <= j < |paths| ==> !HitsDirectory(disk, paths[j])
    ensures CompactedAll(disk, codecs, m, paths, false, clock).1.Ok?
  {
    if paths != [] {
      var init, last := paths[..|paths| - 1], paths[|paths| - 1];
      AllTwiceRuns(disk, codecs, m, init, clock);
      var m1 := CompactedAll(disk, codecs, m, init, false, clock).0;
      forall at | at in m ensures m1[at] == TwicePut() || Settled(PlainCodec(), TwicePut(), m1[at], false, clock)
      {
        EachSettles(disk, codecs, m, init, false, clock, at);
      }
      if !IsAudit(last) { TwicePutRuns(disk, codecs, m1, last, clock); }
    }
  }

  /** What is settled is not touched again. */
  lemma {:induction false} SettledStays(disk: Disk, codecs: Codecs, m: Contents, paths: seq<string>, n: nat,
                                        clock: Option<int>, at: Location)
    requires codecs.Keys == m.Keys && at in m && n <= |paths|
    requires Settled(codecs[at], m[at], CompactedAll(disk, codecs, m, paths[..n], false, clock).0[at], false, clock)
    ensures Settled(codecs[at], m[at], CompactedAll(disk, codecs, m, paths, false, clock).0[at], false, clock)
    decreases |paths| - n
  {
    if n < |paths| {
      AllSnoc(disk, codecs, m, paths, n, false, clock);
      var m1 := CompactedAll(disk, codecs, m, paths[..n], false, clock).0;
      SettleAt(disk, codecs, m1, paths[n], false, clock, at, m[at]);
      SettledStays(disk, codecs, m, paths, n + 1, clock, at);
    } else {
      TakeAll(paths);
    }
  }

  /** Where every log holds one put twice, a path that leads to an audit log settles it, if no directory came first. */
  lemma TwicePutSettles(disk: Disk, paths: seq<string>, codecs: Codecs, m: Contents)
    requires paths != [] && HitsAudit(disk, paths[|paths| - 1])
    requires forall j :: 0 <= j < |paths| ==> !HitsDirectory(disk, paths[j])
    requires codecs.Keys == m.Keys == disk.files
    requires forall at :: at in m ==> codecs[at] == PlainCodec() && m[at] == TwicePut()
    ensures var at := Resolve(disk, paths[|paths| - 1]).value;
            Settled(PlainCodec(), TwicePut(), CompactedAll(disk, codecs, m, paths, false, None).0[at], false, None)
  {
    var at := Resolve(disk, paths[|paths| - 1]).value;
    AllTwiceRuns(disk, codecs, m, paths, None);
    assert paths[|paths| - 1] in paths;
    EachSettles(disk, codecs, m, paths, false, None, at);
  }

  /** So it is changed in the end, whatever paths follow. */
  lemma TwicePutChanges(disk: Disk, paths: seq<string>, i: nat, codecs: Codecs, m: Contents)
    requires i < |paths| && HitsAudit(disk, paths[i]) && forall j :: 0 <= j < i ==> !HitsDirectory(disk, paths[j])
    requires codecs.Keys == m.Keys == disk.files
    requires forall at :: at in m ==> codecs[at] == PlainCodec() && m[at] == TwicePut()
    ensures var at := Resolve(disk, paths[i]).value; CompactedAll(disk, codecs, m, paths, false, None).0[at] != m[at]
  {
    TwicePutSettles(disk, paths[..i + 1], codecs, m);
    SettledStays(disk, codecs, m, paths, i + 1, None, Resolve(disk, paths[i]).value);
    TwicePutShrinks(None);
  }

  /** A request is sure to spare the audit logs exactly when no path of it that lacks the prefix leads to one
      before some other path leads to a directory. */
  lemma SparesAuditIff(disk: Disk, paths: seq<string>)
    ensures SparesAudit(disk, paths) <==> !ReachesAudit(disk, paths)
  {
    if ReachesAudit(disk, paths) {
      var i :| 0 <= i < |paths| && ReachesAuditAt(disk, paths, i);
      var codecs: Codecs := map f | f in disk.files :: PlainCodec();
      var m: Contents := map f | f in disk.files :: TwicePut();
      TwicePutChanges(disk, paths, i, codecs, m);
      assert !AuditKept(disk, m, CompactedAll(disk, codecs, m, paths, false, None).0);
    } else {
      forall codecs: Codecs, m: Contents, clock | codecs.Keys == m.Keys == disk.files
        ensures AuditKept(disk, m, CompactedAll(disk, codecs, m, paths, false, clock).0)
      {
        QuietRun(disk, codecs, m, paths, clock);
      }
    }
  }

  /** A run that names no logs opens every log below the data directory but the audit logs, and no other file. */
  lemma DefaultOpensIff(disk: Disk, at: Location)
    requires WellFormed(disk)
    ensures Opens(disk, Requested(disk, []), at) <==>
            at in disk.files && disk.data < at && IsLogName(at[|at| - 1]) && !BelowAudit(disk, at)
  {
    var paths := Requested(disk, []);
    forall p ensures p in paths <==> p in ListedLogs(disk) && !IsAudit(p)
    {
      assert p in paths <==> p in Elements(paths);
    }
    forall f | f in disk.files && disk.data < f
      ensures Resolve(disk, PathOf(f[|disk.data|..])) == Some(f)
      ensures IsAudit(PathOf(f[|disk.data|..])) <==> BelowAudit(disk, f)
    {
      ListedPath(disk, f);
    }
    if at in disk.files && disk.data < at && IsLogName(at[|at| - 1]) && !BelowAudit(disk, at) {
      assert PathOf(at[|disk.data|..]) in paths;
    }
  }

  lemma ListedPath(disk: Disk, f: Location)
    requires WellFormed(disk) && f in disk.files && disk.data < f
    ensures Resolve(disk, PathOf(f[|disk.data|..])) == Some(f)
    ensures IsAudit(PathOf(f[|disk.data|..])) <==> BelowAudit(disk, f)
  {
    PathLeadsBack(disk, f);
    var names := f[|disk.data|..];
    assert f == disk.data + names && PlainNames(names);
    PathBelowIff(names, "audit");
    assert "audit" + "/" == "audit/";
  }

  /** So it is sure to spare the audit logs. */
  lemma DefaultSparesAudit(disk: Disk)
    requires WellFormed(disk)
    ensures SparesAudit(disk, Requested(disk, []))
  {
    var paths := Requested(disk, []);
    forall i | 0 <= i < |paths| ensures !HitsAudit(disk, paths[i])
    {
      assert paths[i] in Elements(paths);
      var f :| f in disk.files && disk.data < f && IsLogName(f[|f| - 1]) && paths[i] == PathOf(f[|disk.data|..]);
      ListedPath(disk, f);
    }
    SparesAuditIff(disk, paths);
  }

  /** Every audit log can be reached by a request under another spelling of its path:
      the prefix is looked for in the text. */
  lemma OtherSpellingReachesAudit(disk: Disk, f: Location)
    requires WellFormed(disk) && f in disk.files && BelowAudit(disk, f)
    ensures var path := "./" + PathOf(f[|disk.data|..]);
            !IsAudit(path) && !SparesAudit(disk, [path])
  {
    var path := "./" + PathOf(f[|disk.data|..]);
    DottedPathLeadsBack(disk, f);
    assert path[0] == '.' && "audit/"[0] == 'a';
    assert ReachesAuditAt(disk, [path], 0);
    SparesAuditIff(disk, [path]);
  }

  lemma DotAuditIsNoException()
    ensures var disk := Disk({[], ["srv"], ["srv", "audit"]}, {["srv", "audit", "events.tdb"]}, ["srv"]);
            WellFormed(disk) && !IsAudit("./audit/events.tdb") && !SparesAudit(disk, ["./audit/events.tdb"])
  {
    var f := ["srv", "audit", "events.tdb"];
    var disk := Disk({[], ["srv"], ["srv", "audit"]}, {f}, ["srv"]);
    assert f[..0] == [] && f[..1] == ["srv"] && f[..2] == ["srv", "audit"];
    assert f[1..] == ["audit", "events.tdb"] && ["audit", "events.tdb"][1..] == ["events.tdb"];
    assert PathOf(f[1..]) == "audit" + "/" + "events.tdb";
    assert "./" + ("audit" + "/" + "events.tdb") == "./audit/events.tdb";
    OtherSpellingReachesAudit(disk, f);
  }
}
