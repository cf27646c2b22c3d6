/** crates/treedx_store/src/recovery/mod.rs: compaction of the logs. */
module Recovery {
  import opened Wrappers
  import opened Ordering
  import opened Log

  /** `StorageCompactFileResult`. */
  datatype CompactResult = CompactResult(
    recordsBefore: nat, recordsAfter: nat, bytesBefore: nat, bytesAfter: nat, compacted: bool)

  /** `read_json_log`: every line that is JSON, whatever its kind or checksum. */
  function JsonRecords(f: File, n: nat): Result<seq<Envelope>, LogError>
    requires n <= |f.lines|
  {
    if n == 0 then Ok([])
    else
      match JsonRecords(f, n - 1)
      case Err(e) => Err(e)
      case Ok(out) =>
        match f.lines[n - 1]
        case Blank(_) => Ok(out)
        case Malformed(_) => Err(InvalidRecord(LineNo(f, n - 1)))
        case Record(env, _) => Ok(out + [env])
  }

  /** The surviving line of each id; lines without an id are ignored. */
  function Live(envs: seq<Envelope>): map<string, Envelope>
  {
    if envs == [] then map[]
    else
      var e := envs[|envs| - 1];
      var live := Live(envs[..|envs| - 1]);
      if e.id == "" then live
      else if e.op == "delete" then live - {e.id}
      else live[e.id := e]
  }

  /** The survivors in the order `BTreeMap::values` lists them. */
  ghost function Survivors(live: map<string, Envelope>): (envs: seq<Envelope>)
    ensures |envs| == |SortedKeys(live.Keys)|
  {
    Values(live)
  }

  ghost function CompactedFile(c: Codec, f: File, envs: seq<Envelope>, clock: Option<int>): File
  {
    File(f.header, Render(c, Survivors(Live(envs))), clock)
  }

  ghost function Compacted(c: Codec, s: State, plan: bool, clock: Option<int>)
    : (State, Result<CompactResult, LogError>)
  {
    if s.file.None? then (s, Ok(CompactResult(0, 0, 0, 0, false)))
    else
      var f := s.file.value;
      match JsonRecords(f, |f.lines|)
      case Err(e) => (s, Err(e))
      case Ok(envs) =>
        var g := CompactedFile(c, f, envs, clock);
        var shrinks := !plan && Len(g) < Len(f);
        (if shrinks then s.(file := Some(g)) else s,
         Ok(CompactResult(|envs|, |Live(envs)|, Len(f), Len(g), shrinks)))
  }

  lemma {:induction false} JsonStops(f: File, n: nat, m: nat)
    requires n <= m <= |f.lines| && JsonRecords(f, n).Err?
    ensures JsonRecords(f, m) == JsonRecords(f, n)
  {
    if n < m { JsonStops(f, n, m - 1); }
  }

  method ReadJsonLog(f: File) returns (r: Result<seq<Envelope>, LogError>)
    ensures r == JsonRecords(f, |f.lines|)
  {
    var records := [];
    var i := 0;
    while i < |f.lines|
      invariant 0 <= i <= |f.lines|
      invariant JsonRecords(f, i) == Ok(records)
    {
      match f.lines[i] {
        case Blank(_) =>
        case Malformed(_) =>
          JsonStops(f, i + 1, |f.lines|);
          return Err(InvalidRecord(LineNo(f, i)));
        case Record(env, _) => records := records + [env];
      }
      i := i + 1;
    }
    return Ok(records);
  }

  /** `render_log` without the header line. */
  method RenderLog(c: Codec, live: map<string, Envelope>) returns (lines: seq<Line>)
    ensures lines == Render(c, Survivors(live))
  {
    var ks := ListKeys(live.Keys);
    lines := [];
    var i := 0;
    while i < |ks|
      invariant 0 <= i <= |ks|
      invariant lines == Render(c, Survivors(live))[..i]
    {
      assert ks[i] in Elements(ks);
      var record := live[ks[i]];
      assert Render(c, Survivors(live))[i] == Record(record, c.width(record));
      lines := lines + [Record(record, c.width(record))];
      i := i + 1;
    }
    assert Render(c, Survivors(live))[..|ks|] == Render(c, Survivors(live));
  }

  /** `compact_one`: replaces the file behind the index's back. */
  method CompactOne(log: CatalogLog, plan: bool, clock: Option<int>) returns (r: Result<CompactResult, LogError>)
    modifies log`file
    ensures (log.View(), r) == Compacted(log.codec, old(log.View()), plan, clock)
  {
    if log.file.None? {
      return Ok(CompactResult(0, 0, 0, 0, false));
    }
    var before := log.file.value;
    var read := ReadJsonLog(before);
    if read.Err? { return Err(read.error); }
    var records := read.value;
    var latest: map<string, Envelope> := map[];
    var i := 0;
    while i < |records|
      invariant 0 <= i <= |records|
      invariant latest == Live(records[..i])
    {
      assert records[..i + 1][..i] == records[..i];
      var record := records[i];
      i := i + 1;
      if record.id == "" { continue; }
      if record.op == "delete" {
        latest := latest - {record.id};
      } else {
        latest := latest[record.id := record];
      }
    }
    assert records[..|records|] == records;
    var lines := RenderLog(log.codec, latest);
    var after := File(before.header, lines, clock);
    if !plan && Len(after) < Len(before) {
      log.file := Some(after);
    }
    return Ok(CompactResult(|records|, |latest|, Len(before), Len(after), !plan && Len(after) < Len(before)));
  }

  // ---------------------------------------------------------------- what compaction keeps

  lemma {:induction false} LiveShape(envs: seq<Envelope>)
    ensures forall id :: id in Live(envs) ==>
              id != "" && Live(envs)[id].id == id && Live(envs)[id].op != "delete" && Live(envs)[id] in envs
    ensures |Live(envs)| <= |envs|
  {
    if envs != [] {
      var init := envs[..|envs| - 1];
      var e := envs[|envs| - 1];
      LiveShape(init);
      assert forall x :: x in init ==> x in envs;
      if e.id != "" && e.op == "delete" {
        assert (Live(init) - {e.id}).Keys <= Live(init).Keys;
        SubsetSize((Live(init) - {e.id}).Keys, Live(init).Keys);
      } else if e.id != "" {
        assert Live(envs).Keys == Live(init).Keys + {e.id};
      }
    }
  }

  lemma {:induction false} SubsetSize(a: set<string>, b: set<string>)
    requires a <= b
    ensures |a| <= |b|
  {
    if a != {} {
      var x :| x in a;
      SubsetSize(a - {x}, b - {x});
    }
  }

  /** `live` holds, under every non-empty id of `m` and no other, a line with the payload `m` gives it. */
  ghost predicate Carries(live: map<string, Envelope>, m: map<string, string>)
  {
    && (forall id :: id in live <==> id in m && id != "")
    && (forall id :: id in live ==> live[id].payload == m[id])
  }

  lemma {:induction false} LiveCarries(envs: seq<Envelope>)
    ensures Carries(Live(envs), Fold(envs))
  {
    if envs != [] { LiveCarries(envs[..|envs| - 1]); }
  }

  ghost predicate Unique(ks: seq<string>)
  {
    forall i, j :: 0 <= i < j < |ks| ==> ks[i] != ks[j]
  }

  ghost predicate OnePutEach(envs: seq<Envelope>, ks: seq<string>)
  {
    && |envs| == |ks| && Unique(ks)
    && forall i :: 0 <= i < |ks| ==> envs[i].id == ks[i] && envs[i].op != "delete"
  }

  lemma {:induction false} FoldPuts(envs: seq<Envelope>, ks: seq<string>)
    requires OnePutEach(envs, ks)
    ensures forall id :: id in Fold(envs) <==> id in ks
    ensures forall i :: 0 <= i < |ks| ==> Fold(envs)[ks[i]] == envs[i].payload
  {
    if envs != [] {
      var n := |envs| - 1;
      FoldPuts(envs[..n], ks[..n]);
      SnocMembers(ks);
      var m := Fold(envs[..n]);
      assert Fold(envs) == m[ks[n] := envs[n].payload];
      assert ks[n] !in ks[..n];
      forall i | 0 <= i < n ensures Fold(envs)[ks[i]] == envs[i].payload
      {
        assert ks[..n][i] == ks[i] && envs[..n][i] == envs[i];
      }
    }
  }

  lemma {:induction false} LivePuts(envs: seq<Envelope>, ks: seq<string>)
    requires OnePutEach(envs, ks) && "" !in ks
    ensures forall id :: id in Live(envs) <==> id in ks
    ensures forall i :: 0 <= i < |ks| ==> Live(envs)[ks[i]] == envs[i]
  {
    if envs != [] {
      var n := |envs| - 1;
      assert "" !in ks[..n] && ks[n] in ks;
      LivePuts(envs[..n], ks[..n]);
      SnocMembers(ks);
      assert Live(envs) == Live(envs[..n])[ks[n] := envs[n]];
      assert ks[n] !in ks[..n];
      forall i | 0 <= i < n ensures Live(envs)[ks[i]] == envs[i]
      {
        assert ks[..n][i] == ks[i] && envs[..n][i] == envs[i];
      }
    }
  }

  lemma SurvivorsLookup(envs: seq<Envelope>)
    ensures Lists(Live(envs), Survivors(Live(envs)), SortedKeys(Live(envs).Keys))
  {
    LiveShape(envs);
    var ks := SortedKeys(Live(envs).Keys);
    forall id ensures id in ks <==> id in Live(envs) { assert id in Elements(ks) <==> id in ks; }
  }

  /** `out` is one put line per key of `live`, listed as `ks`. */
  ghost predicate Lists(live: map<string, Envelope>, out: seq<Envelope>, ks: seq<string>)
  {
    && OnePutEach(out, ks)
    && (forall id :: id in ks <==> id in live)
    && (forall i :: 0 <= i < |ks| ==> ks[i] in live && out[i] == live[ks[i]])
  }

  lemma ListedFold(live: map<string, Envelope>, m: map<string, string>, out: seq<Envelope>, ks: seq<string>)
    requires Carries(live, m) && Lists(live, out, ks)
    ensures Fold(out) == m - {""}
  {
    FoldPuts(out, ks);
    forall id | id in m - {""} ensures id in Fold(out) && Fold(out)[id] == m[id]
    {
      assert id in ks;
      var i :| 0 <= i < |ks| && ks[i] == id;
    }
  }

  lemma ListedLive(live: map<string, Envelope>, out: seq<Envelope>, ks: seq<string>)
    requires Lists(live, out, ks) && "" !in live
    ensures Live(out) == live
  {
    LivePuts(out, ks);
    forall id | id in live ensures id in Live(out) && Live(out)[id] == live[id]
    {
      assert id in ks;
      var i :| 0 <= i < |ks| && ks[i] == id;
    }
  }

  /** Compaction keeps the meaning: the survivors fold to the same table, minus the empty id. */
  lemma CompactionKeepsMeaning(envs: seq<Envelope>)
    ensures Fold(Survivors(Live(envs))) == Fold(envs) - {""}
  {
    SurvivorsLookup(envs);
    LiveCarries(envs);
    ListedFold(Live(envs), Fold(envs), Survivors(Live(envs)), SortedKeys(Live(envs).Keys));
  }

  /** The compacted file holds one line per live id, in id order, no delete, nothing it did not read. */
  lemma CompactionShape(envs: seq<Envelope>)
    ensures var out := Survivors(Live(envs));
            && |out| == |Live(envs)| <= |envs|
            && (forall e :: e in out ==> e in envs && e.op != "delete")
            && (forall i, j :: 0 <= i < j < |out| ==> Less(out[i].id, out[j].id))
            && (forall id :: id in Fold(envs) && id != "" <==> exists i :: 0 <= i < |out| && out[i].id == id)
  {
    var out := Survivors(Live(envs));
    var ks := SortedKeys(Live(envs).Keys);
    LiveShape(envs);
    LiveCarries(envs);
    SurvivorsLookup(envs);
    SortedLength(ks);
    forall id | id in Fold(envs) && id != "" ensures exists i :: 0 <= i < |out| && out[i].id == id
    {
      assert id in ks;
      var i :| 0 <= i < |ks| && ks[i] == id;
      assert out[i].id == id;
    }
    forall i | 0 <= i < |out| ensures out[i].id in Fold(envs) && out[i].id != "" { assert ks[i] in ks; }
  }

  /** The table survives whole exactly when it holds nothing under the empty id. */
  lemma CompactionExactIff(envs: seq<Envelope>)
    ensures Fold(Survivors(Live(envs))) == Fold(envs) <==> "" !in Fold(envs)
  {
    CompactionKeepsMeaning(envs);
    if "" !in Fold(envs) { assert Fold(envs) - {""} == Fold(envs); }
  }

  /** A record under the empty id is there before a compaction and gone after it. */
  lemma EmptyIdIsDropped()
    ensures var put := Envelope(1, "put", "k", "", "x", "x");
            Fold([put]) == map["" := "x"] && Fold(Survivors(Live([put]))) == map[]
  {
    var put := Envelope(1, "put", "k", "", "x", "x");
    FoldOne(map[], put);
    assert [put][..0] == [];
    assert Live([put]) == map[];
    CompactionKeepsMeaning([put]);
  }

  /** The survivors survive again, unchanged and in place. */
  lemma SurvivorsFixed(envs: seq<Envelope>)
    ensures Survivors(Live(Survivors(Live(envs)))) == Survivors(Live(envs))
  {
    SurvivorsLookup(envs);
    LiveShape(envs);
    ListedLive(Live(envs), Survivors(Live(envs)), SortedKeys(Live(envs).Keys));
  }

  lemma {:induction false} JsonRendered(c: Codec, f: File, envs: seq<Envelope>, n: nat)
    requires f.lines == Render(c, envs) && n <= |envs|
    ensures JsonRecords(f, n) == Ok(envs[..n])
  {
    if n > 0 {
      JsonRendered(c, f, envs, n - 1);
      assert envs[..n] == envs[..n - 1] + [envs[n - 1]];
    }
  }

  lemma {:induction false} JsonPrefixIff(f: File, n: nat)
    requires n <= |f.lines|
    ensures JsonRecords(f, n).Ok? <==> forall i :: 0 <= i < n ==> !f.lines[i].Malformed?
  {
    if n > 0 { JsonPrefixIff(f, n - 1); }
  }

  /** A compaction goes through exactly when every line is JSON. It replaces the file exactly when it is no plan and the
      survivors take fewer bytes, and reports the lines and bytes before and after, in a plan as well. */
  lemma CompactedIff(c: Codec, s: State, plan: bool, clock: Option<int>)
    requires s.file.Some?
    ensures var f, (s', r) := s.file.value, Compacted(c, s, plan, clock);
            && (r.Ok? <==> forall i :: 0 <= i < |f.lines| ==> !f.lines[i].Malformed?)
            && (r.Ok? ==>
                  var envs := JsonRecords(f, |f.lines|).value;
                  var g := File(f.header, Render(c, Survivors(Live(envs))), clock);
                  && (r.value.compacted <==> !plan && Len(g) < Len(f))
                  && s' == (if !plan && Len(g) < Len(f) then State(Some(g), s.index) else s)
                  && r.value.recordsBefore == |envs| && r.value.recordsAfter == |Survivors(Live(envs))|
                  && r.value.bytesBefore == Len(f) && r.value.bytesAfter == Len(g))
            && (r.Err? ==> s' == s)
  {
    var f := s.file.value;
    JsonPrefixIff(f, |f.lines|);
    if JsonRecords(f, |f.lines|).Ok? { CompactionShape(JsonRecords(f, |f.lines|).value); }
  }

  /** Running the compaction twice changes nothing more and reports that it did not. */
  lemma CompactionIdempotent(c: Codec, s: State, plan: bool, clock: Option<int>, again: Option<int>)
    requires Compacted(c, s, plan, clock).1.Ok?
    ensures var s1 := Compacted(c, s, plan, clock).0;
            && Compacted(c, s1, plan, again).0 == s1
            && Compacted(c, s1, plan, again).1.Ok?
            && !Compacted(c, s1, plan, again).1.value.compacted
  {
    if s.file.Some? {
      var f := s.file.value;
      var envs := JsonRecords(f, |f.lines|).value;
      var out := Survivors(Live(envs));
      var g := CompactedFile(c, f, envs, clock);
      JsonRendered(c, g, out, |out|);
      assert out[..|out|] == out;
      SurvivorsFixed(envs);
    }
  }

  /** A plan never touches the file, and no run lengthens it. */
  lemma CompactionNeverGrows(c: Codec, s: State, plan: bool, clock: Option<int>)
    requires s.file.Some?
    ensures var (s', r) := Compacted(c, s, plan, clock);
            && s'.index == s.index
            && s'.file.Some?
            && (plan ==> s' == s)
            && (if r.Ok? && r.value.compacted
                then Len(s'.file.value) == r.value.bytesAfter < r.value.bytesBefore == Len(s.file.value)
                else s' == s)
            && (r.Ok? ==> r.value.recordsAfter <= r.value.recordsBefore)
  {
    var f := s.file.value;
    if JsonRecords(f, |f.lines|).Ok? { LiveShape(JsonRecords(f, |f.lines|).value); }
  }
}
