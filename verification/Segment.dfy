/** crates/treedx_graph/src/segment/mod.rs, with `dedupe` of crates/treedx_graph/src/index/mod.rs:
    storing a graph index and reading it back. */
module Segment {
  import opened Wrappers
  import opened Ordering

  datatype Line<T> = Header | Blank | Malformed | Envelope(kind: string, id: string, hash: string, payload: T)

  datatype SegmentError = InvalidRecord(line: nat) | Checksum(line: nat) | NotReady | NoManifest

  // ---------------------------------------------------------------- records

  function Written<T>(hash: T -> string, kind: string, records: seq<(string, T)>): (lines: seq<Line<T>>)
    ensures |lines| == |records| + 1
  {
    [Header] + seq(|records|, i requires 0 <= i < |records| =>
      Envelope(kind, records[i].0, hash(records[i].1), records[i].1))
  }

  /** The table of the first n lines, or the first line that cannot be accepted. */
  function Read<T>(hash: T -> string, kind: string, lines: seq<Line<T>>, n: nat): Result<map<string, T>, SegmentError>
    requires n <= |lines|
  {
    if n == 0 then Ok(map[])
    else
      match Read(hash, kind, lines, n - 1)
      case Err(e) => Err(e)
      case Ok(table) =>
        match lines[n - 1]
        case Header => if n == 1 then Ok(table) else Err(InvalidRecord(n))
        case Blank => Ok(table)
        case Malformed => Err(InvalidRecord(n))
        case Envelope(k, id, h, payload) =>
          if k != kind then Err(InvalidRecord(n))
          else if hash(payload) != h then Err(Checksum(n))
          else Ok(table[id := payload])
  }

  lemma {:induction false} ReadStops<T>(hash: T -> string, kind: string, lines: seq<Line<T>>, n: nat, m: nat)
    requires n <= m <= |lines| && Read(hash, kind, lines, n).Err?
    ensures Read(hash, kind, lines, m) == Read(hash, kind, lines, n)
  {
    if n < m { ReadStops(hash, kind, lines, n, m - 1); }
  }

  /** A line that a reader of this kind accepts: a header in front, a blank line, or an intact record of the kind. */
  predicate Readable<T(==)>(hash: T -> string, kind: string, line: Line<T>, i: nat)
  {
    match line
    case Header => i == 0
    case Blank => true
    case Malformed => false
    case Envelope(k, _, h, payload) => k == kind && h == hash(payload)
  }

  lemma {:induction false} ReadPrefixIff<T>(hash: T -> string, kind: string, lines: seq<Line<T>>, n: nat)
    requires n <= |lines|
    ensures Read(hash, kind, lines, n).Ok? <==> forall i :: 0 <= i < n ==> Readable(hash, kind, lines[i], i)
  {
    if n > 0 { ReadPrefixIff(hash, kind, lines, n - 1); }
  }

  /** A file is read exactly when every line of it is accepted. */
  lemma ReadOkIff<T>(hash: T -> string, kind: string, lines: seq<Line<T>>)
    ensures Read(hash, kind, lines, |lines|).Ok? <==>
            forall i :: 0 <= i < |lines| ==> Readable(hash, kind, lines[i], i)
  {
    ReadPrefixIff(hash, kind, lines, |lines|);
  }

  /** Otherwise the first line that is not accepted is named, as a broken checksum if that is all that is wrong. */
  lemma FirstRefusedLine<T>(hash: T -> string, kind: string, lines: seq<Line<T>>, i: nat)
    requires i < |lines| && !Readable(hash, kind, lines[i], i)
    requires forall j :: 0 <= j < i ==> Readable(hash, kind, lines[j], j)
    ensures Read(hash, kind, lines, |lines|) ==
            Err(if lines[i].Envelope? && lines[i].kind == kind then Checksum(i + 1) else InvalidRecord(i + 1))
  {
    ReadPrefixIff(hash, kind, lines, i);
    ReadStops(hash, kind, lines, i + 1, |lines|);
  }

  /** Of the first n lines, line i is the last record of the id. */
  predicate LastOf<T>(lines: seq<Line<T>>, n: nat, i: nat, id: string)
    requires i < n <= |lines|
  {
    lines[i].Envelope? && lines[i].id == id && forall j :: i < j < n && lines[j].Envelope? ==> lines[j].id != id
  }

  /** A file that is read gives each id its last record, and no other id. */
  lemma {:induction false} LastRecordWins<T>(hash: T -> string, kind: string, lines: seq<Line<T>>, n: nat, id: string)
    requires n <= |lines| && Read(hash, kind, lines, n).Ok?
    ensures var table := Read(hash, kind, lines, n).value;
            && (id in table <==> exists i :: 0 <= i < n && lines[i].Envelope? && lines[i].id == id)
            && (forall i :: 0 <= i < n && LastOf(lines, n, i, id) ==> id in table && table[id] == lines[i].payload)
  {
    if n > 0 { LastRecordWins(hash, kind, lines, n - 1, id); }
  }

  /** `write_records`. */
  method WriteRecords<T>(hash: T -> string, kind: string, records: seq<(string, T)>) returns (lines: seq<Line<T>>)
    ensures lines == Written(hash, kind, records)
  {
    lines := [Header];
    var i := 0;
    while i < |records|
      invariant 0 <= i <= |records|
      invariant lines == Written(hash, kind, records)[..i + 1]
    {
      lines := lines + [Envelope(kind, records[i].0, hash(records[i].1), records[i].1)];
      i := i + 1;
    }
  }

  /** `read_records`. */
  method ReadRecords<T>(hash: T -> string, kind: string, lines: seq<Line<T>>)
    returns (r: Result<map<string, T>, SegmentError>)
    ensures r == Read(hash, kind, lines, |lines|)
  {
    var records: map<string, T> := map[];
    var i := 0;
    while i < |lines|
      invariant 0 <= i <= |lines|
      invariant Read(hash, kind, lines, i) == Ok(records)
    {
      match lines[i] {
        case Header =>
          if i != 0 {
            ReadStops(hash, kind, lines, i + 1, |lines|);
            return Err(InvalidRecord(i + 1));
          }
        case Blank =>
        case Malformed =>
          ReadStops(hash, kind, lines, i + 1, |lines|);
          return Err(InvalidRecord(i + 1));
        case Envelope(k, id, h, payload) =>
          if k != kind {
            ReadStops(hash, kind, lines, i + 1, |lines|);
            return Err(InvalidRecord(i + 1));
          }
          if hash(payload) != h {
            ReadStops(hash, kind, lines, i + 1, |lines|);
            return Err(Checksum(i + 1));
          }
          records := records[id := payload];
      }
      i := i + 1;
    }
    return Ok(records);
  }

  /** The last record of each id. */
  function Latest<T>(records: seq<(string, T)>): map<string, T>
  {
    if records == [] then map[]
    else Latest(records[..|records| - 1])[records[|records| - 1].0 := records[|records| - 1].1]
  }

  /** What is written is read back, the last record of an id winning. */
  lemma {:induction false} ReadWritten<T>(hash: T -> string, kind: string, records: seq<(string, T)>, n: nat)
    requires n <= |records|
    ensures Read(hash, kind, Written(hash, kind, records), n + 1) == Ok(Latest(records[..n]))
  {
    if n > 0 {
      ReadWritten(hash, kind, records, n - 1);
      assert records[..n][..n - 1] == records[..n - 1];
    } else {
      assert Read(hash, kind, Written(hash, kind, records), 0) == Ok(map[]);
    }
  }

  // ---------------------------------------------------------------- values in key order

  /** A stored item: a document, a node or an edge, under its path or id. */
  datatype Item = Item(id: string, body: string)

  function Keyed(items: seq<Item>): (records: seq<(string, Item)>)
    ensures |records| == |items|
  {
    seq(|items|, i requires 0 <= i < |items| => (items[i].id, items[i]))
  }

  ghost predicate DistinctIds(items: seq<Item>)
  {
    forall i, j :: 0 <= i < j < |items| ==> items[i].id != items[j].id
  }

  ghost predicate SortedById(items: seq<Item>)
  {
    forall i, j :: 0 <= i < j < |items| ==> Less(items[i].id, items[j].id)
  }

  lemma {:induction false} LatestKeyed(items: seq<Item>)
    ensures forall id :: id in Latest(Keyed(items)) ==>
            Latest(Keyed(items))[id] in items && Latest(Keyed(items))[id].id == id
    ensures forall x :: x in items ==> x.id in Latest(Keyed(items))
    ensures DistinctIds(items) ==> forall x :: x in items ==> Latest(Keyed(items))[x.id] == x
  {
    if items != [] {
      var n := |items| - 1;
      LatestKeyed(items[..n]);
      SnocMembers(items);
      assert Keyed(items)[..n] == Keyed(items[..n]);
    }
  }

  /** What reading stored items yields. */
  ghost function Stored(items: seq<Item>): seq<Item>
  {
    Values(Latest(Keyed(items)))
  }

  ghost predicate HasId(items: seq<Item>, id: string)
  {
    exists y :: y in items && y.id == id
  }

  ghost predicate KeepsAll(items: seq<Item>, out: seq<Item>)
  {
    forall x :: x in items ==> x in out
  }

  /** Reading yields the items sorted by id, each id once, and no item that was not written. */
  lemma StoredShape(items: seq<Item>)
    ensures SortedById(Stored(items))
    ensures KeepsAll(Stored(items), items)
    ensures forall x :: x in items ==> HasId(Stored(items), x.id)
    ensures DistinctIds(items) ==> KeepsAll(items, Stored(items))
  {
    var table := Latest(Keyed(items));
    var ks := SortedKeys(table.Keys);
    LatestKeyed(items);
    forall i | 0 <= i < |ks| ensures ks[i] in table && Stored(items)[i] == table[ks[i]]
    {
      assert ks[i] in Elements(ks);
    }
    forall x | x in items ensures exists i :: 0 <= i < |ks| && ks[i] == x.id && Stored(items)[i] == table[x.id]
    {
      assert x.id in Elements(ks);
      var i :| 0 <= i < |ks| && ks[i] == x.id;
    }
  }

  /** No two different items share an id. */
  ghost predicate OneItemPerId(items: seq<Item>)
  {
    forall x, y :: x in items && y in items && x.id == y.id ==> x == y
  }

  /** Nothing is lost, so that reading is a sort, exactly when no two different items share an id. */
  lemma StoredKeepsAllIff(items: seq<Item>)
    ensures KeepsAll(items, Stored(items)) <==> OneItemPerId(items)
  {
    StoredShape(items);
    KeepsAllIff(items, Stored(items));
  }

  lemma KeepsAllIff(items: seq<Item>, out: seq<Item>)
    requires SortedById(out) && KeepsAll(out, items)
    requires forall x :: x in items ==> HasId(out, x.id)
    ensures KeepsAll(items, out) <==> OneItemPerId(items)
  {
    if KeepsAll(items, out) {
      forall x, y | x in items && y in items && x.id == y.id ensures x == y
      {
        var i :| 0 <= i < |out| && out[i] == x;
        var j :| 0 <= j < |out| && out[j] == y;
        SameIdSamePlace(out, i, j);
      }
    }
    if OneItemPerId(items) {
      forall x | x in items ensures x in out
      {
        assert HasId(out, x.id);
        var y :| y in out && y.id == x.id;
        assert y in items;
      }
    }
  }

  lemma SameIdSamePlace(items: seq<Item>, i: nat, j: nat)
    requires SortedById(items) && i < |items| && j < |items| && items[i].id == items[j].id
    ensures i == j
  {
  }

  // ---------------------------------------------------------------- dedupe

  /** The first item of each id, in order. */
  function Deduped(items: seq<Item>): seq<Item>
  {
    if items == [] then []
    else
      var before := Deduped(items[..|items| - 1]);
      var x := items[|items| - 1];
      if x.id in (set y | y in before :: y.id) then before else before + [x]
  }

  /** `dedupe`: retain an item if its key had not been seen. */
  method Dedupe(items: seq<Item>) returns (kept: seq<Item>)
    ensures kept == Deduped(items)
  {
    kept := [];
    var seen: set<string> := {};
    var i := 0;
    while i < |items|
      invariant 0 <= i <= |items|
      invariant kept == Deduped(items[..i])
      invariant seen == set y | y in kept :: y.id
    {
      assert items[..i + 1][..i] == items[..i];
      if items[i].id !in seen {
        kept, seen := kept + [items[i]], seen + {items[i].id};
      }
      i := i + 1;
    }
    assert items[..|items|] == items;
  }

  /** x is the first item with its id. */
  ghost predicate FirstOfId(items: seq<Item>, x: Item)
  {
    exists i :: 0 <= i < |items| && items[i] == x && forall j :: 0 <= j < i ==> items[j].id != x.id
  }

  /** Deduplication leaves distinct ids, keeps every id, and keeps exactly the first item of each. */
  lemma {:induction false} DedupedExact(items: seq<Item>)
    ensures DistinctIds(Deduped(items))
    ensures forall x :: x in Deduped(items) <==> FirstOfId(items, x)
    ensures forall x :: x in items ==> HasId(Deduped(items), x.id)
  {
    if items != [] {
      var n := |items| - 1;
      var init := items[..n];
      var last := items[n];
      DedupedExact(init);
      SnocMembers(items);
      forall x ensures FirstOfId(items, x) <==> FirstOfId(init, x) || (x == last && NewId(items))
      {
        FirstSnoc(items, x);
      }
      SeenIff(items, Deduped(init));
    }
  }

  /** The last item has an id no earlier one has. */
  ghost predicate NewId(items: seq<Item>)
    requires items != []
  {
    forall j :: 0 <= j < |items| - 1 ==> items[j].id != items[|items| - 1].id
  }

  lemma SeenIff(items: seq<Item>, kept: seq<Item>)
    requires items != []
    requires forall x :: x in kept ==> FirstOfId(items[..|items| - 1], x)
    requires forall x :: x in items[..|items| - 1] ==> HasId(kept, x.id)
    ensures HasId(kept, items[|items| - 1].id) <==> !NewId(items)
  {
    var init, last := items[..|items| - 1], items[|items| - 1];
    if HasId(kept, last.id) {
      var y :| y in kept && y.id == last.id;
      assert FirstOfId(init, y);
      var j :| 0 <= j < |init| && init[j] == y;
      assert items[j].id == last.id;
    }
    if !NewId(items) {
      var j :| 0 <= j < |init| && items[j].id == last.id;
      assert init[j] in init && HasId(kept, init[j].id);
    }
  }

  lemma FirstSnoc(items: seq<Item>, x: Item)
    requires items != []
    ensures var n := |items| - 1;
            FirstOfId(items, x) <==>
            FirstOfId(items[..n], x) || (x == items[n] && NewId(items))
  {
    var n := |items| - 1;
    if FirstOfId(items[..n], x) {
      var i :| 0 <= i < n && items[..n][i] == x && forall j :: 0 <= j < i ==> items[..n][j].id != x.id;
      assert forall j :: 0 <= j < i ==> items[j] == items[..n][j];
      assert items[i] == x;
    }
    if FirstOfId(items, x) {
      var i :| 0 <= i < |items| && items[i] == x && forall j :: 0 <= j < i ==> items[j].id != x.id;
      if i < n { assert items[..n][i] == x; }
    }
  }

  /** So deduplicated items survive storage whole: reading them back only sorts them. */
  lemma DedupedRoundTrip(items: seq<Item>)
    ensures var out := Stored(Deduped(items));
            SortedById(out) && forall x :: x in out <==> x in Deduped(items)
  {
    DedupedExact(items);
    StoredShape(Deduped(items));
  }

  // ---------------------------------------------------------------- graph segments

  datatype Manifest = Manifest(repoId: string, version: string, refName: string, body: string)

  datatype Index = Index(manifest: Manifest, documents: seq<Item>, nodes: seq<Item>, edges: seq<Item>)

  /** The files below one version directory. */
  datatype Root = Root(manifest: seq<Line<Manifest>>, documents: seq<Line<Item>>, nodes: seq<Line<Item>>,
                       edges: seq<Line<Item>>)

  datatype Hashes = Hashes(manifest: Manifest -> string, item: Item -> string)

  function RootOf(h: Hashes, index: Index): Root
  {
    Root(Written(h.manifest, "graph_manifest", [("manifest", index.manifest)]),
         Written(h.item, "graph_document", Keyed(index.documents)),
         Written(h.item, "graph_node", Keyed(index.nodes)),
         Written(h.item, "graph_edge", Keyed(index.edges)))
  }

  function ReadAll<T>(hash: T -> string, kind: string, lines: seq<Line<T>>): Result<map<string, T>, SegmentError>
  {
    Read(hash, kind, lines, |lines|)
  }

  ghost function IndexOf(h: Hashes, root: Root): Result<Index, SegmentError>
  {
    match ReadAll(h.manifest, "graph_manifest", root.manifest)
    case Err(e) => Err(e)
    case Ok(manifests) =>
      if "manifest" !in manifests then Err(NoManifest)
      else
        match ReadAll(h.item, "graph_document", root.documents)
        case Err(e) => Err(e)
        case Ok(documents) =>
          match ReadAll(h.item, "graph_node", root.nodes)
          case Err(e) => Err(e)
          case Ok(nodes) =>
            match ReadAll(h.item, "graph_edge", root.edges)
            case Err(e) => Err(e)
            case Ok(edges) => Ok(Index(manifests["manifest"], Values(documents), Values(nodes), Values(edges)))
  }

  /** The index as reading returns it. */
  ghost function Sorted(index: Index): Index
  {
    Index(index.manifest, Stored(index.documents), Stored(index.nodes), Stored(index.edges))
  }

  lemma ReadAllWritten<T>(hash: T -> string, kind: string, records: seq<(string, T)>)
    ensures ReadAll(hash, kind, Written(hash, kind, records)) == Ok(Latest(records))
  {
    ReadWritten(hash, kind, records, |records|);
    assert records[..|records|] == records;
  }

  /** A freshly written directory reads as the sorted index. */
  lemma RootRoundTrip(h: Hashes, index: Index)
    ensures IndexOf(h, RootOf(h, index)) == Ok(Sorted(index))
  {
    var manifests := [("manifest", index.manifest)];
    ReadAllWritten(h.manifest, "graph_manifest", manifests);
    assert manifests[..0] == [];
    assert Latest(manifests) == map["manifest" := index.manifest];
    ReadAllWritten(h.item, "graph_document", Keyed(index.documents));
    ReadAllWritten(h.item, "graph_node", Keyed(index.nodes));
    ReadAllWritten(h.item, "graph_edge", Keyed(index.edges));
  }

  predicate AllReadable<T(==)>(hash: T -> string, kind: string, lines: seq<Line<T>>)
  {
    forall i :: 0 <= i < |lines| ==> Readable(hash, kind, lines[i], i)
  }

  /** A version directory is read exactly when every line of its four files is accepted and the manifest is there. */
  lemma IndexOkIff(h: Hashes, root: Root)
    ensures IndexOf(h, root).Ok? <==>
            && AllReadable(h.manifest, "graph_manifest", root.manifest)
            && AllReadable(h.item, "graph_document", root.documents)
            && AllReadable(h.item, "graph_node", root.nodes) && AllReadable(h.item, "graph_edge", root.edges)
            && (exists i :: 0 <= i < |root.manifest| && root.manifest[i].Envelope? && root.manifest[i].id == "manifest")
  {
    ReadOkIff(h.manifest, "graph_manifest", root.manifest);
    ReadOkIff(h.item, "graph_document", root.documents);
    ReadOkIff(h.item, "graph_node", root.nodes);
    ReadOkIff(h.item, "graph_edge", root.edges);
    if ReadAll(h.manifest, "graph_manifest", root.manifest).Ok? {
      LastRecordWins(h.manifest, "graph_manifest", root.manifest, |root.manifest|, "manifest");
    }
  }

  class SegmentStore {
    const hashes: Hashes
    var roots: map<(string, string), Root>
    var latest: map<(string, string), Manifest>

    constructor (hashes: Hashes)
      ensures this.hashes == hashes && roots == map[] && latest == map[]
    {
      this.hashes, roots, latest := hashes, map[], map[];
    }

    ghost function View(repoId: string, version: string): Result<Index, SegmentError>
      reads this
    {
      if (repoId, version) !in roots then Err(NotReady) else IndexOf(hashes, roots[(repoId, version)])
    }

    /** `read_graph_segments`. */
    method ReadGraph(repoId: string, version: string) returns (r: Result<Index, SegmentError>)
      ensures r == View(repoId, version)
    {
      if (repoId, version) !in roots { return Err(NotReady); }
      var root := roots[(repoId, version)];
      var manifests := ReadRecords(hashes.manifest, "graph_manifest", root.manifest);
      if manifests.Err? { return Err(manifests.error); }
      if "manifest" !in manifests.value { return Err(NoManifest); }
      var documents := ReadRecords(hashes.item, "graph_document", root.documents);
      if documents.Err? { return Err(documents.error); }
      var nodes := ReadRecords(hashes.item, "graph_node", root.nodes);
      if nodes.Err? { return Err(nodes.error); }
      var edges := ReadRecords(hashes.item, "graph_edge", root.edges);
      if edges.Err? { return Err(edges.error); }
      var documentList := IntoValues(documents.value);
      var nodeList := IntoValues(nodes.value);
      var edgeList := IntoValues(edges.value);
      return Ok(Index(manifests.value["manifest"], documentList, nodeList, edgeList));
    }

    /** `write_graph_segments`: a directory that reads is left as it is. */
    method WriteGraph(index: Index)
      modifies this
      ensures var key := (index.manifest.repoId, index.manifest.version);
              && roots == (if old(View(key.0, key.1)).Ok? then old(roots) else old(roots)[key := RootOf(hashes, index)])
              && latest == old(latest)[(index.manifest.repoId, index.manifest.refName) := index.manifest]
      ensures View(index.manifest.repoId, index.manifest.version) ==
              if old(View(index.manifest.repoId, index.manifest.version)).Ok?
              then old(View(index.manifest.repoId, index.manifest.version)) else Ok(Sorted(index))
    {
      var key := (index.manifest.repoId, index.manifest.version);
      var existing := ReadGraph(key.0, key.1);
      if existing.Err? {
        var manifest := WriteRecords(hashes.manifest, "graph_manifest", [("manifest", index.manifest)]);
        var documents := WriteRecords(hashes.item, "graph_document", Keyed(index.documents));
        var nodes := WriteRecords(hashes.item, "graph_node", Keyed(index.nodes));
        var edges := WriteRecords(hashes.item, "graph_edge", Keyed(index.edges));
        roots := roots[key := Root(manifest, documents, nodes, edges)];
        RootRoundTrip(hashes, index);
      }
      latest := latest[(index.manifest.repoId, index.manifest.refName) := index.manifest];
    }
  }

  method IntoValues<T>(table: map<string, T>) returns (values: seq<T>)
    ensures values == Values(table)
  {
    var ks := ListKeys(table.Keys);
    values := [];
    var i := 0;
    while i < |ks|
      invariant 0 <= i <= |ks|
      invariant values == Values(table)[..i]
    {
      assert ks[i] in Elements(ks);
      values := values + [table[ks[i]]];
      i := i + 1;
    }
    assert Values(table)[..|ks|] == Values(table);
  }
}
