/** The nodes `build_graph_index` of crates/treedx_graph/src/index/mod.rs collects over all documents:
    every section of every file is still there once they are deduplicated and stored. */
module IndexNodes {
  import opened Wrappers
  import opened Text
  import opened Headings
  import opened Sections
  import opened Segment

  /** What one document adds: its sections, and other nodes before and after them. `intro` is the text of a file
      without headings, if it has any. */
  datatype FileNodes = FileNodes(fileId: string, before: seq<Item>, hs: seq<Heading>, len: nat, intro: Option<string>,
                                 after: seq<Item>)

  /** The section nodes of a file; `body` renders what else a node holds. */
  function SectionItems(f: FileNodes, body: Section -> string): seq<Item>
  {
    if f.hs == [] then
      (if f.intro.Some? then [Item(SectionId(f.fileId, "__intro", 0), f.intro.value)] else [])
    else
      var sections := SectionsOf(f.fileId, f.hs, f.len, |f.hs|);
      seq(|sections|, i requires 0 <= i < |sections| => Item(sections[i].id, body(sections[i])))
  }

  function NodesOf(files: seq<FileNodes>, body: Section -> string): seq<Item>
  {
    if files == [] then []
    else
      var f := files[|files| - 1];
      NodesOf(files[..|files| - 1], body) + (f.before + SectionItems(f, body) + f.after)
  }

  predicate OtherId(id: string)
  {
    !("section:" <= id)
  }

  /** Files have different ids of one length, and their other nodes have ids of other kinds. */
  ghost predicate WellKept(files: seq<FileNodes>)
  {
    && (forall i, j :: 0 <= i < j < |files| ==>
          files[i].fileId != files[j].fileId && |files[i].fileId| == |files[j].fileId|)
    && (forall f, x :: f in files && x in f.before + f.after ==> OtherId(x.id))
  }

  lemma SectionItemId(f: FileNodes, body: Section -> string, x: Item)
    requires x in SectionItems(f, body)
    ensures exists path, ordinal :: x.id == SectionId(f.fileId, path, ordinal)
  {
    if f.hs == [] {
      assert x.id == SectionId(f.fileId, "__intro", 0);
    } else {
      var sections := SectionsOf(f.fileId, f.hs, f.len, |f.hs|);
      var i :| 0 <= i < |sections| && x == Item(sections[i].id, body(sections[i]));
      SectionAt(f.fileId, f.hs, f.len, i);
    }
  }

  lemma SectionItemsDistinct(f: FileNodes, body: Section -> string, x: Item, y: Item)
    requires x in SectionItems(f, body) && y in SectionItems(f, body) && x.id == y.id
    ensures x == y
  {
    if f.hs != [] {
      var sections := SectionsOf(f.fileId, f.hs, f.len, |f.hs|);
      SectionsDistinct(f.fileId, f.hs, f.len);
      var i :| 0 <= i < |sections| && x == Item(sections[i].id, body(sections[i]));
      var j :| 0 <= j < |sections| && y == Item(sections[j].id, body(sections[j]));
      SameSection(sections, i, j);
    }
  }

  /** File ids of one length can be read off section ids. */
  lemma SectionIdShowsFile(a: string, p: string, m: nat, b: string, q: string, n: nat)
    requires |a| == |b| && SectionId(a, p, m) == SectionId(b, q, n)
    ensures a == b
  {
    var x, y := SectionId(a, p, m), SectionId(b, q, n);
    assert x[8..8 + |a|] == a && y[8..8 + |b|] == b;
  }

  lemma {:induction false} NodeIsOf(files: seq<FileNodes>, body: Section -> string, x: Item)
    requires x in NodesOf(files, body)
    ensures exists f :: f in files && (x in f.before + f.after || x in SectionItems(f, body))
  {
    var init, last := files[..|files| - 1], files[|files| - 1];
    SnocMembers(files);
    if x in NodesOf(init, body) {
      NodeIsOf(init, body, x);
      var f :| f in init && (x in f.before + f.after || x in SectionItems(f, body));
      assert f in files;
    } else {
      assert x in last.before + last.after || x in SectionItems(last, body);
    }
  }

  lemma {:induction false} SectionIsNode(files: seq<FileNodes>, body: Section -> string, f: FileNodes, x: Item)
    requires f in files && x in SectionItems(f, body)
    ensures x in NodesOf(files, body)
  {
    SnocMembers(files);
    if f in files[..|files| - 1] { SectionIsNode(files[..|files| - 1], body, f, x); }
  }

  /** No other node of the index has the id of a section. */
  lemma SectionIdIsItsOwn(files: seq<FileNodes>, body: Section -> string, f: FileNodes, x: Item, y: Item)
    requires WellKept(files) && f in files && x in SectionItems(f, body)
    requires y in NodesOf(files, body) && y.id == x.id
    ensures y == x
  {
    NodeIsOf(files, body, y);
    var g :| g in files && (y in g.before + g.after || y in SectionItems(g, body));
    SectionItemId(f, body, x);
    var p, m :| x.id == SectionId(f.fileId, p, m);
    assert "section:" <= x.id;
    assert y in SectionItems(g, body);
    SectionItemId(g, body, y);
    var q, n :| y.id == SectionId(g.fileId, q, n);
    var i :| 0 <= i < |files| && files[i] == f;
    var j :| 0 <= j < |files| && files[j] == g;
    assert |f.fileId| == |g.fileId|;
    SectionIdShowsFile(f.fileId, p, m, g.fileId, q, n);
    assert i == j;
    SectionItemsDistinct(f, body, x, y);
  }

  lemma {:induction false} FirstExists(items: seq<Item>, id: string) returns (x: Item)
    requires HasId(items, id)
    ensures x.id == id && FirstOfId(items, x)
  {
    var init, last := items[..|items| - 1], items[|items| - 1];
    if HasId(init, id) {
      x := FirstExists(init, id);
      var i :| 0 <= i < |init| && init[i] == x && forall j :: 0 <= j < i ==> init[j].id != x.id;
      assert items[i] == x && forall j :: 0 <= j < i ==> items[j] == init[j];
    } else {
      x := last;
      assert forall j :: 0 <= j < |init| ==> init[j] in init && init[j] == items[j];
      assert items[|items| - 1] == x;
    }
  }

  /** Every section of every file survives deduplication and storage. */
  lemma SectionsSurvive(files: seq<FileNodes>, body: Section -> string, f: FileNodes, x: Item)
    requires WellKept(files) && f in files && x in SectionItems(f, body)
    ensures x in Deduped(NodesOf(files, body)) && x in Stored(Deduped(NodesOf(files, body)))
  {
    var items := NodesOf(files, body);
    SectionIsNode(files, body, f, x);
    assert HasId(items, x.id);
    var y := FirstExists(items, x.id);
    assert y in items;
    SectionIdIsItsOwn(files, body, f, x, y);
    DedupedExact(items);
    DedupedRoundTrip(items);
  }
}
