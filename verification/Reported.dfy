/** Which paths of two trees `changed_paths` reports, and which changes it misses. */
module Reported {
  import opened Wrappers
  import opened Text
  import opened Ordering
  import opened TreeDiff

  /** The names of a path, as far as a tree can hold them. */
  predicate TreeNames(names: seq<string>)
  {
    names != [] && forall n :: n in names ==> n != "" && '/' !in n
  }

  lemma {:induction false} PathBelow(prefix: string, names: seq<string>)
    requires prefix != "" && TreeNames(names)
    ensures PathOf(prefix, names) == prefix + "/" + Join(names, "/")
    decreases |names|
  {
    assert names[0] in names;
    if |names| > 1 {
      assert forall n :: n in names[1..] ==> n in names;
      PathBelow(Under(prefix, names[0]), names[1..]);
      Associates(prefix + "/", names[0], "/", Join(names[1..], "/"));
    }
  }

  lemma Associates(a: string, b: string, c: string, d: string)
    ensures (a + b) + c + d == a + (b + c + d)
  {
  }

  /** A path determines its names. */
  lemma PathDetermines(a: seq<string>, b: seq<string>)
    requires TreeNames(a) && TreeNames(b) && PathOf("", a) == PathOf("", b)
    ensures a == b
  {
    PathIsJoin(a);
    PathIsJoin(b);
    SplitJoin(a, '/');
    SplitJoin(b, '/');
  }

  lemma PathIsJoin(names: seq<string>)
    requires TreeNames(names)
    ensures PathOf("", names) == Join(names, "/")
  {
    assert names[0] in names;
    if |names| > 1 {
      assert forall n :: n in names[1..] ==> n in names;
      PathBelow(names[0], names[1..]);
    }
  }

  /** A descent goes along plain names only. */
  lemma {:induction false} FoundNames(tree: seq<Entry>, names: seq<string>)
    requires WellNamed(tree) && Find(tree, names).Some?
    ensures TreeNames(names)
    decreases |names|
  {
    NamedIn(tree, names[0]);
    if |names| > 1 {
      FoundNames(Named(tree, names[0]).value.children, names[1..]);
      assert forall n :: n in names ==> n == names[0] || n in names[1..];
    }
  }

  /** The object id of the plain blob a descent finds. */
  function PlainBlob(tree: seq<Entry>, names: seq<string>): Option<string>
  {
    var e := Find(tree, names);
    if e.Some? && e.value.kind == Blob then Some(e.value.oid) else None
  }

  /** What a descent finds, if that is no tree. */
  function Leaf(tree: seq<Entry>, names: seq<string>): Option<(string, Kind)>
  {
    var e := Find(tree, names);
    if e.Some? && e.value.kind != Tree then Some((e.value.oid, e.value.kind)) else None
  }

  lemma BlobMapAt(tree: seq<Entry>, names: seq<string>)
    requires WellNamed(tree) && TreeNames(names)
    ensures Lookup(Oids(BlobMap(Collect(tree, ""))), PathOf("", names)) == PlainBlob(tree, names)
  {
    var path := PathOf("", names);
    var m := BlobMap(Collect(tree, ""));
    if path in m {
      BlobMapIsLookup(tree, path, m[path].oid);
      var found :| found != [] && PathOf("", found) == path && Find(tree, found).Some?
        && Find(tree, found).value.kind == Blob && Find(tree, found).value.oid == m[path].oid;
      FoundNames(tree, found);
      PathDetermines(found, names);
    }
    if PlainBlob(tree, names).Some? { BlobMapIsLookup(tree, path, PlainBlob(tree, names).value); }
  }

  /** The change reported for a path, if there is one. */
  ghost function Report(base: seq<Entry>, head: seq<Entry>, names: seq<string>): Option<Change>
  {
    ChangeAt(BlobMap(Collect(base, "")), BlobMap(Collect(head, "")), PathOf("", names))
  }

  /** It is the one change of that path in the result. */
  lemma ReportIsTheChange(base: seq<Entry>, head: seq<Entry>, names: seq<string>, c: Change)
    requires c.path == PathOf("", names)
    ensures c in Changes(BlobMap(Collect(base, "")), BlobMap(Collect(head, ""))) <==>
            Report(base, head, names) == Some(c)
  {
    ChangesExact(BlobMap(Collect(base, "")), BlobMap(Collect(head, "")));
  }

  /** A path is reported exactly when the plain blobs found there differ, and as what it then is. */
  lemma ReportedIff(base: seq<Entry>, head: seq<Entry>, names: seq<string>)
    requires WellNamed(base) && WellNamed(head) && TreeNames(names)
    ensures var b, h, r := PlainBlob(base, names), PlainBlob(head, names), Report(base, head, names);
            && (r.Some? <==> b != h)
            && (r.Some? ==> r.value.baseOid == b && r.value.oid == h && r.value.kind == Blob)
            && (r.Some? ==> r.value.path == Join(names, "/"))
            && (r.Some? ==> r.value.status == if b.None? then Added else if h.None? then Deleted else Modified)
  {
    BlobMapAt(base, names);
    BlobMapAt(head, names);
    BlobMapIsBlobs(base);
    BlobMapIsBlobs(head);
    PathIsJoin(names);
  }

  lemma BlobMapIsBlobs(tree: seq<Entry>)
    requires WellNamed(tree)
    ensures forall p :: p in BlobMap(Collect(tree, "")) ==> BlobMap(Collect(tree, ""))[p].kind == Blob
  {
    PathsDistinct(tree, "");
    BlobMapExact(Collect(tree, ""));
  }

  predicate SpecialKind(tree: seq<Entry>, names: seq<string>)
  {
    Find(tree, names).Some? && Find(tree, names).value.kind in {BlobExecutable, Link, Commit}
  }

  /** An entry is reported deleted though the head still holds one that is no tree, or added though the base already
      held one, exactly when it is a plain blob on one side and an executable, a link or a submodule on the other. */
  lemma WronglyGoneIff(base: seq<Entry>, head: seq<Entry>, names: seq<string>)
    requires WellNamed(base) && WellNamed(head) && TreeNames(names)
    ensures var r := Report(base, head, names);
            && (r.Some? && r.value.status == Deleted && Leaf(head, names).Some? <==>
                PlainBlob(base, names).Some? && SpecialKind(head, names))
            && (r.Some? && r.value.status == Added && Leaf(base, names).Some? <==>
                SpecialKind(base, names) && PlainBlob(head, names).Some?)
  {
    ReportedIff(base, head, names);
  }

  /** A change of an entry that is no tree is missed exactly when neither side of it is a plain blob. */
  lemma MissedIff(base: seq<Entry>, head: seq<Entry>, names: seq<string>)
    requires WellNamed(base) && WellNamed(head) && TreeNames(names)
    requires Leaf(base, names) != Leaf(head, names)
    ensures Report(base, head, names).None? <==> PlainBlob(base, names).None? && PlainBlob(head, names).None?
  {
    ReportedIff(base, head, names);
  }

  /** Making a file executable reports it deleted. */
  lemma ChmodIsReportedDeleted()
    ensures var base, head := [Entry("run", "1", Blob, [])], [Entry("run", "1", BlobExecutable, [])];
            Changes(BlobMap(Collect(base, "")), BlobMap(Collect(head, ""))) ==
            [Change("run", Deleted, Some("1"), None, Blob)]
  {
    var base, head := [Entry("run", "1", Blob, [])], [Entry("run", "1", BlobExecutable, [])];
    var l, x := Listed("run", "1", Blob), Listed("run", "1", BlobExecutable);
    assert Collect(base, "") == [l] && Collect(head, "") == [x];
    BlobMapOne(l);
    BlobMapOne(x);
    var m: map<string, Listed> := map["run" := l];
    OneChange(m, l);
  }

  lemma OneChange(m: map<string, Listed>, l: Listed)
    requires m == map[l.path := l]
    ensures Changes(m, map[]) == [Change(l.path, Deleted, Some(l.oid), None, l.kind)]
  {
    var c := Change(l.path, Deleted, Some(l.oid), None, l.kind);
    var cs := Changes(m, map[]);
    ChangesExact(m, map[]);
    assert c in cs;
    assert forall k :: 0 <= k < |cs| ==> cs[k] in cs && cs[k] == c;
    assert |cs| > 1 ==> Less(cs[0].path, cs[1].path);
  }
}
