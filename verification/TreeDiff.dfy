/** crates/treedx_git/src/tree/mod.rs and crates/treedx_git/src/diff/mod.rs:
    the recursive listing of a tree and the difference of two listings. */
module TreeDiff {
  import opened Wrappers
  import opened Ordering

  datatype Kind = Tree | Blob | BlobExecutable | Link | Commit

  /** A git tree entry; `children` holds the entries of the tree it names, if it is one. */
  datatype Entry = Entry(name: string, oid: string, kind: Kind, children: seq<Entry>)

  /** `RecursiveTreeEntry`, without mode and size. */
  datatype Listed = Listed(path: string, oid: string, kind: Kind)

  function Under(prefix: string, name: string): string
  {
    if prefix == "" then name else prefix + "/" + name
  }

  // ---------------------------------------------------------------- the listing

  function Collect(tree: seq<Entry>, prefix: string): seq<Listed>
    decreases tree
  {
    if tree == [] then [] else CollectEntry(tree[0], prefix) + Collect(tree[1..], prefix)
  }

  /** One entry, and below it the entries of the tree it names. */
  function CollectEntry(e: Entry, prefix: string): seq<Listed>
    decreases e
  {
    [Listed(Under(prefix, e.name), e.oid, e.kind)]
    + (if e.kind == Tree then Collect(e.children, Under(prefix, e.name)) else [])
  }

  /** `collect_recursive`: pushes onto the entries collected so far. */
  method CollectRecursive(tree: seq<Entry>, prefix: string, entries: seq<Listed>) returns (entries': seq<Listed>)
    ensures entries' == entries + Collect(tree, prefix)
    decreases tree
  {
    entries' := entries;
    var i := 0;
    while i < |tree|
      invariant 0 <= i <= |tree|
      invariant entries' + Collect(tree[i..], prefix) == entries + Collect(tree, prefix)
    {
      var e := tree[i];
      var fullPath := Under(prefix, e.name);
      ghost var before := entries';
      assert tree[i..][1..] == tree[i + 1..];
      entries' := entries' + [Listed(fullPath, e.oid, e.kind)];
      if e.kind == Tree {
        entries' := CollectRecursive(e.children, fullPath, entries');
      }
      assert entries' == before + CollectEntry(e, prefix);
      ConcatAssociates(before, CollectEntry(e, prefix), Collect(tree[i + 1..], prefix));
      i := i + 1;
    }
    assert entries' + Collect([], prefix) == entries';
  }

  /** Names are not empty, hold no slash and are distinct among siblings, all the way down. */
  predicate WellNamed(tree: seq<Entry>)
    decreases tree
  {
    && (forall e :: e in tree ==> e.name != "" && '/' !in e.name)
    && (forall i, j :: 0 <= i < j < |tree| ==> tree[i].name != tree[j].name)
    && (forall e :: e in tree ==> e.kind != Tree || WellNamed(e.children))
  }

  /** p is the path `top`, or lies below it. */
  predicate AtOrBelow(p: string, top: string)
  {
    p == top || top + "/" <= p
  }

  lemma BelowUnder(p: string, prefix: string, name: string)
    requires AtOrBelow(p, Under(prefix, name)) && prefix != "" && name != ""
    ensures AtOrBelow(p, prefix) && |p| > |prefix|
  {
    var top := Under(prefix, name);
    assert top[..|prefix| + 1] == prefix + "/";
    assert p[..|top|] == top;
    assert p[..|prefix| + 1] == top[..|prefix| + 1];
  }

  /** Siblings of different names have nothing in common at or below them. */
  lemma SiblingsApart(p: string, prefix: string, a: string, b: string)
    requires '/' !in a && '/' !in b && a != b
    requires AtOrBelow(p, Under(prefix, a))
    ensures !AtOrBelow(p, Under(prefix, b))
  {
    var k := if prefix == "" then 0 else |prefix| + 1;
    NameAt(p, prefix, a);
    if AtOrBelow(p, Under(prefix, b)) {
      NameAt(p, prefix, b);
      SameName(p[k..], a, b);
    }
  }

  lemma NameAt(p: string, prefix: string, name: string)
    requires AtOrBelow(p, Under(prefix, name))
    ensures var k := if prefix == "" then 0 else |prefix| + 1;
            k <= |p| && name <= p[k..] && (|p[k..]| == |name| || p[k..][|name|] == '/')
  {
    var k := if prefix == "" then 0 else |prefix| + 1;
    var top := Under(prefix, name);
    assert top[k..] == name;
    assert p[..|top|] == top;
    assert p[k..][..|name|] == top[k..];
  }

  /** The part of a path up to the next slash is unique. */
  lemma SameName(rest: string, a: string, b: string)
    requires '/' !in a && '/' !in b && a <= rest && b <= rest
    requires |rest| == |a| || rest[|a|] == '/'
    requires |rest| == |b| || rest[|b|] == '/'
    ensures a == b
  {
    assert forall i :: 0 <= i < |a| ==> rest[i] == a[i] && a[i] in a;
    assert forall i :: 0 <= i < |b| ==> rest[i] == b[i] && b[i] in b;
    assert |a| == |b|;
  }

  lemma {:induction false} CollectedBelow(tree: seq<Entry>, prefix: string, l: Listed)
    requires WellNamed(tree) && l in Collect(tree, prefix)
    ensures exists e :: e in tree && AtOrBelow(l.path, Under(prefix, e.name))
    decreases tree
  {
    if l in CollectEntry(tree[0], prefix) {
      EntryBelow(tree[0], prefix, l);
      assert tree[0] in tree;
    } else {
      TailWellNamed(tree);
      CollectedBelow(tree[1..], prefix, l);
      var e :| e in tree[1..] && AtOrBelow(l.path, Under(prefix, e.name));
      assert e in tree;
    }
  }

  lemma TailWellNamed(tree: seq<Entry>)
    requires tree != [] && WellNamed(tree)
    ensures WellNamed(tree[1..])
    ensures tree[0].name != "" && '/' !in tree[0].name && (tree[0].kind != Tree || WellNamed(tree[0].children))
    ensures forall e :: e in tree[1..] ==> e in tree && e.name != tree[0].name && '/' !in e.name
  {
    assert tree[0] in tree;
  }

  lemma {:induction false} EntryBelow(e: Entry, prefix: string, l: Listed)
    requires e.name != "" && (e.kind != Tree || WellNamed(e.children)) && l in CollectEntry(e, prefix)
    ensures AtOrBelow(l.path, Under(prefix, e.name))
    ensures l == CollectEntry(e, prefix)[0] || |l.path| > |Under(prefix, e.name)|
    decreases e
  {
    var path := Under(prefix, e.name);
    if l in CollectEntry(e, prefix)[1..] {
      assert CollectEntry(e, prefix)[1..] == (if e.kind == Tree then Collect(e.children, path) else []);
      CollectedBelow(e.children, path, l);
      var child :| child in e.children && AtOrBelow(l.path, Under(path, child.name));
      BelowUnder(l.path, path, child.name);
    }
  }

  ghost predicate DistinctPaths(ls: seq<Listed>)
  {
    forall i, j :: 0 <= i < j < |ls| ==> ls[i].path != ls[j].path
  }

  lemma DistinctConcat(a: seq<Listed>, b: seq<Listed>)
    requires DistinctPaths(a) && DistinctPaths(b)
    requires forall x, y :: x in a && y in b ==> x.path != y.path
    ensures DistinctPaths(a + b)
  {
  }

  /** The recursive listing yields each path once. */
  lemma {:induction false} PathsDistinct(tree: seq<Entry>, prefix: string)
    requires WellNamed(tree)
    ensures DistinctPaths(Collect(tree, prefix))
    decreases tree
  {
    if tree != [] {
      TailWellNamed(tree);
      EntryDistinct(tree[0], prefix);
      PathsDistinct(tree[1..], prefix);
      forall x, y | x in CollectEntry(tree[0], prefix) && y in Collect(tree[1..], prefix) ensures x.path != y.path
      {
        EntryBelow(tree[0], prefix, x);
        CollectedBelow(tree[1..], prefix, y);
        var e :| e in tree[1..] && AtOrBelow(y.path, Under(prefix, e.name));
        SiblingsApart(y.path, prefix, e.name, tree[0].name);
      }
      DistinctConcat(CollectEntry(tree[0], prefix), Collect(tree[1..], prefix));
    }
  }

  lemma {:induction false} EntryDistinct(e: Entry, prefix: string)
    requires e.name != "" && (e.kind != Tree || WellNamed(e.children))
    ensures DistinctPaths(CollectEntry(e, prefix))
    decreases e
  {
    var path := Under(prefix, e.name);
    if e.kind == Tree {
      PathsDistinct(e.children, path);
      forall y | y in Collect(e.children, path) ensures y.path != path
      {
        CollectedBelow(e.children, path, y);
        var child :| child in e.children && AtOrBelow(y.path, Under(path, child.name));
        BelowUnder(y.path, path, child.name);
      }
      DistinctConcat([Listed(path, e.oid, e.kind)], Collect(e.children, path));
    }
  }

  // ---------------------------------------------------------------- looking a path up

  function Named(tree: seq<Entry>, name: string): Option<Entry>
  {
    if tree == [] then None else if tree[0].name == name then Some(tree[0]) else Named(tree[1..], name)
  }

  /** Descends by the names of a path. */
  function Find(tree: seq<Entry>, names: seq<string>): Option<Entry>
    decreases |names|
  {
    if names == [] then None
    else
      var e := Named(tree, names[0]);
      if e.None? || |names| == 1 then e
      else if e.value.kind == Tree then Find(e.value.children, names[1..])
      else None
  }

  function PathOf(prefix: string, names: seq<string>): string
    decreases |names|
  {
    if names == [] then prefix else PathOf(Under(prefix, names[0]), names[1..])
  }

  lemma {:induction false} NamedIn(tree: seq<Entry>, name: string)
    ensures Named(tree, name).Some? ==> Named(tree, name).value in tree && Named(tree, name).value.name == name
  {
    if tree != [] { NamedIn(tree[1..], name); }
  }

  lemma {:induction false} EntryCollected(tree: seq<Entry>, prefix: string, e: Entry, l: Listed)
    requires e in tree && l in CollectEntry(e, prefix)
    ensures l in Collect(tree, prefix)
  {
    if tree[0] != e { EntryCollected(tree[1..], prefix, e, l); }
  }

  /** Whatever a descent finds is listed under the path it went. */
  lemma {:induction false} FoundIsListed(tree: seq<Entry>, prefix: string, names: seq<string>)
    requires Find(tree, names).Some?
    ensures var e := Find(tree, names).value; Listed(PathOf(prefix, names), e.oid, e.kind) in Collect(tree, prefix)
    decreases |names|
  {
    var e := Named(tree, names[0]).value;
    NamedIn(tree, names[0]);
    var path := Under(prefix, e.name);
    var found := Find(tree, names).value;
    var l := Listed(PathOf(prefix, names), found.oid, found.kind);
    if |names| == 1 {
      assert PathOf(path, names[1..]) == path;
      assert l == CollectEntry(e, prefix)[0];
    } else {
      FoundIsListed(e.children, path, names[1..]);
      assert l in CollectEntry(e, prefix);
    }
    EntryCollected(tree, prefix, e, l);
  }

  lemma {:induction false} NamedAt(tree: seq<Entry>, i: nat)
    requires i < |tree| && forall i, j :: 0 <= i < j < |tree| ==> tree[i].name != tree[j].name
    ensures Named(tree, tree[i].name) == Some(tree[i])
  {
    if i > 0 { NamedAt(tree[1..], i - 1); }
  }

  lemma {:induction false} ListedInEntry(tree: seq<Entry>, prefix: string, l: Listed) returns (i: nat)
    requires l in Collect(tree, prefix)
    ensures i < |tree| && l in CollectEntry(tree[i], prefix)
  {
    if l in CollectEntry(tree[0], prefix) {
      i := 0;
    } else {
      var k := ListedInEntry(tree[1..], prefix, l);
      i := k + 1;
    }
  }

  /** Whatever is listed is found by a descent along its path. */
  lemma {:induction false} ListedIsFound(tree: seq<Entry>, prefix: string, l: Listed) returns (names: seq<string>)
    requires WellNamed(tree) && l in Collect(tree, prefix)
    ensures names != [] && l.path == PathOf(prefix, names)
    ensures Find(tree, names).Some? && Find(tree, names).value.oid == l.oid && Find(tree, names).value.kind == l.kind
    decreases tree
  {
    var i := ListedInEntry(tree, prefix, l);
    var e := tree[i];
    assert e in tree;
    NamedAt(tree, i);
    var path := Under(prefix, e.name);
    if l == Listed(path, e.oid, e.kind) {
      names := [e.name];
      assert PathOf(path, names[1..]) == path;
    } else {
      var rest := ListedIsFound(e.children, path, l);
      names := [e.name] + rest;
      assert names[1..] == rest;
    }
  }

  // ---------------------------------------------------------------- changed_paths

  /** `tree_map`: the plain blobs, by path. */
  function BlobMap(ls: seq<Listed>): map<string, Listed>
  {
    if ls == [] then map[]
    else
      var before := BlobMap(ls[..|ls| - 1]);
      var l := ls[|ls| - 1];
      if l.kind == Blob then before[l.path := l] else before
  }

  lemma {:induction false} BlobMapExact(ls: seq<Listed>)
    requires DistinctPaths(ls)
    ensures forall p :: p in BlobMap(ls) ==>
            BlobMap(ls)[p] in ls && BlobMap(ls)[p].path == p && BlobMap(ls)[p].kind == Blob
    ensures forall l :: l in ls && l.kind == Blob ==> l.path in BlobMap(ls) && BlobMap(ls)[l.path] == l
  {
    if ls != [] {
      BlobMapExact(ls[..|ls| - 1]);
      SnocMembers(ls);
      assert forall l :: l in ls[..|ls| - 1] ==> l.path != ls[|ls| - 1].path;
    }
  }

  datatype Status = Added | Modified | Deleted

  datatype Change = Change(path: string, status: Status, baseOid: Option<string>, oid: Option<string>, kind: Kind)

  function ChangeAt(base: map<string, Listed>, head: map<string, Listed>, path: string): Option<Change>
  {
    if path in base && path in head then
      if base[path].oid != head[path].oid
      then Some(Change(path, Modified, Some(base[path].oid), Some(head[path].oid), head[path].kind)) else None
    else if path in base then Some(Change(path, Deleted, Some(base[path].oid), None, base[path].kind))
    else if path in head then Some(Change(path, Added, None, Some(head[path].oid), head[path].kind))
    else None
  }

  function ChangesAt(base: map<string, Listed>, head: map<string, Listed>, paths: seq<string>): seq<Change>
  {
    if paths == [] then []
    else
      var before := ChangesAt(base, head, paths[..|paths| - 1]);
      var c := ChangeAt(base, head, paths[|paths| - 1]);
      if c.Some? then before + [c.value] else before
  }

  ghost function Changes(base: map<string, Listed>, head: map<string, Listed>): seq<Change>
  {
    ChangesAt(base, head, SortedKeys(base.Keys + head.Keys))
  }

  method TreeMap(ls: seq<Listed>) returns (m: map<string, Listed>)
    ensures m == BlobMap(ls)
  {
    m := map[];
    var i := 0;
    while i < |ls|
      invariant 0 <= i <= |ls|
      invariant m == BlobMap(ls[..i])
    {
      assert ls[..i + 1][..i] == ls[..i];
      if ls[i].kind == Blob { m := m[ls[i].path := ls[i]]; }
      i := i + 1;
    }
    assert ls[..|ls|] == ls;
  }

  /** `changed_paths`. */
  method ChangedPaths(baseTree: seq<Entry>, headTree: seq<Entry>) returns (changes: seq<Change>)
    ensures changes == Changes(BlobMap(Collect(baseTree, "")), BlobMap(Collect(headTree, "")))
  {
    var baseList := CollectRecursive(baseTree, "", []);
    var headList := CollectRecursive(headTree, "", []);
    assert baseList == Collect(baseTree, "") && headList == Collect(headTree, "");
    var base := TreeMap(baseList);
    var head := TreeMap(headList);
    var paths := ListKeys(base.Keys + head.Keys);
    changes := DiffPaths(base, head, paths);
  }

  /** The loop over the paths. */
  method DiffPaths(base: map<string, Listed>, head: map<string, Listed>, paths: seq<string>)
    returns (changes: seq<Change>)
    ensures changes == ChangesAt(base, head, paths)
  {
    changes := [];
    ghost var done := [];
    var i := 0;
    while i < |paths|
      invariant 0 <= i <= |paths| && done == paths[..i]
      invariant changes == ChangesAt(base, head, done)
    {
      TakeSnoc(paths, i);
      ChangesSnoc(base, head, done, paths[i]);
      changes := PushChange(base, head, paths[i], changes);
      done := done + [paths[i]];
      i := i + 1;
    }
    TakeAll(paths);
  }

  lemma ChangesSnoc(base: map<string, Listed>, head: map<string, Listed>, done: seq<string>, path: string)
    ensures ChangesAt(base, head, done + [path]) ==
            match ChangeAt(base, head, path)
            case None => ChangesAt(base, head, done)
            case Some(c) => ChangesAt(base, head, done) + [c]
  {
    assert (done + [path])[..|done|] == done;
  }

  /** The match on the two lookups of one path. */
  method PushChange(base: map<string, Listed>, head: map<string, Listed>, path: string, changes: seq<Change>)
    returns (changes': seq<Change>)
    ensures changes' == match ChangeAt(base, head, path) case None => changes case Some(c) => changes + [c]
  {
    changes' := changes;
    if path in base && path in head && base[path].oid != head[path].oid {
      changes' := changes + [Change(path, Modified, Some(base[path].oid), Some(head[path].oid), head[path].kind)];
    } else if path in base && path !in head {
      changes' := changes + [Change(path, Deleted, Some(base[path].oid), None, base[path].kind)];
    } else if path !in base && path in head {
      changes' := changes + [Change(path, Added, None, Some(head[path].oid), head[path].kind)];
    }
  }

  // ---------------------------------------------------------------- what the difference promises

  /** The object id of every blob. */
  function Oids(m: map<string, Listed>): map<string, string>
  {
    map p | p in m :: m[p].oid
  }

  function ApplyOne(m: map<string, string>, c: Change): map<string, string>
  {
    if c.oid.Some? then m[c.path := c.oid.value] else m - {c.path}
  }

  function ApplyAll(m: map<string, string>, cs: seq<Change>): map<string, string>
  {
    if cs == [] then m else ApplyOne(ApplyAll(m, cs[..|cs| - 1]), cs[|cs| - 1])
  }

  /** The object id of p once the paths in `done` have been changed. */
  function OidAfter(base: map<string, Listed>, head: map<string, Listed>, done: bool, p: string): Option<string>
  {
    if done then (if p in head then Some(head[p].oid) else None) else (if p in base then Some(base[p].oid) else None)
  }

  lemma ApplySnoc(m: map<string, string>, cs: seq<Change>, c: Change)
    ensures ApplyAll(m, cs + [c]) == ApplyOne(ApplyAll(m, cs), c)
  {
    assert (cs + [c])[..|cs|] == cs;
  }

  lemma ChangesInit(base: map<string, Listed>, head: map<string, Listed>, paths: seq<string>)
    requires paths != []
    ensures ApplyAll(Oids(base), ChangesAt(base, head, paths)) ==
            var m := ApplyAll(Oids(base), ChangesAt(base, head, paths[..|paths| - 1]));
            match ChangeAt(base, head, paths[|paths| - 1]) case None => m case Some(c) => ApplyOne(m, c)
  {
    var c := ChangeAt(base, head, paths[|paths| - 1]);
    if c.Some? { ApplySnoc(Oids(base), ChangesAt(base, head, paths[..|paths| - 1]), c.value); }
  }

  /** One change, or none, brings its own path up to date and leaves every other path alone. */
  lemma ChangeApplies(base: map<string, Listed>, head: map<string, Listed>, path: string, m: map<string, string>,
                      done: bool, p: string)
    requires Lookup(m, p) == OidAfter(base, head, done, p)
    ensures var m' := match ChangeAt(base, head, path) case None => m case Some(c) => ApplyOne(m, c);
            Lookup(m', p) == OidAfter(base, head, done || p == path, p)
  {
  }

  lemma {:induction false} ApplyPrefix(base: map<string, Listed>, head: map<string, Listed>, paths: seq<string>,
                                       p: string)
    ensures Lookup(ApplyAll(Oids(base), ChangesAt(base, head, paths)), p) == OidAfter(base, head, p in paths, p)
  {
    if paths != [] {
      var init, last := paths[..|paths| - 1], paths[|paths| - 1];
      ApplyPrefix(base, head, init, p);
      SnocMembers(paths);
      ChangesInit(base, head, paths);
      ChangeApplies(base, head, last, ApplyAll(Oids(base), ChangesAt(base, head, init)), p in init, p);
    }
  }

  lemma AllPaths(base: map<string, Listed>, head: map<string, Listed>)
    ensures forall p :: p in SortedKeys(base.Keys + head.Keys) <==> p in base || p in head
  {
    var paths := SortedKeys(base.Keys + head.Keys);
    forall p ensures p in paths <==> p in base || p in head { assert p in paths <==> p in Elements(paths); }
  }

  /** Applied to the base, the changes give the head. */
  lemma ChangesApply(base: map<string, Listed>, head: map<string, Listed>)
    ensures ApplyAll(Oids(base), Changes(base, head)) == Oids(head)
  {
    var m := ApplyAll(Oids(base), Changes(base, head));
    AllPaths(base, head);
    forall p ensures Lookup(m, p) == Lookup(Oids(head), p)
    {
      ApplyPrefix(base, head, SortedKeys(base.Keys + head.Keys), p);
    }
    LookupExtensional(m, Oids(head));
  }

  lemma {:induction false} ChangesAtExact(base: map<string, Listed>, head: map<string, Listed>, paths: seq<string>)
    requires StrictlySorted(paths)
    ensures forall c :: c in ChangesAt(base, head, paths) <==>
            c.path in paths && ChangeAt(base, head, c.path) == Some(c)
    ensures forall i, j :: 0 <= i < j < |ChangesAt(base, head, paths)| ==>
              Less(ChangesAt(base, head, paths)[i].path, ChangesAt(base, head, paths)[j].path)
  {
    if paths != [] {
      var n := |paths| - 1;
      ChangesAtExact(base, head, paths[..n]);
      SnocMembers(paths);
      forall c | c in ChangesAt(base, head, paths[..n]) ensures Less(c.path, paths[n])
      {
        var i :| 0 <= i < n && paths[..n][i] == c.path;
        assert paths[i] == c.path;
      }
    }
  }

  /** The changes are sorted by path, one for each path whose blob differs and none for any other. */
  lemma ChangesExact(base: map<string, Listed>, head: map<string, Listed>)
    ensures forall i, j :: 0 <= i < j < |Changes(base, head)| ==>
            Less(Changes(base, head)[i].path, Changes(base, head)[j].path)
    ensures forall c :: c in Changes(base, head) <==> ChangeAt(base, head, c.path) == Some(c)
  {
    AllPaths(base, head);
    ChangesAtExact(base, head, SortedKeys(base.Keys + head.Keys));
  }

  /** No change is reported exactly when both sides hold the same blobs. */
  lemma NoChangeIff(base: map<string, Listed>, head: map<string, Listed>)
    ensures Changes(base, head) == [] <==> Oids(base) == Oids(head)
  {
    ChangesExact(base, head);
    if Changes(base, head) == [] {
      ChangesApply(base, head);
    } else {
      var c := Changes(base, head)[0];
      assert c in Changes(base, head);
      assert c.path in Oids(base) <==> c.path in base;
      assert c.path in Oids(head) <==> c.path in head;
    }
  }

  function Inverse(c: Change): Change
  {
    Change(c.path, match c.status case Added => Deleted case Deleted => Added case Modified => Modified,
           c.oid, c.baseOid, c.kind)
  }

  function InverseAll(cs: seq<Change>): seq<Change>
  {
    if cs == [] then [] else InverseAll(cs[..|cs| - 1]) + [Inverse(cs[|cs| - 1])]
  }

  lemma InverseOne(base: map<string, Listed>, head: map<string, Listed>, path: string)
    requires forall p :: p in base ==> base[p].kind == Blob
    requires forall p :: p in head ==> head[p].kind == Blob
    ensures ChangeAt(head, base, path) ==
            match ChangeAt(base, head, path) case None => None case Some(c) => Some(Inverse(c))
  {
  }

  lemma InverseSnoc(cs: seq<Change>, c: Change)
    ensures InverseAll(cs + [c]) == InverseAll(cs) + [Inverse(c)]
  {
    assert (cs + [c])[..|cs|] == cs;
  }

  lemma {:induction false} InverseAt(base: map<string, Listed>, head: map<string, Listed>, paths: seq<string>)
    requires forall p :: p in base ==> base[p].kind == Blob
    requires forall p :: p in head ==> head[p].kind == Blob
    ensures ChangesAt(head, base, paths) == InverseAll(ChangesAt(base, head, paths))
  {
    if paths != [] {
      var init, last := paths[..|paths| - 1], paths[|paths| - 1];
      InverseAt(base, head, init);
      InverseOne(base, head, last);
      var c := ChangeAt(base, head, last);
      if c.Some? { InverseSnoc(ChangesAt(base, head, init), c.value); }
    }
  }

  /** Swapping the sides inverts every change. */
  lemma ChangesInvert(base: map<string, Listed>, head: map<string, Listed>)
    requires forall p :: p in base ==> base[p].kind == Blob
    requires forall p :: p in head ==> head[p].kind == Blob
    ensures Changes(head, base) == InverseAll(Changes(base, head))
  {
    assert base.Keys + head.Keys == head.Keys + base.Keys;
    InverseAt(base, head, SortedKeys(base.Keys + head.Keys));
  }

  // ---------------------------------------------------------------- on trees

  /** The object id of the blob that a descent along some names finds at this path. */
  ghost predicate BlobAt(tree: seq<Entry>, path: string, oid: string)
  {
    exists names :: names != [] && PathOf("", names) == path && Find(tree, names).Some?
      && Find(tree, names).value.kind == Blob && Find(tree, names).value.oid == oid
  }

  /** The blob map of a listing is what looking paths up in the tree gives. */
  lemma BlobMapIsLookup(tree: seq<Entry>, path: string, oid: string)
    requires WellNamed(tree)
    ensures var m := BlobMap(Collect(tree, ""));
            (path in m && m[path].oid == oid) <==> BlobAt(tree, path, oid)
  {
    var ls := Collect(tree, "");
    var m := BlobMap(ls);
    PathsDistinct(tree, "");
    BlobMapExact(ls);
    if path in m && m[path].oid == oid {
      var names := ListedIsFound(tree, "", m[path]);
    }
    if BlobAt(tree, path, oid) {
      var names :| names != [] && PathOf("", names) == path && Find(tree, names).Some?
        && Find(tree, names).value.kind == Blob && Find(tree, names).value.oid == oid;
      FoundIsListed(tree, "", names);
    }
  }

  /** Two trees differ in no reported path exactly when every path looks up the same blob in both. */
  lemma TreesAgreeIff(base: seq<Entry>, head: seq<Entry>)
    requires WellNamed(base) && WellNamed(head)
    ensures Changes(BlobMap(Collect(base, "")), BlobMap(Collect(head, ""))) == [] <==>
            forall path, oid :: BlobAt(base, path, oid) <==> BlobAt(head, path, oid)
  {
    var b, h := BlobMap(Collect(base, "")), BlobMap(Collect(head, ""));
    NoChangeIff(b, h);
    forall path, oid
      ensures (path in Oids(b) && Oids(b)[path] == oid) <==> BlobAt(base, path, oid)
      ensures (path in Oids(h) && Oids(h)[path] == oid) <==> BlobAt(head, path, oid)
    {
      BlobMapIsLookup(base, path, oid);
      BlobMapIsLookup(head, path, oid);
    }
    if forall path, oid :: BlobAt(base, path, oid) <==> BlobAt(head, path, oid) {
      forall path ensures path in Oids(b) <==> path in Oids(h)
      {
        if path in Oids(b) { assert BlobAt(base, path, Oids(b)[path]); }
        if path in Oids(h) { assert BlobAt(head, path, Oids(h)[path]); }
      }
      forall path | path in Oids(b) ensures Oids(b)[path] == Oids(h)[path]
      {
        assert BlobAt(base, path, Oids(b)[path]);
      }
    }
  }

  lemma BlobMapOne(l: Listed)
    ensures BlobMap([l]) == if l.kind == Blob then map[l.path := l] else map[]
  {
    assert [l][..0] == [];
  }

  /** Only plain blobs count: an executable file may change without any path being reported. */
  lemma ExecutableChangesGoUnreported()
    ensures var base := [Entry("run", "1", BlobExecutable, [])];
            var head := [Entry("run", "2", BlobExecutable, [])];
            Changes(BlobMap(Collect(base, "")), BlobMap(Collect(head, ""))) == []
  {
    var base, head := [Entry("run", "1", BlobExecutable, [])], [Entry("run", "2", BlobExecutable, [])];
    var x, y := Listed("run", "1", BlobExecutable), Listed("run", "2", BlobExecutable);
    assert Collect(base, "") == [x] && Collect(head, "") == [y];
    BlobMapOne(x);
    BlobMapOne(y);
    NoChangeIff(map[], map[]);
  }
}
