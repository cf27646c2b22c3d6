/** How the operating system finds the file a string names below a data directory. */
module Paths {
  import opened Wrappers
  import opened Text

  /** The names on the way from the root of the file system to a file or directory. */
  type Location = seq<string>

  datatype Disk = Disk(dirs: set<Location>, files: set<Location>, data: Location)

  /** One name of a path: the empty name and a dot stay, two dots go up, and the root is its own parent. */
  function Enter(at: Location, name: string): Location
  {
    if name == "" || name == "." then at
    else if name == ".." then (if at == [] then [] else at[..|at| - 1])
    else at + [name]
  }

  /** Every name but the last must lead from a directory. */
  function Walk(dirs: set<Location>, at: Location, names: seq<string>): Option<Location>
    decreases |names|
  {
    if names == [] then Some(at)
    else if at !in dirs then None
    else Walk(dirs, Enter(at, names[0]), names[1..])
  }

  /** The place `data_dir.join(path)` leads to; a path that starts with a slash takes the place of the directory. */
  function Resolve(disk: Disk, path: string): Option<Location>
  {
    Walk(disk.dirs, if "/" <= path then [] else disk.data, Split(path, '/'))
  }

  predicate PlainName(name: string)
  {
    name != "" && name != "." && name != ".." && '/' !in name
  }

  predicate PlainNames(names: seq<string>)
  {
    forall n :: n in names ==> PlainName(n)
  }

  /** Files have plain names, lie in directories and are none themselves. */
  ghost predicate WellFormed(disk: Disk)
  {
    && disk.dirs !! disk.files
    && (forall f :: f in disk.files ==> PlainNames(f))
    && (forall f, k :: f in disk.files && 0 <= k < |f| ==> f[..k] in disk.dirs)
  }

  /** A path relative to the data directory, written out. */
  function PathOf(names: seq<string>): string
  {
    Join(names, "/")
  }

  lemma {:induction false} WalkDown(dirs: set<Location>, at: Location, names: seq<string>)
    requires PlainNames(names)
    requires forall k :: |at| <= k < |at + names| ==> (at + names)[..k] in dirs
    ensures Walk(dirs, at, names) == Some(at + names)
    decreases |names|
  {
    if names == [] {
      assert at + names == at;
    } else {
      assert (at + names)[..|at|] == at;
      assert names[0] in names;
      assert at + [names[0]] + names[1..] == at + names;
      WalkDown(dirs, at + [names[0]], names[1..]);
    }
  }

  /** A file is found again under its path from the data directory. */
  lemma PathLeadsBack(disk: Disk, f: Location)
    requires WellFormed(disk) && f in disk.files && disk.data < f
    ensures Resolve(disk, PathOf(f[|disk.data|..])) == Some(f)
  {
    var names := f[|disk.data|..];
    assert f == disk.data + names;
    assert PlainNames(names);
    SplitJoin(names, '/');
    PathStart(names);
    WalkDown(disk.dirs, disk.data, names);
  }

  /** So it is with a dot in front. */
  lemma DottedPathLeadsBack(disk: Disk, f: Location)
    requires WellFormed(disk) && f in disk.files && disk.data < f
    ensures Resolve(disk, "./" + PathOf(f[|disk.data|..])) == Some(f)
  {
    var names := f[|disk.data|..];
    assert f == disk.data + names && f[..|disk.data|] == disk.data;
    assert PlainNames(names);
    var dotted := ["."] + names;
    assert dotted[1..] == names;
    assert "./" + PathOf(names) == Join(dotted, "/");
    SplitJoin(dotted, '/');
    WalkDown(disk.dirs, disk.data, names);
  }

  lemma PathStart(names: seq<string>)
    requires names != [] && PlainNames(names)
    ensures !("/" <= PathOf(names))
    ensures names[0] <= PathOf(names)
    ensures if |names| == 1 then PathOf(names) == names[0] else names[0] + "/" <= PathOf(names)
  {
    assert names[0] in names;
    assert names[0][0] in names[0];
    assert PathOf(names)[0] == names[0][0];
  }

  /** A written-out path starts with a directory's name and a slash exactly when it leads below that directory. */
  lemma PathBelowIff(names: seq<string>, top: string)
    requires names != [] && PlainNames(names) && '/' !in top
    ensures top + "/" <= PathOf(names) <==> |names| > 1 && names[0] == top
  {
    PathStart(names);
    var p := PathOf(names);
    assert names[0] in names;
    assert forall i :: 0 <= i < |names[0]| ==> p[i] == names[0][i] && names[0][i] in names[0];
    if top + "/" <= p {
      assert p[|top|] == '/' && p[..|top|] == top;
      assert forall i :: 0 <= i < |top| ==> p[i] == top[i] && top[i] in top;
      assert |names[0]| <= |top|;
      if |names| > 1 {
        assert p[|names[0]|] == '/';
        assert names[0] == p[..|names[0]|] == top;
      }
    }
  }

  /** Going down into a directory and up again leads nowhere else; above the root there is only the root. */
  lemma DownAndUp(dirs: set<Location>, at: Location, name: string, rest: seq<string>)
    requires PlainName(name) && at in dirs && at + [name] in dirs
    ensures Walk(dirs, at, [name, ".."] + rest) == Walk(dirs, at, rest)
    ensures [] in dirs ==> Walk(dirs, [], [".."] + rest) == Walk(dirs, [], rest)
  {
    var names := [name, ".."] + rest;
    assert names[1..] == [".."] + rest && ([".."] + rest)[1..] == rest;
    assert (at + [name])[..|at|] == at;
  }

  /** A path that begins with a slash does not depend on the data directory. */
  lemma AbsolutePath(disk: Disk, other: Disk, path: string)
    requires disk.dirs == other.dirs && "/" <= path
    ensures Resolve(disk, path) == Resolve(other, path)
  {
  }
}
