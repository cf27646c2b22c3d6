/** `push_remote` of crates/treedx_git/src/sync/mod.rs, for the refs of repositories on this machine. */
module Push {
  import opened Wrappers
  import opened Ordering
  import opened Text

  datatype GitError = Validation | NotFound | Conflict | UnsupportedTransport | Git

  datatype Update = Update(source: string, destination: string, target: string)

  datatype Status = Plan | AlreadyCurrent | Pushed

  datatype PushResult = PushResult(updatedRefs: seq<string>, beforeHead: Option<string>, afterHead: Option<string>,
                                   status: Status)

  type Refs = map<string, string>

  // ---------------------------------------------------------------- the URL

  predicate IsHttp(url: string)
  {
    "http://" <= url || "https://" <= url
  }

  /** A user before the host: an at sign before the first slash after the scheme. */
  predicate HasUrlCredentials(url: string)
  {
    if "http://" <= url then '@' in Split(url[7..], '/')[0]
    else if "https://" <= url then '@' in Split(url[8..], '/')[0]
    else if "file://" <= url then '@' in Split(url[7..], '/')[0]
    else false
  }

  predicate IsUnsupportedSsh(url: string)
  {
    "ssh://" <= url || ('@' in url && ':' in url && !("file:" <= url))
  }

  function LocalRemotePath(url: string): Option<string>
  {
    if "file://" <= url then Some(url[7..])
    else if IsHttp(url) then None
    else Some(url)
  }

  // ---------------------------------------------------------------- refspecs

  /** `strip_prefix('+').unwrap_or(...)` */
  function Stripped(refspec: string): string
  {
    if refspec != "" && refspec[0] == '+' then refspec[1..] else refspec
  }

  predicate IsPushRef(name: string)
  {
    "refs/heads/" <= name || "refs/tags/" <= name
  }

  predicate ValidRefspec(refspec: string)
  {
    && '*' !in refspec
    && SplitOnce(Stripped(refspec), ':').Some?
    && var (src, dst) := SplitOnce(Stripped(refspec), ':').value;
    && src != "" && dst != "" && IsPushRef(src) && IsPushRef(dst)
  }

  method ValidatePushRefspecs(refspecs: seq<string>) returns (r: Result<seq<string>, GitError>)
    ensures r == if refspecs != [] && (forall s :: s in refspecs ==> ValidRefspec(s))
                 then Ok(refspecs) else Err(Validation)
  {
    if refspecs == [] { return Err(Validation); }
    var i := 0;
    while i < |refspecs|
      invariant 0 <= i <= |refspecs|
      invariant forall k :: 0 <= k < i ==> ValidRefspec(refspecs[k])
    {
      var refspec := refspecs[i];
      assert refspec in refspecs;
      if '*' in refspec { return Err(Validation); }
      var parts := SplitOnce(Stripped(refspec), ':');
      if parts.None? { return Err(Validation); }
      if parts.value.0 == "" || parts.value.1 == "" { return Err(Validation); }
      if !IsPushRef(parts.value.0) || !IsPushRef(parts.value.1) { return Err(Validation); }
      i := i + 1;
    }
    return Ok(refspecs);
  }

  // ---------------------------------------------------------------- refs

  /** The kinds of ref `list_refs` returns; HEAD is not among them. */
  predicate Listed(name: string)
  {
    "refs/heads/" <= name || "refs/remotes/" <= name || "refs/tags/" <= name || "refs/treedx/commits/" <= name
  }

  /** `ref_map` */
  function RefMap(refs: Refs): Refs
  {
    map n | n in refs && Listed(n) :: refs[n]
  }

  /** `current_head` */
  function CurrentHead(refs: Refs): Option<string>
  {
    var listed := RefMap(refs);
    if "HEAD" in listed then Some(listed["HEAD"]) else None
  }

  function SourceOf(refspec: string): string
  {
    var parts := SplitOnce(Stripped(refspec), ':');
    if parts.Some? then parts.value.0 else ""
  }

  function DestinationOf(refspec: string): string
  {
    var parts := SplitOnce(Stripped(refspec), ':');
    if parts.Some? then parts.value.1 else ""
  }

  lemma ValidNames(refspec: string)
    requires ValidRefspec(refspec)
    ensures SplitOnce(Stripped(refspec), ':') == Some((SourceOf(refspec), DestinationOf(refspec)))
    ensures Listed(SourceOf(refspec)) && Listed(DestinationOf(refspec))
  {
  }

  /** The source and destination of every refspec. */
  function Named(refspecs: seq<string>): (names: seq<(string, string)>)
    ensures |names| == |refspecs|
  {
    seq(|refspecs|, i requires 0 <= i < |refspecs| => (SourceOf(refspecs[i]), DestinationOf(refspecs[i])))
  }

  function ResolvedNames(refs: Refs, names: seq<(string, string)>): Result<seq<Update>, GitError>
  {
    if names == [] then Ok([])
    else
      match ResolvedNames(refs, names[..|names| - 1])
      case Err(e) => Err(e)
      case Ok(updates) =>
        var (src, dst) := names[|names| - 1];
        if src in refs then Ok(updates + [Update(src, dst, refs[src])]) else Err(NotFound)
  }

  /** The updates of valid refspecs, or the first missing source. */
  function Resolved(local: Refs, refspecs: seq<string>): Result<seq<Update>, GitError>
    requires forall s :: s in refspecs ==> ValidRefspec(s)
  {
    ResolvedNames(RefMap(local), Named(refspecs))
  }

  lemma {:induction false} ResolvedStops(refs: Refs, names: seq<(string, string)>, n: nat)
    requires n <= |names| && ResolvedNames(refs, names[..n]).Err?
    ensures ResolvedNames(refs, names) == ResolvedNames(refs, names[..n])
    decreases |names|
  {
    if n < |names| {
      TakeTake(names, |names| - 1, n);
      ResolvedStops(refs, names[..|names| - 1], n);
    } else {
      TakeAll(names);
    }
  }

  /** Resolving succeeds when every source is known, and takes the names as they are and the ids from the refs. */
  lemma {:induction false} ResolvedNamesExact(refs: Refs, names: seq<(string, string)>)
    ensures ResolvedNames(refs, names).Ok? <==> forall i :: 0 <= i < |names| ==> names[i].0 in refs
    ensures ResolvedNames(refs, names).Ok? ==>
              var us := ResolvedNames(refs, names).value;
              && |us| == |names|
              && forall i :: 0 <= i < |us| ==> us[i] == Update(names[i].0, names[i].1, refs[names[i].0])
  {
    if names != [] {
      var init := names[..|names| - 1];
      ResolvedNamesExact(refs, init);
      assert forall i :: 0 <= i < |init| ==> init[i] == names[i];
    }
  }

  lemma NamedAreListed(refspecs: seq<string>)
    requires forall s :: s in refspecs ==> ValidRefspec(s)
    ensures forall i :: 0 <= i < |refspecs| ==> Listed(Named(refspecs)[i].0) && Listed(Named(refspecs)[i].1)
  {
    forall i | 0 <= i < |refspecs| ensures Listed(Named(refspecs)[i].0) && Listed(Named(refspecs)[i].1)
    {
      assert refspecs[i] in refspecs;
      ValidNames(refspecs[i]);
    }
  }

  lemma ResolvedDestinations(local: Refs, refspecs: seq<string>)
    requires (forall s :: s in refspecs ==> ValidRefspec(s)) && Resolved(local, refspecs).Ok?
    ensures forall u :: u in Resolved(local, refspecs).value ==>
            Listed(u.source) && Listed(u.destination) && u.source in local
  {
    NamedAreListed(refspecs);
    ResolvedNamesExact(RefMap(local), Named(refspecs));
  }

  method ResolvePushUpdates(local: Refs, refspecs: seq<string>) returns (r: Result<seq<Update>, GitError>)
    requires forall s :: s in refspecs ==> ValidRefspec(s)
    ensures r == Resolved(local, refspecs)
  {
    var refs := RefMap(local);
    ghost var names := Named(refspecs);
    var updates := [];
    var i := 0;
    while i < |refspecs|
      invariant 0 <= i <= |refspecs|
      invariant ResolvedNames(refs, names[..i]) == Ok(updates)
    {
      assert refspecs[i] in refspecs;
      TakeTake(names, i + 1, i);
      ValidNames(refspecs[i]);
      var (src, dst) := SplitOnce(Stripped(refspecs[i]), ':').value;
      if src !in refs {
        ResolvedStops(refs, names, i + 1);
        return Err(NotFound);
      }
      updates := updates + [Update(src, dst, refs[src])];
      i := i + 1;
    }
    TakeAll(names);
    return Ok(updates);
  }

  // ---------------------------------------------------------------- the push

  /** `write_ref` for every update, in order. */
  function WriteAll(refs: Refs, updates: seq<Update>): Refs
  {
    if updates == [] then refs
    else WriteAll(refs, updates[..|updates| - 1])[updates[|updates| - 1].destination := updates[|updates| - 1].target]
  }

  predicate Applied(refs: Refs, updates: seq<Update>)
  {
    forall u :: u in updates ==> u.destination in refs && refs[u.destination] == u.target
  }

  predicate AllAt(refs: Refs, updates: seq<Update>, expected: string)
  {
    forall u :: u in updates ==> u.destination in refs && refs[u.destination] == expected
  }

  /** The names whose value in `after` is not the one in `before`. */
  function ChangedNames(before: Refs, after: Refs): set<string>
  {
    set n | n in after && !(n in before && before[n] == after[n])
  }

  function Destinations(updates: seq<Update>): (names: seq<string>)
    ensures |names| == |updates|
  {
    seq(|updates|, i requires 0 <= i < |updates| => updates[i].destination)
  }

  /** A push of resolved updates to the refs of a reachable repository, or to none (`http`, plan only). */
  ghost function Pushing(remote: Option<Refs>, updates: seq<Update>, expected: Option<string>, plan: bool)
    : (Option<Refs>, Result<PushResult, GitError>)
  {
    var refs := if remote.Some? then remote.value else map[];
    var before := RefMap(refs);
    if expected.Some? && !AllAt(before, updates, expected.value) && !Applied(before, updates)
    then (remote, Err(Conflict))
    else if plan then
      (remote, Ok(PushResult(Destinations(updates), CurrentHead(refs), CurrentHead(refs), Plan)))
    else if Applied(before, updates) then
      (remote, Ok(PushResult([], CurrentHead(refs), CurrentHead(refs), AlreadyCurrent)))
    else if remote.None? then (remote, Err(UnsupportedTransport))
    else
      var refs' := WriteAll(refs, updates);
      var changed := SortedKeys(ChangedNames(before, RefMap(refs')));
      (Some(refs'), Ok(PushResult(changed, CurrentHead(refs), CurrentHead(refs'), Pushed)))
  }

  /** The repositories of this machine, and the one a path leads to. */
  datatype Machine = Machine(repos: map<string, Refs>, find: string -> Option<string>)

  function At(m: Machine, path: string): Option<string>
  {
    var name := m.find(path);
    if name.Some? && name.value in m.repos then name else None
  }

  /** The push of resolved updates to where the URL leads. */
  ghost function PushingTo(m: Machine, url: string, updates: seq<Update>, expected: Option<string>, plan: bool)
    : (Machine, Result<PushResult, GitError>)
  {
    match LocalRemotePath(url)
    case None => (m, Pushing(None, updates, expected, plan).1)
    case Some(path) =>
      if At(m, path).None? then (m, Err(Git))
      else
        var name := At(m, path).value;
        var (after, r) := Pushing(Some(m.repos[name]), updates, expected, plan);
        (if after.Some? then m.(repos := m.repos[name := after.value]) else m, r)
  }

  /** `push_remote` with the URL it resolved. */
  ghost function PushCall(m: Machine, repoPath: string, url: string, refspecs: seq<string>, expected: Option<string>,
                          plan: bool)
    : (Machine, Result<PushResult, GitError>)
  {
    if refspecs == [] || !(forall s :: s in refspecs ==> ValidRefspec(s)) then (m, Err(Validation))
    else if HasUrlCredentials(url) then (m, Err(Validation))
    else if IsUnsupportedSsh(url) then (m, Err(UnsupportedTransport))
    else if IsHttp(url) && !plan then (m, Err(UnsupportedTransport))
    else if At(m, repoPath).None? then (m, Err(Git))
    else
      match Resolved(m.repos[At(m, repoPath).value], refspecs)
      case Err(e) => (m, Err(e))
      case Ok(updates) => PushingTo(m, url, updates, expected, plan)
  }

  class Repositories {
    var repos: map<string, Refs>
    const find: string -> Option<string>

    ghost function View(): Machine
      reads this
    {
      Machine(repos, find)
    }

    constructor (repos: map<string, Refs>, find: string -> Option<string>)
      ensures View() == Machine(repos, find)
    {
      this.repos, this.find := repos, find;
    }

    method Find(path: string) returns (name: Option<string>)
      ensures name == At(View(), path)
    {
      name := find(path);
      if name.Some? && name.value !in repos { name := None; }
    }

    method PushRemote(repoPath: string, url: string, refspecs: seq<string>, expected: Option<string>, plan: bool)
      returns (r: Result<PushResult, GitError>)
      modifies this`repos
      ensures (View(), r) == PushCall(old(View()), repoPath, url, refspecs, expected, plan)
    {
      var valid := ValidatePushRefspecs(refspecs);
      if valid.Err? { return Err(valid.error); }
      if HasUrlCredentials(url) { return Err(Validation); }
      if IsUnsupportedSsh(url) { return Err(UnsupportedTransport); }
      if IsHttp(url) && !plan { return Err(UnsupportedTransport); }
      var local := Find(repoPath);
      if local.None? { return Err(Git); }
      var resolved := ResolvePushUpdates(repos[local.value], refspecs);
      if resolved.Err? { return Err(resolved.error); }
      r := PushUpdates(url, resolved.value, expected, plan);
    }

    /** From the updates on: the two checks of the destinations, the writes and the report. */
    method PushUpdates(url: string, updates: seq<Update>, expected: Option<string>, plan: bool)
      returns (r: Result<PushResult, GitError>)
      modifies this`repos
      ensures (View(), r) == PushingTo(old(View()), url, updates, expected, plan)
    {
      var path := LocalRemotePath(url);
      var name := None;
      if path.Some? {
        name := Find(path.value);
        if name.None? { return Err(Git); }
      }
      var base := if name.Some? then repos[name.value] else map[];
      var beforeRefs := RefMap(base);
      var alreadyApplied := Applied(beforeRefs, updates);
      if expected.Some? {
        var matching := AllAt(beforeRefs, updates, expected.value);
        if !matching && !alreadyApplied {
          assert name.Some? ==> repos == repos[name.value := repos[name.value]];
          return Err(Conflict);
        }
      }
      if !plan && !alreadyApplied {
        if name.None? { return Err(UnsupportedTransport); }
        WriteRefs(name.value, updates);
      }
      var now := if name.Some? then repos[name.value] else map[];
      assert name.Some? ==> repos == old(repos)[name.value := now];
      r := Report(base, now, updates, alreadyApplied, plan);
    }

    /** The loop over the updates. */
    method WriteRefs(name: string, updates: seq<Update>)
      requires name in repos
      modifies this`repos
      ensures repos == old(repos)[name := WriteAll(old(repos)[name], updates)]
    {
      ghost var before := repos;
      var i := 0;
      assert repos == before[name := before[name]];
      while i < |updates|
        invariant 0 <= i <= |updates|
        invariant repos == before[name := WriteAll(before[name], updates[..i])]
      {
        assert updates[..i + 1][..i] == updates[..i];
        repos := repos[name := repos[name][updates[i].destination := updates[i].target]];
        i := i + 1;
      }
      TakeAll(updates);
    }
  }

  /** What the caller is told about a push that ended. */
  method Report(base: Refs, now: Refs, updates: seq<Update>, alreadyApplied: bool, plan: bool)
    returns (r: Result<PushResult, GitError>)
    requires alreadyApplied || plan ==> now == base
    ensures r == Ok(PushResult(if plan then Destinations(updates) else if alreadyApplied then []
                               else SortedKeys(ChangedNames(RefMap(base), RefMap(now))),
                               CurrentHead(base), CurrentHead(now),
                               if plan then Plan else if alreadyApplied then AlreadyCurrent else Pushed))
  {
    var updatedRefs;
    if plan {
      updatedRefs := Destinations(updates);
    } else {
      updatedRefs := ListKeys(ChangedNames(RefMap(base), RefMap(now)));
      if alreadyApplied { NothingChanged(RefMap(base), updatedRefs); }
    }
    r := Ok(PushResult(updatedRefs, CurrentHead(base), CurrentHead(now),
                       if plan then Plan else if alreadyApplied then AlreadyCurrent else Pushed));
  }

  lemma NothingChanged(refs: Refs, names: seq<string>)
    requires names == SortedKeys(ChangedNames(refs, refs))
    ensures names == []
  {
    assert ChangedNames(refs, refs) == {};
    NonemptyElements(names);
  }

  // ---------------------------------------------------------------- what a push promises

  /** Updates of one destination agree on its target; with distinct destinations they always do. */
  predicate Consistent(updates: seq<Update>)
  {
    forall u, v :: u in updates && v in updates && u.destination == v.destination ==> u.target == v.target
  }

  lemma DistinctIsConsistent(updates: seq<Update>)
    requires forall i, j :: 0 <= i < j < |updates| ==> updates[i].destination != updates[j].destination
    ensures Consistent(updates)
  {
    forall u, v | u in updates && v in updates && u.destination == v.destination ensures u.target == v.target
    {
      var i :| 0 <= i < |updates| && updates[i] == u;
      var j :| 0 <= j < |updates| && updates[j] == v;
      if i < j { assert updates[i].destination != updates[j].destination; }
    }
  }

  /** Only destinations are written, and each holds the target of one of its updates. */
  lemma {:induction false} WriteAllExact(refs: Refs, updates: seq<Update>)
    ensures forall n :: n in refs && n !in Destinations(updates) ==>
            n in WriteAll(refs, updates) && WriteAll(refs, updates)[n] == refs[n]
    ensures forall n :: n in WriteAll(refs, updates) && n !in Destinations(updates) ==> n in refs
    ensures forall n :: n in Destinations(updates) ==>
              n in WriteAll(refs, updates) && Wanted(updates, n, WriteAll(refs, updates)[n])
  {
    if updates != [] {
      var init, last := updates[..|updates| - 1], updates[|updates| - 1];
      WriteAllExact(refs, init);
      SnocMembers(updates);
      assert Destinations(updates)[..|init|] == Destinations(init);
      SnocMembers(Destinations(updates));
      forall n | n in Destinations(init) && n != last.destination ensures Wanted(updates, n, WriteAll(refs, updates)[n])
      {
        assert Wanted(init, n, WriteAll(refs, init)[n]);
      }
      assert Wanted(updates, last.destination, last.target) by { assert last in updates; }
    }
  }

  ghost predicate Wanted(updates: seq<Update>, destination: string, target: string)
  {
    exists u :: u in updates && u.destination == destination && u.target == target
  }

  /** Writing establishes every update exactly when updates of one destination agree. */
  lemma WriteAllAppliesIff(refs: Refs, updates: seq<Update>)
    requires forall u :: u in updates ==> Listed(u.destination)
    ensures Applied(RefMap(WriteAll(refs, updates)), updates) <==> Consistent(updates)
  {
    WriteAllExact(refs, updates);
    var after := WriteAll(refs, updates);
    forall u | u in updates ensures u.destination in Destinations(updates)
    {
      var i :| 0 <= i < |updates| && updates[i] == u;
      assert Destinations(updates)[i] == u.destination;
    }
    if Consistent(updates) {
      forall u | u in updates ensures u.destination in RefMap(after) && RefMap(after)[u.destination] == u.target
      {
        assert Wanted(updates, u.destination, after[u.destination]);
      }
    }
  }

  /** The call gets as far as its updates. */
  ghost predicate Resolves(m: Machine, repoPath: string, url: string, refspecs: seq<string>, plan: bool)
  {
    && refspecs != [] && (forall s :: s in refspecs ==> ValidRefspec(s))
    && !HasUrlCredentials(url) && !IsUnsupportedSsh(url) && (IsHttp(url) ==> plan)
    && At(m, repoPath).Some? && Resolved(m.repos[At(m, repoPath).value], refspecs).Ok?
    && (LocalRemotePath(url).Some? ==> At(m, LocalRemotePath(url).value).Some?)
  }

  /** The updates of such a call. */
  ghost function UpdatesOf(m: Machine, repoPath: string, refspecs: seq<string>): seq<Update>
    requires refspecs != [] && (forall s :: s in refspecs ==> ValidRefspec(s))
    requires At(m, repoPath).Some? && Resolved(m.repos[At(m, repoPath).value], refspecs).Ok?
  {
    Resolved(m.repos[At(m, repoPath).value], refspecs).value
  }

  /** A call that succeeds, and is no plan, resolves, and has a repository to push to. */
  lemma SuccessResolves(m: Machine, repoPath: string, url: string, refspecs: seq<string>, expected: Option<string>)
    requires PushCall(m, repoPath, url, refspecs, expected, false).1.Ok?
    ensures Resolves(m, repoPath, url, refspecs, false) && LocalRemotePath(url).Some?
  {
  }

  /** Nothing but destinations changed in these refs, and the report names exactly the listed ones that did. */
  ghost predicate OnlyDestinations(before: Refs, after: Refs, updates: seq<Update>, reported: seq<string>)
  {
    && (forall n :: n in after && n !in Destinations(updates) ==> n in before && before[n] == after[n])
    && (forall n :: n in before ==> n in after)
    && (forall n :: n in reported <==>
          n in RefMap(after) && !(n in RefMap(before) && RefMap(before)[n] == RefMap(after)[n]))
  }

  lemma PushingExact(refs: Refs, updates: seq<Update>, expected: Option<string>)
    requires forall u :: u in updates ==> Listed(u.destination)
    requires Pushing(Some(refs), updates, expected, false).1.Ok?
    ensures var (after, r) := Pushing(Some(refs), updates, expected, false);
            && after.Some? && OnlyDestinations(refs, after.value, updates, r.value.updatedRefs)
            && (Applied(RefMap(after.value), updates) <==> Consistent(updates))
  {
    WriteAllAppliesIff(refs, updates);
    WriteAllExact(refs, updates);
    var (after, r) := Pushing(Some(refs), updates, expected, false);
    var names := SortedKeys(ChangedNames(RefMap(refs), RefMap(after.value)));
    assert forall n :: n in names <==> n in Elements(names);
    if Applied(RefMap(refs), updates) {
      NothingChanged(RefMap(refs), names);
      AppliedIsConsistent(RefMap(refs), updates);
    }
  }

  /** Refs hold one id for a name, so updates that are applied agree. */
  lemma AppliedIsConsistent(refs: Refs, updates: seq<Update>)
    requires Applied(refs, updates)
    ensures Consistent(updates)
  {
  }

  lemma PushedToExact(m: Machine, url: string, updates: seq<Update>, expected: Option<string>)
    requires LocalRemotePath(url).Some? && At(m, LocalRemotePath(url).value).Some?
    requires forall u :: u in updates ==> Listed(u.destination)
    requires PushingTo(m, url, updates, expected, false).1.Ok?
    ensures var (m', r) := PushingTo(m, url, updates, expected, false);
            var name := At(m, LocalRemotePath(url).value).value;
            && m'.repos.Keys == m.repos.Keys && m'.find == m.find
            && (forall other :: other in m.repos && other != name ==> m'.repos[other] == m.repos[other])
            && OnlyDestinations(m.repos[name], m'.repos[name], updates, r.value.updatedRefs)
            && (Applied(RefMap(m'.repos[name]), updates) <==> Consistent(updates))
  {
    PushingExact(m.repos[At(m, LocalRemotePath(url).value).value], updates, expected);
  }

  /** A push that reports success has left every other repository and every other ref alone, reports exactly the refs
      that changed, and has set its destinations exactly when updates of one destination agree. */
  lemma PushedExact(m: Machine, repoPath: string, url: string, refspecs: seq<string>, expected: Option<string>)
    requires PushCall(m, repoPath, url, refspecs, expected, false).1.Ok?
    ensures Resolves(m, repoPath, url, refspecs, false) && LocalRemotePath(url).Some?
    ensures var (m', r) := PushCall(m, repoPath, url, refspecs, expected, false);
            var name := At(m, LocalRemotePath(url).value).value;
            var updates := UpdatesOf(m, repoPath, refspecs);
            && m'.repos.Keys == m.repos.Keys && m'.find == m.find
            && (forall other :: other in m.repos && other != name ==> m'.repos[other] == m.repos[other])
            && OnlyDestinations(m.repos[name], m'.repos[name], updates, r.value.updatedRefs)
            && (Applied(RefMap(m'.repos[name]), updates) <==> Consistent(updates))
  {
    SuccessResolves(m, repoPath, url, refspecs, expected);
    ResolvedDestinations(m.repos[At(m, repoPath).value], refspecs);
    PushedToExact(m, url, UpdatesOf(m, repoPath, refspecs), expected);
  }

  /** The refs a push would write to. */
  ghost function TargetRefs(m: Machine, url: string): Refs
    requires LocalRemotePath(url).Some? ==> At(m, LocalRemotePath(url).value).Some?
  {
    if LocalRemotePath(url).Some? then m.repos[At(m, LocalRemotePath(url).value).value] else map[]
  }

  /** A mismatched expectation writes nothing, and is accepted only if the push is already applied. */
  lemma ExpectedHeadGuards(m: Machine, repoPath: string, url: string, refspecs: seq<string>, expected: string,
                           plan: bool)
    requires Resolves(m, repoPath, url, refspecs, plan)
    requires !AllAt(RefMap(TargetRefs(m, url)), UpdatesOf(m, repoPath, refspecs), expected)
    ensures var (m', r) := PushCall(m, repoPath, url, refspecs, Some(expected), plan);
            && m' == m
            && (r.Ok? <==> Applied(RefMap(TargetRefs(m, url)), UpdatesOf(m, repoPath, refspecs)))
            && (r.Err? ==> r.error == Conflict)
  {
    if LocalRemotePath(url).Some? {
      var name := At(m, LocalRemotePath(url).value).value;
      assert m.repos[name := m.repos[name]] == m.repos;
    }
  }

  // ---------------------------------------------------------------- pushing again

  /** Every source and its destination hold the same id. */
  predicate Level(refs: Refs, updates: seq<Update>)
  {
    forall u :: u in updates ==> u.source in refs && u.destination in refs && refs[u.source] == refs[u.destination]
  }

  /** Where a repository pushes to itself, the second push resolves the refs the first one left. */
  lemma AgainIsLevel(refs: Refs, after: Refs, refspecs: seq<string>)
    requires (forall s :: s in refspecs ==> ValidRefspec(s)) && Resolved(refs, refspecs).Ok?
    requires forall n :: n in refs ==> n in after
    ensures Resolved(after, refspecs).Ok?
    ensures Applied(RefMap(after), Resolved(after, refspecs).value) <==> Level(after, Resolved(refs, refspecs).value)
  {
    ResolvedNamesExact(RefMap(refs), Named(refspecs));
    ResolvedNamesExact(RefMap(after), Named(refspecs));
    ResolvedDestinations(after, refspecs);
    LevelAgain(after, Resolved(refs, refspecs).value, Resolved(after, refspecs).value);
  }

  lemma LevelAgain(after: Refs, us: seq<Update>, vs: seq<Update>)
    requires |us| == |vs|
    requires forall v :: v in vs ==> Listed(v.destination)
    requires forall i :: 0 <= i < |us| ==> us[i].source == vs[i].source && us[i].destination == vs[i].destination
    requires forall i :: 0 <= i < |us| ==> us[i].source in after && vs[i].target == after[us[i].source]
    ensures Applied(RefMap(after), vs) <==> Level(after, us)
  {
    if Applied(RefMap(after), vs) {
      forall u | u in us ensures u.source in after && u.destination in after && after[u.source] == after[u.destination]
      {
        var i :| 0 <= i < |us| && us[i] == u;
        assert vs[i] in vs;
      }
    }
    if Level(after, us) {
      forall v | v in vs ensures v.destination in RefMap(after) && RefMap(after)[v.destination] == v.target
      {
        var i :| 0 <= i < |vs| && vs[i] == v;
        assert us[i] in us;
      }
    }
  }

  /** The target of the last update of a destination, which is the one that stays. */
  function LastTarget(updates: seq<Update>, destination: string): Option<string>
  {
    if updates == [] then None
    else if updates[|updates| - 1].destination == destination then Some(updates[|updates| - 1].target)
    else LastTarget(updates[..|updates| - 1], destination)
  }

  /** The id the updates leave at the source of one of them. */
  function SourceAfter(updates: seq<Update>, u: Update): string
  {
    if LastTarget(updates, u.source).Some? then LastTarget(updates, u.source).value else u.target
  }

  /** No update moves a source away from the id that its own destination is left with. */
  predicate Rests(updates: seq<Update>)
  {
    forall u :: u in updates ==> LastTarget(updates, u.destination) == Some(SourceAfter(updates, u))
  }

  /** No update gives a source another id. */
  predicate Chainless(updates: seq<Update>)
  {
    forall u, v :: u in updates && v in updates && v.destination == u.source ==> v.target == u.target
  }

  lemma {:induction false} WriteAllLast(refs: Refs, updates: seq<Update>, name: string)
    ensures Lookup(WriteAll(refs, updates), name) ==
            if LastTarget(updates, name).Some? then LastTarget(updates, name) else Lookup(refs, name)
  {
    if updates != [] { WriteAllLast(refs, updates[..|updates| - 1], name); }
  }

  /** Whether a push into itself leaves sources and destinations level can be told from its updates. */
  lemma LevelIff(refs: Refs, updates: seq<Update>)
    requires forall u :: u in updates ==> u.source in refs && refs[u.source] == u.target
    ensures Level(WriteAll(refs, updates), updates) <==> Rests(updates)
  {
    var after := WriteAll(refs, updates);
    forall u | u in updates
      ensures Lookup(after, u.source) == Some(SourceAfter(updates, u))
      ensures Lookup(after, u.destination) == LastTarget(updates, u.destination) && u.destination in after
    {
      WriteAllLast(refs, updates, u.source);
      WriteAllLast(refs, updates, u.destination);
      LastTargetExists(updates, u);
    }
  }

  lemma {:induction false} LastTargetExists(updates: seq<Update>, u: Update)
    requires u in updates
    ensures LastTarget(updates, u.destination).Some?
  {
    SnocMembers(updates);
    if u in updates[..|updates| - 1] { LastTargetExists(updates[..|updates| - 1], u); }
  }

  lemma {:induction false} LastTargetIsOne(updates: seq<Update>, destination: string)
    requires LastTarget(updates, destination).Some?
    ensures Wanted(updates, destination, LastTarget(updates, destination).value)
  {
    var init, last := updates[..|updates| - 1], updates[|updates| - 1];
    SnocMembers(updates);
    if last.destination == destination {
      assert last in updates;
    } else {
      LastTargetIsOne(init, destination);
      var u :| u in init && u.destination == destination && u.target == LastTarget(init, destination).value;
      assert u in updates;
    }
  }

  /** Where updates of one destination agree, that comes down to pairs of updates. */
  lemma RestsIff(updates: seq<Update>)
    requires Consistent(updates)
    ensures Rests(updates) <==> Chainless(updates)
  {
    forall u | u in updates ensures LastTarget(updates, u.destination) == Some(u.target)
    {
      LastTargetExists(updates, u);
      LastTargetIsOne(updates, u.destination);
    }
    if Rests(updates) {
      forall u, v | u in updates && v in updates && v.destination == u.source ensures v.target == u.target
      {
        assert SourceAfter(updates, u) == v.target;
      }
    }
    if Chainless(updates) {
      forall u | u in updates ensures SourceAfter(updates, u) == u.target
      {
        if LastTarget(updates, u.source).Some? { LastTargetIsOne(updates, u.source); }
      }
    }
  }

  /** After a push the same push, whatever head it expects, finds everything current and changes nothing: into another
      repository, exactly when updates of one destination agree; into the repository itself, exactly when no update
      moves a source away from the id that its own destination is left with. */
  lemma PushConvergesIff(m: Machine, repoPath: string, url: string, refspecs: seq<string>,
                         expected: Option<string>, again: Option<string>)
    requires var r := PushCall(m, repoPath, url, refspecs, expected, false).1; r.Ok? && r.value.status == Pushed
    ensures Resolves(m, repoPath, url, refspecs, false) && LocalRemotePath(url).Some?
    ensures var m' := PushCall(m, repoPath, url, refspecs, expected, false).0;
            var second := PushCall(m', repoPath, url, refspecs, again, false);
            var updates := UpdatesOf(m, repoPath, refspecs);
            var local, name := At(m, repoPath).value, At(m, LocalRemotePath(url).value).value;
            (second == (m', Ok(PushResult([], None, None, AlreadyCurrent)))) <==>
            (if local == name then Rests(updates) else Consistent(updates))
  {
    SuccessResolves(m, repoPath, url, refspecs, expected);
    var updates := UpdatesOf(m, repoPath, refspecs);
    var local, name := At(m, repoPath).value, At(m, LocalRemotePath(url).value).value;
    var after := WriteAll(m.repos[name], updates);
    var m' := PushCall(m, repoPath, url, refspecs, expected, false).0;
    assert m' == m.(repos := m.repos[name := after]);
    ResolvedDestinations(m.repos[local], refspecs);
    WriteAllExact(m.repos[name], updates);
    WriteAllAppliesIff(m.repos[name], updates);
    HeadsAreNeverKnown(after);
    if local == name {
      AgainIsLevel(m.repos[local], after, refspecs);
      ResolvedTargets(m.repos[local], refspecs);
      LevelIff(m.repos[local], updates);
    }
    AgainCurrentIff(m', name, url, Resolved(m'.repos[local], refspecs).value, again);
  }

  lemma AgainCurrentIff(m: Machine, name: string, url: string, updates: seq<Update>, again: Option<string>)
    requires LocalRemotePath(url).Some? && At(m, LocalRemotePath(url).value) == Some(name)
    ensures PushingTo(m, url, updates, again, false) == (m, Ok(PushResult([], None, None, AlreadyCurrent))) <==>
            Applied(RefMap(m.repos[name]), updates)
  {
    HeadsAreNeverKnown(m.repos[name]);
    assert m.repos[name := m.repos[name]] == m.repos;
  }

  /** An update takes the id its source holds. */
  lemma ResolvedTargets(local: Refs, refspecs: seq<string>)
    requires (forall s :: s in refspecs ==> ValidRefspec(s)) && Resolved(local, refspecs).Ok?
    ensures forall u :: u in Resolved(local, refspecs).value ==> u.source in local && local[u.source] == u.target
  {
    ResolvedNamesExact(RefMap(local), Named(refspecs));
  }

  /** With distinct destinations, a push converges exactly when it goes to another repository or no update gives a
      source another id. */
  lemma DistinctPushConvergesIff(m: Machine, repoPath: string, url: string, refspecs: seq<string>,
                                 expected: Option<string>, again: Option<string>)
    requires var r := PushCall(m, repoPath, url, refspecs, expected, false).1; r.Ok? && r.value.status == Pushed
    requires Resolves(m, repoPath, url, refspecs, false)
    requires var updates := UpdatesOf(m, repoPath, refspecs);
             forall i, j :: 0 <= i < j < |updates| ==> updates[i].destination != updates[j].destination
    ensures LocalRemotePath(url).Some?
    ensures var m' := PushCall(m, repoPath, url, refspecs, expected, false).0;
            var second := PushCall(m', repoPath, url, refspecs, again, false);
            second == (m', Ok(PushResult([], None, None, AlreadyCurrent))) <==>
            At(m, repoPath) != At(m, LocalRemotePath(url).value) || Chainless(UpdatesOf(m, repoPath, refspecs))
  {
    PushConvergesIff(m, repoPath, url, refspecs, expected, again);
    DistinctIsConsistent(UpdatesOf(m, repoPath, refspecs));
    RestsIff(UpdatesOf(m, repoPath, refspecs));
  }

  // ---------------------------------------------------------------- two pushes that do not converge

  predicate PlainRef(name: string)
  {
    IsPushRef(name) && ':' !in name && '*' !in name
  }

  function Spec(source: string, destination: string): string
  {
    source + ":" + destination
  }

  lemma SpecParts(source: string, destination: string)
    requires PlainRef(source) && PlainRef(destination)
    ensures var s := Spec(source, destination);
            ValidRefspec(s) && SourceOf(s) == source && DestinationOf(s) == destination
  {
    assert source[0] == 'r';
    assert Stripped(Spec(source, destination)) == source + [':'] + destination;
    SplitOnceAt(source, ':', destination);
  }

  predicate PlainPath(url: string)
  {
    url != "" && url[0] == '/' && '@' !in url
  }

  lemma PlainPathIsLocal(url: string)
    requires PlainPath(url)
    ensures !HasUrlCredentials(url) && !IsUnsupportedSsh(url) && !IsHttp(url) && LocalRemotePath(url) == Some(url)
  {
    assert "http://"[0] != '/' && "https://"[0] != '/' && "file://"[0] != '/' && "ssh://"[0] != '/';
  }

  /** Two refspecs and what they resolve to. */
  lemma ResolveTwo(refs: Refs, a: string, x: string, b: string, y: string)
    requires PlainRef(a) && PlainRef(x) && PlainRef(b) && PlainRef(y) && a in refs && b in refs
    ensures var specs := [Spec(a, x), Spec(b, y)];
            && (forall s :: s in specs ==> ValidRefspec(s))
            && Resolved(refs, specs) == Ok([Update(a, x, refs[a]), Update(b, y, refs[b])])
  {
    var specs := [Spec(a, x), Spec(b, y)];
    SpecParts(a, x);
    SpecParts(b, y);
    assert Listed(a) && Listed(b);
    var names := Named(specs);
    assert names == [(a, x), (b, y)];
    ResolvedNamesExact(RefMap(refs), names);
    assert names[0] == (a, x) && names[1] == (b, y);
    var us := Resolved(refs, specs).value;
    assert us == [us[0], us[1]];
  }

  /** One call with two refspecs that are not both current: it writes one after the other. */
  lemma PushTwo(m: Machine, repoPath: string, url: string, a: string, x: string, b: string, y: string)
    requires PlainPath(url) && At(m, repoPath).Some? && At(m, url).Some?
    requires PlainRef(a) && PlainRef(x) && PlainRef(b) && PlainRef(y)
    requires a in m.repos[At(m, repoPath).value] && b in m.repos[At(m, repoPath).value]
    requires var local, refs := m.repos[At(m, repoPath).value], m.repos[At(m, url).value];
             x !in refs || y !in refs || refs[x] != local[a] || refs[y] != local[b]
    ensures var local, name := m.repos[At(m, repoPath).value], At(m, url).value;
            var (m', r) := PushCall(m, repoPath, url, [Spec(a, x), Spec(b, y)], None, false);
            && m' == m.(repos := m.repos[name := m.repos[name][x := local[a]][y := local[b]]])
            && r.Ok? && r.value.status == Pushed
  {
    var local, refs := m.repos[At(m, repoPath).value], m.repos[At(m, url).value];
    PlainPathIsLocal(url);
    ResolveTwo(local, a, x, b, y);
    var u, v := Update(a, x, local[a]), Update(b, y, local[b]);
    WriteTwo(refs, u, v);
    assert [u, v][0] in [u, v] && [u, v][1] in [u, v];
    assert !Applied(RefMap(refs), [u, v]);
  }

  /** A machine with one repository, which every path leads to. */
  function Alone(refs: Refs): Machine
  {
    Machine(map["r" := refs], (path: string) => Some("r"))
  }

  lemma PushIntoItself(refs: Refs, after: Refs, path: string, specs: seq<string>, a: string, x: string, b: string,
                       y: string)
    requires PlainPath(path) && PlainRef(a) && PlainRef(x) && PlainRef(b) && PlainRef(y)
             && specs == [Spec(a, x), Spec(b, y)]
    requires a in refs && b in refs && (x !in refs || y !in refs || refs[x] != refs[a] || refs[y] != refs[b])
    requires after == refs[x := refs[a]][y := refs[b]]
    ensures var (m', r) := PushCall(Alone(refs), path, path, specs, None, false);
            m' == Alone(after) && r.Ok? && r.value.status == Pushed
  {
    PushTwo(Alone(refs), path, path, a, x, b, y);
    assert Alone(refs).repos["r" := after] == Alone(after).repos;
  }

  /** A machine with two repositories, one at a path and the other anywhere else. */
  function Two(refs: Refs, others: Refs, path: string): Machine
  {
    Machine(map["r" := refs, "s" := others], (p: string) => if p == path then Some("r") else Some("s"))
  }

  lemma PushAcross(refs: Refs, others: Refs, after: Refs, path: string, url: string, specs: seq<string>,
                   a: string, x: string, b: string, y: string)
    requires PlainPath(url) && url != path && PlainRef(a) && PlainRef(x) && PlainRef(b) && PlainRef(y)
    requires a in refs && b in refs && (x !in others || y !in others || others[x] != refs[a] || others[y] != refs[b])
    requires specs == [Spec(a, x), Spec(b, y)] && after == others[x := refs[a]][y := refs[b]]
    ensures var (m', r) := PushCall(Two(refs, others, path), path, url, specs, None, false);
            m' == Two(refs, after, path) && r.Ok? && r.value.status == Pushed
  {
    var m := Two(refs, others, path);
    assert At(m, path) == Some("r") && At(m, url) == Some("s");
    PushTwo(m, path, url, a, x, b, y);
    assert m.repos["s" := after] == Two(refs, after, path).repos;
  }

  lemma BranchName(name: string)
    requires name in {"refs/heads/a", "refs/heads/b", "refs/heads/c", "refs/heads/m"}
    ensures PlainRef(name)
  {
  }

  lemma ChainMovesOn(refs: Refs, path: string, specs: seq<string>, a: string, b: string, c: string)
    requires PlainPath(path) && PlainRef(a) && PlainRef(b) && PlainRef(c) && a != b && b != c && a != c
    requires specs == [Spec(a, b), Spec(b, c)] && refs == map[a := "1", b := "2"]
    ensures var (m1, r1) := PushCall(Alone(refs), path, path, specs, None, false);
            var (m2, r2) := PushCall(m1, path, path, specs, None, false);
            && r1.Ok? && r1.value.status == Pushed && r2.Ok? && r2.value.status == Pushed
            && m1.repos == map["r" := map[a := "1", b := "1", c := "2"]]
            && m2.repos == map["r" := map[a := "1", b := "1", c := "1"]]
  {
    var once, twice := map[a := "1", b := "1", c := "2"], map[a := "1", b := "1", c := "1"];
    assert refs[b := "1"][c := "2"] == once && once[b := "1"][c := "1"] == twice;
    PushIntoItself(refs, once, path, specs, a, b, b, c);
    PushIntoItself(once, twice, path, specs, a, b, b, c);
  }

  /** A repository that pushes a to b and b to c into itself moves on with the second push. */
  lemma ChainIntoItselfMovesOn(refs: Refs, path: string, specs: seq<string>)
    requires refs == map["refs/heads/a" := "1", "refs/heads/b" := "2"] && path == "/srv/r"
    requires specs == ["refs/heads/a:refs/heads/b", "refs/heads/b:refs/heads/c"]
    ensures var (m1, r1) := PushCall(Alone(refs), path, path, specs, None, false);
            var (m2, r2) := PushCall(m1, path, path, specs, None, false);
            && r1.Ok? && r1.value.status == Pushed && r2.Ok? && r2.value.status == Pushed
            && m1.repos == map["r" := map["refs/heads/a" := "1", "refs/heads/b" := "1", "refs/heads/c" := "2"]]
            && m2.repos == map["r" := map["refs/heads/a" := "1", "refs/heads/b" := "1", "refs/heads/c" := "1"]]
  {
    Branches();
    assert Spec("refs/heads/a", "refs/heads/b") == "refs/heads/a:refs/heads/b";
    assert Spec("refs/heads/b", "refs/heads/c") == "refs/heads/b:refs/heads/c";
    ChainMovesOn(refs, path, specs, "refs/heads/a", "refs/heads/b", "refs/heads/c");
  }

  lemma Branches()
    ensures PlainRef("refs/heads/a") && PlainRef("refs/heads/b") && PlainRef("refs/heads/c") && PlainRef("refs/heads/m")
    ensures "refs/heads/a" != "refs/heads/b" && "refs/heads/b" != "refs/heads/c" && "refs/heads/a" != "refs/heads/c"
  {
    BranchName("refs/heads/a");
    BranchName("refs/heads/b");
    BranchName("refs/heads/c");
    BranchName("refs/heads/m");
    assert "refs/heads/a"[11] != "refs/heads/b"[11] && "refs/heads/b"[11] != "refs/heads/c"[11];
    assert "refs/heads/a"[11] != "refs/heads/c"[11];
  }

  lemma ClashIsRepeated(refs: Refs, path: string, url: string, specs: seq<string>, a: string, b: string, x: string)
    requires PlainPath(url) && url != path && PlainRef(a) && PlainRef(b) && PlainRef(x) && a != b
    requires specs == [Spec(a, x), Spec(b, x)] && refs == map[a := "1", b := "2"]
    ensures var (m1, r1) := PushCall(Two(refs, map[], path), path, url, specs, None, false);
            var (m2, r2) := PushCall(m1, path, url, specs, None, false);
            && r1.Ok? && r1.value.status == Pushed && r2.Ok? && r2.value.status == Pushed
            && m1.repos == m2.repos == map["r" := refs, "s" := map[x := "2"]]
  {
    var none: Refs := map[];
    var once := map[x := "2"];
    assert none[x := "1"][x := "2"] == once && once[x := "1"][x := "2"] == once;
    PushAcross(refs, none, once, path, url, specs, a, x, b, x);
    PushAcross(refs, once, once, path, url, specs, a, x, b, x);
  }

  /** Two branches pushed to one of another repository are written again by the second push. */
  lemma TwoBranchesToOne(refs: Refs, path: string, url: string, specs: seq<string>)
    requires refs == map["refs/heads/a" := "1", "refs/heads/b" := "2"] && path == "/srv/r" && url == "/srv/s"
    requires specs == ["refs/heads/a:refs/heads/m", "refs/heads/b:refs/heads/m"]
    ensures var (m1, r1) := PushCall(Two(refs, map[], path), path, url, specs, None, false);
            var (m2, r2) := PushCall(m1, path, url, specs, None, false);
            && r1.Ok? && r1.value.status == Pushed && r2.Ok? && r2.value.status == Pushed
            && m1.repos == m2.repos == map["r" := refs, "s" := map["refs/heads/m" := "2"]]
  {
    Branches();
    assert Spec("refs/heads/a", "refs/heads/m") == "refs/heads/a:refs/heads/m";
    assert Spec("refs/heads/b", "refs/heads/m") == "refs/heads/b:refs/heads/m";
    assert url[5] != path[5];
    ClashIsRepeated(refs, path, url, specs, "refs/heads/a", "refs/heads/b", "refs/heads/m");
  }

  lemma WriteTwo(refs: Refs, a: Update, b: Update)
    ensures WriteAll(refs, [a, b]) == refs[a.destination := a.target][b.destination := b.target]
  {
    var both := [a, b];
    var one := both[..1];
    assert one == [a] && one[..0] == [];
    assert WriteAll(refs, []) == refs;
    assert WriteAll(refs, one) == refs[a.destination := a.target];
  }

  /** HEAD is not a listed ref, so the heads a push reports are always absent. */
  lemma HeadsAreNeverKnown(refs: Refs)
    ensures CurrentHead(refs) == None
  {
    assert "HEAD"[0] != "refs/heads/"[0] && "HEAD"[0] != "refs/remotes/"[0];
    assert "HEAD"[0] != "refs/tags/"[0] && "HEAD"[0] != "refs/treedx/commits/"[0];
  }
}
