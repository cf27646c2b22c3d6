/** What a push answers and writes, in terms of its request and of the refs it finds. */
module PushOutcomes {
  import opened Wrappers
  import opened Ordering
  import opened Text
  import opened Push

  // ---------------------------------------------------------------- requests

  /** A refspec is accepted exactly when it is a source, a colon and a destination, with or without a plus sign in
      front, both under refs/heads or refs/tags and neither with a wildcard; the first colon separates them. */
  lemma RefspecIff(s: string, source: string, destination: string)
    ensures ValidRefspec(s) && SourceOf(s) == source && DestinationOf(s) == destination <==>
            && (s == source + ":" + destination || s == "+" + (source + ":" + destination))
            && ':' !in source && '*' !in source && '*' !in destination
            && ("refs/heads/" <= source || "refs/tags/" <= source)
            && ("refs/heads/" <= destination || "refs/tags/" <= destination)
  {
    var pair := source + ":" + destination;
    if ("refs/heads/" <= source || "refs/tags/" <= source) && (s == pair || s == "+" + pair) && ':' !in source {
      assert source[0] == 'r' && pair[0] == 'r' && ("+" + pair)[1..] == pair;
      assert Stripped(s) == pair;
      assert pair == source + [':'] + destination;
      SplitOnceAt(source, ':', destination);
      StarIn(s, source, destination);
    }
    if ValidRefspec(s) && SourceOf(s) == source && DestinationOf(s) == destination {
      SplitOnceParts(Stripped(s), ':');
      assert Stripped(s) == pair;
      StarIn(s, source, destination);
    }
  }

  lemma StarIn(s: string, source: string, destination: string)
    requires s == source + ":" + destination || s == "+" + (source + ":" + destination)
    ensures '*' in s <==> '*' in source || '*' in destination
  {
    var pair := source + ":" + destination;
    assert forall c :: c in pair <==> c in source || c == ':' || c in destination;
    assert forall c :: c in "+" + pair <==> c == '+' || c in pair;
  }

  lemma {:induction false} SplitOnceParts(s: string, c: char)
    requires SplitOnce(s, c).Some?
    ensures var (a, b) := SplitOnce(s, c).value; s == a + [c] + b && c !in a
  {
    if s[0] != c {
      SplitOnceParts(s[1..], c);
      var (a, b) := SplitOnce(s[1..], c).value;
      assert s == [s[0]] + s[1..];
      assert s == ([s[0]] + a) + [c] + b;
    }
  }

  predicate Scheme(scheme: string)
  {
    scheme in ["http://", "https://", "file://"]
  }

  /** A URL carries credentials exactly when there is an at sign before the first slash after its scheme. */
  lemma CredentialsIff(scheme: string, authority: string, rest: string)
    requires Scheme(scheme) && '/' !in authority && (rest == "" || rest[0] == '/')
    ensures HasUrlCredentials(scheme + authority + rest) <==> '@' in authority
  {
    var url, after := scheme + authority + rest, authority + rest;
    assert url == scheme + after && url[|scheme|..] == after;
    assert "http://"[4] != "https://"[4] && "http://"[0] != "file://"[0] && "https://"[0] != "file://"[0];
    assert url[..7] == scheme[..7];
    if rest == "" {
      SplitOnceNone(authority, '/');
      assert after == authority;
    } else {
      assert after == authority + ['/'] + rest[1..];
      SplitOnceAt(authority, '/', rest[1..]);
    }
    assert Split(after, '/')[0] == authority;
  }

  // ---------------------------------------------------------------- answers

  /** Every destination holds this id. */
  predicate AllHold(refs: Refs, updates: seq<Update>, id: string)
  {
    forall u :: u in updates ==> Lookup(refs, u.destination) == Some(id)
  }

  /** Every destination holds the id of its source. */
  predicate AllDone(refs: Refs, updates: seq<Update>)
  {
    forall u :: u in updates ==> Lookup(refs, u.destination) == Some(u.target)
  }

  /** No head is expected, or the destinations hold it, or there is nothing left to do. */
  predicate Permitted(refs: Refs, updates: seq<Update>, expected: Option<string>)
  {
    expected.None? || AllHold(refs, updates, expected.value) || AllDone(refs, updates)
  }

  lemma ListedAlike(refs: Refs, updates: seq<Update>)
    requires forall u :: u in updates ==> Listed(u.destination)
    ensures Applied(RefMap(refs), updates) <==> AllDone(refs, updates)
    ensures forall id :: AllAt(RefMap(refs), updates, id) <==> AllHold(refs, updates, id)
  {
    forall u | u in updates ensures Lookup(RefMap(refs), u.destination) == Lookup(refs, u.destination) {}
    forall id ensures AllAt(RefMap(refs), updates, id) <==> AllHold(refs, updates, id)
    {
      assert forall u :: u in updates ==>
          (u.destination in RefMap(refs) && RefMap(refs)[u.destination] == id <==>
              Lookup(refs, u.destination) == Some(id));
    }
  }

  lemma ResolvesListed(m: Machine, repoPath: string, url: string, refspecs: seq<string>, plan: bool)
    requires Resolves(m, repoPath, url, refspecs, plan)
    ensures forall u :: u in UpdatesOf(m, repoPath, refspecs) ==> Listed(u.destination)
  {
    ResolvedDestinations(m.repos[At(m, repoPath).value], refspecs);
  }

  /** A push goes through exactly when its request resolves, leads to a repository of this machine, and expects no head
      or one that all destinations hold, or finds nothing left to do. */
  lemma PushSucceedsIff(m: Machine, repoPath: string, url: string, refspecs: seq<string>, expected: Option<string>)
    ensures PushCall(m, repoPath, url, refspecs, expected, false).1.Ok? <==>
            && Resolves(m, repoPath, url, refspecs, false) && LocalRemotePath(url).Some?
            && Permitted(TargetRefs(m, url), UpdatesOf(m, repoPath, refspecs), expected)
  {
    if Resolves(m, repoPath, url, refspecs, false) {
      ResolvesListed(m, repoPath, url, refspecs, false);
      ListedAlike(TargetRefs(m, url), UpdatesOf(m, repoPath, refspecs));
    }
  }

  /** What a push with work to do leaves in the repository it writes to. */
  lemma PushingWrites(refs: Refs, updates: seq<Update>, expected: Option<string>)
    requires forall u :: u in updates ==> Listed(u.destination)
    requires Permitted(refs, updates, expected) && !AllDone(refs, updates)
    ensures var (after, r) := Pushing(Some(refs), updates, expected, false);
            && r.Ok? && r.value.status == Pushed && after.Some?
            && forall n :: Lookup(after.value, n) ==
                 if LastTarget(updates, n).Some? then LastTarget(updates, n) else Lookup(refs, n)
  {
    ListedAlike(refs, updates);
    forall n ensures Lookup(WriteAll(refs, updates), n) ==
                     if LastTarget(updates, n).Some? then LastTarget(updates, n) else Lookup(refs, n)
    {
      WriteAllLast(refs, updates, n);
    }
  }

  lemma ResolvedCall(m: Machine, repoPath: string, url: string, refspecs: seq<string>, expected: Option<string>)
    requires Resolves(m, repoPath, url, refspecs, false) && LocalRemotePath(url).Some?
    ensures var name := At(m, LocalRemotePath(url).value).value;
            var (after, r) := Pushing(Some(m.repos[name]), UpdatesOf(m, repoPath, refspecs), expected, false);
            PushCall(m, repoPath, url, refspecs, expected, false) ==
            (if after.Some? then m.(repos := m.repos[name := after.value]) else m, r)
  {
  }

  /** A push that goes through with work to do reports so; afterwards each ref of the target holds the last target of
      its name, or what it held if it is no destination, and no other repository has changed. */
  lemma PushWrites(m: Machine, repoPath: string, url: string, refspecs: seq<string>, expected: Option<string>)
    requires Resolves(m, repoPath, url, refspecs, false) && LocalRemotePath(url).Some?
    requires var updates, refs := UpdatesOf(m, repoPath, refspecs), TargetRefs(m, url);
             Permitted(refs, updates, expected) && !AllDone(refs, updates)
    ensures var (m', r) := PushCall(m, repoPath, url, refspecs, expected, false);
            var updates, name := UpdatesOf(m, repoPath, refspecs), At(m, LocalRemotePath(url).value).value;
            && r.Ok? && r.value.status == Pushed && name in m'.repos && m'.repos.Keys == m.repos.Keys
            && (forall other :: other in m.repos && other != name ==> m'.repos[other] == m.repos[other])
            && forall n :: Lookup(m'.repos[name], n) ==
                 if LastTarget(updates, n).Some? then LastTarget(updates, n) else Lookup(m.repos[name], n)
  {
    ResolvesListed(m, repoPath, url, refspecs, false);
    PushingWrites(TargetRefs(m, url), UpdatesOf(m, repoPath, refspecs), expected);
    ResolvedCall(m, repoPath, url, refspecs, expected);
  }

  lemma NamesDelivered(refs: Refs, names: seq<(string, string)>)
    requires ResolvedNames(refs, names).Ok? && Consistent(ResolvedNames(refs, names).value)
    ensures forall i :: 0 <= i < |names| ==>
              && names[i].0 in refs
              && LastTarget(ResolvedNames(refs, names).value, names[i].1) == Some(refs[names[i].0])
  {
    ResolvedNamesExact(refs, names);
    var updates := ResolvedNames(refs, names).value;
    forall i | 0 <= i < |names| ensures LastTarget(updates, names[i].1) == Some(refs[names[i].0])
    {
      var u := updates[i];
      assert u in updates;
      LastTargetExists(updates, u);
      LastTargetIsOne(updates, u.destination);
    }
  }

  lemma SpecsDelivered(local: Refs, refspecs: seq<string>)
    requires AcceptedSpecs(refspecs) && Resolved(local, refspecs).Ok? && Consistent(Resolved(local, refspecs).value)
    ensures forall s :: s in refspecs ==>
              && SourceOf(s) in local
              && LastTarget(Resolved(local, refspecs).value, DestinationOf(s)) == Some(local[SourceOf(s)])
  {
    NamesDelivered(RefMap(local), Named(refspecs));
    forall s | s in refspecs
      ensures SourceOf(s) in local
      ensures LastTarget(Resolved(local, refspecs).value, DestinationOf(s)) == Some(local[SourceOf(s)])
    {
      var i :| 0 <= i < |refspecs| && refspecs[i] == s;
      assert Named(refspecs)[i] == (SourceOf(s), DestinationOf(s));
    }
  }

  /** So where updates of one destination agree, every destination ends at its source's id. */
  lemma PushDelivers(m: Machine, repoPath: string, url: string, refspecs: seq<string>, expected: Option<string>)
    requires Resolves(m, repoPath, url, refspecs, false) && LocalRemotePath(url).Some?
    requires var updates, refs := UpdatesOf(m, repoPath, refspecs), TargetRefs(m, url);
             Permitted(refs, updates, expected) && !AllDone(refs, updates) && Consistent(updates)
    ensures var (m', r) := PushCall(m, repoPath, url, refspecs, expected, false);
            var local, name := m.repos[At(m, repoPath).value], At(m, LocalRemotePath(url).value).value;
            && r.Ok? && r.value.status == Pushed && name in m'.repos
            && forall s :: s in refspecs ==>
                 SourceOf(s) in local && Lookup(m'.repos[name], DestinationOf(s)) == Some(local[SourceOf(s)])
  {
    PushWrites(m, repoPath, url, refspecs, expected);
    SpecsDelivered(m.repos[At(m, repoPath).value], refspecs);
  }

  /** A push with nothing left to do changes nothing and says so. */
  lemma PushRests(m: Machine, repoPath: string, url: string, refspecs: seq<string>, expected: Option<string>)
    requires Resolves(m, repoPath, url, refspecs, false) && LocalRemotePath(url).Some?
    requires AllDone(TargetRefs(m, url), UpdatesOf(m, repoPath, refspecs))
    ensures PushCall(m, repoPath, url, refspecs, expected, false) ==
            (m, Ok(PushResult([], None, None, AlreadyCurrent)))
  {
    ResolvesListed(m, repoPath, url, refspecs, false);
    ListedAlike(TargetRefs(m, url), UpdatesOf(m, repoPath, refspecs));
    HeadsAreNeverKnown(TargetRefs(m, url));
    assert m.repos[At(m, LocalRemotePath(url).value).value := TargetRefs(m, url)] == m.repos;
  }

  /** A plan changes nothing and lists the destinations, in the order of the refspecs. */
  lemma PlanListsDestinations(m: Machine, repoPath: string, url: string, refspecs: seq<string>,
                              expected: Option<string>)
    requires Resolves(m, repoPath, url, refspecs, true)
    requires Permitted(TargetRefs(m, url), UpdatesOf(m, repoPath, refspecs), expected)
    ensures var (m', r) := PushCall(m, repoPath, url, refspecs, expected, true);
            && m' == m && r.Ok? && r.value.status == Plan && |r.value.updatedRefs| == |refspecs|
            && forall i :: 0 <= i < |refspecs| ==> r.value.updatedRefs[i] == DestinationOf(refspecs[i])
  {
    ResolvesListed(m, repoPath, url, refspecs, true);
    ListedAlike(TargetRefs(m, url), UpdatesOf(m, repoPath, refspecs));
    ResolvedNamesExact(RefMap(m.repos[At(m, repoPath).value]), Named(refspecs));
    if LocalRemotePath(url).Some? {
      assert m.repos[At(m, LocalRemotePath(url).value).value := TargetRefs(m, url)] == m.repos;
    }
  }

  predicate AcceptedSpecs(refspecs: seq<string>)
  {
    refspecs != [] && forall s :: s in refspecs ==> ValidRefspec(s)
  }

  /** Nothing is wrong with the request itself. */
  predicate Sendable(url: string, refspecs: seq<string>, plan: bool)
  {
    AcceptedSpecs(refspecs) && !HasUrlCredentials(url) && !IsUnsupportedSsh(url) && (IsHttp(url) ==> plan)
  }

  /** A file URL leads to the path after its scheme, anything else that is not http to itself as a path. */
  lemma LocalPathIs(url: string)
    ensures "file://" <= url ==> LocalRemotePath(url) == Some(url[7..])
    ensures "http://" <= url || "https://" <= url ==> LocalRemotePath(url) == None
    ensures !("file://" <= url) && !("http://" <= url) && !("https://" <= url) ==> LocalRemotePath(url) == Some(url)
  {
    assert "http://"[0] != "file://"[0] && "https://"[0] != "file://"[0];
  }

  /** What is wrong with the request itself decides its error: first the refspecs and credentials in the URL, then a URL
      of ssh, in either spelling, or of http when it is no plan. */
  lemma RequestRefused(m: Machine, repoPath: string, url: string, refspecs: seq<string>, expected: Option<string>,
                       plan: bool)
    ensures var result := PushCall(m, repoPath, url, refspecs, expected, plan);
            && (!AcceptedSpecs(refspecs) ==> result == (m, Err(Validation)))
            && (HasUrlCredentials(url) ==> result == (m, Err(Validation)))
            && (AcceptedSpecs(refspecs) && !HasUrlCredentials(url) ==>
                  && ("ssh://" <= url ==> result == (m, Err(UnsupportedTransport)))
                  && ('@' in url && ':' in url && !("file:" <= url) ==> result == (m, Err(UnsupportedTransport)))
                  && ("http://" <= url && !plan ==> result == (m, Err(UnsupportedTransport)))
                  && ("https://" <= url && !plan ==> result == (m, Err(UnsupportedTransport))))
  {
  }

  /** No other request is refused for itself. */
  lemma SendableIff(url: string, refspecs: seq<string>, plan: bool)
    ensures Sendable(url, refspecs, plan) <==>
            && AcceptedSpecs(refspecs) && !HasUrlCredentials(url) && !("ssh://" <= url)
            && ('@' in url && ':' in url ==> "file:" <= url)
            && ("http://" <= url || "https://" <= url ==> plan)
  {
  }

  /** A local repository or a source that is missing, and then a remote repository that is missing, are told apart. */
  lemma MissingRefused(m: Machine, repoPath: string, url: string, refspecs: seq<string>, expected: Option<string>,
                       plan: bool)
    requires Sendable(url, refspecs, plan)
    ensures var result := PushCall(m, repoPath, url, refspecs, expected, plan);
            && (At(m, repoPath).None? ==> result == (m, Err(Git)))
            && (At(m, repoPath).Some? && (exists s :: s in refspecs && !HasSource(m, repoPath, s)) ==>
                  result == (m, Err(NotFound)))
            && (LocalRemotePath(url).Some? && At(m, LocalRemotePath(url).value).None? ==>
                  At(m, repoPath).Some? && (forall s :: s in refspecs ==> HasSource(m, repoPath, s)) ==>
                    result == (m, Err(Git)))
  {
    if At(m, repoPath).Some? { SourcesIff(m, repoPath, refspecs); }
  }

  lemma SourcesIff(m: Machine, repoPath: string, refspecs: seq<string>)
    requires At(m, repoPath).Some? && AcceptedSpecs(refspecs)
    ensures var r := Resolved(m.repos[At(m, repoPath).value], refspecs);
            && (r.Ok? <==> forall s :: s in refspecs ==> HasSource(m, repoPath, s))
            && (r.Err? ==> r == Err(NotFound))
  {
    var local := m.repos[At(m, repoPath).value];
    NamedAreListed(refspecs);
    ResolvedNamesExact(RefMap(local), Named(refspecs));
    ResolvedNamesError(RefMap(local), Named(refspecs));
    forall i | 0 <= i < |refspecs|
      ensures Named(refspecs)[i].0 in RefMap(local) <==> HasSource(m, repoPath, refspecs[i])
    {
    }
    if forall s :: s in refspecs ==> HasSource(m, repoPath, s) {
      forall i | 0 <= i < |refspecs| ensures Named(refspecs)[i].0 in RefMap(local) { assert refspecs[i] in refspecs; }
    }
  }

  /** A request that resolves is refused exactly when it is not permitted, as a conflict, and then writes nothing. */
  lemma ConflictIff(m: Machine, repoPath: string, url: string, refspecs: seq<string>, expected: Option<string>,
                    plan: bool)
    requires Resolves(m, repoPath, url, refspecs, plan)
    ensures PushCall(m, repoPath, url, refspecs, expected, plan) == (m, Err(Conflict)) <==>
            !Permitted(TargetRefs(m, url), UpdatesOf(m, repoPath, refspecs), expected)
  {
    ResolvesListed(m, repoPath, url, refspecs, plan);
    ListedAlike(TargetRefs(m, url), UpdatesOf(m, repoPath, refspecs));
    if LocalRemotePath(url).Some? {
      assert m.repos[At(m, LocalRemotePath(url).value).value := TargetRefs(m, url)] == m.repos;
    }
  }

  /** The source of the refspec is a ref of the local repository. */
  predicate HasSource(m: Machine, repoPath: string, refspec: string)
    requires At(m, repoPath).Some?
  {
    SourceOf(refspec) in m.repos[At(m, repoPath).value]
  }

  lemma {:induction false} ResolvedNamesError(refs: Refs, names: seq<(string, string)>)
    ensures ResolvedNames(refs, names).Err? ==> ResolvedNames(refs, names) == Err(NotFound)
  {
    if names != [] { ResolvedNamesError(refs, names[..|names| - 1]); }
  }
}
