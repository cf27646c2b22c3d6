/** Section ranges and the heading stack: `section_ranges` of crates/treedx_graph/src/parse/mod.rs
    and the section loop of crates/treedx_graph/src/index/mod.rs. */
module Sections {
  import opened Wrappers
  import opened Text
  import opened Headings

  // ---------------------------------------------------------------- section_ranges

  /** The first heading from `j` on whose level is at most `level`, or the number of headings. */
  function NextAtMost(hs: seq<Heading>, j: nat, level: nat): (k: nat)
    requires j <= |hs|
    ensures j <= k <= |hs|
    decreases |hs| - j
  {
    if j == |hs| || hs[j].level <= level then j else NextAtMost(hs, j + 1, level)
  }

  lemma {:induction false} NextAtMostIs(hs: seq<Heading>, j: nat, level: nat)
    requires j <= |hs|
    ensures var k := NextAtMost(hs, j, level);
            (forall i :: j <= i < k ==> hs[i].level > level) && (k < |hs| ==> hs[k].level <= level)
    decreases |hs| - j
  {
    if j < |hs| && hs[j].level > level { NextAtMostIs(hs, j + 1, level); }
  }

  function RangeEnd(hs: seq<Heading>, i: nat, len: nat): nat
    requires i < |hs|
  {
    var k := NextAtMost(hs, i + 1, hs[i].level);
    if k < |hs| then hs[k].start else len
  }

  function SectionRanges(hs: seq<Heading>, blank: bool, len: nat): seq<(nat, nat)>
  {
    if hs == [] then (if blank then [] else [(0, len)])
    else seq(|hs|, i requires 0 <= i < |hs| => (hs[i].start, RangeEnd(hs, i, len)))
  }

  /** The range of heading i contains the start of heading j. */
  ghost predicate Covers(hs: seq<Heading>, len: nat, i: nat, j: nat)
    requires i < |hs| && j < |hs|
  {
    hs[i].start <= hs[j].start < RangeEnd(hs, i, len)
  }

  /** Every heading after i, up to j, lies deeper than heading i. */
  ghost predicate Deeper(hs: seq<Heading>, i: nat, j: nat)
    requires i < |hs| && j < |hs|
  {
    forall k :: i < k <= j ==> hs[k].level > hs[i].level
  }

  /** A range reaches heading j exactly when every heading up to j lies deeper. */
  lemma CoversIff(hs: seq<Heading>, len: nat, i: nat, j: nat)
    requires Ordered(hs, len) && i < j < |hs|
    ensures Covers(hs, len, i, j) <==> Deeper(hs, i, j)
  {
    var k := NextAtMost(hs, i + 1, hs[i].level);
    NextAtMostIs(hs, i + 1, hs[i].level);
    if k < |hs| {
      if k < j { assert hs[k].start < hs[j].start; }
      if j < k { assert hs[j].start < hs[k].start; }
    }
  }

  /** Any two section ranges are nested or disjoint, and none is empty. */
  lemma RangesLaminar(hs: seq<Heading>, len: nat, i: nat, j: nat)
    requires Ordered(hs, len) && i < j < |hs|
    ensures hs[i].start < RangeEnd(hs, i, len) <= len
    ensures if Covers(hs, len, i, j) then RangeEnd(hs, j, len) <= RangeEnd(hs, i, len)
            else RangeEnd(hs, i, len) <= hs[j].start
  {
    var a := NextAtMost(hs, i + 1, hs[i].level);
    var b := NextAtMost(hs, j + 1, hs[j].level);
    NextAtMostIs(hs, i + 1, hs[i].level);
    NextAtMostIs(hs, j + 1, hs[j].level);
    CoversIff(hs, len, i, j);
    if Covers(hs, len, i, j) {
      assert hs[j].level > hs[i].level;
      if a < |hs| {
        assert a > j;
        if b > a { assert false; }
      }
    }
  }

  // ---------------------------------------------------------------- the heading stack

  /** The nearest heading before j with a smaller level. */
  function Enclosing(hs: seq<Heading>, j: nat): Option<nat>
    requires j < |hs|
  {
    EnclosingBefore(hs, j, hs[j].level)
  }

  function EnclosingBefore(hs: seq<Heading>, n: nat, level: nat): (p: Option<nat>)
    requires n <= |hs|
    ensures p.Some? ==> p.value < n
  {
    if n == 0 then None
    else if hs[n - 1].level < level then Some(n - 1)
    else EnclosingBefore(hs, n - 1, level)
  }

  lemma {:induction false} EnclosingIs(hs: seq<Heading>, n: nat, level: nat)
    requires n <= |hs|
    ensures match EnclosingBefore(hs, n, level)
            case None => forall i :: 0 <= i < n ==> hs[i].level >= level
            case Some(p) => hs[p].level < level && forall i :: p < i < n ==> hs[i].level >= level
  {
    if n > 0 && hs[n - 1].level >= level { EnclosingIs(hs, n - 1, level); }
  }

  /** The nearest smaller heading is the innermost section that contains heading j;
      there is none exactly when no earlier section contains it. */
  lemma EnclosingIsInnermost(hs: seq<Heading>, len: nat, j: nat)
    requires Ordered(hs, len) && j < |hs|
    ensures match Enclosing(hs, j)
            case None => forall i :: 0 <= i < j ==> !Covers(hs, len, i, j)
            case Some(p) => Covers(hs, len, p, j) && forall i :: p < i < j ==> !Covers(hs, len, i, j)
  {
    var e := Enclosing(hs, j);
    EnclosingIs(hs, j, hs[j].level);
    forall i | 0 <= i < j && (e.None? || e.value < i) ensures !Covers(hs, len, i, j)
    {
      CoversIff(hs, len, i, j);
      assert !(hs[j].level > hs[i].level);
    }
    if e.Some? {
      assert Deeper(hs, e.value, j);
      CoversIff(hs, len, e.value, j);
    }
  }

  /** Every earlier section that contains heading j also contains the section of the one the stack picks,
      so the picked one is the smallest of them. */
  lemma EnclosingIsSmallest(hs: seq<Heading>, len: nat, i: nat, j: nat)
    requires Ordered(hs, len) && i < j < |hs| && Covers(hs, len, i, j)
    ensures Enclosing(hs, j).Some?
    ensures var p := Enclosing(hs, j).value;
            i == p || (i < p && hs[i].start < hs[p].start && RangeEnd(hs, p, len) <= RangeEnd(hs, i, len))
  {
    EnclosingIsInnermost(hs, len, j);
    var p := Enclosing(hs, j).value;
    if i < p {
      CoversIff(hs, len, i, j);
      CoversIff(hs, len, i, p);
      RangesLaminar(hs, len, i, p);
    }
  }

  /** For the headings of any body: section ranges nest or are disjoint, and the heading the stack picks for
      heading j is the innermost earlier one whose section contains it. */
  lemma BodySectionsNest(body: string, i: nat, j: nat)
    requires i < j < |Extracted(body)|
    ensures var hs, len := Extracted(body), Utf8Len(body);
            && hs[i].start < RangeEnd(hs, i, len) <= len
            && (if Covers(hs, len, i, j) then RangeEnd(hs, j, len) <= RangeEnd(hs, i, len)
                else RangeEnd(hs, i, len) <= hs[j].start)
            && (Covers(hs, len, i, j) ==> Enclosing(hs, j).Some? && i <= Enclosing(hs, j).value)
            && (Enclosing(hs, j) == Some(i) ==> Covers(hs, len, i, j))
  {
    var hs, len := Extracted(body), Utf8Len(body);
    ExtractedOrdered(body);
    RangesLaminar(hs, len, i, j);
    EnclosingIsInnermost(hs, len, j);
  }

  // ---------------------------------------------------------------- the section nodes of a file

  datatype Section = Section(id: string, headingPath: string, ordinal: nat, heading: Heading, start: nat, end: nat)

  datatype Edge = Edge(source: string, kind: string, target: string)

  function SectionId(fileId: string, headingPath: string, ordinal: nat): string
  {
    "section:" + fileId + ":" + (headingPath + ":" + Decimal(ordinal))
  }

  /** How many of these sections already have this heading path. */
  function PathCount(sections: seq<Section>, path: string): nat
  {
    if sections == [] then 0
    else PathCount(sections[..|sections| - 1], path) + (if sections[|sections| - 1].headingPath == path then 1 else 0)
  }

  /** The sections of the first n headings: each is filed below the id of its enclosing section. */
  function SectionsOf(fileId: string, hs: seq<Heading>, len: nat, n: nat): (sections: seq<Section>)
    requires n <= |hs|
    ensures |sections| == n
  {
    if n == 0 then []
    else
      var before := SectionsOf(fileId, hs, len, n - 1);
      var parent := Enclosing(hs, n - 1);
      var path := ChildPath(if parent.Some? then Some(before[parent.value].id) else None, hs[n - 1].slug);
      var ordinal := PathCount(before, path);
      var start, end := hs[n - 1].start, RangeEnd(hs, n - 1, len);
      before + [Section(SectionId(fileId, path, ordinal), path, ordinal, hs[n - 1], start, end)]
  }

  function Links(fileId: string, sid: string, parent: Option<string>, previous: string): seq<Edge>
  {
    [Edge(fileId, "HAS_SECTION", sid), Edge(sid, "BELONGS_TO_FILE", fileId)]
    + (if parent.Some? then
         [Edge(sid, "PARENT_SECTION", parent.value), Edge(parent.value, "CHILD_SECTION", sid)]
       else [])
    + [Edge(previous, "NEXT_SECTION", sid), Edge(sid, "PREV_SECTION", previous)]
  }

  /** The edges of the n-th section: to its file, its enclosing section and the section before it. */
  function EdgesFor(fileId: string, hs: seq<Heading>, sections: seq<Section>, n: nat): seq<Edge>
    requires n < |sections| <= |hs|
  {
    var parent := match Enclosing(hs, n) case None => None case Some(p) => Some(sections[p].id);
    Links(fileId, sections[n].id, parent, sections[if n == 0 then 0 else n - 1].id)
  }

  function EdgesTo(fileId: string, hs: seq<Heading>, sections: seq<Section>, n: nat): seq<Edge>
    requires n <= |sections| <= |hs|
  {
    if n == 0 then [] else EdgesTo(fileId, hs, sections, n - 1) + EdgesFor(fileId, hs, sections, n - 1)
  }

  function EdgesOf(fileId: string, hs: seq<Heading>, sections: seq<Section>): seq<Edge>
    requires |sections| <= |hs|
  {
    EdgesTo(fileId, hs, sections, |sections|)
  }

  /** Heading i is on the stack, or lies under a later heading of no greater level. */
  ghost predicate Accounted(hs: seq<Heading>, n: nat, at: seq<nat>, i: nat)
    requires i < n <= |hs|
  {
    i in at || exists k :: i < k < n && hs[k].level <= hs[i].level
  }

  /** Indices on the stack increase, and so do their levels. */
  ghost predicate Climbing(hs: seq<Heading>, n: nat, at: seq<nat>)
    requires n <= |hs|
  {
    && (forall a :: 0 <= a < |at| ==> at[a] < n)
    && (forall a, b :: 0 <= a < b < |at| ==> at[a] < at[b] && hs[at[a]].level < hs[at[b]].level)
  }

  /** The stack after n headings, as indices. */
  ghost predicate StackOk(hs: seq<Heading>, n: nat, at: seq<nat>)
    requires n <= |hs|
  {
    Climbing(hs, n, at) && forall i :: 0 <= i < n ==> Accounted(hs, n, at, i)
  }

  /** What is left after the pops for a heading of this level. */
  ghost predicate PoppedOk(hs: seq<Heading>, n: nat, at: seq<nat>, level: nat)
    requires n <= |hs|
  {
    Climbing(hs, n, at) && forall i :: 0 <= i < n ==> hs[i].level >= level || Accounted(hs, n, at, i)
  }

  lemma PopOne(hs: seq<Heading>, n: nat, at: seq<nat>, level: nat)
    requires n <= |hs| && PoppedOk(hs, n, at, level) && at != [] && hs[at[|at| - 1]].level >= level
    ensures PoppedOk(hs, n, at[..|at| - 1], level)
  {
    var rest := at[..|at| - 1];
    forall i | 0 <= i < n ensures hs[i].level >= level || Accounted(hs, n, rest, i)
    {
      assert at == rest + [at[|at| - 1]];
    }
  }

  /** With every smaller-or-equal level popped, the top of the stack is the enclosing heading. */
  lemma TopEncloses(hs: seq<Heading>, j: nat, at: seq<nat>)
    requires j < |hs| && PoppedOk(hs, j, at, hs[j].level)
    requires at != [] ==> hs[at[|at| - 1]].level < hs[j].level
    ensures Enclosing(hs, j) == if at == [] then None else Some(at[|at| - 1])
  {
    var e := Enclosing(hs, j);
    EnclosingIs(hs, j, hs[j].level);
    if e.Some? {
      assert Accounted(hs, j, at, e.value);
      assert forall a :: 0 <= a < |at| ==> at[a] <= at[|at| - 1];
      assert e.value in at;
    }
  }

  lemma PushOk(hs: seq<Heading>, j: nat, at: seq<nat>)
    requires j < |hs| && PoppedOk(hs, j, at, hs[j].level)
    requires at != [] ==> hs[at[|at| - 1]].level < hs[j].level
    ensures StackOk(hs, j + 1, at + [j])
  {
    var next := at + [j];
    var n := j + 1;
    assert Climbing(hs, n, next) by {
      forall a, b | 0 <= a < b < |next| ensures next[a] < next[b] && hs[next[a]].level < hs[next[b]].level
      {
        if b == |at| && a < |at| - 1 { assert at[a] < at[|at| - 1]; }
      }
    }
    forall i | 0 <= i < n ensures Accounted(hs, n, next, i)
    {
      if i == j { assert next[|at|] == j; }
      else if hs[i].level >= hs[j].level { assert i < j < j + 1; }
      else { assert Accounted(hs, j, at, i); }
    }
  }

  lemma SectionsInit(fileId: string, hs: seq<Heading>, len: nat, n: nat)
    requires 0 < n <= |hs|
    ensures SectionsOf(fileId, hs, len, n)[..n - 1] == SectionsOf(fileId, hs, len, n - 1)
  {
  }

  /** If each list only adds one element to the one before, every list begins with the earlier ones. */
  lemma {:induction false} PrefixChain<T>(lists: seq<seq<T>>, m: nat, n: nat)
    requires m <= n < |lists| && forall k :: 0 <= k < |lists| ==> |lists[k]| == k
    requires forall k :: 0 < k < |lists| ==> lists[k][..k - 1] == lists[k - 1]
    ensures lists[n][..m] == lists[m]
  {
    if m < n {
      PrefixChain(lists, m, n - 1);
      TakeTake(lists[n], n - 1, m);
    } else {
      TakeAll(lists[n]);
    }
  }

  lemma SectionsPrefix(fileId: string, hs: seq<Heading>, len: nat, m: nat, n: nat)
    requires m <= n <= |hs|
    ensures SectionsOf(fileId, hs, len, n)[..m] == SectionsOf(fileId, hs, len, m)
  {
    var lists := seq(n + 1, k requires 0 <= k <= n => SectionsOf(fileId, hs, len, k));
    forall k | 0 < k <= n ensures lists[k][..k - 1] == lists[k - 1] { SectionsInit(fileId, hs, len, k); }
    PrefixChain(lists, m, n);
  }

  /** The stack entries are the levels and section ids of the headings it stands for. */
  ghost predicate StackShows(stack: seq<(nat, string)>, hs: seq<Heading>, sections: seq<Section>, at: seq<nat>)
  {
    && |stack| == |at| && |sections| <= |hs|
    && forall a :: 0 <= a < |at| ==> at[a] < |sections| && stack[a] == (hs[at[a]].level, sections[at[a]].id)
  }

  lemma ShowsPush(stack: seq<(nat, string)>, hs: seq<Heading>, sections: seq<Section>, at: seq<nat>, section: Section)
    requires |sections| < |hs| && StackShows(stack, hs, sections, at)
    ensures StackShows(stack + [(hs[|sections|].level, section.id)], hs, sections + [section], at + [|sections|])
  {
  }

  lemma ShowsPop(stack: seq<(nat, string)>, hs: seq<Heading>, sections: seq<Section>, at: seq<nat>)
    requires stack != [] && StackShows(stack, hs, sections, at)
    ensures at != [] && at[|at| - 1] < |sections| <= |hs|
    ensures stack[|stack| - 1] == (hs[at[|at| - 1]].level, sections[at[|at| - 1]].id)
    ensures StackShows(stack[..|stack| - 1], hs, sections, at[..|at| - 1])
  {
  }

  /** The inner loop: drop the entries whose level is not smaller; what is then on top is the parent. */
  method PopStack(stack: seq<(nat, string)>, level: nat, ghost hs: seq<Heading>, ghost n: nat,
                  ghost sections: seq<Section>, ghost at: seq<nat>)
    returns (popped: seq<(nat, string)>, parent: Option<string>, ghost left: seq<nat>)
    requires n < |hs| && |sections| == n && level == hs[n].level
    requires StackOk(hs, n, at) && StackShows(stack, hs, sections, at)
    ensures StackOk(hs, n + 1, left + [n]) && StackShows(popped, hs, sections, left)
    ensures parent == match Enclosing(hs, n) case None => None case Some(p) => Some(sections[p].id)
  {
    popped, left := stack, at;
    while popped != [] && popped[|popped| - 1].0 >= level
      invariant PoppedOk(hs, n, left, level) && StackShows(popped, hs, sections, left)
      decreases |popped|
    {
      ShowsPop(popped, hs, sections, left);
      PopOne(hs, n, left, level);
      popped, left := popped[..|popped| - 1], left[..|left| - 1];
    }
    if popped != [] { ShowsPop(popped, hs, sections, left); }
    TopEncloses(hs, n, left);
    PushOk(hs, n, left);
    parent := if popped != [] then Some(popped[|popped| - 1].1) else None;
  }

  /** The edges of one section, from its parent's id on the stack and the section before it. */
  method LinkSection(fileId: string, sid: string, parent: Option<string>, previous: string) returns (edges: seq<Edge>)
    ensures edges == Links(fileId, sid, parent, previous)
  {
    edges := [Edge(fileId, "HAS_SECTION", sid), Edge(sid, "BELONGS_TO_FILE", fileId)];
    if parent.Some? {
      edges := edges + [Edge(sid, "PARENT_SECTION", parent.value), Edge(parent.value, "CHILD_SECTION", sid)];
    }
    edges := edges + [Edge(previous, "NEXT_SECTION", sid), Edge(sid, "PREV_SECTION", previous)];
  }

  /** What holds after the first headings: what is built, and the stack. */
  ghost predicate Round(fileId: string, hs: seq<Heading>, len: nat, sections: seq<Section>, edges: seq<Edge>,
                        ordinals: map<string, nat>, stack: seq<(nat, string)>, at: seq<nat>)
  {
    && |sections| <= |hs| && Building(fileId, hs, len, |sections|, sections, edges, ordinals)
    && StackOk(hs, |sections|, at) && StackShows(stack, hs, sections, at)
  }

  lemma RoundStart(fileId: string, hs: seq<Heading>, len: nat)
    ensures Round(fileId, hs, len, [], [], map[], [], [])
  {
  }

  lemma RoundEnd(fileId: string, hs: seq<Heading>, len: nat, sections: seq<Section>, edges: seq<Edge>,
                 ordinals: map<string, nat>, stack: seq<(nat, string)>, at: seq<nat>)
    requires Round(fileId, hs, len, sections, edges, ordinals, stack, at) && |sections| == |hs|
    ensures sections == SectionsOf(fileId, hs, len, |hs|) && edges == EdgesOf(fileId, hs, sections)
  {
  }

  /** The section loop of `build_graph_index` for a file that has headings. */
  method BuildSections(fileId: string, hs: seq<Heading>, ranges: seq<(nat, nat)>, ghost len: nat)
    returns (sections: seq<Section>, edges: seq<Edge>)
    requires hs != [] && ranges == SectionRanges(hs, false, len)
    ensures sections == SectionsOf(fileId, hs, len, |hs|)
    ensures edges == EdgesOf(fileId, hs, sections)
  {
    sections, edges := [], [];
    var stack: seq<(nat, string)> := [];
    ghost var at: seq<nat> := [];
    var ordinals: map<string, nat> := map[];
    var idx: nat := 0;
    RoundStart(fileId, hs, len);
    while idx < |hs|
      invariant idx == |sections| <= |hs|
      invariant Round(fileId, hs, len, sections, edges, ordinals, stack, at)
    {
      var section, added;
      section, added, ordinals, stack, at :=
        NextSection(fileId, hs, ranges[idx], ordinals, stack, len, sections, edges, at);
      sections, edges := sections + [section], edges + added;
      idx := idx + 1;
    }
    RoundEnd(fileId, hs, len, sections, edges, ordinals, stack, at);
  }

  /** The body of the outer loop: pop the stack, add the section, push it. */
  method NextSection(fileId: string, hs: seq<Heading>, range: (nat, nat), ordinals: map<string, nat>,
                     stack: seq<(nat, string)>,
                     ghost len: nat, sections: seq<Section>, ghost edges: seq<Edge>, ghost at: seq<nat>)
    returns (section: Section, added: seq<Edge>, ordinals': map<string, nat>, stack': seq<(nat, string)>,
            ghost at': seq<nat>)
    requires |sections| < |hs| && Round(fileId, hs, len, sections, edges, ordinals, stack, at)
    requires range == (hs[|sections|].start, RangeEnd(hs, |sections|, len))
    ensures Round(fileId, hs, len, sections + [section], edges + added, ordinals', stack', at')
  {
    var heading := hs[|sections|];
    var parent;
    ghost var left;
    stack', parent, left := PopStack(stack, heading.level, hs, |sections|, sections, at);
    section, added, ordinals' := AddSection(fileId, heading, range, parent, ordinals, hs, len, sections, edges);
    ShowsPush(stack', hs, sections, left, section);
    stack', at' := stack' + [(heading.level, section.id)], left + [|sections|];
  }

  /** The section, once its parent is known. */
  method AddSection(fileId: string, heading: Heading, range: (nat, nat), parent: Option<string>,
                    ordinals: map<string, nat>,
                    ghost hs: seq<Heading>, ghost len: nat, sections: seq<Section>, ghost edges: seq<Edge>)
    returns (section: Section, added: seq<Edge>, ordinals': map<string, nat>)
    requires |sections| < |hs| && Building(fileId, hs, len, |sections|, sections, edges, ordinals)
    requires heading == hs[|sections|] && range == (heading.start, RangeEnd(hs, |sections|, len))
    requires parent == match Enclosing(hs, |sections|) case None => None case Some(p) => Some(sections[p].id)
    ensures Building(fileId, hs, len, |sections| + 1, sections + [section], edges + added, ordinals')
  {
    var headingPath := ChildPath(parent, heading.slug);
    var ordinal := OrdinalOf(ordinals, headingPath);
    ordinals' := ordinals[headingPath := ordinal + 1];
    var sid := SectionId(fileId, headingPath, ordinal);
    section := Section(sid, headingPath, ordinal, heading, range.0, range.1);
    var previous := if sections == [] then sid else sections[|sections| - 1].id;
    added := LinkSection(fileId, sid, parent, previous);
    BuildingStep(fileId, hs, len, |sections|, sections, edges, ordinals, parent, section, added);
  }

  function ChildPath(parent: Option<string>, slug: string): string
  {
    if parent.Some? then parent.value + "/" + slug else slug
  }

  function OrdinalOf(ordinals: map<string, nat>, path: string): nat
  {
    if path in ordinals then ordinals[path] else 0
  }

  ghost predicate OrdinalsCount(ordinals: map<string, nat>, sections: seq<Section>)
  {
    forall path :: OrdinalOf(ordinals, path) == PathCount(sections, path)
  }

  lemma OrdinalStep(before: seq<Section>, section: Section, ordinals: map<string, nat>)
    requires OrdinalsCount(ordinals, before) && section.ordinal == OrdinalOf(ordinals, section.headingPath)
    ensures OrdinalsCount(ordinals[section.headingPath := section.ordinal + 1], before + [section])
  {
    assert (before + [section])[..|before|] == before;
    var after := ordinals[section.headingPath := section.ordinal + 1];
    forall path ensures OrdinalOf(after, path) == PathCount(before + [section], path)
    {
      assert OrdinalOf(ordinals, path) == PathCount(before, path);
    }
  }

  lemma SectionsStep(fileId: string, hs: seq<Heading>, len: nat, n: nat, parent: Option<string>,
                     ordinals: map<string, nat>, section: Section)
    requires n < |hs|
    requires parent == match Enclosing(hs, n)
                       case None => None
                       case Some(p) => Some(SectionsOf(fileId, hs, len, n)[p].id)
    requires OrdinalsCount(ordinals, SectionsOf(fileId, hs, len, n))
    requires section.headingPath == ChildPath(parent, hs[n].slug)
    requires section.ordinal == OrdinalOf(ordinals, section.headingPath)
    requires section.id == SectionId(fileId, section.headingPath, section.ordinal)
    requires section.heading == hs[n] && section.start == hs[n].start && section.end == RangeEnd(hs, n, len)
    ensures SectionsOf(fileId, hs, len, n + 1) == SectionsOf(fileId, hs, len, n) + [section]
  {
    assert OrdinalOf(ordinals, section.headingPath) == PathCount(SectionsOf(fileId, hs, len, n), section.headingPath);
  }

  /** What the outer loop has built after n headings. */
  ghost predicate Building(fileId: string, hs: seq<Heading>, len: nat, n: nat,
                           sections: seq<Section>, edges: seq<Edge>, ordinals: map<string, nat>)
    requires n <= |hs|
  {
    && sections == SectionsOf(fileId, hs, len, n)
    && edges == EdgesOf(fileId, hs, sections)
    && OrdinalsCount(ordinals, sections)
  }

  lemma BuildingStep(fileId: string, hs: seq<Heading>, len: nat, n: nat, sections: seq<Section>, edges: seq<Edge>,
                     ordinals: map<string, nat>, parent: Option<string>, section: Section, added: seq<Edge>)
    requires n < |hs| && Building(fileId, hs, len, n, sections, edges, ordinals)
    requires parent == match Enclosing(hs, n) case None => None case Some(p) => Some(sections[p].id)
    requires section.headingPath == ChildPath(parent, hs[n].slug)
    requires section.ordinal == OrdinalOf(ordinals, section.headingPath)
    requires section.id == SectionId(fileId, section.headingPath, section.ordinal)
    requires section.heading == hs[n] && section.start == hs[n].start && section.end == RangeEnd(hs, n, len)
    requires added == Links(fileId, section.id, parent, if n == 0 then section.id else sections[n - 1].id)
    ensures Building(fileId, hs, len, n + 1, sections + [section], edges + added,
                     ordinals[section.headingPath := section.ordinal + 1])
  {
    SectionsStep(fileId, hs, len, n, parent, ordinals, section);
    EdgesStep(fileId, hs, sections, section, parent, added);
    OrdinalStep(sections, section, ordinals);
  }

  lemma EdgesStep(fileId: string, hs: seq<Heading>, before: seq<Section>, section: Section,
                  parent: Option<string>, added: seq<Edge>)
    requires |before| < |hs|
    requires parent == match Enclosing(hs, |before|) case None => None case Some(p) => Some(before[p].id)
    requires added == Links(fileId, section.id, parent, if before == [] then section.id else before[|before| - 1].id)
    ensures EdgesOf(fileId, hs, before + [section]) == EdgesOf(fileId, hs, before) + added
  {
    EdgesPrefix(fileId, hs, before, section, |before|);
  }

  lemma {:induction false} EdgesPrefix(fileId: string, hs: seq<Heading>, before: seq<Section>, section: Section, n: nat)
    requires n <= |before| < |hs|
    ensures EdgesTo(fileId, hs, before + [section], n) == EdgesTo(fileId, hs, before, n)
  {
    if n > 0 { EdgesPrefix(fileId, hs, before, section, n - 1); }
  }

  // ---------------------------------------------------------------- section ids

  lemma {:induction false} PathCountGrows(sections: seq<Section>, m: nat)
    requires m < |sections|
    ensures PathCount(sections[..m], sections[m].headingPath) < PathCount(sections, sections[m].headingPath)
  {
    var n := |sections| - 1;
    if m == n {
    } else {
      PathCountGrows(sections[..n], m);
      assert sections[..n][..m] == sections[..m];
    }
  }

  lemma SectionIdInjective(fileId: string, a: string, m: nat, b: string, n: nat)
    requires SectionId(fileId, a, m) == SectionId(fileId, b, n)
    ensures a == b && m == n
  {
    var prefix := "section:" + fileId + ":";
    var x, y := a + ":" + Decimal(m), b + ":" + Decimal(n);
    assert x == (prefix + x)[|prefix|..] == (prefix + y)[|prefix|..] == y;
    LastColonSplits(a, m, b, n);
  }

  /** Section ids of one file never collide, so no section is lost when nodes are deduplicated. */
  lemma SectionIdsDistinct(fileId: string, hs: seq<Heading>, len: nat, i: nat, j: nat)
    requires i < j < |hs|
    ensures var sections := SectionsOf(fileId, hs, len, |hs|); sections[i].id != sections[j].id
  {
    var sections := SectionsOf(fileId, hs, len, |hs|);
    SectionAt(fileId, hs, len, i);
    SectionAt(fileId, hs, len, j);
    var a, b := sections[i], sections[j];
    if a.headingPath == b.headingPath {
      PathCountGrows(sections[..j], i);
      assert sections[..j][..i] == sections[..i];
    }
    if a.id == b.id { SectionIdInjective(fileId, a.headingPath, a.ordinal, b.headingPath, b.ordinal); }
  }

  /** What the i-th section is, in terms of the sections before it. */
  lemma SectionAt(fileId: string, hs: seq<Heading>, len: nat, i: nat)
    requires i < |hs|
    ensures var sections := SectionsOf(fileId, hs, len, |hs|);
            var s := sections[i];
            && s.id == SectionId(fileId, s.headingPath, s.ordinal)
            && s.id == "section:" + fileId + ":" + (s.headingPath + ":" + Decimal(s.ordinal))
            && s.ordinal == PathCount(sections[..i], s.headingPath)
            && s.heading == hs[i] && (s.start, s.end) == (hs[i].start, RangeEnd(hs, i, len))
            && s.headingPath == match Enclosing(hs, i)
                                case None => hs[i].slug
                                case Some(p) => sections[p].id + "/" + hs[i].slug
  {
    SectionsPrefix(fileId, hs, len, i, |hs|);
    SectionsPrefix(fileId, hs, len, i + 1, |hs|);
    var sections := SectionsOf(fileId, hs, len, |hs|);
    assert sections[..i] == SectionsOf(fileId, hs, len, i);
    assert sections[i] == SectionsOf(fileId, hs, len, i + 1)[i];
  }

  lemma {:induction false} EdgesAt(fileId: string, hs: seq<Heading>, sections: seq<Section>, n: nat, e: Edge)
    requires n <= |sections| <= |hs|
    ensures e in EdgesTo(fileId, hs, sections, n) <==> exists k :: 0 <= k < n && e in EdgesFor(fileId, hs, sections, k)
  {
    if n > 0 { EdgesAt(fileId, hs, sections, n - 1, e); }
  }

  ghost predicate DistinctSections(sections: seq<Section>)
  {
    forall i, j :: 0 <= i < j < |sections| ==> sections[i].id != sections[j].id
  }

  lemma SectionsDistinct(fileId: string, hs: seq<Heading>, len: nat)
    ensures DistinctSections(SectionsOf(fileId, hs, len, |hs|))
  {
    forall i, j | 0 <= i < j < |hs|
      ensures SectionsOf(fileId, hs, len, |hs|)[i].id != SectionsOf(fileId, hs, len, |hs|)[j].id
    {
      SectionIdsDistinct(fileId, hs, len, i, j);
    }
  }

  /** Parent edges are exactly the pairs of a section and the innermost section that contains it. */
  lemma ParentEdgesExact(fileId: string, hs: seq<Heading>, len: nat, child: nat, parent: nat)
    requires child < |hs| && parent < |hs|
    ensures var sections := SectionsOf(fileId, hs, len, |hs|);
            Edge(sections[child].id, "PARENT_SECTION", sections[parent].id) in EdgesOf(fileId, hs, sections)
            <==> Enclosing(hs, child) == Some(parent)
  {
    SectionsDistinct(fileId, hs, len);
    ParentEdgesOf(fileId, hs, SectionsOf(fileId, hs, len, |hs|), child, parent);
  }

  lemma ParentEdgesOf(fileId: string, hs: seq<Heading>, sections: seq<Section>, child: nat, parent: nat)
    requires |sections| == |hs| && DistinctSections(sections) && child < |hs| && parent < |hs|
    ensures Edge(sections[child].id, "PARENT_SECTION", sections[parent].id) in EdgesOf(fileId, hs, sections)
            <==> Enclosing(hs, child) == Some(parent)
  {
    var e := Edge(sections[child].id, "PARENT_SECTION", sections[parent].id);
    EdgesAt(fileId, hs, sections, |sections|, e);
    if e in EdgesOf(fileId, hs, sections) {
      var n :| 0 <= n < |sections| && e in EdgesFor(fileId, hs, sections, n);
      ParentEdgeAt(fileId, hs, sections, n, e);
      SameSection(sections, n, child);
      SameSection(sections, Enclosing(hs, n).value, parent);
    }
    if Enclosing(hs, child) == Some(parent) { ParentEdgeIn(fileId, hs, sections, child); }
  }

  lemma ParentEdgeIn(fileId: string, hs: seq<Heading>, sections: seq<Section>, n: nat)
    requires n < |sections| <= |hs| && Enclosing(hs, n).Some?
    ensures Edge(sections[n].id, "PARENT_SECTION", sections[Enclosing(hs, n).value].id)
            in EdgesFor(fileId, hs, sections, n)
  {
    assert EdgesFor(fileId, hs, sections, n)[2].kind == "PARENT_SECTION";
  }

  lemma ParentEdgeAt(fileId: string, hs: seq<Heading>, sections: seq<Section>, n: nat, e: Edge)
    requires n < |sections| <= |hs| && e in EdgesFor(fileId, hs, sections, n) && e.kind == "PARENT_SECTION"
    ensures Enclosing(hs, n).Some? && e.source == sections[n].id && e.target == sections[Enclosing(hs, n).value].id
  {
    KindsDiffer();
  }

  lemma SameSection(sections: seq<Section>, i: nat, j: nat)
    requires DistinctSections(sections) && i < |sections| && j < |sections| && sections[i].id == sections[j].id
    ensures i == j
  {
  }

  lemma KindsDiffer()
    ensures "HAS_SECTION" != "PARENT_SECTION" && "BELONGS_TO_FILE" != "PARENT_SECTION"
    ensures "CHILD_SECTION" != "PARENT_SECTION" && "NEXT_SECTION" != "PARENT_SECTION"
            && "PREV_SECTION" != "PARENT_SECTION"
  {
    assert "HAS_SECTION"[0] != "PARENT_SECTION"[0];
    assert "BELONGS_TO_FILE"[0] != "PARENT_SECTION"[0];
    assert "CHILD_SECTION"[0] != "PARENT_SECTION"[0];
    assert "NEXT_SECTION"[0] != "PARENT_SECTION"[0];
    assert "PREV_SECTION"[1] != "PARENT_SECTION"[1];
  }

  lemma NextEdgeAt(fileId: string, hs: seq<Heading>, sections: seq<Section>, n: nat, e: Edge)
    requires n < |sections| <= |hs| && e in EdgesFor(fileId, hs, sections, n) && e.kind == "NEXT_SECTION"
    ensures e.source == sections[if n == 0 then 0 else n - 1].id && e.target == sections[n].id
  {
    KindsDifferFromNext();
  }

  lemma KindsDifferFromNext()
    ensures "HAS_SECTION" != "NEXT_SECTION" && "BELONGS_TO_FILE" != "NEXT_SECTION"
    ensures "PARENT_SECTION" != "NEXT_SECTION" && "CHILD_SECTION" != "NEXT_SECTION" && "PREV_SECTION" != "NEXT_SECTION"
  {
    assert "HAS_SECTION"[0] != "NEXT_SECTION"[0];
    assert "BELONGS_TO_FILE"[0] != "NEXT_SECTION"[0];
    assert "PARENT_SECTION"[0] != "NEXT_SECTION"[0];
    assert "CHILD_SECTION"[0] != "NEXT_SECTION"[0];
    assert "PREV_SECTION"[0] != "NEXT_SECTION"[0];
  }

  /** A section is followed by the one after it, and by no other, but that the first also follows itself. */
  lemma NextEdgesExact(fileId: string, hs: seq<Heading>, len: nat, i: nat, j: nat)
    requires i < |hs| && j < |hs|
    ensures var sections := SectionsOf(fileId, hs, len, |hs|);
            Edge(sections[i].id, "NEXT_SECTION", sections[j].id) in EdgesOf(fileId, hs, sections)
            <==> j == i + 1 || i == j == 0
  {
    SectionsDistinct(fileId, hs, len);
    NextEdgesOf(fileId, hs, SectionsOf(fileId, hs, len, |hs|), i, j);
  }

  lemma NextEdgesOf(fileId: string, hs: seq<Heading>, sections: seq<Section>, i: nat, j: nat)
    requires |sections| == |hs| && DistinctSections(sections) && i < |hs| && j < |hs|
    ensures Edge(sections[i].id, "NEXT_SECTION", sections[j].id) in EdgesOf(fileId, hs, sections)
            <==> j == i + 1 || i == j == 0
  {
    var e := Edge(sections[i].id, "NEXT_SECTION", sections[j].id);
    EdgesAt(fileId, hs, sections, |sections|, e);
    if e in EdgesOf(fileId, hs, sections) {
      var n :| 0 <= n < |sections| && e in EdgesFor(fileId, hs, sections, n);
      NextEdgeAt(fileId, hs, sections, n, e);
      SameSection(sections, n, j);
      SameSection(sections, if n == 0 then 0 else n - 1, i);
    }
    if j == i + 1 || i == j == 0 {
      var links := EdgesFor(fileId, hs, sections, j);
      assert links[|links| - 2] == e;
    }
  }

  /** The links of one section, but for those to its file: its parent, and its place after the section before it. */
  lemma LinksAt(fileId: string, sid: string, parent: Option<string>, previous: string, e: Edge)
    ensures e in Links(fileId, sid, parent, previous) <==>
            || e == Edge(fileId, "HAS_SECTION", sid) || e == Edge(sid, "BELONGS_TO_FILE", fileId)
            || (parent.Some? && (e == Edge(sid, "PARENT_SECTION", parent.value)
                                 || e == Edge(parent.value, "CHILD_SECTION", sid)))
            || e == Edge(previous, "NEXT_SECTION", sid) || e == Edge(sid, "PREV_SECTION", previous)
  {
  }

  lemma KindsAllDiffer()
    ensures "CHILD_SECTION" !in ["HAS_SECTION", "BELONGS_TO_FILE", "PARENT_SECTION", "NEXT_SECTION", "PREV_SECTION"]
    ensures "PREV_SECTION" !in ["HAS_SECTION", "BELONGS_TO_FILE", "PARENT_SECTION", "NEXT_SECTION", "CHILD_SECTION"]
  {
    assert "CHILD_SECTION"[0] != "HAS_SECTION"[0] && "CHILD_SECTION"[0] != "BELONGS_TO_FILE"[0];
    assert "CHILD_SECTION"[0] != "PARENT_SECTION"[0] && "CHILD_SECTION"[0] != "NEXT_SECTION"[0];
    assert "CHILD_SECTION"[0] != "PREV_SECTION"[0] && "PREV_SECTION"[0] != "HAS_SECTION"[0];
    assert "PREV_SECTION"[0] != "BELONGS_TO_FILE"[0] && "PREV_SECTION"[1] != "PARENT_SECTION"[1];
    assert "PREV_SECTION"[0] != "NEXT_SECTION"[0];
  }

  lemma LinksMirror(fileId: string, sid: string, parent: Option<string>, previous: string, a: string, b: string)
    ensures var links := Links(fileId, sid, parent, previous);
            && (Edge(a, "CHILD_SECTION", b) in links <==> Edge(b, "PARENT_SECTION", a) in links)
            && (Edge(a, "PREV_SECTION", b) in links <==> Edge(b, "NEXT_SECTION", a) in links)
  {
    KindsDiffer();
    KindsDifferFromNext();
    KindsAllDiffer();
    LinksAt(fileId, sid, parent, previous, Edge(a, "CHILD_SECTION", b));
    LinksAt(fileId, sid, parent, previous, Edge(b, "PARENT_SECTION", a));
    LinksAt(fileId, sid, parent, previous, Edge(a, "PREV_SECTION", b));
    LinksAt(fileId, sid, parent, previous, Edge(b, "NEXT_SECTION", a));
  }

  /** Links up and down, and back and forth, come in pairs. */
  lemma EdgesMirror(fileId: string, hs: seq<Heading>, sections: seq<Section>, a: string, b: string)
    requires |sections| <= |hs|
    ensures var edges := EdgesOf(fileId, hs, sections);
            && (Edge(a, "CHILD_SECTION", b) in edges <==> Edge(b, "PARENT_SECTION", a) in edges)
            && (Edge(a, "PREV_SECTION", b) in edges <==> Edge(b, "NEXT_SECTION", a) in edges)
  {
    EdgesAt(fileId, hs, sections, |sections|, Edge(a, "CHILD_SECTION", b));
    EdgesAt(fileId, hs, sections, |sections|, Edge(b, "PARENT_SECTION", a));
    EdgesAt(fileId, hs, sections, |sections|, Edge(a, "PREV_SECTION", b));
    EdgesAt(fileId, hs, sections, |sections|, Edge(b, "NEXT_SECTION", a));
    forall n | 0 <= n < |sections|
      ensures var links := EdgesFor(fileId, hs, sections, n);
              && (Edge(a, "CHILD_SECTION", b) in links <==> Edge(b, "PARENT_SECTION", a) in links)
              && (Edge(a, "PREV_SECTION", b) in links <==> Edge(b, "NEXT_SECTION", a) in links)
    {
      var parent := match Enclosing(hs, n) case None => None case Some(p) => Some(sections[p].id);
      LinksMirror(fileId, sections[n].id, parent, sections[if n == 0 then 0 else n - 1].id, a, b);
    }
  }

  /** Every section is linked to its file both ways. */
  lemma FileEdges(fileId: string, hs: seq<Heading>, sections: seq<Section>, n: nat)
    requires n < |sections| <= |hs|
    ensures Edge(fileId, "HAS_SECTION", sections[n].id) in EdgesOf(fileId, hs, sections)
    ensures Edge(sections[n].id, "BELONGS_TO_FILE", fileId) in EdgesOf(fileId, hs, sections)
  {
    var has, belongs := Edge(fileId, "HAS_SECTION", sections[n].id), Edge(sections[n].id, "BELONGS_TO_FILE", fileId);
    EdgesAt(fileId, hs, sections, |sections|, has);
    EdgesAt(fileId, hs, sections, |sections|, belongs);
    assert EdgesFor(fileId, hs, sections, n)[0] == has && EdgesFor(fileId, hs, sections, n)[1] == belongs;
  }

  /** The first section of a file is linked to itself by NEXT_SECTION, so following that link need not end. */
  lemma FirstSectionFollowsItself(fileId: string, hs: seq<Heading>, len: nat)
    requires hs != []
    ensures var sections := SectionsOf(fileId, hs, len, |hs|);
            Edge(sections[0].id, "NEXT_SECTION", sections[0].id) in EdgesOf(fileId, hs, sections)
  {
    var sections := SectionsOf(fileId, hs, len, |hs|);
    var e := Edge(sections[0].id, "NEXT_SECTION", sections[0].id);
    EdgesAt(fileId, hs, sections, |sections|, e);
    assert EdgesFor(fileId, hs, sections, 0)[2] == e by { assert Enclosing(hs, 0).None?; }
  }
}
