/** `extract_headings` of crates/treedx_graph/src/parse/mod.rs. */
module Headings {
  import opened Wrappers
  import opened Text

  datatype Heading = Heading(text: string, slug: string, level: nat, start: nat, end: nat)

  // ---------------------------------------------------------------- extract_headings

  /** The end of the line that starts at `from`, its newline included. */
  function LineEnd(body: string, from: nat): (e: nat)
    requires from < |body|
    ensures from < e <= |body|
    ensures forall i :: from <= i < e - 1 ==> body[i] != '\n'
    ensures e == |body| || body[e - 1] == '\n'
    decreases |body| - from
  {
    if body[from] == '\n' || from + 1 == |body| then from + 1 else LineEnd(body, from + 1)
  }

  function TrimNewlines(line: string): string
  {
    if line != "" && line[|line| - 1] == '\n' then TrimNewlines(line[..|line| - 1]) else line
  }

  function Hashes(line: string): nat
  {
    if line != "" && line[0] == '#' then 1 + Hashes(line[1..]) else 0
  }

  /** `^(#{1,6})\s+(.+)$`: one to six marks, some whitespace, then at least one more character. */
  predicate IsHeading(line: string)
  {
    var n := Hashes(line);
    1 <= n <= 6 && n + 1 < |line| && IsWhitespace(line[n])
  }

  lemma {:induction false} HashesBound(line: string)
    ensures Hashes(line) <= |line|
  {
    if line != "" { HashesBound(line[1..]); }
  }

  /** What a heading line says, wherever it stands. */
  function ShapeOf(line: string): Heading
  {
    HashesBound(line);
    var text := Trim(line[Hashes(line)..]);
    Heading(text, NormalizeIdValue(text), Hashes(line), 0, 0)
  }

  function HeadingOf(line: string, start: nat): Heading
  {
    ShapeOf(line).(start := start, end := start + |line|)
  }

  /** The heading the line that starts at `from` is, if it is one. */
  function LineHeading(body: string, from: nat): seq<Heading>
    requires from < |body|
  {
    var line := TrimNewlines(body[from..LineEnd(body, from)]);
    if IsHeading(line) then [HeadingOf(line, from)] else []
  }

  /** The headings from the line that starts at `from` on; offsets count characters. */
  function HeadingsFrom(body: string, from: nat): seq<Heading>
    requires from <= |body|
    decreases |body| - from
  {
    if from == |body| then [] else LineHeading(body, from) + HeadingsFrom(body, LineEnd(body, from))
  }

  // ---------------------------------------------------------------- byte offsets

  /** The heading with its offsets counted in bytes, as the code counts them. */
  function InBytes(body: string, h: Heading): Heading
    requires h.start <= |body| && h.end <= |body|
  {
    h.(start := Utf8Len(body[..h.start]), end := Utf8Len(body[..h.end]))
  }

  predicate Inside(body: string, hs: seq<Heading>)
  {
    forall i :: 0 <= i < |hs| ==> hs[i].start <= |body| && hs[i].end <= |body|
  }

  function AllInBytes(body: string, hs: seq<Heading>): (r: seq<Heading>)
    requires Inside(body, hs)
    ensures |r| == |hs|
  {
    seq(|hs|, i requires 0 <= i < |hs| => InBytes(body, hs[i]))
  }

  lemma AllInBytesConcat(body: string, hs: seq<Heading>, more: seq<Heading>)
    requires Inside(body, hs) && Inside(body, more)
    ensures Inside(body, hs + more) && AllInBytes(body, hs + more) == AllInBytes(body, hs) + AllInBytes(body, more)
  {
  }

  lemma LineHeadingInside(body: string, from: nat)
    requires from < |body|
    ensures Inside(body, LineHeading(body, from))
  {
    LineAt(body, from);
  }

  lemma {:induction false} HeadingsInside(body: string, from: nat)
    requires from <= |body|
    ensures Inside(body, HeadingsFrom(body, from))
    decreases |body| - from
  {
    if from < |body| {
      LineHeadingInside(body, from);
      HeadingsInside(body, LineEnd(body, from));
    }
  }

  /** All headings of a body, by byte offsets. */
  function Extracted(body: string): seq<Heading>
  {
    HeadingsInside(body, 0);
    AllInBytes(body, HeadingsFrom(body, 0))
  }

  /** The headings found so far and those from here on are all headings. */
  ghost predicate Extracting(body: string, at: nat, found: seq<Heading>, headings: seq<Heading>)
    requires at <= |body|
  {
    && found + HeadingsFrom(body, at) == HeadingsFrom(body, 0)
    && Inside(body, found) && headings == AllInBytes(body, found)
  }

  lemma ExtractingStep(body: string, at: nat, found: seq<Heading>, headings: seq<Heading>)
    requires at < |body| && Extracting(body, at, found, headings)
    ensures Inside(body, LineHeading(body, at))
    ensures Extracting(body, LineEnd(body, at), found + LineHeading(body, at),
                       headings + AllInBytes(body, LineHeading(body, at)))
  {
    ConcatAssociates(found, LineHeading(body, at), HeadingsFrom(body, LineEnd(body, at)));
    LineHeadingInside(body, at);
    AllInBytesConcat(body, found, LineHeading(body, at));
  }

  /** The loop over the lines; `at` is where the iterator stands, `offset` its place in bytes. */
  method ExtractHeadings(body: string) returns (headings: seq<Heading>)
    ensures headings == Extracted(body)
  {
    headings := [];
    var offset := 0;
    var at := 0;
    ghost var found: seq<Heading> := [];
    assert body[..0] == "";
    while at < |body|
      invariant 0 <= at <= |body| && offset == Utf8Len(body[..at])
      invariant Extracting(body, at, found, headings)
    {
      ExtractingStep(body, at, found, headings);
      found := found + LineHeading(body, at);
      var added;
      added, at, offset := NextLine(body, at, offset);
      headings := headings + added;
    }
    assert found + [] == found;
  }

  /** One round: the heading of the line, if it is one, and where the next line begins. */
  method NextLine(body: string, at: nat, offset: nat) returns (added: seq<Heading>, at': nat, offset': nat)
    requires at < |body| && offset == Utf8Len(body[..at])
    ensures Inside(body, LineHeading(body, at)) && added == AllInBytes(body, LineHeading(body, at))
    ensures at' == LineEnd(body, at) && offset' == Utf8Len(body[..at'])
  {
    var line := body[at..LineEnd(body, at)];
    LineBytes(body, at);
    added := ReadLine(TrimNewlines(line), offset, body, at);
    at', offset' := at + |line|, offset + Utf8Len(line);
  }

  /** The body of the loop: what the line that begins here adds to the headings. */
  method ReadLine(line: string, offset: nat, ghost body: string, ghost at: nat) returns (headings: seq<Heading>)
    requires at + |line| <= |body|
    requires offset == Utf8Len(body[..at]) && offset + Utf8Len(line) == Utf8Len(body[..at + |line|])
    ensures var here := if IsHeading(line) then [HeadingOf(line, at)] else [];
            Inside(body, here) && headings == AllInBytes(body, here)
  {
    headings := [];
    if IsHeading(line) {
      var shape := ShapeOf(line);
      headings := [shape.(start := offset, end := offset + Utf8Len(line))];
      InBytesAt(body, shape, at, at + |line|);
    }
  }

  lemma InBytesAt(body: string, shape: Heading, a: nat, b: nat)
    requires a <= b <= |body|
    ensures InBytes(body, shape.(start := a, end := b)) ==
            shape.(start := Utf8Len(body[..a]), end := Utf8Len(body[..b]))
  {
  }

  /** What a line, with and without its newline, adds to the offset. */
  lemma LineBytes(body: string, at: nat)
    requires at < |body|
    ensures var e := LineEnd(body, at);
            var trimmed := TrimNewlines(body[at..e]);
            && at + |trimmed| <= |body|
            && Utf8Len(body[..at]) + Utf8Len(body[at..e]) == Utf8Len(body[..e])
            && Utf8Len(body[..at]) + Utf8Len(trimmed) == Utf8Len(body[..at + |trimmed|])
  {
    LineAt(body, at);
    var e := LineEnd(body, at);
    var trimmed := TrimNewlines(body[at..e]);
    BytesBetween(body, at, e);
    BytesBetween(body, at, at + |trimmed|);
  }

  lemma BytesBetween(body: string, a: nat, b: nat)
    requires a <= b <= |body|
    ensures Utf8Len(body[..a]) + Utf8Len(body[a..b]) == Utf8Len(body[..b])
  {
    assert body[..b] == body[..a] + body[a..b];
    Utf8LenConcat(body[..a], body[a..b]);
  }

  // ---------------------------------------------------------------- headings are lines

  /** `at` is where some line of the body starts. */
  predicate LineStart(body: string, at: nat)
  {
    at < |body| && (at == 0 || body[at - 1] == '\n')
  }

  lemma TrimNewlinesOnce(line: string)
    requires forall i :: 0 <= i < |line| - 1 ==> line[i] != '\n'
    ensures TrimNewlines(line) == if line != "" && line[|line| - 1] == '\n' then line[..|line| - 1] else line
  {
  }

  /** The heading is a whole line of the body, found at its own offset. */
  predicate IsLineHeading(body: string, h: Heading)
  {
    && h.start < h.end <= |body| && LineStart(body, h.start)
    && IsHeading(body[h.start..h.end]) && h == HeadingOf(body[h.start..h.end], h.start)
    && (h.end == |body| || body[h.end] == '\n')
  }

  /** The line that starts at `from`, without its newline. */
  lemma LineAt(body: string, from: nat)
    requires from < |body|
    ensures var line := TrimNewlines(body[from..LineEnd(body, from)]);
            && from + |line| <= LineEnd(body, from) && line == body[from..from + |line|]
            && (from + |line| == |body| || body[from + |line|] == '\n')
  {
    TrimNewlinesOnce(body[from..LineEnd(body, from)]);
  }

  lemma LineIsHeading(body: string, from: nat, line: string)
    requires LineStart(body, from) && from + |line| <= |body| && line == body[from..from + |line|]
    requires from + |line| == |body| || body[from + |line|] == '\n'
    requires IsHeading(line)
    ensures IsLineHeading(body, HeadingOf(line, from))
  {
  }

  /** Lines of a kind from `from` on, one after the other. */
  ghost predicate InOrder(isLine: Heading -> bool, from: nat, hs: seq<Heading>)
  {
    && (forall h :: h in hs ==> from <= h.start && isLine(h))
    && (forall i, j :: 0 <= i < j < |hs| ==> hs[i].end <= hs[j].start)
  }

  lemma InOrderCons(isLine: Heading -> bool, from: nat, to: nat, h: Heading, rest: seq<Heading>)
    requires InOrder(isLine, to, rest) && from <= to && from <= h.start && h.end <= to && isLine(h)
    ensures InOrder(isLine, from, [h] + rest)
  {
  }

  ghost function LineIn(body: string): Heading -> bool
  {
    (h: Heading) => IsLineHeading(body, h)
  }

  /** Every heading is a whole line, and headings follow each other. */
  lemma {:induction false} HeadingsAreLines(body: string, from: nat)
    requires from <= |body| && (from == |body| || LineStart(body, from))
    ensures InOrder(LineIn(body), from, HeadingsFrom(body, from))
    decreases |body| - from
  {
    if from < |body| {
      var e := LineEnd(body, from);
      HeadingsAreLines(body, e);
      LineHeadingIsLine(body, from);
      var here := LineHeading(body, from);
      if here == [] {
        assert [] + HeadingsFrom(body, e) == HeadingsFrom(body, e);
      } else {
        InOrderCons(LineIn(body), from, e, here[0], HeadingsFrom(body, e));
        assert here == [here[0]];
      }
    }
  }

  lemma LineHeadingIsLine(body: string, from: nat)
    requires LineStart(body, from)
    ensures var here := LineHeading(body, from);
            || here == []
            || (|here| == 1 && here[0].start == from && here[0].end <= LineEnd(body, from)
                && IsLineHeading(body, here[0]))
  {
    var line := TrimNewlines(body[from..LineEnd(body, from)]);
    LineAt(body, from);
    if IsHeading(line) { LineIsHeading(body, from, line); }
  }

  /** No heading is missed: every line that reads as one is in the list. */
  lemma {:induction false} HeadingsAreAll(body: string, from: nat, at: nat)
    requires from <= at && LineStart(body, at) && (from == |body| || LineStart(body, from))
    requires IsHeading(TrimNewlines(body[at..LineEnd(body, at)]))
    ensures HeadingOf(TrimNewlines(body[at..LineEnd(body, at)]), at) in HeadingsFrom(body, from)
    decreases |body| - from
  {
    var e := LineEnd(body, from);
    var line := TrimNewlines(body[from..e]);
    if from == at {
      assert HeadingOf(line, from) in LineHeading(body, from);
    } else {
      assert body[at - 1] == '\n';
      assert e <= at;
      HeadingsAreAll(body, e, at);
    }
  }

  // ---------------------------------------------------------------- what a heading says

  /** One to six marks, whitespace, and at least one more character. */
  predicate Marked(line: string, level: nat)
  {
    && 1 <= level <= 6 && level + 1 < |line|
    && (forall i :: 0 <= i < level ==> line[i] == '#') && IsWhitespace(line[level])
  }

  /** Some text with nothing but whitespace around it. */
  ghost predicate Encloses(s: string, text: string)
  {
    Trimmed(text) && exists before, after :: Blank(before) && Blank(after) && s == before + text + after
  }

  lemma {:induction false} HashesExact(line: string)
    ensures Hashes(line) <= |line| && forall i :: 0 <= i < Hashes(line) ==> line[i] == '#'
    ensures Hashes(line) < |line| ==> line[Hashes(line)] != '#'
  {
    if line != "" && line[0] == '#' {
      HashesExact(line[1..]);
      forall i | 0 <= i < Hashes(line) ensures line[i] == '#'
      {
        if i > 0 { assert line[i] == line[1..][i - 1]; }
      }
    }
  }

  lemma MarkedIff(line: string, level: nat)
    ensures IsHeading(line) && Hashes(line) == level <==> Marked(line, level)
  {
    HashesExact(line);
    assert !IsWhitespace('#');
    if Marked(line, level) { assert Hashes(line) == level; }
  }

  lemma ShapeReads(line: string)
    requires IsHeading(line)
    ensures var h := ShapeOf(line);
            Marked(line, h.level) && Encloses(line[h.level..], h.text) && h.slug == NormalizeIdValue(h.text)
  {
    MarkedIff(line, Hashes(line));
    var before, after := TrimExact(line[Hashes(line)..]);
  }

  /** A heading stands for a whole line of the body, by its offsets in bytes; its level is the number of marks the line
      begins with, and its text what follows them, without the whitespace around it. */
  lemma HeadingReads(body: string, i: nat) returns (a: nat, b: nat)
    requires i < |Extracted(body)|
    ensures var h := Extracted(body)[i];
            && a < b <= |body| && LineStart(body, a) && (b == |body| || body[b] == '\n')
            && h.start == Utf8Len(body[..a]) && h.end == Utf8Len(body[..b])
            && Marked(body[a..b], h.level) && Encloses(body[a..b][h.level..], h.text)
            && h.slug == NormalizeIdValue(h.text)
  {
    HeadingsInside(body, 0);
    HeadingsAreLines(body, 0);
    var found := HeadingsFrom(body, 0)[i];
    assert found in HeadingsFrom(body, 0) && LineIn(body)(found);
    a, b := found.start, found.end;
    ShapeReads(body[a..b]);
  }

  /** Every line that begins with one to six marks, whitespace and another character is a heading of that level. */
  lemma MarkedLineIsHeading(body: string, a: nat, b: nat, level: nat) returns (i: nat)
    requires a < b <= |body| && LineStart(body, a) && (b == |body| || body[b] == '\n') && '\n' !in body[a..b]
    requires Marked(body[a..b], level)
    ensures i < |Extracted(body)| && Extracted(body)[i].level == level
    ensures Extracted(body)[i].start == Utf8Len(body[..a]) && Extracted(body)[i].end == Utf8Len(body[..b])
  {
    HeadingOfLine(body, a, b, level);
    i := ExtractedOf(body, HeadingOf(body[a..b], a));
  }

  lemma HeadingOfLine(body: string, a: nat, b: nat, level: nat)
    requires a < b <= |body| && LineStart(body, a) && (b == |body| || body[b] == '\n') && '\n' !in body[a..b]
    requires Marked(body[a..b], level)
    ensures HeadingOf(body[a..b], a) in HeadingsFrom(body, 0)
    ensures HeadingOf(body[a..b], a).level == level
    ensures HeadingOf(body[a..b], a).start == a && HeadingOf(body[a..b], a).end == b
  {
    LineIs(body, a, b);
    MarkedIff(body[a..b], level);
    LevelOf(body[a..b], a);
    HeadingsAreAll(body, 0, a);
  }

  lemma ExtractedOf(body: string, h: Heading) returns (i: nat)
    requires h in HeadingsFrom(body, 0)
    ensures h.start <= |body| && h.end <= |body|
    ensures i < |Extracted(body)| && Extracted(body)[i].level == h.level
    ensures Extracted(body)[i].start == Utf8Len(body[..h.start]) && Extracted(body)[i].end == Utf8Len(body[..h.end])
  {
    i :| i < |HeadingsFrom(body, 0)| && HeadingsFrom(body, 0)[i] == h;
    HeadingsInside(body, 0);
  }

  lemma LevelOf(line: string, start: nat)
    ensures HeadingOf(line, start).level == Hashes(line)
    ensures HeadingOf(line, start).start == start && HeadingOf(line, start).end == start + |line|
  {
  }

  lemma LineIs(body: string, a: nat, b: nat)
    requires a < b <= |body| && (b == |body| || body[b] == '\n') && '\n' !in body[a..b]
    ensures TrimNewlines(body[a..LineEnd(body, a)]) == body[a..b]
  {
    assert forall k :: a <= k < b ==> body[k] == body[a..b][k - a] && body[k] != '\n';
    var e := LineEnd(body, a);
    TrimNewlinesOnce(body[a..e]);
    assert e == if b == |body| then b else b + 1;
  }

  // ---------------------------------------------------------------- order

  /** Headings begin one after the other, before the end of the body. */
  ghost predicate Ordered(hs: seq<Heading>, len: nat)
  {
    && (forall i :: 0 <= i < |hs| ==> hs[i].start < len)
    && (forall i, j :: 0 <= i < j < |hs| ==> hs[i].start < hs[j].start)
  }

  lemma BytesGrow(body: string, a: nat, b: nat)
    requires a < b <= |body|
    ensures Utf8Len(body[..a]) < Utf8Len(body[..b])
  {
    BytesBetween(body, a, b);
    Utf8LenAtLeast(body[a..b]);
  }

  /** What `extract_headings` returns is ordered, within the length of the body in bytes. */
  lemma ExtractedOrdered(body: string)
    ensures Ordered(Extracted(body), Utf8Len(body))
  {
    var hs := HeadingsFrom(body, 0);
    HeadingsInside(body, 0);
    StartsIncrease(body);
    TakeAll(body);
    forall i | 0 <= i < |hs| ensures Extracted(body)[i].start < Utf8Len(body)
    {
      BytesGrow(body, hs[i].start, |body|);
    }
    forall i, j | 0 <= i < j < |hs| ensures Extracted(body)[i].start < Extracted(body)[j].start
    {
      BytesGrow(body, hs[i].start, hs[j].start);
    }
  }

  lemma StartsIncrease(body: string)
    ensures Ordered(HeadingsFrom(body, 0), |body|)
  {
    HeadingsAreLines(body, 0);
    forall h | LineIn(body)(h) ensures h.start < h.end <= |body| { LineInside(body, h); }
    InOrderOrdered(LineIn(body), HeadingsFrom(body, 0), |body|);
  }

  lemma LineInside(body: string, h: Heading)
    requires LineIn(body)(h)
    ensures h.start < h.end <= |body|
  {
  }

  lemma InOrderOrdered(isLine: Heading -> bool, hs: seq<Heading>, len: nat)
    requires InOrder(isLine, 0, hs) && forall h :: isLine(h) ==> h.start < h.end <= len
    ensures Ordered(hs, len)
  {
    assert forall i :: 0 <= i < |hs| ==> hs[i] in hs && isLine(hs[i]);
  }
}
