/** String helpers of the Rust standard library, and crates/treedx_graph/src/ids/mod.rs. */
module Text {
  import opened Wrappers

  /** `char::is_whitespace`: the Unicode White_Space property. */
  predicate IsWhitespace(c: char)
  {
    var n := c as int;
    || 0x9 <= n <= 0xD || n == 0x20 || n == 0x85 || n == 0xA0 || n == 0x1680
    || 0x2000 <= n <= 0x200A || n == 0x2028 || n == 0x2029 || n == 0x202F || n == 0x205F || n == 0x3000
  }

  function TrimStart(s: string): string
  {
    if s != "" && IsWhitespace(s[0]) then TrimStart(s[1..]) else s
  }

  function TrimEnd(s: string): string
  {
    if s != "" && IsWhitespace(s[|s| - 1]) then TrimEnd(s[..|s| - 1]) else s
  }

  function Trim(s: string): string
  {
    TrimEnd(TrimStart(s))
  }

  /** No whitespace at either end. */
  predicate Trimmed(s: string)
  {
    s == "" || (!IsWhitespace(s[0]) && !IsWhitespace(s[|s| - 1]))
  }

  lemma {:induction false} TrimEndKeeps(s: string)
    ensures TrimEnd(s) <= s
    ensures TrimEnd(s) != "" ==> !IsWhitespace(TrimEnd(s)[|TrimEnd(s)| - 1])
  {
    if s != "" && IsWhitespace(s[|s| - 1]) { TrimEndKeeps(s[..|s| - 1]); }
  }

  lemma {:induction false} TrimStartKeeps(s: string)
    ensures |TrimStart(s)| <= |s| && s[|s| - |TrimStart(s)|..] == TrimStart(s)
    ensures TrimStart(s) != "" ==> !IsWhitespace(TrimStart(s)[0])
  {
    if s != "" && IsWhitespace(s[0]) { TrimStartKeeps(s[1..]); }
  }

  lemma TrimTrims(s: string)
    ensures Trimmed(Trim(s)) && |Trim(s)| <= |s|
  {
    TrimStartKeeps(s);
    TrimEndKeeps(TrimStart(s));
  }

  predicate Blank(s: string)
  {
    forall c :: c in s ==> IsWhitespace(c)
  }

  lemma {:induction false} TrimEndCuts(s: string)
    ensures TrimEnd(s) <= s && Blank(s[|TrimEnd(s)|..])
  {
    if s != "" && IsWhitespace(s[|s| - 1]) {
      var init := s[..|s| - 1];
      TrimEndCuts(init);
      var cut := |TrimEnd(init)|;
      assert s[cut..] == init[cut..] + [s[|s| - 1]];
    } else {
      assert s[|s|..] == "";
    }
  }

  lemma {:induction false} TrimStartCuts(s: string)
    ensures |TrimStart(s)| <= |s| && Blank(s[..|s| - |TrimStart(s)|])
  {
    if s != "" && IsWhitespace(s[0]) {
      TrimStartCuts(s[1..]);
      var cut := |s| - |TrimStart(s)|;
      assert s[..cut] == [s[0]] + s[1..][..cut - 1];
    }
  }

  /** Trimming cuts whitespace off both ends and nothing else. */
  lemma TrimExact(s: string) returns (before: string, after: string)
    ensures s == before + Trim(s) + after && Blank(before) && Blank(after) && Trimmed(Trim(s))
  {
    TrimTrims(s);
    TrimStartKeeps(s);
    TrimStartCuts(s);
    TrimEndCuts(TrimStart(s));
    var cut := |s| - |TrimStart(s)|;
    before, after := s[..cut], TrimStart(s)[|Trim(s)|..];
    assert s == s[..cut] + TrimStart(s);
  }

  /** Whatever whitespace is put around trimmed text, trimming takes it off again. */
  lemma TrimAround(before: string, text: string, after: string)
    requires Blank(before) && Blank(after) && Trimmed(text)
    ensures Trim(before + text + after) == text
  {
    TrimStartAround(before, text + after);
    assert before + text + after == before + (text + after);
    if text == "" {
      TrimStartAround(after, "");
      assert "" + after == after && after + "" == after;
    } else {
      assert (text + after)[0] == text[0];
      TrimEndAround(text, after);
    }
  }

  lemma {:induction false} TrimStartAround(before: string, rest: string)
    requires Blank(before)
    ensures TrimStart(before + rest) == TrimStart(rest)
  {
    if before == "" {
      assert before + rest == rest;
    } else {
      assert before[0] in before && forall c :: c in before[1..] ==> c in before;
      assert (before + rest)[1..] == before[1..] + rest;
      TrimStartAround(before[1..], rest);
    }
  }

  lemma {:induction false} TrimEndAround(text: string, after: string)
    requires Blank(after)
    ensures TrimEnd(text + after) == TrimEnd(text)
  {
    if after == "" {
      assert text + after == text;
    } else {
      var init := after[..|after| - 1];
      assert after[|after| - 1] in after && forall c :: c in init ==> c in after;
      assert (text + after)[..|text + after| - 1] == text + init;
      TrimEndAround(text, init);
    }
  }

  lemma TrimFixed(s: string)
    requires Trimmed(s)
    ensures Trim(s) == s
  {
  }

  function Join(parts: seq<string>, sep: string): string
  {
    if parts == [] then "" else if |parts| == 1 then parts[0] else parts[0] + sep + Join(parts[1..], sep)
  }

  /** `split_once` on a character. */
  function SplitOnce(s: string, c: char): Option<(string, string)>
  {
    if s == "" then None
    else if s[0] == c then Some(("", s[1..]))
    else
      match SplitOnce(s[1..], c)
      case None => None
      case Some(parts) => Some(([s[0]] + parts.0, parts.1))
  }

  /** `split` on a character. */
  function Split(s: string, c: char): seq<string>
    decreases |s|
  {
    match SplitOnce(s, c)
    case None => [s]
    case Some(parts) => SplitShorter(s, c); [parts.0] + Split(parts.1, c)
  }

  lemma {:induction false} SplitShorter(s: string, c: char)
    ensures SplitOnce(s, c).Some? ==> |SplitOnce(s, c).value.1| < |s|
  {
    if s != "" && s[0] != c { SplitShorter(s[1..], c); }
  }

  lemma {:induction false} SplitOnceAt(a: string, c: char, b: string)
    requires c !in a
    ensures SplitOnce(a + [c] + b, c) == Some((a, b))
  {
    var s := a + [c] + b;
    if a != "" {
      assert s[1..] == a[1..] + [c] + b;
      SplitOnceAt(a[1..], c, b);
      assert [a[0]] + a[1..] == a;
    }
  }

  lemma {:induction false} SplitOnceNone(s: string, c: char)
    requires c !in s
    ensures SplitOnce(s, c) == None
  {
    if s != "" { SplitOnceNone(s[1..], c); }
  }

  /** Parts that are joined by a character none of them holds can be split again. */
  lemma {:induction false} SplitJoin(parts: seq<string>, c: char)
    requires parts != [] && forall p :: p in parts ==> c !in p
    ensures Split(Join(parts, [c]), c) == parts
  {
    if |parts| == 1 {
      SplitOnceNone(parts[0], c);
    } else {
      SplitOnceAt(parts[0], c, Join(parts[1..], [c]));
      SplitJoin(parts[1..], c);
      assert parts == [parts[0]] + parts[1..];
    }
  }

  // ---------------------------------------------------------------- bytes

  function CharBytes(c: char): nat
  {
    var n := c as int;
    if n < 0x80 then 1 else if n < 0x800 then 2 else if n < 0x10000 then 3 else 4
  }

  /** `str::len`, the length in UTF-8. */
  function Utf8Len(s: string): nat
  {
    if s == "" then 0 else Utf8Len(s[..|s| - 1]) + CharBytes(s[|s| - 1])
  }

  lemma {:induction false} Utf8LenAtLeast(s: string)
    ensures |s| <= Utf8Len(s) <= 4 * |s|
  {
    if s != "" { Utf8LenAtLeast(s[..|s| - 1]); }
  }

  lemma {:induction false} Utf8LenConcat(a: string, b: string)
    ensures Utf8Len(a + b) == Utf8Len(a) + Utf8Len(b)
  {
    if b == "" {
      assert a + b == a;
    } else {
      var init := b[..|b| - 1];
      assert (a + b)[..|a + b| - 1] == a + init;
      Utf8LenConcat(a, init);
    }
  }

  // ---------------------------------------------------------------- numbers

  function Digit(d: nat): char
    requires d < 10
  {
    ("0123456789")[d]
  }

  /** `{}` on an unsigned integer. */
  function Decimal(n: nat): (s: string)
    ensures s != ""
  {
    if n < 10 then [Digit(n)] else Decimal(n / 10) + [Digit(n % 10)]
  }

  predicate IsDigit(c: char)
  {
    '0' <= c <= '9'
  }

  function DecimalValue(s: string): nat
    requires forall c :: c in s ==> IsDigit(c)
  {
    if s == "" then 0
    else
      assert IsDigit(s[|s| - 1]);
      DecimalValue(s[..|s| - 1]) * 10 + (s[|s| - 1] as int - '0' as int)
  }

  lemma {:induction false} DecimalReads(n: nat)
    ensures forall c :: c in Decimal(n) ==> IsDigit(c)
    ensures DecimalValue(Decimal(n)) == n
  {
    if n >= 10 {
      DecimalReads(n / 10);
      var s := Decimal(n);
      assert s[..|s| - 1] == Decimal(n / 10);
    } else {
      assert Decimal(n)[..0] == "";
    }
  }

  /** A colon cannot lie in a suffix that has none. */
  lemma ColonBefore(a: string, s: string, b: string, t: string)
    requires a + ":" + s == b + ":" + t && ':' !in t
    ensures |a| <= |b|
  {
    var y := b + ":" + t;
    assert (a + ":" + s)[|a|] == ':';
    assert forall i :: |b| < i < |y| ==> y[i] == t[i - |b| - 1] && y[i] in t;
  }

  /** The part after the last colon, and the part before it, can be read back. */
  lemma LastColonSplits(a: string, m: nat, b: string, n: nat)
    requires a + ":" + Decimal(m) == b + ":" + Decimal(n)
    ensures a == b && m == n
  {
    DecimalReads(m);
    DecimalReads(n);
    ColonBefore(a, Decimal(m), b, Decimal(n));
    ColonBefore(b, Decimal(n), a, Decimal(m));
    var x, y := a + ":" + Decimal(m), b + ":" + Decimal(n);
    assert a == x[..|a|] && b == y[..|b|];
    assert Decimal(m) == x[|a| + 1..] && Decimal(n) == y[|b| + 1..];
  }

  // ---------------------------------------------------------------- ids

  predicate IsAlnum(c: char)
  {
    '0' <= c <= '9' || 'a' <= c <= 'z' || 'A' <= c <= 'Z'
  }

  /** `to_lowercase`, on ASCII letters. */
  function Lower(c: char): char
  {
    if 'A' <= c <= 'Z' then (c as int + 32) as char else c
  }

  function Dashed(s: string): (r: string)
    ensures |r| == |s|
  {
    seq(|s|, i requires 0 <= i < |s| => if IsAlnum(Lower(s[i])) then Lower(s[i]) else '-')
  }

  /** The parts between dashes, the empty ones left out. */
  function DashParts(s: string, part: string): seq<string>
    decreases |s|
  {
    if s == "" then (if part == "" then [] else [part])
    else if s[0] == '-' then (if part == "" then [] else [part]) + DashParts(s[1..], "")
    else DashParts(s[1..], part + [s[0]])
  }

  function NormalizeIdValue(value: string): string
  {
    Join(DashParts(Dashed(Trim(value)), ""), "-")
  }

  function GroupId(group: string): string
  {
    var normalized := Trim(group);
    if "group:" <= normalized then normalized else "group:" + NormalizeIdValue(normalized)
  }

  predicate Clean(s: string)
  {
    forall c :: c in s ==> IsAlnum(c) && c != '-'
  }

  lemma {:induction false} DashPartsClean(s: string, part: string)
    requires Clean(part) && forall c :: c in s ==> IsAlnum(c) || c == '-'
    ensures forall p :: p in DashParts(s, part) ==> Clean(p) && p != ""
    decreases |s|
  {
    if s != "" {
      assert s[0] in s;
      assert forall c :: c in s[1..] ==> c in s;
      if s[0] == '-' { DashPartsClean(s[1..], ""); } else { DashPartsClean(s[1..], part + [s[0]]); }
    }
  }

  lemma {:induction false} JoinTrimmed(parts: seq<string>)
    requires forall p :: p in parts ==> Clean(p) && p != ""
    ensures Trimmed(Join(parts, "-"))
    ensures parts != [] ==> Join(parts, "-") != ""
  {
    if parts != [] {
      assert parts[0] in parts && parts[0][0] in parts[0] && parts[0][|parts[0]| - 1] in parts[0];
      if |parts| > 1 { JoinTrimmed(parts[1..]); }
    }
  }

  /** Group ids are already group ids. */
  lemma GroupIdIdempotent(group: string)
    ensures GroupId(GroupId(group)) == GroupId(group)
    ensures "group:" <= GroupId(group)
  {
    var t := Trim(group);
    TrimTrims(group);
    if "group:" <= t {
      TrimFixed(t);
    } else {
      DashPartsClean(Dashed(Trim(t)), "");
      JoinTrimmed(DashParts(Dashed(Trim(t)), ""));
      var id := GroupId(group);
      assert id[0] == 'g';
      assert Trimmed(id);
      TrimFixed(id);
    }
  }

  // ---------------------------------------------------------------- what normalisation does

  predicate AlnumWord(w: string)
  {
    w != "" && forall c :: c in w ==> IsAlnum(c)
  }

  predicate NoAlnum(s: string)
  {
    forall c :: c in s ==> !IsAlnum(c)
  }

  function Lowered(s: string): (r: string)
    ensures |r| == |s|
  {
    seq(|s|, i requires 0 <= i < |s| => Lower(s[i]))
  }

  /** Words with something after each of them. */
  function Followed(words: seq<string>, gaps: seq<string>): string
    requires |gaps| == |words|
  {
    if words == [] then "" else words[0] + gaps[0] + Followed(words[1..], gaps[1..])
  }

  function LoweredAll(words: seq<string>): (r: seq<string>)
    ensures |r| == |words|
  {
    seq(|words|, i requires 0 <= i < |words| => Lowered(words[i]))
  }

  lemma DashedConcat(a: string, b: string)
    ensures Dashed(a + b) == Dashed(a) + Dashed(b)
  {
  }

  lemma {:induction false} DashPartsWord(w: string, rest: string, part: string)
    requires '-' !in w
    ensures DashParts(w + rest, part) == DashParts(rest, part + w)
    decreases |w|
  {
    if w == "" {
      assert w + rest == rest && part + w == part;
    } else {
      assert (w + rest)[1..] == w[1..] + rest;
      assert w[0] in w && forall c :: c in w[1..] ==> c in w;
      DashPartsWord(w[1..], rest, part + [w[0]]);
      assert part + [w[0]] + w[1..] == part + w;
    }
  }

  lemma {:induction false} DashPartsDashes(dashes: string, rest: string)
    requires forall c :: c in dashes ==> c == '-'
    ensures DashParts(dashes + rest, "") == DashParts(rest, "")
    decreases |dashes|
  {
    if dashes == "" {
      assert dashes + rest == rest;
    } else {
      assert (dashes + rest)[1..] == dashes[1..] + rest;
      assert dashes[0] in dashes && forall c :: c in dashes[1..] ==> c in dashes;
      DashPartsDashes(dashes[1..], rest);
      assert [] + DashParts(dashes[1..] + rest, "") == DashParts(dashes[1..] + rest, "");
    }
  }

  lemma DashedWord(w: string)
    requires AlnumWord(w)
    ensures Dashed(w) == Lowered(w) && '-' !in Dashed(w)
  {
    forall i | 0 <= i < |w| ensures IsAlnum(Lower(w[i])) && Dashed(w)[i] == Lower(w[i]) != '-' { assert w[i] in w; }
  }

  lemma DashedGap(g: string)
    requires NoAlnum(g)
    ensures forall c :: c in Dashed(g) ==> c == '-'
  {
    forall i | 0 <= i < |g| ensures Dashed(g)[i] == '-' { assert g[i] in g; }
  }

  lemma DashPartsOne(w: string, g: string, rest: string)
    requires AlnumWord(w) && NoAlnum(g) && (g == "" ==> rest == "")
    ensures DashParts(Dashed(w + g) + rest, "") == [Lowered(w)] + DashParts(rest, "")
  {
    DashedConcat(w, g);
    DashedWord(w);
    DashedGap(g);
    var word, dashes := Lowered(w), Dashed(g);
    assert Dashed(w + g) + rest == word + (dashes + rest);
    DashPartsWord(word, dashes + rest, "");
    assert "" + word == word;
    if g != "" {
      assert dashes[0] in dashes;
      assert (dashes + rest)[1..] == dashes[1..] + rest;
      assert forall c :: c in dashes[1..] ==> c in dashes;
      DashPartsDashes(dashes[1..], rest);
    } else {
      assert dashes + rest == "";
    }
  }

  lemma {:induction false} DashPartsAll(words: seq<string>, gaps: seq<string>)
    requires |gaps| == |words| && (forall w :: w in words ==> AlnumWord(w)) && (forall g :: g in gaps ==> NoAlnum(g))
    requires forall i :: 0 <= i < |gaps| - 1 ==> gaps[i] != ""
    ensures DashParts(Dashed(Followed(words, gaps)), "") == LoweredAll(words)
    decreases |words|
  {
    if words == [] {
      assert Dashed("") == "";
    } else {
      var rest := Followed(words[1..], gaps[1..]);
      assert words[0] in words && gaps[0] in gaps;
      assert forall w :: w in words[1..] ==> w in words;
      assert forall g :: g in gaps[1..] ==> g in gaps;
      DashPartsAll(words[1..], gaps[1..]);
      DashedConcat(words[0] + gaps[0], rest);
      DashPartsOne(words[0], gaps[0], Dashed(rest));
      assert LoweredAll(words) == [Lowered(words[0])] + LoweredAll(words[1..]);
    }
  }

  lemma DashPartsFront(front: string, rest: string)
    requires NoAlnum(front)
    ensures DashParts(Dashed(front + rest), "") == DashParts(Dashed(rest), "")
  {
    DashedConcat(front, rest);
    DashedGap(front);
    DashPartsDashes(Dashed(front), Dashed(rest));
  }

  lemma {:induction false} DashPartsBack(s: string, back: string, part: string)
    requires forall c :: c in back ==> c == '-'
    ensures DashParts(s + back, part) == DashParts(s, part)
    decreases |s|
  {
    if s == "" {
      assert s + back == back;
      if back != "" {
        assert back[0] in back && forall c :: c in back[1..] ==> c in back;
        assert back[1..] + "" == back[1..];
        DashPartsDashes(back[1..], "");
      }
    } else {
      assert (s + back)[1..] == s[1..] + back;
      if s[0] == '-' { DashPartsBack(s[1..], back, ""); } else { DashPartsBack(s[1..], back, part + [s[0]]); }
    }
  }

  lemma TrimKeepsParts(s: string)
    ensures DashParts(Dashed(Trim(s)), "") == DashParts(Dashed(s), "")
  {
    var before, after := TrimExact(s);
    BlankHasNoAlnum(before);
    BlankHasNoAlnum(after);
    assert s == before + (Trim(s) + after);
    DashPartsFront(before, Trim(s) + after);
    DashedConcat(Trim(s), after);
    DashedGap(after);
    DashPartsBack(Dashed(Trim(s)), Dashed(after), "");
  }

  lemma BlankHasNoAlnum(s: string)
    requires Blank(s)
    ensures NoAlnum(s)
  {
  }

  /** Normalisation takes the runs of letters and digits, in lower case, and joins them with single dashes, whatever
      else lies between and around them. */
  lemma NormalizeReads(front: string, words: seq<string>, gaps: seq<string>)
    requires NoAlnum(front) && |gaps| == |words|
    requires (forall w :: w in words ==> AlnumWord(w)) && (forall g :: g in gaps ==> NoAlnum(g))
    requires forall i :: 0 <= i < |gaps| - 1 ==> gaps[i] != ""
    ensures NormalizeIdValue(front + Followed(words, gaps)) == Join(LoweredAll(words), "-")
  {
    TrimKeepsParts(front + Followed(words, gaps));
    DashPartsFront(front, Followed(words, gaps));
    DashPartsAll(words, gaps);
  }

  /** A group that is not an id yet gets the prefix and is normalised; one that is an id is kept, but for whitespace
      around it. */
  lemma GroupIdReads(group: string)
    ensures !("group:" <= Trim(group)) ==> GroupId(group) == "group:" + NormalizeIdValue(group)
    ensures forall before, name, after :: Blank(before) && Blank(after) && Trimmed("group:" + name) ==>
              GroupId(before + ("group:" + name) + after) == "group:" + name
  {
    TrimKeepsParts(group);
    TrimKeepsParts(Trim(group));
    forall before, name, after | Blank(before) && Blank(after) && Trimmed("group:" + name)
      ensures GroupId(before + ("group:" + name) + after) == "group:" + name
    {
      TrimAround(before, "group:" + name, after);
    }
  }
}
