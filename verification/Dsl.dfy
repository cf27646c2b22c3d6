/** The parser of ctx queries in crates/treedx_graph/src/dsl/mod.rs. */
module Dsl {
  import opened Wrappers
  import opened Text

  datatype Seed = Seed(kind: string, value: string)

  datatype Condition = Condition(field: string, expected: string)

  /** The JSON object of a query; the members that only a clause adds are options. */
  datatype Query = Query(
    focus: string, relations: seq<string>, view: string,
    depth: nat, limit: nat, maxNodes: nat, seed: Seed,
    scopePaths: Option<seq<string>>, conditions: Option<seq<Condition>>,
    budgetNodes: Option<nat>, budgetTokens: Option<nat>)

  datatype Problem = EmptyQuery | NotCtx | NoTarget | NeedsValue(key: string) | UnknownClause(key: string)

  datatype Parsed = Parsed(ok: bool, query: Option<Query>, errors: seq<Problem>)

  // ---------------------------------------------------------------- tokens

  datatype Scan = Scan(tokens: seq<string>, current: string, quote: Option<char>)

  const START_SCAN: Scan := Scan([], "", None)

  function Flushed(st: Scan): Scan
  {
    if Trim(st.current) != "" then st.(tokens := st.tokens + [Trim(st.current)], current := "") else st
  }

  function ScanChar(st: Scan, ch: char): Scan
  {
    if st.quote.Some? then
      if ch == st.quote.value then Scan(st.tokens + [st.current], "", None)
      else st.(current := st.current + [ch])
    else if ch == '"' || ch == '\'' then Flushed(st).(quote := Some(ch))
    else if IsWhitespace(ch) then Flushed(st)
    else st.(current := st.current + [ch])
  }

  function ScanFrom(st: Scan, text: string): Scan
    decreases |text|
  {
    if text == "" then st else ScanFrom(ScanChar(st, text[0]), text[1..])
  }

  function Tokens(source: string): seq<string>
  {
    Flushed(ScanFrom(START_SCAN, Trim(source))).tokens
  }

  method Tokenize(source: string) returns (tokens: seq<string>)
    ensures tokens == Tokens(source)
  {
    tokens := [];
    var current := "";
    var quote: Option<char> := None;
    var text := Trim(source);
    var i := 0;
    while i < |text|
      invariant 0 <= i <= |text|
      invariant ScanFrom(Scan(tokens, current, quote), text[i..]) == ScanFrom(START_SCAN, text)
    {
      var ch := text[i];
      assert text[i..][1..] == text[i + 1..];
      if quote.Some? {
        if ch == quote.value {
          tokens, current, quote := tokens + [current], "", None;
        } else {
          current := current + [ch];
        }
      } else if ch == '"' || ch == '\'' {
        if Trim(current) != "" { tokens, current := tokens + [Trim(current)], ""; }
        quote := Some(ch);
      } else if IsWhitespace(ch) {
        if Trim(current) != "" { tokens, current := tokens + [Trim(current)], ""; }
      } else {
        current := current + [ch];
      }
      i := i + 1;
    }
    if Trim(current) != "" { tokens := tokens + [Trim(current)]; }
  }

  // ---------------------------------------------------------------- every token list that can be written, and how

  /** One of the two quotes is free to enclose the token. */
  predicate Quotable(token: string)
  {
    '"' !in token || '\'' !in token
  }

  function QuoteOf(token: string): char
  {
    if '"' !in token then '"' else '\''
  }

  function Quoted(token: string): string
  {
    [QuoteOf(token)] + token + [QuoteOf(token)]
  }

  /** The tokens as source text, each in quotes. */
  function Rendered(tokens: seq<string>): string
  {
    if tokens == [] then ""
    else Quoted(tokens[0]) + (if |tokens| == 1 then "" else " " + Rendered(tokens[1..]))
  }

  lemma {:induction false} ScanAppend(st: Scan, a: string, b: string)
    ensures ScanFrom(st, a + b) == ScanFrom(ScanFrom(st, a), b)
    decreases |a|
  {
    if a == "" {
      assert a + b == b;
    } else {
      assert (a + b)[1..] == a[1..] + b;
      ScanAppend(ScanChar(st, a[0]), a[1..], b);
    }
  }

  lemma {:induction false} ScanInside(st: Scan, text: string)
    requires st.quote.Some? && st.quote.value !in text
    ensures ScanFrom(st, text) == st.(current := st.current + text)
    decreases |text|
  {
    if text != "" {
      ScanInside(ScanChar(st, text[0]), text[1..]);
      assert st.current + [text[0]] + text[1..] == st.current + text;
    } else {
      assert st.current + text == st.current;
    }
  }

  lemma ScanQuoted(tokens: seq<string>, token: string)
    requires Quotable(token)
    ensures ScanFrom(Scan(tokens, "", None), Quoted(token)) == Scan(tokens + [token], "", None)
  {
    var q := [QuoteOf(token)];
    var start := Scan(tokens, "", None);
    var inside := ScanFrom(start, q);
    assert q[1..] == "" && inside == ScanFrom(ScanChar(start, q[0]), q[1..]);
    assert inside == Scan(tokens, "", Some(QuoteOf(token)));
    ScanInside(inside, token);
    ScanAppend(start, q, token);
    ScanAppend(start, q + token, q);
    assert "" + token == token;
  }

  lemma {:induction false} ScanRendered(done: seq<string>, tokens: seq<string>)
    requires forall t :: t in tokens ==> Quotable(t)
    ensures ScanFrom(Scan(done, "", None), Rendered(tokens)) == Scan(done + tokens, "", None)
    decreases |tokens|
  {
    if tokens == [] {
      assert done + tokens == done;
    } else {
      ScanQuoted(done, tokens[0]);
      assert tokens == [tokens[0]] + tokens[1..];
      assert done + tokens == done + [tokens[0]] + tokens[1..];
      if |tokens| > 1 {
        var start := Scan(done, "", None);
        var rest := Rendered(tokens[1..]);
        ScanAppend(start, Quoted(tokens[0]), " " + rest);
        ScanAppend(Scan(done + [tokens[0]], "", None), " ", rest);
        ScanRendered(done + [tokens[0]], tokens[1..]);
      } else {
        assert tokens[1..] == [];
        assert Quoted(tokens[0]) + "" == Quoted(tokens[0]);
      }
    }
  }

  lemma {:induction false} RenderedTrimmed(tokens: seq<string>)
    ensures Trimmed(Rendered(tokens))
    ensures tokens != [] ==> Rendered(tokens) != ""
  {
    if |tokens| > 1 { RenderedTrimmed(tokens[1..]); }
  }

  /** Quoting is undone by the tokenizer. */
  lemma RenderedRoundTrip(tokens: seq<string>)
    requires forall t :: t in tokens ==> Quotable(t)
    ensures Tokens(Rendered(tokens)) == tokens
  {
    RenderedTrimmed(tokens);
    TrimFixed(Rendered(tokens));
    ScanRendered([], tokens);
    assert [] + tokens == tokens;
  }

  ghost predicate ScanKept(st: Scan)
  {
    && (forall t :: t in st.tokens ==> Quotable(t))
    && (st.quote.None? ==> '"' !in st.current && '\'' !in st.current)
    && (st.quote.Some? ==> st.quote.value in ['"', '\''] && st.quote.value !in st.current)
  }

  lemma TrimMembers(s: string)
    ensures forall c :: c in Trim(s) ==> c in s
  {
    TrimStartKeeps(s);
    TrimEndKeeps(TrimStart(s));
  }

  lemma {:induction false} ScanKeeps(st: Scan, text: string)
    requires ScanKept(st)
    ensures ScanKept(ScanFrom(st, text))
    decreases |text|
  {
    if text != "" {
      TrimMembers(st.current);
      ScanKeeps(ScanChar(st, text[0]), text[1..]);
    }
  }

  /** The token lists some source has are exactly those whose every token can be quoted. */
  lemma TokenListsIff(tokens: seq<string>)
    ensures (exists source :: Tokens(source) == tokens) <==> (forall t :: t in tokens ==> Quotable(t))
  {
    if source :| Tokens(source) == tokens {
      ScanKeeps(START_SCAN, Trim(source));
      TrimMembers(ScanFrom(START_SCAN, Trim(source)).current);
    }
    if forall t :: t in tokens ==> Quotable(t) { RenderedRoundTrip(tokens); }
  }

  // ---------------------------------------------------------------- plain words

  predicate Word(w: string)
  {
    w != "" && forall c :: c in w ==> !IsWhitespace(c) && c != '"' && c != '\''
  }

  predicate Gap(g: string)
  {
    g != "" && forall c :: c in g ==> IsWhitespace(c)
  }

  /** Words with a gap after each but the last. */
  function Spaced(words: seq<string>, gaps: seq<string>): string
    requires |gaps| == |words|
  {
    if words == [] then ""
    else words[0] + (if |words| == 1 then "" else gaps[0] + Spaced(words[1..], gaps[1..]))
  }

  lemma {:induction false} ScanWord(st: Scan, w: string)
    requires st.quote.None? && forall c :: c in w ==> !IsWhitespace(c) && c != '"' && c != '\''
    ensures ScanFrom(st, w) == st.(current := st.current + w)
    decreases |w|
  {
    if w == "" {
      assert st.current + w == st.current;
    } else {
      assert w[0] in w && forall c :: c in w[1..] ==> c in w;
      ScanWord(ScanChar(st, w[0]), w[1..]);
      assert st.current + [w[0]] + w[1..] == st.current + w;
    }
  }

  lemma {:induction false} ScanSpaces(st: Scan, g: string)
    requires st.quote.None? && st.current == "" && forall c :: c in g ==> IsWhitespace(c)
    ensures ScanFrom(st, g) == st
    decreases |g|
  {
    if g != "" {
      assert g[0] in g && forall c :: c in g[1..] ==> c in g;
      ScanSpaces(st, g[1..]);
    }
  }

  lemma WordFlushed(tokens: seq<string>, w: string)
    requires Word(w)
    ensures Flushed(Scan(tokens, w, None)) == Scan(tokens + [w], "", None)
  {
    assert w[0] in w && w[|w| - 1] in w;
    TrimFixed(w);
  }

  lemma ScanGap(tokens: seq<string>, w: string, g: string)
    requires Word(w) && Gap(g)
    ensures ScanFrom(Scan(tokens, w, None), g) == Scan(tokens + [w], "", None)
  {
    assert g[0] in g && forall c :: c in g[1..] ==> c in g;
    assert !IsWhitespace('"') && !IsWhitespace('\'');
    WordFlushed(tokens, w);
    ScanSpaces(Scan(tokens + [w], "", None), g[1..]);
  }

  lemma ScanWordGap(done: seq<string>, w: string, g: string, rest: string)
    requires Word(w) && Gap(g)
    ensures ScanFrom(Scan(done, "", None), w + (g + rest)) == ScanFrom(Scan(done + [w], "", None), rest)
  {
    var start := Scan(done, "", None);
    ScanWord(start, w);
    assert "" + w == w;
    ScanAppend(start, w, g + rest);
    ScanAppend(Scan(done, w, None), g, rest);
    ScanGap(done, w, g);
  }

  lemma ScanLast(done: seq<string>, w: string)
    requires Word(w)
    ensures Flushed(ScanFrom(Scan(done, "", None), w)) == Scan(done + [w], "", None)
  {
    ScanWord(Scan(done, "", None), w);
    assert "" + w == w;
    WordFlushed(done, w);
  }

  lemma {:induction false} ScanSpaced(done: seq<string>, words: seq<string>, gaps: seq<string>)
    requires |gaps| == |words| && words != []
    requires (forall w :: w in words ==> Word(w)) && (forall g :: g in gaps ==> Gap(g))
    ensures Flushed(ScanFrom(Scan(done, "", None), Spaced(words, gaps))) == Scan(done + words, "", None)
    decreases |words|
  {
    assert words[0] in words && gaps[0] in gaps;
    assert words == [words[0]] + words[1..];
    if |words| == 1 {
      ScanLast(done, words[0]);
      assert Spaced(words, gaps) == words[0];
    } else {
      ScanWordGap(done, words[0], gaps[0], Spaced(words[1..], gaps[1..]));
      ScanSpaced(done + [words[0]], words[1..], gaps[1..]);
      assert done + words == done + [words[0]] + words[1..];
    }
  }

  lemma {:induction false} SpacedTrimmed(words: seq<string>, gaps: seq<string>)
    requires |gaps| == |words| && forall w :: w in words ==> Word(w)
    ensures Trimmed(Spaced(words, gaps))
    ensures words != [] ==> Spaced(words, gaps) != ""
    decreases |words|
  {
    if words != [] {
      var w := words[0];
      assert w in words && w[0] in w && w[|w| - 1] in w;
      SpacedTrimmed(words[1..], gaps[1..]);
    }
  }

  /** Words without quotes, whatever whitespace is between them, are their own tokens. */
  lemma WordsAreTokens(words: seq<string>, gaps: seq<string>)
    requires |gaps| == |words|
    requires (forall w :: w in words ==> Word(w)) && (forall g :: g in gaps ==> Gap(g))
    ensures Tokens(Spaced(words, gaps)) == words
  {
    SpacedTrimmed(words, gaps);
    TrimFixed(Spaced(words, gaps));
    if words != [] {
      ScanSpaced([], words, gaps);
      assert [] + words == words;
    }
  }

  // ---------------------------------------------------------------- clauses

  datatype Keyword = For | In | Via | Depth | Where | Limit | Budget | As

  const KEYWORDS: map<string, Keyword> :=
    map["for" := For, "in" := In, "via" := Via, "depth" := Depth,
        "where" := Where, "limit" := Limit, "budget" := Budget, "as" := As]

  predicate Clause(token: string)
  {
    token in KEYWORDS
  }

  /** A clause keyword and the tokens up to the next one. */
  datatype Group = Group(key: string, body: seq<string>)

  predicate NoClause(tokens: seq<string>)
  {
    forall t :: t in tokens ==> !Clause(t)
  }

  /** The number of tokens before the first keyword. */
  function Before(tokens: seq<string>): (n: nat)
    ensures n <= |tokens| && NoClause(tokens[..n])
    ensures n < |tokens| ==> Clause(tokens[n])
  {
    if tokens == [] || Clause(tokens[0]) then 0
    else
      var n := 1 + Before(tokens[1..]);
      assert tokens[..n] == [tokens[0]] + tokens[1..][..n - 1];
      n
  }

  function Grouped(tokens: seq<string>): seq<Group>
    decreases |tokens|
  {
    if tokens == [] then []
    else
      var n := 1 + Before(tokens[1..]);
      [Group(tokens[0], tokens[1..n])] + Grouped(tokens[n..])
  }

  function Flattened(groups: seq<Group>): seq<string>
  {
    if groups == [] then [] else [groups[0].key] + groups[0].body + Flattened(groups[1..])
  }

  predicate WellGrouped(groups: seq<Group>)
  {
    groups == [] || (Clause(groups[0].key) && NoClause(groups[0].body) && WellGrouped(groups[1..]))
  }

  lemma {:induction false} GroupedPartitions(tokens: seq<string>)
    ensures Flattened(Grouped(tokens)) == tokens
    ensures tokens == [] || Clause(tokens[0]) ==> WellGrouped(Grouped(tokens))
    decreases |tokens|
  {
    if tokens != [] {
      var n := 1 + Before(tokens[1..]);
      assert tokens[1..n] == tokens[1..][..n - 1];
      assert tokens == [tokens[0]] + tokens[1..n] + tokens[n..];
      GroupedPartitions(tokens[n..]);
    }
  }

  lemma {:induction false} BeforeIs(body: seq<string>, rest: seq<string>)
    requires NoClause(body) && (rest == [] || Clause(rest[0]))
    ensures Before(body + rest) == |body|
  {
    if body == [] {
      assert body + rest == rest;
    } else {
      assert (body + rest)[1..] == body[1..] + rest;
      BeforeIs(body[1..], rest);
    }
  }

  /** A keyword, a keyword-free body and what follows it group as that keyword and body first. */
  lemma GroupedHead(g: Group, rest: seq<string>)
    requires NoClause(g.body) && (rest == [] || Clause(rest[0]))
    ensures Grouped([g.key] + g.body + rest) == [g] + Grouped(rest)
  {
    var tokens := [g.key] + g.body + rest;
    var n := 1 + |g.body|;
    assert tokens[1..] == g.body + rest;
    BeforeIs(g.body, rest);
    assert tokens[1..n] == g.body && tokens[n..] == rest;
  }

  lemma FlattenedStart(groups: seq<Group>)
    requires WellGrouped(groups)
    ensures Flattened(groups) == [] || Clause(Flattened(groups)[0])
  {
  }

  lemma {:induction false} GroupingUnique(groups: seq<Group>)
    requires WellGrouped(groups)
    ensures Grouped(Flattened(groups)) == groups
  {
    if groups != [] {
      FlattenedStart(groups[1..]);
      GroupedHead(groups[0], Flattened(groups[1..]));
      GroupingUnique(groups[1..]);
    }
  }

  /** The clause loop cuts a keyword-led token list into groups of a keyword and a keyword-free body,
      and there is only one way to do that. */
  lemma ClausesPartition(tokens: seq<string>, groups: seq<Group>)
    requires tokens == [] || Clause(tokens[0])
    ensures groups == Grouped(tokens) <==> WellGrouped(groups) && Flattened(groups) == tokens
  {
    GroupedPartitions(tokens);
    if WellGrouped(groups) { GroupingUnique(groups); }
  }

  // ---------------------------------------------------------------- values

  function Parts(parts: seq<string>): seq<string>
  {
    if parts == [] then []
    else (if Trim(parts[0]) == "" then [] else [Trim(parts[0])]) + Parts(parts[1..])
  }

  /** `parse::<u32>()`: an optional plus sign and digits. */
  function ParseU32(s: string): Option<nat>
  {
    var digits := if s != "" && s[0] == '+' then s[1..] else s;
    if digits == "" || !(forall c :: c in digits ==> IsDigit(c)) then None
    else if DecimalValue(digits) >= 0x1_0000_0000 then None
    else Some(DecimalValue(digits))
  }

  function Or<T>(x: Option<T>, default: T): T
  {
    if x.Some? then x.value else default
  }

  function SeedOf(value: string): Seed
  {
    if "@" <= value then Seed("id", value[1..])
    else if "/" <= value then Seed("path", value)
    else if "#" <= value then Seed("tag", value[1..])
    else if "%" <= value then Seed("type", value[1..])
    else Seed("query", value)
  }

  function ParseWhere(value: string): seq<Condition>
  {
    match SplitOnce(value, '=')
    case None => []
    case Some(parts) => [Condition(Trim(parts.0), Trim(parts.1))]
  }

  function Value(group: Group): string
  {
    Join(group.body, " ")
  }

  lemma JoinEmptyIff(parts: seq<string>)
    ensures Join(parts, " ") == "" <==> parts == [] || parts == [""]
  {
  }

  // ---------------------------------------------------------------- building

  datatype Building = Building(query: Query, errors: seq<Problem>)

  function StartQuery(target: seq<string>): Query
  {
    Query("plan", ["related", "references"], "brief", 1, 8, 8, SeedOf(Join(target, " ")), None, None, None, None)
  }

  /** What a clause of a keyword writes into the query. */
  function Set(q: Query, key: Keyword, v: string): Query
  {
    match key
    case For => q.(focus := v)
    case In => q.(scopePaths := Some(Parts(Split(v, '+'))))
    case Via => q.(relations := Parts(Split(v, ',')))
    case Depth => q.(depth := Or(ParseU32(v), 1))
    case Limit =>
      var limit := Or(ParseU32(v), 1);
      q.(limit := limit, maxNodes := limit, budgetNodes := Some(Or(ParseU32(v), 8)))
    case Budget => q.(budgetTokens := Some(Or(ParseU32(v), 1800)))
    case As => q.(view := v)
    case Where => q.(conditions := Some(ParseWhere(v)))
  }

  function BuildStep(b: Building, group: Group): Building
  {
    if Value(group) == "" then b.(errors := b.errors + [NeedsValue(group.key)])
    else if Clause(group.key) then b.(query := Set(b.query, KEYWORDS[group.key], Value(group)))
    else b.(errors := b.errors + [UnknownClause(group.key)])
  }

  function BuildAll(b: Building, groups: seq<Group>): Building
    decreases |groups|
  {
    if groups == [] then b else BuildAll(BuildStep(b, groups[0]), groups[1..])
  }

  function Built(target: seq<string>, clauses: seq<string>): Parsed
  {
    if target == [] then Parsed(false, None, [NoTarget])
    else
      var b := BuildAll(Building(StartQuery(target), []), Grouped(clauses));
      Parsed(b.errors == [], if b.errors == [] then Some(b.query) else None, b.errors)
  }

  /** The first keyword at or after a position, or the end. */
  method FindClause(tokens: seq<string>, start: nat) returns (k: nat)
    requires start <= |tokens|
    ensures k == start + Before(tokens[start..])
  {
    k := start;
    while k < |tokens| && !Clause(tokens[k])
      invariant start <= k <= |tokens|
      invariant start + Before(tokens[start..]) == k + Before(tokens[k..])
    {
      assert tokens[k..][1..] == tokens[k + 1..];
      k := k + 1;
    }
  }

  method Build(target: seq<string>, clauses: seq<string>) returns (r: Parsed)
    ensures r == Built(target, clauses)
  {
    if target == [] { return Parsed(false, None, [NoTarget]); }
    var query := StartQuery(target);
    var errors := [];
    var index := 0;
    assert clauses[0..] == clauses;
    while index < |clauses|
      invariant 0 <= index <= |clauses|
      invariant BuildAll(Building(query, errors), Grouped(clauses[index..]))
             == BuildAll(Building(StartQuery(target), []), Grouped(clauses))
    {
      var key := clauses[index];
      var next := FindClause(clauses, index + 1);
      var value := Join(clauses[index + 1..next], " ");
      GroupedFirst(clauses, index, next);
      if value == "" {
        errors := errors + [NeedsValue(key)];
        index := next;
        continue;
      }
      var known;
      query, known := SetClause(query, key, value);
      if !known { errors := errors + [UnknownClause(key)]; }
      index := next;
    }
    r := Parsed(errors == [], if errors == [] then Some(query) else None, errors);
  }

  /** The `match` on the keyword. */
  method SetClause(q: Query, key: string, value: string) returns (query: Query, known: bool)
    ensures known == Clause(key)
    ensures query == if Clause(key) then Set(q, KEYWORDS[key], value) else q
  {
    query, known := q, true;
    match key {
      case "for" => query := query.(focus := value);
      case "in" => query := query.(scopePaths := Some(Parts(Split(value, '+'))));
      case "via" => query := query.(relations := Parts(Split(value, ',')));
      case "depth" => query := query.(depth := Or(ParseU32(value), 1));
      case "limit" =>
        query := query.(limit := Or(ParseU32(value), 1));
        query := query.(maxNodes := Or(ParseU32(value), 1));
        query := query.(budgetNodes := Some(Or(ParseU32(value), 8)));
      case "budget" => query := query.(budgetTokens := Some(Or(ParseU32(value), 1800)));
      case "as" => query := query.(view := value);
      case "where" => query := query.(conditions := Some(ParseWhere(value)));
      case _ => known := false;
    }
  }

  lemma GroupedFirst(tokens: seq<string>, index: nat, next: nat)
    requires index < |tokens| && next == index + 1 + Before(tokens[index + 1..])
    ensures Grouped(tokens[index..]) == [Group(tokens[index], tokens[index + 1..next])] + Grouped(tokens[next..])
  {
    var here := tokens[index..];
    assert here[1..] == tokens[index + 1..];
    assert here[1..next - index] == tokens[index + 1..next] && here[next - index..] == tokens[next..];
  }

  /** What `parse_ctx_dsl` makes of a token list. */
  function ParsedTokens(tokens: seq<string>): Parsed
  {
    if tokens == [] then Parsed(false, None, [EmptyQuery])
    else if tokens[0] != "ctx" then Parsed(false, None, [NotCtx])
    else
      var first := 1 + Before(tokens[1..]);
      Built(tokens[1..first], tokens[first..])
  }

  method ParseCtxDsl(source: string) returns (r: Parsed)
    ensures r == ParsedTokens(Tokens(source))
  {
    var tokens := Tokenize(source);
    r := ParseTokens(tokens);
  }

  method ParseTokens(tokens: seq<string>) returns (r: Parsed)
    ensures r == ParsedTokens(tokens)
  {
    if tokens == [] { return Parsed(false, None, [EmptyQuery]); }
    if tokens[0] != "ctx" { return Parsed(false, None, [NotCtx]); }
    var first := FindClause(tokens, 1);
    r := Build(tokens[1..first], tokens[first..]);
  }

  // ---------------------------------------------------------------- what the parser promises

  predicate AllFilled(groups: seq<Group>)
  {
    forall g :: g in groups ==> Value(g) != ""
  }

  /** The keys whose clause has no value. */
  function Missing(groups: seq<Group>): seq<Problem>
  {
    if groups == [] then []
    else (if Value(groups[0]) == "" then [NeedsValue(groups[0].key)] else []) + Missing(groups[1..])
  }

  lemma {:induction false} MissingIff(groups: seq<Group>)
    ensures Missing(groups) == [] <==> AllFilled(groups)
  {
    if groups != [] { MissingIff(groups[1..]); }
  }

  lemma {:induction false} BuildErrors(b: Building, groups: seq<Group>)
    requires WellGrouped(groups)
    ensures BuildAll(b, groups).errors == b.errors + Missing(groups)
    decreases |groups|
  {
    if groups != [] {
      assert groups[0] in groups;
      BuildErrors(BuildStep(b, groups[0]), groups[1..]);
    }
  }

  /** The value of the last clause of a key. */
  function LastValue(groups: seq<Group>, key: Keyword): Option<string>
  {
    if groups == [] then None
    else if LastValue(groups[1..], key).Some? then LastValue(groups[1..], key)
    else if Clause(groups[0].key) && KEYWORDS[groups[0].key] == key then Some(Value(groups[0]))
    else None
  }

  /** A query with the clauses' values in place of its own. */
  ghost function Overridden(q: Query, last: Keyword -> Option<string>): Query
  {
    Query(
      Or(last(For), q.focus),
      (match last(Via) case Some(v) => Parts(Split(v, ',')) case None => q.relations),
      Or(last(As), q.view),
      (match last(Depth) case Some(v) => Or(ParseU32(v), 1) case None => q.depth),
      (match last(Limit) case Some(v) => Or(ParseU32(v), 1) case None => q.limit),
      (match last(Limit) case Some(v) => Or(ParseU32(v), 1) case None => q.maxNodes),
      q.seed,
      (match last(In) case Some(v) => Some(Parts(Split(v, '+'))) case None => q.scopePaths),
      (match last(Where) case Some(v) => Some(ParseWhere(v)) case None => q.conditions),
      (match last(Limit) case Some(v) => Some(Or(ParseU32(v), 8)) case None => q.budgetNodes),
      (match last(Budget) case Some(v) => Some(Or(ParseU32(v), 1800)) case None => q.budgetTokens))
  }

  /** One clause and then the later ones, in terms of the values the later ones leave. */
  lemma StepOverrides(q: Query, key: Keyword, v: string, later: Keyword -> Option<string>,
                      last: Keyword -> Option<string>)
    requires forall k :: last(k) == if later(k).Some? then later(k) else if k == key then Some(v) else None
    ensures Overridden(Set(q, key, v), later) == Overridden(q, last)
  {
    match key {
      case For => case In => case Via => case Depth => case Limit => case Budget => case As => case Where =>
    }
  }

  lemma {:induction false} BuildQuery(b: Building, groups: seq<Group>)
    requires WellGrouped(groups) && AllFilled(groups)
    ensures BuildAll(b, groups).query == Overridden(b.query, key => LastValue(groups, key))
    decreases |groups|
  {
    if groups != [] {
      assert groups[0] in groups;
      BuildQuery(BuildStep(b, groups[0]), groups[1..]);
      StepOverrides(b.query, KEYWORDS[groups[0].key], Value(groups[0]),
                    key => LastValue(groups[1..], key), key => LastValue(groups, key));
    }
  }

  /** Each part of the query comes from the last clause of its keyword, whatever the other clauses are. */
  lemma LastClauseWins(target: seq<string>, groups: seq<Group>)
    requires target != [] && WellGrouped(groups) && AllFilled(groups)
    ensures Built(target, Flattened(groups))
         == Parsed(true, Some(Overridden(StartQuery(target), key => LastValue(groups, key))), [])
  {
    GroupingUnique(groups);
    MissingIff(groups);
    BuildErrors(Building(StartQuery(target), []), groups);
    BuildQuery(Building(StartQuery(target), []), groups);
  }

  /** Every well-formed query can be written down and is read back as itself. */
  lemma WrittenQueryParses(target: seq<string>, groups: seq<Group>)
    requires target != [] && NoClause(target) && WellGrouped(groups) && AllFilled(groups)
    requires forall t :: t in target + Flattened(groups) ==> Quotable(t)
    ensures ParsedTokens(Tokens(Rendered(["ctx"] + target + Flattened(groups))))
         == Parsed(true, Some(Overridden(StartQuery(target), key => LastValue(groups, key))), [])
  {
    var rest := Flattened(groups);
    var tokens := ["ctx"] + target + rest;
    assert tokens == ["ctx"] + (target + rest);
    RenderedRoundTrip(tokens);
    if groups != [] { assert groups[0] in groups; }
    BeforeIs(target, rest);
    assert tokens[1..] == target + rest;
    assert tokens[1..1 + |target|] == target && tokens[1 + |target|..] == rest;
    LastClauseWins(target, groups);
  }

  /** A keyword is followed by something that does not join to nothing. */
  predicate FilledAt(tokens: seq<string>, i: nat)
    requires i < |tokens|
  {
    && i + 1 < |tokens| && !Clause(tokens[i + 1])
    && (tokens[i + 1] == "" ==> i + 2 < |tokens| && !Clause(tokens[i + 2]))
  }

  predicate KeywordsFilled(tokens: seq<string>)
  {
    forall i :: 0 <= i < |tokens| && Clause(tokens[i]) ==> FilledAt(tokens, i)
  }

  lemma FilledAtFirst(tokens: seq<string>)
    requires tokens != []
    ensures Value(Grouped(tokens)[0]) != "" <==> FilledAt(tokens, 0)
  {
    var n := 1 + Before(tokens[1..]);
    var body := tokens[1..n];
    assert body == tokens[1..][..n - 1];
    JoinEmptyIff(body);
    if n > 1 { assert tokens[1] in body; }
    if n > 2 { assert tokens[2] in body; }
  }

  lemma {:induction false} FilledIff(tokens: seq<string>)
    requires tokens == [] || Clause(tokens[0])
    ensures AllFilled(Grouped(tokens)) <==> KeywordsFilled(tokens)
    decreases |tokens|
  {
    if tokens != [] {
      var n := 1 + Before(tokens[1..]);
      var rest := tokens[n..];
      FilledAtFirst(tokens);
      FilledIff(rest);
      assert tokens[1..][..n - 1] == tokens[1..n];
      forall i | 0 < i < n ensures !Clause(tokens[i]) { assert tokens[1..n][i - 1] in tokens[1..n]; }
      assert Grouped(tokens) == [Grouped(tokens)[0]] + Grouped(rest);
      FilledShift(tokens, n);
    }
  }

  lemma FilledShift(tokens: seq<string>, n: nat)
    requires n <= |tokens| && forall i :: 0 < i < n ==> !Clause(tokens[i])
    ensures KeywordsFilled(tokens) <==>
              (0 < n && 0 < |tokens| && Clause(tokens[0]) ==> FilledAt(tokens, 0)) && KeywordsFilled(tokens[n..])
  {
    var rest := tokens[n..];
    forall i | 0 <= i < |rest| ensures rest[i] == tokens[n + i] && (FilledAt(rest, i) <==> FilledAt(tokens, n + i)) {}
    if KeywordsFilled(rest) && (0 < n && 0 < |tokens| && Clause(tokens[0]) ==> FilledAt(tokens, 0)) {
      forall i | 0 <= i < |tokens| && Clause(tokens[i]) ensures FilledAt(tokens, i)
      {
        if n <= i { assert Clause(rest[i - n]) && FilledAt(rest, i - n); }
      }
    }
  }

  /** What `build` answers to a target and a keyword-led token list. */
  lemma BuiltIff(target: seq<string>, clauses: seq<string>)
    requires target != [] && (clauses == [] || Clause(clauses[0]))
    ensures var r := Built(target, clauses);
            && (r.ok <==> KeywordsFilled(clauses)) && (r.ok <==> r.query.Some?) && (r.ok <==> r.errors == [])
            && (forall p :: p in r.errors ==> p.NeedsValue?)
  {
    GroupedPartitions(clauses);
    MissingIff(Grouped(clauses));
    MissingMembers(Grouped(clauses));
    BuildErrors(Building(StartQuery(target), []), Grouped(clauses));
    FilledIff(clauses);
  }

  lemma {:induction false} MissingMembers(groups: seq<Group>)
    ensures forall p :: p in Missing(groups) ==> p.NeedsValue?
  {
    if groups != [] { MissingMembers(groups[1..]); }
  }

  lemma BeforeClear(tokens: seq<string>)
    requires tokens != []
    ensures forall i :: 0 < i < 1 + Before(tokens[1..]) ==> !Clause(tokens[i])
  {
    var rest := tokens[1..];
    forall i | 0 < i < 1 + Before(rest) ensures !Clause(tokens[i])
    {
      assert rest[..Before(rest)][i - 1] in rest[..Before(rest)];
    }
  }

  /** A source is accepted exactly when it is the word `ctx`, a target, and keywords that each have a value;
      then, and only then, there is a query and there are no errors. */
  lemma AcceptedIff(source: string)
    ensures var tokens, r := Tokens(source), ParsedTokens(Tokens(source));
            && (r.ok <==> |tokens| > 1 && tokens[0] == "ctx" && !Clause(tokens[1]) && KeywordsFilled(tokens))
            && (r.ok <==> r.query.Some?) && (r.ok <==> r.errors == [])
  {
    var tokens := Tokens(source);
    if tokens != [] && tokens[0] == "ctx" {
      var first := 1 + Before(tokens[1..]);
      BeforeClear(tokens);
      if first > 1 {
        BuiltIff(tokens[1..first], tokens[first..]);
        FilledShift(tokens, first);
      }
    }
  }

  /** The arm for unknown clauses is never reached. */
  lemma UnknownClauseNeverReported(source: string)
    ensures forall p :: p in ParsedTokens(Tokens(source)).errors ==> !p.UnknownClause?
  {
    var tokens := Tokens(source);
    if tokens != [] && tokens[0] == "ctx" {
      var first := 1 + Before(tokens[1..]);
      if first > 1 { BuiltIff(tokens[1..first], tokens[first..]); }
    }
  }
}
