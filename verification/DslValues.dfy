/** What the values of a ctx query are read as, and what each clause alone does to a query. */
module DslValues {
  import opened Wrappers
  import opened Text
  import opened Dsl

  // ---------------------------------------------------------------- values

  /** A leading sign tells the kind of a target: an at sign an id, a slash a path, which keeps it, a hash a tag, a
      percent sign a type; any other text is searched for. */
  lemma SeedSigns(text: string)
    ensures SeedOf("@" + text) == Seed("id", text)
    ensures SeedOf("/" + text) == Seed("path", "/" + text)
    ensures SeedOf("#" + text) == Seed("tag", text)
    ensures SeedOf("%" + text) == Seed("type", text)
    ensures text == "" || text[0] !in "@/#%" ==> SeedOf(text) == Seed("query", text)
  {
    assert ("@" + text)[1..] == text && ("#" + text)[1..] == text && ("%" + text)[1..] == text;
    assert '@' in "@/#%" by { assert "@/#%"[0] == '@'; }
    assert '/' in "@/#%" by { assert "@/#%"[1] == '/'; }
    assert '#' in "@/#%" by { assert "@/#%"[2] == '#'; }
    assert '%' in "@/#%" by { assert "@/#%"[3] == '%'; }
  }

  /** The first equals sign separates a field from the value expected of it; whitespace around either is dropped.
      Without one there is no condition. */
  lemma WhereReads(b1: string, field: string, a1: string, b2: string, expected: string, a2: string)
    requires Blank(b1) && Blank(a1) && Blank(b2) && Blank(a2) && Trimmed(field) && Trimmed(expected) && '=' !in field
    ensures ParseWhere((b1 + field + a1) + "=" + (b2 + expected + a2)) == [Condition(field, expected)]
  {
    var left, right := b1 + field + a1, b2 + expected + a2;
    assert !IsWhitespace('=');
    assert '=' !in left by { assert forall c :: c in left ==> c in b1 || c in field || c in a1; }
    assert left + "=" + right == left + ['='] + right;
    SplitOnceAt(left, '=', right);
    TrimAround(b1, field, a1);
    TrimAround(b2, expected, a2);
  }

  lemma NoWhere(value: string)
    requires '=' !in value
    ensures ParseWhere(value) == []
  {
    SplitOnceNone(value, '=');
  }

  /** What is trimmed to nothing is left out. */
  lemma {:induction false} PartsRead(parts: seq<string>)
    ensures FiltersTo(Trims(parts), NotEmpty, Parts(parts))
  {
    if parts == [] {
      FiltersEmpty(NotEmpty);
    } else {
      var init, last := parts[..|parts| - 1], parts[|parts| - 1];
      PartsRead(init);
      PartsReadSnoc(init, last);
      assert init + [last] == parts;
    }
  }

  lemma PartsReadSnoc(init: seq<string>, last: string)
    requires FiltersTo(Trims(init), NotEmpty, Parts(init))
    ensures FiltersTo(Trims(init + [last]), NotEmpty, Parts(init + [last]))
  {
    PartsSnoc(init, last);
    TrimsSnoc(init, last, Parts(init));
  }

  lemma TrimsSnoc(init: seq<string>, last: string, kept: seq<string>)
    requires FiltersTo(Trims(init), NotEmpty, kept)
    ensures FiltersTo(Trims(init + [last]), NotEmpty, if Trim(last) != "" then kept + [Trim(last)] else kept)
  {
    var all := Trims(init + [last]);
    assert all[..|all| - 1] == Trims(init) && all[|all| - 1] == Trim(last);
    FiltersSnoc(all, NotEmpty, kept);
  }

  predicate NotEmpty(s: string)
  {
    s != ""
  }

  function Trims(parts: seq<string>): (r: seq<string>)
    ensures |r| == |parts|
  {
    seq(|parts|, i requires 0 <= i < |parts| => Trim(parts[i]))
  }

  lemma {:induction false} PartsSnoc(parts: seq<string>, last: string)
    ensures Parts(parts + [last]) == if Trim(last) != "" then Parts(parts) + [Trim(last)] else Parts(parts)
  {
    if parts == [] {
      assert [] + [last] == [last] && [last][1..] == [];
    } else {
      assert (parts + [last])[1..] == parts[1..] + [last];
      PartsSnoc(parts[1..], last);
    }
  }

  /** A list joined by its separator is read as that list, empty parts left out. */
  lemma ListReads(parts: seq<string>, separator: char)
    requires parts != [] && forall p :: p in parts ==> separator !in p
    ensures FiltersTo(Trims(parts), NotEmpty, Parts(Split(Join(parts, [separator]), separator)))
  {
    SplitJoin(parts, separator);
    PartsRead(parts);
  }

  /** A number is read if it fits 32 bits, with or without a plus sign; anything that is not all digits is not. */
  lemma NumberReads(n: nat)
    ensures ParseU32(Decimal(n)) == ParseU32("+" + Decimal(n)) == if n < 0x1_0000_0000 then Some(n) else None
  {
    DecimalReads(n);
    var s := Decimal(n);
    assert s[0] in s && IsDigit(s[0]);
    assert ("+" + s)[1..] == s;
  }

  lemma NotANumber(s: string, i: nat)
    requires i < |s| && !IsDigit(s[i]) && (i == 0 ==> s[i] != '+')
    ensures ParseU32(s) == None
  {
    if s[0] == '+' { assert s[1..][i - 1] == s[i] && s[i] in s[1..]; } else { assert s[i] in s; }
  }

  // ---------------------------------------------------------------- one clause

  /** The tokens `ctx`, a target, a keyword and a value. */
  function OneClause(target: string, keyword: string, value: string): Parsed
  {
    ParsedTokens(["ctx", target, keyword, value])
  }

  /** One clause is read as what its keyword sets. */
  lemma OneClauseIs(target: string, keyword: string, value: string)
    requires !Clause(target) && Clause(keyword) && !Clause(value) && value != ""
    ensures OneClause(target, keyword, value) ==
            Parsed(true, Some(Set(StartQuery([target]), KEYWORDS[keyword], value)), [])
  {
    var g := Group(keyword, [value]);
    assert [g][1..] == [];
    assert Flattened([g]) == [keyword] + [value] + [] == [keyword, value];
    assert WellGrouped([g]);
    GroupingUnique([g]);
    var tokens := ["ctx", target, keyword, value];
    assert tokens[1..] == [target] + [keyword, value];
    BeforeIs([target], [keyword, value]);
    assert tokens[1..2] == [target] && tokens[2..] == [keyword, value];
    var b := Building(StartQuery([target]), []);
    assert Value(g) == value;
    assert BuildAll(b, [g]) == BuildAll(BuildStep(b, g), []);
  }

  /** A target alone asks for a plan, brief, over related and referenced nodes at depth 1, at most eight of them. */
  lemma TargetAlone(target: string)
    requires !Clause(target)
    ensures ParsedTokens(["ctx", target]) ==
            Parsed(true, Some(Query("plan", ["related", "references"], "brief", 1, 8, 8, SeedOf(target),
                                    None, None, None, None)), [])
  {
    var tokens := ["ctx", target];
    assert tokens[1..] == [target] && [target] + [] == [target];
    BeforeIs([target], []);
    assert tokens[1..2] == [target] && tokens[2..] == [];
    assert Join([target], " ") == target;
  }

  /** Each text clause replaces its own part of the query and no other. */
  lemma TextClauses(q: Query, value: string)
    ensures Set(q, KEYWORDS["for"], value) == q.(focus := value)
    ensures Set(q, KEYWORDS["as"], value) == q.(view := value)
  {
  }

  lemma ListClauses(q: Query, value: string)
    ensures Set(q, KEYWORDS["in"], value) == q.(scopePaths := Some(Parts(Split(value, '+'))))
    ensures Set(q, KEYWORDS["via"], value) == q.(relations := Parts(Split(value, ',')))
    ensures Set(q, KEYWORDS["where"], value) == q.(conditions := Some(ParseWhere(value)))
  {
  }

  /** So does each number clause; a limit sets the limit and both bounds on nodes. */
  lemma NumberClauses(q: Query, n: nat)
    requires n < 0x1_0000_0000
    ensures Set(q, KEYWORDS["depth"], Decimal(n)) == q.(depth := n)
    ensures Set(q, KEYWORDS["limit"], Decimal(n)) == q.(limit := n, maxNodes := n, budgetNodes := Some(n))
    ensures Set(q, KEYWORDS["budget"], Decimal(n)) == q.(budgetTokens := Some(n))
  {
    NumberReads(n);
  }

  /** What is no number counts as depth 1, as limit 1 with eight nodes, and as 1800 tokens. */
  lemma NumberDefaults(q: Query, value: string)
    requires ParseU32(value).None?
    ensures Set(q, KEYWORDS["depth"], value) == q.(depth := 1)
    ensures Set(q, KEYWORDS["limit"], value) == q.(limit := 1, maxNodes := 1, budgetNodes := Some(8))
    ensures Set(q, KEYWORDS["budget"], value) == q.(budgetTokens := Some(1800))
  {
  }
}
