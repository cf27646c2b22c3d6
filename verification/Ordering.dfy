/** The order in which a `BTreeMap<String, _>` or a sorted `Vec<String>` lists its strings.
    Rust compares strings byte by byte; for UTF-8 that is the lexicographic order on code points. */
module Ordering {

  predicate Le(a: string, b: string)
  {
    a == "" || (b != "" && (a[0] < b[0] || (a[0] == b[0] && Le(a[1..], b[1..]))))
  }

  predicate Less(a: string, b: string)
  {
    Le(a, b) && a != b
  }

  lemma {:induction false} LeReflexive(a: string)
    ensures Le(a, a)
  {
    if a != "" { LeReflexive(a[1..]); }
  }

  lemma {:induction false} LeTotal(a: string, b: string)
    ensures Le(a, b) || Le(b, a)
  {
    if a != "" && b != "" { LeTotal(a[1..], b[1..]); }
  }

  lemma {:induction false} LeAntisymmetric(a: string, b: string)
    requires Le(a, b) && Le(b, a)
    ensures a == b
  {
    if a != "" && b != "" {
      LeAntisymmetric(a[1..], b[1..]);
      assert a == [a[0]] + a[1..] && b == [b[0]] + b[1..];
    }
  }

  lemma {:induction false} LeTransitive(a: string, b: string, c: string)
    requires Le(a, b) && Le(b, c)
    ensures Le(a, c)
  {
    if a != "" && a[0] == b[0] == c[0] { LeTransitive(a[1..], b[1..], c[1..]); }
  }

  lemma LessTransitive(a: string, b: string, c: string)
    requires Less(a, b) && Less(b, c)
    ensures Less(a, c)
  {
    LeTransitive(a, b, c);
    if a == c { LeAntisymmetric(a, b); }
  }

  ghost predicate IsMin(k: string, s: set<string>)
  {
    k in s && forall j :: j in s ==> Le(k, j)
  }

  lemma {:induction false} MinExists(s: set<string>)
    requires s != {}
    ensures exists k :: IsMin(k, s)
  {
    var x :| x in s;
    if s == {x} {
      LeReflexive(x);
      assert IsMin(x, s);
    } else {
      MinExists(s - {x});
      var k :| IsMin(k, s - {x});
      LeTotal(k, x);
      LeReflexive(x);
      if Le(k, x) {
        assert IsMin(k, s);
      } else {
        forall j | j in s ensures Le(x, j) {
          if j != x { LeTransitive(x, k, j); }
        }
        assert IsMin(x, s);
      }
    }
  }

  /** The keys of a map in iteration order. */
  ghost function SortedKeys(s: set<string>): (ks: seq<string>)
    ensures Elements(ks) == s
    ensures StrictlySorted(ks)
    decreases |s|
  {
    if s == {} then []
    else
      MinExists(s);
      var k :| IsMin(k, s);
      var rest := SortedKeys(s - {k});
      SortedCons(k, rest);
      [k] + rest
  }

  /** The values of a map in the order of their keys: `values` and `into_values`. */
  ghost function Values<T>(table: map<string, T>): (values: seq<T>)
    ensures |values| == |SortedKeys(table.Keys)|
  {
    var ks := SortedKeys(table.Keys);
    seq(|ks|, i requires 0 <= i < |ks| => assert ks[i] in Elements(ks); table[ks[i]])
  }

  ghost function Elements<T>(ks: seq<T>): set<T>
  {
    set k | k in ks
  }

  ghost predicate StrictlySorted(ks: seq<string>)
  {
    forall i, j :: 0 <= i < j < |ks| ==> Less(ks[i], ks[j])
  }

  lemma SortedCons(k: string, ks: seq<string>)
    requires StrictlySorted(ks)
    requires forall j :: j in Elements(ks) ==> Le(k, j) && k != j
    ensures StrictlySorted([k] + ks)
    ensures Elements([k] + ks) == {k} + Elements(ks)
  {
  }

  /** A strictly sorted listing is determined by the set of strings it lists. */
  lemma {:induction false} SortedUnique(a: seq<string>, b: seq<string>)
    requires StrictlySorted(a) && StrictlySorted(b)
    requires Elements(a) == Elements(b)
    ensures a == b
  {
    NonemptyElements(a);
    NonemptyElements(b);
    if a != [] {
      HeadIsMin(a, b);
      HeadIsMin(b, a);
      LeAntisymmetric(a[0], b[0]);
      forall k ensures k in Elements(a[1..]) <==> k in Elements(b[1..]) {
        TailMember(a, k);
        TailMember(b, k);
      }
      SortedUnique(a[1..], b[1..]);
      assert a == [a[0]] + a[1..] && b == [b[0]] + b[1..];
    }
  }

  lemma NonemptyElements<T>(a: seq<T>)
    ensures a == [] <==> Elements(a) == {}
  {
    if a != [] { assert a[0] in Elements(a); }
  }

  lemma HeadIsMin(a: seq<string>, b: seq<string>)
    requires a != [] && b != [] && StrictlySorted(a) && Elements(a) == Elements(b)
    ensures Le(a[0], b[0])
  {
    assert b[0] in Elements(b);
    var i :| 0 <= i < |a| && a[i] == b[0];
    LeReflexive(a[0]);
  }

  lemma TailMember(a: seq<string>, k: string)
    requires a != [] && StrictlySorted(a)
    ensures k in Elements(a[1..]) <==> k in Elements(a) && k != a[0]
  {
    if k in Elements(a) && k != a[0] {
      var i :| 0 <= i < |a| && a[i] == k;
      assert a[1..][i - 1] == k;
    }
    if k in Elements(a[1..]) {
      var i :| 0 <= i < |a| - 1 && a[1..][i] == k;
      assert a[i + 1] == k;
    }
  }

  /** Appending a key beyond the last one keeps a listing sorted. */
  lemma SortedSnoc(ks: seq<string>, k: string)
    requires StrictlySorted(ks)
    requires forall j :: j in ks ==> Less(j, k)
    ensures StrictlySorted(ks + [k])
    ensures Elements(ks + [k]) == Elements(ks) + {k}
  {
  }

  /** The listing has no repetition, so its length is the number of keys. */
  lemma {:induction false} SortedLength(ks: seq<string>)
    requires StrictlySorted(ks)
    ensures |ks| == |Elements(ks)|
  {
    if ks != [] {
      SortedLength(ks[1..]);
      forall k ensures k in Elements(ks[1..]) <==> k in Elements(ks) - {ks[0]} { TailMember(ks, k); }
      assert Elements(ks[1..]) == Elements(ks) - {ks[0]};
      assert ks[0] in Elements(ks);
    }
  }

  /** A name longer than all of these. */
  lemma {:induction false} LongerName(names: seq<string>) returns (name: string)
    ensures forall n :: n in names ==> |n| < |name|
  {
    if names == [] {
      name := "x";
    } else {
      var rest := LongerName(names[1..]);
      name := names[0] + rest + "x";
    }
  }

  /** Iterating a `BTreeMap`: the smallest key that is left comes next. */
  method ListKeys(s: set<string>) returns (ks: seq<string>)
    ensures ks == SortedKeys(s)
  {
    ks := [];
    var rest := s;
    while rest != {}
      invariant rest <= s && Elements(ks) == s - rest
      invariant StrictlySorted(ks)
      invariant forall j, k :: j in ks && k in rest ==> Less(j, k)
      decreases rest
    {
      MinExists(rest);
      var min :| min in rest && forall j :: j in rest ==> Le(min, j);
      assert IsMin(min, rest);
      SortedSnoc(ks, min);
      ks := ks + [min];
      rest := rest - {min};
    }
    SortedUnique(ks, SortedKeys(s));
  }
}
