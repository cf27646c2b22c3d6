/** Option and Result, used by every component in place of Rust's own, and facts about prefixes. */
module Wrappers {
  datatype Option<+T> = None | Some(value: T)

  datatype Result<+T, +E> = Ok(value: T) | Err(error: E)

  function Lookup<K, V>(m: map<K, V>, k: K): Option<V>
  {
    if k in m then Some(m[k]) else None
  }

  /** Maps that answer every lookup alike are equal. */
  lemma LookupExtensional<K, V>(a: map<K, V>, b: map<K, V>)
    requires forall k :: Lookup(a, k) == Lookup(b, k)
    ensures a == b
  {
    forall k ensures k in a <==> k in b { assert Lookup(a, k) == Lookup(b, k); }
    forall k | k in a ensures a[k] == b[k] { assert Lookup(a, k) == Lookup(b, k); }
  }

  lemma TakeSnoc<T>(s: seq<T>, i: nat)
    requires i < |s|
    ensures s[..i + 1] == s[..i] + [s[i]]
  {
  }

  lemma TakeTake<T>(s: seq<T>, n: nat, m: nat)
    requires m <= n <= |s|
    ensures s[..n][..m] == s[..m]
  {
  }

  lemma TakeAll<T>(s: seq<T>)
    ensures s[..|s|] == s
  {
  }

  lemma ConcatAssociates<T>(a: seq<T>, b: seq<T>, c: seq<T>)
    ensures (a + b) + c == a + (b + c)
  {
  }

  lemma SnocMembers<T>(s: seq<T>)
    requires s != []
    ensures forall x :: x in s <==> x in s[..|s| - 1] || x == s[|s| - 1]
  {
    assert s == s[..|s| - 1] + [s[|s| - 1]];
  }

  // ---------------------------------------------------------------- what is kept of a sequence

  /** `at` gives, in order, every place of s whose element is kept, and `out` the elements there. */
  ghost predicate KeptAt<T>(s: seq<T>, keep: T -> bool, out: seq<T>, at: seq<nat>)
  {
    && |at| == |out|
    && (forall k :: 0 <= k < |at| ==> at[k] < |s| && s[at[k]] == out[k] && keep(out[k]))
    && (forall j, k :: 0 <= j < k < |at| ==> at[j] < at[k])
    && (forall i :: 0 <= i < |s| && keep(s[i]) ==> i in at)
  }

  /** `out` is what is kept of s: the same elements as often and in the same order, and no others. */
  ghost predicate FiltersTo<T>(s: seq<T>, keep: T -> bool, out: seq<T>)
  {
    exists at :: KeptAt(s, keep, out, at)
  }

  lemma FiltersEmpty<T>(keep: T -> bool)
    ensures FiltersTo([], keep, [])
  {
    assert KeptAt([], keep, [], []);
  }

  lemma KeptSnoc<T>(init: seq<T>, x: T, keep: T -> bool, out: seq<T>, at: seq<nat>)
    requires KeptAt(init, keep, out, at) && keep(x)
    ensures KeptAt(init + [x], keep, out + [x], at + [|init|])
  {
    var s, next := init + [x], at + [|init|];
    forall i | 0 <= i < |s| && keep(s[i]) ensures i in next
    {
      if i < |init| { assert s[i] == init[i]; } else { assert next[|at|] == i; }
    }
  }

  lemma DroppedSnoc<T>(init: seq<T>, x: T, keep: T -> bool, out: seq<T>, at: seq<nat>)
    requires KeptAt(init, keep, out, at) && !keep(x)
    ensures KeptAt(init + [x], keep, out, at)
  {
    var s := init + [x];
    forall i | 0 <= i < |s| && keep(s[i]) ensures i in at { assert s[i] == init[i]; }
  }

  lemma FiltersSnoc<T>(s: seq<T>, keep: T -> bool, out: seq<T>)
    requires s != [] && FiltersTo(s[..|s| - 1], keep, out)
    ensures FiltersTo(s, keep, if keep(s[|s| - 1]) then out + [s[|s| - 1]] else out)
  {
    var init, x := s[..|s| - 1], s[|s| - 1];
    assert s == init + [x];
    var at :| KeptAt(init, keep, out, at);
    if keep(x) {
      KeptSnoc(init, x, keep, out, at);
    } else {
      DroppedSnoc(init, x, keep, out, at);
    }
  }

  lemma FiltersMember<T>(s: seq<T>, keep: T -> bool, out: seq<T>, at: seq<nat>, x: T)
    requires KeptAt(s, keep, out, at)
    ensures x in out <==> x in s && keep(x)
  {
    if x in s && keep(x) {
      var i :| 0 <= i < |s| && s[i] == x;
      assert keep(s[i]);
      var k :| 0 <= k < |at| && at[k] == i;
      assert out[k] == x;
    }
    if x in out {
      var k :| 0 <= k < |out| && out[k] == x;
      assert s[at[k]] == x;
    }
  }

  lemma FiltersMembers<T>(s: seq<T>, keep: T -> bool, out: seq<T>)
    requires FiltersTo(s, keep, out)
    ensures forall x :: x in out <==> x in s && keep(x)
  {
    var at :| KeptAt(s, keep, out, at);
    forall x ensures x in out <==> x in s && keep(x) { FiltersMember(s, keep, out, at, x); }
  }
}
