/** Insertion-ordered dictionaries and order-preserving selection, as Python gives them. */
module Ordered {
  import opened Text

  ghost predicate Distinct<T>(s: seq<T>) {
    forall i, j :: 0 <= i < j < |s| ==> s[i] != s[j]
  }

  /** A Python dictionary: a map that remembers the order in which its keys first arrived. */
  datatype Dict<!K, V> = Dict(keys: seq<K>, at: map<K, V>) {

    ghost predicate Valid() {
      && (forall i :: 0 <= i < |keys| ==> keys[i] in at)
      && (forall k :: k in at ==> k in keys)
      && Distinct(keys)
    }

    /** `d.setdefault(k, v)`: an existing key keeps its value. */
    function SetDefault(k: K, v: V): (d: Dict<K, V>)
      ensures Valid() ==> d.Valid()
    {
      if k in at then this else Dict(keys + [k], at[k := v])
    }

    /** `d[k] = v`: an existing key keeps its place and takes the new value. */
    function Put(k: K, v: V): (d: Dict<K, V>)
      ensures Valid() ==> d.Valid()
    {
      Dict(if k in at then keys else keys + [k], at[k := v])
    }
  }

  /** Some element of `xs` has key `k`. */
  ghost predicate HasKey<T, K>(xs: seq<T>, key: T -> Option<K>, k: K) {
    exists i :: 0 <= i < |xs| && key(xs[i]) == Some(k)
  }

  ghost predicate FirstAt<T, K>(xs: seq<T>, key: T -> Option<K>, k: K, i: int) {
    0 <= i < |xs| && key(xs[i]) == Some(k) && forall j :: 0 <= j < i ==> key(xs[j]) != Some(k)
  }

  ghost predicate LastAt<T, K>(xs: seq<T>, key: T -> Option<K>, k: K, i: int) {
    0 <= i < |xs| && key(xs[i]) == Some(k) && forall j :: i < j < |xs| ==> key(xs[j]) != Some(k)
  }

  /** Index elements by key; the first element with a key stays, elements with no key are skipped. */
  function FirstWins<T, K(==)>(xs: seq<T>, key: T -> Option<K>): Dict<K, T> {
    if xs == [] then Dict([], map[])
    else
      var d, x := FirstWins(xs[..|xs| - 1], key), xs[|xs| - 1];
      match key(x) case None => d case Some(k) => d.SetDefault(k, x)
  }

  /** Index elements by key; the last element with a key replaces earlier ones. */
  function LastWins<T, K(==)>(xs: seq<T>, key: T -> Option<K>): Dict<K, T> {
    if xs == [] then Dict([], map[])
    else
      var d, x := LastWins(xs[..|xs| - 1], key), xs[|xs| - 1];
      match key(x) case None => d case Some(k) => d.Put(k, x)
  }

  lemma HasKeyExtend<T, K>(xs: seq<T>, key: T -> Option<K>, k: K)
    requires xs != []
    ensures HasKey(xs, key, k) <==> HasKey(xs[..|xs| - 1], key, k) || key(xs[|xs| - 1]) == Some(k)
  {
    var init := xs[..|xs| - 1];
    if HasKey(init, key, k) {
      var i :| 0 <= i < |init| && key(init[i]) == Some(k);
      assert xs[i] == init[i];
    }
    if HasKey(xs, key, k) {
      var i :| 0 <= i < |xs| && key(xs[i]) == Some(k);
      assert i < |init| ==> init[i] == xs[i];
    }
  }

  lemma {:induction false} FirstWinsKeys<T, K>(xs: seq<T>, key: T -> Option<K>)
    ensures FirstWins(xs, key).Valid()
    ensures forall k :: k in FirstWins(xs, key).at <==> HasKey(xs, key, k)
  {
    if xs != [] {
      FirstWinsKeys(xs[..|xs| - 1], key);
      forall k ensures k in FirstWins(xs, key).at <==> HasKey(xs, key, k) {
        HasKeyExtend(xs, key, k);
      }
    }
  }

  lemma {:induction false} FirstWinsAt<T, K>(xs: seq<T>, key: T -> Option<K>, k: K)
    requires k in FirstWins(xs, key).at
    ensures exists i :: FirstAt(xs, key, k, i) && xs[i] == FirstWins(xs, key).at[k]
  {
    if xs != [] {
      var init := xs[..|xs| - 1];
      if k in FirstWins(init, key).at {
        FirstWinsAt(init, key, k);
        var i :| FirstAt(init, key, k, i) && init[i] == FirstWins(init, key).at[k];
        assert FirstAt(xs, key, k, i);
      } else {
        assert !HasKey(init, key, k) by { FirstWinsKeys(init, key); }
        forall j | 0 <= j < |init| ensures key(xs[j]) != Some(k) { assert init[j] == xs[j]; }
        assert FirstAt(xs, key, k, |init|);
      }
    }
  }

  /** The dictionary has exactly the keys that occur, each with its first element. */
  lemma FirstWinsExact<T, K>(xs: seq<T>, key: T -> Option<K>)
    ensures var d := FirstWins(xs, key);
            && d.Valid()
            && (forall k :: k in d.at <==> HasKey(xs, key, k))
            && (forall k :: k in d.at ==> exists i :: FirstAt(xs, key, k, i) && xs[i] == d.at[k])
  {
    FirstWinsKeys(xs, key);
    forall k | k in FirstWins(xs, key).at
      ensures exists i :: FirstAt(xs, key, k, i) && xs[i] == FirstWins(xs, key).at[k]
    {
      FirstWinsAt(xs, key, k);
    }
  }

  lemma {:induction false} LastWinsKeys<T, K>(xs: seq<T>, key: T -> Option<K>)
    ensures LastWins(xs, key).Valid()
    ensures forall k :: k in LastWins(xs, key).at <==> HasKey(xs, key, k)
  {
    if xs != [] {
      LastWinsKeys(xs[..|xs| - 1], key);
      forall k ensures k in LastWins(xs, key).at <==> HasKey(xs, key, k) {
        HasKeyExtend(xs, key, k);
      }
    }
  }

  lemma {:induction false} LastWinsAt<T, K>(xs: seq<T>, key: T -> Option<K>, k: K)
    requires k in LastWins(xs, key).at
    ensures exists i :: LastAt(xs, key, k, i) && xs[i] == LastWins(xs, key).at[k]
  {
    if xs != [] {
      var init := xs[..|xs| - 1];
      if key(xs[|init|]) == Some(k) {
        assert LastAt(xs, key, k, |init|);
      } else {
        LastWinsAt(init, key, k);
        var i :| LastAt(init, key, k, i) && init[i] == LastWins(init, key).at[k];
        assert LastAt(xs, key, k, i);
      }
    }
  }

  /** The dictionary has exactly the keys that occur, each with its last element. */
  lemma LastWinsExact<T, K>(xs: seq<T>, key: T -> Option<K>)
    ensures var d := LastWins(xs, key);
            && d.Valid()
            && (forall k :: k in d.at <==> HasKey(xs, key, k))
            && (forall k :: k in d.at ==> exists i :: LastAt(xs, key, k, i) && xs[i] == d.at[k])
  {
    LastWinsKeys(xs, key);
    forall k | k in LastWins(xs, key).at
      ensures exists i :: LastAt(xs, key, k, i) && xs[i] == LastWins(xs, key).at[k]
    {
      LastWinsAt(xs, key, k);
    }
  }

  /** The elements that satisfy `p`, in order. */
  function Filter<T>(s: seq<T>, p: T -> bool): (r: seq<T>)
    ensures |r| <= |s|
  {
    if s == [] then []
    else
      var r, x := Filter(s[..|s| - 1], p), s[|s| - 1];
      if p(x) then r + [x] else r
  }

  lemma {:induction false} FilterExact<T>(s: seq<T>, p: T -> bool)
    ensures forall x :: x in Filter(s, p) <==> x in s && p(x)
    ensures Distinct(s) ==> Distinct(Filter(s, p))
  {
    if s != [] {
      var init, x := s[..|s| - 1], s[|s| - 1];
      FilterExact(init, p);
      assert s == init + [x];
      assert Distinct(s) ==> x !in init;
    }
  }

  lemma FilterEmpty<T>(p: T -> bool)
    ensures Filter([], p) == []
  {
  }

  lemma FilterAppend<T>(s: seq<T>, x: T, p: T -> bool)
    ensures Filter(s + [x], p) == Filter(s, p) + if p(x) then [x] else []
  {
    assert (s + [x])[..|s|] == s;
  }

  lemma {:induction false} FilterConcat<T>(a: seq<T>, b: seq<T>, p: T -> bool)
    ensures Filter(a + b, p) == Filter(a, p) + Filter(b, p)
    decreases |b|
  {
    if b == [] {
      assert a + b == a;
    } else {
      var init := b[..|b| - 1];
      assert a + b == (a + init) + [b[|b| - 1]] && b == init + [b[|b| - 1]];
      FilterConcat(a, init, p);
      FilterAppend(a + init, b[|b| - 1], p);
    }
  }

  /** An element that passes stands behind exactly the earlier elements that pass. */
  lemma FilterPosition<T>(s: seq<T>, p: T -> bool, y: nat)
    requires y < |s| && p(s[y])
    ensures var i := |Filter(s[..y], p)|; i < |Filter(s, p)| && Filter(s, p)[i] == s[y]
  {
    assert s == s[..y + 1] + s[y + 1..];
    FilterConcat(s[..y + 1], s[y + 1..], p);
    assert s[..y + 1] == s[..y] + [s[y]];
    FilterAppend(s[..y], s[y], p);
  }

  ghost function PassingAt<T>(s: seq<T>, p: T -> bool, n: nat): set<int>
    requires n <= |s|
  {
    set k | 0 <= k < n && p(s[k])
  }

  lemma {:induction false} FilterCount<T>(s: seq<T>, p: T -> bool, n: nat)
    requires n <= |s|
    ensures |Filter(s[..n], p)| == |PassingAt(s, p, n)|
  {
    hide Filter;
    if n == 0 {
      FilterEmpty(p);
      assert s[..0] == [];
    } else {
      FilterCount(s, p, n - 1);
      assert s[..n] == s[..n - 1] + [s[n - 1]];
      FilterAppend(s[..n - 1], s[n - 1], p);
      assert PassingAt(s, p, n) == if p(s[n - 1]) then PassingAt(s, p, n - 1) + {n - 1} else PassingAt(s, p, n - 1);
    }
  }

  lemma {:induction false} FilterNone<T>(s: seq<T>, p: T -> bool)
    requires forall x :: x in s ==> !p(x)
    ensures Filter(s, p) == []
  {
    if s != [] { FilterNone(s[..|s| - 1], p); }
  }

  function Map<T, R>(s: seq<T>, f: T -> R): (r: seq<R>)
    ensures |r| == |s|
    ensures forall i :: 0 <= i < |r| ==> r[i] == f(s[i])
  {
    seq(|s|, i requires 0 <= i < |s| => f(s[i]))
  }

  /** Apply `f` to the elements that satisfy `p`, in order. */
  function Select<T, R>(s: seq<T>, p: T -> bool, f: T -> R): seq<R> {
    Map(Filter(s, p), f)
  }

  lemma SelectExtend<T, R>(s: seq<T>, i: int, p: T -> bool, f: T -> R)
    requires 0 <= i < |s|
    ensures Select(s[..i + 1], p, f) == Select(s[..i], p, f) + if p(s[i]) then [f(s[i])] else []
  {
    assert s[..i + 1][..i] == s[..i];
    assert Filter(s[..i + 1], p) == Filter(s[..i], p) + if p(s[i]) then [s[i]] else [];
  }

  /** A duplicate-free sequence is as long as the set of its members is large. */
  lemma {:induction false} DistinctSize<T>(s: seq<T>)
    requires Distinct(s)
    ensures |s| == |(set x | x in s)|
  {
    if s == [] {
      assert (set x | x in s) == {};
    } else {
      var init, x := s[..|s| - 1], s[|s| - 1];
      DistinctSize(init);
      assert s == init + [x] && x !in init;
      assert (set x | x in s) == (set x | x in init) + {x};
    }
  }

  lemma Pick<T>(s: set<T>) returns (x: T)
    requires s != {}
    ensures x in s
  {
    x :| x in s;
  }

  lemma SubsetSize<T>(a: set<T>, b: set<T>)
    requires a <= b
    ensures |a| <= |b|
    ensures a < b ==> |a| < |b|
  {
    assert b == a + (b - a);
  }

  /** More distinct elements than `few` can hold: one of them is outside. */
  lemma Outsider<T>(s: seq<T>, few: set<T>) returns (i: nat)
    requires Distinct(s) && |few| < |s|
    ensures i < |s| && s[i] !in few
  {
    var all := set x | x in s;
    DistinctSize(s);
    if all <= few {
      SubsetSize(all, few);
      assert false;
    }
    var x :| x in all && x !in few;
    i :| 0 <= i < |s| && s[i] == x;
  }

  /** If `few` is smaller than `n` and misses some element of `s`, it misses one of the first `n`. */
  lemma EarlyOutsider<T>(s: seq<T>, n: nat, few: set<T>, x: T) returns (i: nat)
    requires Distinct(s) && |few| < n && x in s && x !in few
    ensures i < |s| && i < n && s[i] !in few
  {
    if |s| <= n {
      i :| 0 <= i < |s| && s[i] == x;
    } else {
      i := Outsider(s[..n], few);
    }
  }
}
