/** Which decisions a target is asked to hold: the per-target filter and cap
    (reconciler.py `_filter_desired_for_bouncer`). */
module Selection {
  import opened Text
  import opened Ordered
  import opened Ownership
  import opened Diff
  import opened Target
  import opened Convergence

  /** A target's filter. `sources` empty means every source; `scenario` is None when no pattern
      is set or it does not compile; `reputable` is None when no minimum is set or the score
      could not be computed; `maxEntries` 0 means no cap. */
  datatype Config = Config(
    origins: seq<string>, excludeOrigins: seq<string>, sources: set<string>,
    scenario: Option<string -> bool>, reputable: Option<set<string>>, maxEntries: int)

  /** Shell-style glob matching, given from outside: (text, pattern). */
  type Glob = (string, string) -> bool

  predicate OriginOk(cfg: Config, glob: Glob, origin: string) {
    && (forall i :: 0 <= i < |cfg.excludeOrigins| ==> !glob(origin, cfg.excludeOrigins[i]))
    && (cfg.origins == [] || exists i :: 0 <= i < |cfg.origins| && glob(origin, cfg.origins[i]))
  }

  predicate Passes(cfg: Config, glob: Glob, d: Decision) {
    && OriginOk(cfg, glob, d.origin)
    && (cfg.sources == {} || d.originSource in cfg.sources)
    && (cfg.scenario.Some? ==> cfg.scenario.value(d.scenario))
    && (cfg.reputable.Some? ==> d.value in cfg.reputable.value)
  }

  function Admits(cfg: Config, glob: Glob): Decision -> bool {
    d => Passes(cfg, glob, d)
  }

  function Passing(cfg: Config, glob: Glob, ds: seq<Decision>): seq<Decision> {
    Filter(ds, Admits(cfg, glob))
  }

  // ----- the stable sort, newest LAPI id first -----

  function InsertDesc(s: seq<Decision>, x: Decision): (r: seq<Decision>)
    ensures |r| == |s| + 1
  {
    var n := |s| - 1;
    if s == [] || s[n].lapiId >= x.lapiId then s + [x] else InsertDesc(s[..n], x) + [s[n]]
  }

  function SortDesc(s: seq<Decision>): (r: seq<Decision>)
    ensures |r| == |s|
  {
    if s == [] then [] else InsertDesc(SortDesc(s[..|s| - 1]), s[|s| - 1])
  }

  ghost predicate Descending(s: seq<Decision>) {
    forall i, j :: 0 <= i < j < |s| ==> s[i].lapiId >= s[j].lapiId
  }

  lemma {:induction false} InsertPermutes(s: seq<Decision>, x: Decision)
    ensures multiset(InsertDesc(s, x)) == multiset(s) + multiset{x}
  {
    var n := |s| - 1;
    if s != [] && s[n].lapiId < x.lapiId {
      InsertPermutes(s[..n], x);
      assert s == s[..n] + [s[n]];
    }
  }

  lemma {:induction false} InsertSorted(s: seq<Decision>, x: Decision, low: int)
    requires Descending(s) && x.lapiId >= low && forall i :: 0 <= i < |s| ==> s[i].lapiId >= low
    ensures Descending(InsertDesc(s, x))
    ensures forall i :: 0 <= i <= |s| ==> InsertDesc(s, x)[i].lapiId >= low
  {
    var n := |s| - 1;
    if s != [] && s[n].lapiId < x.lapiId {
      InsertSorted(s[..n], x, s[n].lapiId);
    }
  }

  lemma {:induction false} SortDescends(s: seq<Decision>)
    ensures Descending(SortDesc(s))
  {
    if s != [] {
      var r, x := SortDesc(s[..|s| - 1]), s[|s| - 1];
      SortDescends(s[..|s| - 1]);
      InsertSorted(r, x, if r == [] || x.lapiId < r[|r| - 1].lapiId then x.lapiId else r[|r| - 1].lapiId);
    }
  }

  lemma {:induction false} SortPermutes(s: seq<Decision>)
    ensures multiset(SortDesc(s)) == multiset(s)
  {
    hide InsertDesc;
    if s != [] {
      SortPermutes(s[..|s| - 1]);
      InsertPermutes(SortDesc(s[..|s| - 1]), s[|s| - 1]);
      assert s == s[..|s| - 1] + [s[|s| - 1]];
    }
  }

  /** Decisions with one LAPI id, in order. */
  function WithId(s: seq<Decision>, id: int): seq<Decision> {
    Filter(s, HasId(id))
  }

  function HasId(id: int): Decision -> bool {
    (d: Decision) => d.lapiId == id
  }

  lemma {:induction false} InsertStable(s: seq<Decision>, x: Decision, id: int)
    requires Descending(s)
    ensures WithId(InsertDesc(s, x), id) == WithId(s + [x], id)
  {
    var n := |s| - 1;
    FilterAppend(s, x, HasId(id));
    if s != [] && s[n].lapiId < x.lapiId {
      InsertStable(s[..n], x, id);
      FilterAppend(InsertDesc(s[..n], x), s[n], HasId(id));
      FilterAppend(s[..n], x, HasId(id));
      FilterAppend(s[..n], s[n], HasId(id));
      assert s == s[..n] + [s[n]];
    }
  }

  /** Ties keep their order. */
  lemma {:induction false} SortStable(s: seq<Decision>, id: int)
    ensures WithId(SortDesc(s), id) == WithId(s, id)
  {
    if s != [] {
      var init, x := s[..|s| - 1], s[|s| - 1];
      SortStable(init, id);
      SortDescends(init);
      InsertStable(SortDesc(init), x, id);
      FilterAppend(SortDesc(init), x, HasId(id));
      FilterAppend(init, x, HasId(id));
      assert s == init + [x];
    }
  }

  // ----- the filter -----

  /** `s[:n]`, where a negative `n` counts from the end. */
  function Prefix<T>(s: seq<T>, n: int): (r: seq<T>)
    ensures r <= s
  {
    var k := if n < 0 then n + |s| else n;
    s[..if k < 0 then 0 else if k > |s| then |s| else k]
  }

  function FilterDesired(cfg: Config, glob: Glob, ds: seq<Decision>): seq<Decision> {
    var p := Passing(cfg, glob, ds);
    if cfg.maxEntries != 0 && |p| > cfg.maxEntries then Prefix(SortDesc(p), cfg.maxEntries) else p
  }

  /** A prefix of a sorted permutation: the rest is what was dropped, and nothing kept is older. */
  lemma KeptAreNewest(p: seq<Decision>, n: nat)
    requires n <= |p|
    ensures var kept, dropped := SortDesc(p)[..n], SortDesc(p)[n..];
            && multiset(kept) + multiset(dropped) == multiset(p)
            && (forall d :: d in kept ==> d in p)
            && (forall a, b :: a in kept && b in dropped ==> a.lapiId >= b.lapiId)
  {
    hide SortDesc, Descending;
    var s := SortDesc(p);
    SortPermutes(p);
    SplitPermutes(s, n);
    forall d | d in s[..n] ensures d in p { assert d in multiset(s); }
    forall a, b | a in s[..n] && b in s[n..] ensures a.lapiId >= b.lapiId {
      SortDescends(p);
      SplitDescends(s, n, a, b);
    }
  }

  lemma SplitPermutes(s: seq<Decision>, n: nat)
    requires n <= |s|
    ensures multiset(s[..n]) + multiset(s[n..]) == multiset(s)
    ensures forall d :: d in s[..n] ==> d in s
  {
    assert s == s[..n] + s[n..];
  }

  lemma SplitDescends(s: seq<Decision>, n: nat, a: Decision, b: Decision)
    requires Descending(s) && n <= |s| && a in s[..n] && b in s[n..]
    ensures a.lapiId >= b.lapiId
  {
    var i :| 0 <= i < n && s[..n][i] == a;
    var j :| 0 <= j < |s| - n && s[n..][j] == b;
    assert s[i] == a && s[n + j] == b;
  }

  /** Everything kept was asked for and meets every filter. With a positive cap at most that
      many are kept; when the cap bites, kept and dropped together are exactly the decisions
      that pass, and nothing kept is older than anything dropped. */
  lemma FilterExactly(cfg: Config, glob: Glob, ds: seq<Decision>) returns (dropped: seq<Decision>)
    ensures var kept := FilterDesired(cfg, glob, ds);
            && (forall d :: d in kept ==> d in ds && Passes(cfg, glob, d))
            && multiset(kept) + multiset(dropped) == multiset(Passing(cfg, glob, ds))
            && (forall a, b :: a in kept && b in dropped ==> a.lapiId >= b.lapiId)
            && (cfg.maxEntries > 0 ==> |kept| <= cfg.maxEntries)
            && (dropped != [] && cfg.maxEntries > 0 ==> |kept| == cfg.maxEntries)
            && (cfg.maxEntries == 0 || |Passing(cfg, glob, ds)| <= cfg.maxEntries ==> kept == Passing(cfg, glob, ds))
            && (dropped != [] ==> Descending(kept))
  {
    hide Passes, SortDesc;
    var p, kept := Passing(cfg, glob, ds), FilterDesired(cfg, glob, ds);
    FilterExact(ds, Admits(cfg, glob));
    assert forall d :: d in p ==> d in ds && Passes(cfg, glob, d);
    dropped := [];
    if cfg.maxEntries != 0 && |p| > cfg.maxEntries {
      dropped := SortDesc(p)[|kept|..];
      assert kept == SortDesc(p)[..|kept|];
      KeptAreNewest(p, |kept|);
      SortDescends(p);
    }
  }

  // ----- the cap bounds what a settled target holds -----

  lemma {:induction false} KeysBounded<T, K>(xs: seq<T>, key: T -> Option<K>)
    ensures |FirstWins(xs, key).keys| <= |xs|
  {
    if xs != [] { KeysBounded(xs[..|xs| - 1], key); }
  }

  lemma {:induction false} NormsBounded(vs: set<string>)
    ensures |Norms(vs)| <= |vs|
  {
    hide Normalize;
    if v :| v in vs {
      NormsBounded(vs - {v});
      assert Norms(vs) == Norms(vs - {v}) + {Normalize(v)};
    } else {
      assert Norms(vs) == {};
    }
  }

  /** The distinct normalised addresses Protek owns on a firewall. */
  ghost function OwnedAddresses(t: Table): set<string> {
    set id | id in t.entries && Ours(t.entries[id]) :: Normalize(t.entries[id].address)
  }

  /** A target with nothing stale for a capped desired list owns at most `maxEntries` addresses. */
  lemma CapBoundsTarget(t: Table, cfg: Config, glob: Glob, ds: seq<Decision>, w: set<string>)
    requires cfg.maxEntries > 0
    requires forall v :: v in w <==> Wants(FilterDesired(cfg, glob, ds), v)
    requires Stale(t, w) == {}
    ensures |OwnedAddresses(t)| <= cfg.maxEntries
  {
    hide Normalize, IsOwned, FilterDesired, WantedKey;
    var kept := FilterDesired(cfg, glob, ds);
    var _ := FilterExactly(cfg, glob, ds);
    var keys := FirstWins(kept, WantedKey).keys;
    FirstWinsKeys(kept, WantedKey);
    KeysBounded(kept, WantedKey);
    DistinctSize(keys);
    assert w == set k | k in keys by {
      assert forall v :: v in w <==> v in FirstWins(kept, WantedKey).at;
    }
    NormsBounded(w);
    forall a | a in OwnedAddresses(t) ensures a in Norms(w) {
      var id :| id in t.entries && Ours(t.entries[id]) && Normalize(t.entries[id].address) == a;
      assert id !in Stale(t, w);
    }
    SubsetSize(OwnedAddresses(t), Norms(w));
  }

  // ----- what each setting of the filter admits -----

  /** A filter with nothing set. */
  const OPEN: Config := Config([], [], {}, None, None, 0)

  lemma AdmitsExactly(cfg: Config, glob: Glob, ds: seq<Decision>, d: Decision)
    ensures d in Passing(cfg, glob, ds) <==> d in ds && Passes(cfg, glob, d)
  {
    hide Passes;
    FilterExact(ds, Admits(cfg, glob));
  }

  /** With nothing set, everything is kept as it is. */
  lemma {:induction false} OpenKeepsAll(glob: Glob, ds: seq<Decision>)
    ensures FilterDesired(OPEN, glob, ds) == ds
  {
    if ds != [] {
      OpenKeepsAll(glob, ds[..|ds| - 1]);
      assert ds == ds[..|ds| - 1] + [ds[|ds| - 1]];
    }
  }

  /** Origin patterns keep what matches one of them, exclusions drop what matches one of them, and an
      exclusion beats a pattern. The text is the origin. */
  lemma OriginsKeep(origins: seq<string>, excluded: seq<string>, glob: Glob, ds: seq<Decision>, d: Decision)
    requires origins != []
    ensures d in Passing(OPEN.(origins := origins), glob, ds) <==>
            d in ds && exists o :: o in origins && glob(d.origin, o)
    ensures d in Passing(OPEN.(excludeOrigins := excluded), glob, ds) <==>
            d in ds && forall o :: o in excluded ==> !glob(d.origin, o)
    ensures d in Passing(OPEN.(origins := origins, excludeOrigins := excluded), glob, ds) <==>
            && d in Passing(OPEN.(origins := origins), glob, ds)
            && d in Passing(OPEN.(excludeOrigins := excluded), glob, ds)
  {
    hide Passing;
    AdmitsExactly(OPEN.(origins := origins), glob, ds, d);
    AdmitsExactly(OPEN.(excludeOrigins := excluded), glob, ds, d);
    AdmitsExactly(OPEN.(origins := origins, excludeOrigins := excluded), glob, ds, d);
    assert forall i :: 0 <= i < |origins| ==> origins[i] in origins;
    assert forall i :: 0 <= i < |excluded| ==> excluded[i] in excluded;
  }

  /** The source names, the scenario pattern and the minimum reputation each look at their own field. */
  lemma FieldsKeep(sources: set<string>, pattern: string -> bool, good: set<string>, glob: Glob, ds: seq<Decision>, d: Decision)
    requires sources != {}
    ensures d in Passing(OPEN.(sources := sources), glob, ds) <==> d in ds && d.originSource in sources
    ensures d in Passing(OPEN.(scenario := Some(pattern)), glob, ds) <==> d in ds && pattern(d.scenario)
    ensures d in Passing(OPEN.(reputable := Some(good)), glob, ds) <==> d in ds && d.value in good
  {
    hide Passing;
    AdmitsExactly(OPEN.(sources := sources), glob, ds, d);
    AdmitsExactly(OPEN.(scenario := Some(pattern)), glob, ds, d);
    AdmitsExactly(OPEN.(reputable := Some(good)), glob, ds, d);
  }

  /** A filter keeps what each of its settings alone keeps. */
  lemma SettingsCombine(cfg: Config, glob: Glob, ds: seq<Decision>, d: Decision)
    ensures d in Passing(cfg, glob, ds) <==>
            && d in Passing(OPEN.(origins := cfg.origins), glob, ds)
            && d in Passing(OPEN.(excludeOrigins := cfg.excludeOrigins), glob, ds)
            && d in Passing(OPEN.(sources := cfg.sources), glob, ds)
            && d in Passing(OPEN.(scenario := cfg.scenario), glob, ds)
            && d in Passing(OPEN.(reputable := cfg.reputable), glob, ds)
  {
    hide Passing;
    AdmitsExactly(cfg, glob, ds, d);
    AdmitsExactly(OPEN.(origins := cfg.origins), glob, ds, d);
    AdmitsExactly(OPEN.(excludeOrigins := cfg.excludeOrigins), glob, ds, d);
    AdmitsExactly(OPEN.(sources := cfg.sources), glob, ds, d);
    AdmitsExactly(OPEN.(scenario := cfg.scenario), glob, ds, d);
    AdmitsExactly(OPEN.(reputable := cfg.reputable), glob, ds, d);
  }

  /** A negative cap always bites and drops that many of the oldest. */
  lemma NegativeCap(cfg: Config, glob: Glob, ds: seq<Decision>)
    requires cfg.maxEntries < 0
    ensures var n, p := -cfg.maxEntries, Passing(cfg, glob, ds);
            |FilterDesired(cfg, glob, ds)| == if n <= |p| then |p| - n else 0
  {
    hide Passing, SortDesc;
  }
}
