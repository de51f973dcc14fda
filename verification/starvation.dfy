/** Exactly when the capped adds of a fixed desired list reach every address they can
    (reconciler.py `_run_one_bouncer`, reconcile.py). */
module Starvation {
  import opened Text
  import opened Ordered
  import opened Ownership
  import opened Diff
  import opened Target
  import opened Convergence

  /** The wanted values, in the order additions are proposed. */
  function KeysOf(ds: seq<Decision>): seq<string> {
    FirstWins(ds, WantedKey).keys
  }

  ghost predicate IsMissing(t: Table, same: SameAddress, v: string) {
    !Owns(t, Normalize(v)) && !Collides(t, same, v)
  }

  /** A missing address before position `x` has the same normal form as `v`. */
  ghost predicate HasTwin(t: Table, same: SameAddress, keys: seq<string>, x: nat, v: string)
    requires x <= |keys|
  {
    exists m :: 0 <= m < x && IsMissing(t, same, keys[m]) && Normalize(keys[m]) == Normalize(v)
  }

  /** The positions before `x` of colliding addresses that no earlier missing one would settle. */
  ghost function Obstacles(t: Table, same: SameAddress, keys: seq<string>, x: nat): set<int>
    requires x <= |keys|
  {
    set k | 0 <= k < x && !Owns(t, Normalize(keys[k])) && Collides(t, same, keys[k]) && !HasTwin(t, same, keys, x, keys[k])
  }

  /** The first missing address of its normal form. */
  ghost predicate Leads(t: Table, same: SameAddress, keys: seq<string>, x: int) {
    0 <= x < |keys| && IsMissing(t, same, keys[x]) && !HasTwin(t, same, keys, x, keys[x])
  }

  /** Every missing normal form has fewer obstacles before it than an add batch holds. */
  ghost predicate Unobstructed(t: Table, same: SameAddress, keys: seq<string>, cap: nat) {
    forall x :: Leads(t, same, keys, x) ==> |Obstacles(t, same, keys, x)| < cap
  }

  /** The firewall takes no text in play for a wanted address of another normal form. */
  ghost predicate Separated(t: Table, same: SameAddress, w: set<string>) {
    forall v :: v in w ==> !HasRival(t, same, w, v)
  }

  // ----- where a proposal stands -----

  ghost function OpenBefore(t: Table, keys: seq<string>, y: nat): set<int>
    requires y <= |keys|
  {
    set k | 0 <= k < y && !Owns(t, Normalize(keys[k]))
  }

  lemma KeysExact(ds: seq<Decision>, w: set<string>)
    requires forall v :: Wants(ds, v) <==> v in w
    ensures Distinct(KeysOf(ds)) && forall v :: v in KeysOf(ds) <==> v in w
  {
    hide WantedKey;
    FirstWinsKeys(ds, WantedKey);
  }

  /** A proposal stands behind exactly the unowned addresses before it. */
  lemma ProposalPlace(t: Table, c: Cycle, w: set<string>, y: nat) returns (i: nat)
    requires Live(t, c, w) && y < |KeysOf(c.desired)| && !Owns(t, Normalize(KeysOf(c.desired)[y]))
    ensures i == |OpenBefore(t, KeysOf(c.desired), y)|
    ensures i < |Plan(t, c).toAdd| && Plan(t, c).toAdd[i].0 == KeysOf(c.desired)[y]
  {
    hide Normalize, IsOwned, Plan, Owns, WantedKey, OwnedKey, Listing, Wants;
    var keys, p := KeysOf(c.desired), Unowned(LastWins(Listing(t, c), OwnedKey).at);
    PlannedAdds(t, c, w);
    KeysExact(c.desired, w);
    FilterExact(keys, p);
    forall k | 0 <= k < |keys| ensures p(keys[k]) <==> !Owns(t, Normalize(keys[k])) { assert keys[k] in keys; }
    FilterPosition(keys, p, y);
    FilterCount(keys, p, y);
    assert PassingAt(keys, p, y) == OpenBefore(t, keys, y);
    i := |OpenBefore(t, keys, y)|;
  }

  /** Proposals are distinct, so the place is the only one. */
  lemma ProposalPlaceUnique(t: Table, c: Cycle, w: set<string>, y: nat, i: nat)
    requires Live(t, c, w) && y < |KeysOf(c.desired)|
    requires i < |Plan(t, c).toAdd| && Plan(t, c).toAdd[i].0 == KeysOf(c.desired)[y]
    ensures i == |OpenBefore(t, KeysOf(c.desired), y)| && !Owns(t, Normalize(KeysOf(c.desired)[y]))
  {
    hide Normalize, IsOwned, Plan, Owns, WantedKey, Listing, KeysOf, AddKeys;
    PlannedAdds(t, c, w);
    var keys := AddKeys(c.desired, Listing(t, c));
    assert keys[i] in keys;
    var j := ProposalPlace(t, c, w, y);
    assert keys[j] == keys[i];
  }

  // ----- along a run -----

  /** A run of good cycles on one desired list. */
  ghost predicate SteadyRun(t: Table, same: SameAddress, cs: seq<Cycle>, ds: seq<Decision>, w: set<string>, cap: nat) {
    && t.Valid() && GoodRun(t, same, cs, w, cap) && (forall v :: Wants(ds, v) <==> v in w)
    && forall i :: 0 <= i < |cs| ==> cs[i].desired == ds
  }

  /** What a run keeps: collisions, ownership of wanted addresses, separation. */
  ghost predicate Later(t: Table, u: Table, same: SameAddress, w: set<string>) {
    && (forall v :: Collides(u, same, v) <==> Collides(t, same, v))
    && (forall v :: v in w && Owns(t, Normalize(v)) ==> Owns(u, Normalize(v)))
    && (Separated(t, same, w) ==> Separated(u, same, w))
  }

  lemma LaterStep(t: Table, u: Table, same: SameAddress, c: Cycle, w: set<string>)
    requires Later(t, u, same, w) && Live(u, c, w)
    ensures Later(t, RunCycle(u, same, c), same, w)
  {
    hide Normalize, IsOwned, RunCycle, Collides, Owns, InPlay;
    var u' := RunCycle(u, same, c);
    forall v ensures Collides(u', same, v) <==> Collides(t, same, v) { ForeignSame(u, same, c, v); }
    forall v | v in w && Owns(u, Normalize(v)) ensures Owns(u', Normalize(v)) { OwnedStays(u, same, c, w, v); }
    forall a | InPlay(u', w, a) ensures InPlay(u, w, a) { PlayShrinks(u, same, c, w, a); }
  }

  lemma {:induction false} RunIsLater(t: Table, same: SameAddress, cs: seq<Cycle>, ds: seq<Decision>, w: set<string>, cap: nat)
    requires SteadyRun(t, same, cs, ds, w, cap)
    ensures Later(t, RunCycles(t, same, cs), same, w)
  {
    hide Normalize, IsOwned, RunCycle, Collides, Owns, Wants, Live, Separated;
    if cs != [] {
      RunIsLater(t, same, cs[..|cs| - 1], ds, w, cap);
      LaterStep(t, RunCycles(t, same, cs[..|cs| - 1]), same, cs[|cs| - 1], w);
    }
  }

  lemma {:induction false} FirstMissing(u: Table, same: SameAddress, keys: seq<string>, y: nat) returns (x: nat)
    requires y < |keys| && IsMissing(u, same, keys[y])
    ensures x <= y && IsMissing(u, same, keys[x]) && forall m :: 0 <= m < x ==> !IsMissing(u, same, keys[m])
  {
    hide IsMissing;
    if m :| 0 <= m < y && IsMissing(u, same, keys[m]) {
      x := FirstMissing(u, same, keys, m);
    } else {
      x := y;
    }
  }

  /** The first address still missing leads its normal form, and everything open before it was an
      obstacle from the start. */
  lemma FirstMissingLeads(t: Table, u: Table, same: SameAddress, keys: seq<string>, w: set<string>, x: nat)
    requires Later(t, u, same, w) && x < |keys| && (forall k :: 0 <= k < |keys| ==> keys[k] in w)
    requires IsMissing(u, same, keys[x]) && forall m :: 0 <= m < x ==> !IsMissing(u, same, keys[m])
    ensures Leads(t, same, keys, x) && OpenBefore(u, keys, x) <= Obstacles(t, same, keys, x)
  {
    hide Normalize, Collides, Owns, Separated;
    forall k | 0 <= k <= x && !Owns(u, Normalize(keys[k])) ensures !HasTwin(t, same, keys, x, keys[k]) {
      forall m | 0 <= m < x && IsMissing(t, same, keys[m]) ensures Owns(u, Normalize(keys[m])) {
        assert !IsMissing(u, same, keys[m]);
      }
    }
  }

  /** An unobstructed list never stalls: while something is missing, the cycle is not blocked. */
  lemma NeverBlocked(t: Table, u: Table, same: SameAddress, c: Cycle, w: set<string>, cap: nat)
    requires Later(t, u, same, w) && Separated(t, same, w) && Live(u, c, w) && c.cap == cap
    requires Unobstructed(t, same, KeysOf(c.desired), cap) && Missing(u, same, w) != {}
    ensures !Blocked(u, same, c)
  {
    hide Normalize, Collides, Owns, Plan, WantedKey, Wants, IsOwned, Obstacles, OpenBefore, Leads, KeysOf, Present;
    var keys := KeysOf(c.desired);
    KeysExact(c.desired, w);
    var v :| v in Missing(u, same, w);
    var y :| 0 <= y < |keys| && keys[y] == v;
    var x := FirstMissing(u, same, keys, y);
    assert forall k :: 0 <= k < |keys| ==> keys[k] in w by { assert forall k :: 0 <= k < |keys| ==> keys[k] in keys; }
    FirstMissingLeads(t, u, same, keys, w, x);
    SubsetSize(OpenBefore(u, keys, x), Obstacles(t, same, keys, x));
    var i := ProposalPlace(u, c, w, x);
    assert !Present(u, same, keys[x]) by { MissingIsFree(u, same, w, keys[x]); }
  }

  lemma MissingIsFree(u: Table, same: SameAddress, w: set<string>, v: string)
    requires v in w && IsMissing(u, same, v) && Separated(u, same, w)
    ensures !Present(u, same, v)
  {
    hide Normalize, IsOwned;
    forall id | id in u.entries && Ours(u.entries[id]) ensures !same(u.entries[id].address, v) {
      assert InPlay(u, w, u.entries[id].address);
    }
  }

  lemma {:induction false} UnobstructedSettles(t: Table, same: SameAddress, cs: seq<Cycle>, ds: seq<Decision>, w: set<string>, cap: nat)
    requires SteadyRun(t, same, cs, ds, w, cap) && Separated(t, same, w) && Unobstructed(t, same, KeysOf(ds), cap)
    ensures var u := RunCycles(t, same, cs);
            Missing(u, same, w) == {} || |Missing(u, same, w)| + |cs| <= |Missing(t, same, w)|
  {
    hide Normalize, IsOwned, RunCycle, Wants, Live, Separated, Unobstructed, Missing, Later;
    if cs != [] {
      var init, c := cs[..|cs| - 1], cs[|cs| - 1];
      UnobstructedSettles(t, same, init, ds, w, cap);
      RunIsLater(t, same, init, ds, w, cap);
      var v, u := RunCycles(t, same, init), RunCycles(t, same, cs);
      MissingMonotone(v, same, c, w);
      if Missing(v, same, w) != {} {
        NeverBlocked(t, v, same, c, w, cap);
        MissingShrinksExactly(v, same, c, w);
      }
      SubsetSize(Missing(u, same, w), Missing(v, same, w));
    }
  }

  // ----- an obstructed list starves -----

  /** Nothing has become owned that would clear the way to position `x`. */
  ghost predicate Stuck(t: Table, u: Table, same: SameAddress, keys: seq<string>, x: nat)
    requires x < |keys|
  {
    !Owns(u, Normalize(keys[x])) && forall k :: k in Obstacles(t, same, keys, x) ==> !Owns(u, Normalize(keys[k]))
  }

  /** A normal form that becomes owned in a cycle was brought by a missing address in the budget. */
  lemma NewlyOwned(u: Table, same: SameAddress, c: Cycle, w: set<string>, a: string) returns (y: nat)
    requires Live(u, c, w) && !Owns(u, a) && Owns(RunCycle(u, same, c), a)
    ensures y < |KeysOf(c.desired)| && Normalize(KeysOf(c.desired)[y]) == a
    ensures IsMissing(u, same, KeysOf(c.desired)[y]) && |OpenBefore(u, KeysOf(c.desired), y)| < c.cap
  {
    hide Normalize, IsOwned, Plan, WantedKey, Wants, Present, AddAll, OpenBefore, KeysOf;
    var u', adds := RunCycle(u, same, c), Take(Plan(u, c).toAdd, c.cap);
    LiveApplies(u, same, c, w);
    var mid := AddAll(u, same, adds, c.failedAdds);
    RemoveAllShrinks(mid, Take(Plan(u, c).toRemove, c.cap), c.failedRemoves);
    var id :| id in u'.entries && Ours(u'.entries[id]) && Normalize(u'.entries[id].address) == a;
    AddAllExtends(u, same, adds, c.failedAdds);
    var i := AddedWasFree(u, same, adds, c.failedAdds, id);
    PlannedAdds(u, c, w);
    KeysExact(c.desired, w);
    var keys, v := KeysOf(c.desired), Plan(u, c).toAdd[i].0;
    assert v in w by { assert v in AddKeys(c.desired, Listing(u, c)); }
    y :| 0 <= y < |keys| && keys[y] == v;
    ProposalPlaceUnique(u, c, w, y, i);
    FreeIsUncontested(u, same, v);
  }

  lemma StuckStep(t: Table, u: Table, same: SameAddress, c: Cycle, w: set<string>, x: nat)
    requires Later(t, u, same, w) && Live(u, c, w) && x < |KeysOf(c.desired)|
    requires Leads(t, same, KeysOf(c.desired), x) && c.cap <= |Obstacles(t, same, KeysOf(c.desired), x)|
    requires Stuck(t, u, same, KeysOf(c.desired), x)
    ensures Stuck(t, RunCycle(u, same, c), same, KeysOf(c.desired), x)
  {
    hide Normalize, IsOwned, WantedKey, Wants, Owns, Collides, RunCycle, Separated, KeysOf;
    var keys, u' := KeysOf(c.desired), RunCycle(u, same, c);
    var here := Obstacles(t, same, keys, x);
    KeysExact(c.desired, w);
    assert forall y :: 0 <= y < |keys| ==> keys[y] in w by { assert forall y :: 0 <= y < |keys| ==> keys[y] in keys; }
    forall k | k == x || k in here ensures !Owns(u', Normalize(keys[k])) {
      if Owns(u', Normalize(keys[k])) {
        var y := NewlyOwned(u, same, c, w, Normalize(keys[k]));
        StuckBudget(t, u, same, keys, x, y);
        assert false;
      }
    }
  }

  /** Behind the obstacles there is no room in the budget. */
  lemma StuckBudget(t: Table, u: Table, same: SameAddress, keys: seq<string>, x: nat, y: nat)
    requires x < |keys| && y < |keys| && Stuck(t, u, same, keys, x)
    requires |OpenBefore(u, keys, y)| < |Obstacles(t, same, keys, x)|
    ensures y < x
  {
    hide Normalize, Owns, Collides, HasTwin;
    if x <= y {
      SubsetSize(Obstacles(t, same, keys, x), OpenBefore(u, keys, y));
      assert false;
    }
  }

  lemma {:induction false} StuckForever(
    t: Table, same: SameAddress, cs: seq<Cycle>, ds: seq<Decision>, w: set<string>, cap: nat, x: nat)
    requires SteadyRun(t, same, cs, ds, w, cap) && x < |KeysOf(ds)|
    requires Leads(t, same, KeysOf(ds), x) && cap <= |Obstacles(t, same, KeysOf(ds), x)|
    ensures Stuck(t, RunCycles(t, same, cs), same, KeysOf(ds), x)
  {
    hide Normalize, IsOwned, RunCycle, Wants, Live, Owns, Collides, Later, KeysOf, HasTwin;
    if cs != [] {
      var init, c := cs[..|cs| - 1], cs[|cs| - 1];
      StuckForever(t, same, init, ds, w, cap, x);
      RunIsLater(t, same, init, ds, w, cap);
      StuckStep(t, RunCycles(t, same, init), same, c, w, x);
    }
  }

  lemma StuckIsMissing(t: Table, u: Table, same: SameAddress, ds: seq<Decision>, w: set<string>, x: nat)
    requires (forall v :: Wants(ds, v) <==> v in w) && Later(t, u, same, w) && Leads(t, same, KeysOf(ds), x)
    requires Stuck(t, u, same, KeysOf(ds), x)
    ensures KeysOf(ds)[x] in Missing(u, same, w)
  {
    hide Normalize, IsOwned, Owns, Collides, KeysOf, Wants, Obstacles;
    KeysExact(ds, w);
    assert KeysOf(ds)[x] in KeysOf(ds);
  }

  /** For a fixed desired list, a run of working cycles as long as the backlog owns every address it
      can if and only if no missing normal form has a whole batch of obstacles before it. */
  lemma ReachesEveryoneExactly(t: Table, same: SameAddress, cs: seq<Cycle>, ds: seq<Decision>, w: set<string>, cap: nat)
    requires SteadyRun(t, same, cs, ds, w, cap) && Separated(t, same, w) && |Missing(t, same, w)| <= |cs|
    ensures Missing(RunCycles(t, same, cs), same, w) == {} <==> Unobstructed(t, same, KeysOf(ds), cap)
  {
    hide SteadyRun, Separated, Missing, Obstacles, IsMissing, HasTwin, KeysOf, Stuck, RunCycles, Later;
    if Unobstructed(t, same, KeysOf(ds), cap) {
      UnobstructedSettles(t, same, cs, ds, w, cap);
    } else {
      var x :| Leads(t, same, KeysOf(ds), x) && |Obstacles(t, same, KeysOf(ds), x)| >= cap;
      ObstructedStarves(t, same, cs, ds, w, cap, x);
    }
  }

  /** Behind a whole batch of obstacles an address stays missing however long the run. */
  lemma ObstructedStarves(t: Table, same: SameAddress, cs: seq<Cycle>, ds: seq<Decision>, w: set<string>, cap: nat, x: int)
    requires SteadyRun(t, same, cs, ds, w, cap) && Leads(t, same, KeysOf(ds), x)
    requires cap <= |Obstacles(t, same, KeysOf(ds), x)|
    ensures KeysOf(ds)[x] in Missing(RunCycles(t, same, cs), same, w)
  {
    hide Normalize, IsOwned, Owns, Collides, KeysOf, Wants, Obstacles, Missing, Later, GoodRun, HasTwin;
    StuckForever(t, same, cs, ds, w, cap, x);
    RunIsLater(t, same, cs, ds, w, cap);
    StuckIsMissing(t, RunCycles(t, same, cs), same, ds, w, x);
  }

  // ----- both outcomes happen -----

  function Asking(v: string): Decision {
    Decision(v, "", "", "", "", 0)
  }

  /** A list holding one foreign entry, for `x`. */
  function Taken(x: string): Table {
    Table(map[0 := Held(x, "")], 1)
  }

  function SameText(): SameAddress {
    (a: string, b: string) => a == b
  }

  function OneAtATime(ds: seq<Decision>): Cycle {
    Cycle(ds, Some([0]), true, false, 1, true, {}, {})
  }

  lemma KeysOfTwo(x: string, y: string)
    requires x != y && Trim(x) == x != "" && Trim(y) == y != ""
    ensures KeysOf([Asking(x), Asking(y)]) == [x, y]
  {
    hide Trim;
    var ds := [Asking(x), Asking(y)];
    assert ds[..1] == [Asking(x)] && ds[..1][..0] == [];
    assert FirstWins(ds[..1], WantedKey) == Dict([x], map[x := Asking(x)]);
  }

  lemma WantsTwo(x: string, y: string, v: string)
    requires x != y && Trim(x) == x != "" && Trim(y) == y != ""
    ensures Wants([Asking(x), Asking(y)], v) <==> v in {x, y}
  {
    hide Trim;
    var ds := [Asking(x), Asking(y)];
    assert WantedKey(ds[0]) == Some(x) && WantedKey(ds[1]) == Some(y);
  }

  lemma ForeignHolds(x: string, v: string)
    ensures Collides(Taken(x), SameText(), v) <==> v == x
    ensures !Owns(Taken(x), Normalize(v))
  {
    hide Normalize;
    assert !Ours(Taken(x).entries[0]);
  }

  /** With room for one add, a foreign entry for the first wanted address walls in the second. */
  lemma OneForeignEntryStarves(x: string, y: string)
    requires x != y && Trim(x) == x != "" && Trim(y) == y != ""
    ensures var t, c, w := Taken(x), OneAtATime([Asking(x), Asking(y)]), {x, y};
            Live(t, c, w) && Walled(t, SameText(), c) && Missing(t, SameText(), w) == {y}
  {
    hide Trim, Normalize, Plan, IsOwned, WantedKey, Owns, Collides;
    var t, c, w, keys := Taken(x), OneAtATime([Asking(x), Asking(y)]), {x, y}, [x, y];
    forall v ensures Wants(c.desired, v) <==> v in w { WantsTwo(x, y, v); }
    forall v ensures (Collides(t, SameText(), v) <==> v == x) && !Owns(t, Normalize(v)) { ForeignHolds(x, v); }
    KeysOfTwo(x, y);
    assert keys[0] == x;
    var i := ProposalPlace(t, c, w, 0);
    assert OpenBefore(t, keys, 0) == {};
    assert i == 0 && Plan(t, c).toAdd[0].0 == x;
  }

  /** The same list with the two addresses asked for in the other order is unobstructed, although
      as many addresses collide as a batch holds. */
  lemma OrderMatters(x: string, y: string)
    requires x != y && Trim(x) == x != "" && Trim(y) == y != ""
    ensures Colliding(Taken(x), SameText(), {x, y}) == {x}
    ensures Unobstructed(Taken(x), SameText(), KeysOf([Asking(y), Asking(x)]), 1)
  {
    hide Trim, Normalize, IsOwned, Owns, Collides, KeysOf;
    var t, keys := Taken(x), [y, x];
    forall v ensures (Collides(t, SameText(), v) <==> v == x) && !Owns(t, Normalize(v)) { ForeignHolds(x, v); }
    KeysOfTwo(y, x);
    forall z | Leads(t, SameText(), keys, z) ensures |Obstacles(t, SameText(), keys, z)| < 1 {
      assert keys[z] != x;
      assert z == 0 && Obstacles(t, SameText(), keys, 0) == {};
    }
  }
}
