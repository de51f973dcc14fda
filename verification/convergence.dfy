/** What repeated cycles achieve for a fixed set of wanted addresses (reconciler.py, reconcile.py). */
module Convergence {
  import opened Text
  import opened Ordered
  import opened Ownership
  import opened Diff
  import opened Target

  /** The firewall never calls two addresses the same unless Protek's normal form agrees. */
  ghost predicate Sound(same: SameAddress) {
    forall a, b :: same(a, b) ==> Normalize(a) == Normalize(b)
  }

  ghost predicate Owns(t: Table, a: string) {
    exists id :: id in t.entries && Ours(t.entries[id]) && Normalize(t.entries[id].address) == a
  }

  /** The firewall would refuse `v` because someone else's entry already holds it. */
  ghost predicate Collides(t: Table, same: SameAddress, v: string) {
    exists id :: id in t.entries && !Ours(t.entries[id]) && same(t.entries[id].address, v)
  }

  /** Owned entries nobody wants any more. */
  ghost function Stale(t: Table, w: set<string>): set<Id> {
    set id | id in t.entries && Ours(t.entries[id]) && Normalize(t.entries[id].address) !in Norms(w)
  }

  ghost function Colliding(t: Table, same: SameAddress, w: set<string>): set<string> {
    set v | v in w && Collides(t, same, v)
  }

  /** The address text `a` can turn up in an entry of Protek's: it is there, or wanted. */
  ghost predicate InPlay(t: Table, w: set<string>, a: string) {
    a in w || exists id :: id in t.entries && Ours(t.entries[id]) && t.entries[id].address == a
  }

  /** The firewall takes a text in play for `v` although Protek's normal form tells them apart. */
  ghost predicate HasRival(t: Table, same: SameAddress, w: set<string>, v: string) {
    exists a :: InPlay(t, w, a) && same(a, v) && Normalize(a) != Normalize(v)
  }

  /** Wanted addresses the firewall may refuse. */
  ghost function Contested(t: Table, same: SameAddress, w: set<string>): set<string> {
    set v | v in w && (Collides(t, same, v) || HasRival(t, same, w, v))
  }

  /** On a firewall whose equality respects Protek's normal form, only foreign entries contest. */
  lemma ContestedIsColliding(t: Table, same: SameAddress, w: set<string>)
    requires Sound(same)
    ensures Contested(t, same, w) == Colliding(t, same, w)
  {
    hide Normalize, IsOwned;
  }

  /** Wanted addresses that are neither owned nor held by someone else. */
  ghost function Missing(t: Table, same: SameAddress, w: set<string>): set<string> {
    set v | v in w && !Owns(t, Normalize(v)) && !Collides(t, same, v)
  }

  /** The cycle's desired list asks for exactly the values in `w`. */
  ghost predicate Asks(c: Cycle, w: set<string>) {
    forall v :: Wants(c.desired, v) <==> v in w
  }

  /** A live cycle whose snapshot listed everything and whose apply phase connected. */
  ghost predicate Live(t: Table, c: Cycle, w: set<string>) {
    && t.Valid() && Asks(c, w)
    && c.configured && !c.dry && c.connects && c.cap >= 1
    && c.view.Some? && forall id :: id in t.entries ==> id in c.view.value
  }

  // ----- what the plan of a live cycle means for the table -----

  lemma ListingOwns(t: Table, c: Cycle, w: set<string>, a: string)
    requires Live(t, c, w)
    ensures OwnsNorm(Listing(t, c), a) <==> Owns(t, a)
  {
    hide Normalize, IsOwned;
    var es := Listing(t, c);
    if OwnsNorm(es, a) {
      var i :| 0 <= i < |es| && OwnedKey(es[i]) == Some(a);
      ListingSound(t, c, es[i]);
    }
    if Owns(t, a) {
      var id :| id in t.entries && Ours(t.entries[id]) && Normalize(t.entries[id].address) == a;
      FilterExact(c.view.value, Listed(t));
      var kept := Filter(c.view.value, Listed(t));
      var i :| 0 <= i < |kept| && kept[i] == id;
      assert OwnedKey(es[i]) == Some(a);
    }
  }

  lemma WantedNorms(c: Cycle, w: set<string>, a: string)
    requires Asks(c, w)
    ensures WantsNorm(c.desired, a) <==> a in Norms(w)
  {
    hide Normalize;
  }

  /** Every planned removal is a stale entry, and there is one whenever an entry is stale. */
  lemma PlannedRemovals(t: Table, c: Cycle, w: set<string>)
    requires Live(t, c, w)
    ensures forall id :: id in Plan(t, c).toRemove ==> id in Stale(t, w)
    ensures Stale(t, w) != {} <==> Plan(t, c).toRemove != []
  {
    hide Normalize, IsOwned;
    var es := Listing(t, c);
    RemovalsExact(c.desired, es);
    var keys, r := StaleKeys(c.desired, es), Plan(t, c).toRemove;
    forall id | id in r ensures id in Stale(t, w) {
      var i :| 0 <= i < |r| && r[i] == id;
      assert keys[i] in keys;
      var j :| LastAt(es, OwnedKey, keys[i], j) && id == es[j].id;
      ListingSound(t, c, es[j]);
      WantedNorms(c, w, keys[i]);
    }
    if r != [] { assert r[0] in r; }
    if id :| id in Stale(t, w) {
      var a := Normalize(t.entries[id].address);
      ListingOwns(t, c, w, a);
      WantedNorms(c, w, a);
      assert a in keys;
    }
  }

  /** The proposed additions are the wanted addresses Protek does not own. */
  lemma PlannedAdds(t: Table, c: Cycle, w: set<string>)
    requires Live(t, c, w)
    ensures var keys, r := AddKeys(c.desired, Listing(t, c)), Plan(t, c).toAdd;
            && |r| == |keys| && Distinct(keys)
            && (forall i :: 0 <= i < |r| ==> r[i].0 == keys[i])
            && (forall v :: v in keys <==> v in w && !Owns(t, Normalize(v)))
  {
    hide Normalize, IsOwned;
    AddsExact(c.desired, Listing(t, c));
    forall v ensures OwnsNorm(Listing(t, c), Normalize(v)) <==> Owns(t, Normalize(v)) {
      ListingOwns(t, c, w, Normalize(v));
    }
  }

  // ----- removals progress whatever the adds do -----

  /** No live cycle makes an entry stale; while any entry is stale and removals succeed, the
      set of stale entries strictly shrinks. The outcome of the adds does not matter. */
  lemma StaleShrinks(t: Table, same: SameAddress, c: Cycle, w: set<string>)
    requires Live(t, c, w)
    ensures var u := RunCycle(t, same, c);
            && Stale(u, w) <= Stale(t, w)
            && (c.failedRemoves == {} && Stale(t, w) != {} ==> Stale(u, w) < Stale(t, w))
  {
    hide Normalize, IsOwned, DiffOf, Listing;
    var d, u := Plan(t, c), RunCycle(t, same, c);
    CycleShape(t, same, c);
    NewEntriesWanted(t, same, c, w);
    assert Stale(u, w) <= Stale(t, w);
    if c.failedRemoves == {} && Stale(t, w) != {} {
      PlannedRemovals(t, c, w);
      var ids := Take(d.toRemove, c.cap);
      RemoveAllShrinks(AddAll(t, same, Take(d.toAdd, c.cap), c.failedAdds), ids, c.failedRemoves);
      assert ids[0] in ids && ids[0] == d.toRemove[0] && ids[0] in d.toRemove;
      assert ids[0] in Stale(t, w) && ids[0] !in u.entries;
    }
  }

  // ----- adds progress unless foreign entries fill the budget -----

  lemma {:induction false} AddAllPlaces(t: Table, same: SameAddress, adds: seq<(string, string)>, failed: set<nat>, i: nat)
    requires t.Valid() && i < |adds| && i !in failed
    ensures exists id :: id in AddAll(t, same, adds, failed).entries
              && (var h := AddAll(t, same, adds, failed).entries[id];
                  h == Held(adds[i].0, adds[i].1) || same(h.address, adds[i].0))
  {
    var n := |adds| - 1;
    var u0, u := AddAll(t, same, adds[..n], failed), AddAll(t, same, adds, failed);
    AddAllExtends(t, same, adds[..n], failed);
    if i < n {
      AddAllPlaces(t, same, adds[..n], failed, i);
      var id :| id in u0.entries
        && (u0.entries[id] == Held(adds[..n][i].0, adds[..n][i].1) || same(u0.entries[id].address, adds[..n][i].0));
      assert u.entries[id] == u0.entries[id];
    } else if Present(u0, same, adds[n].0) {
      var id :| id in u0.entries && same(u0.entries[id].address, adds[n].0);
      assert u.entries[id] == u0.entries[id];
    } else {
      assert u.entries[u0.next] == Held(adds[n].0, adds[n].1);
    }
  }

  lemma ForeignSame(t: Table, same: SameAddress, c: Cycle, v: string)
    requires t.Valid()
    ensures Collides(RunCycle(t, same, c), same, v) <==> Collides(t, same, v)
  {
    hide IsOwned, Plan;
    CycleShape(t, same, c);
    var u := RunCycle(t, same, c);
    if Collides(t, same, v) {
      var id :| id in t.entries && !Ours(t.entries[id]) && same(t.entries[id].address, v);
      assert id in u.entries;
    }
    if Collides(u, same, v) {
      var id :| id in u.entries && !Ours(u.entries[id]) && same(u.entries[id].address, v);
      assert id in t.entries;
    }
  }

  /** A wanted address that is owned stays owned. */
  lemma OwnedStays(t: Table, same: SameAddress, c: Cycle, w: set<string>, v: string)
    requires Live(t, c, w) && v in w && Owns(t, Normalize(v))
    ensures Owns(RunCycle(t, same, c), Normalize(v))
  {
    hide Normalize, IsOwned, Plan;
    CycleShape(t, same, c);
    PlannedRemovals(t, c, w);
    var id :| id in t.entries && Ours(t.entries[id]) && Normalize(t.entries[id].address) == Normalize(v);
    assert id in RunCycle(t, same, c).entries;
  }

  /** What a cycle adds was wanted. */
  lemma NewEntriesWanted(t: Table, same: SameAddress, c: Cycle, w: set<string>)
    requires Live(t, c, w)
    ensures var u := RunCycle(t, same, c);
            forall id :: id in u.entries && id !in t.entries ==> Ours(u.entries[id]) && u.entries[id].address in w
  {
    hide Normalize, IsOwned, Plan, RunCycle;
    var d, u := Plan(t, c), RunCycle(t, same, c);
    CycleShape(t, same, c);
    PlannedAdds(t, c, w);
    forall id | id in u.entries && id !in t.entries ensures u.entries[id].address in w {
      var i :| 0 <= i < |d.toAdd| && d.toAdd[i] == (u.entries[id].address, u.entries[id].comment);
      assert d.toAdd[i].0 in AddKeys(c.desired, Listing(t, c));
    }
  }

  /** After adding wanted addresses as Protek's, some entry of Protek's answers for each uncontested one. */
  lemma Placed(t: Table, same: SameAddress, adds: seq<(string, string)>, w: set<string>, i: nat) returns (id: Id)
    requires t.Valid() && i < |adds| && adds[i].0 !in Contested(t, same, w)
    requires forall k :: 0 <= k < |adds| ==> adds[k].0 in w && IsOwned(adds[k].1)
    ensures var mid := AddAll(t, same, adds, {});
            id in mid.entries && Ours(mid.entries[id]) && Normalize(mid.entries[id].address) == Normalize(adds[i].0)
  {
    hide Normalize, IsOwned, Contested, AddAll;
    var mid := AddAll(t, same, adds, {});
    AddAllPlaces(t, same, adds, {}, i);
    id :| id in mid.entries && (mid.entries[id] == Held(adds[i].0, adds[i].1) || same(mid.entries[id].address, adds[i].0));
    AddAllExtends(t, same, adds, {});
    var h := mid.entries[id];
    if h != Held(adds[i].0, adds[i].1) {
      if id !in t.entries {
        var k :| 0 <= k < |adds| && adds[k] == (h.address, h.comment);
        assert Ours(h) && h.address in w;
      }
      AnswerIsOurs(t, same, w, adds[i].0, h);
    }
  }

  lemma PlannedAddsOk(t: Table, c: Cycle, w: set<string>, k: nat)
    requires Live(t, c, w) && k < |Plan(t, c).toAdd|
    ensures Plan(t, c).toAdd[k].0 in w && IsOwned(Plan(t, c).toAdd[k].1)
  {
    hide Normalize, IsOwned, Plan;
    PlannedAdds(t, c, w);
    PlannedAddsAreOurs(t, c, k);
    assert Plan(t, c).toAdd[k].0 in AddKeys(c.desired, Listing(t, c));
  }

  /** Whatever entry answers for an uncontested address is Protek's and has its normal form. */
  lemma AnswerIsOurs(t: Table, same: SameAddress, w: set<string>, v: string, h: Held)
    requires v in w && v !in Contested(t, same, w) && same(h.address, v)
    requires (exists id :: id in t.entries && t.entries[id] == h) || (Ours(h) && h.address in w)
    ensures Ours(h) && Normalize(h.address) == Normalize(v)
  {
    hide Normalize, IsOwned;
    assert Ours(h);
    assert InPlay(t, w, h.address);
  }

  /** A proposed address within the budget that nothing contests gets owned. */
  lemma ProposedGetsOwned(t: Table, same: SameAddress, c: Cycle, w: set<string>, i: nat)
    requires Live(t, c, w) && c.failedAdds == {}
    requires i < |Plan(t, c).toAdd| && i < c.cap
    requires Plan(t, c).toAdd[i].0 !in Contested(t, same, w)
    ensures Owns(RunCycle(t, same, c), Normalize(Plan(t, c).toAdd[i].0))
  {
    hide Normalize, IsOwned, Plan, Contested, AddAll, RemoveAll, Live, Norms;
    var adds, ids := Take(Plan(t, c).toAdd, c.cap), Take(Plan(t, c).toRemove, c.cap);
    var mid, u := AddAll(t, same, adds, {}), RunCycle(t, same, c);
    forall k | 0 <= k < |adds| ensures adds[k].0 in w && IsOwned(adds[k].1) { PlannedAddsOk(t, c, w, k); }
    LiveApplies(t, same, c, w);
    var id := Placed(t, same, adds, w, i);
    AddAllExtends(t, same, adds, {});
    RemoveAllShrinks(mid, ids, c.failedRemoves);
    if id in ids {
      assert id in Plan(t, c).toRemove;
      PlannedRemovals(t, c, w);
      assert false;
    }
  }

  lemma LiveApplies(t: Table, same: SameAddress, c: Cycle, w: set<string>)
    requires Live(t, c, w)
    ensures t.Valid()
    ensures RunCycle(t, same, c) ==
            RemoveAll(AddAll(t, same, Take(Plan(t, c).toAdd, c.cap), c.failedAdds), Take(Plan(t, c).toRemove, c.cap), c.failedRemoves)
  {
    hide Plan;
  }

  /** The add budget is used up by addresses that are already listed. */
  ghost predicate Blocked(t: Table, same: SameAddress, c: Cycle) {
    forall i :: 0 <= i < |Plan(t, c).toAdd| && i < c.cap ==> Present(t, same, Plan(t, c).toAdd[i].0)
  }

  /** The add budget is used up by addresses someone else already holds. */
  ghost predicate Walled(t: Table, same: SameAddress, c: Cycle) {
    forall i :: 0 <= i < |Plan(t, c).toAdd| && i < c.cap ==> Collides(t, same, Plan(t, c).toAdd[i].0)
  }

  lemma WalledIsBlocked(t: Table, same: SameAddress, c: Cycle)
    ensures Walled(t, same, c) ==> Blocked(t, same, c)
  {
    hide Plan, IsOwned;
  }

  lemma MissingMonotone(t: Table, same: SameAddress, c: Cycle, w: set<string>)
    requires Live(t, c, w)
    ensures Missing(RunCycle(t, same, c), same, w) <= Missing(t, same, w)
  {
    hide Normalize, IsOwned, RunCycle;
    forall v | v in Missing(RunCycle(t, same, c), same, w) ensures v in Missing(t, same, w) {
      ForeignSame(t, same, c, v);
      if Owns(t, Normalize(v)) { OwnedStays(t, same, c, w, v); }
    }
  }

  lemma {:induction false} AddAllKeepsEarlier(t: Table, same: SameAddress, adds: seq<(string, string)>, n: nat)
    requires t.Valid() && n <= |adds|
    ensures var a, b := AddAll(t, same, adds[..n], {}), AddAll(t, same, adds, {});
            forall id :: id in a.entries ==> id in b.entries && b.entries[id] == a.entries[id]
  {
    if n < |adds| {
      var m := |adds| - 1;
      AddAllKeepsEarlier(t, same, adds[..m], n);
      assert adds[..m][..n] == adds[..n];
      AddAllExtends(t, same, adds[..m], {});
    } else {
      assert adds[..n] == adds;
    }
  }

  /** The first proposal that is not listed yet gets listed under a fresh id. */
  lemma FirstFreeIsAdded(t: Table, same: SameAddress, adds: seq<(string, string)>, i: nat)
    requires t.Valid() && i < |adds| && !Present(t, same, adds[i].0)
    requires forall j :: 0 <= j < i ==> Present(t, same, adds[j].0)
    ensures var u := AddAll(t, same, adds, {}); t.next in u.entries && u.entries[t.next] == Held(adds[i].0, adds[i].1)
  {
    AddAllIdle(t, same, adds[..i], {});
    assert adds[..i + 1][..i] == adds[..i];
    assert AddAll(t, same, adds[..i + 1], {}) == AddTo(t, same, adds[i].0, adds[i].1);
    AddAllKeepsEarlier(t, same, adds, i + 1);
  }

  lemma {:induction false} FirstFree(t: Table, same: SameAddress, adds: seq<(string, string)>, k: nat) returns (i: nat)
    requires k < |adds| && !Present(t, same, adds[k].0)
    ensures i <= k && !Present(t, same, adds[i].0) && forall j :: 0 <= j < i ==> Present(t, same, adds[j].0)
  {
    hide Present;
    if j :| 0 <= j < k && !Present(t, same, adds[j].0) {
      i := FirstFree(t, same, adds, j);
    } else {
      i := k;
    }
  }

  lemma UnblockedShrinks(t: Table, same: SameAddress, c: Cycle, w: set<string>)
    requires Live(t, c, w) && c.failedAdds == {} && !Blocked(t, same, c)
    ensures Missing(RunCycle(t, same, c), same, w) < Missing(t, same, w)
  {
    hide Normalize, IsOwned, Plan, Owns, RunCycle, Present;
    MissingMonotone(t, same, c, w);
    PlannedAdds(t, c, w);
    var d := Plan(t, c);
    var k :| 0 <= k < |d.toAdd| && k < c.cap && !Present(t, same, d.toAdd[k].0);
    var adds := Take(d.toAdd, c.cap);
    var i := FirstFree(t, same, adds, k);
    var v := d.toAdd[i].0;
    assert v in AddKeys(c.desired, Listing(t, c));
    FreeGetsOwned(t, same, c, w, i);
    assert !Collides(t, same, v) by { FreeIsUncontested(t, same, v); }
    assert v in Missing(t, same, w) && v !in Missing(RunCycle(t, same, c), same, w);
  }

  lemma FreeIsUncontested(t: Table, same: SameAddress, v: string)
    ensures Collides(t, same, v) ==> Present(t, same, v)
  {
    hide IsOwned;
  }

  lemma FreeGetsOwned(t: Table, same: SameAddress, c: Cycle, w: set<string>, i: nat)
    requires Live(t, c, w) && c.failedAdds == {}
    requires i < |Plan(t, c).toAdd| && i < c.cap && !Present(t, same, Plan(t, c).toAdd[i].0)
    requires forall j :: 0 <= j < i ==> Present(t, same, Plan(t, c).toAdd[j].0)
    ensures Owns(RunCycle(t, same, c), Normalize(Plan(t, c).toAdd[i].0))
  {
    hide Normalize, IsOwned, Plan, Present;
    var d := Plan(t, c);
    var adds, ids := Take(d.toAdd, c.cap), Take(d.toRemove, c.cap);
    FirstFreeIsAdded(t, same, adds, i);
    PlannedAddsAreOurs(t, c, i);
    PlannedRemovals(t, c, w);
    RemoveAllShrinks(AddAll(t, same, adds, {}), ids, c.failedRemoves);
    assert t.next !in ids by { assert forall x :: x in ids ==> x in d.toRemove; }
  }

  lemma BlockedKeepsMissing(t: Table, same: SameAddress, c: Cycle, w: set<string>)
    requires Live(t, c, w) && Blocked(t, same, c)
    ensures Missing(RunCycle(t, same, c), same, w) == Missing(t, same, w)
  {
    hide Normalize, IsOwned, Collides, Plan, RunCycle;
    MissingMonotone(t, same, c, w);
    BlockedAddsNothing(t, same, c, w);
    forall v | v in Missing(t, same, w) ensures v in Missing(RunCycle(t, same, c), same, w) {
      ForeignSame(t, same, c, v);
    }
  }

  /** A live cycle with working adds makes progress on the missing addresses exactly when its
      first `cap` proposals are not all listed already. */
  lemma MissingShrinksExactly(t: Table, same: SameAddress, c: Cycle, w: set<string>)
    requires Live(t, c, w) && c.failedAdds == {}
    ensures Missing(RunCycle(t, same, c), same, w) < Missing(t, same, w) <==> !Blocked(t, same, c)
    ensures Blocked(t, same, c) ==> Missing(RunCycle(t, same, c), same, w) == Missing(t, same, w)
  {
    if Blocked(t, same, c) { BlockedKeepsMissing(t, same, c, w); } else { UnblockedShrinks(t, same, c, w); }
  }

  lemma {:induction false} AddAllIdle(t: Table, same: SameAddress, adds: seq<(string, string)>, failed: set<nat>)
    requires forall i :: 0 <= i < |adds| ==> Present(t, same, adds[i].0)
    ensures AddAll(t, same, adds, failed) == t
  {
    if adds != [] { AddAllIdle(t, same, adds[..|adds| - 1], failed); }
  }

  /** A blocked cycle adds no entry. */
  lemma BlockedAddsNothing(t: Table, same: SameAddress, c: Cycle, w: set<string>)
    requires Live(t, c, w) && Blocked(t, same, c)
    ensures RunCycle(t, same, c).next == t.next
    ensures forall id :: id in RunCycle(t, same, c).entries ==>
              id in t.entries && RunCycle(t, same, c).entries[id] == t.entries[id]
  {
    hide Normalize, IsOwned, Plan, Present;
    var d := Plan(t, c);
    AddAllIdle(t, same, Take(d.toAdd, c.cap), c.failedAdds);
    RemoveAllShrinks(t, Take(d.toRemove, c.cap), c.failedRemoves);
  }

  /** A cycle brings no new text into play. */
  lemma ContestedShrinks(t: Table, same: SameAddress, c: Cycle, w: set<string>)
    requires Live(t, c, w)
    ensures Contested(RunCycle(t, same, c), same, w) <= Contested(t, same, w)
  {
    hide Normalize, IsOwned, RunCycle, Collides;
    var u := RunCycle(t, same, c);
    forall a | InPlay(u, w, a) ensures InPlay(t, w, a) { PlayShrinks(t, same, c, w, a); }
    forall v ensures Collides(u, same, v) <==> Collides(t, same, v) { ForeignSame(t, same, c, v); }
  }

  lemma PlayShrinks(t: Table, same: SameAddress, c: Cycle, w: set<string>, a: string)
    requires Live(t, c, w) && InPlay(RunCycle(t, same, c), w, a)
    ensures InPlay(t, w, a)
  {
    hide Normalize, IsOwned, RunCycle, Plan;
    CycleShape(t, same, c);
    NewEntriesWanted(t, same, c, w);
  }

  /** Wanted addresses outside `few` that are not owned. */
  ghost function Pending(t: Table, w: set<string>, few: set<string>): set<string> {
    set v | v in w && v !in few && !Owns(t, Normalize(v))
  }

  /** While fewer addresses than the cap can be refused, every cycle gets another one owned. */
  lemma PendingShrinks(t: Table, same: SameAddress, c: Cycle, w: set<string>, few: set<string>)
    requires Live(t, c, w) && c.failedAdds == {} && Contested(t, same, w) <= few && |few| < c.cap
    ensures Pending(RunCycle(t, same, c), w, few) <= Pending(t, w, few)
    ensures Pending(t, w, few) != {} ==> Pending(RunCycle(t, same, c), w, few) < Pending(t, w, few)
  {
    hide Normalize, IsOwned, Owns, Plan, RunCycle, Contested, AddKeys;
    var u := RunCycle(t, same, c);
    forall v | v in w && Owns(t, Normalize(v)) ensures Owns(u, Normalize(v)) { OwnedStays(t, same, c, w, v); }
    if x :| x in Pending(t, w, few) {
      PlannedAdds(t, c, w);
      var keys, d := AddKeys(c.desired, Listing(t, c)), Plan(t, c);
      var i := EarlyOutsider(keys, c.cap, few, x);
      assert keys[i] in keys && d.toAdd[i].0 == keys[i];
      ProposedGetsOwned(t, same, c, w, i);
      assert keys[i] in Pending(t, w, few) && keys[i] !in Pending(u, w, few);
    }
  }

  // ----- whole runs -----

  function RunCycles(t: Table, same: SameAddress, cs: seq<Cycle>): Table {
    if cs == [] then t else RunCycle(RunCycles(t, same, cs[..|cs| - 1]), same, cs[|cs| - 1])
  }

  /** Every cycle of the run is live for the wanted set `w`, with working operations and
      budget `cap`; listing orders and desired-list orders may change from cycle to cycle. */
  ghost predicate GoodRun(t: Table, same: SameAddress, cs: seq<Cycle>, w: set<string>, cap: nat) {
    cs == [] ||
    (var init, c := cs[..|cs| - 1], cs[|cs| - 1];
     && GoodRun(t, same, init, w, cap)
     && Live(RunCycles(t, same, init), c, w) && c.cap == cap && c.failedAdds == {} && c.failedRemoves == {})
  }

  lemma {:induction false} Enumerate(ids: set<Id>) returns (s: seq<Id>)
    ensures forall id :: id in ids ==> id in s
  {
    s := [];
    if ids != {} {
      var id := Pick(ids);
      s := Enumerate(ids - {id});
      s := s + [id];
    }
  }

  /** From any table there are good runs of every length, for any desired list. */
  lemma {:induction false} GoodRunExists(
    t: Table, same: SameAddress, ds: seq<Decision>, w: set<string>, cap: nat, n: nat) returns (cs: seq<Cycle>)
    requires t.Valid() && cap >= 1 && forall v :: Wants(ds, v) <==> v in w
    ensures |cs| == n && GoodRun(t, same, cs, w, cap) && RunCycles(t, same, cs).Valid()
  {
    hide Wants, RunCycle;
    cs := [];
    if n > 0 {
      var init := GoodRunExists(t, same, ds, w, cap, n - 1);
      var u := RunCycles(t, same, init);
      var view := Enumerate(u.entries.Keys);
      var c := Cycle(ds, Some(view), true, false, cap, true, {}, {});
      CycleShape(u, same, c);
      cs := init + [c];
      assert cs[..n - 1] == init;
    }
  }

  lemma {:induction false} RunMeasures(t: Table, same: SameAddress, cs: seq<Cycle>, w: set<string>, cap: nat)
    requires t.Valid() && GoodRun(t, same, cs, w, cap) && |Contested(t, same, w)| < cap
    ensures var u, few := RunCycles(t, same, cs), Contested(t, same, w);
            && Contested(u, same, w) <= few
            && (Stale(u, w) == {} || |Stale(u, w)| + |cs| <= |Stale(t, w)|)
            && (Pending(u, w, few) == {} || |Pending(u, w, few)| + |cs| <= |Pending(t, w, few)|)
  {
    hide Normalize, IsOwned, RunCycle, Contested, Pending, Stale;
    if cs != [] {
      var init, c, few := cs[..|cs| - 1], cs[|cs| - 1], Contested(t, same, w);
      RunMeasures(t, same, init, w, cap);
      var v, u := RunCycles(t, same, init), RunCycles(t, same, cs);
      ContestedShrinks(v, same, c, w);
      StaleShrinks(v, same, c, w);
      SubsetSize(Stale(u, w), Stale(v, w));
      PendingShrinks(v, same, c, w, few);
      SubsetSize(Pending(u, w, few), Pending(v, w, few));
    }
  }

  /** If the firewall may refuse fewer than `cap` wanted addresses, a run at least as long as the
      two backlogs leaves no stale entry and owns every wanted address it cannot refuse. */
  lemma Converges(t: Table, same: SameAddress, cs: seq<Cycle>, w: set<string>, cap: nat)
    requires t.Valid() && GoodRun(t, same, cs, w, cap) && |Contested(t, same, w)| < cap
    requires |Stale(t, w)| <= |cs| && |Pending(t, w, Contested(t, same, w))| <= |cs|
    ensures var u := RunCycles(t, same, cs);
            && Stale(u, w) == {}
            && forall v :: v in w && v !in Contested(t, same, w) ==> Owns(u, Normalize(v))
  {
    hide Normalize, IsOwned, RunCycle, Contested, Owns;
    RunMeasures(t, same, cs, w, cap);
    var u := RunCycles(t, same, cs);
    forall v | v in w && v !in Contested(t, same, w) ensures Owns(u, Normalize(v)) {
      assert v !in Pending(u, w, Contested(t, same, w));
    }
  }

  /** From then on no removal is proposed and only addresses the firewall may refuse are. */
  lemma ConvergedProposes(t: Table, c: Cycle, w: set<string>, few: set<string>)
    requires Live(t, c, w) && Stale(t, w) == {} && Pending(t, w, few) == {}
    ensures Plan(t, c).toRemove == []
    ensures forall i :: 0 <= i < |Plan(t, c).toAdd| ==> Plan(t, c).toAdd[i].0 in few
  {
    hide Normalize, IsOwned, Plan, Owns, Stale;
    PlannedRemovals(t, c, w);
    PlannedAdds(t, c, w);
    forall i | 0 <= i < |Plan(t, c).toAdd| ensures Plan(t, c).toAdd[i].0 in few {
      var v := Plan(t, c).toAdd[i].0;
      assert v in AddKeys(c.desired, Listing(t, c));
      assert v !in Pending(t, w, few);
    }
  }

  /** Once there, a live cycle proposes only colliding adds and changes nothing. */
  lemma SettledStays(t: Table, same: SameAddress, c: Cycle, w: set<string>)
    requires Live(t, c, w) && Stale(t, w) == {} && Missing(t, same, w) == {}
    ensures Plan(t, c).toRemove == []
    ensures forall i :: 0 <= i < |Plan(t, c).toAdd| ==> Collides(t, same, Plan(t, c).toAdd[i].0)
    ensures RunCycle(t, same, c) == t
  {
    hide Normalize, IsOwned, DiffOf, Listing, Owns, Present;
    PlannedRemovals(t, c, w);
    PlannedAdds(t, c, w);
    var d := Plan(t, c);
    forall i | 0 <= i < |d.toAdd| ensures Collides(t, same, d.toAdd[i].0) {
      assert d.toAdd[i].0 in AddKeys(c.desired, Listing(t, c));
      assert d.toAdd[i].0 !in Missing(t, same, w);
    }
    WalledIsBlocked(t, same, c);
    AddAllIdle(t, same, Take(d.toAdd, c.cap), c.failedAdds);
  }

  // ----- starvation -----

  lemma {:induction false} FilterCongruent<T>(s: seq<T>, p: T -> bool, q: T -> bool)
    requires forall x :: x in s ==> p(x) == q(x)
    ensures Filter(s, p) == Filter(s, q)
  {
    if s != [] {
      assert s[|s| - 1] in s && forall x :: x in s[..|s| - 1] ==> x in s;
      FilterCongruent(s[..|s| - 1], p, q);
    }
  }

  /** A walled-in list proposes the same additions next time. */
  lemma WalledProposesSame(t: Table, same: SameAddress, c: Cycle, c': Cycle, w: set<string>)
    requires Live(t, c, w) && Walled(t, same, c)
    requires Live(RunCycle(t, same, c), c', w) && c'.desired == c.desired
    ensures AddKeys(c'.desired, Listing(RunCycle(t, same, c), c')) == AddKeys(c.desired, Listing(t, c))
  {
    hide Normalize, IsOwned, RunCycle, Listing, WantedKey, OwnedKey;
    var u := RunCycle(t, same, c);
    var es, es' := Listing(t, c), Listing(u, c');
    var keys := FirstWins(c.desired, WantedKey).keys;
    LastWinsKeys(es, OwnedKey);
    LastWinsKeys(es', OwnedKey);
    FirstWinsKeys(c.desired, WantedKey);
    var p, q := Unowned(LastWins(es, OwnedKey).at), Unowned(LastWins(es', OwnedKey).at);
    forall k | k in keys ensures p(k) == q(k) {
      assert k in w by { assert Wants(c.desired, k); }
      ListingOwns(t, c, w, Normalize(k));
      ListingOwns(u, c', w, Normalize(k));
      if Owns(t, Normalize(k)) {
        OwnedStays(t, same, c, w, k);
      } else if Owns(u, Normalize(k)) {
        WalledIsBlocked(t, same, c);
        BlockedAddsNothing(t, same, c, w);
      }
      assert OwnsNorm(es, Normalize(k)) <==> OwnsNorm(es', Normalize(k));
    }
    FilterCongruent(keys, p, q);
  }

  lemma WalledStays(t: Table, same: SameAddress, c: Cycle, c': Cycle, w: set<string>)
    requires Live(t, c, w) && Walled(t, same, c)
    requires Live(RunCycle(t, same, c), c', w) && c'.desired == c.desired && c'.cap == c.cap
    ensures Walled(RunCycle(t, same, c), same, c')
  {
    hide Normalize, IsOwned, RunCycle, Plan, Collides, Owns, Asks;
    var u := RunCycle(t, same, c);
    WalledProposesSame(t, same, c, c', w);
    PlannedAdds(t, c, w);
    PlannedAdds(u, c', w);
    forall i | 0 <= i < |Plan(u, c').toAdd| && i < c'.cap ensures Collides(u, same, Plan(u, c').toAdd[i].0) {
      assert Plan(u, c').toAdd[i].0 == Plan(t, c).toAdd[i].0;
      ForeignSame(t, same, c, Plan(u, c').toAdd[i].0);
    }
  }

  /** Once the first `cap` proposals all collide, no number of further cycles with the same
      desired list adds anything: the missing addresses starve. */
  lemma {:induction false} BlockedForever(t: Table, same: SameAddress, cs: seq<Cycle>, w: set<string>, cap: nat)
    requires t.Valid() && GoodRun(t, same, cs, w, cap) && cs != []
    requires forall i :: 0 <= i < |cs| ==> cs[i].desired == cs[0].desired
    requires Walled(t, same, cs[0])
    ensures var n := |cs| - 1;
            Live(RunCycles(t, same, cs[..n]), cs[n], w) && Walled(RunCycles(t, same, cs[..n]), same, cs[n])
    ensures Missing(RunCycles(t, same, cs), same, w) == Missing(t, same, w)
  {
    hide Normalize, IsOwned, RunCycle, Blocked, Walled, Live, Missing;
    var init, c := cs[..|cs| - 1], cs[|cs| - 1];
    if init != [] {
      var b := init[|init| - 1];
      BlockedForever(t, same, init, w, cap);
      assert b.cap == cap && b.desired == cs[0].desired == c.desired;
      WalledStays(RunCycles(t, same, init[..|init| - 1]), same, b, c, w);
    }
    WalledIsBlocked(RunCycles(t, same, init), same, c);
    BlockedKeepsMissing(RunCycles(t, same, init), same, c, w);
  }
}
