/** One firewall's address list and one reconcile cycle against it
    (reconciler.py `_run_one_bouncer`, bouncers/mikrotik_adapter.py `apply`). */
module Target {
  import opened Text
  import opened Ordered
  import opened Ownership
  import opened Diff

  datatype Held = Held(address: string, comment: string)

  /** The firewall's list: entries by id, and the next id it will hand out. */
  datatype Table = Table(entries: map<Id, Held>, next: Id) {
    ghost predicate Valid() {
      forall id :: id in entries ==> id < next
    }
  }

  predicate Ours(h: Held) {
    IsOwned(h.comment)
  }

  /** How the firewall decides that two address texts are the same address. */
  type SameAddress = (string, string) -> bool

  /** Everything a cycle reads from outside: the filtered desired list, the listing order the
      firewall returned (None when the snapshot raised), the flags, the cap, whether the
      connection for the apply phase opened, and the operations that failed. */
  datatype Cycle = Cycle(
    desired: seq<Decision>, view: Option<seq<Id>>, configured: bool, dry: bool, cap: nat,
    connects: bool, failedAdds: set<nat>, failedRemoves: set<nat>)

  datatype Report = Report(toAdd: nat, toRemove: nat, alreadyThere: nat, errors: nat, ok: bool)

  // ----- single operations -----

  predicate Present(t: Table, same: SameAddress, address: string) {
    exists id :: id in t.entries && same(t.entries[id].address, address)
  }

  /** Adding an address that is already listed, by whomever, succeeds and changes nothing. */
  function AddTo(t: Table, same: SameAddress, address: string, comment: string): Table {
    if Present(t, same, address) then t
    else Table(t.entries[t.next := Held(address, comment)], t.next + 1)
  }

  /** Removing an id that is gone succeeds and changes nothing. */
  function RemoveFrom(t: Table, id: Id): Table {
    Table(t.entries - {id}, t.next)
  }

  function AddAll(t: Table, same: SameAddress, adds: seq<(string, string)>, failed: set<nat>): Table {
    if adds == [] then t
    else
      var n := |adds| - 1;
      var u := AddAll(t, same, adds[..n], failed);
      if n in failed then u else AddTo(u, same, adds[n].0, adds[n].1)
  }

  function RemoveAll(t: Table, ids: seq<Id>, failed: set<nat>): Table {
    if ids == [] then t
    else
      var n := |ids| - 1;
      var u := RemoveAll(t, ids[..n], failed);
      if n in failed then u else RemoveFrom(u, ids[n])
  }

  // ----- one cycle -----

  function EntryOf(t: Table): Id -> Entry {
    (id: Id) => if id in t.entries then Entry(id, t.entries[id].address, t.entries[id].comment) else Entry(id, "", "")
  }

  function Listed(t: Table): Id -> bool {
    (id: Id) => id in t.entries
  }

  /** The snapshot: the listed entries in the order given, or nothing when it failed. */
  function Listing(t: Table, c: Cycle): seq<Entry> {
    if c.configured && c.view.Some? then Select(c.view.value, Listed(t), EntryOf(t)) else []
  }

  function Plan(t: Table, c: Cycle): ReconcileDiff {
    DiffOf(c.desired, Listing(t, c))
  }

  function Take<T>(s: seq<T>, n: nat): (r: seq<T>)
    ensures r <= s && |r| == if n < |s| then n else |s|
  {
    if n < |s| then s[..n] else s
  }

  predicate Applies(t: Table, c: Cycle) {
    !c.dry && c.configured && (Plan(t, c).toAdd != [] || Plan(t, c).toRemove != [])
  }

  /** The list after a cycle: adds first, then removals, each up to its own budget. */
  function RunCycle(t: Table, same: SameAddress, c: Cycle): Table {
    var d := Plan(t, c);
    if Applies(t, c) && c.connects then
      RemoveAll(AddAll(t, same, Take(d.toAdd, c.cap), c.failedAdds), Take(d.toRemove, c.cap), c.failedRemoves)
    else t
  }

  /** The operations among the first `n` that fail. */
  function Failing(failed: set<nat>, n: nat): set<nat> {
    set i | i in failed && i < n
  }

  lemma FailingMore(failed: set<nat>, n: nat)
    ensures Failing(failed, 0) == {}
    ensures |Failing(failed, n + 1)| == |Failing(failed, n)| + if n in failed then 1 else 0
  {
    assert Failing(failed, n + 1) == if n in failed then Failing(failed, n) + {n} else Failing(failed, n);
  }

  // ----- the cycle as the source runs it -----

  class AddressList {
    var entries: map<Id, Held>
    var next: Id
    const same: SameAddress

    constructor (t: Table, same: SameAddress)
      ensures State() == t && this.same == same
    {
      entries, next := t.entries, t.next;
      this.same := same;
    }

    function State(): Table
      reads this
    {
      Table(entries, next)
    }

    method Add(address: string, comment: string)
      modifies this
      ensures State() == AddTo(old(State()), same, address, comment)
    {
      if !exists id :: id in entries && same(entries[id].address, address) {
        entries, next := entries[next := Held(address, comment)], next + 1;
      }
    }

    method Remove(id: Id)
      modifies this
      ensures State() == RemoveFrom(old(State()), id)
    {
      entries := entries - {id};
    }

    method Snapshot(c: Cycle) returns (listing: seq<Entry>)
      ensures listing == Listing(State(), c)
    {
      listing := [];
      if c.configured && c.view.Some? {
        var order := c.view.value;
        for i := 0 to |order|
          invariant listing == Select(order[..i], Listed(State()), EntryOf(State()))
        {
          SelectExtend(order, i, Listed(State()), EntryOf(State()));
          if order[i] in entries {
            var h := entries[order[i]];
            listing := listing + [Entry(order[i], h.address, h.comment)];
          }
        }
        assert order[..|order|] == order;
      }
    }

    method Apply(adds: seq<(string, string)>, removals: seq<Id>, c: Cycle) returns (errors: nat)
      modifies this
      ensures State() == RemoveAll(AddAll(old(State()), same, adds, c.failedAdds), removals, c.failedRemoves)
      ensures errors == |Failing(c.failedAdds, |adds|)| + |Failing(c.failedRemoves, |removals|)|
    {
      errors := 0;
      for i := 0 to |adds|
        invariant State() == AddAll(old(State()), same, adds[..i], c.failedAdds)
        invariant errors == |Failing(c.failedAdds, i)|
      {
        FailingMore(c.failedAdds, i);
        assert adds[..i + 1][..i] == adds[..i];
        if i in c.failedAdds { errors := errors + 1; } else { Add(adds[i].0, adds[i].1); }
      }
      assert adds[..|adds|] == adds;
      ghost var mid := State();
      for i := 0 to |removals|
        invariant State() == RemoveAll(mid, removals[..i], c.failedRemoves)
        invariant errors == |Failing(c.failedAdds, |adds|)| + |Failing(c.failedRemoves, i)|
      {
        FailingMore(c.failedRemoves, i);
        assert removals[..i + 1][..i] == removals[..i];
        if i in c.failedRemoves { errors := errors + 1; } else { Remove(removals[i]); }
      }
      assert removals[..|removals|] == removals;
    }

    /** `_run_one_bouncer`: snapshot, diff, capped apply. */
    method RunOneBouncer(c: Cycle) returns (report: Report)
      modifies this
      ensures State() == RunCycle(old(State()), same, c)
      ensures var d := Plan(old(State()), c);
              report.toAdd == |d.toAdd| && report.toRemove == |d.toRemove| && report.alreadyThere == d.alreadyThere
      ensures c.dry || !c.configured || !c.connects ==> State() == old(State())
      ensures var d := Plan(old(State()), c);
              var pushes := !c.dry && c.configured && (d.toAdd != [] || d.toRemove != []);
              && (report.ok <==> (c.configured ==> c.view.Some?) && (pushes ==> c.connects))
              && report.errors == (if c.configured && c.view.None? then 1 else 0)
                   + (if !pushes then 0 else if !c.connects then 1
                      else |Failing(c.failedAdds, |Take(d.toAdd, c.cap)|)| + |Failing(c.failedRemoves, |Take(d.toRemove, c.cap)|)|)
    {
      var errors, ok := 0, true;
      var current := Snapshot(c);
      if c.configured && c.view.None? { errors, ok := 1, false; }
      var diff := Reconcile(c.desired, current);
      if !c.dry && c.configured && (diff.toAdd != [] || diff.toRemove != []) {
        if c.connects {
          var failed := Apply(Take(diff.toAdd, c.cap), Take(diff.toRemove, c.cap), c);
          errors := errors + failed;
        } else {
          errors, ok := errors + 1, false;
        }
      }
      report := Report(|diff.toAdd|, |diff.toRemove|, diff.alreadyThere, errors, ok);
    }
  }

  // ----- what a cycle can change -----

  lemma ListingSound(t: Table, c: Cycle, e: Entry)
    requires e in Listing(t, c)
    ensures e.id in t.entries && t.entries[e.id] == Held(e.address, e.comment)
  {
    FilterExact(c.view.value, Listed(t));
    var kept := Filter(c.view.value, Listed(t));
    var i :| 0 <= i < |kept| && e == EntryOf(t)(kept[i]);
    assert kept[i] in kept;
  }

  lemma PlannedAddsAreOurs(t: Table, c: Cycle, i: int)
    requires 0 <= i < |Plan(t, c).toAdd|
    ensures IsOwned(Plan(t, c).toAdd[i].1)
  {
    AddsExact(c.desired, Listing(t, c));
    var v, comment := AddKeys(c.desired, Listing(t, c))[i], Plan(t, c).toAdd[i].1;
    var j :| FirstAt(c.desired, WantedKey, v, j) && comment == EncodeComment(c.desired[j]);
    CommentRoundTrip(c.desired[j]);
  }

  lemma PlannedRemovalsAreOurs(t: Table, c: Cycle, id: Id)
    requires id in Plan(t, c).toRemove
    ensures id in t.entries && Ours(t.entries[id])
  {
    var es := Listing(t, c);
    RemovalsExact(c.desired, es);
    var i :| 0 <= i < |Plan(t, c).toRemove| && Plan(t, c).toRemove[i] == id;
    var j :| LastAt(es, OwnedKey, StaleKeys(c.desired, es)[i], j) && id == es[j].id;
    ListingSound(t, c, es[j]);
  }

  /** `u` differs from `t` only by entries from `adds`, under fresh ids. */
  ghost predicate Extends(t: Table, u: Table, adds: seq<(string, string)>) {
    && u.Valid() && t.next <= u.next
    && (forall id :: id in t.entries ==> id in u.entries && u.entries[id] == t.entries[id])
    && (forall id :: id in u.entries && id !in t.entries ==>
          t.next <= id && (u.entries[id].address, u.entries[id].comment) in adds)
  }

  lemma {:induction false} AddAllExtends(t: Table, same: SameAddress, adds: seq<(string, string)>, failed: set<nat>)
    requires t.Valid()
    ensures Extends(t, AddAll(t, same, adds, failed), adds)
  {
    if adds != [] {
      AddAllExtends(t, same, adds[..|adds| - 1], failed);
      assert adds == adds[..|adds| - 1] + [adds[|adds| - 1]];
    }
  }

  lemma {:induction false} RemoveAllShrinks(t: Table, ids: seq<Id>, failed: set<nat>)
    ensures var u := RemoveAll(t, ids, failed);
            && u.next == t.next
            && (forall id :: id in u.entries ==> id in t.entries && u.entries[id] == t.entries[id])
            && (forall id :: id in t.entries && id !in ids ==> id in u.entries)
            && ((forall i :: 0 <= i < |ids| ==> i !in failed) ==> forall id :: id in ids ==> id !in u.entries)
  {
    if ids != [] {
      RemoveAllShrinks(t, ids[..|ids| - 1], failed);
      assert ids == ids[..|ids| - 1] + [ids[|ids| - 1]];
    }
  }

  /** A cycle only adds owned entries under fresh ids and only drops owned planned ones. */
  lemma CycleShape(t: Table, same: SameAddress, c: Cycle)
    requires t.Valid()
    ensures var u := RunCycle(t, same, c);
            && u.Valid() && t.next <= u.next
            && (forall id :: id in u.entries && id in t.entries ==> u.entries[id] == t.entries[id])
            && (forall id :: id in u.entries && id !in t.entries ==>
                  t.next <= id && Ours(u.entries[id])
                  && (u.entries[id].address, u.entries[id].comment) in Plan(t, c).toAdd)
            && (forall id :: id in t.entries && id !in u.entries ==> Ours(t.entries[id]) && id in Plan(t, c).toRemove)
  {
    hide IsOwned, Plan;
    if Applies(t, c) && c.connects {
      var d := Plan(t, c);
      var adds, ids := Take(d.toAdd, c.cap), Take(d.toRemove, c.cap);
      forall p | p in adds ensures IsOwned(p.1) && p in d.toAdd {
        var i :| 0 <= i < |adds| && adds[i] == p;
        PlannedAddsAreOurs(t, c, i);
      }
      AddAllExtends(t, same, adds, c.failedAdds);
      RemoveAllShrinks(AddAll(t, same, adds, c.failedAdds), ids, c.failedRemoves);
      forall id | id in ids ensures id in t.entries && Ours(t.entries[id]) && id in d.toRemove {
        assert id in d.toRemove;
        PlannedRemovalsAreOurs(t, c, id);
      }
    }
  }

  /** A cycle whose snapshot raised, or came back empty because the adapter swallowed the
      failure, removes nothing. */
  lemma FailedSnapshotRemovesNothing(t: Table, same: SameAddress, c: Cycle)
    requires t.Valid() && (c.view.None? || c.view.value == [])
    ensures forall id :: id in t.entries ==>
              id in RunCycle(t, same, c).entries && RunCycle(t, same, c).entries[id] == t.entries[id]
  {
    assert Listing(t, c) == [];
    assert LastWins(Listing(t, c), OwnedKey).keys == [];
    assert Plan(t, c).toRemove == [];
    CycleShape(t, same, c);
  }

  /** A dry cycle, one of a target that is not configured, and one that cannot connect leave the
      list as it was. */
  lemma InertCycle(t: Table, same: SameAddress, c: Cycle)
    requires c.dry || !c.configured || !c.connects
    ensures RunCycle(t, same, c) == t
  {
  }

  /** A cycle that pushes removes exactly the planned removals within the cap that do not fail. */
  lemma CycleRemoves(t: Table, same: SameAddress, c: Cycle, id: Id)
    requires t.Valid() && !c.dry && c.configured && c.connects && id in t.entries
    ensures id !in RunCycle(t, same, c).entries <==>
            exists i :: 0 <= i < |Plan(t, c).toRemove| && i < c.cap && i !in c.failedRemoves && Plan(t, c).toRemove[i] == id
  {
    hide Plan, Ours;
    var d := Plan(t, c);
    var ids, mid := Take(d.toRemove, c.cap), AddAll(t, same, Take(d.toAdd, c.cap), c.failedAdds);
    AddAllExtends(t, same, Take(d.toAdd, c.cap), c.failedAdds);
    RemoveAllExactly(mid, ids, c.failedRemoves, id);
    assert forall i :: 0 <= i < |ids| ==> ids[i] == d.toRemove[i];
  }

  lemma {:induction false} RemoveAllExactly(t: Table, ids: seq<Id>, failed: set<nat>, id: Id)
    requires id in t.entries
    ensures id !in RemoveAll(t, ids, failed).entries <==> exists i :: 0 <= i < |ids| && i !in failed && ids[i] == id
  {
    if ids != [] {
      var n := |ids| - 1;
      RemoveAllExactly(t, ids[..n], failed, id);
      assert forall i :: 0 <= i < n ==> ids[..n][i] == ids[i];
    }
  }

  /** What a cycle adds was planned within the cap, did not fail, and was not listed by anyone when
      the cycle began, not even by an entry the same cycle removes: additions come first. */
  lemma CycleAdds(t: Table, same: SameAddress, c: Cycle, id: Id) returns (i: nat)
    requires t.Valid() && id in RunCycle(t, same, c).entries && id !in t.entries
    ensures i < |Plan(t, c).toAdd| && i < c.cap && i !in c.failedAdds && !Present(t, same, Plan(t, c).toAdd[i].0)
    ensures RunCycle(t, same, c).entries[id] == Held(Plan(t, c).toAdd[i].0, Plan(t, c).toAdd[i].1)
  {
    hide Plan, Present;
    var d := Plan(t, c);
    var adds := Take(d.toAdd, c.cap);
    RemoveAllShrinks(AddAll(t, same, adds, c.failedAdds), Take(d.toRemove, c.cap), c.failedRemoves);
    i := AddedWasFree(t, same, adds, c.failedAdds, id);
  }

  lemma {:induction false} AddedWasFree(t: Table, same: SameAddress, adds: seq<(string, string)>, failed: set<nat>, id: Id) returns (i: nat)
    requires t.Valid() && id in AddAll(t, same, adds, failed).entries && id !in t.entries
    ensures i < |adds| && i !in failed && !Present(t, same, adds[i].0)
    ensures AddAll(t, same, adds, failed).entries[id] == Held(adds[i].0, adds[i].1)
  {
    var n := |adds| - 1;
    var u := AddAll(t, same, adds[..n], failed);
    AddAllExtends(t, same, adds[..n], failed);
    if id in u.entries {
      i := AddedWasFree(t, same, adds[..n], failed, id);
    } else {
      i := n;
      assert forall j :: j in t.entries ==> j in u.entries && u.entries[j] == t.entries[j];
    }
  }

  /** The snapshot of a configured target lists exactly the entries that the firewall showed; there is
      none of a target that is not configured, or when it raised. */
  lemma ListingExactly(t: Table, c: Cycle, id: Id, h: Held)
    ensures Entry(id, h.address, h.comment) in Listing(t, c) <==>
            c.configured && c.view.Some? && id in c.view.value && id in t.entries && t.entries[id] == h
  {
    if !(c.configured && c.view.Some?) { return; }
    var e := Entry(id, h.address, h.comment);
    if e in Listing(t, c) {
      ListingSound(t, c, e);
      FilterExact(c.view.value, Listed(t));
      var kept := Filter(c.view.value, Listed(t));
      var i :| 0 <= i < |kept| && e == EntryOf(t)(kept[i]);
      assert kept[i] in kept;
    }
    if id in c.view.value && id in t.entries && t.entries[id] == h {
      FilterExact(c.view.value, Listed(t));
      var kept := Filter(c.view.value, Listed(t));
      var i :| 0 <= i < |kept| && kept[i] == id;
      assert Listing(t, c)[i] == e;
    }
  }

  // ----- whole runs, with an operator editing the list between cycles -----

  /** A change the operator makes to the list by hand. */
  datatype Edit = Put(id: Id, held: Held) | Delete(id: Id)

  function EditTable(t: Table, e: Edit): Table {
    match e
    case Put(id, h) => Table(t.entries[id := h], if t.next <= id then id + 1 else t.next)
    case Delete(id) => Table(t.entries - {id}, t.next)
  }

  datatype Step = Sync(cycle: Cycle) | Operator(edit: Edit)

  function StepOnce(t: Table, same: SameAddress, s: Step): Table {
    match s
    case Sync(c) => RunCycle(t, same, c)
    case Operator(e) => EditTable(t, e)
  }

  function Run(t: Table, same: SameAddress, steps: seq<Step>): Table {
    if steps == [] then t else StepOnce(Run(t, same, steps[..|steps| - 1]), same, steps[|steps| - 1])
  }

  /** The entries that are not Protek's. */
  function Foreign(t: Table): map<Id, Held> {
    map id | id in t.entries && !Ours(t.entries[id]) :: t.entries[id]
  }

  /** What an edit does to the foreign entries. */
  function EditForeign(f: map<Id, Held>, e: Edit): map<Id, Held> {
    match e
    case Put(id, h) => if Ours(h) then f - {id} else f[id := h]
    case Delete(id) => f - {id}
  }

  function EditAll(f: map<Id, Held>, es: seq<Edit>): map<Id, Held> {
    if es == [] then f else EditForeign(EditAll(f, es[..|es| - 1]), es[|es| - 1])
  }

  lemma EditOneMore(f: map<Id, Held>, es: seq<Edit>, e: Edit)
    ensures EditAll(f, es + [e]) == EditForeign(EditAll(f, es), e)
  {
    hide EditForeign;
    assert (es + [e])[..|es|] == es;
  }

  lemma EditTableForeign(t: Table, e: Edit)
    ensures Foreign(EditTable(t, e)) == EditForeign(Foreign(t), e)
  {
    hide IsOwned;
  }

  /** The operator's own edits in a run; cycles do not appear. */
  function EditsIn(steps: seq<Step>): seq<Edit> {
    if steps == [] then []
    else EditsIn(steps[..|steps| - 1]) + if steps[|steps| - 1].Operator? then [steps[|steps| - 1].edit] else []
  }

  /** Whatever the desired sets, caps, flags, snapshots and failures along the way, the
      foreign entries end up exactly as the operator's edits alone would leave them. */
  lemma {:induction false} ForeignUntouched(t: Table, same: SameAddress, steps: seq<Step>)
    requires t.Valid()
    ensures Run(t, same, steps).Valid()
    ensures Foreign(Run(t, same, steps)) == EditAll(Foreign(t), EditsIn(steps))
  {
    hide IsOwned, RunCycle, EditAll, EditForeign;
    if steps != [] {
      var init, s := steps[..|steps| - 1], steps[|steps| - 1];
      ForeignUntouched(t, same, init);
      var u := Run(t, same, init);
      if s.Sync? {
        CycleShape(u, same, s.cycle);
        assert Foreign(RunCycle(u, same, s.cycle)) == Foreign(u);
        assert EditsIn(steps) == EditsIn(init);
      } else {
        EditTableForeign(u, s.edit);
        EditOneMore(Foreign(t), EditsIn(init), s.edit);
      }
    } else {
      assert EditAll(Foreign(t), []) == Foreign(t) by { NoEdits(Foreign(t)); }
    }
  }

  lemma NoEdits(f: map<Id, Held>)
    ensures EditAll(f, []) == f
  {
  }

  /** Every entry Protek creates is still recognised as its own, or gone, after any further
      run of cycles; entries are never rewritten. */
  lemma {:induction false} CreatedEntriesStayOurs(t: Table, same: SameAddress, steps: seq<Step>)
    requires t.Valid()
    requires forall i :: 0 <= i < |steps| ==> steps[i].Sync?
    ensures var u := Run(t, same, steps);
            && u.Valid() && t.next <= u.next
            && (forall id :: id in u.entries && id in t.entries ==> u.entries[id] == t.entries[id])
            && (forall id :: id in u.entries && id !in t.entries ==> t.next <= id && Ours(u.entries[id]))
            && (forall id :: id in t.entries && id !in u.entries ==> Ours(t.entries[id]))
  {
    hide IsOwned, RunCycle;
    if steps != [] {
      var init := steps[..|steps| - 1];
      CreatedEntriesStayOurs(t, same, init);
      CycleShape(Run(t, same, init), same, steps[|steps| - 1].cycle);
    }
  }

  function EditTables(t: Table, es: seq<Edit>): Table {
    if es == [] then t else EditTable(EditTables(t, es[..|es| - 1]), es[|es| - 1])
  }

  /** A run of cycles that are dry, not configured or not connected is the operator's edits alone. */
  lemma {:induction false} InertRun(t: Table, same: SameAddress, steps: seq<Step>)
    requires forall i :: 0 <= i < |steps| && steps[i].Sync? ==>
               steps[i].cycle.dry || !steps[i].cycle.configured || !steps[i].cycle.connects
    ensures Run(t, same, steps) == EditTables(t, EditsIn(steps))
  {
    hide RunCycle, EditTable;
    if steps != [] {
      var init, s := steps[..|steps| - 1], steps[|steps| - 1];
      InertRun(t, same, init);
      if s.Sync? {
        InertCycle(Run(t, same, init), same, s.cycle);
        assert EditsIn(steps) == EditsIn(init);
      } else {
        assert EditsIn(steps)[..|EditsIn(init)|] == EditsIn(init);
      }
    }
  }
}
