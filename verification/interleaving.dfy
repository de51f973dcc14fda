/** A cycle as it really runs: one look at the list, then one operation at a time, with an operator
    editing the list at any moment (reconciler.py `_run_one_bouncer`, bouncers/mikrotik_adapter.py). */
module Interleaving {
  import opened Text
  import opened Ordered
  import opened Ownership
  import opened Diff
  import opened Target

  datatype Op = AddOp(address: string, comment: string) | RemoveOp(id: Id)

  /** The list, and the planned operations still to be carried out. */
  datatype Sys = Sys(t: Table, todo: seq<Op>)

  /** Take the snapshot and plan; carry out the next operation, or have it fail; abandon the rest;
      or an edit of the operator's. */
  datatype Move = Look(cycle: Cycle) | Do(works: bool) | GiveUp | Operator(edit: Edit)

  function AddOps(adds: seq<(string, string)>): (ops: seq<Op>)
    ensures |ops| == |adds|
  {
    seq(|adds|, i requires 0 <= i < |adds| => AddOp(adds[i].0, adds[i].1))
  }

  function RemoveOps(ids: seq<Id>): (ops: seq<Op>)
    ensures |ops| == |ids|
  {
    seq(|ids|, i requires 0 <= i < |ids| => RemoveOp(ids[i]))
  }

  /** The operations a cycle plans from the list it saw. */
  function Planned(t: Table, c: Cycle): seq<Op> {
    if Applies(t, c) && c.connects
    then AddOps(Take(Plan(t, c).toAdd, c.cap)) + RemoveOps(Take(Plan(t, c).toRemove, c.cap))
    else []
  }

  function Perform(t: Table, same: SameAddress, op: Op): Table {
    match op
    case AddOp(address, comment) => AddTo(t, same, address, comment)
    case RemoveOp(id) => RemoveFrom(t, id)
  }

  function MoveOnce(s: Sys, same: SameAddress, m: Move): Sys {
    match m
    case Look(c) => Sys(s.t, Planned(s.t, c))
    case Do(works) =>
      if s.todo == [] then s
      else Sys(if works then Perform(s.t, same, s.todo[0]) else s.t, s.todo[1..])
    case GiveUp => Sys(s.t, [])
    case Operator(e) => Sys(EditTable(s.t, e), s.todo)
  }

  function RunMoves(s: Sys, same: SameAddress, ms: seq<Move>): Sys {
    if ms == [] then s else MoveOnce(RunMoves(s, same, ms[..|ms| - 1]), same, ms[|ms| - 1])
  }

  // ----- undisturbed, the moves are a cycle -----

  /** Carry out `n` adds and then `k` removals, failing as the cycle says. */
  function Carried(c: Cycle, n: nat, k: nat): seq<Move> {
    seq(n, i requires 0 <= i < n => Do(i !in c.failedAdds)) + seq(k, i requires 0 <= i < k => Do(i !in c.failedRemoves))
  }

  lemma {:induction false} CarryAdds(t: Table, same: SameAddress, c: Cycle, adds: seq<(string, string)>, rest: seq<Op>, n: nat)
    requires n <= |adds|
    ensures RunMoves(Sys(t, AddOps(adds) + rest), same, Carried(c, n, 0)) ==
            Sys(AddAll(t, same, adds[..n], c.failedAdds), AddOps(adds)[n..] + rest)
  {
    hide Present;
    var ms := Carried(c, n, 0);
    if n == 0 {
      assert AddOps(adds)[0..] + rest == AddOps(adds) + rest;
    } else {
      CarryAdds(t, same, c, adds, rest, n - 1);
      assert ms[..n - 1] == Carried(c, n - 1, 0) && ms[n - 1] == Do(n - 1 !in c.failedAdds);
      assert adds[..n][..n - 1] == adds[..n - 1];
      var todo := AddOps(adds)[n - 1..] + rest;
      assert todo[0] == AddOp(adds[n - 1].0, adds[n - 1].1) && todo[1..] == AddOps(adds)[n..] + rest;
    }
  }

  lemma {:induction false} CarryRemovals(t: Table, same: SameAddress, c: Cycle, ids: seq<Id>, ms: seq<Move>, s: Sys, k: nat)
    requires k <= |ids| && RunMoves(s, same, ms) == Sys(t, RemoveOps(ids))
    ensures RunMoves(s, same, ms + Carried(c, 0, k)) == Sys(RemoveAll(t, ids[..k], c.failedRemoves), RemoveOps(ids)[k..])
    decreases k
  {
    hide RunMoves, Planned, Present, RemoveFrom;
    if k == 0 {
      assert ms + Carried(c, 0, 0) == ms && RemoveOps(ids)[0..] == RemoveOps(ids);
      assert ids[..0] == [];
    } else {
      var m, before := Do(k - 1 !in c.failedRemoves), ms + Carried(c, 0, k - 1);
      CarryRemovals(t, same, c, ids, ms, s, k - 1);
      assert ms + Carried(c, 0, k) == before + [m];
      RunOneMore(s, same, before, m);
      var todo := RemoveOps(ids)[k - 1..];
      assert todo[0] == RemoveOp(ids[k - 1]) && todo[1..] == RemoveOps(ids)[k..];
      assert ids[..k][..k - 1] == ids[..k - 1];
    }
  }

  lemma RunOneMore(s: Sys, same: SameAddress, ms: seq<Move>, m: Move)
    ensures RunMoves(s, same, ms + [m]) == MoveOnce(RunMoves(s, same, ms), same, m)
  {
    hide MoveOnce;
    assert (ms + [m])[..|ms|] == ms;
  }

  /** With nothing to do, doing changes nothing. */
  lemma {:induction false} IdleMoves(s: Sys, same: SameAddress, ms: seq<Move>)
    requires s.todo == [] && forall i :: 0 <= i < |ms| ==> ms[i].Do?
    ensures RunMoves(s, same, ms) == s
  {
    if ms != [] { IdleMoves(s, same, ms[..|ms| - 1]); }
  }

  /** With nobody else at the list, a look and its operations are exactly one cycle. */
  lemma CycleIsMoves(t: Table, same: SameAddress, c: Cycle)
    ensures var adds, ids := Take(Plan(t, c).toAdd, c.cap), Take(Plan(t, c).toRemove, c.cap);
            RunMoves(Sys(t, Planned(t, c)), same, Carried(c, |adds|, |ids|)) == Sys(RunCycle(t, same, c), [])
  {
    hide Plan, Applies, RunMoves, AddAll, RemoveAll;
    var adds, ids := Take(Plan(t, c).toAdd, c.cap), Take(Plan(t, c).toRemove, c.cap);
    var s := Sys(t, Planned(t, c));
    if !(Applies(t, c) && c.connects) {
      IdleMoves(s, same, Carried(c, |adds|, |ids|));
      return;
    }
    CarryAdds(t, same, c, adds, RemoveOps(ids), |adds|);
    assert adds[..|adds|] == adds && AddOps(adds)[|adds|..] + RemoveOps(ids) == RemoveOps(ids);
    CarryRemovals(AddAll(t, same, adds, c.failedAdds), same, c, ids, Carried(c, |adds|, 0), s, |ids|);
    assert Carried(c, |adds|, 0) + Carried(c, 0, |ids|) == Carried(c, |adds|, |ids|);
    assert ids[..|ids|] == ids && RemoveOps(ids)[|ids|..] == [];
  }

  // ----- what happens to foreign entries -----

  /** Every planned addition carries Protek's mark. */
  ghost predicate Marked(s: Sys) {
    s.t.Valid() && forall i :: 0 <= i < |s.todo| && s.todo[i].AddOp? ==> IsOwned(s.todo[i].comment)
  }

  lemma PlannedMarked(t: Table, c: Cycle)
    requires t.Valid()
    ensures Marked(Sys(t, Planned(t, c)))
  {
    hide IsOwned, Plan;
    var adds := Take(Plan(t, c).toAdd, c.cap);
    forall i | 0 <= i < |adds| ensures IsOwned(adds[i].1) { PlannedAddsAreOurs(t, c, i); }
  }

  lemma MarkedStep(s: Sys, same: SameAddress, m: Move)
    requires Marked(s)
    ensures Marked(MoveOnce(s, same, m))
  {
    hide IsOwned, Planned;
    if m.Look? { PlannedMarked(s.t, m.cycle); }
  }

  lemma {:induction false} RunMarked(s: Sys, same: SameAddress, ms: seq<Move>)
    requires Marked(s)
    ensures Marked(RunMoves(s, same, ms))
  {
    hide Marked, MoveOnce;
    if ms != [] {
      RunMarked(s, same, ms[..|ms| - 1]);
      MarkedStep(RunMoves(s, same, ms[..|ms| - 1]), same, ms[|ms| - 1]);
    }
  }

  /** The move carries out a removal of an entry that is foreign by now. */
  ghost predicate Steals(s: Sys, m: Move) {
    m == Do(true) && s.todo != [] && s.todo[0].RemoveOp? && s.todo[0].id in Foreign(s.t)
  }

  /** The operator's edits among the moves. */
  function EditsOf(ms: seq<Move>): seq<Edit> {
    if ms == [] then []
    else EditsOf(ms[..|ms| - 1]) + if ms[|ms| - 1].Operator? then [ms[|ms| - 1].edit] else []
  }

  /** What a move of the operator's does to the foreign entries; the others should do nothing. */
  function Expected(f: map<Id, Held>, m: Move): map<Id, Held> {
    if m.Operator? then EditForeign(f, m.edit) else f
  }

  /** A move touches the foreign entries as the operator's edit does, and a theft takes exactly one. */
  lemma ForeignStep(s: Sys, same: SameAddress, m: Move)
    requires Marked(s)
    ensures Foreign(MoveOnce(s, same, m).t) ==
            if Steals(s, m) then Foreign(s.t) - {s.todo[0].id} else Expected(Foreign(s.t), m)
  {
    hide IsOwned, Planned, Present;
    if m.Operator? { EditTableForeign(s.t, m.edit); }
  }

  lemma PrefixStep(s: Sys, same: SameAddress, ms: seq<Move>, i: nat)
    requires i < |ms|
    ensures RunMoves(s, same, ms[..i + 1]) == MoveOnce(RunMoves(s, same, ms[..i]), same, ms[i])
    ensures EditAll(Foreign(s.t), EditsOf(ms[..i + 1])) == Expected(EditAll(Foreign(s.t), EditsOf(ms[..i])), ms[i])
  {
    hide MoveOnce, EditForeign, Foreign, EditAll;
    assert ms[..i + 1][..i] == ms[..i];
    if ms[i].Operator? {
      EditOneMore(Foreign(s.t), EditsOf(ms[..i]), ms[i].edit);
    } else {
      assert EditsOf(ms[..i + 1]) == EditsOf(ms[..i]);
    }
  }

  ghost predicate AsEdited(s: Sys, same: SameAddress, ms: seq<Move>, n: nat)
    requires n <= |ms|
  {
    Foreign(RunMoves(s, same, ms[..n]).t) == EditAll(Foreign(s.t), EditsOf(ms[..n]))
  }

  lemma {:induction false} AsEditedUpTo(s: Sys, same: SameAddress, ms: seq<Move>, n: nat)
    requires Marked(s) && n <= |ms| && forall i :: 0 <= i < n ==> !Steals(RunMoves(s, same, ms[..i]), ms[i])
    ensures AsEdited(s, same, ms, n)
  {
    hide Marked, MoveOnce, Foreign, Steals, EditForeign;
    if n == 0 {
      assert ms[..0] == [];
    } else {
      AsEditedUpTo(s, same, ms, n - 1);
      RunMarked(s, same, ms[..n - 1]);
      PrefixStep(s, same, ms, n - 1);
      ForeignStep(RunMoves(s, same, ms[..n - 1]), same, ms[n - 1]);
    }
  }

  /** Over any run of looks, operations, failures and operator edits in any order, the foreign
      entries are at all times exactly what the operator's edits alone make of them, if and only if
      no operation removes an entry that has become foreign. */
  lemma ForeignExactly(s: Sys, same: SameAddress, ms: seq<Move>)
    requires Marked(s)
    ensures (forall n :: 0 <= n <= |ms| ==> AsEdited(s, same, ms, n)) <==>
            (forall i :: 0 <= i < |ms| ==> !Steals(RunMoves(s, same, ms[..i]), ms[i]))
  {
    hide Marked, MoveOnce, Foreign, Steals, AsEdited, RunMoves;
    if forall i :: 0 <= i < |ms| ==> !Steals(RunMoves(s, same, ms[..i]), ms[i]) {
      forall n | 0 <= n <= |ms| ensures AsEdited(s, same, ms, n) { AsEditedUpTo(s, same, ms, n); }
    }
    if forall n :: 0 <= n <= |ms| ==> AsEdited(s, same, ms, n) {
      forall i | 0 <= i < |ms| ensures !Steals(RunMoves(s, same, ms[..i]), ms[i]) {
        assert AsEdited(s, same, ms, i) && AsEdited(s, same, ms, i + 1);
        NoTheft(s, same, ms, i);
      }
    }
  }

  lemma NoTheft(s: Sys, same: SameAddress, ms: seq<Move>, i: nat)
    requires Marked(s) && i < |ms| && AsEdited(s, same, ms, i) && AsEdited(s, same, ms, i + 1)
    ensures !Steals(RunMoves(s, same, ms[..i]), ms[i])
  {
    hide Marked, MoveOnce, Foreign, RunMoves, EditAll, EditForeign;
    RunMarked(s, same, ms[..i]);
    PrefixStep(s, same, ms, i);
    ForeignStep(RunMoves(s, same, ms[..i]), same, ms[i]);
  }

  // ----- what a theft presupposes -----

  /** Move `j` looked, saw `id` owned, and planned its removal. */
  ghost predicate PlannedThen(s: Sys, same: SameAddress, ms: seq<Move>, j: int, id: Id) {
    && 0 <= j < |ms| && ms[j].Look?
    && (var t := RunMoves(s, same, ms[..j]).t;
        id in t.entries && Ours(t.entries[id]) && id in Plan(t, ms[j].cycle).toRemove)
  }

  lemma PlannedWasOurs(t: Table, c: Cycle, id: Id)
    requires RemoveOp(id) in Planned(t, c)
    ensures id in t.entries && Ours(t.entries[id]) && id in Plan(t, c).toRemove
  {
    hide IsOwned, Plan, Applies;
    var ids := Take(Plan(t, c).toRemove, c.cap);
    var i :| 0 <= i < |Planned(t, c)| && Planned(t, c)[i] == RemoveOp(id);
    var k := i - |Take(Plan(t, c).toAdd, c.cap)|;
    assert ids[k] == id && id in Plan(t, c).toRemove;
    PlannedRemovalsAreOurs(t, c, id);
  }

  /** A removal still to be carried out was planned by the last look. */
  lemma {:induction false} PlannedBy(s: Sys, same: SameAddress, ms: seq<Move>, i: nat, id: Id) returns (j: nat)
    requires s.todo == [] && i <= |ms| && RemoveOp(id) in RunMoves(s, same, ms[..i]).todo
    ensures j < i && PlannedThen(s, same, ms, j, id)
    ensures forall k :: j < k < i ==> !ms[k].Look?
  {
    hide IsOwned, Plan, Planned, Perform, Foreign;
    assert i > 0;
    PrefixStep(s, same, ms, i - 1);
    var before := RunMoves(s, same, ms[..i - 1]);
    if ms[i - 1].Look? {
      PlannedWasOurs(before.t, ms[i - 1].cycle, id);
      j := i - 1;
    } else {
      assert RemoveOp(id) in before.todo;
      j := PlannedBy(s, same, ms, i - 1, id);
    }
  }

  predicate Touches(m: Move, id: Id) {
    m.Operator? && m.edit.id == id
  }

  /** Move `k` is the operator's last edit of `id` after move `j` and before move `i`, and makes it foreign. */
  ghost predicate TakenOver(ms: seq<Move>, j: int, k: int, i: int, id: Id) {
    && 0 <= j < k < i <= |ms| && Touches(ms[k], id) && ms[k].edit.Put? && !Ours(ms[k].edit.held)
    && forall n :: k < n < i ==> !Touches(ms[n], id)
  }

  /** An entry that was not foreign after move `j` and is now was taken over in between. */
  lemma {:induction false} BecameForeign(s: Sys, same: SameAddress, ms: seq<Move>, j: nat, i: nat, id: Id) returns (k: nat)
    requires Marked(s) && j < i <= |ms|
    requires id !in Foreign(RunMoves(s, same, ms[..j + 1]).t) && id in Foreign(RunMoves(s, same, ms[..i]).t)
    ensures TakenOver(ms, j, k, i, id)
    decreases i
  {
    hide Marked, IsOwned, MoveOnce, RunMoves, Foreign, EditAll;
    assert i != j + 1;
    k := i - 1;
    PrefixStep(s, same, ms, k);
    RunMarked(s, same, ms[..k]);
    ForeignStep(RunMoves(s, same, ms[..k]), same, ms[k]);
    if !Touches(ms[k], id) {
      k := BecameForeign(s, same, ms, j, k, id);
    }
  }

  // ----- no removal is planned twice -----

  ghost predicate NoRepeats(todo: seq<Op>) {
    forall p, q :: 0 <= p < q < |todo| && todo[p].RemoveOp? && todo[q].RemoveOp? ==> todo[p].id != todo[q].id
  }

  lemma RemovalsDistinct(t: Table, c: Cycle)
    ensures Distinct(Plan(t, c).toRemove)
  {
    hide Normalize, IsOwned, DiffOf, Listing;
    var es, r := Listing(t, c), Plan(t, c).toRemove;
    RemovalsExact(c.desired, es);
    var keys := StaleKeys(c.desired, es);
    forall p, q | 0 <= p < q < |r| ensures r[p] != r[q] {
      var m :| LastAt(es, OwnedKey, keys[p], m) && r[p] == es[m].id;
      var n :| LastAt(es, OwnedKey, keys[q], n) && r[q] == es[n].id;
      ListingSound(t, c, es[m]);
      ListingSound(t, c, es[n]);
    }
  }

  lemma PlannedOnce(t: Table, c: Cycle)
    ensures NoRepeats(Planned(t, c))
  {
    hide Plan, Applies;
    RemovalsDistinct(t, c);
  }

  lemma {:induction false} RunNoRepeats(s: Sys, same: SameAddress, ms: seq<Move>)
    requires NoRepeats(s.todo)
    ensures NoRepeats(RunMoves(s, same, ms).todo)
  {
    hide Planned, Perform;
    if ms != [] {
      var before, m := RunMoves(s, same, ms[..|ms| - 1]), ms[|ms| - 1];
      RunNoRepeats(s, same, ms[..|ms| - 1]);
      if m.Look? { PlannedOnce(before.t, m.cycle); }
    }
  }

  /** While a planned removal is waiting, it has not been carried out. */
  lemma {:induction false} StillWaiting(s: Sys, same: SameAddress, ms: seq<Move>, n: nat, i: nat, id: Id)
    requires NoRepeats(s.todo) && n <= i <= |ms| && RemoveOp(id) in RunMoves(s, same, ms[..i]).todo
    requires forall k :: n <= k < i ==> !ms[k].Look?
    ensures RemoveOp(id) in RunMoves(s, same, ms[..n]).todo
    ensures n < i ==> !(Steals(RunMoves(s, same, ms[..n]), ms[n]) && RunMoves(s, same, ms[..n]).todo[0].id == id)
    decreases i - n
  {
    hide Planned, Perform, Foreign, RunMoves;
    if n < i {
      StillWaiting(s, same, ms, n + 1, i, id);
      PrefixStep(s, same, ms, n);
      RunNoRepeats(s, same, ms[..n]);
    }
  }

  /** A taken-over entry stays foreign while its removal is waiting. */
  lemma {:induction false} StaysForeign(s: Sys, same: SameAddress, ms: seq<Move>, j: nat, k: nat, i: nat, n: nat, id: Id)
    requires Marked(s) && NoRepeats(s.todo) && TakenOver(ms, j, k, i, id) && k < n <= i
    requires RemoveOp(id) in RunMoves(s, same, ms[..i]).todo && forall m :: j < m < i ==> !ms[m].Look?
    ensures id in Foreign(RunMoves(s, same, ms[..n]).t)
    decreases n
  {
    hide Marked, IsOwned, MoveOnce, RunMoves, Foreign, EditAll, NoRepeats;
    PrefixStep(s, same, ms, n - 1);
    RunMarked(s, same, ms[..n - 1]);
    ForeignStep(RunMoves(s, same, ms[..n - 1]), same, ms[n - 1]);
    StillWaiting(s, same, ms, n - 1, i, id);
    if n - 1 > k { StaysForeign(s, same, ms, j, k, i, n - 1, id); }
  }

  /** Move `i` removes, as planned by the last look at move `j`, an entry the operator took over at
      move `k` and has not touched since. */
  ghost predicate RemovesTakenOver(s: Sys, same: SameAddress, ms: seq<Move>, i: nat, j: int, k: int)
    requires i < |ms|
  {
    var now := RunMoves(s, same, ms[..i]);
    && ms[i] == Do(true) && now.todo != [] && now.todo[0].RemoveOp?
    && PlannedThen(s, same, ms, j, now.todo[0].id) && (forall n :: j < n < i ==> !ms[n].Look?)
    && TakenOver(ms, j, k, i, now.todo[0].id)
  }

  /** From an idle start, a move takes a foreign entry if and only if it carries out a removal that
      the last look planned for an entry of Protek's, which the operator took over since. */
  lemma StealsExactly(s: Sys, same: SameAddress, ms: seq<Move>, i: nat)
    requires Marked(s) && s.todo == [] && i < |ms|
    ensures Steals(RunMoves(s, same, ms[..i]), ms[i]) <==> exists j, k :: RemovesTakenOver(s, same, ms, i, j, k)
  {
    hide Marked, IsOwned, MoveOnce, RunMoves, Plan;
    if Steals(RunMoves(s, same, ms[..i]), ms[i]) {
      var j, k := StolenWasTakenOver(s, same, ms, i);
      assert RemovesTakenOver(s, same, ms, i, j, k);
    }
    if j, k :| RemovesTakenOver(s, same, ms, i, j, k) {
      var now := RunMoves(s, same, ms[..i]);
      assert RemoveOp(now.todo[0].id) in now.todo;
      StaysForeign(s, same, ms, j, k, i, i, now.todo[0].id);
    }
  }

  lemma StolenWasTakenOver(s: Sys, same: SameAddress, ms: seq<Move>, i: nat) returns (j: nat, k: nat)
    requires Marked(s) && s.todo == [] && i < |ms| && Steals(RunMoves(s, same, ms[..i]), ms[i])
    ensures RemovesTakenOver(s, same, ms, i, j, k)
  {
    hide Marked, IsOwned, MoveOnce, RunMoves, Plan;
    var now := RunMoves(s, same, ms[..i]);
    var id := now.todo[0].id;
    assert RemoveOp(id) in now.todo;
    j := PlannedBy(s, same, ms, i, id);
    assert id !in Foreign(RunMoves(s, same, ms[..j + 1]).t) by { LookChangesNothing(s, same, ms, j, id); }
    k := BecameForeign(s, same, ms, j, i, id);
  }

  lemma LookChangesNothing(s: Sys, same: SameAddress, ms: seq<Move>, j: nat, id: Id)
    requires PlannedThen(s, same, ms, j, id)
    ensures id !in Foreign(RunMoves(s, same, ms[..j + 1]).t)
  {
    hide IsOwned, Plan, RunMoves, Planned, EditAll;
    PrefixStep(s, same, ms, j);
  }

  // ----- it happens -----

  /** A list with one entry of Protek's, for `a`. */
  function OneOwned(a: string): Table {
    Table(map[0 := Held(a, OWNER_PREFIX)], 1)
  }

  /** A cycle that wants nothing and may do one removal. */
  const CLEARING: Cycle := Cycle([], Some([0]), true, false, 1, true, {}, {})

  lemma ClearingLists(a: string)
    ensures Listing(OneOwned(a), CLEARING) == [Entry(0, a, OWNER_PREFIX)]
  {
    var t := OneOwned(a);
    FilterAppend<Id>([], 0, Listed(t));
    FilterEmpty<Id>(Listed(t));
    assert Filter<Id>([0], Listed(t)) == [0] by { assert [] + [0] == [0]; }
  }

  /** With nothing wanted and one owned entry, the diff is its removal. */
  lemma OneRemoval(a: string)
    ensures var d := DiffOf([], [Entry(0, a, OWNER_PREFIX)]); d.toAdd == [] && d.toRemove == [0]
  {
    hide Normalize, EncodeComment, DiffOf, AddKeys, StaleKeys, IsOwned;
    var es := [Entry(0, a, OWNER_PREFIX)];
    AddsExact([], es);
    RemovalsExact([], es);
    PrefixIsOwned();
    var adds, stale, d := AddKeys([], es), StaleKeys([], es), DiffOf([], es);
    assert |adds| == 0 by { DistinctSize(adds); assert (set v | v in adds) == {}; }
    assert OwnedKey(es[0]) == Some(Normalize(a));
    assert OwnsNorm(es, Normalize(a)) && Normalize(a) in stale;
    assert |stale| == 1 by { DistinctSize(stale); assert (set v | v in stale) == {Normalize(a)}; }
    assert LastListed(es, stale[0], d.toRemove[0]);
  }

  lemma ClearingPlans(a: string)
    ensures Planned(OneOwned(a), CLEARING) == [RemoveOp(0)]
  {
    hide Listing, DiffOf;
    ClearingLists(a);
    OneRemoval(a);
    var d := Plan(OneOwned(a), CLEARING);
    assert Take(d.toAdd, 1) == [] && Take(d.toRemove, 1) == [0];
  }

  /** An operator who takes over an entry after the snapshot and before its removal loses it. */
  lemma TakeoverIsLost(a: string, mine: Held, same: SameAddress)
    requires !Ours(mine)
    ensures var s, ms := Sys(OneOwned(a), []), [Look(CLEARING), Move.Operator(Put(0, mine)), Do(true)];
            && Marked(s) && Steals(RunMoves(s, same, ms[..2]), ms[2])
            && Foreign(RunMoves(s, same, ms).t) == map[] && EditAll(Foreign(s.t), EditsOf(ms)) == map[0 := mine]
  {
    hide IsOwned, Planned, RunMoves, Foreign, EditAll, EditForeign;
    var s, ms := Sys(OneOwned(a), []), [Look(CLEARING), Move.Operator(Put(0, mine)), Do(true)];
    ClearingPlans(a);
    NothingYet(s, same, ms);
    PrefixStep(s, same, ms, 0);
    PrefixStep(s, same, ms, 1);
    PrefixStep(s, same, ms, 2);
    assert ms[..3] == ms;
    OneForeign(mine, 1);
    OnlyOurs(a);
    var last := RunMoves(s, same, ms[..2]);
    assert last.t.entries == map[0 := mine] && last.t == Table(map[0 := mine], 1);
    assert RunMoves(s, same, ms).t == Table(map[], 1) by { assert last.t.entries - {0} == map[]; }
  }

  lemma NothingYet(s: Sys, same: SameAddress, ms: seq<Move>)
    ensures RunMoves(s, same, ms[..0]) == s && EditAll(Foreign(s.t), EditsOf(ms[..0])) == Foreign(s.t)
  {
    assert ms[..0] == [];
  }

  lemma OneForeign(mine: Held, next: Id)
    requires !Ours(mine)
    ensures Foreign(Table(map[0 := mine], next)) == map[0 := mine] && Foreign(Table(map[], next)) == map[]
    ensures EditForeign(map[], Put(0, mine)) == map[0 := mine]
  {
    hide IsOwned;
  }

  lemma OnlyOurs(a: string)
    ensures Foreign(OneOwned(a)) == map[]
  {
    hide IsOwned;
    PrefixIsOwned();
  }

  lemma PrefixIsOwned()
    ensures IsOwned(OWNER_PREFIX)
  {
  }
}
