/** The batched pruning of soft-deleted decisions (retention.py). */
module Retention {
  import opened Text
  import opened Ordered

  // ----- order in finite sets of row ids -----

  lemma {:induction false} HasLeast(s: set<int>)
    requires s != {}
    ensures exists x :: x in s && forall y :: y in s ==> x <= y
  {
    var z := Pick(s);
    if s != {z} {
      HasLeast(s - {z});
      var x :| x in s - {z} && forall y :: y in s - {z} ==> x <= y;
      var m := if x < z then x else z;
      assert m in s && forall y :: y in s ==> m <= y by { assert forall y :: y in s ==> y == z || y in s - {z}; }
    }
  }

  function Least(s: set<int>): (x: int)
    requires s != {}
    ensures x in s && forall y :: y in s ==> x <= y
  {
    HasLeast(s);
    var x :| x in s && forall y :: y in s ==> x <= y; x
  }

  lemma {:induction false} HasGreatest(s: set<int>)
    requires s != {}
    ensures exists x :: x in s && forall y :: y in s ==> y <= x
  {
    var z := Pick(s);
    if s != {z} {
      HasGreatest(s - {z});
      var x :| x in s - {z} && forall y :: y in s - {z} ==> y <= x;
      var m := if x > z then x else z;
      assert m in s && forall y :: y in s ==> y <= m by { assert forall y :: y in s ==> y == z || y in s - {z}; }
    }
  }

  function Greatest(s: set<int>): (x: int)
    requires s != {}
    ensures x in s && forall y :: y in s ==> y <= x
  {
    HasGreatest(s);
    var x :| x in s && forall y :: y in s ==> y <= x; x
  }

  /** How many ids of `s` are newer than `x`. */
  function Above(s: set<int>, x: int): set<int> {
    set y | y in s && y > x
  }

  /** `ORDER BY id DESC LIMIT 1 OFFSET cap`. */
  function Cutoff(s: set<int>, cap: nat): Option<int>
    decreases cap
  {
    if s == {} then None
    else if cap == 0 then Some(Greatest(s))
    else Cutoff(s - {Greatest(s)}, cap - 1)
  }

  /** `ORDER BY id LIMIT n`. */
  function Oldest(s: set<int>, n: nat): (r: set<int>)
    ensures r <= s && |r| == (if n < |s| then n else |s|)
    ensures forall x, y :: x in r && y in s && y !in r ==> x < y
    decreases n
  {
    if n == 0 || s == {} then {}
    else
      var m := Least(s);
      var rest := Oldest(s - {m}, n - 1);
      assert |s - {m}| == |s| - 1 && m !in rest;
      assert |{m} + rest| == 1 + |rest|;
      {m} + rest
  }

  /** The cutoff is the id with exactly `cap` newer ones, if there are more than `cap`. */
  lemma {:induction false} CutoffExact(s: set<int>, cap: nat)
    ensures Cutoff(s, cap).None? <==> |s| <= cap
    ensures Cutoff(s, cap).Some? ==> Cutoff(s, cap).value in s && |Above(s, Cutoff(s, cap).value)| == cap
    decreases cap
  {
    if s != {} {
      var g := Greatest(s);
      if cap == 0 {
        assert Above(s, g) == {};
      } else {
        var rest := s - {g};
        CutoffExact(rest, cap - 1);
        if Cutoff(rest, cap - 1).Some? {
          var c := Cutoff(rest, cap - 1).value;
          assert Above(s, c) == Above(rest, c) + {g};
        }
      }
    }
  }

  /** The newest `n` ids of a set. */
  function Newest(s: set<int>, n: nat): set<int> {
    set x | x in s && |Above(s, x)| < n
  }

  lemma AboveShrinks(s: set<int>, x: int, y: int)
    requires y in s && x < y
    ensures |Above(s, y)| < |Above(s, x)|
  {
    assert y in Above(s, x) && y !in Above(s, y);
    SubsetSize(Above(s, y), Above(s, x));
  }

  /** Being newer than the cutoff is being among the newest `cap`. */
  lemma NewerThanCutoff(s: set<int>, cap: nat, x: int)
    requires x in s
    ensures x in Newest(s, cap) <==> Cutoff(s, cap).None? || x > Cutoff(s, cap).value
  {
    hide Cutoff;
    CutoffExact(s, cap);
    if Cutoff(s, cap).None? {
      assert x !in Above(s, x) && Above(s, x) <= s;
      SubsetSize(Above(s, x), s);
    } else {
      var c := Cutoff(s, cap).value;
      if x > c { AboveShrinks(s, c, x); }
      if x < c { AboveShrinks(s, x, c); }
    }
  }

  // ----- the sweep -----

  /** The decisions table, reduced to which row ids are soft-deleted, and the row ids that pending
      approvals list. */
  datatype Db = Db(rows: map<int, bool>, pending: set<int>)

  function Tombstones(db: Db): set<int> {
    set id | id in db.rows && db.rows[id]
  }

  function Prunable(db: Db, cutoff: int): set<int> {
    set id | id in db.rows && db.rows[id] && id <= cutoff && id !in db.pending
  }

  /** One batch: the oldest prunable rows, decided on the table as it is now. */
  function DeleteBatch(db: Db, cutoff: int, batch: nat): Db {
    db.(rows := db.rows - Oldest(Prunable(db, cutoff), batch))
  }

  /** The tombstones a full sweep leaves: the newest `cap`, and those a pending approval lists. */
  function Survivors(db: Db, cap: nat): set<int> {
    Newest(Tombstones(db), cap) + Tombstones(db) * db.pending
  }

  class Store {
    var db: Db

    constructor (db: Db)
      ensures this.db == db
    {
      this.db := db;
    }

    /** Delete batch by batch, until nothing is left or the budget has run out after `passes`
        looks at the clock. What goes is an oldest part of what was prunable. */
    method Drain(cutoff: int, batch: nat, passes: nat) returns (removed: nat, finished: bool, ghost gone: set<int>)
      modifies this
      ensures db == old(db).(rows := old(db).rows - gone) && removed == |gone|
      ensures OldestPart(gone, Prunable(old(db), cutoff))
      ensures finished && batch > 0 ==> gone == Prunable(old(db), cutoff)
      ensures batch > 0 && passes > |Prunable(old(db), cutoff)| ==> finished
    {
      hide Prunable, OldestPart, Oldest;
      ghost var all := Prunable(db, cutoff);
      gone, removed, finished := {}, 0, false;
      NothingGone(db, all);
      var left := passes;
      while left > 0
        invariant db == old(db).(rows := old(db).rows - gone) && removed == |gone| && !finished
        invariant OldestPart(gone, all)
        invariant batch > 0 ==> passes - left <= removed
      {
        left := left - 1;
        PrunableAfter(old(db), cutoff, gone);
        var now := Oldest(Prunable(db, cutoff), batch);
        MorePart(gone, all, batch);
        RowsLess(old(db).rows, gone, now);
        db := DeleteBatch(db, cutoff, batch);
        gone := gone + now;
        if |now| == 0 {
          finished := true;
          break;
        }
        removed := removed + |now|;
      }
      PartSize(gone, all);
    }

    /** `prune`, on the decisions table: only tombstones go, never one of the newest `cap` and never
        a row a pending approval lists; with room in the budget nothing else stays. */
    method Prune(cap: nat, batch: nat, passes: nat) returns (removed: nat)
      modifies this
      ensures db.pending == old(db).pending
      ensures Tombstones(db) <= Tombstones(old(db)) && removed == |Tombstones(old(db))| - |Tombstones(db)|
      ensures Survivors(old(db), cap) <= Tombstones(db)
      ensures batch > 0 && passes > |Tombstones(old(db))| ==>
                Tombstones(db) == Survivors(old(db), cap)
      ensures forall id :: id in old(db).rows && !old(db).rows[id] ==> id in db.rows && !db.rows[id]
    {
      hide Cutoff, Newest, Prunable, Tombstones;
      PrunableExact(db, cap);
      var cutoff := Cutoff(Tombstones(db), cap);
      if cutoff.None? { return 0; }
      ghost var gone;
      var finished;
      removed, finished, gone := Drain(cutoff.value, batch, passes);
      Swept(old(db), cap, gone);
    }
  }

  /** `gone` is part of `all` and older than the rest of it. */
  ghost predicate OldestPart(gone: set<int>, all: set<int>) {
    gone <= all && forall x, y :: x in gone && y in all - gone ==> x < y
  }

  lemma NothingGone(db: Db, all: set<int>)
    ensures OldestPart({}, all) && db.rows - {} == db.rows
  {
  }

  lemma MorePart(gone: set<int>, all: set<int>, batch: nat)
    requires OldestPart(gone, all)
    ensures var now := Oldest(all - gone, batch);
            && OldestPart(gone + now, all) && |gone + now| == |gone| + |now|
            && (|now| == 0 ==> now == {} && (batch > 0 ==> gone == all)) && |now| <= batch
            && gone + now <= all
  {
    hide Oldest;
    var now := Oldest(all - gone, batch);
    assert gone !! now;
    if |now| == 0 && batch > 0 { assert |all - gone| == 0; }
  }

  lemma RowsLess(rows: map<int, bool>, gone: set<int>, now: set<int>)
    ensures rows - gone - now == rows - (gone + now)
  {
  }

  lemma PartSize(gone: set<int>, all: set<int>)
    requires OldestPart(gone, all)
    ensures |gone| <= |all|
  {
    SubsetSize(gone, all);
  }

  /** The prunable rows are the tombstones that are neither among the newest `cap` nor listed. */
  lemma PrunableExact(db: Db, cap: nat)
    ensures var t := Tombstones(db);
            && (Cutoff(t, cap).Some? ==> Prunable(db, Cutoff(t, cap).value) == t - Newest(t, cap) - db.pending)
            && (Cutoff(t, cap).None? ==> Newest(t, cap) == t)
            && Newest(t, cap) <= t
  {
    hide Cutoff, Above;
    var t := Tombstones(db);
    forall x | x in t ensures x in Newest(t, cap) <==> Cutoff(t, cap).None? || x > Cutoff(t, cap).value {
      NewerThanCutoff(t, cap, x);
    }
  }

  lemma Swept(db: Db, cap: nat, gone: set<int>)
    requires var t := Tombstones(db); gone <= t - Newest(t, cap) - db.pending
    ensures var t, after := Tombstones(db), Tombstones(db.(rows := db.rows - gone));
            && after == t - gone && |after| == |t| - |gone|
            && |t - Newest(t, cap) - db.pending| <= |t|
            && forall id :: id in db.rows && !db.rows[id] ==> id !in gone
  {
    hide Newest;
    var t := Tombstones(db);
    assert Tombstones(db.(rows := db.rows - gone)) == t - gone;
    SizeMinus(t, gone);
    SubsetSize(t - Newest(t, cap) - db.pending, t);
  }

  lemma SizeMinus(s: set<int>, part: set<int>)
    requires part <= s
    ensures |s - part| == |s| - |part|
  {
    assert s == (s - part) + part;
  }

  lemma PrunableAfter(db: Db, cutoff: int, gone: set<int>)
    ensures Prunable(db.(rows := db.rows - gone), cutoff) == Prunable(db, cutoff) - gone
  {
  }

  // ----- other writers between batches -----

  /** A batch, or another transaction that leaves the tables as given. */
  datatype Move = Batch(n: nat) | Others(db: Db)

  function RunMoves(db: Db, cutoff: int, ms: seq<Move>): Db {
    if ms == [] then db
    else
      var before := RunMoves(db, cutoff, ms[..|ms| - 1]);
      match ms[|ms| - 1]
      case Batch(n) => DeleteBatch(before, cutoff, n)
      case Others(after) => after
  }

  /** Other transactions insert, revive, soft-delete and list rows; only the sweep removes them. */
  ghost predicate OthersRemoveNothing(db: Db, cutoff: int, ms: seq<Move>) {
    forall i :: 0 <= i < |ms| && ms[i].Others? ==> RunMoves(db, cutoff, ms[..i]).rows.Keys <= ms[i].db.rows.Keys
  }

  /** At this moment the row is in use: active, listed by a pending approval, or newer than the cutoff. */
  predicate InUse(db: Db, cutoff: int, id: int) {
    id in db.rows && (!db.rows[id] || id in db.pending || id > cutoff)
  }

  lemma {:induction false} SurvivesWhileInUse(db: Db, cutoff: int, ms: seq<Move>, id: int)
    requires id in db.rows && OthersRemoveNothing(db, cutoff, ms)
    requires forall i :: 0 <= i < |ms| && ms[i].Batch? && id in RunMoves(db, cutoff, ms[..i]).rows ==>
               InUse(RunMoves(db, cutoff, ms[..i]), cutoff, id)
    ensures id in RunMoves(db, cutoff, ms).rows
  {
    hide Oldest;
    if ms != [] {
      var n := |ms| - 1;
      assert forall i :: 0 <= i < n ==> ms[..n][i] == ms[i] && ms[..n][..i] == ms[..i];
      SurvivesWhileInUse(db, cutoff, ms[..n], id);
      assert ms[n].Batch? ==> InUse(RunMoves(db, cutoff, ms[..n]), cutoff, id);
    }
  }

  /** Whatever else happens during a sweep, the newest `cap` tombstones it found at its start are
      still in the table at its end. */
  lemma NewestSurvive(db: Db, cap: nat, ms: seq<Move>, id: int)
    requires Cutoff(Tombstones(db), cap).Some? && id in Newest(Tombstones(db), cap)
    requires OthersRemoveNothing(db, Cutoff(Tombstones(db), cap).value, ms)
    ensures id in RunMoves(db, Cutoff(Tombstones(db), cap).value, ms).rows
  {
    hide Cutoff, RunMoves, OthersRemoveNothing;
    NewestAreTombstones(Tombstones(db), cap);
    NewerThanCutoff(Tombstones(db), cap, id);
    SurvivesWhileInUse(db, Cutoff(Tombstones(db), cap).value, ms, id);
  }

  lemma NewestAreTombstones(s: set<int>, n: nat)
    ensures Newest(s, n) <= s
  {
  }

  // ----- a full sweep -----

  function Batches(n: nat, batch: nat): seq<Move> {
    seq(n, _ => Batch(batch))
  }

  /** The table after a sweep of `n` batches with nobody else writing. */
  function Sweep(db: Db, cap: nat, batch: nat, n: nat): Db {
    var cutoff := Cutoff(Tombstones(db), cap);
    if cutoff.None? then db else RunMoves(db, cutoff.value, Batches(n, batch))
  }

  /** Each batch takes at least one row until nothing prunable is left. */
  lemma {:induction false} BatchesRemove(db: Db, cutoff: int, batch: nat, n: nat) returns (gone: set<int>)
    requires batch > 0
    ensures RunMoves(db, cutoff, Batches(n, batch)) == db.(rows := db.rows - gone)
    ensures OldestPart(gone, Prunable(db, cutoff)) && (gone == Prunable(db, cutoff) || |gone| >= n)
  {
    hide Prunable, OldestPart, Oldest;
    var all := Prunable(db, cutoff);
    if n == 0 {
      gone := {};
      NothingGone(db, all);
    } else {
      gone := BatchesRemove(db, cutoff, batch, n - 1);
      assert Batches(n, batch)[..n - 1] == Batches(n - 1, batch);
      PrunableAfter(db, cutoff, gone);
      MorePart(gone, all, batch);
      var now := Oldest(all - gone, batch);
      RowsLess(db.rows, gone, now);
      assert gone == all ==> all - gone == {} && now <= {} by { OldestWithin(all - gone, batch); }
      gone := gone + now;
    }
  }

  lemma OldestWithin(s: set<int>, n: nat)
    ensures Oldest(s, n) <= s
  {
  }

  /** With more batches than tombstones, a sweep leaves exactly the survivors. */
  lemma SweepLeaves(db: Db, cap: nat, batch: nat, n: nat)
    requires batch > 0 && n > |Tombstones(db)|
    ensures Tombstones(Sweep(db, cap, batch, n)) == Survivors(db, cap)
  {
    hide Cutoff, Newest, Prunable, Tombstones, RunMoves;
    var t := Tombstones(db);
    PrunableExact(db, cap);
    if Cutoff(t, cap).Some? {
      var gone := BatchesRemove(db, Cutoff(t, cap).value, batch, n);
      PartSize(gone, Prunable(db, Cutoff(t, cap).value));
      Swept(db, cap, gone);
    }
  }
}
