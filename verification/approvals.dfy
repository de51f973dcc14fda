/** What the sweep's protection of pending approvals protects (retention.py, with the ids that
    reconciler.py `_desired_from_db` stores). */
module Approvals {
  import opened Ordered
  import opened Ownership
  import Gates
  import opened Retention

  /** A row of the decisions table, by its row id. */
  datatype Stored = Stored(lapiId: int, address: string, tombstone: bool)

  /** The ids that pending approvals list. */
  function PendingIds(q: seq<Gates.QueueRow>): set<int> {
    set i | 0 <= i < |q| && q[i].status == Gates.Pending :: q[i].decisionId
  }

  /** The tables as the sweep reads them: it compares listed ids with row ids. */
  function SweptDb(rows: map<int, Stored>, q: seq<Gates.QueueRow>): Db {
    Db(map id | id in rows :: rows[id].tombstone, PendingIds(q))
  }

  /** A pending approval was queued for this decision: for its address, with its LAPI id. */
  ghost predicate Awaited(rows: map<int, Stored>, q: seq<Gates.QueueRow>, id: int) {
    && id in rows && rows[id].tombstone
    && exists i :: PendingAt(q, i, rows[id].lapiId) && q[i].ip == rows[id].address
  }

  ghost predicate PendingAt(q: seq<Gates.QueueRow>, i: int, id: int) {
    0 <= i < |q| && q[i].status == Gates.Pending && q[i].decisionId == id
  }

  lemma {:induction false} QueuedSoFar(q: seq<Gates.QueueRow>, ds: seq<Decision>, k: nat) returns (i: int)
    requires k < |ds| && !Gates.HasRow(q, ds[k].value)
    ensures PendingAt(Gates.QueueAll(q, q, ds), i, ds[k].lapiId)
  {
    hide Gates.HasRow;
    var n := |ds| - 1;
    var r := Gates.QueueAll(q, q, ds);
    if k < n {
      i := QueuedSoFar(q, ds[..n], k);
    } else {
      i := |r| - 1;
    }
  }

  /** Queueing lists the LAPI id of every newcomer. */
  lemma QueuedByLapiId(q: seq<Gates.QueueRow>, ds: seq<Decision>, d: Decision)
    requires d in ds && !Gates.HasRow(q, d.value)
    ensures d.lapiId in PendingIds(Gates.QueueAll(q, q, ds))
  {
    hide Gates.HasRow, Gates.QueueAll;
    var k :| 0 <= k < |ds| && ds[k] == d;
    var i := QueuedSoFar(q, ds, k);
    assert Gates.QueueAll(q, q, ds)[i].decisionId in PendingIds(Gates.QueueAll(q, q, ds));
  }

  lemma TombstonesOf(rows: map<int, Stored>, q: seq<Gates.QueueRow>, id: int)
    ensures id in Tombstones(SweptDb(rows, q)) <==> id in rows && rows[id].tombstone
  {
    hide PendingIds;
  }

  /** A full sweep spares every decision a pending approval was queued for if and only if each such
      row outside the newest `cap` happens to have a listed row id of its own. */
  lemma AwaitedSurviveExactly(rows: map<int, Stored>, q: seq<Gates.QueueRow>, cap: nat, batch: nat, n: nat)
    requires batch > 0 && n > |rows|
    ensures var db := SweptDb(rows, q);
            (forall id :: Awaited(rows, q, id) ==> id in Sweep(db, cap, batch, n).rows) <==>
            (forall id :: Awaited(rows, q, id) && id !in Newest(Tombstones(db), cap) ==> id in PendingIds(q))
  {
    hide PendingIds, Newest, Sweep, PendingAt;
    var db := SweptDb(rows, q);
    assert |Tombstones(db)| <= |rows| by { TombstonesFew(rows, q); }
    SweepLeaves(db, cap, batch, n);
    SweepKeepsMarks(db, cap, batch, n);
    forall id | Awaited(rows, q, id)
      ensures id in Sweep(db, cap, batch, n).rows <==> id in Newest(Tombstones(db), cap) || id in PendingIds(q)
    {
      TombstonesOf(rows, q, id);
    }
  }

  lemma TombstonesFew(rows: map<int, Stored>, q: seq<Gates.QueueRow>)
    ensures |Tombstones(SweptDb(rows, q))| <= |rows|
  {
    hide PendingIds;
    assert Tombstones(SweptDb(rows, q)) <= rows.Keys;
    SubsetSize(Tombstones(SweptDb(rows, q)), rows.Keys);
  }

  /** A tombstone that is still there is still a tombstone. */
  lemma SweepKeepsMarks(db: Db, cap: nat, batch: nat, n: nat)
    requires batch > 0
    ensures forall id :: id in Tombstones(db) && id in Sweep(db, cap, batch, n).rows ==> id in Tombstones(Sweep(db, cap, batch, n))
  {
    hide Cutoff, RunMoves, Prunable;
    if Cutoff(Tombstones(db), cap).Some? {
      var gone := BatchesRemove(db, Cutoff(Tombstones(db), cap).value, batch, n);
    }
  }

  /** For every decision whose row id differs from its LAPI id, an approval queued for it does not
      protect it, and protects instead the row that bears the LAPI id as its row id. */
  lemma WrongRowIsSpared(d: Decision, id: int, other: Stored, batch: nat, n: nat)
    requires id != d.lapiId && other.tombstone && batch > 0 && n > 2
    ensures var q := Gates.QueueAll([], [], [d]);
            var rows := map[id := Stored(d.lapiId, d.value, true), d.lapiId := other];
            Awaited(rows, q, id) && Tombstones(Sweep(SweptDb(rows, q), 0, batch, n)) == {d.lapiId}
  {
    hide Newest, Sweep;
    var q := Gates.QueueAll([], [], [d]);
    var rows := map[id := Stored(d.lapiId, d.value, true), d.lapiId := other];
    assert [d][..0] == [];
    assert Gates.QueueAll([], [], [d][..0]) == [] && !Gates.HasRow([], d.value);
    assert q == [Gates.QueueRow(1, d.value, Gates.Pending, d.lapiId)];
    assert PendingAt(q, 0, d.lapiId);
    assert PendingIds(q) == {d.lapiId} by { assert q[0].decisionId in PendingIds(q); }
    assert Tombstones(SweptDb(rows, q)) == {id, d.lapiId};
    NewestOfNone(Tombstones(SweptDb(rows, q)));
    SweepLeaves(SweptDb(rows, q), 0, batch, n);
  }

  lemma NewestOfNone(s: set<int>)
    ensures Newest(s, 0) == {}
  {
  }
}
