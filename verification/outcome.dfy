/** What a pull leaves in its source's part of the tables, told from the reported data alone
    (poller.py `_bootstrap`, `_stream_apply`, `_upsert_decision`). */
module Outcome {
  import opened Text
  import opened Mirror

  /** The identity of a reported decision; a missing scope means a single address. */
  function IdentityOf(d: Reported): Key {
    Key(d.value, if d.scope == "" then "Ip" else d.scope, d.scenario)
  }

  ghost predicate Mentions(ds: seq<Reported>, k: Key) {
    exists i :: 0 <= i < |ds| && IdentityOf(ds[i]) == k
  }

  /** Report `i` is the last one for `k`. */
  ghost predicate LastReport(ds: seq<Reported>, k: Key, i: int) {
    0 <= i < |ds| && IdentityOf(ds[i]) == k && forall j :: i < j < |ds| ==> IdentityOf(ds[j]) != k
  }

  /** A row as report `d` leaves it: its id and texts, seen now, first seen when the row first was. */
  ghost predicate Carries(r: Row, d: Reported, before: map<Key, Row>, now: Time) {
    && r.lapiId == d.id && r.kind == (if d.kind == "" then "ban" else d.kind)
    && r.origin == d.origin && r.duration == d.duration && r.until == d.until && r.lastSeen == now
    && r.firstSeen == if IdentityOf(d) in before then before[IdentityOf(d)].firstSeen else now
  }

  /** After the reports `ds`: their identities are active and carry their last report, every other
      row is as it was. */
  ghost predicate Upserted(p: Part, q: Part, ds: seq<Reported>, now: Time) {
    && (forall k :: Mentions(ds, k) ==> k in q.rows && q.rows[k].deletedAt.None?)
    && (forall k, i :: LastReport(ds, k, i) ==> k in q.rows && Carries(q.rows[k], ds[i], p.rows, now))
    && (forall k :: !Mentions(ds, k) ==> (k in q.rows <==> k in p.rows) && (k in p.rows ==> q.rows[k] == p.rows[k]))
  }

  lemma MentionsMore(ds: seq<Reported>, d: Reported, k: Key)
    ensures Mentions(ds + [d], k) <==> Mentions(ds, k) || IdentityOf(d) == k
  {
    hide IdentityOf;
    if i :| 0 <= i < |ds| && IdentityOf(ds[i]) == k { assert (ds + [d])[i] == ds[i]; }
    assert (ds + [d])[|ds|] == d;
  }

  lemma LastReportMore(ds: seq<Reported>, d: Reported, k: Key, i: int)
    ensures LastReport(ds + [d], k, i) <==> if IdentityOf(d) == k then i == |ds| else LastReport(ds, k, i)
  {
    hide IdentityOf;
    var g := ds + [d];
    assert g[|ds|] == d && forall j :: 0 <= j < |ds| ==> g[j] == ds[j];
  }

  /** One more report. */
  lemma UpsertedMore(p: Part, q: Part, ds: seq<Reported>, d: Reported, now: Time)
    requires Upserted(p, q, ds, now)
    ensures Upserted(p, ExecPart(q, Upsert(d, now)), ds + [d], now)
  {
    hide IdentityOf, Mentions, ExecPart;
    var q', kd := ExecPart(q, Upsert(d, now)), IdentityOf(d);
    UpsertRow(q, d, now);
    forall k ensures Mentions(ds + [d], k) <==> Mentions(ds, k) || kd == k { MentionsMore(ds, d, k); }
    forall k, i | LastReport(ds + [d], k, i) ensures k in q'.rows && Carries(q'.rows[k], (ds + [d])[i], p.rows, now) {
      LastReportMore(ds, d, k, i);
      if kd == k && Mentions(ds, k) {
        var j := FindLast(ds, k);
      }
    }
  }

  lemma {:induction false} FindLast(ds: seq<Reported>, k: Key) returns (i: int)
    requires Mentions(ds, k)
    ensures LastReport(ds, k, i)
  {
    hide IdentityOf;
    var n := |ds| - 1;
    assert ds[..n] + [ds[n]] == ds;
    if IdentityOf(ds[n]) == k {
      i := n;
    } else {
      MentionsMore(ds[..n], ds[n], k);
      i := FindLast(ds[..n], k);
      LastReportMore(ds[..n], ds[n], k, i);
    }
  }

  /** What one upsert does to the rows. */
  lemma UpsertRow(q: Part, d: Reported, now: Time)
    ensures var q', k := ExecPart(q, Upsert(d, now)), IdentityOf(d);
            && k in q'.rows && q'.rows[k].deletedAt.None? && q'.sightings == q.sightings
            && q'.rows[k].lapiId == d.id && q'.rows[k].kind == (if d.kind == "" then "ban" else d.kind)
            && q'.rows[k].origin == d.origin && q'.rows[k].duration == d.duration && q'.rows[k].until == d.until
            && q'.rows[k].lastSeen == now && q'.rows[k].firstSeen == (if k in q.rows then q.rows[k].firstSeen else now)
            && forall x :: x != k ==> (x in q'.rows <==> x in q.rows) && (x in q.rows ==> q'.rows[x] == q.rows[x])
  {
  }

  lemma NothingUpserted(p: Part, now: Time)
    ensures Upserted(p, p, [], now)
  {
  }

  lemma {:induction false} UpsertsLeave(p: Part, ds: seq<Reported>, now: Time)
    ensures var q := Finish(p, UpsertAll(ds, now)); Upserted(p, q, ds, now) && q.sightings == p.sightings
  {
    hide Upserted, ExecPart;
    if ds == [] {
      NothingUpserted(p, now);
    } else {
      var n := |ds| - 1;
      var q := Finish(p, UpsertAll(ds[..n], now));
      UpsertsLeave(p, ds[..n], now);
      assert UpsertAll(ds, now) == UpsertAll(ds[..n], now) + [Do(Upsert(ds[n], now))];
      FinishAppend(p, UpsertAll(ds[..n], now), [Do(Upsert(ds[n], now))]);
      UpsertedMore(p, q, ds[..n], ds[n], now);
      UpsertRow(q, ds[n], now);
      assert ds[..n] + [ds[n]] == ds;
    }
  }

  // ----- sightings -----

  ghost predicate Reports(ds: seq<Reported>, ip: string) {
    ip != "" && exists i :: 0 <= i < |ds| && Trim(ds[i].value) == ip
  }

  /** After the reports `ds`: every non-blank trimmed address among them was seen now, every other
      sighting is as it was. */
  ghost predicate Sighted(p: Part, q: Part, ds: seq<Reported>, now: Time) {
    && (forall ip :: Reports(ds, ip) ==> ip in q.sightings && q.sightings[ip] == now)
    && (forall ip :: !Reports(ds, ip) ==>
          (ip in q.sightings <==> ip in p.sightings) && (ip in p.sightings ==> q.sightings[ip] == p.sightings[ip]))
  }

  lemma ReportsMore(ds: seq<Reported>, d: Reported, ip: string)
    ensures Reports(ds + [d], ip) <==> Reports(ds, ip) || (ip != "" && Trim(d.value) == ip)
  {
    hide Trim;
    if i :| 0 <= i < |ds| && Trim(ds[i].value) == ip { assert (ds + [d])[i] == ds[i]; }
    assert (ds + [d])[|ds|] == d;
  }

  lemma SightedMore(p: Part, q: Part, ds: seq<Reported>, d: Reported, now: Time)
    requires Sighted(p, q, ds, now)
    ensures var q' := Finish(q, SightOf(d, now)); Sighted(p, q', ds + [d], now) && q'.rows == q.rows
  {
    hide Trim, Reports;
    forall ip ensures Reports(ds + [d], ip) <==> Reports(ds, ip) || (ip != "" && Trim(d.value) == ip) { ReportsMore(ds, d, ip); }
    SightStep(q, d, now);
  }

  lemma SightStep(q: Part, d: Reported, now: Time)
    ensures var q' := Finish(q, SightOf(d, now));
            && q'.rows == q.rows
            && q'.sightings == if Trim(d.value) == "" then q.sightings else q.sightings[Trim(d.value) := now]
  {
    hide Trim;
    var ops := SightOf(d, now);
    assert Trim(d.value) != "" ==> ops[1..] == [];
  }

  lemma NothingSighted(p: Part, now: Time)
    ensures Sighted(p, p, [], now)
  {
  }

  lemma {:induction false} SightsLeave(p: Part, ds: seq<Reported>, now: Time)
    ensures var q := Finish(p, SightAll(ds, now)); Sighted(p, q, ds, now) && q.rows == p.rows
  {
    hide Sighted, Trim, SightOf;
    if ds == [] {
      NothingSighted(p, now);
    } else {
      var n := |ds| - 1;
      SightsLeave(p, ds[..n], now);
      FinishAppend(p, SightAll(ds[..n], now), SightOf(ds[n], now));
      SightedMore(p, Finish(p, SightAll(ds[..n], now)), ds[..n], ds[n], now);
      assert ds[..n] + [ds[n]] == ds;
    }
  }

  // ----- a full pull -----

  /** Reported identities are active and carry their last report; any other row that was active is
      buried now and otherwise as it was; the rest is as it was. */
  ghost predicate Bootstrapped(p: Part, q: Part, ds: seq<Reported>, now: Time) {
    && (forall k :: Mentions(ds, k) ==> k in q.rows && q.rows[k].deletedAt.None?)
    && (forall k, i :: LastReport(ds, k, i) ==> k in q.rows && Carries(q.rows[k], ds[i], p.rows, now))
    && (forall k :: !Mentions(ds, k) ==>
          && (k in q.rows <==> k in p.rows)
          && (k in p.rows ==> q.rows[k] == if p.rows[k].deletedAt.None? then p.rows[k].(deletedAt := Some(now)) else p.rows[k]))
    && Sighted(p, q, ds, now)
  }

  lemma KeysAreIdentities(ds: seq<Reported>, k: Key)
    ensures k in KeysOf(ds) <==> Mentions(ds, k)
  {
    if k in KeysOf(ds) {
      var i :| 0 <= i < |ds| && KeyOf(ds[i]) == k;
      assert IdentityOf(ds[i]) == k;
    }
    if i :| 0 <= i < |ds| && IdentityOf(ds[i]) == k { assert KeyOf(ds[i]) == k; }
  }

  lemma BootstrapLeaves(p: Part, ds: seq<Reported>, now: Time)
    ensures Bootstrapped(p, Finish(p, BootstrapOps(ds, now)), ds, now)
  {
    hide Finish, UpsertAll, SightAll, KeysOf, Mentions, LastReport, Carries, Sighted;
    var a, b, c := UpsertAll(ds, now), [QueryStale(KeysOf(ds), now)], SightAll(ds, now);
    FinishAppend(p, a + b, c);
    FinishAppend(p, a, b);
    var mid := Finish(p, a);
    FinishQuery(mid, KeysOf(ds), now);
    UpsertsLeave(p, ds, now);
    SightsLeave(Finish(mid, b), ds, now);
    SightedFrom(p, Finish(mid, b), Finish(Finish(mid, b), c), ds, now);
    forall k ensures k in KeysOf(ds) <==> Mentions(ds, k) { KeysAreIdentities(ds, k); }
    forall k, i | LastReport(ds, k, i) ensures Mentions(ds, k) { LastIsMentioned(ds, k, i); }
  }

  lemma FinishQuery(p: Part, seen: set<Key>, now: Time)
    ensures Finish(p, [QueryStale(seen, now)]) == BuryStale(p, seen, now)
  {
    hide BuryStale;
    assert [QueryStale(seen, now)][1..] == [];
  }

  // ----- a delta -----

  /** After deletions `ids`: active rows with a deleted id are buried now, everything else is as it was. */
  ghost predicate Lifted(p: Part, q: Part, ids: seq<Option<int>>, now: Time) {
    && q.sightings == p.sightings && (forall k :: k in q.rows <==> k in p.rows)
    && forall k :: k in p.rows ==>
         q.rows[k] == if p.rows[k].deletedAt.None? && Some(p.rows[k].lapiId) in ids
                      then p.rows[k].(deletedAt := Some(now)) else p.rows[k]
  }

  lemma {:induction false} DeletesLeave(p: Part, ids: seq<Option<int>>, now: Time)
    ensures Lifted(p, Finish(p, DeletedOps(ids, now)), ids, now)
  {
    if ids != [] {
      var n := |ids| - 1;
      var q := Finish(p, DeletedOps(ids[..n], now));
      DeletesLeave(p, ids[..n], now);
      var more := if ids[n].Some? then [Do(BuryId(ids[n].value, now))] else [];
      FinishAppend(p, DeletedOps(ids[..n], now), more);
      assert DeletedOps(ids, now) == DeletedOps(ids[..n], now) + more;
      assert ids == ids[..n] + [ids[n]];
      DeleteStep(q, ids[n], now);
    }
  }

  lemma DeleteStep(q: Part, id: Option<int>, now: Time)
    ensures Lifted(q, Finish(q, if id.Some? then [Do(BuryId(id.value, now))] else []), [id], now)
  {
    assert forall x: Option<int> :: x in [id] <==> x == id;
    if id.Some? {
      var ops := [Do(BuryId(id.value, now))];
      assert ops[1..] == [] && Finish(q, ops) == ExecPart(q, BuryId(id.value, now));
    }
  }

  /** Added identities carry their last report, and are active exactly when its id is not deleted in
      the same delta; any other active row with a deleted id is buried; the rest is as it was. */
  ghost predicate Streamed(p: Part, q: Part, added: seq<Reported>, deleted: seq<Option<int>>, now: Time) {
    && (forall k, i :: LastReport(added, k, i) ==>
          && k in q.rows && Carries(q.rows[k], added[i], p.rows, now)
          && q.rows[k].deletedAt == if Some(added[i].id) in deleted then Some(now) else None)
    && (forall k :: !Mentions(added, k) ==>
          && (k in q.rows <==> k in p.rows)
          && (k in p.rows ==>
                q.rows[k] == if p.rows[k].deletedAt.None? && Some(p.rows[k].lapiId) in deleted
                             then p.rows[k].(deletedAt := Some(now)) else p.rows[k]))
    && (forall k :: k in q.rows && q.rows[k].deletedAt.None? ==> Some(q.rows[k].lapiId) !in deleted)
    && Sighted(p, q, added, now)
  }

  lemma {:induction false} NewLeave(p: Part, ds: seq<Reported>, now: Time)
    ensures var q := Finish(p, NewOps(ds, now)); Upserted(p, q, ds, now) && Sighted(p, q, ds, now)
  {
    hide Upserted, Sighted, ExecPart, Trim, SightOf;
    if ds == [] {
      NothingUpserted(p, now);
      NothingSighted(p, now);
    } else {
      var n := |ds| - 1;
      var q := Finish(p, NewOps(ds[..n], now));
      NewLeave(p, ds[..n], now);
      var up := [Do(Upsert(ds[n], now))];
      FinishAppend(p, NewOps(ds[..n], now) + up, SightOf(ds[n], now));
      FinishAppend(p, NewOps(ds[..n], now), up);
      var q1 := ExecPart(q, Upsert(ds[n], now));
      assert up[1..] == [] && Finish(q, up) == q1;
      UpsertedMore(p, q, ds[..n], ds[n], now);
      UpsertRow(q, ds[n], now);
      SightedSame(p, q, q1, ds[..n], now);
      SightedMore(p, q1, ds[..n], ds[n], now);
      SightStep(q1, ds[n], now);
      assert ds[..n] + [ds[n]] == ds;
      UpsertedSame(p, q1, Finish(q1, SightOf(ds[n], now)), ds, now);
      assert ds[..n] + [ds[n]] == ds;
    }
  }

  lemma SightedFrom(p: Part, r: Part, q: Part, ds: seq<Reported>, now: Time)
    requires Sighted(r, q, ds, now) && r.sightings == p.sightings
    ensures Sighted(p, q, ds, now)
  {
    hide Reports;
  }

  lemma SightedSame(p: Part, q: Part, r: Part, ds: seq<Reported>, now: Time)
    requires Sighted(p, q, ds, now) && r.sightings == q.sightings
    ensures Sighted(p, r, ds, now)
  {
    hide Reports;
  }

  lemma UpsertedSame(p: Part, q: Part, r: Part, ds: seq<Reported>, now: Time)
    requires Upserted(p, q, ds, now) && r.rows == q.rows
    ensures Upserted(p, r, ds, now)
  {
    hide Mentions, LastReport, Carries;
  }

  lemma DeltaLeaves(p: Part, added: seq<Reported>, deleted: seq<Option<int>>, now: Time)
    ensures Streamed(p, Finish(p, DeltaOps(added, deleted, now)), added, deleted, now)
  {
    hide Finish, NewOps, DeletedOps, Sighted, Mentions;
    var mid := Finish(p, NewOps(added, now));
    FinishAppend(p, NewOps(added, now), DeletedOps(deleted, now));
    NewLeave(p, added, now);
    DeletesLeave(mid, deleted, now);
    var q := Finish(mid, DeletedOps(deleted, now));
    SightedSame(p, mid, q, added, now);
    forall k, i | LastReport(added, k, i)
      ensures k in q.rows && Carries(q.rows[k], added[i], p.rows, now)
              && q.rows[k].deletedAt == if Some(added[i].id) in deleted then Some(now) else None
    {
      LastIsMentioned(added, k, i);
    }
  }

  lemma LastIsMentioned(ds: seq<Reported>, k: Key, i: int)
    requires LastReport(ds, k, i)
    ensures Mentions(ds, k)
  {
    hide IdentityOf;
  }
}
