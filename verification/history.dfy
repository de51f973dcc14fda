/** What the mirror says about a source's decisions, against the source's own history of
    issued and revoked decision ids (poller.py, db.py). */
module History {
  import opened Text
  import opened Mirror
  import opened Federation
  import Outcome

  /** The source issued a decision id for an identity, or revoked an id. */
  datatype Happening = Issued(key: Key, id: int) | Revoked(id: int)

  ghost predicate EverIssued(h: seq<Happening>, k: Key) {
    exists i :: 0 <= i < |h| && h[i].Issued? && h[i].key == k
  }

  /** Position `i` is the most recent issue for `k`. */
  ghost predicate LastIssue(h: seq<Happening>, k: Key, i: int) {
    && 0 <= i < |h| && h[i].Issued? && h[i].key == k
    && forall j :: i < j < |h| ==> !(h[j].Issued? && h[j].key == k)
  }

  /** The most recently issued id for `k` has not been revoked since. */
  ghost predicate Stands(h: seq<Happening>, k: Key) {
    exists i :: LastIssue(h, k, i) && forall j :: i < j < |h| ==> h[j] != Revoked(h[i].id)
  }

  /** For an issued identity the row carries the latest id and is active exactly when it stands. */
  ghost predicate Follows(p: Part, h: seq<Happening>, k: Key) {
    EverIssued(h, k) ==>
      && k in p.rows
      && (forall i :: LastIssue(h, k, i) ==> p.rows[k].lapiId == h[i].id)
      && (IsActive(p, k) <==> Stands(h, k))
  }

  lemma LastIssueUnique(h: seq<Happening>, k: Key, i: int, j: int)
    requires LastIssue(h, k, i) && LastIssue(h, k, j)
    ensures i == j
  {
  }

  lemma {:induction false} LastIssueExists(h: seq<Happening>, k: Key) returns (i: int)
    requires EverIssued(h, k)
    ensures LastIssue(h, k, i)
  {
    var n := |h| - 1;
    if h[n].Issued? && h[n].key == k {
      i := n;
    } else {
      var j :| 0 <= j < |h| && h[j].Issued? && h[j].key == k;
      assert h[..n][j] == h[j];
      i := LastIssueExists(h[..n], k);
      assert forall m :: i < m < n ==> h[..n][m] == h[m];
    }
  }

  /** A new issue for `k` stands; for other identities nothing changes. */
  lemma AfterIssue(h: seq<Happening>, k: Key, id: int, x: Key)
    ensures var g := h + [Issued(k, id)];
            && (EverIssued(g, x) <==> EverIssued(h, x) || x == k)
            && (x == k ==> Stands(g, k) && LastIssue(g, k, |h|))
            && (x != k ==> (Stands(g, x) <==> Stands(h, x)) && forall i :: LastIssue(g, x, i) <==> LastIssue(h, x, i))
  {
    var g := h + [Issued(k, id)];
    assert forall i :: 0 <= i < |h| ==> g[i] == h[i];
    assert g[|h|] == Issued(k, id);
    if x == k {
      assert LastIssue(g, k, |h|);
    } else {
      assert forall i :: LastIssue(g, x, i) <==> LastIssue(h, x, i);
    }
  }

  /** A revocation ends exactly the identities whose latest id it names. */
  lemma AfterRevoke(h: seq<Happening>, id: int, x: Key)
    ensures var g := h + [Revoked(id)];
            && (EverIssued(g, x) <==> EverIssued(h, x))
            && (forall i :: LastIssue(g, x, i) <==> LastIssue(h, x, i))
            && (Stands(g, x) <==> Stands(h, x) && forall i :: LastIssue(h, x, i) ==> h[i].id != id)
  {
    var g := h + [Revoked(id)];
    assert forall i :: 0 <= i < |h| ==> g[i] == h[i];
    assert g[|h|] == Revoked(id);
    assert forall i :: LastIssue(g, x, i) <==> LastIssue(h, x, i);
    if Stands(h, x) && forall i :: LastIssue(h, x, i) ==> h[i].id != id {
      var i :| LastIssue(h, x, i) && forall j :: i < j < |h| ==> h[j] != Revoked(h[i].id);
      assert LastIssue(g, x, i);
    }
    if Stands(g, x) {
      var i :| LastIssue(g, x, i) && forall j :: i < j < |g| ==> g[j] != Revoked(g[i].id);
      assert LastIssue(h, x, i);
      forall m | LastIssue(h, x, m) ensures h[m].id != id { LastIssueUnique(h, x, i, m); }
    }
  }

  function Happens(op: Op): seq<Happening> {
    match op
    case Do(Upsert(d, _)) => [Issued(KeyOf(d), d.id)]
    case Do(BuryId(id, _)) => [Revoked(id)]
    case _ => []
  }

  /** The source's history as a program reports it. */
  function HistoryOf(ops: seq<Op>): seq<Happening> {
    if ops == [] then [] else Happens(ops[0]) + HistoryOf(ops[1..])
  }

  predicate IsStream(op: Op) {
    op.Do? && !op.stmt.Bury?
  }

  lemma StepFollows(p: Part, h: seq<Happening>, op: Op, k: Key)
    requires IsStream(op) && Follows(p, h, k)
    ensures Follows(ExecPart(p, op.stmt), h + Happens(op), k)
    ensures IsActive(ExecPart(p, op.stmt), k) ==> IsActive(p, k) || EverIssued(h + Happens(op), k)
  {
    hide KeyOf, Stands;
    var g := h + Happens(op);
    match op.stmt
    case Upsert(d, now) =>
      AfterIssue(h, KeyOf(d), d.id, k);
      if k == KeyOf(d) {
        forall i | LastIssue(g, k, i) ensures g[i].id == d.id { LastIssueUnique(g, k, i, |h|); }
      }
    case BuryId(id, now) =>
      AfterRevoke(h, id, k);
      if EverIssued(h, k) {
        var i := LastIssueExists(h, k);
        assert p.rows[k].lapiId == h[i].id;
      }
    case Sight(_, _) => assert g == h;
  }

  lemma {:induction false} StreamFollows(p: Part, h: seq<Happening>, ops: seq<Op>, k: Key)
    requires (forall i :: 0 <= i < |ops| ==> IsStream(ops[i])) && Follows(p, h, k)
    ensures Follows(Finish(p, ops), h + HistoryOf(ops), k)
    ensures IsActive(Finish(p, ops), k) ==> IsActive(p, k) || EverIssued(h + HistoryOf(ops), k)
    decreases |ops|
  {
    hide Follows, Stands, ExecPart, IsActive, Happens, EverIssued;
    if ops == [] {
      assert h + HistoryOf(ops) == h;
    } else {
      var g := h + Happens(ops[0]);
      StepFollows(p, h, ops[0], k);
      StreamFollows(ExecPart(p, ops[0].stmt), g, ops[1..], k);
      assert g + HistoryOf(ops[1..]) == h + HistoryOf(ops);
      if EverIssued(g, k) { EverIssuedExtends(g, HistoryOf(ops[1..]), k); }
    }
  }

  lemma EverIssuedExtends(h: seq<Happening>, g: seq<Happening>, k: Key)
    requires EverIssued(h, k)
    ensures EverIssued(h + g, k)
  {
    var i :| 0 <= i < |h| && h[i].Issued? && h[i].key == k;
    assert (h + g)[i] == h[i];
  }

  // ----- a bootstrap followed by deltas -----

  datatype Delta = Delta(added: seq<Reported>, deleted: seq<Option<int>>, now: Time)

  function DeltasOps(deltas: seq<Delta>): seq<Op> {
    if deltas == [] then []
    else
      var n := |deltas| - 1;
      DeltasOps(deltas[..n]) + DeltaOps(deltas[n].added, deltas[n].deleted, deltas[n].now)
  }

  ghost predicate AllStream(ops: seq<Op>) {
    forall i :: 0 <= i < |ops| ==> IsStream(ops[i])
  }

  lemma {:induction false} NewOpsStream(ds: seq<Reported>, now: Time)
    ensures AllStream(NewOps(ds, now))
  {
    hide Trim;
    if ds != [] { NewOpsStream(ds[..|ds| - 1], now); }
  }

  lemma {:induction false} DeletedOpsStream(ids: seq<Option<int>>, now: Time)
    ensures AllStream(DeletedOps(ids, now))
  {
    if ids != [] { DeletedOpsStream(ids[..|ids| - 1], now); }
  }

  lemma {:induction false} DeltasOpsStream(deltas: seq<Delta>)
    ensures AllStream(DeltasOps(deltas))
  {
    if deltas != [] {
      var d := deltas[|deltas| - 1];
      DeltasOpsStream(deltas[..|deltas| - 1]);
      NewOpsStream(d.added, d.now);
      DeletedOpsStream(d.deleted, d.now);
    }
  }

  lemma {:induction false} UpsertHistory(ds: seq<Reported>, now: Time, k: Key)
    ensures EverIssued(HistoryOf(UpsertAll(ds, now)), k) <==> k in KeysOf(ds)
    decreases |ds|
  {
    hide KeyOf;
    if ds != [] {
      var h, g := HistoryOf(UpsertAll(ds, now)), HistoryOf(UpsertAll(ds[1..], now));
      assert UpsertAll(ds, now)[1..] == UpsertAll(ds[1..], now);
      UpsertHistory(ds[1..], now, k);
      assert h == [Issued(KeyOf(ds[0]), ds[0].id)] + g;
      assert h[0].Issued? && h[0].key == KeyOf(ds[0]);
      assert forall i :: 0 <= i < |g| ==> h[i + 1] == g[i];
      assert k in KeysOf(ds) <==> k == KeyOf(ds[0]) || k in KeysOf(ds[1..]) by {
        assert forall i :: 1 <= i < |ds| ==> ds[i] == ds[1..][i - 1];
      }
      if EverIssued(g, k) {
        var i :| 0 <= i < |g| && g[i].Issued? && g[i].key == k;
        assert h[i + 1] == g[i];
      }
      if EverIssued(h, k) && k != KeyOf(ds[0]) {
        var i :| 0 <= i < |h| && h[i].Issued? && h[i].key == k;
        assert g[i - 1] == h[i];
      }
    }
  }

  /** After a bootstrap, whatever the table held before, the mirror follows the pull. */
  lemma BootstrapFollows(p: Part, ds: seq<Reported>, now: Time, k: Key)
    ensures var q, h := Finish(p, BootstrapOps(ds, now)), HistoryOf(UpsertAll(ds, now));
            Follows(q, h, k) && (IsActive(q, k) ==> EverIssued(h, k))
  {
    hide KeyOf, Stands, LastIssue, EverIssued, HistoryOf, Finish, KeysOf;
    var ups, h := UpsertAll(ds, now), HistoryOf(UpsertAll(ds, now));
    assert Follows(p, [], k) by { assert !EverIssued([], k) by { NothingIssued(k); } }
    StreamFollows(p, [], ups, k);
    assert [] + h == h;
    UpsertHistory(ds, now, k);
    FinishBootstrap(p, ds, now);
  }

  lemma NothingIssued(k: Key)
    ensures !EverIssued([], k)
  {
  }

  // ----- the history as the source tells it -----

  /** Each reported decision issues its id for its identity, in order. */
  function Issues(ds: seq<Reported>): seq<Happening> {
    seq(|ds|, i requires 0 <= i < |ds| => Issued(Outcome.IdentityOf(ds[i]), ds[i].id))
  }

  /** Each reported deletion that names an id revokes it, in order. */
  function Revocations(ids: seq<Option<int>>): seq<Happening> {
    if ids == [] then []
    else Revocations(ids[..|ids| - 1]) + if ids[|ids| - 1].Some? then [Revoked(ids[|ids| - 1].value)] else []
  }

  /** Every delta first issues what is new and then revokes what is deleted. */
  function DeltaReports(deltas: seq<Delta>): seq<Happening> {
    if deltas == [] then []
    else
      var d := deltas[|deltas| - 1];
      DeltaReports(deltas[..|deltas| - 1]) + Issues(d.added) + Revocations(d.deleted)
  }

  /** The history a source reports over a bootstrap and the deltas after it. */
  function Reports(ds: seq<Reported>, deltas: seq<Delta>): seq<Happening> {
    Issues(ds) + DeltaReports(deltas)
  }

  lemma {:induction false} HistoryAppend(a: seq<Op>, b: seq<Op>)
    ensures HistoryOf(a + b) == HistoryOf(a) + HistoryOf(b)
  {
    hide Happens;
    if a == [] {
      assert a + b == b;
    } else {
      assert (a + b)[1..] == a[1..] + b;
      HistoryAppend(a[1..], b);
    }
  }

  lemma HistoryOfOne(op: Op)
    ensures HistoryOf([op]) == Happens(op) && HistoryOf([]) == []
  {
    hide Happens;
    assert [op][1..] == [];
  }

  lemma {:induction false} UpsertReports(ds: seq<Reported>, now: Time)
    ensures HistoryOf(UpsertAll(ds, now)) == Issues(ds)
  {
    hide HistoryOf;
    if ds == [] {
      HistoryOfOne(QueryStale({}, now));
    } else {
      var n := |ds| - 1;
      UpsertReports(ds[..n], now);
      assert UpsertAll(ds, now) == UpsertAll(ds[..n], now) + [Do(Upsert(ds[n], now))];
      HistoryAppend(UpsertAll(ds[..n], now), [Do(Upsert(ds[n], now))]);
      HistoryOfOne(Do(Upsert(ds[n], now)));
      assert Issues(ds) == Issues(ds[..n]) + [Issued(Outcome.IdentityOf(ds[n]), ds[n].id)];
    }
  }

  lemma SightReports(d: Reported, now: Time)
    ensures HistoryOf(SightOf(d, now)) == []
  {
    hide Trim, HistoryOf;
    HistoryOfOne(Do(Sight(Trim(d.value), now)));
  }

  lemma {:induction false} NewReports(ds: seq<Reported>, now: Time)
    ensures HistoryOf(NewOps(ds, now)) == Issues(ds)
  {
    hide HistoryOf, SightOf;
    if ds == [] {
      HistoryOfOne(QueryStale({}, now));
    } else {
      var n := |ds| - 1;
      var up := [Do(Upsert(ds[n], now))];
      NewReports(ds[..n], now);
      HistoryAppend(NewOps(ds[..n], now) + up, SightOf(ds[n], now));
      HistoryAppend(NewOps(ds[..n], now), up);
      HistoryOfOne(Do(Upsert(ds[n], now)));
      SightReports(ds[n], now);
      assert Issues(ds) == Issues(ds[..n]) + [Issued(Outcome.IdentityOf(ds[n]), ds[n].id)];
    }
  }

  lemma {:induction false} DeletedReports(ids: seq<Option<int>>, now: Time)
    ensures HistoryOf(DeletedOps(ids, now)) == Revocations(ids)
  {
    hide HistoryOf;
    if ids == [] {
      HistoryOfOne(QueryStale({}, now));
    } else {
      var n := |ids| - 1;
      var more := if ids[n].Some? then [Do(BuryId(ids[n].value, now))] else [];
      DeletedReports(ids[..n], now);
      HistoryAppend(DeletedOps(ids[..n], now), more);
      assert DeletedOps(ids, now) == DeletedOps(ids[..n], now) + more;
      HistoryOfOne(Do(BuryId(if ids[n].Some? then ids[n].value else 0, now)));
    }
  }

  /** The program of the deltas reports what the deltas say. */
  lemma {:induction false} DeltasReport(deltas: seq<Delta>)
    ensures HistoryOf(DeltasOps(deltas)) == DeltaReports(deltas)
  {
    hide HistoryOf, NewOps, DeletedOps, Issues, Revocations;
    if deltas == [] {
      HistoryOfOne(QueryStale({}, 0));
    } else {
      var n := |deltas| - 1;
      var d := deltas[n];
      DeltasReport(deltas[..n]);
      HistoryAppend(DeltasOps(deltas[..n]), DeltaOps(d.added, d.deleted, d.now));
      HistoryAppend(NewOps(d.added, d.now), DeletedOps(d.deleted, d.now));
      NewReports(d.added, d.now);
      DeletedReports(d.deleted, d.now);
    }
  }

  /** After a bootstrap and any deltas an identity is active exactly when its most recently
      issued id has not been revoked since, and it then carries that id. */
  lemma MirrorRefinesHistory(p: Part, ds: seq<Reported>, now: Time, deltas: seq<Delta>, k: Key)
    ensures var q, h := Finish(p, BootstrapOps(ds, now) + DeltasOps(deltas)), Reports(ds, deltas);
            && (IsActive(q, k) <==> Stands(h, k))
            && Follows(q, h, k)
  {
    hide Stands, LastIssue, EverIssued, HistoryOf, Finish, BootstrapOps, IsActive, Issues, DeltaReports, DeltasOps;
    UpsertReports(ds, now);
    DeltasReport(deltas);
    var q0, h0 := Finish(p, BootstrapOps(ds, now)), HistoryOf(UpsertAll(ds, now));
    var ops := DeltasOps(deltas);
    BootstrapFollows(p, ds, now, k);
    DeltasOpsStream(deltas);
    StreamFollows(q0, h0, ops, k);
    FinishAppend(p, BootstrapOps(ds, now), ops);
    if EverIssued(h0, k) { EverIssuedExtends(h0, HistoryOf(ops), k); }
    if Stands(Reports(ds, deltas), k) { StandingWasIssued(Reports(ds, deltas), k); }
  }

  lemma StandingWasIssued(h: seq<Happening>, k: Key)
    requires Stands(h, k)
    ensures EverIssued(h, k)
  {
    var i :| LastIssue(h, k, i);
  }

  /** The same inside the federation: once every pull has completed, however they interleaved. */
  lemma FederatedMirror(sys: Sys, evs: seq<Event>, src: string, ds: seq<Reported>, now: Time, deltas: seq<Delta>, k: Key)
    requires src in sys.todo && sys.todo[src] == BootstrapOps(ds, now) + DeltasOps(deltas) && CompleteRun(sys, evs)
    ensures IsActive(PartOf(Run(sys, evs).db, src), k) <==> Stands(Reports(ds, deltas), k)
  {
    hide PartOf, CompleteRun, BootstrapOps, DeltasOps, Finish, Run, IsActive, Stands, Reports;
    CompleteOutcome(sys, evs, src);
    MirrorRefinesHistory(PartOf(sys.db, src), ds, now, deltas, k);
  }

  // ----- what the reconciler is then asked to hold -----

  /** The grouped query at confidence threshold one: each active value and scope, once. */
  function DesiredGroups(db: Db): set<(string, string)> {
    set id | id in db.rows && db.rows[id].deletedAt.None? :: (id.key.value, id.key.scope)
  }

  /** What a source's pulls report: a bootstrap and the deltas after it. */
  datatype Pulls = Pulls(full: seq<Reported>, now: Time, deltas: seq<Delta>)

  ghost predicate Stood(pulls: map<string, Pulls>, src: string, k: Key) {
    src in pulls && Stands(Reports(pulls[src].full, pulls[src].deltas), k)
  }

  lemma ActiveRow(db: Db, src: string, k: Key)
    ensures IsActive(PartOf(db, src), k) <==> Identity(src, k) in db.rows && db.rows[Identity(src, k)].deletedAt.None?
  {
    hide PartOf;
  }

  lemma {:induction false} IdleLocal(v: Local, evs: seq<Event>)
    requires v.todo == []
    ensures RunLocal(v, evs) == v
  {
    if evs != [] { IdleLocal(v, evs[..|evs| - 1]); }
  }

  /** A source that is not pulled keeps its rows as they were. */
  lemma UnpulledStays(sys: Sys, evs: seq<Event>, src: string)
    requires src !in sys.todo
    ensures PartOf(Run(sys, evs).db, src) == PartOf(sys.db, src)
  {
    hide PartOf, Run, RunLocal, Own;
    RunView(sys, evs, src);
    IdleLocal(ViewOf(sys, src), Own(evs, src));
  }

  /** The identity is active in a source: by its history if it was pulled, else as it was before. */
  ghost predicate Backed(db: Db, pulls: map<string, Pulls>, src: string, k: Key) {
    if src in pulls then Stood(pulls, src, k)
    else Identity(src, k) in db.rows && db.rows[Identity(src, k)].deletedAt.None?
  }

  /** However the pulls interleave, once they have completed a value and scope is desired if and only
      if it stands in a pulled source's history or was active in a source that is not pulled: one
      that is paused or backing off, the external API, or the ASN detector. */
  lemma DesiredIsWhatStands(sys: Sys, evs: seq<Event>, pulls: map<string, Pulls>, value: string, scope: string)
    requires sys.todo.Keys == pulls.Keys && CompleteRun(sys, evs)
    requires forall src :: src in pulls ==>
               sys.todo[src] == BootstrapOps(pulls[src].full, pulls[src].now) + DeltasOps(pulls[src].deltas)
    ensures (value, scope) in DesiredGroups(Run(sys, evs).db) <==>
            exists src, k :: Backed(sys.db, pulls, src, k) && k.value == value && k.scope == scope
  {
    hide PartOf, CompleteRun, BootstrapOps, DeltasOps, Run, Stands, Reports, IsActive, Stood;
    var db := Run(sys, evs).db;
    forall src, k
      ensures Backed(sys.db, pulls, src, k) <==> Identity(src, k) in db.rows && db.rows[Identity(src, k)].deletedAt.None?
    {
      BackedIsActive(sys, evs, pulls, src, k);
    }
    if (value, scope) in DesiredGroups(db) {
      var id :| id in db.rows && db.rows[id].deletedAt.None? && (id.key.value, id.key.scope) == (value, scope);
      assert id == Identity(id.source, id.key) && Backed(sys.db, pulls, id.source, id.key);
    }
    if src, k :| Backed(sys.db, pulls, src, k) && k.value == value && k.scope == scope {
      assert Identity(src, k) in db.rows;
    }
  }

  lemma BackedIsActive(sys: Sys, evs: seq<Event>, pulls: map<string, Pulls>, src: string, k: Key)
    requires sys.todo.Keys == pulls.Keys && CompleteRun(sys, evs)
    requires src in pulls ==>
               sys.todo[src] == BootstrapOps(pulls[src].full, pulls[src].now) + DeltasOps(pulls[src].deltas)
    ensures var db := Run(sys, evs).db;
            Backed(sys.db, pulls, src, k) <==> Identity(src, k) in db.rows && db.rows[Identity(src, k)].deletedAt.None?
  {
    hide PartOf, CompleteRun, BootstrapOps, DeltasOps, Run, Stands, Reports, IsActive;
    ActiveRow(Run(sys, evs).db, src, k);
    if src in pulls {
      FederatedMirror(sys, evs, src, pulls[src].full, pulls[src].now, pulls[src].deltas, k);
    } else {
      UnpulledStays(sys, evs, src);
      ActiveRow(sys.db, src, k);
    }
  }

  // ----- one row per identity -----

  ghost function IssuedKeys(h: seq<Happening>): set<Key> {
    set i | 0 <= i < |h| && h[i].Issued? :: h[i].key
  }

  /** An upsert adds at most its own identity; nothing else adds or drops a row. */
  lemma StepKeys(p: Part, op: Op)
    ensures var q := match op case Do(s) => ExecPart(p, s) case QueryStale(seen, now) => BuryStale(p, seen, now);
            q.rows.Keys == p.rows.Keys + IssuedKeys(Happens(op))
  {
    hide KeyOf, Refreshed, Buried;
    var a := Happens(op);
    match op
    case Do(Upsert(d, _)) =>
      assert a[0] == Issued(KeyOf(d), d.id);
      assert IssuedKeys(a) == {KeyOf(d)};
    case _ => assert IssuedKeys(a) == {};
  }

  lemma {:induction false} ProgramKeys(p: Part, ops: seq<Op>)
    ensures Finish(p, ops).rows.Keys == p.rows.Keys + IssuedKeys(HistoryOf(ops))
    decreases |ops|
  {
    hide ExecPart, BuryStale, Happens, IssuedKeys;
    if ops == [] {
      assert IssuedKeys([]) == {} by { NothingIssuedKeys(); }
    } else {
      var q := match ops[0] case Do(s) => ExecPart(p, s) case QueryStale(seen, now) => BuryStale(p, seen, now);
      ProgramKeys(q, ops[1..]);
      StepKeys(p, ops[0]);
      IssuedAppend(Happens(ops[0]), HistoryOf(ops[1..]));
    }
  }

  lemma NothingIssuedKeys()
    ensures IssuedKeys([]) == {}
  {
  }

  lemma IssuedAppend(a: seq<Happening>, b: seq<Happening>)
    ensures IssuedKeys(a + b) == IssuedKeys(a) + IssuedKeys(b)
  {
    assert forall i :: 0 <= i < |a| ==> (a + b)[i] == a[i];
    assert forall i :: 0 <= i < |b| ==> (a + b)[i + |a|] == b[i];
  }

  /** Re-bans add no rows: after a bootstrap and any deltas the rows are those there before plus
      exactly one per identity ever reported. */
  lemma OneRowPerIdentity(p: Part, ds: seq<Reported>, now: Time, deltas: seq<Delta>)
    ensures Finish(p, BootstrapOps(ds, now) + DeltasOps(deltas)).rows.Keys == p.rows.Keys + IssuedKeys(Reports(ds, deltas))
  {
    hide Finish, HistoryOf, IssuedKeys, UpsertAll, SightAll, DeltasOps, Issues, DeltaReports, KeysOf;
    var ops := BootstrapOps(ds, now) + DeltasOps(deltas);
    var a, b, c := UpsertAll(ds, now), [QueryStale(KeysOf(ds), now)], SightAll(ds, now);
    ProgramKeys(p, ops);
    HistoryAppend(a + b + c, DeltasOps(deltas));
    HistoryAppend(a + b, c);
    HistoryAppend(a, b);
    HistoryOfOne(QueryStale(KeysOf(ds), now));
    SightsReport(ds, now);
    UpsertReports(ds, now);
    DeltasReport(deltas);
    assert HistoryOf(ops) == Reports(ds, deltas);
  }

  lemma {:induction false} SightsReport(ds: seq<Reported>, now: Time)
    ensures HistoryOf(SightAll(ds, now)) == []
  {
    hide HistoryOf, SightOf;
    if ds == [] {
      HistoryOfOne(QueryStale({}, now));
    } else {
      SightsReport(ds[..|ds| - 1], now);
      HistoryAppend(SightAll(ds[..|ds| - 1], now), SightOf(ds[|ds| - 1], now));
      SightReports(ds[|ds| - 1], now);
    }
  }
}
