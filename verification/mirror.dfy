/** The local mirror of every source's decisions, one statement at a time
    (poller.py `_upsert_decision`, `_bootstrap`, `_stream_apply`; db.py). */
module Mirror {
  import opened Text

  type Time = int

  /** A decision's identity within its source. */
  datatype Key = Key(value: string, scope: string, scenario: string)

  /** The unique key of the decisions table. */
  datatype Identity = Identity(source: string, key: Key)

  datatype Row = Row(
    lapiId: int, kind: string, origin: string, duration: string, until: Option<string>,
    firstSeen: Time, lastSeen: Time, deletedAt: Option<Time>)

  /** A decision as a source reports it; missing texts are empty. */
  datatype Reported = Reported(
    id: int, value: string, scope: string, kind: string, scenario: string, origin: string,
    duration: string, until: Option<string>)

  function KeyOf(d: Reported): Key {
    Key(d.value, if d.scope == "" then "Ip" else d.scope, d.scenario)
  }

  /** The two tables. Rows are keyed by identity, so surrogate row numbers do not appear. */
  datatype Db = Db(rows: map<Identity, Row>, sightings: map<(string, string), Time>)

  /** One autocommitted statement of a source's pull. */
  datatype Stmt =
    | Upsert(d: Reported, now: Time)
    | Bury(key: Key, now: Time)
    | BuryId(lapiId: int, now: Time)
    | Sight(ip: string, now: Time)

  function Refreshed(old': Option<Row>, d: Reported, now: Time): Row {
    Row(d.id, if d.kind == "" then "ban" else d.kind, d.origin, d.duration, d.until,
        if old'.Some? then old'.value.firstSeen else now, now, None)
  }

  function Buried(r: Row, now: Time): Row {
    r.(deletedAt := Some(now))
  }

  /** A statement issued by `src` against the shared tables. */
  function Exec(db: Db, src: string, s: Stmt): Db {
    match s
    case Upsert(d, now) =>
      var id := Identity(src, KeyOf(d));
      db.(rows := db.rows[id := Refreshed(if id in db.rows then Some(db.rows[id]) else None, d, now)])
    case Bury(key, now) =>
      var id := Identity(src, key);
      if id in db.rows then db.(rows := db.rows[id := Buried(db.rows[id], now)]) else db
    case BuryId(lid, now) =>
      db.(rows := map id | id in db.rows ::
            if id.source == src && db.rows[id].lapiId == lid && db.rows[id].deletedAt.None?
            then Buried(db.rows[id], now) else db.rows[id])
    case Sight(ip, now) => db.(sightings := db.sightings[(ip, src) := now])
  }

  // ----- one source's part of the tables -----

  datatype Part = Part(rows: map<Key, Row>, sightings: map<string, Time>)

  function PartOf(db: Db, src: string): (p: Part)
    ensures forall k :: k in p.rows <==> Identity(src, k) in db.rows
    ensures forall k :: k in p.rows ==> p.rows[k] == db.rows[Identity(src, k)]
    ensures forall ip :: ip in p.sightings <==> (ip, src) in db.sightings
    ensures forall ip :: ip in p.sightings ==> p.sightings[ip] == db.sightings[(ip, src)]
  {
    var keys := set id | id in db.rows && id.source == src :: id.key;
    var ips := set s | s in db.sightings && s.1 == src :: s.0;
    assert forall k :: Identity(src, k) in db.rows ==> Identity(src, k).key in keys;
    assert forall ip :: (ip, src) in db.sightings ==> (ip, src).0 in ips;
    Part(map k | k in keys :: db.rows[Identity(src, k)], map ip | ip in ips :: db.sightings[(ip, src)])
  }

  function ExecPart(p: Part, s: Stmt): Part {
    match s
    case Upsert(d, now) =>
      p.(rows := p.rows[KeyOf(d) := Refreshed(if KeyOf(d) in p.rows then Some(p.rows[KeyOf(d)]) else None, d, now)])
    case Bury(key, now) =>
      if key in p.rows then p.(rows := p.rows[key := Buried(p.rows[key], now)]) else p
    case BuryId(lid, now) =>
      p.(rows := map k | k in p.rows ::
           if p.rows[k].lapiId == lid && p.rows[k].deletedAt.None? then Buried(p.rows[k], now) else p.rows[k])
    case Sight(ip, now) => p.(sightings := p.sightings[ip := now])
  }

  /** Two parts with the same contents are equal. */
  lemma SamePart(a: Part, b: Part)
    requires forall k :: k in a.rows <==> k in b.rows
    requires forall k :: k in a.rows ==> a.rows[k] == b.rows[k]
    requires forall ip :: ip in a.sightings <==> ip in b.sightings
    requires forall ip :: ip in a.sightings ==> a.sightings[ip] == b.sightings[ip]
    ensures a == b
  {
    assert a.rows == b.rows && a.sightings == b.sightings;
  }

  /** A statement acts on its own source's part, by that part alone. */
  lemma ExecOwn(db: Db, src: string, s: Stmt)
    ensures PartOf(Exec(db, src, s), src) == ExecPart(PartOf(db, src), s)
  {
    hide PartOf, Refreshed, Buried, KeyOf;
    SamePart(PartOf(Exec(db, src, s), src), ExecPart(PartOf(db, src), s));
  }

  /** A statement changes nothing in any other source's part. */
  lemma ExecOther(db: Db, src: string, s: Stmt, other: string)
    requires other != src
    ensures PartOf(Exec(db, src, s), other) == PartOf(db, other)
  {
    hide PartOf, Refreshed, Buried, KeyOf;
    SamePart(PartOf(Exec(db, src, s), other), PartOf(db, other));
  }

  /** The parts determine the tables. */
  lemma PartsDetermine(a: Db, b: Db)
    requires forall src :: PartOf(a, src) == PartOf(b, src)
    ensures a == b
  {
    hide PartOf;
    forall id: Identity ensures (id in a.rows <==> id in b.rows) && (id in a.rows ==> a.rows[id] == b.rows[id]) {
      var p := PartOf(a, id.source);
      assert id == Identity(id.source, id.key) && p == PartOf(b, id.source);
      assert id in a.rows <==> id.key in p.rows;
    }
    forall s: (string, string)
      ensures (s in a.sightings <==> s in b.sightings) && (s in a.sightings ==> a.sightings[s] == b.sightings[s])
    {
      var p := PartOf(a, s.1);
      assert s == (s.0, s.1) && p == PartOf(b, s.1);
      assert s in a.sightings <==> s.0 in p.sightings;
    }
    assert a.rows == b.rows && a.sightings == b.sightings;
  }

  // ----- a pull as a program -----

  /** A program step: a statement, or the query for active rows missing from a full pull,
      whose answer becomes the burials that follow. */
  datatype Op = Do(stmt: Stmt) | QueryStale(seen: set<Key>, now: Time)

  function UpsertAll(ds: seq<Reported>, now: Time): seq<Op> {
    seq(|ds|, i requires 0 <= i < |ds| => Do(Upsert(ds[i], now)))
  }

  function BuryEach(keys: seq<Key>, now: Time): seq<Op> {
    seq(|keys|, i requires 0 <= i < |keys| => Do(Bury(keys[i], now)))
  }

  function SightOf(d: Reported, now: Time): seq<Op> {
    if Trim(d.value) == "" then [] else [Do(Sight(Trim(d.value), now))]
  }

  function SightAll(ds: seq<Reported>, now: Time): seq<Op> {
    if ds == [] then [] else SightAll(ds[..|ds| - 1], now) + SightOf(ds[|ds| - 1], now)
  }

  function KeysOf(ds: seq<Reported>): set<Key> {
    set i | 0 <= i < |ds| :: KeyOf(ds[i])
  }

  /** `_bootstrap` on a full pull. */
  function BootstrapOps(ds: seq<Reported>, now: Time): seq<Op> {
    UpsertAll(ds, now) + [QueryStale(KeysOf(ds), now)] + SightAll(ds, now)
  }

  function NewOps(ds: seq<Reported>, now: Time): seq<Op> {
    if ds == [] then []
    else var n := |ds| - 1; NewOps(ds[..n], now) + [Do(Upsert(ds[n], now))] + SightOf(ds[n], now)
  }

  function DeletedOps(ids: seq<Option<int>>, now: Time): seq<Op> {
    if ids == [] then []
    else
      var n := |ids| - 1;
      DeletedOps(ids[..n], now) + if ids[n].Some? then [Do(BuryId(ids[n].value, now))] else []
  }

  /** `_stream_apply` on a delta: new decisions first, then deletions by LAPI id. */
  function DeltaOps(added: seq<Reported>, deleted: seq<Option<int>>, now: Time): seq<Op> {
    NewOps(added, now) + DeletedOps(deleted, now)
  }

  predicate IsActive(p: Part, k: Key) {
    k in p.rows && p.rows[k].deletedAt.None?
  }

  function Active(p: Part): set<Key> {
    set k | k in p.rows && p.rows[k].deletedAt.None?
  }

  function StaleIn(p: Part, seen: set<Key>): set<Key> {
    Active(p) - seen
  }

  /** Every active row missing from a full pull is buried. */
  function BuryStale(p: Part, seen: set<Key>, now: Time): Part {
    p.(rows := map k | k in p.rows :: if k in StaleIn(p, seen) then Buried(p.rows[k], now) else p.rows[k])
  }

  /** What a source's program leaves behind when it runs to the end on its own. */
  function Finish(p: Part, ops: seq<Op>): Part
    decreases |ops|
  {
    if ops == [] then p
    else
      match ops[0]
      case Do(s) => Finish(ExecPart(p, s), ops[1..])
      case QueryStale(seen, now) => Finish(BuryStale(p, seen, now), ops[1..])
  }

  lemma {:induction false} FinishAppend(p: Part, a: seq<Op>, b: seq<Op>)
    ensures Finish(p, a + b) == Finish(Finish(p, a), b)
    decreases |a|
  {
    hide ExecPart, BuryStale;
    if a == [] {
      assert a + b == b;
    } else {
      assert (a + b)[1..] == a[1..] + b;
      var q := match a[0] case Do(s) => ExecPart(p, s) case QueryStale(seen, now) => BuryStale(p, seen, now);
      FinishAppend(q, a[1..], b);
    }
  }

  function Members(keys: seq<Key>): set<Key> {
    set k | k in keys
  }

  function BuryKeys(p: Part, keys: set<Key>, now: Time): Part {
    p.(rows := map k | k in p.rows :: if k in keys then Buried(p.rows[k], now) else p.rows[k])
  }

  /** The burials of a query's answer, in whatever order it came, bury exactly those keys. */
  lemma {:induction false} FinishBurials(p: Part, keys: seq<Key>, now: Time)
    ensures Finish(p, BuryEach(keys, now)) == BuryKeys(p, Members(keys), now)
    decreases |keys|
  {
    if keys == [] {
      assert BuryKeys(p, Members(keys), now).rows == p.rows;
    } else {
      var rest, q := keys[1..], ExecPart(p, Bury(keys[0], now));
      assert BuryEach(keys, now)[1..] == BuryEach(rest, now);
      FinishBurials(q, rest, now);
      assert Members(keys) == Members(rest) + {keys[0]} by { assert keys == [keys[0]] + rest; }
      assert BuryKeys(q, Members(rest), now).rows == BuryKeys(p, Members(keys), now).rows;
    }
  }
}
