/** The seven-day statistics query and the timestamp invariant it relies on
    (api_v1.py `_compute_stats`; the upserts of poller.py, app.py and asn_detector.py). */
module Stats {
  import opened Mirror

  /** One write to the decisions table, by a puller or by the API under its own source name. */
  datatype Write = Write(src: string, stmt: Stmt)

  function RunWrites(db: Db, ws: seq<Write>): Db {
    if ws == [] then db else var n := |ws| - 1; Exec(RunWrites(db, ws[..n]), ws[n].src, ws[n].stmt)
  }

  /** The rows first seen since the cutoff. */
  function NewSince(rows: map<Identity, Row>, cutoff: Time): set<Identity> {
    set id | id in rows && rows[id].firstSeen >= cutoff
  }

  /** The same, with the redundant bound that makes the index usable. */
  function NewSinceFast(rows: map<Identity, Row>, cutoff: Time): set<Identity> {
    set id | id in rows && rows[id].lastSeen >= cutoff && rows[id].firstSeen >= cutoff
  }

  ghost predicate SeenInOrder(rows: map<Identity, Row>) {
    forall id :: id in rows ==> rows[id].firstSeen <= rows[id].lastSeen
  }

  /** Each source's clock never goes back, however the sources' writes interleave. */
  ghost predicate ClocksAscend(ws: seq<Write>) {
    forall i, j :: 0 <= i < j < |ws| && ws[i].src == ws[j].src ==> ws[i].stmt.now <= ws[j].stmt.now
  }

  /** Rows are in order and no later write of their source carries an earlier stamp. */
  ghost predicate InStep(rows: map<Identity, Row>, ws: seq<Write>, from: nat) {
    && SeenInOrder(rows)
    && forall id, j :: id in rows && from <= j < |ws| && ws[j].src == id.source ==> rows[id].lastSeen <= ws[j].stmt.now
  }

  lemma {:induction false} WritesKeepOrder(db: Db, ws: seq<Write>, n: nat)
    requires n <= |ws| && ClocksAscend(ws) && InStep(db.rows, ws, 0)
    ensures InStep(RunWrites(db, ws[..n]).rows, ws, n)
  {
    hide Exec, InStep, ClocksAscend;
    if n == 0 {
      assert ws[..0] == [];
    } else {
      WritesKeepOrder(db, ws, n - 1);
      assert ws[..n][..n - 1] == ws[..n - 1];
      WriteKeepsOrder(RunWrites(db, ws[..n - 1]), ws, n - 1);
    }
  }

  lemma WriteKeepsOrder(db: Db, ws: seq<Write>, i: nat)
    requires i < |ws| && ClocksAscend(ws) && InStep(db.rows, ws, i)
    ensures InStep(Exec(db, ws[i].src, ws[i].stmt).rows, ws, i + 1)
  {
    hide KeyOf;
    var rows := Exec(db, ws[i].src, ws[i].stmt).rows;
    forall id | id in rows
      ensures rows[id].firstSeen <= rows[id].lastSeen
      ensures (rows[id].lastSeen == ws[i].stmt.now && id.source == ws[i].src) || (id in db.rows && rows[id].lastSeen == db.rows[id].lastSeen)
    {
      assert id in db.rows ==> db.rows[id].firstSeen <= db.rows[id].lastSeen;
    }
  }

  /** The two queries agree for every cutoff exactly when no row was last seen before it was first. */
  lemma QueriesAgreeExactly(rows: map<Identity, Row>)
    ensures (forall cutoff :: |NewSinceFast(rows, cutoff)| == |NewSince(rows, cutoff)|) <==> SeenInOrder(rows)
  {
    if SeenInOrder(rows) {
      forall cutoff ensures NewSinceFast(rows, cutoff) == NewSince(rows, cutoff) {}
    } else {
      var id :| id in rows && rows[id].firstSeen > rows[id].lastSeen;
      var cutoff := rows[id].firstSeen;
      var fast, slow := NewSinceFast(rows, cutoff), NewSince(rows, cutoff);
      assert id in slow && id !in fast;
      assert slow == fast + (slow - fast);
    }
  }

  /** After any writes whose sources' clocks never go back, the fast count is the simple count. */
  lemma FastCountIsRight(db: Db, ws: seq<Write>, cutoff: Time)
    requires ClocksAscend(ws) && InStep(db.rows, ws, 0)
    ensures var rows := RunWrites(db, ws).rows; |NewSinceFast(rows, cutoff)| == |NewSince(rows, cutoff)|
  {
    hide RunWrites;
    WritesKeepOrder(db, ws, |ws|);
    assert ws[..|ws|] == ws;
    QueriesAgreeExactly(RunWrites(db, ws).rows);
  }

  /** One upsert stamped before the row's first sighting makes the fast count too small. */
  lemma ClockGoingBackBreaksIt(d: Reported, src: string)
    ensures var ws := [Write(src, Upsert(d, 10)), Write(src, Upsert(d, 9))];
            var rows := RunWrites(Db(map[], map[]), ws).rows;
            |NewSinceFast(rows, 10)| == 0 && |NewSince(rows, 10)| == 1
  {
    hide KeyOf;
    var ws := [Write(src, Upsert(d, 10)), Write(src, Upsert(d, 9))];
    var id := Identity(src, KeyOf(d));
    assert ws[..1] == [Write(src, Upsert(d, 10))] && ws[..1][..0] == [];
    var rows := RunWrites(Db(map[], map[]), ws).rows;
    assert RunWrites(Db(map[], map[]), ws[..1]) == Exec(Db(map[], map[]), src, Upsert(d, 10));
    assert rows.Keys == {id} && rows[id].firstSeen == 10 && rows[id].lastSeen == 9;
    assert NewSince(rows, 10) == {id} && NewSinceFast(rows, 10) == {};
  }
}
