/** The poller's pulls as loops over the shared tables (poller.py). */
module Poller {
  import opened Text
  import opened Mirror
  import opened Federation
  import opened History
  import Outcome

  /** The tables a pull works on, and which sources have been bootstrapped by this process. */
  class Puller {
    var db: Db
    var bootstrapped: set<string>

    constructor (db: Db)
      ensures this.db == db && bootstrapped == {}
    {
      this.db, bootstrapped := db, {};
    }

    /** Other sources' rows and sightings are as they were. */
    twostate predicate OthersKept(src: string)
      reads this
    {
      forall other :: other != src ==> PartOf(db, other) == PartOf(old(db), other)
    }

    method Execute(src: string, s: Stmt)
      modifies this`db
      ensures db == Exec(old(db), src, s)
      ensures PartOf(db, src) == ExecPart(PartOf(old(db), src), s) && OthersKept(src)
    {
      hide PartOf, Exec, ExecPart;
      ExecOwn(db, src, s);
      forall other | other != src ensures PartOf(Exec(db, src, s), other) == PartOf(db, other) {
        ExecOther(db, src, s, other);
      }
      db := Exec(db, src, s);
    }

    method UpsertPulled(src: string, ds: seq<Reported>, now: Time) returns (seen: set<Key>)
      modifies this`db
      ensures PartOf(db, src) == Finish(PartOf(old(db), src), UpsertAll(ds, now)) && OthersKept(src)
      ensures seen == KeysOf(ds)
    {
      hide PartOf, ExecPart, KeyOf;
      seen := {};
      for i := 0 to |ds|
        invariant PartOf(db, src) == Finish(PartOf(old(db), src), UpsertAll(ds[..i], now)) && OthersKept(src)
        invariant seen == KeysOf(ds[..i])
      {
        seen := seen + {KeyOf(ds[i])};
        assert seen == KeysOf(ds[..i + 1]) by { assert forall j :: 0 <= j < i ==> ds[..i + 1][j] == ds[..i][j]; }
        assert UpsertAll(ds[..i + 1], now) == UpsertAll(ds[..i], now) + [Do(Upsert(ds[i], now))];
        FinishAppend(PartOf(old(db), src), UpsertAll(ds[..i], now), [Do(Upsert(ds[i], now))]);
        Execute(src, Upsert(ds[i], now));
      }
      assert ds[..|ds|] == ds;
    }

    /** Select the active rows missing from the pull, then bury them one by one. */
    method BuryMissing(src: string, seen: set<Key>, now: Time)
      modifies this`db
      ensures PartOf(db, src) == BuryStale(PartOf(old(db), src), seen, now) && OthersKept(src)
    {
      hide PartOf;
      ghost var p := PartOf(db, src);
      var rows := StaleIn(PartOf(db, src), seen);
      ghost var done: set<Key> := {};
      assert BuryKeys(p, {}, now).rows == p.rows;
      while rows != {}
        invariant done + rows == StaleIn(p, seen)
        invariant PartOf(db, src) == BuryKeys(p, done, now) && OthersKept(src)
        decreases rows
      {
        var k :| k in rows;
        Execute(src, Bury(k, now));
        assert ExecPart(BuryKeys(p, done, now), Bury(k, now)).rows == BuryKeys(p, done + {k}, now).rows;
        rows, done := rows - {k}, done + {k};
      }
      assert BuryKeys(p, StaleIn(p, seen), now).rows == BuryStale(p, seen, now).rows;
    }

    method SightPulled(src: string, ds: seq<Reported>, now: Time)
      modifies this`db
      ensures PartOf(db, src) == Finish(PartOf(old(db), src), SightAll(ds, now)) && OthersKept(src)
    {
      hide PartOf, ExecPart, Trim, Finish, SightAll, SightOf;
      ghost var p := PartOf(db, src);
      NothingSighted(p, now);
      for i := 0 to |ds|
        invariant PartOf(db, src) == Finish(p, SightAll(ds[..i], now)) && OthersKept(src)
      {
        SightMore(p, ds, i, now);
        var ip := Trim(ds[i].value);
        if ip != "" { Execute(src, Sight(ip, now)); }
      }
      assert ds[..|ds|] == ds;
    }

    /** `_bootstrap`: the program of a full pull, run without interruption. */
    method Bootstrap(src: string, ds: seq<Reported>, now: Time) returns (count: nat)
      modifies this`db
      ensures PartOf(db, src) == Finish(PartOf(old(db), src), BootstrapOps(ds, now)) && OthersKept(src)
      ensures Outcome.Bootstrapped(PartOf(old(db), src), PartOf(db, src), ds, now)
      ensures Active(PartOf(db, src)) == KeysOf(ds)
      ensures count == |ds|
    {
      hide PartOf, ExecPart, KeysOf, UpsertAll, SightAll, BuryStale, Outcome.Bootstrapped;
      ghost var p := PartOf(db, src);
      Outcome.BootstrapLeaves(p, ds, now);
      var seen := UpsertPulled(src, ds, now);
      BuryMissing(src, seen, now);
      SightPulled(src, ds, now);
      ghost var a, b, c := UpsertAll(ds, now), [QueryStale(KeysOf(ds), now)], SightAll(ds, now);
      FinishAppend(p, a + b, c);
      FinishAppend(p, a, b);
      assert Finish(Finish(p, a), b) == BuryStale(Finish(p, a), KeysOf(ds), now);
      FinishBootstrap(p, ds, now);
      FinishUpserts(p, ds, now);
      ActiveAfterBurial(Finish(p, a), KeysOf(ds), now);
      count := |ds|;
    }

    method ApplyNew(src: string, ds: seq<Reported>, now: Time)
      modifies this`db
      ensures PartOf(db, src) == Finish(PartOf(old(db), src), NewOps(ds, now)) && OthersKept(src)
    {
      hide PartOf, ExecPart, Trim;
      for i := 0 to |ds|
        invariant PartOf(db, src) == Finish(PartOf(old(db), src), NewOps(ds[..i], now)) && OthersKept(src)
      {
        assert ds[..i + 1][..i] == ds[..i];
        ghost var p, a, b, c := PartOf(old(db), src), NewOps(ds[..i], now), [Do(Upsert(ds[i], now))], SightOf(ds[i], now);
        FinishAppend(p, a + b, c);
        FinishAppend(p, a, b);
        Execute(src, Upsert(ds[i], now));
        assert PartOf(db, src) == Finish(p, a + b);
        var ip := Trim(ds[i].value);
        if ip != "" { Execute(src, Sight(ip, now)); }
      }
      assert ds[..|ds|] == ds;
    }

    method ApplyDeleted(src: string, ids: seq<Option<int>>, now: Time)
      modifies this`db
      ensures PartOf(db, src) == Finish(PartOf(old(db), src), DeletedOps(ids, now)) && OthersKept(src)
    {
      hide PartOf, ExecPart;
      for i := 0 to |ids|
        invariant PartOf(db, src) == Finish(PartOf(old(db), src), DeletedOps(ids[..i], now)) && OthersKept(src)
      {
        assert ids[..i + 1][..i] == ids[..i];
        ghost var more := if ids[i].Some? then [Do(BuryId(ids[i].value, now))] else [];
        FinishAppend(PartOf(old(db), src), DeletedOps(ids[..i], now), more);
        assert DeletedOps(ids[..i + 1], now) == DeletedOps(ids[..i], now) + more;
        if ids[i].Some? {
          Execute(src, BuryId(ids[i].value, now));
        }
      }
      assert ids[..|ids|] == ids;
    }

    /** `_stream_apply`: new decisions, then deletions by LAPI id. */
    method StreamApply(src: string, added: seq<Reported>, deleted: seq<Option<int>>, now: Time) returns (count: nat)
      modifies this`db
      ensures PartOf(db, src) == Finish(PartOf(old(db), src), DeltaOps(added, deleted, now)) && OthersKept(src)
      ensures Outcome.Streamed(PartOf(old(db), src), PartOf(db, src), added, deleted, now)
      ensures count == |added| + |deleted|
    {
      hide PartOf, ExecPart, Outcome.Streamed;
      Outcome.DeltaLeaves(PartOf(db, src), added, deleted, now);
      count := |added| + |deleted|;
      if added == [] && deleted == [] { return; }
      FinishAppend(PartOf(db, src), NewOps(added, now), DeletedOps(deleted, now));
      ApplyNew(src, added, now);
      ApplyDeleted(src, deleted, now);
    }

    /** `_pull_source` when the source answers: the first successful pull of a process is a full
        one, later pulls are deltas. */
    method PullSource(src: string, full: seq<Reported>, delta: Delta, now: Time) returns (count: nat)
      modifies this
      ensures bootstrapped == old(bootstrapped) + {src}
      ensures PartOf(db, src) ==
                Finish(PartOf(old(db), src),
                       if src in old(bootstrapped) then DeltaOps(delta.added, delta.deleted, delta.now)
                       else BootstrapOps(full, now))
      ensures src in old(bootstrapped) ==>
                Outcome.Streamed(PartOf(old(db), src), PartOf(db, src), delta.added, delta.deleted, delta.now)
      ensures src !in old(bootstrapped) ==> Outcome.Bootstrapped(PartOf(old(db), src), PartOf(db, src), full, now)
      ensures count == if src in old(bootstrapped) then |delta.added| + |delta.deleted| else |full|
      ensures OthersKept(src)
    {
      hide PartOf, Finish, DeltaOps, BootstrapOps, Outcome.Streamed, Outcome.Bootstrapped;
      if src !in bootstrapped {
        count := Bootstrap(src, full, now);
        bootstrapped := bootstrapped + {src};
      } else {
        count := StreamApply(src, delta.added, delta.deleted, delta.now);
      }
    }
  }

  lemma ActiveAfterBurial(p: Part, seen: set<Key>, now: Time)
    ensures Active(BuryStale(p, seen, now)) == Active(p) * seen
  {
  }

  lemma NothingSighted(p: Part, now: Time)
    ensures Finish(p, SightAll([], now)) == p
  {
  }

  /** The sightings of one more decision. */
  lemma SightMore(p: Part, ds: seq<Reported>, i: nat, now: Time)
    requires i < |ds|
    ensures var q, ip := Finish(p, SightAll(ds[..i], now)), Trim(ds[i].value);
            Finish(p, SightAll(ds[..i + 1], now)) == if ip == "" then q else ExecPart(q, Sight(ip, now))
  {
    hide ExecPart, Trim;
    assert ds[..i + 1][..i] == ds[..i];
    FinishAppend(p, SightAll(ds[..i], now), SightOf(ds[i], now));
  }
}
