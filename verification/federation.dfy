/** Sources pulled in parallel, one autocommitted statement at a time (poller.py `tick`). */
module Federation {
  import opened Text
  import opened Ordered
  import opened Mirror

  /** The shared tables and what each source's pull still has to execute. */
  datatype Sys = Sys(db: Db, todo: map<string, seq<Op>>)

  /** A source takes its next step, a query seeing rows in the order `answer`; or its pull dies. */
  datatype Event = Step(src: string, answer: seq<Key>) | Crash(src: string)

  function InSet(keys: set<Key>): Key -> bool {
    k => k in keys
  }

  /** The rows a query returns, in the order the database happened to visit them. */
  function Answered(p: Part, seen: set<Key>, answer: seq<Key>): seq<Key> {
    Filter(answer, InSet(StaleIn(p, seen)))
  }

  function StepSys(sys: Sys, ev: Event): Sys {
    if ev.src !in sys.todo || sys.todo[ev.src] == [] then sys
    else
      var ops := sys.todo[ev.src];
      match ev
      case Crash(src) => sys.(todo := sys.todo[src := []])
      case Step(src, answer) =>
        match ops[0]
        case Do(s) => Sys(Exec(sys.db, src, s), sys.todo[src := ops[1..]])
        case QueryStale(seen, now) =>
          sys.(todo := sys.todo[src := BuryEach(Answered(PartOf(sys.db, src), seen, answer), now) + ops[1..]])
  }

  function Run(sys: Sys, evs: seq<Event>): Sys {
    if evs == [] then sys else StepSys(Run(sys, evs[..|evs| - 1]), evs[|evs| - 1])
  }

  // ----- one source alone -----

  datatype Local = Local(part: Part, todo: seq<Op>)

  function ViewOf(sys: Sys, src: string): Local {
    Local(PartOf(sys.db, src), if src in sys.todo then sys.todo[src] else [])
  }

  function StepLocal(v: Local, ev: Event): Local {
    if v.todo == [] then v
    else
      match ev
      case Crash(_) => v.(todo := [])
      case Step(_, answer) =>
        match v.todo[0]
        case Do(s) => Local(ExecPart(v.part, s), v.todo[1..])
        case QueryStale(seen, now) => v.(todo := BuryEach(Answered(v.part, seen, answer), now) + v.todo[1..])
  }

  function RunLocal(v: Local, evs: seq<Event>): Local {
    if evs == [] then v else StepLocal(RunLocal(v, evs[..|evs| - 1]), evs[|evs| - 1])
  }

  function BySource(src: string): Event -> bool {
    (ev: Event) => ev.src == src
  }

  /** The events of one source, in order. */
  function Own(evs: seq<Event>, src: string): seq<Event> {
    Filter(evs, BySource(src))
  }

  lemma StepView(sys: Sys, ev: Event, src: string)
    ensures ViewOf(StepSys(sys, ev), src) == if ev.src == src then StepLocal(ViewOf(sys, src), ev) else ViewOf(sys, src)
  {
    hide PartOf, Exec, ExecPart, Answered;
    if ev.Step? && ev.src in sys.todo && sys.todo[ev.src] != [] && sys.todo[ev.src][0].Do? {
      var s := sys.todo[ev.src][0].stmt;
      if ev.src == src { ExecOwn(sys.db, src, s); } else { ExecOther(sys.db, ev.src, s, src); }
    }
  }

  /** What a source sees of any interleaving is its own events run alone. */
  lemma {:induction false} RunView(sys: Sys, evs: seq<Event>, src: string)
    ensures ViewOf(Run(sys, evs), src) == RunLocal(ViewOf(sys, src), Own(evs, src))
  {
    hide ViewOf, StepSys, StepLocal;
    if evs != [] {
      var init, ev := evs[..|evs| - 1], evs[|evs| - 1];
      RunView(sys, init, src);
      StepView(Run(sys, init), ev, src);
      FilterAppend(init, ev, BySource(src));
      assert evs == init + [ev];
      assert ev.src == src ==> Own(evs, src)[..|Own(evs, src)| - 1] == Own(init, src);
    }
  }

  lemma {:induction false} RunSources(sys: Sys, evs: seq<Event>)
    ensures Run(sys, evs).todo.Keys == sys.todo.Keys
  {
    hide Exec, PartOf;
    if evs != [] { RunSources(sys, evs[..|evs| - 1]); }
  }

  lemma ViewsDetermine(a: Sys, b: Sys)
    requires a.todo.Keys == b.todo.Keys && forall src :: ViewOf(a, src) == ViewOf(b, src)
    ensures a == b
  {
    hide PartOf;
    assert forall src :: PartOf(a.db, src) == ViewOf(a, src).part && PartOf(b.db, src) == ViewOf(b, src).part;
    PartsDetermine(a.db, b.db);
    forall src | src in a.todo ensures a.todo[src] == b.todo[src] {
      assert a.todo[src] == ViewOf(a, src).todo && b.todo[src] == ViewOf(b, src).todo;
    }
    assert a.todo == b.todo;
  }

  /** Two interleavings of the same per-source event sequences end in the same state. */
  lemma SameEventsSameState(sys: Sys, a: seq<Event>, b: seq<Event>)
    requires forall src :: Own(a, src) == Own(b, src)
    ensures Run(sys, a) == Run(sys, b)
  {
    hide ViewOf, Run, RunLocal, Own;
    forall src ensures ViewOf(Run(sys, a), src) == ViewOf(Run(sys, b), src) {
      RunView(sys, a, src);
      RunView(sys, b, src);
    }
    RunSources(sys, a);
    RunSources(sys, b);
    ViewsDetermine(Run(sys, a), Run(sys, b));
  }

  /** The sources one after another. */
  function Serialize(evs: seq<Event>, sources: seq<string>): seq<Event> {
    if sources == [] then []
    else Serialize(evs, sources[..|sources| - 1]) + Own(evs, sources[|sources| - 1])
  }

  lemma {:induction false} OwnOfOwn(evs: seq<Event>, s: string, src: string)
    ensures Own(Own(evs, s), src) == if s == src then Own(evs, s) else []
  {
    hide Filter;
    FilterEmpty(BySource(s));
    FilterEmpty(BySource(src));
    if evs == [] {
      assert Own(evs, s) == [];
    } else {
      var init, ev := evs[..|evs| - 1], evs[|evs| - 1];
      OwnOfOwn(init, s, src);
      FilterAppend(init, ev, BySource(s));
      FilterAppend(Own(init, s), ev, BySource(src));
      assert evs == init + [ev];
      assert Own(evs, s) == if ev.src == s then Own(init, s) + [ev] else Own(init, s);
    }
  }

  lemma {:induction false} OwnSerialized(evs: seq<Event>, sources: seq<string>, src: string)
    requires Distinct(sources)
    ensures Own(Serialize(evs, sources), src) == if src in sources then Own(evs, src) else []
  {
    if sources != [] {
      var init, s := sources[..|sources| - 1], sources[|sources| - 1];
      OwnSerialized(evs, init, src);
      OwnOfOwn(evs, s, src);
      FilterConcat(Serialize(evs, init), Own(evs, s), BySource(src));
      assert s !in init && sources == init + [s];
    }
  }

  lemma {:induction false} NoOwnEvents(evs: seq<Event>, src: string)
    requires forall i :: 0 <= i < |evs| ==> evs[i].src != src
    ensures Own(evs, src) == []
  {
    if evs != [] {
      NoOwnEvents(evs[..|evs| - 1], src);
    }
  }

  /** Every interleaving of the sources' statements, query answers and crashes leaves the tables
      exactly as running the same sources one after another, in any order of sources. */
  lemma ParallelIsSerial(sys: Sys, evs: seq<Event>, sources: seq<string>)
    requires Distinct(sources) && forall i :: 0 <= i < |evs| ==> evs[i].src in sources
    ensures Run(sys, evs) == Run(sys, Serialize(evs, sources))
  {
    forall src ensures Own(evs, src) == Own(Serialize(evs, sources), src) {
      OwnSerialized(evs, sources, src);
      if src !in sources { NoOwnEvents(evs, src); }
    }
    SameEventsSameState(sys, evs, Serialize(evs, sources));
  }

  // ----- complete pulls have one outcome -----

  /** No crash, and every query answer lists all the rows it should. */
  ghost predicate Complete(v: Local, evs: seq<Event>) {
    evs == [] ||
    (var init, ev := evs[..|evs| - 1], evs[|evs| - 1];
     var u := RunLocal(v, init);
     && Complete(v, init) && ev.Step?
     && (u.todo != [] && u.todo[0].QueryStale? ==> forall k :: k in StaleIn(u.part, u.todo[0].seen) ==> k in ev.answer))
  }

  lemma AnsweredAll(p: Part, seen: set<Key>, answer: seq<Key>)
    requires forall k :: k in StaleIn(p, seen) ==> k in answer
    ensures Members(Answered(p, seen, answer)) == StaleIn(p, seen)
  {
    FilterExact(answer, InSet(StaleIn(p, seen)));
  }

  /** Each step of a complete pull keeps the final outcome fixed. */
  lemma StepKeepsOutcome(v: Local, ev: Event)
    requires ev.Step?
    requires v.todo != [] && v.todo[0].QueryStale? ==> forall k :: k in StaleIn(v.part, v.todo[0].seen) ==> k in ev.answer
    ensures var u := StepLocal(v, ev); Finish(u.part, u.todo) == Finish(v.part, v.todo)
  {
    if v.todo != [] && v.todo[0].QueryStale? {
      var QueryStale(seen, now) := v.todo[0];
      var keys := Answered(v.part, seen, ev.answer);
      FinishAppend(v.part, BuryEach(keys, now), v.todo[1..]);
      FinishBurials(v.part, keys, now);
      AnsweredAll(v.part, seen, ev.answer);
      assert BuryKeys(v.part, Members(keys), now).rows == BuryStale(v.part, seen, now).rows;
    }
  }

  lemma {:induction false} RunKeepsOutcome(v: Local, evs: seq<Event>)
    requires Complete(v, evs)
    ensures var u := RunLocal(v, evs); Finish(u.part, u.todo) == Finish(v.part, v.todo)
  {
    hide StepLocal, Finish, StaleIn;
    if evs != [] {
      RunKeepsOutcome(v, evs[..|evs| - 1]);
      StepKeepsOutcome(RunLocal(v, evs[..|evs| - 1]), evs[|evs| - 1]);
    }
  }

  ghost predicate CompleteRun(sys: Sys, evs: seq<Event>) {
    && (forall src :: Complete(ViewOf(sys, src), Own(evs, src)))
    && (forall src :: ViewOf(Run(sys, evs), src).todo == [])
  }

  /** When every pull has completed, each source's rows are what its program computes alone. */
  lemma CompleteOutcome(sys: Sys, evs: seq<Event>, src: string)
    requires CompleteRun(sys, evs)
    ensures PartOf(Run(sys, evs).db, src) == Finish(ViewOf(sys, src).part, ViewOf(sys, src).todo)
  {
    hide PartOf, Complete;
    RunView(sys, evs, src);
    RunKeepsOutcome(ViewOf(sys, src), Own(evs, src));
  }

  /** Any two complete runs, with any interleavings and any query answer orders, give the same tables. */
  lemma OutcomeUnique(sys: Sys, a: seq<Event>, b: seq<Event>)
    requires CompleteRun(sys, a) && CompleteRun(sys, b)
    ensures Run(sys, a).db == Run(sys, b).db
  {
    hide CompleteRun, PartOf, Finish;
    forall src ensures PartOf(Run(sys, a).db, src) == PartOf(Run(sys, b).db, src) {
      CompleteOutcome(sys, a, src);
      CompleteOutcome(sys, b, src);
    }
    PartsDetermine(Run(sys, a).db, Run(sys, b).db);
  }

  // ----- a full pull never drops a live ban -----

  /** Nothing left to do can bury a key of `keep`, except through a later query that spares it. */
  ghost predicate Spares(ops: seq<Op>, keep: set<Key>) {
    forall i :: 0 <= i < |ops| ==>
      match ops[i]
      case Do(Bury(k, _)) => k !in keep
      case Do(BuryId(_, _)) => false
      case QueryStale(seen, _) => keep <= seen
      case _ => true
  }

  lemma BootstrapSpares(ds: seq<Reported>, now: Time)
    ensures Spares(BootstrapOps(ds, now), KeysOf(ds))
  {
    hide KeysOf, KeyOf, Trim;
    SightAllSpares(ds, now, KeysOf(ds));
  }

  lemma {:induction false} SightAllSpares(ds: seq<Reported>, now: Time, keep: set<Key>)
    ensures Spares(SightAll(ds, now), keep)
  {
    hide Trim;
    if ds != [] { SightAllSpares(ds[..|ds| - 1], now, keep); }
  }

  lemma StepSpares(v: Local, ev: Event, keep: set<Key>)
    requires Spares(v.todo, keep)
    ensures Spares(StepLocal(v, ev).todo, keep)
    ensures forall k :: k in keep && IsActive(v.part, k) ==> IsActive(StepLocal(v, ev).part, k)
  {
    hide KeyOf;
    if v.todo != [] && ev.Step? && v.todo[0].QueryStale? {
      var keys := Answered(v.part, v.todo[0].seen, ev.answer);
      FilterExact(ev.answer, InSet(StaleIn(v.part, v.todo[0].seen)));
      assert forall i :: 0 <= i < |keys| ==> keys[i] in keys;
    }
  }

  /** At every statement boundary of a bootstrap, crashed or not and whatever the query answers,
      a ban that was live before and is in the new pull is still live. */
  lemma {:induction false} NeverDropsMidway(v: Local, evs: seq<Event>, keep: set<Key>)
    requires Spares(v.todo, keep)
    ensures Spares(RunLocal(v, evs).todo, keep)
    ensures forall k :: k in keep && IsActive(v.part, k) ==> IsActive(RunLocal(v, evs).part, k)
  {
    hide Spares, StepLocal, IsActive;
    if evs != [] {
      NeverDropsMidway(v, evs[..|evs| - 1], keep);
      StepSpares(RunLocal(v, evs[..|evs| - 1]), evs[|evs| - 1], keep);
    }
  }

  // ----- a bootstrap inside the federation -----

  /** However the other sources interleave, no statement boundary of a bootstrap shows a live
      ban of the new pull as gone. */
  lemma BootstrapMidway(sys: Sys, evs: seq<Event>, src: string, ds: seq<Reported>, now: Time)
    requires src in sys.todo && sys.todo[src] == BootstrapOps(ds, now)
    ensures forall k :: k in KeysOf(ds) && IsActive(PartOf(sys.db, src), k) ==>
              IsActive(PartOf(Run(sys, evs).db, src), k)
  {
    hide PartOf, IsActive, BootstrapOps, RunLocal, Spares, KeysOf, Own;
    RunView(sys, evs, src);
    BootstrapSpares(ds, now);
    NeverDropsMidway(ViewOf(sys, src), Own(evs, src), KeysOf(ds));
  }

  lemma {:induction false} FinishUpserts(p: Part, ds: seq<Reported>, now: Time)
    ensures Active(Finish(p, UpsertAll(ds, now))) == Active(p) + KeysOf(ds)
    decreases |ds|
  {
    hide KeyOf;
    if ds != [] {
      var q := ExecPart(p, Upsert(ds[0], now));
      assert UpsertAll(ds, now)[1..] == UpsertAll(ds[1..], now);
      FinishUpserts(q, ds[1..], now);
      assert Active(q) == Active(p) + {KeyOf(ds[0])};
      assert KeysOf(ds) == KeysOf(ds[1..]) + {KeyOf(ds[0])} by {
        assert forall i :: 1 <= i < |ds| ==> ds[i] == ds[1..][i - 1];
      }
    }
  }

  lemma {:induction false} FinishSights(p: Part, ds: seq<Reported>, now: Time)
    ensures Finish(p, SightAll(ds, now)).rows == p.rows
  {
    hide Trim;
    if ds != [] {
      FinishSights(p, ds[..|ds| - 1], now);
      var q := Finish(p, SightAll(ds[..|ds| - 1], now));
      FinishAppend(p, SightAll(ds[..|ds| - 1], now), SightOf(ds[|ds| - 1], now));
      assert Finish(q, SightOf(ds[|ds| - 1], now)).rows == q.rows;
    }
  }

  /** The rows after a bootstrap: the upserts, then the burial of whatever else was active. */
  lemma FinishBootstrap(p: Part, ds: seq<Reported>, now: Time)
    ensures Finish(p, BootstrapOps(ds, now)).rows == BuryStale(Finish(p, UpsertAll(ds, now)), KeysOf(ds), now).rows
  {
    hide BuryStale, SightAll, KeysOf, UpsertAll, ExecPart;
    var a, b, c := UpsertAll(ds, now), [QueryStale(KeysOf(ds), now)], SightAll(ds, now);
    FinishAppend(p, a + b, c);
    FinishAppend(p, a, b);
    FinishSights(Finish(p, a + b), ds, now);
    assert Finish(Finish(p, a), b) == BuryStale(Finish(p, a), KeysOf(ds), now);
  }

  /** When all pulls have completed, a bootstrapped source's active bans are exactly its pull. */
  lemma BootstrapEnds(sys: Sys, evs: seq<Event>, src: string, ds: seq<Reported>, now: Time)
    requires src in sys.todo && sys.todo[src] == BootstrapOps(ds, now) && CompleteRun(sys, evs)
    ensures Active(PartOf(Run(sys, evs).db, src)) == KeysOf(ds)
  {
    hide PartOf, CompleteRun, BootstrapOps, KeysOf, Finish, Run;
    var p := PartOf(sys.db, src);
    CompleteOutcome(sys, evs, src);
    FinishBootstrap(p, ds, now);
    FinishUpserts(p, ds, now);
    var u := Finish(p, UpsertAll(ds, now));
    assert Active(BuryStale(u, KeysOf(ds), now)) == Active(u) * KeysOf(ds);
  }
}
