/** From the sources' histories to a firewall: what a target holds after completed pulls and enough
    working cycles (poller.py, reconciler.py, reconcile.py). */
module EndToEnd {
  import opened Text
  import opened Ordered
  import opened Ownership
  import opened Diff
  import opened Target
  import opened Convergence
  import Selection
  import Gates
  import Mirror
  import Federation
  import History

  /** Everything between the mirror and one target. */
  datatype Route = Route(gate: Gates.Gate, inNet: Gates.InNetwork, filter: Selection.Config, glob: Selection.Glob)

  /** The decision clears both gates and passes the target's filter. */
  ghost predicate Eligible(r: Route, d: Decision) {
    Gates.Cleared(r.gate, r.inNet, d) && Selection.Passes(r.filter, r.glob, d)
  }

  /** What the target is asked to hold. */
  function Desired(r: Route, rows: seq<Decision>): seq<Decision> {
    Selection.FilterDesired(r.filter, r.glob, Gates.Gated(r.gate, r.inNet, rows))
  }

  /** The size cap leaves everything that passes. */
  predicate CapSpares(r: Route, rows: seq<Decision>) {
    r.filter.maxEntries == 0 ||
    |Selection.Passing(r.filter, r.glob, Gates.Gated(r.gate, r.inNet, rows))| <= r.filter.maxEntries
  }

  /** The rows of the grouped query: one or more for each active value and scope, and no others. */
  ghost predicate Represents(rows: seq<Decision>, db: Mirror.Db) {
    forall v, s :: (v, s) in History.DesiredGroups(db) <==> exists d :: d in rows && Speaks(d, v, s)
  }

  ghost predicate Speaks(d: Decision, v: string, s: string) {
    d.value == v && d.scope == s
  }

  // ----- what is asked for -----

  lemma AskedFor(r: Route, rows: seq<Decision>, d: Decision)
    ensures d in Desired(r, rows) ==> d in rows && Eligible(r, d)
    ensures CapSpares(r, rows) && d in rows && Eligible(r, d) ==> d in Desired(r, rows)
  {
    hide Gates.Cleared, Selection.Passes, Gates.Gated, Selection.SortDesc;
    var out := Gates.Gated(r.gate, r.inNet, rows);
    var dropped := Selection.FilterExactly(r.filter, r.glob, out);
    Gates.GatedExact(r.gate, r.inNet, rows);
    FilterExact(out, Selection.Admits(r.filter, r.glob));
  }

  /** A value is asked for exactly because an eligible row has it. */
  lemma WantedByRow(r: Route, rows: seq<Decision>, v: string)
    ensures Wants(Desired(r, rows), v) ==> exists d :: d in rows && Eligible(r, d) && WantedKey(d) == Some(v)
    ensures CapSpares(r, rows) && (exists d :: d in rows && Eligible(r, d) && WantedKey(d) == Some(v)) ==> Wants(Desired(r, rows), v)
  {
    hide Eligible, Desired, CapSpares, WantedKey;
    var ds := Desired(r, rows);
    if Wants(ds, v) {
      var i :| 0 <= i < |ds| && WantedKey(ds[i]) == Some(v);
      AskedFor(r, rows, ds[i]);
    }
    if CapSpares(r, rows) && exists d :: d in rows && Eligible(r, d) && WantedKey(d) == Some(v) {
      var d :| d in rows && Eligible(r, d) && WantedKey(d) == Some(v);
      AskedFor(r, rows, d);
      var i :| 0 <= i < |ds| && ds[i] == d;
    }
  }

  // ----- what stands -----

  /** The sources, their pulls, and the events that carried them out. */
  datatype Federated = Federated(sys: Federation.Sys, evs: seq<Federation.Event>, pulls: map<string, History.Pulls>)

  ghost predicate Pulled(f: Federated) {
    && f.sys.todo.Keys == f.pulls.Keys && Federation.CompleteRun(f.sys, f.evs)
    && forall src :: src in f.pulls ==>
         f.sys.todo[src] == Mirror.BootstrapOps(f.pulls[src].full, f.pulls[src].now) + History.DeltasOps(f.pulls[src].deltas)
  }

  function Mirrored(f: Federated): Mirror.Db {
    Federation.Run(f.sys, f.evs).db
  }

  /** Some source stands by this value and scope. */
  ghost predicate StoodBy(f: Federated, value: string, scope: string) {
    exists src, k :: History.Backed(f.sys.db, f.pulls, src, k) && k.value == value && k.scope == scope
  }

  lemma RowsStand(f: Federated, rows: seq<Decision>, v: string, s: string)
    requires Pulled(f) && Represents(rows, Mirrored(f))
    ensures StoodBy(f, v, s) <==> exists d :: d in rows && Speaks(d, v, s)
  {
    hide History.Backed, Federation.CompleteRun, History.DesiredGroups, Federation.Run, Speaks;
    History.DesiredIsWhatStands(f.sys, f.evs, f.pulls, v, s);
  }

  /** An eligible row that a source stands by asks for normal form `a`. */
  ghost predicate CalledFor(f: Federated, r: Route, rows: seq<Decision>, a: string) {
    exists d :: d in rows && StoodBy(f, d.value, d.scope) && Eligible(r, d) && WantedKey(d).Some? && Normalize(WantedKey(d).value) == a
  }

  lemma CalledForWanted(f: Federated, r: Route, rows: seq<Decision>, w: set<string>, a: string)
    requires Pulled(f) && Represents(rows, Mirrored(f)) && forall v :: Wants(Desired(r, rows), v) <==> v in w
    ensures a in Norms(w) ==> CalledFor(f, r, rows, a)
    ensures CapSpares(r, rows) && CalledFor(f, r, rows, a) ==> a in Norms(w)
  {
    hide Pulled, Represents, Eligible, Desired, CapSpares, WantedKey, Wants, StoodBy, Normalize;
    if a in Norms(w) {
      var v :| v in w && Normalize(v) == a;
      WantedByRow(r, rows, v);
      var d :| d in rows && Eligible(r, d) && WantedKey(d) == Some(v);
      RowsStand(f, rows, d.value, d.scope);
      assert Speaks(d, d.value, d.scope);
    }
    if CapSpares(r, rows) && CalledFor(f, r, rows, a) {
      var d :| d in rows && StoodBy(f, d.value, d.scope) && Eligible(r, d) && WantedKey(d).Some? && Normalize(WantedKey(d).value) == a;
      WantedByRow(r, rows, WantedKey(d).value);
    }
  }

  /** After completed pulls, and a run of working cycles as long as the backlog with fewer refusable
      addresses than the cap, everything the target owns is called for by a standing, cleared and
      passing decision; and where the size cap spares all, the target owns exactly what is called
      for, apart from addresses the firewall may refuse. */
  lemma TargetHoldsWhatStands(
    f: Federated, r: Route, rows: seq<Decision>, t: Table, same: SameAddress, cs: seq<Cycle>, w: set<string>, cap: nat)
    requires Pulled(f) && Represents(rows, Mirrored(f)) && forall v :: Wants(Desired(r, rows), v) <==> v in w
    requires t.Valid() && GoodRun(t, same, cs, w, cap) && |Contested(t, same, w)| < cap
    requires |Stale(t, w)| <= |cs| && |Pending(t, w, Contested(t, same, w))| <= |cs|
    ensures var u := RunCycles(t, same, cs);
            && (forall a :: Owns(u, a) ==> CalledFor(f, r, rows, a))
            && (forall a :: CapSpares(r, rows) && a !in Norms(Contested(t, same, w)) ==> (Owns(u, a) <==> CalledFor(f, r, rows, a)))
  {
    hide Pulled, Represents, Desired, CapSpares, Wants, CalledFor, Normalize, IsOwned, Contested, GoodRun, RunCycles, Pending, Norms;
    Converges(t, same, cs, w, cap);
    var u := RunCycles(t, same, cs);
    forall a
      ensures Owns(u, a) ==> CalledFor(f, r, rows, a)
      ensures CapSpares(r, rows) && a !in Norms(Contested(t, same, w)) ==> (Owns(u, a) <==> CalledFor(f, r, rows, a))
    {
      CalledForWanted(f, r, rows, w, a);
      OwnedIsWanted(u, w, a);
      if a in Norms(w) && a !in Norms(Contested(t, same, w)) { UncontestedIsOwned(u, w, Contested(t, same, w), a); }
    }
  }

  lemma OwnedIsWanted(u: Table, w: set<string>, a: string)
    requires Stale(u, w) == {}
    ensures Owns(u, a) ==> a in Norms(w)
  {
    hide Normalize, IsOwned, Norms;
    if id :| id in u.entries && Ours(u.entries[id]) && Normalize(u.entries[id].address) == a {
      assert id !in Stale(u, w);
    }
  }

  lemma UncontestedIsOwned(u: Table, w: set<string>, few: set<string>, a: string)
    requires (forall v :: v in w && v !in few ==> Owns(u, Normalize(v))) && a in Norms(w) && a !in Norms(few)
    ensures Owns(u, a)
  {
    hide Normalize, Owns;
    var v :| v in w && Normalize(v) == a;
  }
}
