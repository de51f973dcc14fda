/** The diff engine (reconcile.py): what to add to and remove from one firewall list. */
module Diff {
  import opened Text
  import opened Ordered
  import opened Ownership

  /** Firewall ids are opaque, non-empty and unique; numbers stand for them. */
  type Id = nat

  datatype Entry = Entry(id: Id, address: string, comment: string)

  datatype ReconcileDiff = ReconcileDiff(
    toAdd: seq<(string, string)>, toRemove: seq<Id>, alreadyThere: nat, foreignKept: nat)

  /** The key of a decision in `desired_by_addr`; blank values are skipped. */
  function WantedKey(d: Decision): Option<string> {
    if Trim(d.value) == "" then None else Some(Trim(d.value))
  }

  /** The key of an entry in `owned_by_addr`; foreign entries are skipped. */
  function OwnedKey(e: Entry): Option<string> {
    if IsOwned(e.comment) then Some(Normalize(e.address)) else None
  }

  /** Some decision asks for the value `v`. */
  ghost predicate Wants(ds: seq<Decision>, v: string) {
    HasKey(ds, WantedKey, v)
  }

  /** Some decision asks for an address with normal form `a`. */
  ghost predicate WantsNorm(ds: seq<Decision>, a: string) {
    exists v :: Wants(ds, v) && Normalize(v) == a
  }

  /** Protek owns an entry whose address has normal form `a`. */
  ghost predicate OwnsNorm(es: seq<Entry>, a: string) {
    HasKey(es, OwnedKey, a)
  }

  function Norms(vs: set<string>): (n: set<string>)
    ensures forall v :: v in vs ==> Normalize(v) in n
  {
    set v | v in vs :: Normalize(v)
  }

  function Unowned(owned: map<string, Entry>): string -> bool {
    k => Normalize(k) !in owned
  }

  function Unwanted(wanted: set<string>): string -> bool {
    a => a !in wanted
  }

  /** Wanted values Protek does not own yet, in the order the desired list first names them. */
  function AddKeys(ds: seq<Decision>, es: seq<Entry>): seq<string> {
    Filter(FirstWins(ds, WantedKey).keys, Unowned(LastWins(es, OwnedKey).at))
  }

  /** Owned normal forms nobody wants, in the order the listing first names them. */
  function StaleKeys(ds: seq<Decision>, es: seq<Entry>): seq<string> {
    Filter(LastWins(es, OwnedKey).keys, Unwanted(Norms(FirstWins(ds, WantedKey).at.Keys)))
  }

  /** The addition proposed for a key of `desired_by_addr`. */
  function AddFor(wanted: map<string, Decision>): string -> (string, string) {
    k => (k, if k in wanted then EncodeComment(wanted[k]) else "")
  }

  /** The id removed for a key of `owned_by_addr`. */
  function RemoveFor(owned: map<string, Entry>): string -> Id {
    a => if a in owned then owned[a].id else 0
  }

  function ForeignCount(es: seq<Entry>): nat {
    |Filter(es, (e: Entry) => !IsOwned(e.comment))|
  }

  function DiffOf(ds: seq<Decision>, es: seq<Entry>): ReconcileDiff {
    var wanted, owned := FirstWins(ds, WantedKey), LastWins(es, OwnedKey);
    ReconcileDiff(Select(wanted.keys, Unowned(owned.at), AddFor(wanted.at)),
                  Select(owned.keys, Unwanted(Norms(wanted.at.Keys)), RemoveFor(owned.at)),
                  |wanted.keys| - |AddKeys(ds, es)|,
                  ForeignCount(es))
  }

  // ----- the loop form refines the functional form -----

  method IndexWanted(ds: seq<Decision>) returns (wanted: Dict<string, Decision>)
    ensures wanted == FirstWins(ds, WantedKey) && wanted.Valid()
  {
    wanted := Dict([], map[]);
    for i := 0 to |ds|
      invariant wanted == FirstWins(ds[..i], WantedKey)
    {
      assert ds[..i + 1][..i] == ds[..i];
      var v := Trim(ds[i].value);
      if v != "" { wanted := wanted.SetDefault(v, ds[i]); }
    }
    assert ds[..|ds|] == ds;
    FirstWinsExact(ds, WantedKey);
  }

  method IndexOwned(es: seq<Entry>) returns (owned: Dict<string, Entry>, foreign: nat)
    ensures owned == LastWins(es, OwnedKey) && owned.Valid()
    ensures foreign == ForeignCount(es)
  {
    owned, foreign := Dict([], map[]), 0;
    for i := 0 to |es|
      invariant owned == LastWins(es[..i], OwnedKey) && foreign == ForeignCount(es[..i])
    {
      assert es[..i + 1][..i] == es[..i];
      if IsOwned(es[i].comment) {
        owned := owned.Put(Normalize(es[i].address), es[i]);
      } else {
        foreign := foreign + 1;
      }
    }
    assert es[..|es|] == es;
    LastWinsExact(es, OwnedKey);
  }

  /** `reconcile`, as the source's four loops. */
  method Reconcile(ds: seq<Decision>, es: seq<Entry>) returns (diff: ReconcileDiff)
    ensures diff == DiffOf(ds, es)
  {
    var wanted := IndexWanted(ds);
    var owned, foreign := IndexOwned(es);
    var adds, alreadyThere := CollectAdds(wanted, owned);
    var removals := CollectRemovals(wanted, owned);
    diff := ReconcileDiff(adds, removals, alreadyThere, foreign);
  }

  method CollectAdds(wanted: Dict<string, Decision>, owned: Dict<string, Entry>)
    returns (adds: seq<(string, string)>, alreadyThere: nat)
    requires wanted.Valid()
    ensures adds == Select(wanted.keys, Unowned(owned.at), AddFor(wanted.at))
    ensures alreadyThere == |wanted.keys| - |adds|
  {
    hide EncodeComment, Normalize;
    adds, alreadyThere := [], 0;
    for i := 0 to |wanted.keys|
      invariant adds == Select(wanted.keys[..i], Unowned(owned.at), AddFor(wanted.at))
      invariant alreadyThere == i - |adds|
    {
      SelectExtend(wanted.keys, i, Unowned(owned.at), AddFor(wanted.at));
      var k := wanted.keys[i];
      if Normalize(k) in owned.at {
        alreadyThere := alreadyThere + 1;
      } else {
        adds := adds + [(k, EncodeComment(wanted.at[k]))];
      }
    }
    assert wanted.keys[..|wanted.keys|] == wanted.keys;
  }

  method CollectRemovals(wanted: Dict<string, Decision>, owned: Dict<string, Entry>) returns (removals: seq<Id>)
    requires owned.Valid()
    ensures removals == Select(owned.keys, Unwanted(Norms(wanted.at.Keys)), RemoveFor(owned.at))
  {
    var desiredNorm := Norms(wanted.at.Keys);
    removals := [];
    for i := 0 to |owned.keys|
      invariant removals == Select(owned.keys[..i], Unwanted(desiredNorm), RemoveFor(owned.at))
    {
      SelectExtend(owned.keys, i, Unwanted(desiredNorm), RemoveFor(owned.at));
      var a := owned.keys[i];
      if a !in desiredNorm { removals := removals + [owned.at[a].id]; }
    }
    assert owned.keys[..|owned.keys|] == owned.keys;
  }

  // ----- what the result lists mean -----

  lemma AddKeysExact(ds: seq<Decision>, es: seq<Entry>)
    ensures Distinct(AddKeys(ds, es))
    ensures forall v :: v in AddKeys(ds, es) <==> Wants(ds, v) && !OwnsNorm(es, Normalize(v))
  {
    FirstWinsExact(ds, WantedKey);
    LastWinsExact(es, OwnedKey);
    FilterExact(FirstWins(ds, WantedKey).keys, Unowned(LastWins(es, OwnedKey).at));
  }

  /** The additions are exactly the wanted values whose normal form Protek does not own,
      each once, each carrying the comment of the earliest decision for it. */
  lemma AddsExact(ds: seq<Decision>, es: seq<Entry>)
    ensures var keys, r := AddKeys(ds, es), DiffOf(ds, es).toAdd;
            && |r| == |keys| && Distinct(keys)
            && (forall v :: v in keys <==> Wants(ds, v) && !OwnsNorm(es, Normalize(v)))
            && (forall i :: 0 <= i < |r| ==> r[i].0 == keys[i] && EarliestComment(ds, keys[i], r[i].1))
  {
    hide Normalize, OwnedKey, WantedKey, EncodeComment;
    AddKeysExact(ds, es);
    var keys, r := AddKeys(ds, es), DiffOf(ds, es).toAdd;
    forall i | 0 <= i < |r| ensures r[i].0 == keys[i] && EarliestComment(ds, keys[i], r[i].1) {
      assert keys[i] in keys;
      FirstWinsExact(ds, WantedKey);
      var j :| FirstAt(ds, WantedKey, keys[i], j) && ds[j] == FirstWins(ds, WantedKey).at[keys[i]];
    }
  }

  /** `comment` is the one written for the first decision that asks for `v`. */
  ghost predicate EarliestComment(ds: seq<Decision>, v: string, comment: string) {
    exists j :: FirstAt(ds, WantedKey, v, j) && comment == EncodeComment(ds[j])
  }

  lemma StaleKeysExact(ds: seq<Decision>, es: seq<Entry>)
    ensures Distinct(StaleKeys(ds, es))
    ensures forall a :: a in StaleKeys(ds, es) <==> OwnsNorm(es, a) && !WantsNorm(ds, a)
  {
    FirstWinsExact(ds, WantedKey);
    LastWinsExact(es, OwnedKey);
    var wanted := Norms(FirstWins(ds, WantedKey).at.Keys);
    FilterExact(LastWins(es, OwnedKey).keys, Unwanted(wanted));
    assert forall a :: a in wanted <==> WantsNorm(ds, a);
  }

  /** Exactly one removal for each owned normal form nobody wants: the last listed entry. */
  lemma RemovalsExact(ds: seq<Decision>, es: seq<Entry>)
    ensures var keys, r := StaleKeys(ds, es), DiffOf(ds, es).toRemove;
            && |r| == |keys| && Distinct(keys)
            && (forall a :: a in keys <==> OwnsNorm(es, a) && !WantsNorm(ds, a))
            && (forall i :: 0 <= i < |r| ==> LastListed(es, keys[i], r[i]))
  {
    hide Normalize, OwnedKey, WantedKey;
    StaleKeysExact(ds, es);
    var keys, r := StaleKeys(ds, es), DiffOf(ds, es).toRemove;
    forall i | 0 <= i < |r| ensures LastListed(es, keys[i], r[i]) {
      assert keys[i] in keys;
      LastWinsExact(es, OwnedKey);
      var j :| LastAt(es, OwnedKey, keys[i], j) && es[j] == LastWins(es, OwnedKey).at[keys[i]];
    }
  }

  /** `id` is the last listed owned entry with normal form `a`. */
  ghost predicate LastListed(es: seq<Entry>, a: string, id: Id) {
    exists j :: LastAt(es, OwnedKey, a, j) && id == es[j].id
  }

  // ----- what the conflated normal form costs -----

  /** While Protek owns an entry for the base address of an IPv6 `/32` network, the network itself is
      never proposed for adding. */
  lemma NetworkNeverAdded(ds: seq<Decision>, es: seq<Entry>, host: string, i: nat)
    requires Trim(host) == host != "" && ':' in host && '/' !in host && OwnsNorm(es, Normalize(host))
    requires i < |DiffOf(ds, es).toAdd|
    ensures DiffOf(ds, es).toAdd[i].0 != host + "/32"
  {
    hide Normalize, Trim, Canonical, DiffOf, AddKeys, Wants, OwnsNorm;
    NormalizeConflatesNetworks(host);
    AddsExact(ds, es);
    assert AddKeys(ds, es)[i] in AddKeys(ds, es);
  }

  ghost predicate DistinctIds(es: seq<Entry>) {
    forall m, n :: 0 <= m < n < |es| ==> es[m].id != es[n].id
  }

  /** While the base address is wanted, no owned entry for the network is proposed for removal. */
  lemma NetworkNeverRemoved(ds: seq<Decision>, es: seq<Entry>, host: string, e: Entry)
    requires DistinctIds(es) && e in es && Wants(ds, host)
    requires Trim(host) == host != "" && ':' in host && '/' !in host
    requires IsOwned(e.comment) && Normalize(e.address) == Normalize(host + "/32")
    ensures e.id !in DiffOf(ds, es).toRemove
  {
    hide Normalize, Trim, Canonical, DiffOf, Wants, IsOwned, WantsNorm;
    NormalizeConflatesNetworks(host);
    WantsItsNorm(ds, host);
    WantedNeverRemoved(ds, es, e);
  }

  lemma WantsItsNorm(ds: seq<Decision>, v: string)
    requires Wants(ds, v)
    ensures WantsNorm(ds, Normalize(v))
  {
    hide Wants, Normalize;
  }

  /** An entry whose normal form someone wants is not proposed for removal. */
  lemma WantedNeverRemoved(ds: seq<Decision>, es: seq<Entry>, e: Entry)
    requires DistinctIds(es) && e in es && WantsNorm(ds, Normalize(e.address))
    ensures e.id !in DiffOf(ds, es).toRemove
  {
    hide Normalize, DiffOf, WantsNorm;
    var r := DiffOf(ds, es).toRemove;
    var j :| 0 <= j < |es| && es[j] == e;
    forall i | 0 <= i < |r| ensures r[i] != e.id {
      var m := RemovedEntry(ds, es, i);
      assert m != j;
    }
  }

  /** A removal names a listed entry whose normal form nobody wants. */
  lemma RemovedEntry(ds: seq<Decision>, es: seq<Entry>, i: nat) returns (m: nat)
    requires i < |DiffOf(ds, es).toRemove|
    ensures m < |es| && es[m].id == DiffOf(ds, es).toRemove[i] && !WantsNorm(ds, Normalize(es[m].address))
  {
    hide Normalize, DiffOf, StaleKeys, WantsNorm, OwnsNorm, IsOwned;
    RemovalsExact(ds, es);
    var stale := StaleKeys(ds, es);
    assert stale[i] in stale;
    m :| LastAt(es, OwnedKey, stale[i], m) && es[m].id == DiffOf(ds, es).toRemove[i];
    assert OwnedKey(es[m]) == Some(stale[i]);
  }

  // ----- the diff in terms of its inputs alone -----

  /** Some decision asks for the address text `v`. */
  ghost predicate AskedFor(ds: seq<Decision>, v: string) {
    v != "" && exists d :: d in ds && Trim(d.value) == v
  }

  /** Some entry with Protek's marker has normal form `a`. */
  ghost predicate MarkedEntry(es: seq<Entry>, a: string) {
    exists e :: e in es && "protek:" <= e.comment && Normalize(e.address) == a
  }

  lemma WantsExactly(ds: seq<Decision>, v: string)
    ensures Wants(ds, v) <==> AskedFor(ds, v)
  {
    hide Trim;
    if Wants(ds, v) {
      var i :| 0 <= i < |ds| && WantedKey(ds[i]) == Some(v);
      assert ds[i] in ds;
    }
    if AskedFor(ds, v) {
      var d :| d in ds && Trim(d.value) == v;
      var i :| 0 <= i < |ds| && ds[i] == d;
      assert WantedKey(ds[i]) == Some(v);
    }
  }

  lemma OwnsExactly(es: seq<Entry>, a: string)
    ensures OwnsNorm(es, a) <==> MarkedEntry(es, a)
  {
    hide Normalize;
    if OwnsNorm(es, a) {
      var i :| 0 <= i < |es| && OwnedKey(es[i]) == Some(a);
      assert es[i] in es;
    }
    if MarkedEntry(es, a) {
      var e :| e in es && "protek:" <= e.comment && Normalize(e.address) == a;
      var i :| 0 <= i < |es| && es[i] == e;
      assert OwnedKey(es[i]) == Some(a);
    }
  }

  /** An address is proposed for adding exactly when a decision asks for it and no entry with
      Protek's marker has its normal form, and then once. */
  lemma AddedExactly(ds: seq<Decision>, es: seq<Entry>, v: string)
    ensures (exists i :: 0 <= i < |DiffOf(ds, es).toAdd| && DiffOf(ds, es).toAdd[i].0 == v) <==>
            AskedFor(ds, v) && !MarkedEntry(es, Normalize(v))
    ensures forall i, j :: 0 <= i < j < |DiffOf(ds, es).toAdd| ==> DiffOf(ds, es).toAdd[i].0 != DiffOf(ds, es).toAdd[j].0
  {
    hide Normalize, AskedFor, MarkedEntry, DiffOf, AddKeys, Wants, OwnsNorm;
    AddsExact(ds, es);
    WantsExactly(ds, v);
    OwnsExactly(es, Normalize(v));
    var keys, r := AddKeys(ds, es), DiffOf(ds, es).toAdd;
    if i :| 0 <= i < |r| && r[i].0 == v { assert keys[i] in keys; }
    if v in keys {
      var i :| 0 <= i < |keys| && keys[i] == v;
      assert r[i].0 == v;
    }
  }

  /** It carries the comment of the earliest decision that asks for it. */
  lemma AddedComment(ds: seq<Decision>, es: seq<Entry>, i: nat) returns (j: nat)
    requires i < |DiffOf(ds, es).toAdd|
    ensures j < |ds| && Trim(ds[j].value) == DiffOf(ds, es).toAdd[i].0
    ensures DiffOf(ds, es).toAdd[i].1 == EncodeComment(ds[j])
    ensures forall m :: 0 <= m < j ==> Trim(ds[m].value) != Trim(ds[j].value)
  {
    hide Trim, EncodeComment, DiffOf, AddKeys, Wants, OwnsNorm, Normalize;
    AddsExact(ds, es);
    var v := AddKeys(ds, es)[i];
    j :| FirstAt(ds, WantedKey, v, j) && DiffOf(ds, es).toAdd[i].1 == EncodeComment(ds[j]);
    forall m | 0 <= m < j ensures Trim(ds[m].value) != Trim(ds[j].value) { assert WantedKey(ds[m]) != Some(v); }
  }

  /** Each removal is of an entry with Protek's marker whose normal form no decision asks for, the
      last such entry listed; and every such normal form has its removal. */
  lemma RemovedExactly(ds: seq<Decision>, es: seq<Entry>, j: nat)
    requires DistinctIds(es) && j < |es|
    ensures es[j].id in DiffOf(ds, es).toRemove <==>
            && "protek:" <= es[j].comment
            && (forall v :: AskedFor(ds, v) ==> Normalize(v) != Normalize(es[j].address))
            && (forall m :: j < m < |es| && "protek:" <= es[m].comment ==> Normalize(es[m].address) != Normalize(es[j].address))
  {
    hide Normalize, AskedFor, DiffOf, StaleKeys, Wants;
    RemovalsExact(ds, es);
    var stale, r, a := StaleKeys(ds, es), DiffOf(ds, es).toRemove, Normalize(es[j].address);
    forall v ensures Wants(ds, v) <==> AskedFor(ds, v) { WantsExactly(ds, v); }
    if es[j].id in r {
      var i :| 0 <= i < |r| && r[i] == es[j].id;
      var n :| LastAt(es, OwnedKey, stale[i], n) && r[i] == es[n].id;
      assert n == j && stale[i] in stale;
      forall m | j < m < |es| && "protek:" <= es[m].comment ensures Normalize(es[m].address) != a {
        assert OwnedKey(es[m]) != Some(stale[i]);
      }
    }
    if && "protek:" <= es[j].comment && (forall v :: AskedFor(ds, v) ==> Normalize(v) != a)
       && (forall m :: j < m < |es| && "protek:" <= es[m].comment ==> Normalize(es[m].address) != a) {
      assert OwnedKey(es[j]) == Some(a) && OwnsNorm(es, a) && a in stale;
      var i :| 0 <= i < |stale| && stale[i] == a;
      var n :| LastAt(es, OwnedKey, a, n) && r[i] == es[n].id;
      assert n <= j ==> n == j;
    }
  }

  /** The two counters: the distinct addresses asked for are either proposed or there already, and
      the entries are either Protek's or foreign. */
  lemma CountsExact(ds: seq<Decision>, es: seq<Entry>, asked: set<string>)
    requires forall v :: v in asked <==> AskedFor(ds, v)
    ensures |DiffOf(ds, es).toAdd| + DiffOf(ds, es).alreadyThere == |asked|
    ensures DiffOf(ds, es).foreignKept == |Filter(es, (e: Entry) => !("protek:" <= e.comment))|
  {
    hide AskedFor, Normalize, EncodeComment, Filter, FirstWins, LastWins, WantedKey, OwnedKey, ForeignCount;
    KeysAreAsked(ds, asked);
    FilterSame(es);
  }

  lemma KeysAreAsked(ds: seq<Decision>, asked: set<string>)
    requires forall v :: v in asked <==> AskedFor(ds, v)
    ensures |FirstWins(ds, WantedKey).keys| == |asked|
  {
    hide AskedFor, WantedKey, Wants;
    var d := FirstWins(ds, WantedKey);
    FirstWinsKeys(ds, WantedKey);
    forall v ensures v in d.at <==> v in asked {
      WantsExactly(ds, v);
      WantsIsKey(ds, v);
    }
    DistinctSize(d.keys);
    assert (set v | v in d.keys) == asked;
  }

  lemma WantsIsKey(ds: seq<Decision>, v: string)
    ensures Wants(ds, v) <==> HasKey(ds, WantedKey, v)
  {
  }

  lemma {:induction false} FilterSame(es: seq<Entry>)
    ensures ForeignCount(es) == |Filter(es, (e: Entry) => !("protek:" <= e.comment))|
  {
    if es != [] { FilterSame(es[..|es| - 1]); }
  }
}
