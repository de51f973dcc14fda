/** The whitelist and approval gates in front of every push
    (reconciler.py `_desired_from_db`, scenarios_admin.py). */
module Gates {
  import opened Text
  import opened Ordered
  import opened Ownership
  import opened Diff
  import opened Selection

  // ----- whitelist -----

  datatype Kind = IpRule | CidrRule | AsnRule | CountryRule | OtherRule
  datatype Rule = Rule(id: int, kind: Kind, value: string)

  /** Both texts parse and the address lies in the network: (address, network). */
  type InNetwork = (string, string) -> bool

  function UpperChar(c: char): char {
    if 'a' <= c <= 'z' then c - 'a' + 'A' else c
  }

  function Upper(s: string): string {
    seq(|s|, i requires 0 <= i < |s| => UpperChar(s[i]))
  }

  predicate RuleMatches(r: Rule, ip: string, asn: string, country: string, inNet: InNetwork) {
    match r.kind
    case IpRule => r.value == ip
    case CidrRule => inNet(ip, r.value)
    case AsnRule => asn != "" && Upper(r.value) == Upper(asn)
    case CountryRule => country != "" && Upper(r.value) == Upper(country)
    case OtherRule => false
  }

  /** `matches_whitelist`: the first active rule that matches, if any. */
  method MatchesWhitelist(rules: seq<Rule>, ip: string, asn: string, country: string, inNet: InNetwork)
    returns (hit: Option<Rule>)
    ensures hit.None? ==> forall i :: 0 <= i < |rules| ==> !RuleMatches(rules[i], ip, asn, country, inNet)
    ensures hit.Some? ==> exists i :: 0 <= i < |rules| && rules[i] == hit.value
                                      && RuleMatches(rules[i], ip, asn, country, inNet)
                                      && forall j :: 0 <= j < i ==> !RuleMatches(rules[j], ip, asn, country, inNet)
  {
    for i := 0 to |rules|
      invariant forall j :: 0 <= j < i ==> !RuleMatches(rules[j], ip, asn, country, inNet)
    {
      if RuleMatches(rules[i], ip, asn, country, inNet) { return Some(rules[i]); }
    }
    return None;
  }

  // ----- geolocation, looked up in chunks -----

  const CHUNK: nat := 900

  datatype Geo = Geo(asn: string, country: string)

  function AsnMap(ips: seq<string>, cache: map<string, Geo>): map<string, string> {
    map ip | ip in ips && ip in cache && cache[ip].asn != "" :: cache[ip].asn
  }

  function CountryMap(ips: seq<string>, cache: map<string, Geo>): map<string, string> {
    map ip | ip in ips && ip in cache && cache[ip].country != "" :: cache[ip].country
  }

  lemma GeoAppend(a: seq<string>, b: seq<string>, cache: map<string, Geo>)
    ensures AsnMap(a + b, cache) == AsnMap(a, cache) + AsnMap(b, cache)
    ensures CountryMap(a + b, cache) == CountryMap(a, cache) + CountryMap(b, cache)
  {
  }

  /** The chunked queries build exactly the maps one unchunked query would. */
  method LookupGeo(ips: seq<string>, cache: map<string, Geo>) returns (asn: map<string, string>, country: map<string, string>)
    ensures asn == AsnMap(ips, cache) && country == CountryMap(ips, cache)
  {
    hide AsnMap, CountryMap;
    asn, country := AsnMap([], cache), CountryMap([], cache);
    var i := 0;
    while i < |ips|
      invariant 0 <= i <= |ips|
      invariant asn == AsnMap(ips[..i], cache) && country == CountryMap(ips[..i], cache)
    {
      var end := if i + CHUNK < |ips| then i + CHUNK else |ips|;
      var chunk := ips[i..end];
      assert ips[..end] == ips[..i] + chunk;
      GeoAppend(ips[..i], chunk, cache);
      asn, country := asn + AsnMap(chunk, cache), country + CountryMap(chunk, cache);
      i := end;
    }
    assert ips[..|ips|] == ips;
  }

  // ----- approval queue -----

  datatype Status = Pending | Approved | Rejected
  datatype QueueRow = QueueRow(id: nat, ip: string, status: Status, decisionId: int)

  /** Rows in insertion order; ids come from an ascending counter. */
  ghost predicate ValidQueue(q: seq<QueueRow>) {
    forall i, j :: 0 <= i < j < |q| ==> q[i].id < q[j].id
  }

  predicate HasRow(q: seq<QueueRow>, ip: string) {
    exists i :: 0 <= i < |q| && q[i].ip == ip
  }

  predicate IsApproved(q: seq<QueueRow>, ip: string) {
    exists i :: 0 <= i < |q| && q[i].ip == ip && q[i].status == Approved
  }

  /** The highest id among the rows of one address; 0 when it has none. */
  function MaxId(q: seq<QueueRow>, ip: string): (m: nat)
    ensures forall i :: 0 <= i < |q| && q[i].ip == ip ==> q[i].id <= m
    ensures HasRow(q, ip) ==> exists i :: 0 <= i < |q| && q[i].ip == ip && q[i].id == m
  {
    if q == [] then 0
    else
      var n := |q| - 1;
      var m := MaxId(q[..n], ip);
      assert HasRow(q, ip) ==> HasRow(q[..n], ip) || q[n].ip == ip;
      if q[n].ip == ip && (q[n].id > m || !exists i :: 0 <= i < n && q[i].ip == ip) then q[n].id else m
  }

  function IsNewestFor(q: seq<QueueRow>, ips: seq<string>): QueueRow -> bool {
    (r: QueueRow) => r.ip in ips && r.id == MaxId(q, r.ip)
  }

  /** One query: for each listed address, its row with the highest id. */
  function NewestRows(q: seq<QueueRow>, ips: seq<string>): seq<QueueRow> {
    Filter(q, IsNewestFor(q, ips))
  }

  /** `seen` holds exactly the listed addresses that have a row, each with the status of its
      highest-id row: what one unchunked query would build. */
  ghost predicate IsStatusMap(q: seq<QueueRow>, ips: seq<string>, seen: map<string, Status>) {
    && (forall ip :: ip in seen <==> ip in ips && HasRow(q, ip))
    && (forall ip :: ip in seen ==>
          exists r :: r in q && r.ip == ip && r.status == seen[ip] && r.id == MaxId(q, ip))
  }

  lemma RowById(q: seq<QueueRow>, r: QueueRow, s: QueueRow)
    requires ValidQueue(q) && r in q && s in q && r.id == s.id
    ensures r == s
  {
    var i :| 0 <= i < |q| && q[i] == r;
    var j :| 0 <= j < |q| && q[j] == s;
    assert i == j;
  }

  /** There is only one such map. */
  lemma StatusMapUnique(q: seq<QueueRow>, ips: seq<string>, a: map<string, Status>, b: map<string, Status>)
    requires ValidQueue(q) && IsStatusMap(q, ips, a) && IsStatusMap(q, ips, b)
    ensures a == b
  {
    hide MaxId, HasRow, ValidQueue;
    assert a.Keys == b.Keys;
    forall ip | ip in a ensures a[ip] == b[ip] {
      var r :| r in q && r.ip == ip && r.status == a[ip] && r.id == MaxId(q, ip);
      var s :| s in q && s.ip == ip && s.status == b[ip] && s.id == MaxId(q, ip);
      RowById(q, r, s);
    }
  }

  lemma NewestRowsExact(q: seq<QueueRow>, ips: seq<string>)
    ensures forall r :: r in NewestRows(q, ips) ==> r in q && r.ip in ips && r.id == MaxId(q, r.ip)
    ensures forall ip :: ip in ips && HasRow(q, ip) ==> exists r :: r in NewestRows(q, ips) && r.ip == ip
  {
    FilterExact(q, IsNewestFor(q, ips));
    forall ip | ip in ips && HasRow(q, ip) ensures exists r :: r in NewestRows(q, ips) && r.ip == ip {
      var i :| 0 <= i < |q| && q[i].ip == ip && q[i].id == MaxId(q, ip);
      assert q[i] in q;
    }
  }

  /** Fold the rows of one query into the status map. */
  method RecordRows(q: seq<QueueRow>, done: seq<string>, chunk: seq<string>, seen0: map<string, Status>)
    returns (seen: map<string, Status>)
    requires IsStatusMap(q, done, seen0)
    ensures IsStatusMap(q, done + chunk, seen)
  {
    hide MaxId, NewestRows, HasRow;
    var rows := NewestRows(q, chunk);
    NewestRowsExact(q, chunk);
    seen := seen0;
    for i := 0 to |rows|
      invariant forall ip :: ip in seen0 ==> ip in seen
      invariant forall ip :: ip in seen ==> ip in seen0 || ip in chunk
      invariant forall ip :: ip in seen ==>
                  exists r :: r in q && r.ip == ip && r.status == seen[ip] && r.id == MaxId(q, ip)
      invariant forall j :: 0 <= j < i ==> rows[j].ip in seen
    {
      var r := rows[i];
      assert r in rows;
      seen := seen[r.ip := r.status];
    }
    RecordedAll(q, done, chunk, seen0, seen, rows);
  }

  lemma RecordedAll(q: seq<QueueRow>, done: seq<string>, chunk: seq<string>,
                    seen0: map<string, Status>, seen: map<string, Status>, rows: seq<QueueRow>)
    requires forall ip :: ip in seen0 <==> ip in done && HasRow(q, ip)
    requires forall ip :: ip in seen0 ==> ip in seen
    requires forall ip :: ip in seen ==> ip in seen0 || ip in chunk
    requires forall ip :: ip in seen ==> exists r :: r in q && r.ip == ip && r.status == seen[ip] && r.id == MaxId(q, ip)
    requires forall j :: 0 <= j < |rows| ==> rows[j].ip in seen
    requires forall ip :: ip in chunk && HasRow(q, ip) ==> exists r :: r in rows && r.ip == ip
    ensures IsStatusMap(q, done + chunk, seen)
  {
    hide MaxId;
    forall ip ensures ip in seen <==> ip in done + chunk && HasRow(q, ip) {
      if ip in seen {
        var r :| r in q && r.ip == ip && r.status == seen[ip] && r.id == MaxId(q, ip);
        var k :| 0 <= k < |q| && q[k] == r;
      }
      if ip in chunk && HasRow(q, ip) {
        var r :| r in rows && r.ip == ip;
      }
    }
  }

  /** The chunked status lookup, 900 addresses a query. */
  method LookupStatus(q: seq<QueueRow>, ips: seq<string>) returns (seen: map<string, Status>)
    ensures IsStatusMap(q, ips, seen)
  {
    seen := map[];
    var i := 0;
    while i < |ips|
      invariant 0 <= i <= |ips|
      invariant IsStatusMap(q, ips[..i], seen)
    {
      var end := if i + CHUNK < |ips| then i + CHUNK else |ips|;
      seen := RecordRows(q, ips[..i], ips[i..end], seen);
      assert ips[..end] == ips[..i] + ips[i..end];
      i := end;
    }
    assert ips[..|ips|] == ips;
  }

  // ----- the gate -----

  /** The state the gate reads: active rules, geolocation cache, approval mode and queue. */
  datatype Gate = Gate(rules: seq<Rule>, cache: map<string, Geo>, required: bool, queue: seq<QueueRow>)

  predicate Whitelisted(g: Gate, inNet: InNetwork, ip: string) {
    var geo := if ip != "" && ip in g.cache then g.cache[ip] else Geo("", "");
    exists i :: 0 <= i < |g.rules| && RuleMatches(g.rules[i], ip, geo.asn, geo.country, inNet)
  }

  function NotWhitelisted(g: Gate, inNet: InNetwork): Decision -> bool {
    (d: Decision) => !Whitelisted(g, inNet, d.value)
  }

  function ApprovedIn(q: seq<QueueRow>): Decision -> bool {
    (d: Decision) => IsApproved(q, d.value)
  }

  /** The decisions that survive both gates, in order. */
  function Gated(g: Gate, inNet: InNetwork, rows: seq<Decision>): seq<Decision> {
    var out := Filter(rows, NotWhitelisted(g, inNet));
    if g.required then Filter(out, ApprovedIn(g.queue)) else out
  }

  function NextId(q: seq<QueueRow>): nat {
    if q == [] then 1 else q[|q| - 1].id + 1
  }

  /** Queue a pending row for every candidate whose address had no row when the pass began. */
  function QueueAll(q: seq<QueueRow>, before: seq<QueueRow>, ds: seq<Decision>): seq<QueueRow> {
    if ds == [] then q
    else
      var n := |ds| - 1;
      var r := QueueAll(q, before, ds[..n]);
      if HasRow(before, ds[n].value) then r
      else r + [QueueRow(NextId(r), ds[n].value, Pending, ds[n].lapiId)]
  }

  function ValueOf(d: Decision): string {
    d.value
  }

  function NonEmpty(): string -> bool {
    (ip: string) => ip != ""
  }

  /** One decision's check, against the maps fetched up front. */
  method IsWhitelisted(g: Gate, inNet: InNetwork, ghost ips: seq<string>, ip: string,
                       asnOf: map<string, string>, countryOf: map<string, string>) returns (hit: bool)
    requires (ip in ips <==> ip != "") && asnOf == AsnMap(ips, g.cache) && countryOf == CountryMap(ips, g.cache)
    ensures hit <==> Whitelisted(g, inNet, ip)
  {
    hide RuleMatches;
    var asn := if ip in asnOf then asnOf[ip] else "";
    var country := if ip in countryOf then countryOf[ip] else "";
    var rule := MatchesWhitelist(g.rules, ip, asn, country, inNet);
    hit := rule.Some?;
  }

  method DropWhitelisted(g: Gate, inNet: InNetwork, rows: seq<Decision>) returns (out: seq<Decision>)
    ensures out == Filter(rows, NotWhitelisted(g, inNet))
  {
    hide Whitelisted, AsnMap, CountryMap, Filter;
    FilterEmpty(NotWhitelisted(g, inNet));
    var ips := Filter(Map(rows, ValueOf), NonEmpty());
    FilterExact(Map(rows, ValueOf), NonEmpty());
    var asnOf, countryOf := LookupGeo(ips, g.cache);
    out := [];
    for i := 0 to |rows|
      invariant out == Filter(rows[..i], NotWhitelisted(g, inNet))
    {
      FilterAppend(rows[..i], rows[i], NotWhitelisted(g, inNet));
      assert rows[..i + 1] == rows[..i] + [rows[i]];
      assert Map(rows, ValueOf)[i] == rows[i].value;
      var hit := IsWhitelisted(g, inNet, ips, rows[i].value, asnOf, countryOf);
      if !hit { out := out + [rows[i]]; }
    }
    assert rows[..|rows|] == rows;
  }

  method QueueNewcomers(q: seq<QueueRow>, ds: seq<Decision>) returns (queue: seq<QueueRow>)
    ensures queue == QueueAll(q, q, ds)
  {
    var seen := LookupStatus(q, Map(ds, ValueOf));
    queue := q;
    for i := 0 to |ds|
      invariant queue == QueueAll(q, q, ds[..i])
    {
      assert ds[..i + 1][..i] == ds[..i];
      var d := ds[i];
      assert Map(ds, ValueOf)[i] == d.value;
      assert d.value in seen <==> HasRow(q, d.value);
      if !IsApproved(q, d.value) && d.value !in seen {
        queue := queue + [QueueRow(NextId(queue), d.value, Pending, d.lapiId)];
      }
    }
    assert ds[..|ds|] == ds;
  }

  /** `_desired_from_db` after the grouped query: both gates and the queueing of newcomers. */
  method DesiredFromDb(g: Gate, inNet: InNetwork, rows: seq<Decision>)
    returns (out: seq<Decision>, queue: seq<QueueRow>)
    ensures out == Gated(g, inNet, rows)
    ensures queue == if g.required then QueueAll(g.queue, g.queue, Filter(rows, NotWhitelisted(g, inNet))) else g.queue
  {
    out := DropWhitelisted(g, inNet, rows);
    queue := g.queue;
    if g.required {
      queue := QueueNewcomers(g.queue, out);
      out := Filter(out, ApprovedIn(g.queue));
    }
  }

  lemma {:induction false} QueueAllExtends(q: seq<QueueRow>, ds: seq<Decision>)
    requires ValidQueue(q)
    ensures var r := QueueAll(q, q, ds);
            && ValidQueue(r) && q <= r && forall i :: |q| <= i < |r| ==> r[i].status == Pending
  {
    hide HasRow;
    if ds != [] { QueueAllExtends(q, ds[..|ds| - 1]); }
  }

  lemma {:induction false} QueueAllCovers(q: seq<QueueRow>, ds: seq<Decision>, k: nat)
    requires ValidQueue(q) && k < |ds|
    ensures HasRow(QueueAll(q, q, ds), ds[k].value)
  {
    var n := |ds| - 1;
    var r0, r := QueueAll(q, q, ds[..n]), QueueAll(q, q, ds);
    QueueAllExtends(q, ds);
    if k < n {
      QueueAllCovers(q, ds[..n], k);
      var i :| 0 <= i < |r0| && r0[i].ip == ds[k].value;
      assert r[i] == r0[i];
    } else if HasRow(q, ds[k].value) {
      var i :| 0 <= i < |q| && q[i].ip == ds[k].value;
      assert r[i] == q[i];
    } else {
      assert r[|r| - 1].ip == ds[k].value;
    }
  }

  /** Queueing keeps ids ascending, approves nobody, and gives every candidate a row. */
  lemma QueueAllExact(q: seq<QueueRow>, ds: seq<Decision>)
    requires ValidQueue(q)
    ensures var r := QueueAll(q, q, ds);
            && ValidQueue(r) && q <= r
            && (forall ip :: IsApproved(r, ip) <==> IsApproved(q, ip))
            && (forall d :: d in ds ==> HasRow(r, d.value))
  {
    var r := QueueAll(q, q, ds);
    QueueAllExtends(q, ds);
    forall ip | IsApproved(q, ip) ensures IsApproved(r, ip) {
      var i :| 0 <= i < |q| && q[i].ip == ip && q[i].status == Approved;
      assert r[i] == q[i];
    }
    forall d | d in ds ensures HasRow(r, d.value) {
      var k :| 0 <= k < |ds| && ds[k] == d;
      QueueAllCovers(q, ds, k);
    }
  }

  lemma {:induction false} QueueNothing(q: seq<QueueRow>, before: seq<QueueRow>, ds: seq<Decision>)
    requires forall d :: d in ds ==> HasRow(before, d.value)
    ensures QueueAll(q, before, ds) == q
  {
    if ds != [] {
      assert ds[|ds| - 1] in ds && forall d :: d in ds[..|ds| - 1] ==> d in ds;
      QueueNothing(q, before, ds[..|ds| - 1]);
    }
  }

  /** A second pass over the same candidates queues nothing more. */
  lemma QueueSettles(q: seq<QueueRow>, ds: seq<Decision>)
    requires ValidQueue(q)
    ensures var r := QueueAll(q, q, ds); QueueAll(r, r, ds) == r
  {
    QueueAllExact(q, ds);
    QueueNothing(QueueAll(q, q, ds), QueueAll(q, q, ds), ds);
  }

  // ----- what reaches a firewall -----

  /** The decision may be pushed. */
  ghost predicate Cleared(g: Gate, inNet: InNetwork, d: Decision) {
    !Whitelisted(g, inNet, d.value) && (g.required ==> IsApproved(g.queue, d.value))
  }

  lemma GatedExact(g: Gate, inNet: InNetwork, rows: seq<Decision>)
    ensures forall d :: d in Gated(g, inNet, rows) <==> d in rows && Cleared(g, inNet, d)
  {
    hide Whitelisted, IsApproved;
    var out := Filter(rows, NotWhitelisted(g, inNet));
    FilterExact(rows, NotWhitelisted(g, inNet));
    FilterExact(out, ApprovedIn(g.queue));
  }

  /** Every address any target is told to add comes from a mirrored decision that no active
      whitelist rule matches and that, in approval mode, has an approved row. */
  lemma GatedPush(g: Gate, inNet: InNetwork, rows: seq<Decision>, cfg: Config, glob: Glob, es: seq<Entry>, i: nat)
    requires i < |DiffOf(FilterDesired(cfg, glob, Gated(g, inNet, rows)), es).toAdd|
    ensures var (address, comment) := DiffOf(FilterDesired(cfg, glob, Gated(g, inNet, rows)), es).toAdd[i];
            exists d :: d in rows && Cleared(g, inNet, d) && Trim(d.value) == address && comment == EncodeComment(d)
  {
    hide Whitelisted, IsApproved, Normalize, EncodeComment, Trim, Gated, FilterDesired;
    var out := Gated(g, inNet, rows);
    var ds := FilterDesired(cfg, glob, out);
    AddsExact(ds, es);
    var v := AddKeys(ds, es)[i];
    var j :| FirstAt(ds, WantedKey, v, j) && DiffOf(ds, es).toAdd[i].1 == EncodeComment(ds[j]);
    var _ := FilterExactly(cfg, glob, out);
    GatedExact(g, inNet, rows);
    assert ds[j] in ds && ds[j] in out;
  }

  // ----- what each kind of rule drops -----

  lemma UpperIgnoresCase(s: string, t: string)
    ensures Upper(s) == Upper(t) <==> EqualButCase(s, t)
  {
    if Upper(s) == Upper(t) {
      forall i | 0 <= i < |s| ensures SameLetter(s[i], t[i]) { assert Upper(s)[i] == Upper(t)[i]; }
    }
    if EqualButCase(s, t) {
      forall i | 0 <= i < |s| ensures Upper(s)[i] == Upper(t)[i] { assert SameLetter(s[i], t[i]); }
    }
  }

  /** The gate with a single whitelist rule and no approval mode. */
  function OneRule(kind: Kind, value: string, cache: map<string, Geo>): Gate {
    Gate([Rule(0, kind, value)], cache, false, [])
  }

  lemma OneRuleExact(kind: Kind, value: string, cache: map<string, Geo>, inNet: InNetwork, rows: seq<Decision>, d: Decision)
    ensures d in Gated(OneRule(kind, value, cache), inNet, rows) <==>
            d in rows && !Whitelisted(OneRule(kind, value, cache), inNet, d.value)
    ensures var geo := if d.value != "" && d.value in cache then cache[d.value] else Geo("", "");
            Whitelisted(OneRule(kind, value, cache), inNet, d.value) <==>
            RuleMatches(Rule(0, kind, value), d.value, geo.asn, geo.country, inNet)
  {
    hide RuleMatches, Gated;
    var g := OneRule(kind, value, cache);
    GatedExact(g, inNet, rows);
    assert g.rules[0] == Rule(0, kind, value);
  }

  /** An address rule drops exactly the decisions for that address. */
  lemma IpRuleDrops(value: string, cache: map<string, Geo>, inNet: InNetwork, rows: seq<Decision>, d: Decision)
    ensures d in Gated(OneRule(IpRule, value, cache), inNet, rows) <==> d in rows && d.value != value
  {
    hide Gated;
    OneRuleExact(IpRule, value, cache, inNet, rows, d);
  }

  /** A network rule drops exactly the decisions whose address lies in the network. */
  lemma CidrRuleDrops(value: string, cache: map<string, Geo>, inNet: InNetwork, rows: seq<Decision>, d: Decision)
    ensures d in Gated(OneRule(CidrRule, value, cache), inNet, rows) <==> d in rows && !inNet(d.value, value)
  {
    hide Gated;
    OneRuleExact(CidrRule, value, cache, inNet, rows, d);
  }

  /** An ASN rule drops exactly the decisions whose cached ASN is known and is that one, up to case. */
  lemma AsnRuleDrops(value: string, cache: map<string, Geo>, inNet: InNetwork, rows: seq<Decision>, d: Decision)
    ensures d in Gated(OneRule(AsnRule, value, cache), inNet, rows) <==>
            && d in rows
            && !(d.value != "" && d.value in cache && cache[d.value].asn != "" && EqualButCase(value, cache[d.value].asn))
  {
    hide Gated, Upper, EqualButCase;
    OneRuleExact(AsnRule, value, cache, inNet, rows, d);
    if d.value in cache { UpperIgnoresCase(value, cache[d.value].asn); }
  }

  /** A country rule drops exactly the decisions whose cached country is known and is that one. */
  lemma CountryRuleDrops(value: string, cache: map<string, Geo>, inNet: InNetwork, rows: seq<Decision>, d: Decision)
    ensures d in Gated(OneRule(CountryRule, value, cache), inNet, rows) <==>
            && d in rows
            && !(d.value != "" && d.value in cache && cache[d.value].country != "" && EqualButCase(value, cache[d.value].country))
  {
    hide Gated, Upper, EqualButCase;
    OneRuleExact(CountryRule, value, cache, inNet, rows, d);
    if d.value in cache { UpperIgnoresCase(value, cache[d.value].country); }
  }

  /** A rule of a kind the gate does not know drops nothing. */
  lemma OtherRuleDrops(value: string, cache: map<string, Geo>, inNet: InNetwork, rows: seq<Decision>, d: Decision)
    ensures d in Gated(OneRule(OtherRule, value, cache), inNet, rows) <==> d in rows
  {
    hide Gated;
    OneRuleExact(OtherRule, value, cache, inNet, rows, d);
  }

  /** The cache with every ASN, or every country, as `f` has it. */
  function WithAsn(cache: map<string, Geo>, f: string -> string): map<string, Geo> {
    map ip | ip in cache :: Geo(f(ip), cache[ip].country)
  }

  function WithCountry(cache: map<string, Geo>, f: string -> string): map<string, Geo> {
    map ip | ip in cache :: Geo(cache[ip].asn, f(ip))
  }

  /** A country rule does not look at the ASN, an ASN rule not at the country, and the others at
      neither. */
  lemma RulesLookAtOneField(
    value: string, cache: map<string, Geo>, f: string -> string, inNet: InNetwork, rows: seq<Decision>, d: Decision)
    ensures d in Gated(OneRule(CountryRule, value, WithAsn(cache, f)), inNet, rows) <==>
            d in Gated(OneRule(CountryRule, value, cache), inNet, rows)
    ensures d in Gated(OneRule(AsnRule, value, WithCountry(cache, f)), inNet, rows) <==>
            d in Gated(OneRule(AsnRule, value, cache), inNet, rows)
    ensures d in Gated(OneRule(IpRule, value, map[]), inNet, rows) <==>
            d in Gated(OneRule(IpRule, value, cache), inNet, rows)
    ensures d in Gated(OneRule(CidrRule, value, map[]), inNet, rows) <==>
            d in Gated(OneRule(CidrRule, value, cache), inNet, rows)
  {
    hide Gated, EqualButCase;
    CountryRuleDrops(value, cache, inNet, rows, d);
    CountryRuleDrops(value, WithAsn(cache, f), inNet, rows, d);
    AsnRuleDrops(value, cache, inNet, rows, d);
    AsnRuleDrops(value, WithCountry(cache, f), inNet, rows, d);
    IpRuleDrops(value, cache, inNet, rows, d);
    IpRuleDrops(value, map[], inNet, rows, d);
    CidrRuleDrops(value, cache, inNet, rows, d);
    CidrRuleDrops(value, map[], inNet, rows, d);
  }

  /** A gate with several rules drops exactly what one of them alone drops. */
  lemma ManyRulesDrop(rules: seq<Rule>, cache: map<string, Geo>, inNet: InNetwork, rows: seq<Decision>, d: Decision)
    ensures d in Gated(Gate(rules, cache, false, []), inNet, rows) <==>
            && d in rows
            && forall i :: 0 <= i < |rules| ==> d in Gated(OneRule(rules[i].kind, rules[i].value, cache), inNet, rows)
  {
    hide Gated, Upper;
    var g := Gate(rules, cache, false, []);
    GatedExact(g, inNet, rows);
    forall i | 0 <= i < |rules|
      ensures d in Gated(OneRule(rules[i].kind, rules[i].value, cache), inNet, rows) <==>
              d in rows && !Whitelisted(OneRule(rules[i].kind, rules[i].value, cache), inNet, d.value)
    {
      OneRuleExact(rules[i].kind, rules[i].value, cache, inNet, rows, d);
    }
    OneOfMany(rules, cache, inNet, d.value);
  }

  lemma OneOfMany(rules: seq<Rule>, cache: map<string, Geo>, inNet: InNetwork, ip: string)
    ensures Whitelisted(Gate(rules, cache, false, []), inNet, ip) <==>
            exists i :: 0 <= i < |rules| && Whitelisted(OneRule(rules[i].kind, rules[i].value, cache), inNet, ip)
  {
    hide Upper;
    var geo := if ip != "" && ip in cache then cache[ip] else Geo("", "");
    forall i | 0 <= i < |rules|
      ensures Whitelisted(OneRule(rules[i].kind, rules[i].value, cache), inNet, ip) <==>
              RuleMatches(rules[i], ip, geo.asn, geo.country, inNet)
    {
      var one := OneRule(rules[i].kind, rules[i].value, cache);
      assert one.rules[0].kind == rules[i].kind && one.rules[0].value == rules[i].value;
      assert Whitelisted(one, inNet, ip) <==> RuleMatches(one.rules[0], ip, geo.asn, geo.country, inNet);
    }
  }

  /** In approval mode a decision that no rule drops passes exactly when some queue row for its
      address has been approved; without approval mode it always passes. */
  lemma ApprovalExactly(g: Gate, inNet: InNetwork, rows: seq<Decision>, d: Decision)
    ensures d in Gated(g, inNet, rows) <==>
            && d in Gated(Gate(g.rules, g.cache, false, []), inNet, rows)
            && (g.required ==> exists q :: q in g.queue && q.ip == d.value && q.status == Approved)
  {
    hide Gated, RuleMatches;
    var open := Gate(g.rules, g.cache, false, []);
    GatedExact(g, inNet, rows);
    GatedExact(open, inNet, rows);
    assert Whitelisted(g, inNet, d.value) <==> Whitelisted(open, inNet, d.value);
    if IsApproved(g.queue, d.value) {
      var i :| 0 <= i < |g.queue| && g.queue[i].ip == d.value && g.queue[i].status == Approved;
      assert g.queue[i] in g.queue;
    }
  }

  /** What queueing adds: pending rows, for candidates without a row, with their LAPI ids. */
  lemma {:induction false} QueuedRows(q: seq<QueueRow>, ds: seq<Decision>, i: nat)
    requires ValidQueue(q) && |q| <= i < |QueueAll(q, q, ds)|
    ensures var r := QueueAll(q, q, ds)[i];
            && r.status == Pending
            && exists d :: d in ds && d.value == r.ip && d.lapiId == r.decisionId && forall p :: p in q ==> p.ip != r.ip
  {
    var n := |ds| - 1;
    var before := QueueAll(q, q, ds[..n]);
    QueueAllExtends(q, ds[..n]);
    if i < |before| {
      QueuedRows(q, ds[..n], i);
      assert forall d :: d in ds[..n] ==> d in ds;
    } else {
      assert ds[n] in ds && !HasRow(q, ds[n].value);
      forall p | p in q ensures p.ip != ds[n].value {
        var k :| 0 <= k < |q| && q[k] == p;
      }
    }
  }
}
