/** The ownership marker Protek writes on every firewall entry it creates, and the
    normal form under which it compares addresses (reconcile.py). */
module Ownership {
  import opened Text

  const OWNER_PREFIX: string := "protek:"

  /** One row of the desired list. A missing or empty text field is the empty string. */
  datatype Decision = Decision(
    value: string, scope: string, scenario: string, origin: string, originSource: string, lapiId: int)

  /** What an ownership comment carries. */
  datatype Marker = Marker(source: string, scenario: string, lapiId: string)

  function Underscored(s: string): (r: string)
    ensures |r| == |s| && ':' !in r
  {
    seq(|s|, i requires 0 <= i < |s| => if s[i] == ':' then '_' else s[i])
  }

  function Sanitize(s: string): (r: string)
    ensures ':' !in r
  {
    Trim(Underscored(s))
  }

  function Digits(n: nat): (s: string)
    ensures s != [] && forall c :: c in s ==> '0' <= c <= '9'
  {
    var d := [(n % 10) as char + '0'];
    if n < 10 then d else Digits(n / 10) + d
  }

  function Decimal(n: int): string {
    if n < 0 then "-" + Digits(-n) else Digits(n)
  }

  /** The three fields of a decision as they are stored in its comment. */
  function MarkerOf(d: Decision): Marker {
    Marker(Sanitize(if d.originSource == "" then "local" else d.originSource),
           Sanitize(d.scenario),
           Sanitize(Decimal(d.lapiId)))
  }

  function EncodeComment(d: Decision): string {
    OWNER_PREFIX + EncodeBody(MarkerOf(d))
  }

  predicate IsOwned(comment: string) {
    OWNER_PREFIX <= comment
  }

  /** Position of the first colon, or the length when there is none. */
  function ColonAt(s: string): (i: nat)
    ensures i <= |s| && ':' !in s[..i]
    ensures i < |s| ==> s[i] == ':'
  {
    if s == [] || s[0] == ':' then 0 else 1 + ColonAt(s[1..])
  }

  /** Text before the first colon, and text after it (empty when there is none). */
  function CutAtColon(s: string): (string, string) {
    var i := ColonAt(s);
    (s[..i], if i < |s| then s[i + 1..] else "")
  }

  function DecodeBody(body: string): Marker {
    var (source, rest) := CutAtColon(body);
    var (scenario, lapiId) := CutAtColon(rest);
    Marker(source, scenario, lapiId)
  }

  function DecodeComment(comment: string): Option<Marker> {
    if IsOwned(comment) then Some(DecodeBody(comment[|OWNER_PREFIX|..])) else None
  }

  lemma {:induction false} CutJoined(a: string, b: string)
    requires ':' !in a
    ensures ColonAt(a + ":" + b) == |a|
    ensures CutAtColon(a + ":" + b) == (a, b)
  {
    var s := a + ":" + b;
    if a != [] {
      assert a[0] in a && s[1..] == a[1..] + ":" + b;
      CutJoined(a[1..], b);
    }
    assert s[..|a|] == a && s[|a| + 1..] == b;
  }

  function EncodeBody(m: Marker): string {
    m.source + ":" + (m.scenario + ":" + m.lapiId)
  }

  lemma BodyRoundTrip(m: Marker)
    requires ':' !in m.source && ':' !in m.scenario
    ensures DecodeBody(EncodeBody(m)) == m
  {
    CutJoined(m.source, m.scenario + ":" + m.lapiId);
    CutJoined(m.scenario, m.lapiId);
  }

  /** Decoding a comment Protek wrote gives back exactly the sanitised fields, and the
      comment is recognised as owned. */
  lemma CommentRoundTrip(d: Decision)
    ensures IsOwned(EncodeComment(d))
    ensures DecodeComment(EncodeComment(d)) == Some(MarkerOf(d))
  {
    BodyRoundTrip(MarkerOf(d));
    assert EncodeComment(d)[|OWNER_PREFIX|..] == EncodeBody(MarkerOf(d));
  }

  lemma {:induction false} DigitsInjective(a: nat, b: nat)
    requires Digits(a) == Digits(b)
    ensures a == b
  {
    var s, t := Digits(a), Digits(b);
    assert s[|s| - 1] == t[|t| - 1];
    assert a < 10 <==> |s| == 1;
    assert b < 10 <==> |t| == 1;
    if a >= 10 {
      assert s[..|s| - 1] == Digits(a / 10) && t[..|t| - 1] == Digits(b / 10);
      DigitsInjective(a / 10, b / 10);
    }
  }

  lemma DecimalInjective(a: int, b: int)
    requires Decimal(a) == Decimal(b)
    ensures a == b
  {
    forall n: int ensures n < 0 <==> Decimal(n)[0] == '-' {
      if n >= 0 { assert Digits(n)[0] in Digits(n); }
    }
    if a < 0 {
      assert Decimal(a)[1..] == Digits(-a) && Decimal(b)[1..] == Digits(-b);
      DigitsInjective(-a, -b);
    } else {
      DigitsInjective(a, b);
    }
  }

  lemma MarkerId(d: Decision)
    ensures MarkerOf(d).lapiId == Decimal(d.lapiId)
  {
    var s := Decimal(d.lapiId);
    assert forall c :: c in s ==> c != ':' && !IsSpace(c);
    assert forall i :: 0 <= i < |s| ==> s[i] in s;
    assert Underscored(s) == s;
  }

  /** Two decisions get the same comment exactly when they have the same sanitised source
      and scenario and the same LAPI id. */
  lemma CommentInjective(a: Decision, b: Decision)
    ensures EncodeComment(a) == EncodeComment(b) <==>
              MarkerOf(a).source == MarkerOf(b).source
              && MarkerOf(a).scenario == MarkerOf(b).scenario && a.lapiId == b.lapiId
  {
    var ma, mb := MarkerOf(a), MarkerOf(b);
    assert ma.lapiId == mb.lapiId <==> a.lapiId == b.lapiId by {
      MarkerId(a);
      MarkerId(b);
      if Decimal(a.lapiId) == Decimal(b.lapiId) { DecimalInjective(a.lapiId, b.lapiId); }
    }
    assert EncodeComment(a) == EncodeComment(b) ==> ma == mb by {
      CommentRoundTrip(a);
      CommentRoundTrip(b);
    }
  }

  /** Drop `/32`, then `/128`, whatever the address family. */
  function DropHostLength(a: string): string {
    DropSuffix(DropSuffix(a, "/32"), "/128")
  }

  /** `_normalize_addr`: strip, lower-case, then drop the host prefix lengths. */
  function Normalize(addr: string): string {
    DropHostLength(Lower(Trim(addr)))
  }

  /** The family-aware reading: `/32` names a single host only in IPv4 (section 3.1 of
      RFC 4632), `/128` only in IPv6 (section 2.3 of RFC 4291). */
  function Canonical(a: string): string {
    if ':' in a then DropSuffix(a, "/128") else DropSuffix(a, "/32")
  }

  /** The normal form is the family-aware one exactly when no suffix of the other family was
      dropped: an IPv6 text does not end in `/32`, and an IPv4 text does not end in `/128` once its
      own `/32` is gone. */
  lemma NormalizeExact(addr: string)
    ensures var a := Lower(Trim(addr));
            Normalize(addr) == Canonical(a) <==>
              if ':' in a then !EndsWith(a, "/32") else !EndsWith(DropSuffix(a, "/32"), "/128")
  {
    var a := Lower(Trim(addr));
    var b := DropSuffix(a, "/32");
    assert EndsWith(b, "/128") ==> |DropSuffix(b, "/128")| == |b| - 4;
    if ':' in a && EndsWith(a, "/32") {
      assert a[|a| - 2] == '3';
      assert a[|a| - 2] != "/128"[2];
      assert Canonical(a) == a;
    }
  }

  lemma TrimAppended(host: string)
    requires Trim(host) == host != ""
    ensures Trim(host + "/32") == host + "/32"
  {
    TrimmedEnds(host);
    var a := host + "/32";
    assert a[0] == host[0] && a[|a| - 1] == '2';
  }

  lemma TrimmedEnds(s: string)
    requires Trim(s) == s != ""
    ensures !IsSpace(s[0])
  {
    hide IsSpace;
    var rest := TrimLeft(s[1..]);
  }

  /** An IPv6 network of prefix length 32 and its base address share a normal form although one is
      a network and the other a single host: true of every base address. */
  lemma NormalizeConflatesNetworks(host: string)
    requires Trim(host) == host != "" && ':' in host && '/' !in host
    ensures Normalize(host + "/32") == Normalize(host)
    ensures Canonical(Lower(host + "/32")) != Canonical(Lower(host))
  {
    hide Trim, LowerChar, DropHostLength, Canonical;
    var low := Lower(host);
    TrimAppended(host);
    assert Lower(host + "/32") == low + "/32" by { LowerSuffix(host); }
    LowerKeeps(host);
    AppendedSuffix(low);
    NetworkIsNotHost(low);
  }

  lemma LowerSuffix(s: string)
    ensures Lower(s + "/32") == Lower(s) + "/32"
  {
    assert Lower(s + "/32")[|s|..] == "/32";
    assert forall i :: 0 <= i < |s| ==> Lower(s + "/32")[i] == Lower(s)[i];
  }

  lemma NetworkIsNotHost(host: string)
    requires ':' in host && '/' !in host
    ensures Canonical(host + "/32") != Canonical(host)
  {
    var a := host + "/32";
    NoSlashNoSuffix(host);
    assert ':' in a && a[|a| - 2] == '3';
    assert Canonical(a) == a && Canonical(host) == host;
  }

  lemma LowerKeeps(s: string)
    ensures '/' !in s ==> '/' !in Lower(s)
    ensures ':' in s ==> ':' in Lower(s)
  {
    forall i | 0 <= i < |s| ensures (s[i] != '/' ==> Lower(s)[i] != '/') && (s[i] == ':' ==> Lower(s)[i] == ':') {}
    if i :| 0 <= i < |s| && s[i] == ':' { assert Lower(s)[i] == ':'; }
  }

  lemma NoSlashNoSuffix(s: string)
    requires '/' !in s
    ensures !EndsWith(s, "/32") && !EndsWith(s, "/128")
  {
    assert |s| >= 3 ==> s[|s| - 3] in s;
    assert |s| >= 4 ==> s[|s| - 4] in s;
  }

  lemma AppendedSuffix(host: string)
    requires '/' !in host
    ensures DropHostLength(host + "/32") == host && DropHostLength(host) == host
  {
    var a := host + "/32";
    assert a[|host|..] == "/32" && a[..|host|] == host;
    NoSlashNoSuffix(host);
  }

  // ----- what stands in a comment -----

  /** `t` is `s` with every colon turned into an underscore. */
  predicate ColonsReplaced(s: string, t: string) {
    |s| == |t| && forall i :: 0 <= i < |s| ==> t[i] == if s[i] == ':' then '_' else s[i]
  }

  /** `t` is `s` without surrounding white space and with every colon turned into an underscore. */
  ghost predicate Cleaned(s: string, t: string) {
    IsTight(t) && exists before, after :: Padding(s, before, t, after)
  }

  ghost predicate Padding(s: string, before: string, t: string, after: string) {
    AllSpace(before) && AllSpace(after) && ColonsReplaced(s, before + t + after)
  }

  lemma SanitizeExact(s: string, t: string)
    requires Cleaned(s, t)
    ensures Sanitize(s) == t
  {
    hide IsSpace, Trim, IsTight, AllSpace;
    var before, after :| Padding(s, before, t, after);
    assert Underscored(s) == before + t + after;
    if t == "" {
      assert AllSpace(before + t + after) by { SpacesJoin(before, after); }
      TrimIsTight(before + t + after);
    } else {
      TrimUndoesPadding(before, t, after);
    }
  }

  lemma SpacesJoin(a: string, b: string)
    requires AllSpace(a) && AllSpace(b)
    ensures AllSpace(a + "" + b)
  {
    hide IsSpace;
  }

  lemma TightIsTrimmed(t: string)
    requires IsTight(t)
    ensures Trim(t) == t
  {
    hide IsSpace, Trim;
    if t == "" {
      TrimIsTight(t);
    } else {
      TrimUndoesPadding("", t, "");
      assert "" + t + "" == t;
    }
  }

  function DigitValue(c: char): int { c as int - '0' as int }

  /** The number a text of decimal digits denotes. */
  function NumberOf(s: string): int {
    if s == [] then 0 else 10 * NumberOf(s[..|s| - 1]) + DigitValue(s[|s| - 1])
  }

  lemma {:induction false} DigitsDenote(n: nat)
    ensures NumberOf(Digits(n)) == n && (Digits(n)[0] == '0' ==> n == 0)
  {
    var s := Digits(n);
    if n < 10 {
      assert s[..0] == [];
    } else {
      DigitsDenote(n / 10);
      assert s[..|s| - 1] == Digits(n / 10) && s[0] == Digits(n / 10)[0];
    }
  }

  /** The text of an id: its digits, behind a minus sign if it is negative. */
  ghost predicate Denotes(s: string, n: int) {
    && s != [] && (n < 0 <==> s[0] == '-')
    && NumberOf(if n < 0 then s[1..] else s) == if n < 0 then -n else n
  }

  lemma DecimalDenotes(n: int)
    ensures Denotes(Decimal(n), n)
  {
    if n < 0 {
      DigitsDenote(-n);
      assert Decimal(n)[1..] == Digits(-n);
    } else {
      DigitsDenote(n);
      assert Digits(n)[0] in Digits(n);
    }
  }

  /** The comment of a decision: the marker, its source (`local` if it has none), its scenario and its
      id, in this order, colons replaced. */
  lemma CommentText(d: Decision, source: string, scenario: string) returns (id: string)
    requires Cleaned(if d.originSource == "" then "local" else d.originSource, source) && Cleaned(d.scenario, scenario)
    ensures Denotes(id, d.lapiId)
    ensures EncodeComment(d) == "protek:" + (source + ":" + (scenario + ":" + id))
  {
    hide IsSpace, Trim, Sanitize, Cleaned;
    id := Decimal(d.lapiId);
    DecimalDenotes(d.lapiId);
    MarkerId(d);
    SanitizeExact(if d.originSource == "" then "local" else d.originSource, source);
    SanitizeExact(d.scenario, scenario);
  }

  /** A comment is Protek's exactly when it starts with the marker, whatever follows. */
  lemma OwnedExactly(comment: string)
    ensures IsOwned(comment) <==> exists rest :: comment == "protek:" + rest
  {
    if IsOwned(comment) { assert comment == "protek:" + comment[7..]; }
  }

  /** Missing parts of an owned comment are read as empty; extra colons belong to the last part. */
  lemma DecodeParts(a: string, b: string, c: string)
    requires ':' !in a && ':' !in b
    ensures DecodeComment("protek:" + a) == Some(Marker(a, "", ""))
    ensures DecodeComment("protek:" + (a + ":" + b)) == Some(Marker(a, b, ""))
    ensures DecodeComment("protek:" + (a + ":" + (b + ":" + c))) == Some(Marker(a, b, c))
  {
    hide CutAtColon;
    DecodesAfterMarker(a);
    DecodesAfterMarker(a + ":" + b);
    DecodesAfterMarker(a + ":" + (b + ":" + c));
    CutWhole(a);
    CutWhole(b);
    CutWhole("");
    CutJoined(a, b);
    CutJoined(a, b + ":" + c);
    CutJoined(b, c);
  }

  lemma DecodesAfterMarker(body: string)
    ensures DecodeComment("protek:" + body) == Some(DecodeBody(body))
  {
    hide DecodeBody;
    assert ("protek:" + body)[7..] == body;
  }

  lemma {:induction false} CutWhole(a: string)
    requires ':' !in a
    ensures CutAtColon(a) == (a, "")
  {
    var i := ColonAt(a);
    assert a[..|a|] == a;
  }

  /** Case and surrounding white space do not matter to the normal form. */
  lemma NormalizeIgnores(before: string, a: string, after: string, b: string)
    requires AllSpace(before) && AllSpace(after) && IsTight(a) && IsTight(b) && a != "" && EqualButCase(a, b)
    ensures Normalize(before + a + after) == Normalize(b)
  {
    hide IsSpace, Trim, DropHostLength, IsTight, AllSpace, SameLetter;
    TrimUndoesPadding(before, a, after);
    TightIsTrimmed(b);
    LowerIgnoresCase(a, b);
  }
}
