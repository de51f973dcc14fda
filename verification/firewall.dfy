/** Is the router dropping what is pushed to the list? A static look at its firewall rules, and
    the first-match semantics that look is judged against (blocking.py). */
module Firewall {
  import opened Text
  import opened Ordered

  /** A rule as the router prints it: its properties, by name. */
  type Rule = map<string, string>

  datatype Table = Raw | FilterTable

  datatype Direction = Input | Forward

  function Get(r: Rule, k: string): string {
    if k in r then r[k] else ""
  }

  function OrElse(v: string, default: string): string {
    if v == "" then default else v
  }

  predicate Truthy(v: string) {
    Lower(Trim(v)) in ["true", "yes", "1"]
  }

  predicate IsBlockAction(action: string) {
    action in ["drop", "reject", "tarpit"]
  }

  predicate IsIrrelevant(chain: string) {
    chain in ["output", "postrouting"]
  }

  /** Properties that describe a rule; any other property restricts what it matches. */
  predicate IsDescriptive(k: string) {
    k in [".id", "id", ".nextid", ".about", "chain", "action", "disabled", "dynamic",
          "invalid", "comment", "log", "log-prefix", "bytes", "packets",
          "jump-target", "reject-with", "address-list", "address-list-timeout",
          "passthrough", "new-connection-mark", "new-packet-mark", "new-routing-mark",
          "new-dscp", "new-ttl", "new-mss", "new-priority", "to-addresses",
          "to-ports", "route-dst", "hw-offload", "place-before"]
  }

  /** The directions a chain covers when it is one a packet always traverses. */
  function Covers(t: Table, chain: string): set<Direction> {
    match t
    case Raw => if chain == "prerouting" then {Input, Forward} else {}
    case FilterTable => if chain == "input" then {Input} else if chain == "forward" then {Forward} else {}
  }

  function ChainOf(r: Rule): string { Get(r, "chain") }

  predicate IsEnabled(r: Rule) {
    !Truthy(Get(r, "disabled")) && !Truthy(Get(r, "invalid"))
  }

  predicate IsAccept(r: Rule) {
    OrElse(Get(r, "action"), "accept") == "accept"
  }

  predicate IsUnconditionalAccept(r: Rule) {
    IsAccept(r) && IsEnabled(r) && forall k :: k in r ==> IsDescriptive(k)
  }

  predicate DropsList(list: string, r: Rule) {
    Get(r, "src-address-list") == list && IsBlockAction(Get(r, "action"))
  }

  predicate IsReported(list: string, r: Rule) {
    DropsList(list, r) && !IsIrrelevant(ChainOf(r))
  }

  /** A packet entering the rule's chain meets an unconditional accept before this rule. */
  predicate EarlierAccept(rules: seq<Rule>, pos: nat)
    requires pos < |rules|
  {
    exists j :: 0 <= j < pos && ChainOf(rules[j]) == ChainOf(rules[pos]) && IsUnconditionalAccept(rules[j])
  }

  // ----- the analysis -----

  datatype Match = Match(
    table: Table, chain: string, position: nat, action: string, enabled: bool, shadowed: bool, builtin: bool)
  {
    predicate Live() { enabled && !shadowed }
    predicate LiveBuiltin() { enabled && !shadowed && builtin }
  }

  datatype Status = Nothing | Disabled | Shadowed | Unknown | Unverified | Blocking

  datatype Verdict = Verdict(status: Status, matches: seq<Match>, coverage: set<Direction>, customChains: set<string>)

  function ReportAt(t: Table, rules: seq<Rule>, pos: nat): Match
    requires pos < |rules|
  {
    var r := rules[pos];
    Match(t, ChainOf(r), pos, Get(r, "action"), IsEnabled(r), IsEnabled(r) && EarlierAccept(rules, pos),
          Covers(t, ChainOf(r)) != {})
  }

  /** The list-dropping rules of a table, in rule order. */
  function Reports(list: string, t: Table, rules: seq<Rule>): seq<Match> {
    if rules == [] then []
    else
      var n := |rules| - 1;
      Reports(list, t, rules[..n]) + if IsReported(list, rules[n]) then [ReportAt(t, rules, n)] else []
  }

  /** Rule `pos` is a list-dropping rule and `m` describes it. */
  ghost predicate Describes(list: string, t: Table, rules: seq<Rule>, pos: int, m: Match) {
    0 <= pos < |rules| && IsReported(list, rules[pos]) && m == ReportAt(t, rules, pos)
  }

  lemma EarlierAcceptPrefix(rules: seq<Rule>, n: nat, pos: nat)
    requires pos < n <= |rules|
    ensures EarlierAccept(rules[..n], pos) <==> EarlierAccept(rules, pos)
  {
    hide ChainOf, IsUnconditionalAccept;
    assert forall j :: 0 <= j < n ==> rules[..n][j] == rules[j];
  }

  /** The reports are exactly the descriptions of the list-dropping rules. */
  lemma {:induction false} ReportsExact(list: string, t: Table, rules: seq<Rule>, m: Match)
    ensures m in Reports(list, t, rules) <==> exists pos :: Describes(list, t, rules, pos, m)
  {
    hide ChainOf, IsUnconditionalAccept, IsReported, IsEnabled, EarlierAccept, Covers, Get;
    if rules != [] {
      var n := |rules| - 1;
      var init := rules[..n];
      ReportsExact(list, t, init, m);
      forall pos | 0 <= pos < n ensures Describes(list, t, init, pos, m) <==> Describes(list, t, rules, pos, m) {
        EarlierAcceptPrefix(rules, n, pos);
      }
      assert Describes(list, t, rules, n, m) <==> IsReported(list, rules[n]) && m == ReportAt(t, rules, n);
      if pos :| Describes(list, t, rules, pos, m) {
        assert pos == n || Describes(list, t, init, pos, m);
      }
      if pos :| Describes(list, t, init, pos, m) {
        assert Describes(list, t, rules, pos, m);
      }
    }
  }

  lemma DropIsNotAccept(list: string, r: Rule)
    ensures DropsList(list, r) ==> !IsUnconditionalAccept(r)
  {
    hide IsDescriptive, IsEnabled;
  }

  /** The scan of one table, remembering the chains that already accept everything. */
  method ScanTable(list: string, t: Table, rules: seq<Rule>) returns (found: seq<Match>)
    ensures found == Reports(list, t, rules)
  {
    hide ChainOf, IsUnconditionalAccept, IsEnabled, Covers, Get, IsIrrelevant, IsBlockAction, DropsList;
    found := [];
    var acceptAll: set<string> := {};
    for pos := 0 to |rules|
      invariant found == Reports(list, t, rules[..pos])
      invariant forall c :: c in acceptAll <==>
                  exists j :: 0 <= j < pos && ChainOf(rules[j]) == c && IsUnconditionalAccept(rules[j])
    {
      var r := rules[pos];
      var upTo := rules[..pos + 1];
      assert upTo[..pos] == rules[..pos];
      EarlierAcceptPrefix(rules, pos + 1, pos);
      if DropsList(list, r) {
        DropIsNotAccept(list, r);
        if IsIrrelevant(ChainOf(r)) { continue; }
        found := found + [Match(t, ChainOf(r), pos, Get(r, "action"), IsEnabled(r),
                                IsEnabled(r) && ChainOf(r) in acceptAll, Covers(t, ChainOf(r)) != {})];
      }
      if IsUnconditionalAccept(r) {
        acceptAll := acceptAll + {ChainOf(r)};
      }
    }
    assert rules[..|rules|] == rules;
  }

  function CoverageOf(matches: seq<Match>): set<Direction> {
    set m, d | m in matches && m.LiveBuiltin() && d in Covers(m.table, m.chain) :: d
  }

  function StatusOf(matches: seq<Match>): Status {
    if exists m :: m in matches && m.LiveBuiltin() then Blocking
    else if exists m :: m in matches && m.Live() then Unverified
    else if exists m :: m in matches && m.enabled then Shadowed
    else if matches != [] then Disabled
    else Nothing
  }

  function Family(list: string, raw: seq<Rule>, filter: seq<Rule>): Verdict {
    var ms := Reports(list, Raw, raw) + Reports(list, FilterTable, filter);
    Verdict(StatusOf(ms), ms, CoverageOf(ms), set m | m in ms && m.Live() && !m.builtin :: m.chain)
  }

  method AnalyzeFamily(list: string, raw: seq<Rule>, filter: seq<Rule>) returns (v: Verdict)
    ensures v == Family(list, raw, filter)
  {
    hide Covers, Reports;
    var a := ScanTable(list, Raw, raw);
    var b := ScanTable(list, FilterTable, filter);
    var ms := a + b;
    var coverage, custom: set<string>, live, liveBuiltin, enabled := {}, {}, false, false, false;
    for i := 0 to |ms|
      invariant coverage == CoverageOf(ms[..i])
      invariant custom == set m | m in ms[..i] && m.Live() && !m.builtin :: m.chain
      invariant liveBuiltin <==> exists m :: m in ms[..i] && m.LiveBuiltin()
      invariant live <==> exists m :: m in ms[..i] && m.Live()
      invariant enabled <==> exists m :: m in ms[..i] && m.enabled
    {
      assert ms[..i + 1] == ms[..i] + [ms[i]];
      var m := ms[i];
      enabled := enabled || m.enabled;
      live := live || m.Live();
      liveBuiltin := liveBuiltin || m.LiveBuiltin();
      if m.LiveBuiltin() { coverage := coverage + Covers(m.table, m.chain); }
      if m.Live() && !m.builtin { custom := custom + {m.chain}; }
    }
    assert ms[..|ms|] == ms;
    var status := if liveBuiltin then Blocking else if live then Unverified
                  else if enabled then Shadowed else if ms != [] then Disabled else Nothing;
    v := Verdict(status, ms, coverage, custom);
  }

  // ----- what the router does -----

  /** What a matching rule with an action the analysis does not know does to a packet. */
  datatype Effect = Continue | StopAccept | StopDrop

  /** An arbitrary meaning for every matcher and every other action, on packets of any type. */
  datatype World<!P> = World(sat: (string, string, P) -> bool, other: (string, P) -> Effect)

  ghost predicate Fires<P>(w: World<P>, r: Rule, p: P) {
    IsEnabled(r) && forall k :: k in r && !IsDescriptive(k) ==> w.sat(k, r[k], p)
  }

  /** The packet's source is on the address list. */
  predicate Listed<P>(w: World<P>, list: string, p: P) {
    w.sat("src-address-list", list, p)
  }

  datatype Frame = Frame(chain: string, pos: nat)

  /** A packet inside one table: the chains it is in, innermost last, or its fate. */
  datatype Walk = At(stack: seq<Frame>) | Accepted | Dropped

  ghost function Advance(stack: seq<Frame>): seq<Frame>
    requires stack != []
  {
    var n := |stack| - 1;
    stack[n := Frame(stack[n].chain, stack[n].pos + 1)]
  }

  /** The effect of a rule that matched. */
  ghost function Act<P>(w: World<P>, r: Rule, p: P, stack: seq<Frame>): Walk
    requires stack != []
  {
    if IsAccept(r) then Accepted
    else if IsBlockAction(Get(r, "action")) then Dropped
    else if Get(r, "action") == "jump" then At(Advance(stack) + [Frame(Get(r, "jump-target"), 0)])
    else if Get(r, "action") == "return" then At(stack[..|stack| - 1])
    else
      match w.other(Get(r, "action"), p)
      case Continue => At(Advance(stack))
      case StopAccept => Accepted
      case StopDrop => Dropped
  }

  /** First-match evaluation, one rule at a time. A chain that runs out returns to its caller,
      and a packet that runs out of chains is accepted. */
  ghost function Step<P>(w: World<P>, rules: seq<Rule>, p: P, s: Walk): Walk {
    if !s.At? then s
    else if s.stack == [] then Accepted
    else
      var n := |s.stack| - 1;
      var top := s.stack[n];
      if top.pos >= |rules| then At(s.stack[..n])
      else if ChainOf(rules[top.pos]) == top.chain && Fires(w, rules[top.pos], p) then Act(w, rules[top.pos], p, s.stack)
      else At(Advance(s.stack))
  }

  ghost function Run<P>(w: World<P>, rules: seq<Rule>, p: P, s: Walk, n: nat): Walk {
    if n == 0 then s else Step(w, rules, p, Run(w, rules, p, s, n - 1))
  }

  ghost function Enter(chain: string): Walk { At([Frame(chain, 0)]) }

  /** The packet is being compared with rule `pos`. */
  ghost predicate Reaches(rules: seq<Rule>, s: Walk, pos: nat) {
    && s.At? && s.stack != [] && pos < |rules|
    && s.stack[|s.stack| - 1] == Frame(ChainOf(rules[pos]), pos)
  }

  // ----- a shadowed rule is never reached -----

  /** No frame of the stack has gone past an unconditional accept of its chain. */
  ghost predicate Unpassed(rules: seq<Rule>, f: Frame) {
    forall j :: 0 <= j < f.pos && j < |rules| && ChainOf(rules[j]) == f.chain ==> !IsUnconditionalAccept(rules[j])
  }

  ghost predicate NonePassed(rules: seq<Rule>, s: Walk) {
    s.At? ==> forall i :: 0 <= i < |s.stack| ==> Unpassed(rules, s.stack[i])
  }

  lemma AdvanceUnpassed<P>(w: World<P>, rules: seq<Rule>, p: P, f: Frame)
    requires Unpassed(rules, f)
    requires f.pos < |rules| && ChainOf(rules[f.pos]) == f.chain && Fires(w, rules[f.pos], p) ==> !IsAccept(rules[f.pos])
    ensures Unpassed(rules, Frame(f.chain, f.pos + 1))
  {
    hide ChainOf, IsEnabled, IsAccept, IsDescriptive;
  }

  lemma StepKeepsUnpassed<P>(w: World<P>, rules: seq<Rule>, p: P, s: Walk)
    requires NonePassed(rules, s)
    ensures NonePassed(rules, Step(w, rules, p, s))
  {
    hide ChainOf, IsEnabled, IsAccept, IsDescriptive, Fires, IsBlockAction, Get, Unpassed;
    if s.At? && s.stack != [] {
      var top := s.stack[|s.stack| - 1];
      FreshUnpassed(rules);
      if top.pos < |rules| && !(ChainOf(rules[top.pos]) == top.chain && Fires(w, rules[top.pos], p) && IsAccept(rules[top.pos])) {
        AdvanceUnpassed(w, rules, p, top);
      }
    }
  }

  lemma FreshUnpassed(rules: seq<Rule>)
    ensures forall c :: Unpassed(rules, Frame(c, 0))
  {
  }

  lemma {:induction false} RunKeepsUnpassed<P>(w: World<P>, rules: seq<Rule>, p: P, chain: string, n: nat)
    ensures NonePassed(rules, Run(w, rules, p, Enter(chain), n))
  {
    hide Unpassed, Step;
    if n == 0 {
      FreshUnpassed(rules);
    } else {
      RunKeepsUnpassed(w, rules, p, chain, n - 1);
      StepKeepsUnpassed(w, rules, p, Run(w, rules, p, Enter(chain), n - 1));
    }
  }

  /** Whatever the matchers mean and wherever a packet enters, it never meets a rule that has an
      earlier unconditional accept in its chain. */
  lemma ShadowedNeverReached<P>(w: World<P>, rules: seq<Rule>, p: P, chain: string, n: nat, pos: nat)
    requires Reaches(rules, Run(w, rules, p, Enter(chain), n), pos)
    ensures !EarlierAccept(rules, pos)
  {
    hide ChainOf, IsUnconditionalAccept, Run;
    RunKeepsUnpassed(w, rules, p, chain, n);
  }

  // ----- what each verdict means -----

  function RulesOf(t: Table, raw: seq<Rule>, filter: seq<Rule>): seq<Rule> {
    if t == Raw then raw else filter
  }

  /** An enabled list-dropping rule with no earlier unconditional accept. */
  ghost predicate LiveRule(list: string, rules: seq<Rule>, pos: int) {
    0 <= pos < |rules| && IsReported(list, rules[pos]) && IsEnabled(rules[pos]) && !EarlierAccept(rules, pos)
  }

  ghost predicate Somewhere(list: string, raw: seq<Rule>, filter: seq<Rule>, where: (Table, string) -> bool) {
    exists t, pos :: LiveRule(list, RulesOf(t, raw, filter), pos) && where(t, ChainOf(RulesOf(t, raw, filter)[pos]))
  }

  /** Some live report satisfies `where` exactly when some live rule does. */
  lemma LiveReports(list: string, raw: seq<Rule>, filter: seq<Rule>, where: (Table, string) -> bool)
    ensures (exists m :: m in Family(list, raw, filter).matches && m.Live() && where(m.table, m.chain))
            <==> Somewhere(list, raw, filter, where)
  {
    hide ChainOf, IsReported, IsEnabled, EarlierAccept, Covers, Get, Reports, StatusOf, CoverageOf;
    var ms := Family(list, raw, filter).matches;
    if m :| m in ms && m.Live() && where(m.table, m.chain) {
      ReportsExact(list, Raw, raw, m);
      ReportsExact(list, FilterTable, filter, m);
      var t := if m in Reports(list, Raw, raw) then Raw else FilterTable;
      var pos :| Describes(list, t, RulesOf(t, raw, filter), pos, m);
      assert LiveRule(list, RulesOf(t, raw, filter), pos);
    }
    if t, pos :| LiveRule(list, RulesOf(t, raw, filter), pos) && where(t, ChainOf(RulesOf(t, raw, filter)[pos])) {
      var rules := RulesOf(t, raw, filter);
      var m := ReportAt(t, rules, pos);
      assert Describes(list, t, rules, pos, m);
      ReportsExact(list, t, rules, m);
      assert m in ms && m.Live() && where(m.table, m.chain);
    }
  }

  function Anywhere(): (Table, string) -> bool { (t, c) => true }

  /** The chains a packet of direction `d` passes, in order: a packet for the router itself goes
      through raw prerouting and filter input, a forwarded one through raw prerouting and filter forward. */
  function Path(d: Direction): seq<(Table, string)> {
    match d
    case Input => [(Raw, "prerouting"), (FilterTable, "input")]
    case Forward => [(Raw, "prerouting"), (FilterTable, "forward")]
  }

  predicate OnPath(d: Direction, t: Table, c: string) {
    exists i :: 0 <= i < 2 && Path(d)[i] == (t, c)
  }

  /** The analysis covers a direction exactly from the chains on its path. */
  lemma CoversExactly(d: Direction, t: Table, c: string)
    ensures d in Covers(t, c) <==> OnPath(d, t, c)
  {
    assert Path(d)[0] == (Raw, "prerouting");
    assert Path(d)[1] == (FilterTable, if d == Input then "input" else "forward");
  }

  lemma CoversSomething(t: Table, c: string)
    ensures Covers(t, c) != {} <==> OnPath(Input, t, c) || OnPath(Forward, t, c)
  {
    hide Covers, OnPath;
    CoversExactly(Input, t, c);
    CoversExactly(Forward, t, c);
    if Covers(t, c) != {} {
      var d := Pick(Covers(t, c));
      CoversExactly(d, t, c);
      assert d == Input || d == Forward;
    }
  }

  function Builtin(): (Table, string) -> bool { (t, c) => OnPath(Input, t, c) || OnPath(Forward, t, c) }
  function Covering(d: Direction): (Table, string) -> bool { (t, c) => OnPath(d, t, c) }

  lemma BuiltinReports(list: string, raw: seq<Rule>, filter: seq<Rule>, m: Match)
    requires m in Family(list, raw, filter).matches
    ensures m.builtin <==> Covers(m.table, m.chain) != {}
    ensures m.builtin <==> OnPath(Input, m.table, m.chain) || OnPath(Forward, m.table, m.chain)
  {
    hide ChainOf, IsReported, IsEnabled, EarlierAccept, Covers, Get, Reports, StatusOf, CoverageOf, OnPath;
    CoversSomething(m.table, m.chain);
    ReportsExact(list, Raw, raw, m);
    ReportsExact(list, FilterTable, filter, m);
  }

  /** The verdict, exactly: blocking when some live rule sits in a chain every packet of some
      direction traverses, unverified when the only live rules sit elsewhere, and one of the
      three silent verdicts when there is no live rule. A direction is covered exactly when some
      live rule sits in a chain all its packets traverse. */
  lemma VerdictExact(list: string, raw: seq<Rule>, filter: seq<Rule>)
    ensures var v := Family(list, raw, filter);
            && (v.status.Blocking? <==> Somewhere(list, raw, filter, Builtin()))
            && (v.status.Blocking? || v.status.Unverified? <==> Somewhere(list, raw, filter, Anywhere()))
            && (forall d :: d in v.coverage <==> Somewhere(list, raw, filter, Covering(d)))
            && (v.status.Blocking? <==> v.coverage != {})
            && !v.status.Unknown?
  {
    hide ChainOf, Covers, Reports, Somewhere, OnPath;
    var v := Family(list, raw, filter);
    forall d, t, c ensures d in Covers(t, c) <==> OnPath(d, t, c) { CoversExactly(d, t, c); }
    LiveReports(list, raw, filter, Builtin());
    LiveReports(list, raw, filter, Anywhere());
    forall m | m in v.matches
      ensures m.builtin <==> Covers(m.table, m.chain) != {}
      ensures m.builtin <==> OnPath(Input, m.table, m.chain) || OnPath(Forward, m.table, m.chain)
    {
      BuiltinReports(list, raw, filter, m);
    }
    forall d ensures d in v.coverage <==> Somewhere(list, raw, filter, Covering(d)) {
      LiveReports(list, raw, filter, Covering(d));
    }
    assert (exists m :: m in v.matches && m.Live() && Anywhere()(m.table, m.chain)) <==> exists m :: m in v.matches && m.Live();
    assert (exists m :: m in v.matches && m.Live() && Builtin()(m.table, m.chain)) <==> exists m :: m in v.matches && m.LiveBuiltin();
  }

  /** Under a silent verdict no list-dropping rule outside output and postrouting ever fires,
      whatever the matchers and unknown actions mean and wherever the packet enters. */
  lemma SilentVerdictSound<P>(
    list: string, raw: seq<Rule>, filter: seq<Rule>, t: Table,
    w: World<P>, p: P, chain: string, n: nat, pos: nat)
    requires Family(list, raw, filter).status in {Nothing, Disabled, Shadowed}
    requires var rules := RulesOf(t, raw, filter);
             Reaches(rules, Run(w, rules, p, Enter(chain), n), pos) && IsReported(list, rules[pos])
    ensures !Fires(w, RulesOf(t, raw, filter)[pos], p)
  {
    hide ChainOf, IsReported, IsEnabled, EarlierAccept, Run, Family;
    VerdictExact(list, raw, filter);
    var rules := RulesOf(t, raw, filter);
    ShadowedNeverReached(w, rules, p, chain, n, pos);
    assert !LiveRule(list, rules, pos) by {
      assert Anywhere()(t, ChainOf(rules[pos]));
    }
  }

  // ----- a blocking verdict drops -----

  /** A matching rule that only does something on the side. */
  ghost predicate Continues<P>(w: World<P>, r: Rule, p: P) {
    && !IsAccept(r) && !IsBlockAction(Get(r, "action"))
    && Get(r, "action") != "jump" && Get(r, "action") != "return"
    && w.other(Get(r, "action"), p) == Continue
  }

  /** Rule `j` does not end the packet's walk through chain `c`: it does not match, it continues,
      or it jumps to a chain that lets the packet back out, jumps nested at most `depth` deep. */
  ghost predicate Passes<P>(w: World<P>, rules: seq<Rule>, p: P, j: int, c: string, depth: nat)
    decreases depth, 0
  {
    0 <= j < |rules| && ChainOf(rules[j]) == c && Fires(w, rules[j], p) ==>
      || Continues(w, rules[j], p)
      || (depth > 0 && Get(rules[j], "action") == "jump" && Harmless(w, rules, p, Get(rules[j], "jump-target"), depth - 1))
  }

  /** Chain `c` lets the packet back out: it gets to some position past rules that do not end its
      walk, and there the chain runs out or a `return` matches. */
  ghost predicate Harmless<P>(w: World<P>, rules: seq<Rule>, p: P, c: string, depth: nat)
    decreases depth, 1
  {
    exists m :: IsExit(w, rules, p, c, m) && forall j :: 0 <= j < m ==> Passes(w, rules, p, j, c, depth)
  }

  ghost predicate IsExit<P>(w: World<P>, rules: seq<Rule>, p: P, c: string, m: int) {
    || m == |rules|
    || (0 <= m < |rules| && ChainOf(rules[m]) == c && Fires(w, rules[m], p) && Get(rules[m], "action") == "return")
  }

  lemma {:induction false} RunSplit<P>(w: World<P>, rules: seq<Rule>, p: P, s: Walk, a: nat, b: nat)
    ensures Run(w, rules, p, s, a + b) == Run(w, rules, p, Run(w, rules, p, s, a), b)
    decreases b
  {
    hide Step;
    if b > 0 { RunSplit(w, rules, p, s, a, b - 1); }
  }

  /** A packet passes every rule that does not end its walk. */
  lemma {:induction false} PassOver<P>(
    w: World<P>, rules: seq<Rule>, p: P, stack: seq<Frame>, c: string, n: nat, depth: nat) returns (k: nat)
    requires n <= |rules| && forall j :: 0 <= j < n ==> Passes(w, rules, p, j, c, depth)
    ensures Run(w, rules, p, At(stack + [Frame(c, 0)]), k) == At(stack + [Frame(c, n)])
    decreases depth, n
  {
    hide ChainOf, Fires, IsAccept, IsBlockAction, Get, Run;
    var s := At(stack + [Frame(c, 0)]);
    if n == 0 {
      k := 0;
      RunZero(w, rules, p, s);
    } else {
      var r := rules[n - 1];
      var k1 := PassOver(w, rules, p, stack, c, n - 1, depth);
      var here, next := At(stack + [Frame(c, n - 1)]), stack + [Frame(c, n)];
      assert Advance(here.stack) == next;
      assert Passes(w, rules, p, n - 1, c, depth);
      RunOne(w, rules, p, s, k1);
      if ChainOf(r) == c && Fires(w, r, p) && !Continues(w, r, p) {
        var target := Get(r, "jump-target");
        ActJump(w, r, p, here.stack);
        assert Run(w, rules, p, s, k1 + 1) == At(next + [Frame(target, 0)]);
        k := ReturnFrom(w, rules, p, next, target, depth - 1);
        RunSplit(w, rules, p, s, k1 + 1, k);
        k := k1 + 1 + k;
      } else {
        k := k1 + 1;
      }
    }
  }

  /** A packet that jumps into a harmless chain comes back to where it left. */
  lemma {:induction false} ReturnFrom<P>(
    w: World<P>, rules: seq<Rule>, p: P, stack: seq<Frame>, c: string, depth: nat) returns (k: nat)
    requires Harmless(w, rules, p, c, depth)
    ensures Run(w, rules, p, At(stack + [Frame(c, 0)]), k) == At(stack)
    decreases depth, |rules| + 1
  {
    hide ChainOf, Fires, IsAccept, IsBlockAction, Get, Run, Passes;
    var m :| IsExit(w, rules, p, c, m) && forall j :: 0 <= j < m ==> Passes(w, rules, p, j, c, depth);
    k := PassOver(w, rules, p, stack, c, m, depth);
    RunOne(w, rules, p, At(stack + [Frame(c, 0)]), k);
    assert (stack + [Frame(c, m)])[..|stack|] == stack;
    if m < |rules| { ActReturn(w, rules[m], p, stack + [Frame(c, m)]); }
    k := k + 1;
  }

  lemma ActReturn<P>(w: World<P>, r: Rule, p: P, stack: seq<Frame>)
    requires stack != [] && Get(r, "action") == "return"
    ensures Act(w, r, p, stack) == At(stack[..|stack| - 1])
  {
  }

  lemma ActJump<P>(w: World<P>, r: Rule, p: P, stack: seq<Frame>)
    requires stack != [] && Get(r, "action") == "jump"
    ensures Act(w, r, p, stack) == At(Advance(stack) + [Frame(Get(r, "jump-target"), 0)])
  {
  }

  lemma RunZero<P>(w: World<P>, rules: seq<Rule>, p: P, s: Walk)
    ensures Run(w, rules, p, s, 0) == s
  {
  }

  lemma RunOne<P>(w: World<P>, rules: seq<Rule>, p: P, s: Walk, k: nat)
    ensures Run(w, rules, p, s, k + 1) == Step(w, rules, p, Run(w, rules, p, s, k))
  {
  }

  /** The packet meets every matcher of the rule other than its source list. */
  ghost predicate MeetsOtherMatchers<P>(w: World<P>, r: Rule, p: P) {
    forall k :: k in r && !IsDescriptive(k) && k != "src-address-list" ==> w.sat(k, r[k], p)
  }

  /** No earlier rule of the chain ends the packet's walk to rule `pos`. */
  ghost predicate ClearWay<P>(w: World<P>, rules: seq<Rule>, p: P, pos: nat, depth: nat)
    requires pos < |rules|
  {
    forall j :: 0 <= j < pos ==> Passes(w, rules, p, j, ChainOf(rules[pos]), depth)
  }

  ghost predicate DroppedFrom<P>(w: World<P>, rules: seq<Rule>, p: P, chain: string) {
    exists k :: Run(w, rules, p, Enter(chain), k).Dropped?
  }

  /** A listed packet is dropped once it meets the rule's other matchers and no earlier rule of
      the chain ends its walk. */
  lemma LiveRuleDrops<P>(list: string, rules: seq<Rule>, pos: nat, w: World<P>, p: P, depth: nat)
    requires LiveRule(list, rules, pos) && Listed(w, list, p) && MeetsOtherMatchers(w, rules[pos], p)
    requires ClearWay(w, rules, p, pos, depth)
    ensures DroppedFrom(w, rules, p, ChainOf(rules[pos]))
  {
    hide ChainOf, IsEnabled, IsDescriptive, EarlierAccept, Run, Passes;
    var c, r := ChainOf(rules[pos]), rules[pos];
    assert Fires(w, r, p);
    DropIsNotAccept(list, r);
    assert !IsAccept(r);
    var k := PassOver(w, rules, p, [], c, pos, depth);
    RunOne(w, rules, p, Enter(c), k);
    assert [] + [Frame(c, 0)] == [Frame(c, 0)] && [] + [Frame(c, pos)] == [Frame(c, pos)];
    assert Run(w, rules, p, Enter(c), k + 1).Dropped?;
  }

  /** A live rule for direction `d`, dropping whatever gets to it. */
  ghost predicate Drops<P(!new)>(list: string, t: Table, rules: seq<Rule>, pos: int, d: Direction) {
    && LiveRule(list, rules, pos)
    && OnPath(d, t, ChainOf(rules[pos]))
    && forall w: World<P>, p: P, depth: nat ::
         Listed(w, list, p) && MeetsOtherMatchers(w, rules[pos], p)
         && ClearWay(w, rules, p, pos, depth)
         ==> DroppedFrom(w, rules, p, ChainOf(rules[pos]))
  }

  /** A direction is covered exactly when such a rule exists. */
  lemma CoverageSound<P(!new)>(list: string, raw: seq<Rule>, filter: seq<Rule>, d: Direction)
    ensures d in Family(list, raw, filter).coverage <==>
            exists t, pos :: Drops<P>(list, t, RulesOf(t, raw, filter), pos, d)
  {
    hide ChainOf, IsReported, IsEnabled, EarlierAccept, Run, Family, MeetsOtherMatchers, Listed, DroppedFrom, OnPath, ClearWay;
    VerdictExact(list, raw, filter);
    if d in Family(list, raw, filter).coverage {
      var t, pos :| LiveRule(list, RulesOf(t, raw, filter), pos)
                    && Covering(d)(t, ChainOf(RulesOf(t, raw, filter)[pos]));
      var rules := RulesOf(t, raw, filter);
      forall w: World<P>, p: P, depth: nat
        | Listed(w, list, p) && MeetsOtherMatchers(w, rules[pos], p)
          && ClearWay(w, rules, p, pos, depth)
        ensures DroppedFrom(w, rules, p, ChainOf(rules[pos]))
      {
        LiveRuleDrops(list, rules, pos, w, p, depth);
      }
      assert Drops<P>(list, t, rules, pos, d);
    }
    if t, pos :| Drops<P>(list, t, RulesOf(t, raw, filter), pos, d) {
      assert Covering(d)(t, ChainOf(RulesOf(t, raw, filter)[pos]));
    }
  }

  /** An enabled list-drop put first in raw prerouting always gives a blocking verdict with both
      directions covered; if it has no other matcher, every listed packet is dropped at once. */
  lemma PrependedDropBlocks<P(!new)>(list: string, r: Rule, raw: seq<Rule>, filter: seq<Rule>)
    requires DropsList(list, r) && IsEnabled(r) && ChainOf(r) == "prerouting"
    ensures var v := Family(list, [r] + raw, filter); v.status == Blocking && v.coverage == {Input, Forward}
    ensures (forall k :: k in r ==> IsDescriptive(k) || k == "src-address-list") ==>
              forall w: World<P>, p: P :: Listed(w, list, p) ==> DroppedFrom(w, [r] + raw, p, "prerouting")
  {
    hide IsEnabled, IsDescriptive, IsReported, ChainOf, Family, DroppedFrom, Listed, MeetsOtherMatchers, Somewhere, ClearWay;
    var rules := [r] + raw;
    assert rules[0] == r;
    PrependedIsLive(list, r, raw, filter);
    VerdictExact(list, rules, filter);
    forall d: Direction ensures d in Family(list, rules, filter).coverage && d in {Input, Forward} {
      assert d == Input || d == Forward;
    }
    if forall k :: k in r ==> IsDescriptive(k) || k == "src-address-list" {
      forall w: World<P>, p: P | Listed(w, list, p) ensures DroppedFrom(w, rules, p, "prerouting") {
        assert MeetsOtherMatchers(w, rules[0], p) by { OnlyListMatcher(w, r, p); }
        assert ClearWay(w, rules, p, 0, 0) by { NothingEarlier(w, rules, p); }
        LiveRuleDrops(list, rules, 0, w, p, 0);
      }
    }
  }

  lemma PrependedIsLive(list: string, r: Rule, raw: seq<Rule>, filter: seq<Rule>)
    requires DropsList(list, r) && IsEnabled(r) && ChainOf(r) == "prerouting"
    ensures LiveRule(list, [r] + raw, 0)
    ensures Somewhere(list, [r] + raw, filter, Builtin())
    ensures forall d :: Somewhere(list, [r] + raw, filter, Covering(d))
  {
    hide IsEnabled, DropsList, ChainOf, IsUnconditionalAccept;
    var rules := RulesOf(Raw, [r] + raw, filter);
    assert rules[0] == r && LiveRule(list, rules, 0);
    assert Path(Input)[0] == Path(Forward)[0] == (Raw, "prerouting");
    assert Builtin()(Raw, ChainOf(rules[0]));
    forall d: Direction ensures Somewhere(list, [r] + raw, filter, Covering(d)) {
      assert d == Input || d == Forward;
      assert Covering(d)(Raw, ChainOf(rules[0]));
    }
  }

  lemma NothingEarlier<P>(w: World<P>, rules: seq<Rule>, p: P)
    requires rules != []
    ensures ClearWay(w, rules, p, 0, 0)
  {
  }

  lemma OnlyListMatcher<P>(w: World<P>, r: Rule, p: P)
    requires forall k :: k in r ==> IsDescriptive(k) || k == "src-address-list"
    ensures MeetsOtherMatchers(w, r, p)
  {
    hide IsDescriptive;
  }

  /** The verdict looks at unconditional accepts only: behind an accept for the list itself, the
      drop is still reported as blocking although no listed packet is dropped. */
  lemma ConditionalAcceptGoesUnseen<P>(list: string, accept: Rule, drop: Rule, w: World<P>, p: P, n: nat)
    requires IsAccept(accept) && IsEnabled(accept) && DropsList(list, drop) && IsEnabled(drop)
    requires ChainOf(accept) == "forward" && ChainOf(drop) == "forward"
    requires "src-address-list" in accept && accept["src-address-list"] == list
    requires forall k :: k in accept ==> IsDescriptive(k) || k == "src-address-list"
    requires Listed(w, list, p)
    ensures Family(list, [], [accept, drop]).status == Blocking
    ensures !Run(w, [accept, drop], p, Enter("forward"), n).Dropped?
  {
    hide IsEnabled, IsDescriptive, IsAccept, DropsList, ChainOf, Family;
    var rules := [accept, drop];
    assert !IsUnconditionalAccept(accept) by { ListMatcherRestricts(); }
    assert Path(Forward)[1] == (FilterTable, "forward");
    assert LiveRule(list, RulesOf(FilterTable, [], rules), 1) && Builtin()(FilterTable, ChainOf(rules[1]));
    VerdictExact(list, [], rules);
    assert Fires(w, accept, p);
    AcceptedAtOnce(w, rules, p, "forward", n);
  }

  lemma ListMatcherRestricts()
    ensures !IsDescriptive("src-address-list")
  {
  }

  lemma {:induction false} AcceptedAtOnce<P>(w: World<P>, rules: seq<Rule>, p: P, chain: string, n: nat)
    requires rules != [] && ChainOf(rules[0]) == chain && IsAccept(rules[0]) && Fires(w, rules[0], p)
    ensures Run(w, rules, p, Enter(chain), n) == if n == 0 then Enter(chain) else Accepted
  {
    hide IsAccept, Fires, ChainOf;
    if n > 0 { AcceptedAtOnce(w, rules, p, chain, n - 1); }
  }

  // ----- exactly when a chain drops every listed packet -----

  /** What a rule asks of a packet. */
  function Matchers(r: Rule): set<(string, string)> {
    set k | k in r && !IsDescriptive(k) :: (k, r[k])
  }

  predicate InChain(rules: seq<Rule>, c: string, i: int) {
    0 <= i < |rules| && ChainOf(rules[i]) == c && IsEnabled(rules[i])
  }

  predicate Blocks(rules: seq<Rule>, c: string, i: int) {
    InChain(rules, c, i) && IsBlockAction(Get(rules[i], "action"))
  }

  ghost predicate NoJumps(rules: seq<Rule>, c: string) {
    forall i :: InChain(rules, c, i) ==> Get(rules[i], "action") != "jump"
  }

  function ListPair(list: string): (string, string) { ("src-address-list", list) }

  /** An enabled block rule that asks nothing but list membership. */
  predicate CatchAll(rules: seq<Rule>, c: string, list: string, i: int) {
    Blocks(rules, c, i) && Matchers(rules[i]) <= {ListPair(list)}
  }

  /** An earlier block rule takes every listed packet that rule `j` matches. */
  predicate Covered(rules: seq<Rule>, c: string, list: string, j: int) {
    0 <= j < |rules| &&
    exists i :: 0 <= i < j && Blocks(rules, c, i) && Matchers(rules[i]) <= Matchers(rules[j]) + {ListPair(list)}
  }

  /** Some rule blocks every listed packet, and every other enabled rule before the first such rule
      is covered by an earlier block rule. */
  ghost predicate Tight(rules: seq<Rule>, c: string, list: string) {
    exists i :: && CatchAll(rules, c, list, i)
                && (forall j :: 0 <= j < i ==> !CatchAll(rules, c, list, j))
                && (forall j :: 0 <= j < i && InChain(rules, c, j) && !Blocks(rules, c, j) ==> Covered(rules, c, list, j))
  }

  lemma FiresByMatchers<P>(w: World<P>, r: Rule, p: P)
    ensures Fires(w, r, p) <==> IsEnabled(r) && forall m :: m in Matchers(r) ==> w.sat(m.0, m.1, p)
  {
    hide IsDescriptive, IsEnabled;
    if IsEnabled(r) && forall m :: m in Matchers(r) ==> w.sat(m.0, m.1, p) {
      forall k | k in r && !IsDescriptive(k) ensures w.sat(k, r[k], p) { assert (k, r[k]) in Matchers(r); }
    }
  }

  /** Rule `f` is the first of its chain to match the packet. */
  ghost predicate FirstToFire<P>(w: World<P>, rules: seq<Rule>, p: P, c: string, f: int) {
    && 0 <= f < |rules| && ChainOf(rules[f]) == c && Fires(w, rules[f], p)
    && forall j :: 0 <= j < f && ChainOf(rules[j]) == c ==> !Fires(w, rules[j], p)
  }

  lemma {:induction false} FindFirst<P>(w: World<P>, rules: seq<Rule>, p: P, c: string, i: nat) returns (f: nat)
    requires i < |rules| && ChainOf(rules[i]) == c && Fires(w, rules[i], p)
    ensures f <= i && FirstToFire(w, rules, p, c, f)
  {
    hide Fires, ChainOf;
    if j :| 0 <= j < i && ChainOf(rules[j]) == c && Fires(w, rules[j], p) {
      f := FindFirst(w, rules, p, c, j);
    } else {
      f := i;
    }
  }

  /** A block rule that is first to match drops the packet. */
  lemma FirstBlockDrops<P>(w: World<P>, rules: seq<Rule>, p: P, c: string, f: nat)
    requires FirstToFire(w, rules, p, c, f) && IsBlockAction(Get(rules[f], "action"))
    ensures DroppedFrom(w, rules, p, c)
  {
    hide Fires, ChainOf, Run, IsBlockAction, Get;
    var k := PassOver(w, rules, p, [], c, f, 0);
    RunOne(w, rules, p, Enter(c), k);
    assert [] + [Frame(c, 0)] == [Frame(c, 0)] && [] + [Frame(c, f)] == [Frame(c, f)];
    BlockIsNotAccept(rules[f]);
    assert Run(w, rules, p, Enter(c), k + 1).Dropped?;
  }

  lemma BlockIsNotAccept(r: Rule)
    ensures IsBlockAction(Get(r, "action")) ==> !IsAccept(r)
  {
  }

  /** A walk that has passed `i` rules of the chain without a match. */
  ghost predicate Waiting(s: Walk, c: string, i: nat) {
    s == At([Frame(c, i)])
  }

  /** Where nothing but a block rule drops, a dropped packet was dropped by the first rule to match. */
  lemma {:induction false} DroppedByFirst<P>(w: World<P>, rules: seq<Rule>, p: P, c: string, n: nat)
    requires NoJumps(rules, c) && (forall a: string :: w.other(a, p) == StopAccept)
    ensures var s := Run(w, rules, p, Enter(c), n);
            || (s.At? && s.stack == []) || s.Accepted?
            || (s.Dropped? && exists f :: FirstToFire(w, rules, p, c, f) && Blocks(rules, c, f))
            || (exists i: nat :: i <= |rules| && Waiting(s, c, i)
                                 && forall j :: 0 <= j < i && ChainOf(rules[j]) == c ==> !Fires(w, rules[j], p))
  {
    hide ChainOf, IsEnabled, IsDescriptive, IsBlockAction, Get, Run, Fires;
    if n == 0 {
      RunZero(w, rules, p, Enter(c));
      assert Waiting(Enter(c), c, 0);
    } else {
      DroppedByFirst(w, rules, p, c, n - 1);
      RunOne(w, rules, p, Enter(c), n - 1);
      var s, s' := Run(w, rules, p, Enter(c), n - 1), Run(w, rules, p, Enter(c), n);
      if i: nat :| i <= |rules| && Waiting(s, c, i)
                   && forall j :: 0 <= j < i && ChainOf(rules[j]) == c ==> !Fires(w, rules[j], p) {
        if i < |rules| && ChainOf(rules[i]) == c && Fires(w, rules[i], p) {
          assert FirstToFire(w, rules, p, c, i);
          FiresEnabled(w, rules[i], p);
          assert InChain(rules, c, i);
        } else if i < |rules| {
          assert Waiting(s', c, i + 1);
        }
      }
    }
  }

  lemma FiresEnabled<P>(w: World<P>, r: Rule, p: P)
    requires Fires(w, r, p)
    ensures IsEnabled(r)
  {
  }

  /** The world in which exactly the given matchers hold and no other action drops. */
  function Only<P>(facts: set<(string, string)>): World<P> {
    World((k, v, p) => (k, v) in facts, (a, p) => StopAccept)
  }

  lemma FiresInOnly<P>(facts: set<(string, string)>, r: Rule, p: P)
    ensures Fires(Only<P>(facts), r, p) <==> IsEnabled(r) && Matchers(r) <= facts
  {
    hide IsEnabled, Matchers, Fires;
    FiresByMatchers(Only<P>(facts), r, p);
    assert (forall m :: m in Matchers(r) ==> Only<P>(facts).sat(m.0, m.1, p)) <==> Matchers(r) <= facts by {
      assert forall m: (string, string) :: m == (m.0, m.1);
    }
  }

  /** If the packet is dropped in the world of `facts`, a block rule asks for no more than those. */
  lemma BlockWithin<P>(rules: seq<Rule>, c: string, facts: set<(string, string)>, p: P, limit: nat) returns (f: nat)
    requires NoJumps(rules, c) && DroppedFrom(Only<P>(facts), rules, p, c)
    requires limit < |rules| ==> InChain(rules, c, limit) && Matchers(rules[limit]) <= facts
    ensures f < |rules| && f <= limit && Blocks(rules, c, f) && Matchers(rules[f]) <= facts
  {
    hide ChainOf, IsEnabled, Matchers, Fires, Run, NoJumps, Get, IsBlockAction;
    var w := Only<P>(facts);
    var n :| Run(w, rules, p, Enter(c), n).Dropped?;
    DroppedByFirst(w, rules, p, c, n);
    f :| FirstToFire(w, rules, p, c, f) && Blocks(rules, c, f);
    FiresInOnly(facts, rules[f], p);
    if limit < |rules| { FiresInOnly(facts, rules[limit], p); }
    else { assert f <= limit; }
  }

  /** In a chain with no enabled jump, every listed packet is dropped whatever the matchers and
      other actions mean, if and only if the rules are tight. */
  lemma DropsEveryListedExactly<P(!new)>(rules: seq<Rule>, c: string, list: string, p: P)
    requires NoJumps(rules, c)
    ensures (forall w: World<P> :: Listed(w, list, p) ==> DroppedFrom(w, rules, p, c)) <==> Tight(rules, c, list)
  {
    hide Tight, DroppedFrom, Listed, NoJumps;
    if Tight(rules, c, list) {
      forall w: World<P> | Listed(w, list, p) ensures DroppedFrom(w, rules, p, c) { TightDrops(rules, c, list, w, p); }
    }
    if forall w: World<P> :: Listed(w, list, p) ==> DroppedFrom(w, rules, p, c) {
      forall facts: set<(string, string)> ensures ListPair(list) in facts ==> DroppedFrom(Only<P>(facts), rules, p, c) {
        ListedInOnly(facts, list, p);
      }
      DroppingIsTight(rules, c, list, p);
    }
  }

  lemma ListedInOnly<P>(facts: set<(string, string)>, list: string, p: P)
    ensures Listed(Only<P>(facts), list, p) <==> ListPair(list) in facts
  {
  }

  lemma TightDrops<P>(rules: seq<Rule>, c: string, list: string, w: World<P>, p: P)
    requires Tight(rules, c, list) && Listed(w, list, p)
    ensures DroppedFrom(w, rules, p, c)
  {
    hide ChainOf, IsEnabled, Matchers, Fires, DroppedFrom, Get, IsBlockAction;
    var i :| && CatchAll(rules, c, list, i)
             && (forall j :: 0 <= j < i && InChain(rules, c, j) && !Blocks(rules, c, j) ==> Covered(rules, c, list, j));
    FiresByMatchers(w, rules[i], p);
    var f := FindFirst(w, rules, p, c, i);
    FiresByMatchers(w, rules[f], p);
    assert InChain(rules, c, f);
    if !Blocks(rules, c, f) {
      assert Covered(rules, c, list, f);
      var g :| 0 <= g < f && Blocks(rules, c, g) && Matchers(rules[g]) <= Matchers(rules[f]) + {ListPair(list)};
      FiresByMatchers(w, rules[g], p);
      assert false;
    }
    FirstBlockDrops(w, rules, p, c, f);
  }

  lemma {:induction false} FirstCatchAll(rules: seq<Rule>, c: string, list: string, i: nat) returns (f: nat)
    requires CatchAll(rules, c, list, i)
    ensures f <= i && CatchAll(rules, c, list, f) && forall j :: 0 <= j < f ==> !CatchAll(rules, c, list, j)
  {
    hide CatchAll;
    if j :| 0 <= j < i && CatchAll(rules, c, list, j) {
      f := FirstCatchAll(rules, c, list, j);
    } else {
      f := i;
    }
  }

  lemma DroppingIsTight<P>(rules: seq<Rule>, c: string, list: string, p: P)
    requires NoJumps(rules, c)
    requires forall facts: set<(string, string)> :: ListPair(list) in facts ==> DroppedFrom(Only<P>(facts), rules, p, c)
    ensures Tight(rules, c, list)
  {
    hide ChainOf, IsEnabled, Matchers, DroppedFrom, Get, IsBlockAction, NoJumps;
    var b := BlockWithin(rules, c, {ListPair(list)}, p, |rules|);
    var i := FirstCatchAll(rules, c, list, b);
    forall j | 0 <= j < i && InChain(rules, c, j) && !Blocks(rules, c, j) ensures Covered(rules, c, list, j) {
      var facts := Matchers(rules[j]) + {ListPair(list)};
      var f := BlockWithin(rules, c, facts, p, j);
      assert f != j;
    }
  }

  // ----- with jumps: finitely many worlds decide -----

  /** The matchers of the rules in `some`, and list membership. */
  function FactsOf(rules: seq<Rule>, some: set<int>, list: string): set<(string, string)> {
    {ListPair(list)} + set i, m | i in some && 0 <= i < |rules| && m in Matchers(rules[i]) :: m
  }

  ghost function FiringIn<P>(w: World<P>, rules: seq<Rule>, p: P): set<int> {
    set i | 0 <= i < |rules| && Fires(w, rules[i], p)
  }

  /** A rule matches a listed packet exactly when it matches in the world of the rules that do. */
  lemma FiresAlike<P>(w: World<P>, rules: seq<Rule>, p: P, list: string, i: nat)
    requires Listed(w, list, p) && i < |rules|
    ensures Fires(w, rules[i], p) <==> Fires(Only<P>(FactsOf(rules, FiringIn(w, rules, p), list)), rules[i], p)
  {
    hide IsEnabled, Matchers, Fires;
    var facts := FactsOf(rules, FiringIn(w, rules, p), list);
    FiresInOnly(facts, rules[i], p);
    FiresByMatchers(w, rules[i], p);
    if Fires(w, rules[i], p) {
      assert i in FiringIn(w, rules, p);
      assert Matchers(rules[i]) <= facts;
    }
    forall m | m in facts ensures w.sat(m.0, m.1, p) { FactsHold(w, rules, p, list, m); }
  }

  lemma FactsHold<P>(w: World<P>, rules: seq<Rule>, p: P, list: string, m: (string, string))
    requires Listed(w, list, p) && m in FactsOf(rules, FiringIn(w, rules, p), list)
    ensures w.sat(m.0, m.1, p)
  {
    hide IsEnabled, Matchers, Fires;
    if m != ListPair(list) {
      var i :| 0 <= i < |rules| && i in FiringIn(w, rules, p) && m in Matchers(rules[i]);
      FiresByMatchers(w, rules[i], p);
    }
  }

  /** Until the packet is accepted in that world, its walk is the same in both. */
  lemma {:induction false} WalksAlike<P>(w: World<P>, rules: seq<Rule>, p: P, list: string, c: string, n: nat)
    requires Listed(w, list, p)
    ensures var o := Only<P>(FactsOf(rules, FiringIn(w, rules, p), list));
            Run(o, rules, p, Enter(c), n).Accepted? || Run(o, rules, p, Enter(c), n) == Run(w, rules, p, Enter(c), n)
  {
    hide Fires, FactsOf, FiringIn, Listed, Step, Run;
    var o := Only<P>(FactsOf(rules, FiringIn(w, rules, p), list));
    if n == 0 {
      RunZero(w, rules, p, Enter(c));
      RunZero(o, rules, p, Enter(c));
    } else {
      WalksAlike(w, rules, p, list, c, n - 1);
      RunOne(w, rules, p, Enter(c), n - 1);
      RunOne(o, rules, p, Enter(c), n - 1);
      forall i | 0 <= i < |rules| ensures Fires(w, rules[i], p) <==> Fires(o, rules[i], p) { FiresAlike(w, rules, p, list, i); }
      StepsAlike(w, o, rules, p, Run(o, rules, p, Enter(c), n - 1));
    }
  }

  lemma StepsAlike<P>(w: World<P>, o: World<P>, rules: seq<Rule>, p: P, s: Walk)
    requires (forall i :: 0 <= i < |rules| ==> (Fires(w, rules[i], p) <==> Fires(o, rules[i], p)))
    requires forall a: string :: o.other(a, p) == StopAccept
    ensures Step(o, rules, p, s).Accepted? || Step(o, rules, p, s) == Step(w, rules, p, s)
    ensures s.Accepted? ==> Step(o, rules, p, s).Accepted?
  {
    hide Fires, ChainOf, IsAccept, IsBlockAction, Get;
  }

  /** Jumps and returns included: every listed packet is dropped from chain `c`, whatever the
      matchers and other actions mean, if and only if it is dropped in each of the finitely many
      worlds in which just the matchers of some set of rules hold. */
  lemma DropsEveryListedTest<P(!new)>(rules: seq<Rule>, c: string, list: string, p: P)
    ensures (forall w: World<P> :: Listed(w, list, p) ==> DroppedFrom(w, rules, p, c)) <==>
            (forall some: set<int> :: DroppedFrom(Only<P>(FactsOf(rules, some, list)), rules, p, c))
  {
    hide DroppedFrom, Listed, FactsOf;
    if forall w: World<P> :: Listed(w, list, p) ==> DroppedFrom(w, rules, p, c) {
      forall some: set<int> ensures DroppedFrom(Only<P>(FactsOf(rules, some, list)), rules, p, c) {
        ListIsFact(rules, some, list);
        ListedInOnly(FactsOf(rules, some, list), list, p);
      }
    }
    if forall some: set<int> :: DroppedFrom(Only<P>(FactsOf(rules, some, list)), rules, p, c) {
      forall w: World<P> | Listed(w, list, p) ensures DroppedFrom(w, rules, p, c) {
        assert DroppedFrom(Only<P>(FactsOf(rules, FiringIn(w, rules, p), list)), rules, p, c);
        DroppedAlike(w, rules, p, list, c);
      }
    }
  }

  lemma ListIsFact(rules: seq<Rule>, some: set<int>, list: string)
    ensures ListPair(list) in FactsOf(rules, some, list)
  {
    hide Matchers;
  }

  lemma DroppedAlike<P>(w: World<P>, rules: seq<Rule>, p: P, list: string, c: string)
    requires Listed(w, list, p) && DroppedFrom(Only<P>(FactsOf(rules, FiringIn(w, rules, p), list)), rules, p, c)
    ensures DroppedFrom(w, rules, p, c)
  {
    hide Fires, FactsOf, FiringIn, Run, Listed;
    var n :| Run(Only<P>(FactsOf(rules, FiringIn(w, rules, p), list)), rules, p, Enter(c), n).Dropped?;
    WalksAlike(w, rules, p, list, c, n);
  }

  /** A chain of direction `d` that truly drops every listed packet, by rules that name the list,
      is always reported: the verdict is blocking and covers `d`. */
  lemma TruthIsReported(list: string, raw: seq<Rule>, filter: seq<Rule>, t: Table, c: string, d: Direction)
    requires Tight(RulesOf(t, raw, filter), c, list) && OnPath(d, t, c)
    requires forall i :: CatchAll(RulesOf(t, raw, filter), c, list, i) ==> Matchers(RulesOf(t, raw, filter)[i]) != {}
    ensures Family(list, raw, filter).status == Blocking && d in Family(list, raw, filter).coverage
  {
    hide IsEnabled, Matchers, IsBlockAction, Family, ChainOf, OnPath;
    var rules := RulesOf(t, raw, filter);
    var i :| && CatchAll(rules, c, list, i)
             && (forall j :: 0 <= j < i ==> !CatchAll(rules, c, list, j))
             && (forall j :: 0 <= j < i && InChain(rules, c, j) && !Blocks(rules, c, j) ==> Covered(rules, c, list, j));
    NamesTheList(rules[i], list);
    PathInbound(t, c, d);
    forall j | 0 <= j < i && ChainOf(rules[j]) == c ensures !IsUnconditionalAccept(rules[j]) {
      AcceptAsksNothing(rules[j]);
      assert Covered(rules, c, list, j) ==> Matchers(rules[j]) != {};
    }
    assert LiveRule(list, rules, i) && Covering(d)(t, ChainOf(rules[i]));
    VerdictExact(list, raw, filter);
  }

  lemma NamesTheList(r: Rule, list: string)
    requires Matchers(r) <= {ListPair(list)} && Matchers(r) != {}
    ensures Get(r, "src-address-list") == list
  {
    hide IsDescriptive;
    var m := Pick(Matchers(r));
    assert m == ListPair(list);
  }

  lemma PathInbound(t: Table, c: string, d: Direction)
    requires OnPath(d, t, c)
    ensures !IsIrrelevant(c)
  {
  }

  lemma AcceptAsksNothing(r: Rule)
    ensures IsUnconditionalAccept(r) ==> Matchers(r) == {} && IsEnabled(r) && !IsBlockAction(Get(r, "action"))
  {
    hide IsDescriptive, IsEnabled;
  }

  // ----- one router, and all of them -----

  /** The rule tables read from a router; an absent table could not be read. */
  datatype Tables = Tables(
    raw: Option<seq<Rule>>, filter: Option<seq<Rule>>, raw6: Option<seq<Rule>>, filter6: Option<seq<Rule>>)

  datatype Warning = OnlyRouterCovered | OnlyForwardCovered | V6BansPass(entries: Option<int>)

  datatype Analysis = Analysis(v4: Verdict, v6: Option<Verdict>, v6Gap: bool, warnings: seq<Warning>)

  function OrEmpty(t: Option<seq<Rule>>): seq<Rule> {
    if t.Some? then t.value else []
  }

  function Analyze(list: string, t: Tables, v6Entries: Option<int>): Analysis {
    var v4 := Family(list, OrEmpty(t.raw), OrEmpty(t.filter));
    var v6 := if t.filter6.Some? || t.raw6.Some?
              then Some(Family(list, OrEmpty(t.raw6), OrEmpty(t.filter6))) else None;
    var gap := v6.Some? && v6.value.status != Blocking && v4.status == Blocking && v6Entries != Some(0);
    var half :=
      if v4.status != Blocking then []
      else if Forward !in v4.coverage then [OnlyRouterCovered]
      else if Input !in v4.coverage then [OnlyForwardCovered]
      else [];
    Analysis(v4, v6, gap, half + if gap then [V6BansPass(v6Entries)] else [])
  }

  /** A target that was checked: its tables, unless they could not be fetched. */
  datatype Checked = Checked(target: string, list: string, tables: Option<Tables>, v6Entries: Option<int>) {
    function Status(): Status {
      if tables.Some? then Analyze(list, tables.value, v6Entries).v4.status else Unknown
    }
    function Warnings(): seq<Warning> {
      if tables.Some? then Analyze(list, tables.value, v6Entries).warnings else []
    }
    predicate Warned() { Status() == Blocking && Warnings() != [] }
  }

  function Severity(s: Status): nat {
    match s
    case Nothing => 0 case Disabled => 1 case Shadowed => 2 case Unknown => 3 case Unverified => 4 case Blocking => 5
  }

  /** The first of the least severe-ranked results. */
  function Worst(rs: seq<Checked>): Checked
    requires rs != []
  {
    if |rs| == 1 then rs[0]
    else
      var best := Worst(rs[..|rs| - 1]);
      if Severity(rs[|rs| - 1].Status()) < Severity(best.Status()) then rs[|rs| - 1] else best
  }

  function FirstWarned(rs: seq<Checked>): Checked
    requires exists r :: r in rs && r.Warned()
  {
    if rs[0].Warned() then rs[0] else FirstWarned(rs[1..])
  }

  datatype Summary = NoTargets | Summary(status: Status, partial: bool, worst: string)

  function Summarize(rs: seq<Checked>): Summary {
    if rs == [] then NoTargets
    else
      var worst := Worst(rs);
      var partial := exists r :: r in rs && r.Warned();
      var shown := if worst.Status() == Blocking && partial then FirstWarned(rs) else worst;
      Summary(shown.Status(), partial, shown.target)
  }

  lemma {:induction false} WorstExact(rs: seq<Checked>)
    requires rs != []
    ensures Worst(rs) in rs
    ensures forall r :: r in rs ==> Severity(Worst(rs).Status()) <= Severity(r.Status())
  {
    hide Analyze, Checked.Status;
    if |rs| > 1 {
      WorstExact(rs[..|rs| - 1]);
      assert rs == rs[..|rs| - 1] + [rs[|rs| - 1]];
    }
  }

  lemma {:induction false} FirstWarnedExact(rs: seq<Checked>)
    requires exists r :: r in rs && r.Warned()
    ensures FirstWarned(rs) in rs && FirstWarned(rs).Warned()
  {
    if !rs[0].Warned() { FirstWarnedExact(rs[1..]); }
  }

  /** Nothing to report about a target: both directions are covered, and no IPv6 ban gets through
      a firewall that is there. */
  predicate FullyCovered(c: Checked) {
    && c.tables.Some?
    && (var a := Analyze(c.list, c.tables.value, c.v6Entries);
        a.v4.coverage == {Input, Forward} && (a.v6.None? || a.v6.value.status == Blocking || c.v6Entries == Some(0)))
  }

  lemma QuietExact(c: Checked)
    ensures c.Status() == Blocking && c.Warnings() == [] <==> FullyCovered(c)
  {
    hide Family, StatusOf, CoverageOf, Reports, Somewhere;
    if c.tables.Some? {
      var coverage := Analyze(c.list, c.tables.value, c.v6Entries).v4.coverage;
      VerdictExact(c.list, OrEmpty(c.tables.value.raw), OrEmpty(c.tables.value.filter));
      BothDirections(coverage);
    }
  }

  lemma BothDirections(ds: set<Direction>)
    ensures ds == {Input, Forward} <==> Input in ds && Forward in ds
  {
    if Input in ds && Forward in ds {
      forall d ensures d in ds <==> d in {Input, Forward} { assert d == Input || d == Forward; }
    }
  }

  /** The summary reports the worst status of all targets and names a target that has it; it is
      blocking and not partial exactly when every target is fully covered. */
  lemma SummaryExact(rs: seq<Checked>)
    requires rs != []
    ensures var s := Summarize(rs);
            && s.Summary?
            && (forall r :: r in rs ==> Severity(s.status) <= Severity(r.Status()))
            && (exists r :: r in rs && r.target == s.worst && r.Status() == s.status
                            && (s.status == Blocking && s.partial ==> r.Warned()))
            && (s.status == Blocking && !s.partial <==> forall r :: r in rs ==> FullyCovered(r))
            && (s.partial <==> exists r :: r in rs && r.Status() == Blocking && r.Warnings() != [])
  {
    hide Family, FullyCovered, Analyze, Worst, FirstWarned;
    WorstExact(rs);
    if exists r :: r in rs && r.Warned() { FirstWarnedExact(rs); }
    forall r | r in rs ensures r.Status() == Blocking && r.Warnings() == [] <==> FullyCovered(r) {
      QuietExact(r);
    }
  }

  // ----- what the silent verdicts and the warnings say -----

  ghost predicate SomeRule(list: string, raw: seq<Rule>, filter: seq<Rule>, enabled: bool) {
    exists t, pos :: 0 <= pos < |RulesOf(t, raw, filter)| && IsReported(list, RulesOf(t, raw, filter)[pos])
                     && (enabled ==> IsEnabled(RulesOf(t, raw, filter)[pos]))
  }

  lemma SomeReport(list: string, raw: seq<Rule>, filter: seq<Rule>, enabled: bool)
    ensures SomeRule(list, raw, filter, enabled) <==>
            exists m :: m in Family(list, raw, filter).matches && (enabled ==> m.enabled)
  {
    hide ChainOf, IsReported, IsEnabled, EarlierAccept, Covers, Get, Reports, StatusOf, CoverageOf;
    var ms := Family(list, raw, filter).matches;
    if t, pos :| 0 <= pos < |RulesOf(t, raw, filter)| && IsReported(list, RulesOf(t, raw, filter)[pos])
                 && (enabled ==> IsEnabled(RulesOf(t, raw, filter)[pos])) {
      var rules := RulesOf(t, raw, filter);
      var m := ReportAt(t, rules, pos);
      assert Describes(list, t, rules, pos, m);
      ReportsExact(list, t, rules, m);
      assert m in ms;
    }
    if m :| m in ms && (enabled ==> m.enabled) {
      ReportsExact(list, Raw, raw, m);
      ReportsExact(list, FilterTable, filter, m);
      var t := if m in Reports(list, Raw, raw) then Raw else FilterTable;
      var pos :| Describes(list, t, RulesOf(t, raw, filter), pos, m);
      assert 0 <= pos < |RulesOf(t, raw, filter)|;
    }
  }

  /** Which verdict it is: none when no rule outside output and postrouting drops the list, disabled
      when such rules exist and none is enabled, shadowed when some are enabled and none is live. */
  lemma StatusExactly(list: string, raw: seq<Rule>, filter: seq<Rule>)
    ensures var status := Family(list, raw, filter).status;
            && (status == Nothing <==> !SomeRule(list, raw, filter, false))
            && (status == Disabled <==> SomeRule(list, raw, filter, false) && !SomeRule(list, raw, filter, true))
            && (status == Shadowed <==> SomeRule(list, raw, filter, true) && !Somewhere(list, raw, filter, Anywhere()))
            && (status == Unverified <==> Somewhere(list, raw, filter, Anywhere()) && !Somewhere(list, raw, filter, Builtin()))
            && (status == Blocking <==> Somewhere(list, raw, filter, Builtin()))
  {
    hide SomeRule, Somewhere, Reports, Covers, CoverageOf;
    var ms := Family(list, raw, filter).matches;
    SomeReport(list, raw, filter, false);
    SomeReport(list, raw, filter, true);
    VerdictExact(list, raw, filter);
    LiveReports(list, raw, filter, Anywhere());
    assert ms != [] <==> exists m :: m in ms by { if ms != [] { assert ms[0] in ms; } }
    assert forall m: Match :: Anywhere()(m.table, m.chain);
  }

  /** A custom chain is named exactly when a live rule sits in it and it is on no direction's path. */
  lemma CustomChainsExactly(list: string, raw: seq<Rule>, filter: seq<Rule>, c: string)
    ensures c in Family(list, raw, filter).customChains <==> Somewhere(list, raw, filter, Custom(c))
  {
    hide Somewhere, Reports, Covers, CoverageOf, StatusOf, OnPath;
    var v := Family(list, raw, filter);
    LiveReports(list, raw, filter, Custom(c));
    forall m | m in v.matches ensures m.builtin <==> OnPath(Input, m.table, m.chain) || OnPath(Forward, m.table, m.chain) {
      BuiltinReports(list, raw, filter, m);
    }
  }

  function Custom(name: string): (Table, string) -> bool {
    (t, c) => c == name && !OnPath(Input, t, c) && !OnPath(Forward, t, c)
  }

  /** Every report names its rule: table, position, chain, action, and whether the rule is enabled
      and has an unconditional accept before it in its chain. */
  lemma ReportsFaithful(list: string, t: Table, rules: seq<Rule>, m: Match) returns (pos: nat)
    requires m in Reports(list, t, rules)
    ensures pos < |rules| && m.position == pos && m.table == t
    ensures m.chain == Get(rules[pos], "chain") && m.action == Get(rules[pos], "action") && m.action in ["drop", "reject", "tarpit"]
    ensures Get(rules[pos], "src-address-list") == list && m.chain != "output" && m.chain != "postrouting"
    ensures m.enabled <==> IsEnabled(rules[pos])
    ensures m.shadowed <==> IsEnabled(rules[pos]) && exists j :: 0 <= j < pos && AcceptsAll(rules[j], m.chain)
    ensures m.builtin <==> OnPath(Input, t, m.chain) || OnPath(Forward, t, m.chain)
  {
    hide IsUnconditionalAccept, IsEnabled, Covers, Get, Reports, OnPath, AcceptsAll;
    ReportsExact(list, t, rules, m);
    forall r ensures AcceptsAll(r, m.chain) <==> ChainOf(r) == m.chain && IsUnconditionalAccept(r) { AcceptsExactly(r, m.chain); }
    pos :| Describes(list, t, rules, pos, m);
    CoversSomething(t, m.chain);
  }

  /** The rule lets every packet of the chain through: it is enabled, accepts by its action or for
      want of one, and asks nothing of the packet. */
  ghost predicate AcceptsAll(r: Rule, chain: string) {
    && (if "chain" in r then r["chain"] else "") == chain
    && ("action" !in r || r["action"] == "" || r["action"] == "accept")
    && IsEnabled(r) && forall k :: k in r ==> IsDescriptive(k)
  }

  lemma AcceptsExactly(r: Rule, chain: string)
    ensures AcceptsAll(r, chain) <==> ChainOf(r) == chain && IsUnconditionalAccept(r)
  {
    hide IsDescriptive, IsEnabled;
  }

  /** Each warning by what is covered: with a blocking verdict, that forwarded packets pass, or else
      that packets for the router do; and IPv6 bans pass when IPv4 is blocked and an IPv6 firewall is
      there that does not block, unless the list is known to hold no IPv6 entries. */
  lemma WarningsExactly(list: string, t: Tables, entries: Option<int>)
    ensures var a := Analyze(list, t, entries);
            var v6 := t.filter6.Some? || t.raw6.Some?;
            && (OnlyRouterCovered in a.warnings <==> Input in a.v4.coverage && Forward !in a.v4.coverage)
            && (OnlyForwardCovered in a.warnings <==> Forward in a.v4.coverage && Input !in a.v4.coverage)
            && (a.v6Gap <==> && a.v4.coverage != {} && v6 && entries != Some(0)
                             && Family(list, OrEmpty(t.raw6), OrEmpty(t.filter6)).coverage == {})
            && (forall n :: V6BansPass(n) in a.warnings <==> a.v6Gap && n == entries)
            && a.v4 == Family(list, OrEmpty(t.raw), OrEmpty(t.filter))
            && a.v6 == (if v6 then Some(Family(list, OrEmpty(t.raw6), OrEmpty(t.filter6))) else None)
  {
    hide Family, Somewhere;
    VerdictExact(list, OrEmpty(t.raw), OrEmpty(t.filter));
    VerdictExact(list, OrEmpty(t.raw6), OrEmpty(t.filter6));
    var cov := Analyze(list, t, entries).v4.coverage;
    if cov != {} {
      var d := Pick(cov);
      assert d == Input || d == Forward;
    }
  }

  /** The order of verdicts, worst first. */
  lemma SeverityOrder()
    ensures Severity(Nothing) < Severity(Disabled) < Severity(Shadowed)
    ensures Severity(Shadowed) < Severity(Unknown) < Severity(Unverified) < Severity(Blocking)
  {
  }

  // ----- reading a rule -----

  /** A flag is set by `true`, `yes` or `1`, in any case and with white space around it, and by
      nothing else. */
  lemma TruthyExactly(before: string, v: string, after: string)
    requires AllSpace(before) && AllSpace(after) && IsTight(v) && v != ""
    ensures Truthy(before + v + after) <==> EqualButCase(v, "true") || EqualButCase(v, "yes") || v == "1"
    ensures AllSpace(before) ==> !Truthy(before)
  {
    hide Trim, IsTight, AllSpace, SameLetter, IsSpace;
    TrimUndoesPadding(before, v, after);
    TrimIsTight(before);
    forall word | word in ["true", "yes", "1"] ensures Lower(word) == word { LowerKeepsLower(word); }
    LowerIgnoresCase(v, "true");
    LowerIgnoresCase(v, "yes");
    LowerIgnoresCase(v, "1");
    assert EqualButCase(v, "1") <==> v == "1" by { OneHasNoCase(v); }
    assert Lower("") == "";
  }

  lemma OneHasNoCase(v: string)
    ensures EqualButCase(v, "1") <==> v == "1"
  {
    if EqualButCase(v, "1") { assert SameLetter(v[0], "1"[0]); }
  }

  /** A rule is enabled exactly when neither its disabled nor its invalid flag is set; a rule without
      those properties is. */
  lemma EnabledExactly(r: Rule)
    ensures "disabled" in r && Truthy(r["disabled"]) ==> !IsEnabled(r)
    ensures "invalid" in r && Truthy(r["invalid"]) ==> !IsEnabled(r)
    ensures ("disabled" in r ==> !Truthy(r["disabled"])) && ("invalid" in r ==> !Truthy(r["invalid"])) ==> IsEnabled(r)
  {
    hide Truthy;
    assert !Truthy("") by { EmptyIsNotSet(); }
  }

  lemma EmptyIsNotSet()
    ensures !Truthy("")
  {
    hide Trim, IsSpace;
    TrimIsTight("");
    assert Lower("") == "";
  }

  /** A rule without an action accepts; drop, reject and tarpit block; nothing else does either. */
  lemma ActionsExactly(r: Rule)
    ensures IsAccept(r) <==> "action" !in r || r["action"] == "" || r["action"] == "accept"
    ensures IsBlockAction(Get(r, "action")) <==> "action" in r && (r["action"] == "drop" || r["action"] == "reject" || r["action"] == "tarpit")
  {
  }

  /** Addresses, ports, interfaces, protocols and connection states restrict a rule. */
  lemma MatchersRestrict(k: string)
    requires k in ["src-address", "dst-address", "protocol", "dst-port", "in-interface", "connection-state"]
    ensures !IsDescriptive(k)
  {
  }

  /** What names, counts or directs does not. */
  lemma LabelsDoNotRestrict(k: string)
    requires k in ["chain", "action", "disabled", "invalid", "comment", "packets", "jump-target"]
    ensures IsDescriptive(k)
  {
  }

  /** Of several targets with the worst status, the summary names the first. */
  lemma {:induction false} WorstIsFirst(rs: seq<Checked>) returns (i: nat)
    requires rs != []
    ensures i < |rs| && Worst(rs) == rs[i] && forall j :: 0 <= j < i ==> Severity(rs[j].Status()) > Severity(rs[i].Status())
  {
    hide Analyze, Checked.Status, Severity;
    var n := |rs| - 1;
    if n == 0 {
      i := 0;
    } else {
      i := WorstIsFirst(rs[..n]);
      WorstExact(rs[..n]);
      if Severity(rs[n].Status()) < Severity(Worst(rs[..n]).Status()) {
        i := n;
        forall j | 0 <= j < n ensures Severity(rs[j].Status()) > Severity(rs[n].Status()) { assert rs[..n][j] in rs[..n]; }
      }
    }
  }
}
