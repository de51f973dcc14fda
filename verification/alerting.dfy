/** The alert rules' tick: debounce, silences, and the notices sent on transitions (alerting.py). */
module Alerting {
  import opened Text
  import opened Ordered

  /** A persisted row of `alert_states`; a rule without a row starts from `NO_ROW`. */
  datatype RuleState = RuleState(firing: bool, consecutive: nat, since: Option<int>)

  const NO_ROW := RuleState(false, 0, None)

  datatype Notice = Firing | Resolved

  /** What a tick finds out about a rule that could be evaluated. */
  datatype Check = Check(matched: bool, silenced: bool, now: int)

  datatype Rule = Rule(key: string, debounce: nat)

  function Counted(s: RuleState, c: Check): nat {
    if c.matched then s.consecutive + 1 else 0
  }

  function NoticeOf(s: RuleState, c: Check, debounce: nat): Option<Notice> {
    var active := Counted(s, c) >= debounce;
    if active && !s.firing && !c.silenced then Some(Firing)
    else if s.firing && !c.matched && !c.silenced then Some(Resolved)
    else None
  }

  function Next(s: RuleState, c: Check, debounce: nat): RuleState {
    var active := Counted(s, c) >= debounce;
    RuleState(active && !c.silenced, Counted(s, c),
              match NoticeOf(s, c, debounce)
              case Some(Firing) => Some(c.now)
              case Some(Resolved) => None
              case None => s.since)
  }

  // ----- one rule's history -----

  /** The state after the evaluated ticks `h`. */
  function After(h: seq<Check>, debounce: nat): RuleState {
    if h == [] then NO_ROW else Next(After(h[..|h| - 1], debounce), h[|h| - 1], debounce)
  }

  /** The notice sent at evaluated tick `i`. */
  function NoticeAt(h: seq<Check>, debounce: nat, i: nat): Option<Notice>
    requires i < |h|
  {
    NoticeOf(After(h[..i], debounce), h[i], debounce)
  }

  /** The last `n` evaluated ticks all matched. */
  predicate LastMatched(h: seq<Check>, n: nat) {
    n <= |h| && forall i :: |h| - n <= i < |h| ==> h[i].matched
  }

  /** The rule stands as firing after `h`: debounced, and the last tick not silenced. */
  predicate Stands(h: seq<Check>, debounce: nat) {
    h != [] && LastMatched(h, debounce) && !h[|h| - 1].silenced
  }

  lemma {:induction false} CountsTheRun(h: seq<Check>, debounce: nat, n: nat)
    ensures After(h, debounce).consecutive >= n <==> LastMatched(h, n)
  {
    if h != [] && n > 0 {
      var init := h[..|h| - 1];
      CountsTheRun(init, debounce, n - 1);
      assert forall i :: 0 <= i < |init| ==> init[i] == h[i];
      assert LastMatched(h, n) <==> h[|h| - 1].matched && LastMatched(init, n - 1);
    }
  }

  /** The stored flag is a function of the history alone. */
  lemma FiringExact(h: seq<Check>, debounce: nat)
    requires debounce >= 1
    ensures After(h, debounce).firing <==> Stands(h, debounce)
  {
    hide LastMatched;
    if h != [] {
      CountsTheRun(h, debounce, debounce);
    }
  }

  /** So are the notices: one of firing when the rule comes to stand, one of resolution at an
      unsilenced tick that does not match right after the rule stood. */
  lemma NoticesExact(h: seq<Check>, debounce: nat, i: nat)
    requires debounce >= 1 && i < |h|
    ensures NoticeAt(h, debounce, i) == Some(Firing) <==> Stands(h[..i + 1], debounce) && !Stands(h[..i], debounce)
    ensures NoticeAt(h, debounce, i) == Some(Resolved) <==>
            Stands(h[..i], debounce) && !h[i].matched && !h[i].silenced
  {
    hide Stands;
    assert h[..i + 1][..i] == h[..i];
    FiringExact(h[..i], debounce);
    FiringExact(h[..i + 1], debounce);
    assert After(h[..i + 1], debounce) == Next(After(h[..i], debounce), h[i], debounce);
  }

  /** From not standing to standing, there is a tick that fires. */
  lemma {:induction false} ComesToStand(h: seq<Check>, debounce: nat, a: nat, b: nat) returns (k: nat)
    requires debounce >= 1 && a < b <= |h| && !Stands(h[..a], debounce) && Stands(h[..b], debounce)
    ensures a <= k < b && NoticeAt(h, debounce, k) == Some(Firing)
    decreases b
  {
    hide Stands, NoticeAt;
    k := b - 1;
    NoticesExact(h, debounce, k);
    if Stands(h[..k], debounce) {
      assert k != a;
      k := ComesToStand(h, debounce, a, k);
    }
  }

  /** From standing to not standing, there is a tick that resolves or is silenced. */
  lemma {:induction false} CeasesToStand(h: seq<Check>, debounce: nat, a: nat, b: nat) returns (k: nat)
    requires debounce >= 1 && a < b <= |h| && Stands(h[..a], debounce) && !Stands(h[..b], debounce)
    ensures a <= k < b && (NoticeAt(h, debounce, k) == Some(Resolved) || h[k].silenced)
    decreases b
  {
    hide NoticeAt, LastMatched;
    k := b - 1;
    NoticesExact(h, debounce, k);
    if Stands(h[..k], debounce) {
      assert h[..b][..k] == h[..k] && h[..b][k] == h[k];
      if h[k].matched { StillMatched(h[..b], debounce); }
    } else {
      assert k != a;
      k := CeasesToStand(h, debounce, a, k);
    }
  }

  lemma StillMatched(h: seq<Check>, n: nat)
    requires h != [] && LastMatched(h[..|h| - 1], n) && h[|h| - 1].matched
    ensures LastMatched(h, n)
  {
    var init := h[..|h| - 1];
    assert forall i :: 0 <= i < |init| ==> init[i] == h[i];
  }

  /** Two resolved notices have a firing notice between them. */
  lemma ResolvedOncePerFiring(h: seq<Check>, debounce: nat, i: nat, j: nat) returns (k: nat)
    requires debounce >= 1 && i < j < |h|
    requires NoticeAt(h, debounce, i) == Some(Resolved) && NoticeAt(h, debounce, j) == Some(Resolved)
    ensures i < k < j && NoticeAt(h, debounce, k) == Some(Firing)
  {
    hide NoticeAt, LastMatched;
    NoticesExact(h, debounce, i);
    NoticesExact(h, debounce, j);
    assert !Stands(h[..i + 1], debounce) by {
      assert h[..i + 1][i] == h[i];
      Unmatched(h[..i + 1], debounce);
    }
    k := ComesToStand(h, debounce, i + 1, j);
  }

  lemma Unmatched(h: seq<Check>, n: nat)
    requires h != [] && n >= 1 && !h[|h| - 1].matched
    ensures !LastMatched(h, n)
  {
  }

  /** Two firing notices have a resolved notice or a silenced tick between them. */
  lemma FiringOncePerSpell(h: seq<Check>, debounce: nat, i: nat, j: nat) returns (k: nat)
    requires debounce >= 1 && i < j < |h|
    requires NoticeAt(h, debounce, i) == Some(Firing) && NoticeAt(h, debounce, j) == Some(Firing)
    ensures i < k < j && (NoticeAt(h, debounce, k) == Some(Resolved) || h[k].silenced)
  {
    hide NoticeAt, Stands;
    NoticesExact(h, debounce, i);
    NoticesExact(h, debounce, j);
    assert i + 1 != j;
    k := CeasesToStand(h, debounce, i + 1, j);
  }

  // ----- the tick over all rules -----

  /** What a tick observes: the rules whose predicate did not crash, and the silenced rules. */
  datatype Observation = Observation(matched: map<string, bool>, silenced: set<string>, now: int)

  function CheckOf(o: Observation, key: string): Check
    requires key in o.matched
  {
    Check(o.matched[key], key in o.silenced, o.now)
  }

  function Load(states: map<string, RuleState>, key: string): RuleState {
    if key in states then states[key] else NO_ROW
  }

  class Board {
    var states: map<string, RuleState>
    var notices: seq<(string, Notice)>

    constructor ()
      ensures states == map[] && notices == []
    {
      states, notices := map[], [];
    }

    /** Every rule that could be evaluated moves by its own check; the others are left alone.
        Notices go out in rule order. */
    method Tick(rules: seq<Rule>, o: Observation)
      requires forall i, j :: 0 <= i < j < |rules| ==> rules[i].key != rules[j].key
      modifies this
      ensures states == TickStates(old(states), rules, o)
      ensures notices == old(notices) + TickNotices(old(states), rules, o)
    {
      hide Next, NoticeOf;
      for i := 0 to |rules|
        invariant states == TickStates(old(states), rules[..i], o)
        invariant notices == old(notices) + TickNotices(old(states), rules[..i], o)
      {
        var r := rules[i];
        assert rules[..i + 1][..i] == rules[..i];
        TickElsewhere(old(states), rules[..i], o, r.key);
        if r.key !in o.matched { continue; }
        var prev := Load(states, r.key);
        var check := CheckOf(o, r.key);
        var notice := NoticeOf(prev, check, r.debounce);
        if notice.Some? { notices := notices + [(r.key, notice.value)]; }
        states := states[r.key := Next(prev, check, r.debounce)];
      }
      assert rules[..|rules|] == rules;
    }
  }

  function TickStates(states: map<string, RuleState>, rules: seq<Rule>, o: Observation): map<string, RuleState> {
    if rules == [] then states
    else
      var r := rules[|rules| - 1];
      var before := TickStates(states, rules[..|rules| - 1], o);
      if r.key in o.matched then before[r.key := Next(Load(before, r.key), CheckOf(o, r.key), r.debounce)] else before
  }

  function TickNotices(states: map<string, RuleState>, rules: seq<Rule>, o: Observation): seq<(string, Notice)> {
    if rules == [] then []
    else
      var r := rules[|rules| - 1];
      TickNotices(states, rules[..|rules| - 1], o) +
      if r.key !in o.matched then []
      else match NoticeOf(Load(states, r.key), CheckOf(o, r.key), r.debounce)
           case Some(n) => [(r.key, n)]
           case None => []
  }

  lemma {:induction false} TickElsewhere(states: map<string, RuleState>, rules: seq<Rule>, o: Observation, key: string)
    requires forall i :: 0 <= i < |rules| ==> rules[i].key != key
    ensures Load(TickStates(states, rules, o), key) == Load(states, key)
  {
    hide Next;
    if rules != [] { TickElsewhere(states, rules[..|rules| - 1], o, key); }
  }

  lemma {:induction false} TickOne(states: map<string, RuleState>, rules: seq<Rule>, o: Observation, r: nat)
    requires forall i, j :: 0 <= i < j < |rules| ==> rules[i].key != rules[j].key
    requires r < |rules|
    ensures var key := rules[r].key;
            Load(TickStates(states, rules, o), key) ==
            if key in o.matched then Next(Load(states, key), CheckOf(o, key), rules[r].debounce) else Load(states, key)
  {
    hide Next;
    var n := |rules| - 1;
    if r == n {
      TickElsewhere(states, rules[..n], o, rules[r].key);
    } else {
      TickOne(states, rules[..n], o, r);
    }
  }

  // ----- runs of ticks -----

  function RunTicks(rules: seq<Rule>, os: seq<Observation>): map<string, RuleState> {
    if os == [] then map[] else TickStates(RunTicks(rules, os[..|os| - 1]), rules, os[|os| - 1])
  }

  /** The checks of the ticks that could evaluate the rule. */
  function HistoryOf(os: seq<Observation>, key: string): seq<Check> {
    if os == [] then []
    else
      HistoryOf(os[..|os| - 1], key) +
      var o := os[|os| - 1];
      if key in o.matched then [Check(o.matched[key], key in o.silenced, o.now)] else []
  }

  /** Over any run of ticks, crashes and silences included, each rule's stored row is the state of
      its own history, and it is firing exactly when that history says so. */
  lemma {:induction false} BoardRefinesHistory(rules: seq<Rule>, os: seq<Observation>, r: nat)
    requires forall i, j :: 0 <= i < j < |rules| ==> rules[i].key != rules[j].key
    requires r < |rules| && rules[r].debounce >= 1
    ensures var h := HistoryOf(os, rules[r].key);
            && Load(RunTicks(rules, os), rules[r].key) == After(h, rules[r].debounce)
            && (Load(RunTicks(rules, os), rules[r].key).firing <==> Stands(h, rules[r].debounce))
  {
    hide Next, TickStates, Stands;
    var key := rules[r].key;
    var h := HistoryOf(os, key);
    FiringExact(h, rules[r].debounce);
    if os != [] {
      var init, o := os[..|os| - 1], os[|os| - 1];
      BoardRefinesHistory(rules, init, r);
      TickOne(RunTicks(rules, init), rules, o, r);
      assert key in o.matched ==> h[..|h| - 1] == HistoryOf(init, key);
      assert key !in o.matched ==> h == HistoryOf(init, key);
    }
  }

  // ----- the notices of a run -----

  /** All notices a run of ticks sends, in order. */
  function RunNotices(rules: seq<Rule>, os: seq<Observation>): seq<(string, Notice)> {
    if os == [] then []
    else
      var init := os[..|os| - 1];
      RunNotices(rules, init) + TickNotices(RunTicks(rules, init), rules, os[|os| - 1])
  }

  function About(key: string): ((string, Notice)) -> bool {
    (n: (string, Notice)) => n.0 == key
  }

  /** The notices of one rule's history, in order. */
  function Sent(key: string, h: seq<Check>, debounce: nat): seq<(string, Notice)> {
    if h == [] then []
    else
      Sent(key, h[..|h| - 1], debounce) +
      match NoticeAt(h, debounce, |h| - 1)
      case Some(n) => [(key, n)]
      case None => []
  }

  lemma {:induction false} OthersNotices(states: map<string, RuleState>, rules: seq<Rule>, o: Observation, key: string)
    requires forall i :: 0 <= i < |rules| ==> rules[i].key != key
    ensures Filter(TickNotices(states, rules, o), About(key)) == []
  {
    hide Filter, NoticeOf;
    FilterEmpty(About(key));
    if rules != [] {
      var n := |rules| - 1;
      OthersNotices(states, rules[..n], o, key);
      var more := TickNotices(states, rules, o)[|TickNotices(states, rules[..n], o)|..];
      FilterConcat(TickNotices(states, rules[..n], o), more, About(key));
      assert TickNotices(states, rules, o) == TickNotices(states, rules[..n], o) + more;
      FilterNone(more, About(key));
    }
  }

  /** In one tick, the notices for a rule are the one its own check calls for. */
  lemma {:induction false} TickNoticesOne(states: map<string, RuleState>, rules: seq<Rule>, o: Observation, r: nat)
    requires forall i, j :: 0 <= i < j < |rules| ==> rules[i].key != rules[j].key
    requires r < |rules|
    ensures var key := rules[r].key;
            Filter(TickNotices(states, rules, o), About(key)) ==
            if key !in o.matched then []
            else match NoticeOf(Load(states, key), CheckOf(o, key), rules[r].debounce)
                 case Some(n) => [(key, n)]
                 case None => []
  {
    hide Filter, NoticeOf;
    var n, key := |rules| - 1, rules[r].key;
    var init := TickNotices(states, rules[..n], o);
    var more := TickNotices(states, rules, o)[|init|..];
    assert TickNotices(states, rules, o) == init + more;
    FilterConcat(init, more, About(key));
    FilterEmpty(About(key));
    if r == n {
      OthersNotices(states, rules[..n], o, key);
      if more != [] {
        FilterAppend([], more[0], About(key));
        assert more == [] + [more[0]];
      }
    } else {
      TickNoticesOne(states, rules[..n], o, r);
      FilterNone(more, About(key));
    }
  }

  /** Over any run of ticks, the notices sent about a rule are, in order, those of its own history. */
  lemma {:induction false} NoticesRefineHistory(rules: seq<Rule>, os: seq<Observation>, r: nat)
    requires forall i, j :: 0 <= i < j < |rules| ==> rules[i].key != rules[j].key
    requires r < |rules| && rules[r].debounce >= 1
    ensures Filter(RunNotices(rules, os), About(rules[r].key)) ==
            Sent(rules[r].key, HistoryOf(os, rules[r].key), rules[r].debounce)
  {
    hide Filter, NoticeOf, TickNotices, RunTicks, After, Stands;
    var key, debounce := rules[r].key, rules[r].debounce;
    FilterEmpty(About(key));
    if os != [] {
      var init, o := os[..|os| - 1], os[|os| - 1];
      var h, h0 := HistoryOf(os, key), HistoryOf(init, key);
      NoticesRefineHistory(rules, init, r);
      BoardRefinesHistory(rules, init, r);
      TickNoticesOne(RunTicks(rules, init), rules, o, r);
      FilterConcat(RunNotices(rules, init), TickNotices(RunTicks(rules, init), rules, o), About(key));
      if key in o.matched {
        assert h == h0 + [CheckOf(o, key)] && h[..|h| - 1] == h0;
      } else {
        assert h == h0;
      }
    }
  }

  /** `firing_since` is the time of the firing notice if that was the last notice, and empty otherwise. */
  lemma {:induction false} SinceExactly(h: seq<Check>, debounce: nat, i: int)
    requires -1 <= i < |h| && (i >= 0 ==> NoticeAt(h, debounce, i).Some?)
    requires forall j :: i < j < |h| ==> NoticeAt(h, debounce, j).None?
    ensures After(h, debounce).since == if i >= 0 && NoticeAt(h, debounce, i) == Some(Firing) then Some(h[i].now) else None
  {
    hide NoticeOf;
    if h != [] {
      var n := |h| - 1;
      var init := h[..n];
      assert NoticeAt(h, debounce, n) == NoticeOf(After(init, debounce), h[n], debounce);
      if i < n {
        forall j | 0 <= j < n ensures NoticeAt(init, debounce, j) == NoticeAt(h, debounce, j) {
          assert init[..j] == h[..j] && init[j] == h[j];
        }
        SinceExactly(init, debounce, i);
      }
    }
  }
}
