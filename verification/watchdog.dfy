/** Disk alerts with two thresholds and hysteresis (disk_watchdog.py `check_and_alert`). */
module Watchdog {
  import opened Text

  const HYSTERESIS: real := 5.0

  datatype Notice = Alert | Recovery

  /** One level's share of a call: the usage, its threshold, and whether the flag could be saved. */
  datatype Sample = Sample(used: real, threshold: real, saved: bool)

  function NoticeOf(flag: bool, s: Sample): Option<Notice> {
    if s.used >= s.threshold then (if flag then None else Some(Alert))
    else if s.used < s.threshold - HYSTERESIS && flag then Some(Recovery)
    else None
  }

  /** A flag that could not be saved keeps its old value. */
  function Next(flag: bool, s: Sample): bool {
    if !s.saved then flag
    else match NoticeOf(flag, s) case Some(Alert) => true case Some(Recovery) => false case None => flag
  }

  datatype Fired = Fired(critical: bool, notice: Notice)

  class Flags {
    var warn: bool
    var critical: bool

    constructor (warn: bool, critical: bool)
      ensures this.warn == warn && this.critical == critical
    {
      this.warn, this.critical := warn, critical;
    }

    /** The critical level first, each notice before its flag. */
    method CheckAndAlert(used: real, warnAt: real, criticalAt: real, savesCritical: bool, savesWarn: bool)
      returns (fired: seq<Fired>)
      modifies this
      ensures critical == Next(old(critical), Sample(used, criticalAt, savesCritical))
      ensures warn == Next(old(warn), Sample(used, warnAt, savesWarn))
      ensures fired == Sent(true, NoticeOf(old(critical), Sample(used, criticalAt, savesCritical)))
                     + Sent(false, NoticeOf(old(warn), Sample(used, warnAt, savesWarn)))
      ensures Both(critical, warn) ==
              NextBoth(old(Both(critical, warn)), Call(used, warnAt, criticalAt, savesCritical, savesWarn))
    {
      fired := [];
      var wasWarn, wasCritical := warn, critical;
      if used >= criticalAt {
        if !wasCritical {
          fired := fired + [Fired(true, Alert)];
          if savesCritical { critical := true; }
        }
      } else if used < criticalAt - HYSTERESIS && wasCritical {
        fired := fired + [Fired(true, Recovery)];
        if savesCritical { critical := false; }
      }
      if used >= warnAt {
        if !wasWarn {
          fired := fired + [Fired(false, Alert)];
          if savesWarn { warn := true; }
        }
      } else if used < warnAt - HYSTERESIS && wasWarn {
        fired := fired + [Fired(false, Recovery)];
        if savesWarn { warn := false; }
      }
    }
  }

  function Sent(critical: bool, n: Option<Notice>): seq<Fired> {
    if n.Some? then [Fired(critical, n.value)] else []
  }

  // ----- one level over a run -----

  function FlagAfter(start: bool, h: seq<Sample>): bool {
    if h == [] then start else Next(FlagAfter(start, h[..|h| - 1]), h[|h| - 1])
  }

  function NoticeAt(start: bool, h: seq<Sample>, i: nat): Option<Notice>
    requires i < |h|
  {
    NoticeOf(FlagAfter(start, h[..i]), h[i])
  }

  ghost predicate AllSaved(h: seq<Sample>) {
    forall i :: 0 <= i < |h| ==> h[i].saved
  }

  lemma FlagStep(start: bool, h: seq<Sample>, i: nat)
    requires i < |h|
    ensures FlagAfter(start, h[..i + 1]) == Next(FlagAfter(start, h[..i]), h[i])
  {
    assert h[..i + 1][..i] == h[..i];
  }

  /** A flag that changes from `to` negated to `to` changed at a saved notice. */
  lemma {:induction false} FlagTurns(start: bool, h: seq<Sample>, a: nat, b: nat, to: bool) returns (k: nat)
    requires a <= b <= |h| && FlagAfter(start, h[..a]) == !to && FlagAfter(start, h[..b]) == to
    ensures a <= k < b && h[k].saved && NoticeAt(start, h, k) == Some(if to then Alert else Recovery)
    decreases b
  {
    assert a != b;
    k := b - 1;
    FlagStep(start, h, k);
    if FlagAfter(start, h[..k]) == to {
      k := FlagTurns(start, h, a, k, to);
    }
  }

  /** Two alerts at a level have a recovery between them, at a sample more than five points below
      the level's threshold. */
  lemma AlertsAreSeparated(start: bool, h: seq<Sample>, i: nat, j: nat) returns (k: nat)
    requires AllSaved(h) && i < j < |h| && NoticeAt(start, h, i) == Some(Alert) && NoticeAt(start, h, j) == Some(Alert)
    ensures i < k < j && NoticeAt(start, h, k) == Some(Recovery) && h[k].used < h[k].threshold - HYSTERESIS
  {
    FlagStep(start, h, i);
    k := FlagTurns(start, h, i + 1, j, false);
  }

  /** Two recoveries have an alert between them, at a sample at or over the threshold. */
  lemma RecoveriesAreSeparated(start: bool, h: seq<Sample>, i: nat, j: nat) returns (k: nat)
    requires AllSaved(h) && i < j < |h|
    requires NoticeAt(start, h, i) == Some(Recovery) && NoticeAt(start, h, j) == Some(Recovery)
    ensures i < k < j && NoticeAt(start, h, k) == Some(Alert) && h[k].used >= h[k].threshold
  {
    FlagStep(start, h, i);
    k := FlagTurns(start, h, i + 1, j, true);
  }

  /** However often saving fails, no crossing goes unreported: a sample at or over the threshold
      alerts, or an earlier sample alerted and no recovery was saved since. */
  lemma {:induction false} NoAlertIsLost(h: seq<Sample>, i: nat) returns (k: nat)
    requires i < |h| && h[i].used >= h[i].threshold
    ensures k <= i && NoticeAt(false, h, k) == Some(Alert) && h[k].used >= h[k].threshold
    ensures forall j :: k < j < i && h[j].saved ==> NoticeAt(false, h, j) != Some(Recovery)
  {
    if !FlagAfter(false, h[..i]) {
      k := i;
    } else {
      k := LastTurn(h, i);
    }
  }

  lemma {:induction false} LastTurn(h: seq<Sample>, b: nat) returns (k: nat)
    requires b <= |h| && FlagAfter(false, h[..b])
    ensures k < b && NoticeAt(false, h, k) == Some(Alert)
    ensures forall j :: k < j < b && h[j].saved ==> NoticeAt(false, h, j) != Some(Recovery)
    decreases b
  {
    assert b != 0;
    k := b - 1;
    FlagStep(false, h, k);
    if FlagAfter(false, h[..k]) {
      k := LastTurn(h, b - 1);
    }
  }

  // ----- both levels over a run -----

  /** A call, with both thresholds and whether each flag could be saved. */
  datatype Call = Call(used: real, warnAt: real, criticalAt: real, savesCritical: bool, savesWarn: bool)

  datatype Both = Both(critical: bool, warn: bool) {
    predicate Nested() { critical ==> warn }
  }

  function NextBoth(b: Both, c: Call): Both {
    Both(Next(b.critical, Sample(c.used, c.criticalAt, c.savesCritical)),
         Next(b.warn, Sample(c.used, c.warnAt, c.savesWarn)))
  }

  function BothAfter(start: Both, calls: seq<Call>): Both {
    if calls == [] then start else NextBoth(BothAfter(start, calls[..|calls| - 1]), calls[|calls| - 1])
  }

  /** The call loses one flag and saves the other: a critical alert without its warning, or a
      warning recovery without its critical recovery. */
  predicate Unnests(b: Both, c: Call) {
    || (c.used >= c.criticalAt && !b.warn && c.savesCritical && !c.savesWarn)
    || (c.used < c.warnAt - HYSTERESIS && b.critical && !c.savesCritical && c.savesWarn)
  }

  /** One call keeps "critical implies warning" exactly when it does not lose one flag of the two. */
  lemma NestedStep(b: Both, c: Call)
    requires b.Nested() && c.warnAt <= c.criticalAt
    ensures NextBoth(b, c).Nested() <==> !Unnests(b, c)
  {
  }

  /** Over a whole run the critical flag implies the warning flag after every call exactly when no
      call loses one flag and saves the other; thresholds may change between calls. */
  lemma NestedExactly(start: Both, calls: seq<Call>)
    requires start.Nested() && forall i :: 0 <= i < |calls| ==> calls[i].warnAt <= calls[i].criticalAt
    ensures (forall n :: 0 <= n <= |calls| ==> BothAfter(start, calls[..n]).Nested()) <==>
            (forall i :: 0 <= i < |calls| ==> !Unnests(BothAfter(start, calls[..i]), calls[i]))
  {
    hide Unnests, NextBoth, BothAfter;
    if forall n :: 0 <= n <= |calls| ==> BothAfter(start, calls[..n]).Nested() {
      forall i | 0 <= i < |calls| ensures !Unnests(BothAfter(start, calls[..i]), calls[i]) {
        assert BothAfter(start, calls[..i + 1]).Nested();
        BothStep(start, calls, i);
        NestedStep(BothAfter(start, calls[..i]), calls[i]);
      }
    }
    if forall i :: 0 <= i < |calls| ==> !Unnests(BothAfter(start, calls[..i]), calls[i]) {
      forall n | 0 <= n <= |calls| ensures BothAfter(start, calls[..n]).Nested() { NestedUpTo(start, calls, n); }
    }
  }

  lemma BothStep(start: Both, calls: seq<Call>, i: nat)
    requires i < |calls|
    ensures BothAfter(start, calls[..i + 1]) == NextBoth(BothAfter(start, calls[..i]), calls[i])
  {
    assert calls[..i + 1][..i] == calls[..i];
  }

  lemma {:induction false} NestedUpTo(start: Both, calls: seq<Call>, n: nat)
    requires start.Nested() && n <= |calls| && forall i :: 0 <= i < n ==> calls[i].warnAt <= calls[i].criticalAt
    requires forall i :: 0 <= i < n ==> !Unnests(BothAfter(start, calls[..i]), calls[i])
    ensures BothAfter(start, calls[..n]).Nested()
  {
    hide Unnests, NextBoth;
    if n > 0 {
      NestedUpTo(start, calls, n - 1);
      BothStep(start, calls, n - 1);
      NestedStep(BothAfter(start, calls[..n - 1]), calls[n - 1]);
    }
  }

  /** With working saves the implication always holds. */
  lemma CriticalImpliesWarn(start: Both, calls: seq<Call>)
    requires start.Nested()
    requires forall i :: 0 <= i < |calls| ==>
               calls[i].warnAt <= calls[i].criticalAt && calls[i].savesCritical && calls[i].savesWarn
    ensures BothAfter(start, calls).Nested()
  {
    hide BothAfter;
    NestedExactly(start, calls);
    assert calls[..|calls|] == calls;
  }

  /** Each flag of the pair moves as its own level does. */
  lemma {:induction false} LevelsAreIndependent(start: Both, calls: seq<Call>)
    ensures BothAfter(start, calls).critical == FlagAfter(start.critical, Level(calls, true))
    ensures BothAfter(start, calls).warn == FlagAfter(start.warn, Level(calls, false))
  {
    if calls != [] {
      var init := calls[..|calls| - 1];
      LevelsAreIndependent(start, init);
      assert Level(calls, true)[..|init|] == Level(init, true);
      assert Level(calls, false)[..|init|] == Level(init, false);
    }
  }

  /** One level's samples. */
  function Level(calls: seq<Call>, critical: bool): (h: seq<Sample>)
    ensures |h| == |calls|
  {
    seq(|calls|, i requires 0 <= i < |calls| =>
      if critical then Sample(calls[i].used, calls[i].criticalAt, calls[i].savesCritical)
      else Sample(calls[i].used, calls[i].warnAt, calls[i].savesWarn))
  }

  /** Both ways of losing the implication happen from a fresh start. */
  lemma LostWriteBreaksIt(used: real, warnAt: real, criticalAt: real, low: real)
    requires warnAt <= criticalAt <= used && low < warnAt - HYSTERESIS
    ensures !BothAfter(Both(false, false), [Call(used, warnAt, criticalAt, true, false)]).Nested()
    ensures !BothAfter(Both(false, false), [Call(used, warnAt, criticalAt, true, true),
                                            Call(low, warnAt, criticalAt, false, true)]).Nested()
  {
    var up, down := Call(used, warnAt, criticalAt, true, true), Call(low, warnAt, criticalAt, false, true);
    assert [Call(used, warnAt, criticalAt, true, false)][..0] == [];
    assert [up, down][..1] == [up] && [up][..0] == [];
    assert BothAfter(Both(false, false), [up]) == Both(true, true);
  }

  /** The sample settles the flag: at or over the threshold, or more than five points below it. */
  predicate Settles(s: Sample) {
    s.used >= s.threshold || s.used < s.threshold - 5.0
  }

  /** With working saves the flag is what the last settling sample says; in between it stays. */
  lemma {:induction false} FlagExactly(start: bool, h: seq<Sample>, i: int)
    requires AllSaved(h) && -1 <= i < |h| && (i >= 0 ==> Settles(h[i])) && forall j :: i < j < |h| ==> !Settles(h[j])
    ensures FlagAfter(start, h) == if i >= 0 then h[i].used >= h[i].threshold else start
  {
    if h != [] {
      var n := |h| - 1;
      assert forall j :: 0 <= j < n ==> h[..n][j] == h[j];
      if i < n { FlagExactly(start, h[..n], i); }
    }
  }
}
