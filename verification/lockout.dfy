/** The login lockout (auth.py, and the login route that consults it). Times are whole seconds. */
module Lockout {
  import opened Text

  datatype Row = Row(attempts: nat, lockedUntil: Option<int>)

  datatype Policy = Policy(maxAttempts: int, lockout: int)

  function AttemptsOf(row: Option<Row>): nat {
    if row.Some? then row.value.attempts else 0
  }

  predicate IsLocked(row: Option<Row>, now: int) {
    row.Some? && row.value.lockedUntil.Some? && row.value.lockedUntil.value > now
  }

  function Failed(p: Policy, row: Option<Row>, now: int): Row {
    var attempts := AttemptsOf(row) + 1;
    Row(attempts, if attempts >= p.maxAttempts then Some(now + p.lockout) else None)
  }

  class LoginGate {
    var rows: map<string, Row>

    constructor ()
      ensures rows == map[]
    {
      rows := map[];
    }

    function RowOf(ip: string): Option<Row>
      reads this
    {
      if ip in rows then Some(rows[ip]) else None
    }

    method RecordFailure(p: Policy, ip: string, now: int)
      modifies this
      ensures rows == old(rows)[ip := Failed(p, old(RowOf(ip)), now)]
    {
      var attempts: nat := (if ip in rows then rows[ip].attempts else 0) + 1;
      var lockedUntil := None;
      if attempts >= p.maxAttempts {
        lockedUntil := Some(now + p.lockout);
      }
      rows := rows[ip := Row(attempts, lockedUntil)];
    }

    method ClearFailures(ip: string)
      modifies this
      ensures rows == old(rows) - {ip}
    {
      rows := rows - {ip};
    }

    /** A login attempt: checked against the lock at `check`, its failure recorded at `record`. */
    method Login(p: Policy, ip: string, good: bool, check: int, record: int) returns (admitted: bool)
      modifies this
      ensures admitted <==> good && !IsLocked(old(RowOf(ip)), check)
      ensures RowOf(ip) == if good && !IsLocked(old(RowOf(ip)), check) then None
                           else Attempted(p, old(RowOf(ip)), Try(check, record))
      ensures forall other :: other != ip ==> RowOf(other) == old(RowOf(other))
    {
      var locked := IsLocked(RowOf(ip), check);
      if locked { return false; }
      if !good {
        RecordFailure(p, ip, record);
        return false;
      }
      ClearFailures(ip);
      return true;
    }
  }

  // ----- failures in a window -----

  /** A failing attempt, checked and then recorded. */
  datatype Try = Try(check: int, record: int)

  function Attempted(p: Policy, row: Option<Row>, t: Try): Option<Row> {
    if IsLocked(row, t.check) then row else Some(Failed(p, row, t.record))
  }

  /** How many of the attempts get their password checked. */
  function Checked(p: Policy, row: Option<Row>, ts: seq<Try>): nat
    decreases |ts|
  {
    if ts == [] then 0
    else (if IsLocked(row, ts[0].check) then 0 else 1) + Checked(p, Attempted(p, row, ts[0]), ts[1..])
  }

  /** Attempts from one address follow each other, inside the window. */
  predicate Within(start: int, ts: seq<Try>, end: int)
    decreases |ts|
  {
    if ts == [] then start <= end
    else start <= ts[0].check <= ts[0].record <= end && Within(ts[0].record, ts[1..], end)
  }

  /** Attempts still free before every failure locks. */
  function Free(p: Policy, row: Option<Row>): nat {
    var spare := p.maxAttempts - 1 - AttemptsOf(row);
    if spare > 0 then spare else 0
  }

  function Earliest(row: Option<Row>, start: int): int {
    if IsLocked(row, start) then row.value.lockedUntil.value else start
  }

  /** Locking failures that fit between two times. */
  function Slots(p: Policy, from: int, end: int): nat
    requires p.lockout > 0
  {
    if from > end then 0 else (end - from) / p.lockout + 1
  }

  lemma MultiplyMonotone(a: int, b: int, d: int)
    requires d > 0
    ensures a <= b ==> a * d <= b * d
  {
  }

  lemma Quotient(x: int, d: int, q: int)
    requires d > 0 && q * d <= x < (q + 1) * d
    ensures x / d == q
  {
    var k := x / d;
    assert k * d <= x < (k + 1) * d;
    MultiplyMonotone(k + 1, q, d);
    MultiplyMonotone(q + 1, k, d);
  }

  lemma DivideShift(x: int, d: int)
    requires d > 0
    ensures (x + d) / d == x / d + 1
  {
    Quotient(x + d, d, x / d + 1);
  }

  lemma DivideMonotone(x: int, y: int, d: int)
    requires d > 0 && 0 <= x <= y
    ensures 0 <= x / d <= y / d
  {
    var q, r := x / d, y / d;
    assert q * d <= x && y < (r + 1) * d;
    MultiplyMonotone(r + 1, q, d);
  }

  lemma SlotsShrink(p: Policy, a: int, b: int, end: int)
    requires p.lockout > 0 && a <= b
    ensures Slots(p, b, end) <= Slots(p, a, end)
  {
    if b <= end { DivideMonotone(end - b, end - a, p.lockout); }
    else if a <= end { DivideMonotone(0, end - a, p.lockout); }
  }

  lemma SlotsSpend(p: Policy, t: int, end: int)
    requires p.lockout > 0 && t <= end
    ensures 1 + Slots(p, t + p.lockout, end) <= Slots(p, t, end)
  {
    if t + p.lockout <= end {
      DivideShift(end - t - p.lockout, p.lockout);
    } else {
      DivideMonotone(0, end - t, p.lockout);
    }
  }

  lemma {:induction false} CheckedBound(p: Policy, row: Option<Row>, ts: seq<Try>, start: int, end: int)
    requires p.lockout > 0 && Within(start, ts, end)
    ensures Checked(p, row, ts) <= Free(p, row) + Slots(p, Earliest(row, start), end)
    decreases |ts|
  {
    hide Slots;
    if ts != [] {
      var t := ts[0];
      var row' := Attempted(p, row, t);
      CheckedBound(p, row', ts[1..], t.record, end);
      if IsLocked(row, t.check) {
        SlotsShrink(p, Earliest(row, start), Earliest(row', t.record), end);
      } else if AttemptsOf(row) + 1 >= p.maxAttempts {
        assert Earliest(row', t.record) == t.record + p.lockout;
        SlotsSpend(p, t.record, end);
        SlotsShrink(p, Earliest(row, start), t.record, end);
      } else {
        SlotsShrink(p, Earliest(row, start), t.record, end);
      }
    }
  }

  /** Whatever has happened before, the failing attempts from one address whose password is
      checked in a window, with no success to reset the count, are at most the allowed attempts
      plus one for every full lockout period in the window. */
  lemma FailuresInWindow(p: Policy, row: Option<Row>, ts: seq<Try>, start: int, end: int)
    requires p.lockout > 0 && Within(start, ts, end)
    ensures Checked(p, row, ts) <= (if p.maxAttempts > 1 then p.maxAttempts else 1) + (end - start) / p.lockout
  {
    hide Checked;
    WithinSpan(start, ts, end);
    CheckedBound(p, row, ts, start, end);
    SlotsShrink(p, start, Earliest(row, start), end);
  }

  lemma {:induction false} WithinSpan(start: int, ts: seq<Try>, end: int)
    requires Within(start, ts, end)
    ensures start <= end
    decreases |ts|
  {
    if ts != [] { WithinSpan(ts[0].record, ts[1..], end); }
  }

  // ----- exactly when an address is locked -----

  function RowAfter(p: Policy, ts: seq<Try>): Option<Row> {
    if ts == [] then None else Attempted(p, RowAfter(p, ts[..|ts| - 1]), ts[|ts| - 1])
  }

  /** Fewer failures than allowed never lock, and all of them are counted. */
  lemma {:induction false} FewerNeverLock(p: Policy, ts: seq<Try>, now: int)
    requires |ts| < p.maxAttempts
    ensures AttemptsOf(RowAfter(p, ts)) == |ts| && !IsLocked(RowAfter(p, ts), now)
  {
    if ts != [] {
      FewerNeverLock(p, ts[..|ts| - 1], ts[|ts| - 1].check);
      FewerNeverLock(p, ts[..|ts| - 1], now);
    }
  }

  /** From the allowed number on, every checked failure locks the address until exactly one lockout
      period after it was recorded, and counts one more. */
  lemma FailureLocks(p: Policy, row: Option<Row>, t: Try, now: int)
    requires !IsLocked(row, t.check) && AttemptsOf(row) + 1 >= p.maxAttempts
    ensures AttemptsOf(Attempted(p, row, t)) == AttemptsOf(row) + 1
    ensures IsLocked(Attempted(p, row, t), now) <==> now < t.record + p.lockout
  {
  }

  /** The failure that reaches the allowed number is the first to lock. */
  lemma LimitLocks(p: Policy, ts: seq<Try>, now: int)
    requires |ts| == p.maxAttempts >= 1
    ensures IsLocked(RowAfter(p, ts), now) <==> now < ts[|ts| - 1].record + p.lockout
  {
    hide Attempted;
    var n := |ts| - 1;
    FewerNeverLock(p, ts[..n], ts[n].check);
    FailureLocks(p, RowAfter(p, ts[..n]), ts[n], now);
  }
}
