/** Token-bucket backpressure (ratelimit.py). Token counts are exact reals. */
module TokenBuckets {

  const PENALTY_WINDOW: real := 300.0
  const PENALTY_DIVISOR: real := 2.0

  function Min(a: real, b: real): real { if a <= b then a else b }

  function Max(a: real, b: real): real { if a >= b then a else b }

  datatype Bucket = Bucket(capacity: real, rate: real, tokens: real, last: real, penaltyUntil: real) {
    predicate Valid() { 0.0 <= tokens <= capacity && 1.0 <= capacity && 0.0 < rate }
  }

  /** What flows in over a time at a rate. */
  function Inflow(seconds: real, rate: real): real { seconds * rate }

  /** A call on the bucket. `acquire` reads the clock twice, for the elapsed time and for the penalty. */
  datatype Call = Acquire(now: real, later: real, n: nat) | TooMany(now: real) {
    function End(): real { if Acquire? then later else now }
  }

  function RateAt(b: Bucket, t: real): real {
    if t < b.penaltyUntil then b.rate / PENALTY_DIVISOR else b.rate
  }

  function Refilled(b: Bucket, now: real, later: real): Bucket {
    b.(tokens := Min(b.capacity, b.tokens + Inflow(Max(0.0, now - b.last), RateAt(b, later))), last := now)
  }

  /** What the call hands out. */
  function Grant(b: Bucket, c: Call): nat {
    if c.Acquire? && Refilled(b, c.now, c.later).tokens >= c.n as real then c.n else 0
  }

  function After(b: Bucket, c: Call): Bucket {
    match c
    case Acquire(now, later, n) =>
      var r := Refilled(b, now, later);
      if r.tokens >= n as real then r.(tokens := r.tokens - n as real) else r
    case TooMany(now) => b.(tokens := 0.0, penaltyUntil := now + PENALTY_WINDOW)
  }

  class TokenBucket {
    const capacity: real
    const rate: real
    var tokens: real
    var last: real
    var penaltyUntil: real

    function State(): Bucket
      reads this
    {
      Bucket(capacity, rate, tokens, last, penaltyUntil)
    }

    constructor (tokensPerMinute: int, capacity: int, now: real)
      ensures State().Valid() && tokens == this.capacity && last == now && penaltyUntil == 0.0
      ensures this.capacity == Max(1.0, capacity as real) && rate == Max(0.001, tokensPerMinute as real / 60.0)
    {
      this.capacity := Max(1.0, capacity as real);
      this.rate := Max(0.001, tokensPerMinute as real / 60.0);
      tokens := Max(1.0, capacity as real);
      last := now;
      penaltyUntil := 0.0;
    }

    method Acquire(now: real, later: real, n: nat) returns (granted: bool)
      requires State().Valid()
      modifies this
      ensures State() == After(old(State()), Call.Acquire(now, later, n)) && State().Valid()
      ensures granted <==> n as real <= Refilled(old(State()), now, later).tokens
      ensures Grant(old(State()), Call.Acquire(now, later, n)) == if granted then n else 0
    {
      hide RateAt, Inflow;
      StepValid(State(), Call.Acquire(now, later, n));
      var elapsed := Max(0.0, now - last);
      tokens := Min(capacity, tokens + Inflow(elapsed, RateAt(State(), later)));
      last := now;
      granted := tokens >= n as real;
      if granted { tokens := tokens - n as real; }
    }

    method Record429(now: real)
      requires State().Valid()
      modifies this
      ensures State() == After(old(State()), TooMany(now)) && State().Valid()
      ensures tokens == 0.0 && last == old(last) && penaltyUntil == now + 300.0
    {
      penaltyUntil := now + PENALTY_WINDOW;
      tokens := 0.0;
    }
  }

  // ----- runs -----

  function Run(b: Bucket, cs: seq<Call>): Bucket
    decreases |cs|
  {
    if cs == [] then b else Run(After(b, cs[0]), cs[1..])
  }

  function Granted(b: Bucket, cs: seq<Call>): nat
    decreases |cs|
  {
    if cs == [] then 0 else Grant(b, cs[0]) + Granted(After(b, cs[0]), cs[1..])
  }

  /** The clock never goes back, from `start` through the calls to `end`. */
  predicate Timed(start: real, cs: seq<Call>, end: real)
    decreases |cs|
  {
    if cs == [] then start <= end
    else start <= cs[0].now <= cs[0].End() && Timed(cs[0].End(), cs[1..], end)
  }

  lemma InflowMonotone(d: real, e: real, r: real, q: real)
    requires 0.0 <= d <= e && 0.0 <= r <= q
    ensures 0.0 <= Inflow(d, r) <= Inflow(e, q)
  {
    assert d * r <= e * r;
    assert e * r <= e * q;
  }

  lemma InflowAdds(a: real, b: real, c: real, r: real)
    ensures Inflow(b - a, r) + Inflow(c - b, r) == Inflow(c - a, r)
    ensures Inflow(a - a, r) == 0.0
  {
  }

  lemma StepValid(b: Bucket, c: Call)
    requires b.Valid()
    ensures After(b, c).Valid() && After(b, c).capacity == b.capacity && After(b, c).rate == b.rate
    ensures After(b, c).last == if c.Acquire? then c.now else b.last
    ensures After(b, c).penaltyUntil == if c.Acquire? then b.penaltyUntil else c.now + PENALTY_WINDOW
  {
    if c.Acquire? {
      InflowMonotone(0.0, Max(0.0, c.now - b.last), RateAt(b, c.later), RateAt(b, c.later));
    }
  }

  /** Tokens stay between nothing and the capacity over every run, whatever the clock does. */
  lemma {:induction false} TokensBounded(b: Bucket, cs: seq<Call>)
    requires b.Valid()
    ensures Run(b, cs).Valid() && Run(b, cs).capacity == b.capacity && Run(b, cs).rate == b.rate
    decreases |cs|
  {
    hide After;
    if cs != [] {
      StepValid(b, cs[0]);
      TokensBounded(After(b, cs[0]), cs[1..]);
    }
  }

  /** The refill rate of every call in the run is at most `r`. */
  predicate RatesBelow(b: Bucket, cs: seq<Call>, r: real)
    decreases |cs|
  {
    cs != [] ==> (cs[0].Acquire? ==> RateAt(b, cs[0].later) <= r) && RatesBelow(After(b, cs[0]), cs[1..], r)
  }

  /** One call hands out, and leaves, no more than there was and what flowed in. */
  lemma StepPays(b: Bucket, c: Call, r: real)
    requires b.Valid() && b.last <= c.now && 0.0 <= r && (c.Acquire? ==> RateAt(b, c.later) <= r)
    ensures var a := After(b, c);
            Grant(b, c) as real + a.tokens <= b.tokens + Inflow(a.last - b.last, r) && b.last <= a.last
    ensures c.Acquire? ==> Grant(b, c) as real + After(b, c).tokens <= b.capacity
  {
    hide Inflow;
    if c.Acquire? {
      InflowMonotone(c.now - b.last, c.now - b.last, RateAt(b, c.later), r);
    } else {
      InflowAdds(b.last, b.last, b.last, r);
    }
  }

  lemma {:induction false} RunPays(b: Bucket, cs: seq<Call>, start: real, end: real, r: real)
    requires b.Valid() && b.last <= start && Timed(start, cs, end) && 0.0 <= r && RatesBelow(b, cs, r)
    ensures Granted(b, cs) as real + Run(b, cs).tokens <= b.tokens + Inflow(Run(b, cs).last - b.last, r)
    ensures b.last <= Run(b, cs).last <= end
    decreases |cs|
  {
    hide Grant, RateAt, Refilled, After, Inflow;
    InflowAdds(b.last, b.last, b.last, r);
    if cs != [] {
      var a := After(b, cs[0]);
      StepPays(b, cs[0], r);
      StepValid(b, cs[0]);
      RunPays(a, cs[1..], cs[0].End(), end, r);
      InflowAdds(b.last, a.last, Run(b, cs).last, r);
    }
  }

  lemma {:induction false} FullRate(b: Bucket, cs: seq<Call>)
    requires b.Valid()
    ensures RatesBelow(b, cs, b.rate)
    decreases |cs|
  {
    hide After;
    if cs != [] {
      StepValid(b, cs[0]);
      FullRate(After(b, cs[0]), cs[1..]);
    }
  }

  /** In any stretch of a run, what is granted between two moments is at most a full bucket plus
      the refill of the time between them. */
  lemma {:induction false} StretchBound(b: Bucket, cs: seq<Call>, start: real, end: real)
    requires b.Valid() && b.last <= start && Timed(start, cs, end)
    ensures Granted(b, cs) as real <= b.capacity + Inflow(end - start, b.rate)
    decreases |cs|
  {
    hide RateAt, Refilled, After, Grant, Inflow;
    TimedSpan(cs, start, end);
    InflowMonotone(0.0, end - start, b.rate, b.rate);
    if cs != [] {
      var c, a := cs[0], After(b, cs[0]);
      StepValid(b, c);
      if c.TooMany? {
        assert Grant(b, c) == 0 by { NoGrant(b, c); }
        StretchBound(a, cs[1..], c.now, end);
        TimedSpan(cs[1..], c.now, end);
        InflowMonotone(end - c.now, end - start, b.rate, b.rate);
      } else {
        FirstGrantBound(b, cs, start, end);
      }
    }
  }

  /** The same, for a stretch that follows any earlier part of the run. */
  lemma AnyStretch(b: Bucket, before: seq<Call>, cs: seq<Call>, origin: real, start: real, end: real)
    requires b.Valid() && b.last <= origin && Timed(origin, before, start) && Timed(start, cs, end)
    ensures Granted(Run(b, before), cs) as real <= b.capacity + Inflow(end - start, b.rate)
  {
    hide Run, Granted, Inflow, Timed, RatesBelow;
    TokensBounded(b, before);
    FullRate(b, before);
    RunPays(b, before, origin, start, b.rate);
    StretchBound(Run(b, before), cs, start, end);
  }

  lemma NoGrant(b: Bucket, c: Call)
    ensures c.TooMany? ==> Grant(b, c) == 0
  {
  }

  /** The bucket is at most full at the first grant, and from then on the refill bounds the rest. */
  lemma FirstGrantBound(b: Bucket, cs: seq<Call>, start: real, end: real)
    requires b.Valid() && b.last <= start && Timed(start, cs, end) && cs != [] && cs[0].Acquire?
    ensures Granted(b, cs) as real <= b.capacity + Inflow(end - start, b.rate)
  {
    hide RateAt, Refilled, After, Grant, Run, Inflow;
    var c, a := cs[0], After(b, cs[0]);
    StepValid(b, c);
    FullRate(b, cs);
    StepPays(b, c, b.rate);
    RunPays(a, cs[1..], c.later, end, b.rate);
    TokensBounded(a, cs[1..]);
    InflowMonotone(Run(a, cs[1..]).last - c.now, end - start, b.rate, b.rate);
  }

  lemma {:induction false} TimedSpan(cs: seq<Call>, start: real, end: real)
    requires Timed(start, cs, end)
    ensures start <= end && (cs != [] ==> cs[0].End() <= end)
    decreases |cs|
  {
    if cs != [] { TimedSpan(cs[1..], cs[0].End(), end); }
  }

  // ----- after a 429 -----

  lemma {:induction false} PenaltyRate(b: Bucket, cs: seq<Call>, start: real, end: real)
    requires b.Valid() && Timed(start, cs, end) && end < b.penaltyUntil <= start + PENALTY_WINDOW
    ensures RatesBelow(b, cs, b.rate / PENALTY_DIVISOR)
    decreases |cs|
  {
    hide After;
    if cs != [] {
      TimedSpan(cs, start, end);
      StepValid(b, cs[0]);
      PenaltyRate(After(b, cs[0]), cs[1..], cs[0].End(), end);
    }
  }

  /** While a penalty lasts, everything granted since its 429 fits in half the rate over the time
      since the last refill before that 429. */
  lemma PenaltyBound(b: Bucket, t: real, cs: seq<Call>, end: real)
    requires b.Valid() && b.last <= t && Timed(t, cs, end) && end < t + PENALTY_WINDOW
    ensures Granted(After(b, TooMany(t)), cs) as real <= Inflow(end - b.last, b.rate / PENALTY_DIVISOR)
  {
    hide Refilled, RateAt, Granted, After, Run, Inflow;
    var p, half := After(b, TooMany(t)), b.rate / PENALTY_DIVISOR;
    StepValid(b, TooMany(t));
    assert p.tokens == 0.0 by { Drained(b, t); }
    PenaltyRate(p, cs, t, end);
    RunPays(p, cs, t, end, half);
    TokensBounded(p, cs);
    InflowMonotone(Run(p, cs).last - p.last, end - p.last, half, half);
  }

  lemma Drained(b: Bucket, t: real)
    ensures After(b, TooMany(t)).tokens == 0.0
  {
  }

  /** A 429 empties the bucket but leaves the refill clock alone: a call in the same instant is
      granted exactly when half the rate since the last refill covers it. */
  lemma DrainIsNotFinal(b: Bucket, t: real, n: nat)
    requires b.Valid() && b.last <= t && n > 0
    ensures Grant(After(b, TooMany(t)), Acquire(t, t, n)) == n <==>
            n as real <= Min(b.capacity, Inflow(t - b.last, b.rate / PENALTY_DIVISOR))
  {
    hide Inflow;
    var p := After(b, TooMany(t));
    assert RateAt(p, t) == b.rate / PENALTY_DIVISOR;
    assert Refilled(p, t, t).tokens == Min(b.capacity, Inflow(t - b.last, b.rate / PENALTY_DIVISOR));
  }

  // ----- what is granted -----

  /** What a call finds in the bucket: what was there and what flowed in since the last refill, at the
      full rate outside a penalty and at half of it inside, up to the capacity. */
  function Available(b: Bucket, now: real, later: real): real {
    var full := b.tokens + Inflow(now - b.last, if later < b.penaltyUntil then b.rate / 2.0 else b.rate);
    if full > b.capacity then b.capacity else full
  }

  /** A request is granted exactly when that covers it; a grant takes what was asked for, a refusal
      nothing, and nothing else changes but the time of the last refill. */
  lemma GrantExactly(b: Bucket, now: real, later: real, n: nat)
    requires b.Valid() && b.last <= now <= later
    ensures var a, left := After(b, Acquire(now, later, n)), Available(b, now, later);
            && Grant(b, Acquire(now, later, n)) == (if n as real <= left then n else 0)
            && a == b.(last := now, tokens := if n as real <= left then left - n as real else left)
  {
    hide Inflow;
  }

  /** Outside a penalty, waiting long enough always suffices: a request the bucket can hold is
      granted once the refill alone covers it. */
  lemma WaitingSuffices(b: Bucket, now: real, later: real, n: nat)
    requires b.Valid() && b.last <= now <= later && b.penaltyUntil <= later
    requires n as real <= b.capacity && n as real <= Inflow(now - b.last, b.rate)
    ensures Grant(b, Acquire(now, later, n)) == n
  {
    hide Inflow;
    GrantExactly(b, now, later, n);
  }

  /** The penalty of a 429 lasts exactly five minutes. */
  lemma PenaltyEnds(b: Bucket, t: real, later: real)
    requires b.Valid() && b.last <= t <= later
    ensures var p := After(b, TooMany(t));
            Available(p, later, later) == Min(b.capacity, Inflow(later - b.last, if later < t + 300.0 then b.rate / 2.0 else b.rate))
  {
    hide Inflow;
  }
}
