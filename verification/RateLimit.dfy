/** Token buckets: the in-memory limiter and the Redis script it mirrors. */
module RateLimit {
  import opened Basics

  /** Tokens added per unit of time: seconds in memory, milliseconds in the script. */
  datatype Limit = Limit(capacity: int, refill: real)

  datatype Bucket = Bucket(tokens: real, timestamp: real)

  datatype Decision = Decision(allowed: bool, retryAfterMs: int, remaining: real)

  /** int(x): truncation towards zero. */
  function Trunc(x: real): int {
    if x >= 0.0 then x.Floor else -(-x).Floor
  }

  function Ceil(x: real): int {
    -(-x).Floor
  }

  /** Tokens in the bucket at a time; a new bucket is full. */
  function Level(l: Limit, b: Option<Bucket>, now: real): real {
    var kept := b.GetOr(Bucket(l.capacity as real, now));
    MinReal(l.capacity as real, kept.tokens + MaxReal(0.0, now - kept.timestamp) * l.refill)
  }

  // ---------------------------------------------------------------------------------------------
  // In memory

  /** The answer to a request; None where the hint divides by a refill of zero. */
  function Decided(l: Limit, b: Option<Bucket>, now: real, amount: int): Option<Decision> {
    var tokens := Level(l, b, now);
    if tokens >= amount as real then Some(Decision(true, 0, tokens - amount as real))
    else if l.refill == 0.0 then None
    else Some(Decision(false, Trunc((amount as real - tokens) / l.refill * 1000.0) + 1, tokens))
  }

  function After(l: Limit, b: Option<Bucket>, now: real, amount: int): Option<Bucket> {
    var r := Decided(l, b, now, amount);
    if r.None? then b else Some(Bucket(r.value.remaining, now))
  }

  class InMemoryTokenBucket {
    var buckets: map<Id, Bucket>

    method Acquire(key: Id, capacity: int, refillPerSecond: real, amount: int, now: real) returns (r: Option<Decision>)
      modifies this
      ensures r == Decided(Limit(capacity, refillPerSecond), Get(old(buckets), key), now, amount)
      ensures Get(buckets, key) == After(Limit(capacity, refillPerSecond), Get(old(buckets), key), now, amount)
      ensures forall other :: other != key ==> Get(buckets, other) == Get(old(buckets), other)
    {
      var bucket := if key in buckets then buckets[key] else Bucket(capacity as real, now);
      var tokens := MinReal(capacity as real, bucket.tokens + MaxReal(0.0, now - bucket.timestamp) * refillPerSecond);
      ghost var l, before := Limit(capacity, refillPerSecond), Get(buckets, key);
      assert tokens == Level(l, before, now);
      hide Level;
      if tokens >= amount as real {
        tokens := tokens - amount as real;
        buckets := buckets[key := Bucket(tokens, now)];
        return Some(Decision(true, 0, tokens));
      }
      if refillPerSecond == 0.0 {
        return None;
      }
      var retryMs := Trunc((amount as real - tokens) / refillPerSecond * 1000.0) + 1;
      buckets := buckets[key := Bucket(tokens, now)];
      return Some(Decision(false, retryMs, tokens));
    }
  }

  // ---------------------------------------------------------------------------------------------
  // The window bound

  datatype Call = Call(now: real, amount: nat)

  ghost predicate Chronological(calls: seq<Call>) {
    forall i, j :: 0 <= i < j < |calls| ==> calls[i].now <= calls[j].now
  }

  ghost predicate Sensible(l: Limit, b: Option<Bucket>) {
    l.capacity >= 0 && l.refill >= 0.0 && (b.Some? ==> b.value.tokens >= 0.0)
  }

  predicate Allowed(l: Limit, b: Option<Bucket>, c: Call) {
    Level(l, b, c.now) >= c.amount as real
  }

  /** What the calls of a run on one key take out of the bucket between two times. */
  function GrantedBetween(l: Limit, b: Option<Bucket>, calls: seq<Call>, lo: real, hi: real): real
    decreases |calls|
  {
    if calls == [] then 0.0
    else
      var c := calls[0];
      (if Allowed(l, b, c) && lo <= c.now <= hi then c.amount as real else 0.0)
      + GrantedBetween(l, After(l, b, c.now, c.amount), calls[1..], lo, hi)
  }

  lemma LevelBounds(l: Limit, b: Option<Bucket>, now: real)
    requires Sensible(l, b)
    ensures 0.0 <= Level(l, b, now) <= l.capacity as real
  {
    if b.Some? {
      ProductNonNegative(MaxReal(0.0, now - b.value.timestamp), l.refill);
    }
  }

  lemma ProductNonNegative(x: real, y: real)
    requires x >= 0.0 && y >= 0.0
    ensures x * y >= 0.0
  {
  }

  lemma StaysSensible(l: Limit, b: Option<Bucket>, now: real, amount: int)
    requires Sensible(l, b)
    ensures Sensible(l, After(l, b, now, amount))
  {
    LevelBounds(l, b, now);
  }

  /** What the bucket can give out from a time on: its tokens and what flows in. */
  ghost function Budget(l: Limit, b: Option<Bucket>, start: real, hi: real): real {
    Level(l, b, start) + l.refill * (hi - start)
  }

  lemma {:induction false} WindowFromLevel(l: Limit, b: Option<Bucket>, calls: seq<Call>, start: real, lo: real, hi: real)
    requires Sensible(l, b) && Chronological(calls)
    requires start <= hi && (forall i :: 0 <= i < |calls| ==> start <= calls[i].now)
    ensures GrantedBetween(l, b, calls, lo, hi) <= Budget(l, b, start, hi)
    decreases |calls|
  {
    hide Level, Budget;
    BudgetBounds(l, b, start, hi);
    if calls != [] {
      var c := calls[0];
      if c.now <= hi {
        StaysSensible(l, b, c.now, c.amount);
        WindowFromLevel(l, After(l, b, c.now, c.amount), calls[1..], c.now, lo, hi);
        BudgetShrinks(l, b, c, start, hi);
      } else {
        NothingAfter(l, b, calls, lo, hi);
      }
    }
  }

  lemma BudgetBounds(l: Limit, b: Option<Bucket>, start: real, hi: real)
    requires Sensible(l, b) && start <= hi
    ensures 0.0 <= Budget(l, b, start, hi) <= l.capacity as real + l.refill * (hi - start)
  {
    hide Level;
    LevelBounds(l, b, start);
    var seconds := hi - start;
    ProductNonNegative(l.refill, seconds);
    assert Budget(l, b, start, hi) == Level(l, b, start) + l.refill * seconds;
  }

  lemma BudgetShrinks(l: Limit, b: Option<Bucket>, c: Call, start: real, hi: real)
    requires Sensible(l, b) && start <= c.now <= hi
    ensures Budget(l, After(l, b, c.now, c.amount), c.now, hi) + (if Allowed(l, b, c) then c.amount as real else 0.0)
            <= Budget(l, b, start, hi)
  {
    LevelGrows(l, b, start, c.now);
    LevelAfter(l, b, c);
    Distribute(l.refill, start, c.now, hi);
  }

  lemma Distribute(r: real, x: real, y: real, z: real)
    ensures r * (z - x) == r * (z - y) + r * (y - x)
  {
  }

  lemma LevelAfter(l: Limit, b: Option<Bucket>, c: Call)
    requires Sensible(l, b)
    ensures Level(l, After(l, b, c.now, c.amount), c.now)
            == Level(l, b, c.now) - if Allowed(l, b, c) then c.amount as real else 0.0
  {
    LevelBounds(l, b, c.now);
  }

  lemma LevelGrows(l: Limit, b: Option<Bucket>, earlier: real, later: real)
    requires Sensible(l, b) && earlier <= later
    ensures Level(l, b, later) <= Level(l, b, earlier) + l.refill * (later - earlier)
  {
    ProductNonNegative(l.refill, later - earlier);
    if b.Some? {
      var then', now := MaxReal(0.0, earlier - b.value.timestamp), MaxReal(0.0, later - b.value.timestamp);
      ProductNonNegative(l.refill, (later - earlier) - (now - then'));
      assert now * l.refill == then' * l.refill + l.refill * (now - then');
    }
  }

  lemma {:induction false} NothingAfter(l: Limit, b: Option<Bucket>, calls: seq<Call>, lo: real, hi: real)
    requires forall i :: 0 <= i < |calls| ==> hi < calls[i].now
    ensures GrantedBetween(l, b, calls, lo, hi) == 0.0
    decreases |calls|
  {
    if calls != [] {
      NothingAfter(l, After(l, b, calls[0].now, calls[0].amount), calls[1..], lo, hi);
    }
  }

  /** The limiter's promise: over any run on a key, whatever is granted between two times is at most the capacity and
      what the refill adds in that time. */
  lemma {:induction false} WindowBound(l: Limit, b: Option<Bucket>, calls: seq<Call>, lo: real, hi: real)
    requires Sensible(l, b) && Chronological(calls) && lo <= hi
    ensures GrantedBetween(l, b, calls, lo, hi) <= l.capacity as real + l.refill * (hi - lo)
    decreases |calls|
  {
    hide Level, Budget;
    BudgetBounds(l, b, lo, hi);
    if calls != [] {
      var c := calls[0];
      if c.now < lo {
        StaysSensible(l, b, c.now, c.amount);
        WindowBound(l, After(l, b, c.now, c.amount), calls[1..], lo, hi);
      } else {
        WindowFromLevel(l, b, calls, lo, lo, hi);
      }
    }
  }

  // ---------------------------------------------------------------------------------------------
  // The retry hint

  /** The same request alone, a wait after it was refused. */
  ghost predicate RetryGranted(l: Limit, b: Option<Bucket>, now: real, amount: nat, wait: real) {
    Allowed(l, After(l, b, now, amount), Call(now + wait, amount))
  }

  lemma RetryGrantedIff(l: Limit, b: Option<Bucket>, now: real, amount: nat, wait: real)
    requires Sensible(l, b) && l.refill > 0.0 && wait >= 0.0 && !Allowed(l, b, Call(now, amount))
    ensures RetryGranted(l, b, now, amount, wait)
            <==> amount <= l.capacity && wait * l.refill >= amount as real - Level(l, b, now)
  {
    assert After(l, b, now, amount) == Some(Bucket(Level(l, b, now), now));
  }

  lemma DivideBack(x: real, y: real)
    requires y > 0.0
    ensures x / y * y == x
  {
  }

  /** A refused request that fits the bucket is granted when it is retried alone after exactly the hint, and at any
      time more than one millisecond before the hint it would still be refused. One that does not fit never is. */
  lemma HintIsTight(l: Limit, b: Option<Bucket>, now: real, amount: nat, wait: real)
    requires Sensible(l, b) && l.refill > 0.0 && wait >= 0.0 && !Allowed(l, b, Call(now, amount))
    ensures
      var hint := Decided(l, b, now, amount).value.retryAfterMs as real / 1000.0;
      && (amount <= l.capacity && wait >= hint ==> RetryGranted(l, b, now, amount, wait))
      && (amount > l.capacity || wait < hint - 0.001 ==> !RetryGranted(l, b, now, amount, wait))
  {
    hide Level;
    var lacking := amount as real - Level(l, b, now);
    var need := lacking / l.refill;
    DivideBack(lacking, l.refill);
    QuotientPositive(lacking, l.refill);
    RetryGrantedIff(l, b, now, amount, wait);
    hide RetryGranted;
    var hint := Decided(l, b, now, amount).value.retryAfterMs as real / 1000.0;
    assert need < hint <= need + 0.001;
    ScaleKeepsOrder(wait, need, l.refill);
  }

  lemma ScaleKeepsOrder(x: real, y: real, r: real)
    requires r > 0.0
    ensures x < y <==> x * r < y * r
  {
    if x < y {
      ProductPositive(y - x, r);
    } else {
      ProductNonNegative(x - y, r);
    }
  }

  lemma ProductPositive(x: real, y: real)
    requires x > 0.0 && y > 0.0
    ensures x * y > 0.0
  {
  }

  // ---------------------------------------------------------------------------------------------
  // The script

  /** The tokens the script stores. */
  function ScriptRemaining(l: Limit, b: Option<Bucket>, nowMs: int, requested: int): real {
    var tokens := Level(l, b, nowMs as real);
    if tokens >= requested as real then tokens - requested as real else tokens
  }

  function ScriptDecided(l: Limit, b: Option<Bucket>, nowMs: int, requested: int): Decision
    requires l.refill != 0.0
  {
    var tokens := Level(l, b, nowMs as real);
    var allowed := tokens >= requested as real;
    Decision(allowed, if allowed then 0 else Ceil((requested as real - tokens) / l.refill),
             ScriptRemaining(l, b, nowMs, requested))
  }

  function ScriptAfter(l: Limit, b: Option<Bucket>, nowMs: int, requested: int): Bucket {
    Bucket(ScriptRemaining(l, b, nowMs, requested), nowMs as real)
  }

  /** PEXPIRE: how long an untouched bucket is kept, in milliseconds. */
  function TimeToLive(l: Limit): int
    requires l.refill != 0.0
  {
    Ceil(l.capacity as real / l.refill * 2.0)
  }

  class TokenScript {
    var values: map<Id, Bucket>
    var deadlines: map<Id, int>

    /** With a refill of zero the time to live is infinite, PEXPIRE refuses it and the script ends in an error; what it
        stored before stays. */
    method Eval(key: Id, capacity: int, refillPerMs: real, nowMs: int, requested: int) returns (r: Option<Decision>)
      modifies this
      ensures
        var l, before := Limit(capacity, refillPerMs), Get(old(values), key);
        && values == old(values)[key := ScriptAfter(l, before, nowMs, requested)]
        && r == (if refillPerMs == 0.0 then None else Some(ScriptDecided(l, before, nowMs, requested)))
        && deadlines == (if refillPerMs == 0.0 then old(deadlines) else old(deadlines)[key := nowMs + TimeToLive(l)])
    {
      var tokens, timestamp := capacity as real, nowMs as real;
      if key in values {
        tokens, timestamp := values[key].tokens, values[key].timestamp;
      }
      tokens := MinReal(capacity as real, tokens + MaxReal(0.0, nowMs as real - timestamp) * refillPerMs);
      assert tokens == Level(Limit(capacity, refillPerMs), Get(values, key), nowMs as real);
      hide Level, Ceil;
      var allowed, retryAfterMs := false, 0;
      if tokens >= requested as real {
        tokens := tokens - requested as real;
        allowed := true;
      } else if refillPerMs != 0.0 {
        retryAfterMs := Ceil((requested as real - tokens) / refillPerMs);
      }
      values := values[key := Bucket(tokens, nowMs as real)];
      if refillPerMs == 0.0 {
        return None;
      }
      deadlines := deadlines[key := nowMs + Ceil(capacity as real / refillPerMs * 2.0)];
      return Some(Decision(allowed, retryAfterMs, tokens));
    }

    /** RedisTokenBucket.acquire: an unreachable server or a script error opens or closes the gate as configured. */
    method Acquire(key: Id, capacity: int, refillPerSecond: real, amount: int, nowMs: int, failOpen: bool, reachable: bool)
      returns (d: Decision)
      modifies this
      ensures
        var l, before := Limit(capacity, refillPerSecond / 1000.0), Get(old(values), key);
        && d == (if reachable && refillPerSecond != 0.0 then ScriptDecided(l, before, nowMs, amount)
                 else Decision(failOpen, if failOpen then 0 else 1000, 0.0))
        && values == if reachable then old(values)[key := ScriptAfter(l, before, nowMs, amount)] else old(values)
    {
      if reachable {
        var r := Eval(key, capacity, refillPerSecond / 1000.0, nowMs, amount);
        if r.Some? {
          return r.value;
        }
      }
      return Decision(failOpen, if failOpen then 0 else 1000, 0.0);
    }

    /** Redis drops a key once its deadline has passed. */
    method Expire(key: Id, nowMs: int)
      modifies this
      ensures
        var expired := key in old(deadlines) && old(deadlines)[key] <= nowMs;
        && values == (if expired then old(values) - {key} else old(values))
        && deadlines == (if expired then old(deadlines) - {key} else old(deadlines))
    {
      if key in deadlines && deadlines[key] <= nowMs {
        values := values - {key};
        deadlines := deadlines - {key};
      }
    }
  }

  /** A call of the script, and whether the key was dropped since the call before. */
  datatype ScriptCall = ScriptCall(nowMs: int, requested: int, dropped: bool)

  function Answers(l: Limit, b: Option<Bucket>, calls: seq<ScriptCall>, expiring: bool): seq<Decision>
    requires l.refill != 0.0
    decreases |calls|
  {
    if calls == [] then []
    else
      var c := calls[0];
      var found := if expiring && c.dropped then None else b;
      [ScriptDecided(l, found, c.nowMs, c.requested)]
      + Answers(l, Some(ScriptAfter(l, found, c.nowMs, c.requested)), calls[1..], expiring)
  }

  /** Keys are dropped only once their deadline has passed. */
  ghost predicate DropsAfterDeadline(l: Limit, b: Option<Bucket>, calls: seq<ScriptCall>)
    requires l.refill != 0.0
    decreases |calls|
  {
    calls == []
    || (var c := calls[0];
        && (c.dropped && b.Some? ==> b.value.timestamp + TimeToLive(l) as real <= c.nowMs as real)
        && DropsAfterDeadline(l, Some(ScriptAfter(l, b, c.nowMs, c.requested)), calls[1..]))
  }

  /** Dropping a bucket is noticed by no request exactly when it has filled up again. */
  lemma DropHarmlessIff(l: Limit, b: Bucket, nowMs: int)
    requires l.refill != 0.0
    ensures (forall requested: int :: ScriptDecided(l, None, nowMs, requested) == ScriptDecided(l, Some(b), nowMs, requested))
            <==> Level(l, Some(b), nowMs as real) == l.capacity as real
  {
    var now := nowMs as real;
    assert Level(l, None, now) == l.capacity as real;
    if Level(l, Some(b), now) != l.capacity as real {
      assert ScriptDecided(l, None, nowMs, l.capacity).remaining == 0.0;
      assert !ScriptDecided(l, Some(b), nowMs, l.capacity).allowed;
    }
  }

  lemma FullAtDeadline(l: Limit, b: Bucket, now: real)
    requires Sensible(l, Some(b)) && l.refill > 0.0 && b.timestamp + TimeToLive(l) as real <= now
    ensures Level(l, Some(b), now) == l.capacity as real
  {
    var fill := l.capacity as real / l.refill;
    DivideBack(l.capacity as real, l.refill);
    assert fill >= 0.0 by {
      if l.capacity > 0 {
        QuotientPositive(l.capacity as real, l.refill);
      }
    }
    assert now - b.timestamp >= fill;
    ProductNonNegative(now - b.timestamp - fill, l.refill);
    assert (now - b.timestamp - fill) * l.refill == (now - b.timestamp) * l.refill - l.capacity as real;
  }

  /** Letting idle keys expire changes no answer of any run. */
  lemma {:induction false} ExpiryChangesNothing(l: Limit, b: Option<Bucket>, calls: seq<ScriptCall>)
    requires Sensible(l, b) && l.refill > 0.0 && DropsAfterDeadline(l, b, calls)
    requires forall c <- calls :: c.requested >= 0
    ensures Answers(l, b, calls, true) == Answers(l, b, calls, false)
    decreases |calls|
  {
    if calls != [] {
      var c := calls[0];
      if c.dropped && b.Some? {
        FullAtDeadline(l, b.value, c.nowMs as real);
        DropHarmlessIff(l, b.value, c.nowMs);
        assert ScriptDecided(l, None, c.nowMs, c.requested) == ScriptDecided(l, b, c.nowMs, c.requested);
      }
      LevelBounds(l, b, c.nowMs as real);
      ExpiryChangesNothing(l, Some(ScriptAfter(l, b, c.nowMs, c.requested)), calls[1..]);
    }
  }

  // ---------------------------------------------------------------------------------------------
  // The two limiters agree

  /** The same bucket, kept in seconds and in milliseconds. */
  ghost predicate Mirrors(inMemory: Option<Bucket>, script: Option<Bucket>) {
    match (inMemory, script)
    case (None, None) => true
    case (Some(m), Some(s)) => m.tokens == s.tokens && m.timestamp * 1000.0 == s.timestamp
    case _ => false
  }

  /** Given the same bucket both admit the same requests and leave the same tokens; the in-memory hint is the script's,
      and one millisecond more exactly when the missing tokens take a whole number of milliseconds. */
  lemma LimitersAgree(capacity: int, refill: real, m: Option<Bucket>, s: Option<Bucket>, nowMs: int, amount: int)
    requires refill != 0.0 && Mirrors(m, s)
    ensures
      var inMemory, script := Limit(capacity, refill), Limit(capacity, refill / 1000.0);
      var now := nowMs as real / 1000.0;
      var d, e := Decided(inMemory, m, now, amount).value, ScriptDecided(script, s, nowMs, amount);
      && d.allowed == e.allowed && d.remaining == e.remaining
      && Mirrors(After(inMemory, m, now, amount), Some(ScriptAfter(script, s, nowMs, amount)))
      && (!d.allowed && refill > 0.0 ==>
            var ms := (amount as real - e.remaining) / (refill / 1000.0);
            d.retryAfterMs == e.retryAfterMs + if ms.Floor as real == ms then 1 else 0)
  {
    LevelsAgree(capacity, refill, m, s, nowMs);
    var lacking := amount as real - Level(Limit(capacity, refill / 1000.0), s, nowMs as real);
    if lacking > 0.0 && refill > 0.0 {
      HintsAgree(lacking, refill);
    }
    hide Level, Trunc, Ceil;
  }

  lemma LevelsAgree(capacity: int, refill: real, m: Option<Bucket>, s: Option<Bucket>, nowMs: int)
    requires refill != 0.0 && Mirrors(m, s)
    ensures Level(Limit(capacity, refill), m, nowMs as real / 1000.0)
            == Level(Limit(capacity, refill / 1000.0), s, nowMs as real)
  {
    if m.Some? {
      var seconds := MaxReal(0.0, nowMs as real / 1000.0 - m.value.timestamp);
      assert MaxReal(0.0, nowMs as real - s.value.timestamp) == seconds * 1000.0;
      Rescale(seconds, refill);
    }
  }

  lemma HintsAgree(lacking: real, refill: real)
    requires lacking > 0.0 && refill > 0.0
    ensures
      var ms := lacking / (refill / 1000.0);
      Trunc(lacking / refill * 1000.0) + 1 == Ceil(ms) + if ms.Floor as real == ms then 1 else 0
  {
    var ms := lacking / (refill / 1000.0);
    HintUnits(lacking, refill);
    QuotientPositive(lacking, refill / 1000.0);
    FloorOrCeil(ms);
  }

  lemma Rescale(seconds: real, refill: real)
    ensures seconds * 1000.0 * (refill / 1000.0) == seconds * refill
  {
    assert 1000.0 * (refill / 1000.0) == refill;
    assert seconds * 1000.0 * (refill / 1000.0) == seconds * (1000.0 * (refill / 1000.0));
  }

  lemma HintUnits(lacking: real, refill: real)
    requires refill != 0.0
    ensures lacking / (refill / 1000.0) == lacking / refill * 1000.0
  {
    var q := lacking / refill;
    assert q * refill == lacking;
    var r := refill / 1000.0;
    Rescale(q, refill);
    assert q * 1000.0 * r == lacking;
    assert (q * 1000.0 * r) / r == q * 1000.0;
  }

  lemma QuotientPositive(x: real, y: real)
    requires x > 0.0 && y > 0.0
    ensures x / y > 0.0
  {
    DivideBack(x, y);
    if x / y <= 0.0 {
      ProductNonNegative(-(x / y), y);
    }
  }

  lemma FloorOrCeil(x: real)
    ensures x.Floor + 1 == Ceil(x) + if x.Floor as real == x then 1 else 0
  {
    if x.Floor as real == x {
      assert (-x).Floor == -x.Floor;
    }
  }

  // ---------------------------------------------------------------------------------------------
  // What an answer says

  /** An unknown key has a full bucket; a known one fills at the refill rate, up to the capacity, and not at all while
      the clock is behind. */
  lemma LevelRefills(l: Limit, b: Bucket, earlier: real, later: real)
    requires Sensible(l, Some(b))
    ensures Level(l, None, later) == l.capacity as real
    ensures later <= b.timestamp ==> Level(l, Some(b), later) == MinReal(l.capacity as real, b.tokens)
    ensures b.timestamp <= earlier <= later ==>
              Level(l, Some(b), later) == MinReal(l.capacity as real, Level(l, Some(b), earlier) + (later - earlier) * l.refill)
  {
    if b.timestamp <= earlier <= later {
      ProductNonNegative(later - earlier, l.refill);
      assert (later - b.timestamp) * l.refill == (earlier - b.timestamp) * l.refill + (later - earlier) * l.refill;
    }
  }

  /** A request is admitted exactly when the bucket holds what it asks for, and only then is anything taken out; what is
      reported as remaining is what stays in the bucket; only a refusal asks to wait, and always for some time. */
  lemma AnswerIsTrue(l: Limit, b: Option<Bucket>, now: real, amount: nat)
    requires Sensible(l, b) && l.refill > 0.0
    ensures
      var d := Decided(l, b, now, amount);
      && d.Some? && (d.value.allowed <==> Level(l, b, now) >= amount as real)
      && d.value.remaining == Level(l, b, now) - (if d.value.allowed then amount as real else 0.0)
      && d.value.remaining == Level(l, After(l, b, now, amount), now)
      && (if d.value.allowed then d.value.retryAfterMs == 0 else d.value.retryAfterMs >= 1)
  {
    LevelBounds(l, b, now);
    var lacking := amount as real - Level(l, b, now);
    hide Level;
    if lacking > 0.0 {
      QuotientPositive(lacking, l.refill);
    }
    LevelAfter(l, b, Call(now, amount));
  }

  /** The script's answers likewise. */
  lemma ScriptAnswerIsTrue(l: Limit, b: Option<Bucket>, nowMs: int, requested: nat)
    requires Sensible(l, b) && l.refill > 0.0
    ensures
      var d := ScriptDecided(l, b, nowMs, requested);
      var now := nowMs as real;
      && (d.allowed <==> Level(l, b, now) >= requested as real)
      && d.remaining == Level(l, b, now) - (if d.allowed then requested as real else 0.0)
      && d.remaining == Level(l, Some(ScriptAfter(l, b, nowMs, requested)), now)
      && (if d.allowed then d.retryAfterMs == 0 else d.retryAfterMs >= 1)
  {
    var now := nowMs as real;
    LevelBounds(l, b, now);
    LevelAfter(l, b, Call(now, requested));
    var lacking := requested as real - Level(l, b, now);
    if lacking > 0.0 {
      QuotientPositive(lacking, l.refill);
    }
    assert Some(ScriptAfter(l, b, nowMs, requested)) == After(l, b, now, requested);
    hide Level;
  }

  lemma ScriptRetried(l: Limit, b: Option<Bucket>, nowMs: int, requested: nat, waitMs: nat)
    requires l.refill != 0.0
    ensures ScriptDecided(l, Some(ScriptAfter(l, b, nowMs, requested)), nowMs + waitMs, requested).allowed
            <==> RetryGranted(l, b, nowMs as real, requested, waitMs as real)
    ensures ScriptDecided(l, b, nowMs, requested).allowed <==> Allowed(l, b, Call(nowMs as real, requested))
  {
    assert (nowMs + waitMs) as real == nowMs as real + waitMs as real;
    assert Some(ScriptAfter(l, b, nowMs, requested)) == After(l, b, nowMs as real, requested);
    hide Level, Ceil;
  }

  /** A refused script request is granted when retried alone after the hint, and refused a millisecond earlier. */
  lemma ScriptHintIsTight(l: Limit, b: Option<Bucket>, nowMs: int, requested: nat, waitMs: nat)
    requires Sensible(l, b) && l.refill > 0.0 && requested <= l.capacity && !ScriptDecided(l, b, nowMs, requested).allowed
    ensures ScriptDecided(l, Some(ScriptAfter(l, b, nowMs, requested)), nowMs + waitMs, requested).allowed
            <==> waitMs >= ScriptDecided(l, b, nowMs, requested).retryAfterMs
  {
    hide Level, RetryGranted, Ceil, ScriptAfter, Allowed;
    var now, wait := nowMs as real, waitMs as real;
    var lacking := requested as real - Level(l, b, now);
    assert ScriptDecided(l, b, nowMs, requested).retryAfterMs == Ceil(lacking / l.refill);
    hide ScriptDecided;
    ScriptRetried(l, b, nowMs, requested, waitMs);
    RetryGrantedIff(l, b, now, requested, wait);
    DivideBack(lacking, l.refill);
    ScaleKeepsOrder(wait, lacking / l.refill, l.refill);
    AtLeastCeil(waitMs, lacking / l.refill);
  }

  lemma AtLeastCeil(n: int, x: real)
    ensures n as real >= x <==> n >= Ceil(x)
  {
  }

  /** An idle key is kept for twice the time an empty bucket takes to fill, to the next millisecond. */
  lemma TimeToLiveIs(l: Limit)
    requires l.refill > 0.0
    ensures var fill := l.capacity as real / l.refill; 2.0 * fill <= TimeToLive(l) as real < 2.0 * fill + 1.0
  {
  }

  /** What a run is granted is what its calls are granted one after the other: a call's whole amount when the bucket
      holds it and the call lies between the two times, else nothing. */
  lemma GrantedOneByOne(l: Limit, b: Option<Bucket>, c: Call, calls: seq<Call>, lo: real, hi: real)
    ensures GrantedBetween(l, b, [], lo, hi) == 0.0
    ensures GrantedBetween(l, b, [c] + calls, lo, hi)
            == GrantedBetween(l, After(l, b, c.now, c.amount), calls, lo, hi)
               + if Level(l, b, c.now) >= c.amount as real && !(c.now < lo) && !(c.now > hi) then c.amount as real else 0.0
  {
    hide Level, After;
    assert ([c] + calls)[1..] == calls;
  }

  /** The bound is reached: a full bucket emptied at once, and again when it has filled up. */
  lemma BoundIsReached(capacity: nat, refill: real)
    requires capacity > 0 && refill > 0.0
    ensures
      var l, fill := Limit(capacity, refill), capacity as real / refill;
      GrantedBetween(l, None, [Call(0.0, capacity), Call(fill, capacity)], 0.0, fill) == l.capacity as real + l.refill * fill
  {
    var l, fill := Limit(capacity, refill), capacity as real / refill;
    DivideBack(capacity as real, refill);
    QuotientPositive(capacity as real, refill);
    assert refill * fill == fill * refill;
    var first, second := Call(0.0, capacity), Call(fill, capacity);
    var b := After(l, None, 0.0, capacity);
    assert Level(l, None, 0.0) == capacity as real && b == Some(Bucket(0.0, 0.0));
    assert Level(l, b, fill) == capacity as real;
    GrantedOneByOne(l, None, first, [second], 0.0, fill);
    GrantedOneByOne(l, b, second, [], 0.0, fill);
    assert [first] + [second] == [first, second] && [second] + [] == [second];
  }

  /** Truncation drops the fraction, towards zero. */
  lemma TruncTowardsZero(x: real)
    ensures x >= 0.0 ==> 0 <= Trunc(x) && Trunc(x) as real <= x < Trunc(x) as real + 1.0
    ensures Trunc(-x) == -Trunc(x)
  {
  }

  /** A run's answers come one call after the other; only an expiring key's drop makes a call start afresh. */
  lemma AnswersOneByOne(l: Limit, b: Option<Bucket>, c: ScriptCall, calls: seq<ScriptCall>, expiring: bool)
    requires l.refill != 0.0
    ensures
      var found := if expiring && c.dropped then None else b;
      Answers(l, b, [c] + calls, expiring)
      == [ScriptDecided(l, found, c.nowMs, c.requested)]
         + Answers(l, Some(ScriptAfter(l, found, c.nowMs, c.requested)), calls, expiring)
  {
    assert ([c] + calls)[1..] == calls;
  }
}
