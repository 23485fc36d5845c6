/** The login rate limiter of internal/server/ratelimit.go. Times are nanoseconds; the zero time.Time
    is None, which every clock reading is after. */
module LoginLimiter {
  import opened Strings

  const MINUTE: int := 60_000_000_000
  const MAX_ATTEMPTS: nat := 10
  const WINDOW: int := 5 * MINUTE
  const BLOCK_FOR: int := 15 * MINUTE
  const CLEANUP_EVERY: int := 60 * MINUTE

  datatype Bucket = Bucket(failures: nat, windowEnd: Option<int>, blockedAt: Option<int>)

  predicate After(now: int, t: Option<int>) { t.None? || now > t.value }

  predicate Blocked(b: Option<Bucket>, now: int) {
    b.Some? && b.value.blockedAt.Some? && now < b.value.blockedAt.value + BLOCK_FOR
  }

  /** The bucket after record. */
  function Recorded(b: Option<Bucket>, now: int): Bucket {
    var was := if b.Some? then b.value else Bucket(0, None, None);
    var open := if After(now, was.windowEnd) then was.(failures := 0, windowEnd := Some(now + WINDOW)) else was;
    var more := open.(failures := open.failures + 1);
    if more.failures >= MAX_ATTEMPTS then more.(blockedAt := Some(now)) else more
  }

  /** A failure counts in the window that is open, or opens one of five minutes; the tenth in a window
      blocks the key for exactly fifteen minutes from it, and an earlier one changes no block. */
  lemma RecordMeaning(b: Option<Bucket>, t: int, now: int)
    ensures var r, open := Recorded(b, t), b.Some? && b.value.windowEnd.Some? && t <= b.value.windowEnd.value;
      && r.failures == (if open then b.value.failures + 1 else 1)
      && r.windowEnd == (if open then b.value.windowEnd else Some(t + 300_000_000_000))
      && (r.failures >= 10 ==> (Blocked(Some(r), now) <==> now < t + 900_000_000_000))
      && (r.failures < 10 ==> (Blocked(Some(r), now) <==> Blocked(b, now)))
  {}

  /** Cleaning runs at most once an hour. */
  lemma CleaningPeriod()
    ensures CLEANUP_EVERY == 3_600_000_000_000
  {}

  /** Whether maybeClean deletes the bucket. */
  predicate Expired(b: Bucket, now: int) {
    if b.blockedAt.None? then After(now, b.windowEnd) else now > b.blockedAt.value + BLOCK_FOR
  }

  function Swept(b: Option<Bucket>, now: int): Option<Bucket> {
    if b.Some? && Expired(b.value, now) then None else b
  }

  /** What holds of every stored bucket at a time no earlier than its last change. */
  predicate BucketOk(b: Bucket, now: int) {
    && b.failures >= 1 && b.windowEnd.Some? && b.windowEnd.value <= now + WINDOW
    && (b.failures >= MAX_ATTEMPTS ==>
          b.blockedAt.Some? && b.windowEnd.value - WINDOW <= b.blockedAt.value <= b.windowEnd.value)
  }

  predicate Ok(b: Option<Bucket>, now: int) { b.Some? ==> BucketOk(b.value, now) }

  // ---------------------------------------------------------------- the limiter

  class Limiter {
    var entries: map<string, Bucket>
    var lastClean: int
    /** The latest clock reading so far. */
    ghost var clock: int

    constructor (now: int)
      ensures Valid() && entries == map[] && lastClean == clock == now
    {
      entries, lastClean, clock := map[], now, now;
    }

    ghost predicate Valid()
      reads this
    {
      lastClean <= clock && forall ip :: ip in entries ==> BucketOk(entries[ip], clock)
    }

    function BucketFor(ip: string): Option<Bucket>
      reads this
    {
      if ip in entries then Some(entries[ip]) else None
    }

    /** maybeClean. */
    method MaybeClean(now: int)
      requires Valid() && now >= clock
      modifies this`entries, this`lastClean
      ensures lastClean == if now < old(lastClean) + CLEANUP_EVERY then old(lastClean) else now
      ensures forall ip :: BucketFor(ip) ==
                if now < old(lastClean) + CLEANUP_EVERY then old(BucketFor(ip)) else Swept(old(BucketFor(ip)), now)
    {
      if now < lastClean + CLEANUP_EVERY { return; }
      var left := entries.Keys;
      while left != {}
        invariant left <= entries.Keys
        invariant forall ip ::
            BucketFor(ip) == if ip in left then old(BucketFor(ip)) else Swept(old(BucketFor(ip)), now)
        decreases |left|
      {
        var ip :| ip in left;
        assert BucketFor(ip) == old(BucketFor(ip));
        var b := entries[ip];
        var expired := b.blockedAt.None? && After(now, b.windowEnd);
        var unblocked := b.blockedAt.Some? && now > b.blockedAt.value + BLOCK_FOR;
        if expired || unblocked {
          entries := entries - {ip};
        }
        left := left - {ip};
      }
      lastClean := now;
    }

    /** allow: the answer is the same with or without the cleanup it may run. */
    method Allow(ip: string, now: int) returns (ok: bool)
      requires Valid() && now >= clock
      modifies this
      ensures Valid() && clock == now
      ensures ok == !Blocked(old(BucketFor(ip)), now) == !Blocked(BucketFor(ip), now)
      ensures lastClean == if now < old(lastClean) + CLEANUP_EVERY then old(lastClean) else now
      ensures forall k :: BucketFor(k) ==
                if now < old(lastClean) + CLEANUP_EVERY then old(BucketFor(k)) else Swept(old(BucketFor(k)), now)
    {
      MaybeClean(now);
      clock := now;
      forall k | k in entries ensures BucketOk(entries[k], clock) {
        assert BucketFor(k).Some? &&
          (BucketFor(k) == old(BucketFor(k)) || BucketFor(k) == Swept(old(BucketFor(k)), now));
      }
      if ip !in entries { return true; }
      var b := entries[ip];
      if b.blockedAt.Some? && now < b.blockedAt.value + BLOCK_FOR { return false; }
      return true;
    }

    /** record. */
    method Record(ip: string, now: int) returns (blocked: bool)
      requires Valid() && now >= clock
      modifies this`entries, this`clock
      ensures Valid() && clock == now
      ensures entries == old(entries)[ip := Recorded(old(BucketFor(ip)), now)]
      ensures blocked ==> Blocked(BucketFor(ip), now)
      ensures !blocked ==> (Blocked(BucketFor(ip), now) <==> Blocked(old(BucketFor(ip)), now))
    {
      var b := if ip in entries then entries[ip] else Bucket(0, None, None);
      if After(now, b.windowEnd) {
        b := b.(failures := 0, windowEnd := Some(now + WINDOW));
      }
      b := b.(failures := b.failures + 1);
      blocked := b.failures >= MAX_ATTEMPTS;
      if blocked {
        b := b.(blockedAt := Some(now));
      }
      entries := entries[ip := b];
      clock := now;
    }

    /** reset. */
    method Reset(ip: string)
      requires Valid()
      modifies this`entries
      ensures Valid() && entries == old(entries) - {ip}
    {
      entries := entries - {ip};
    }

    /** One login; n tells whether it was an admitted failure of the key. */
    method Handle(e: Event, key: string) returns (n: nat)
      requires Valid() && clock <= StartOf(e) <= TimeOf(e)
      modifies this
      ensures Valid() && clock <= TimeOf(e)
      ensures StartOf(e) < old(lastClean) + CLEANUP_EVERY ==> lastClean == old(lastClean)
      ensures StartOf(e) < old(lastClean) + CLEANUP_EVERY && (e.ip == key ==> e.Failure?) ==>
                n == (if e.ip == key && !Blocked(old(BucketFor(key)), StartOf(e)) then 1 else 0) &&
                BucketFor(key) == (if e.ip == key then AfterAttempt(old(BucketFor(key)), Attempt(StartOf(e), TimeOf(e)))
                                   else old(BucketFor(key)))
      // a success that is let in clears its key, and one that is not changes no block
      ensures e.Success? && e.ip == key ==>
                if Blocked(old(BucketFor(key)), StartOf(e)) then Blocked(BucketFor(key), StartOf(e))
                else BucketFor(key) == None
    {
      n := 0;
      match e {
        case Failure(ip, checked, recorded) =>
          var ok := Allow(ip, checked);
          if ok {
            var blocked := Record(ip, recorded);
            if ip == key { n := 1; }
          }
        case Success(ip, at) =>
          var ok := Allow(ip, at);
          if ok { Reset(ip); }
      }
    }

    /** Login traffic on all keys: a failed login checks, and if admitted records. Whatever came
        before, a five-minute span without reset of the key or cleanup admits at most 18. */
    method Serve(events: seq<Event>, key: string, ghost s: int) returns (admitted: nat)
      requires Valid() && Ordered(events, clock)
      modifies this
      ensures Valid()
      ensures Undisturbed(events, key, old(lastClean)) ==>
                admitted == Admits(old(BucketFor(key)), FailuresOf(events, key))
      ensures Undisturbed(events, key, old(lastClean)) && Within(FailuresOf(events, key), s) ==> admitted <= 18
    {
      if Within(FailuresOf(events, key), s) {
        FailuresSequential(events, key, clock);
        AtMostEighteen(BucketFor(key), FailuresOf(events, key), s, clock);
      }
      admitted := 0;
      var i := 0;
      while i < |events|
        invariant 0 <= i <= |events|
        invariant Valid() && Ordered(events[i..], if i == 0 then old(clock) else TimeOf(events[i-1]))
        invariant clock <= (if i == 0 then old(clock) else TimeOf(events[i-1]))
        invariant Undisturbed(events, key, old(lastClean)) ==> lastClean == old(lastClean)
        invariant Undisturbed(events, key, old(lastClean)) ==>
          admitted + Admits(BucketFor(key), FailuresOf(events[i..], key)) ==
            Admits(old(BucketFor(key)), FailuresOf(events, key))
      {
        ghost var rest := events[i..];
        assert rest[0] == events[i] && rest[1..] == events[i+1..];
        TimesBounded(rest, if i == 0 then old(clock) else TimeOf(events[i-1]));
        LastOfSuffix(events, i);
        OneEvent(BucketFor(key), rest, key);
        var n := Handle(events[i], key);
        admitted := admitted + n;
        i := i + 1;
      }
      assert events[i..] == [];
    }
  }

  // ---------------------------------------------------------------- failures of one key

  /** A failed login: when allow was asked, and when record noted the failure if it was admitted. */
  datatype Attempt = Attempt(checked: int, recorded: int)

  datatype Event = Failure(ip: string, checked: int, recorded: int) | Success(ip: string, at: int)

  function StartOf(e: Event): int { if e.Failure? then e.checked else e.at }

  function TimeOf(e: Event): int { if e.Failure? then e.recorded else e.at }

  /** One attempt after the other, none before now. */
  predicate Sequential(ts: seq<Attempt>, now: int) {
    ts == [] || (now <= ts[0].checked <= ts[0].recorded && Sequential(ts[1..], ts[0].recorded))
  }

  predicate Ordered(events: seq<Event>, now: int) {
    events == [] || (now <= StartOf(events[0]) <= TimeOf(events[0]) &&
                     Ordered(events[1..], TimeOf(events[0])))
  }

  function LastTime(events: seq<Event>): int
    requires events != []
  {
    TimeOf(events[|events|-1])
  }

  predicate NoReset(events: seq<Event>, key: string) {
    forall i :: 0 <= i < |events| ==> events[i].ip == key ==> events[i].Failure?
  }

  predicate Undisturbed(events: seq<Event>, key: string, lastClean: int) {
    NoReset(events, key) && (events != [] ==> LastTime(events) < lastClean + CLEANUP_EVERY)
  }

  function FailuresOf(events: seq<Event>, key: string): seq<Attempt> {
    if events == [] then []
    else (if events[0].Failure? && events[0].ip == key then [Attempt(events[0].checked, events[0].recorded)] else [])
         + FailuresOf(events[1..], key)
  }

  function AfterAttempt(b: Option<Bucket>, t: Attempt): Option<Bucket> {
    if Blocked(b, t.checked) then b else Some(Recorded(b, t.recorded))
  }

  /** How many of the attempts are admitted. */
  function Admits(b: Option<Bucket>, ts: seq<Attempt>): nat
    decreases |ts|
  {
    if ts == [] then 0
    else (if Blocked(b, ts[0].checked) then 0 else 1) + Admits(AfterAttempt(b, ts[0]), ts[1..])
  }

  /** All recorded in the closed span of WINDOW from s. */
  predicate Within(ts: seq<Attempt>, s: int) {
    forall i :: 0 <= i < |ts| ==> s <= ts[i].recorded <= s + WINDOW
  }

  lemma {:induction false} FailuresSequential(events: seq<Event>, key: string, now: int)
    requires Ordered(events, now)
    ensures Sequential(FailuresOf(events, key), now)
    decreases |events|
  {
    if events != [] {
      var e := events[0];
      FailuresSequential(events[1..], key, TimeOf(e));
      var rest := FailuresOf(events[1..], key);
      if e.Failure? && e.ip == key {
        assert ([Attempt(e.checked, e.recorded)] + rest)[1..] == rest;
      } else {
        assert [] + rest == rest;
      }
    }
  }

  lemma OneEvent(b: Option<Bucket>, events: seq<Event>, key: string)
    requires events != []
    ensures var e, rest := events[0], FailuresOf(events[1..], key);
      Admits(b, FailuresOf(events, key)) ==
        if e.Failure? && e.ip == key
        then (if Blocked(b, e.checked) then 0 else 1) + Admits(AfterAttempt(b, Attempt(e.checked, e.recorded)), rest)
        else Admits(b, rest)
  {
    var e, rest := events[0], FailuresOf(events[1..], key);
    if e.Failure? && e.ip == key {
      assert ([Attempt(e.checked, e.recorded)] + rest)[1..] == rest;
    } else {
      assert [] + rest == rest;
    }
  }

  lemma {:induction false} TimesBounded(events: seq<Event>, now: int)
    requires Ordered(events, now) && events != []
    ensures now <= TimeOf(events[0]) <= LastTime(events)
    ensures StartOf(events[0]) <= LastTime(events)
    decreases |events|
  {
    if |events| > 1 {
      TimesBounded(events[1..], TimeOf(events[0]));
    }
  }

  lemma LastOfSuffix(events: seq<Event>, i: nat)
    requires i < |events|
    ensures LastTime(events[i..]) == LastTime(events)
  {}

  // ---------------------------------------------------------------- the bound

  /** How many more failures the key may get admitted before s + WINDOW. */
  function Budget(b: Option<Bucket>, s: int): nat
    requires b.Some? ==> b.value.windowEnd.Some?
  {
    if b.None? || b.value.windowEnd.value < s then MAX_ATTEMPTS
    else if b.value.failures >= MAX_ATTEMPTS then 0
    else if b.value.windowEnd.value >= s + WINDOW then MAX_ATTEMPTS - b.value.failures
    else (MAX_ATTEMPTS - 1 - b.value.failures) + MAX_ATTEMPTS
  }

  lemma AttemptSpends(b: Option<Bucket>, t: Attempt, s: int, now: int)
    requires Ok(b, now) && now <= t.checked <= t.recorded && s <= t.recorded <= s + WINDOW
    ensures Ok(AfterAttempt(b, t), t.recorded)
    ensures Budget(AfterAttempt(b, t), s) + (if Blocked(b, t.checked) then 0 else 1) <= Budget(b, s)
  {}

  /** In any closed five-minute span, from any reachable bucket, at most 18 failures of a key are
      admitted: at most 8 more in a window begun before the span, and at most 10 in the next one. */
  lemma {:induction false} AtMostEighteen(b: Option<Bucket>, ts: seq<Attempt>, s: int, now: int)
    requires Ok(b, now) && Sequential(ts, now)
    requires Within(ts, s)
    ensures Admits(b, ts) <= Budget(b, s) <= 18
    decreases |ts|
  {
    if ts != [] {
      AttemptSpends(b, ts[0], s, now);
      AtMostEighteen(AfterAttempt(b, ts[0]), ts[1..], s, ts[0].recorded);
    }
  }

  function Same(t: int, n: nat): seq<Attempt> { seq(n, i => Attempt(t, t)) }

  lemma {:induction false} AdmitsConcat(b: Option<Bucket>, n: nat, t: int, more: seq<Attempt>)
    requires b.Some? && b.value.blockedAt.None? && b.value.windowEnd.Some? && t <= b.value.windowEnd.value
    requires b.value.failures + n < MAX_ATTEMPTS
    ensures Admits(b, Same(t, n) + more) == n + Admits(Some(b.value.(failures := b.value.failures + n)), more)
    decreases n
  {
    var all := Same(t, n) + more;
    if n == 0 {
      assert all == more;
    } else {
      assert all[0] == Attempt(t, t) && all[1..] == Same(t, n - 1) + more;
      AdmitsConcat(AfterAttempt(b, all[0]), n - 1, t, more);
    }
  }

  /** The bound is reached: one failure opens a window, eight more come as it ends, ten right after. */
  lemma EighteenReached(w: int)
    ensures var b := Some(Recorded(None, w));
            var ts := Same(w + WINDOW, 8) + Same(w + WINDOW + 1, 10);
            Admits(b, ts) == 18 && Sequential(ts, w) && Within(ts, w + 1)
  {
    var b := Some(Recorded(None, w));
    var u := w + WINDOW + 1;
    AdmitsConcat(b, 8, w + WINDOW, Same(u, 10));
    var nine := Some(b.value.(failures := 9));
    assert Same(u, 10)[1..] == Same(u, 8) + Same(u, 1);
    var one := AfterAttempt(nine, Attempt(u, u));
    AdmitsConcat(one, 8, u, Same(u, 1));
    assert Same(u, 1)[1..] == [];
    SameSequential(u, 10);
    ThenSequential(w + WINDOW, 8, u, Same(u, 10));
  }

  lemma {:induction false} ThenSequential(t: int, n: nat, u: int, more: seq<Attempt>)
    requires t <= u && Sequential(more, u)
    ensures Sequential(Same(t, n) + more, t)
  {
    var all := Same(t, n) + more;
    if n == 0 {
      assert all == more;
    } else {
      assert all[0] == Attempt(t, t) && all[1..] == Same(t, n - 1) + more;
      ThenSequential(t, n - 1, u, more);
    }
  }

  // ---------------------------------------------------------------- cleanup

  /** Cleanup never unblocks: every later allow answers as if it had not run. */
  lemma CleanupKeepsBlocks(b: Option<Bucket>, now: int, later: int)
    requires now <= later
    ensures Blocked(Swept(b, now), later) == Blocked(b, later)
  {}

  /** A once-blocked bucket, past its block, whose new window is still open. */
  predicate ForgetsWindow(b: Bucket, now: int) {
    b.blockedAt.Some? && now > b.blockedAt.value + BLOCK_FOR && !After(now, b.windowEnd)
  }

  /** From the next record on, an expired window leaves no trace in what later attempts see. */
  lemma {:induction false} ExpiredIsLikeNew(b: Bucket, ts: seq<Attempt>, now: int)
    requires Expired(b, now) && !ForgetsWindow(b, now) && b.windowEnd.Some? && Sequential(ts, now)
    ensures Admits(Some(b), ts) == Admits(None, ts)
  {
    if ts != [] {
      var t := ts[0];
      SameFromHere(Recorded(Some(b), t.recorded), Recorded(None, t.recorded), ts[1..], t.recorded);
    }
  }

  /** Buckets that differ only in a block long past behave alike. */
  lemma {:induction false} SameFromHere(a: Bucket, b: Bucket, ts: seq<Attempt>, now: int)
    requires a.failures == b.failures && a.windowEnd == b.windowEnd && Sequential(ts, now)
    requires a.blockedAt == b.blockedAt || (!Blocked(Some(a), now) && !Blocked(Some(b), now))
    ensures Admits(Some(a), ts) == Admits(Some(b), ts)
    decreases |ts|
  {
    if ts != [] {
      var t := ts[0];
      if Blocked(Some(a), t.checked) {
        SameFromHere(a, b, ts[1..], t.recorded);
      } else {
        SameFromHere(Recorded(Some(a), t.recorded), Recorded(Some(b), t.recorded), ts[1..], t.recorded);
      }
    }
  }

  /** Cleanup can be noticed by later failures exactly when it forgets an open window, which only a
      once-blocked key can have. */
  lemma CleanupNoticedIff(b: Bucket, now: int)
    requires BucketOk(b, now)
    ensures (forall ts :: Sequential(ts, now) ==> Admits(Swept(Some(b), now), ts) == Admits(Some(b), ts))
       <==> !ForgetsWindow(b, now)
  {
    if !ForgetsWindow(b, now) {
      forall ts | Sequential(ts, now) ensures Admits(Swept(Some(b), now), ts) == Admits(Some(b), ts) {
        if Expired(b, now) { ExpiredIsLikeNew(b, ts, now); }
      }
    } else {
      var ts := Same(now, 10);
      SameSequential(now, 10);
      TenFromNew(now);
      FewerFromOpen(b, now);
      assert Sequential(ts, now) && Admits(Swept(Some(b), now), ts) != Admits(Some(b), ts);
    }
  }

  function StateAfter(b: Option<Bucket>, ts: seq<Attempt>): Option<Bucket>
    decreases |ts|
  {
    if ts == [] then b else StateAfter(AfterAttempt(b, ts[0]), ts[1..])
  }

  lemma {:induction false} StateAfterSame(b: Option<Bucket>, t: int, n: nat, more: seq<Attempt>)
    requires b.Some? && b.value.blockedAt.None? && b.value.windowEnd.Some? && t <= b.value.windowEnd.value
    requires b.value.failures + n < MAX_ATTEMPTS
    ensures StateAfter(b, Same(t, n) + more) == StateAfter(Some(b.value.(failures := b.value.failures + n)), more)
    decreases n
  {
    var all := Same(t, n) + more;
    if n == 0 {
      assert all == more;
    } else {
      assert all[0] == Attempt(t, t) && all[1..] == Same(t, n - 1) + more;
      StateAfterSame(AfterAttempt(b, all[0]), t, n - 1, more);
    }
  }

  /** Ten failures at t and one just after the block leave a bucket whose open window a cleanup forgets:
      nine more failures would be admitted in it, but ten are after the cleanup. */
  lemma ForgottenWindow(t: int)
    ensures var u := t + BLOCK_FOR + 1;
            var b := StateAfter(None, [Attempt(t, t)] + (Same(t, 8) + [Attempt(t, t), Attempt(u, u)]));
            && b.Some? && BucketOk(b.value, u) && ForgetsWindow(b.value, u)
            && Admits(b, Same(u, 10)) == 9 && Admits(Swept(b, u), Same(u, 10)) == 10
  {
    var u := t + BLOCK_FOR + 1;
    var tail := [Attempt(t, t), Attempt(u, u)];
    var all := [Attempt(t, t)] + (Same(t, 8) + tail);
    var one := Some(Bucket(1, Some(t + WINDOW), None));
    assert all[1..] == Same(t, 8) + tail && AfterAttempt(None, all[0]) == one;
    StateAfterSame(one, t, 8, tail);
    var nine := Some(Bucket(9, Some(t + WINDOW), None));
    var ten := Some(Bucket(10, Some(t + WINDOW), Some(t)));
    var b := Some(Bucket(1, Some(u + WINDOW), Some(t)));
    assert AfterAttempt(nine, tail[0]) == ten && tail[1..] == [Attempt(u, u)];
    assert AfterAttempt(ten, Attempt(u, u)) == b && [Attempt(u, u)][1..] == [];
    assert StateAfter(nine, tail) == StateAfter(ten, [Attempt(u, u)]) == StateAfter(b, []) == b;
    TenFromNew(u);
    NineInWindow(b.value, u);
  }

  lemma NineInWindow(b: Bucket, u: int)
    requires b.failures == 1 && b.windowEnd == Some(u + WINDOW) && b.blockedAt.Some?
    requires u > b.blockedAt.value + BLOCK_FOR
    ensures Admits(Some(b), Same(u, 10)) == 9
  {
    var plain := b.(blockedAt := None);
    SameSequential(u, 10);
    SameFromHere(b, plain, Same(u, 10), u);
    assert Same(u, 10) == Same(u, 8) + Same(u, 2);
    AdmitsConcat(Some(plain), 8, u, Same(u, 2));
    assert Same(u, 2)[1..] == Same(u, 1) && Same(u, 1)[1..] == [];
    var nine := Some(plain.(failures := 9));
    assert Blocked(AfterAttempt(nine, Attempt(u, u)), u);
    assert Admits(nine, Same(u, 2)) == 1 + Admits(AfterAttempt(nine, Attempt(u, u)), Same(u, 1));
  }

  lemma {:induction false} SameSequential(t: int, n: nat)
    ensures Sequential(Same(t, n), t)
  {
    if n > 0 {
      assert Same(t, n)[1..] == Same(t, n - 1);
      SameSequential(t, n - 1);
    }
  }

  lemma TenFromNew(now: int)
    ensures Admits(None, Same(now, 10)) == 10
  {
    var one := AfterAttempt(None, Attempt(now, now));
    assert Same(now, 10)[1..] == Same(now, 8) + Same(now, 1);
    AdmitsConcat(one, 8, now, Same(now, 1));
    assert Same(now, 1)[1..] == [];
  }

  lemma FewerFromOpen(b: Bucket, now: int)
    requires BucketOk(b, now) && ForgetsWindow(b, now)
    ensures Admits(Some(b), Same(now, 10)) < 10
  {
    SameSequential(now, 10);
    WithinWindow(Some(b), Same(now, 10), now);
  }

  /** At one instant inside an open window no more than the rest of the ten are admitted. */
  lemma {:induction false} WithinWindow(b: Option<Bucket>, ts: seq<Attempt>, now: int)
    requires b.Some? && BucketOk(b.value, now) && !After(now, b.value.windowEnd)
    requires forall i :: 0 <= i < |ts| ==> ts[i] == Attempt(now, now)
    ensures Admits(b, ts) <= if b.value.failures >= MAX_ATTEMPTS then 0 else MAX_ATTEMPTS - b.value.failures
    decreases |ts|
  {
    if ts != [] {
      WithinWindow(AfterAttempt(b, ts[0]), ts[1..], now);
    }
  }
}
