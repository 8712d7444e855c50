/** `SimpleRateThrottle`: a trimmed history in an expiring cache, against the log of accepted requests. */
module Throttling {
  import opened Prelude

  // ----- logs: times of accepted requests, newest first -----

  ghost predicate Newest(log: seq<real>) {
    forall i, j :: 0 <= i < j < |log| ==> log[i] >= log[j]
  }

  /** The accepted requests of the last `duration` seconds. */
  function InWindow(log: seq<real>, now: real, duration: real): seq<real> {
    if log == [] then []
    else if now - duration < log[0] <= now then [log[0]] + InWindow(log[1..], now, duration)
    else InWindow(log[1..], now, duration)
  }

  /** The simple specification of a throttle. */
  predicate Allows(log: seq<real>, now: real, numRequests: int, duration: real) {
    |InWindow(log, now, duration)| < numRequests
  }

  /** Any two accepted requests `numRequests` apart are at least `duration` apart in time. */
  ghost predicate Spaced(log: seq<real>, numRequests: int, duration: real) {
    && (numRequests <= 0 ==> log == [])
    && forall i, j :: 0 <= i <= j < |log| && j == i + numRequests ==> log[i] - log[j] >= duration
  }

  /** The loop that pops expired requests off the tail. */
  function Trim(history: seq<real>, now: real, duration: real): (r: seq<real>)
    ensures r <= history
  {
    if history != [] && history[|history| - 1] <= now - duration
    then Trim(history[..|history| - 1], now, duration) else history
  }

  /** The window holds each time as often as the log if it is less than `duration` ago, and else not. */
  lemma {:induction false} WindowHolds(log: seq<real>, now: real, duration: real, t: real)
    ensures multiset(InWindow(log, now, duration))[t]
         == if now - duration < t <= now then multiset(log)[t] else 0
  {
    if log != [] {
      WindowHolds(log[1..], now, duration, t);
      assert log == [log[0]] + log[1..];
    }
  }

  lemma {:induction false} NothingInWindow(log: seq<real>, now: real, duration: real)
    requires forall i :: 0 <= i < |log| ==> log[i] <= now - duration
    ensures InWindow(log, now, duration) == []
  {
    if log != [] { NothingInWindow(log[1..], now, duration); }
  }

  lemma {:induction false} AllInWindow(log: seq<real>, now: real, duration: real)
    requires forall i :: 0 <= i < |log| ==> now - duration < log[i] <= now
    ensures InWindow(log, now, duration) == log
  {
    if log != [] { AllInWindow(log[1..], now, duration); }
  }

  lemma {:induction false} InWindowAppend(a: seq<real>, b: seq<real>, now: real, duration: real)
    ensures InWindow(a + b, now, duration) == InWindow(a, now, duration) + InWindow(b, now, duration)
  {
    if a == [] {
      assert a + b == b;
    } else {
      assert (a + b)[1..] == a[1..] + b;
      InWindowAppend(a[1..], b, now, duration);
    }
  }

  /** In a newest-first log of past requests, the window is a prefix. */
  lemma WindowIsPrefix(log: seq<real>, n: nat, now: real, duration: real)
    requires n <= |log|
    requires forall i :: 0 <= i < n ==> now - duration < log[i] <= now
    requires forall i :: n <= i < |log| ==> log[i] <= now - duration
    ensures InWindow(log, now, duration) == log[..n]
  {
    AllInWindow(log[..n], now, duration);
    NothingInWindow(log[n..], now, duration);
    InWindowAppend(log[..n], log[n..], now, duration);
    assert log[..n] + log[n..] == log;
    assert log[..n] + [] == log[..n];
  }

  lemma {:induction false} TrimBoundary(history: seq<real>, now: real, duration: real)
    requires Newest(history)
    ensures var n := |Trim(history, now, duration)|;
      && (forall i :: 0 <= i < n ==> history[i] > now - duration)
      && (forall i :: n <= i < |history| ==> history[i] <= now - duration)
  {
    if history != [] {
      var last := |history| - 1;
      if history[last] <= now - duration {
        TrimBoundary(history[..last], now, duration);
      } else {
        forall i | 0 <= i < |history|
          ensures history[i] > now - duration
        {
          if i < last { assert history[i] >= history[last]; }
        }
      }
    }
  }

  /** Popping only the tail is enough: what stays is exactly the window, however much of the log
      beyond the window the history had already forgotten. */
  lemma TrimIsWindow(log: seq<real>, history: seq<real>, now: real, duration: real)
    requires Newest(log) && history <= log
    requires forall i :: 0 <= i < |log| ==> log[i] <= now
    requires forall i :: |history| <= i < |log| ==> log[i] <= now - duration
    ensures Trim(history, now, duration) == InWindow(log, now, duration)
  {
    forall i, j | 0 <= i < j < |history|
      ensures history[i] >= history[j]
    {
      assert log[i] >= log[j];
    }
    TrimBoundary(history, now, duration);
    var n := |Trim(history, now, duration)|;
    forall i | n <= i < |log|
      ensures log[i] <= now - duration
    {
      if i < |history| { assert log[i] == history[i]; }
    }
    forall i | 0 <= i < n
      ensures now - duration < log[i]
    {
      assert log[i] == history[i];
    }
    WindowIsPrefix(log, n, now, duration);
    assert log[..n] == history[..n];
  }

  // ----- how many requests a window can hold -----

  lemma FirstOfWindow(log: seq<real>, a: nat, b: nat, now: real, duration: real)
    requires Newest(log) && |log| > 0 && a < b <= |log| - 1
    ensures log[0] >= log[1..][a]
  {
  }

  /** If the newest request is in the window, the window is a prefix of the log. */
  lemma {:induction false} WindowStartsHere(log: seq<real>, now: real, duration: real)
    requires Newest(log) && log != [] && log[0] <= now
    ensures var w := InWindow(log, now, duration);
      && w <= log
      && (forall i :: 0 <= i < |w| ==> now - duration < log[i] <= now)
      && (forall i :: |w| <= i < |log| ==> log[i] <= now - duration)
  {
    TrimIsWindow(log, log, now, duration);
    TrimBoundary(log, now, duration);
    forall i | 0 <= i < |log|
      ensures log[i] <= now
    {
      if i > 0 { assert log[0] >= log[i]; }
    }
  }

  /** Positions of the log that lie in the window ending at `now` are a contiguous range. */
  lemma {:induction false} WindowRange(log: seq<real>, now: real, duration: real) returns (a: nat, b: nat)
    requires Newest(log)
    ensures a <= b <= |log| && InWindow(log, now, duration) == log[a..b]
    ensures forall i :: a <= i < b ==> now - duration < log[i] <= now
  {
    if log == [] {
      a, b := 0, 0;
    } else {
      a, b := WindowRange(log[1..], now, duration);
      if now - duration < log[0] <= now {
        if a < b {
          FirstOfWindow(log, a, b, now, duration);
        }
        WindowStartsHere(log, now, duration);
        a, b := 0, |InWindow(log, now, duration)|;
      } else {
        assert log[1..][a..b] == log[a + 1..b + 1];
        a, b := a + 1, b + 1;
      }
    }
  }

  lemma SpacedAt(log: seq<real>, i: nat, numRequests: int, duration: real)
    requires Spaced(log, numRequests, duration) && 0 < numRequests && i + numRequests < |log|
    ensures log[i] - log[i + numRequests] >= duration
  {
  }

  /** No window of `duration` seconds, ending at any time whatever, holds more than the rate. */
  lemma WindowBounded(log: seq<real>, now: real, numRequests: int, duration: real)
    requires Newest(log) && Spaced(log, numRequests, duration)
    ensures |InWindow(log, now, duration)| <= Max(numRequests, 0)
  {
    var a, b := WindowRange(log, now, duration);
    if numRequests > 0 && a + numRequests < b { SpacedAt(log, a, numRequests, duration); }
  }

  /** Accepting a request the specification allows keeps the log spaced. */
  lemma AcceptKeepsSpaced(log: seq<real>, now: real, numRequests: int, duration: real)
    requires Newest(log) && Spaced(log, numRequests, duration) && Allows(log, now, numRequests, duration)
    requires forall i :: 0 <= i < |log| ==> log[i] <= now
    ensures Newest([now] + log) && Spaced([now] + log, numRequests, duration)
  {
    var next := [now] + log;
    forall i, j | 0 <= i <= j < |next| && j == i + numRequests
      ensures next[i] - next[j] >= duration
    {
      if i > 0 {
        assert next[i] == log[i - 1] && next[j] == log[j - 1];
      } else {
        WindowStartsHere(log, now, duration);
        assert next[j] == log[j - 1];
      }
    }
  }

  // ----- waiting -----

  /** `wait`: None when the rate can never be met. */
  function WaitFor(history: seq<real>, now: real, numRequests: int, duration: real): Option<real> {
    var remaining := if history != [] then duration - (now - history[|history| - 1]) else duration;
    var available := numRequests - |history| + 1;
    if available <= 0 then None else Some(remaining / available as real)
  }

  lemma WaitOfFull(w: seq<real>, now: real, numRequests: int, duration: real)
    requires |w| == numRequests >= 1
    ensures WaitFor(w, now, numRequests, duration) == Some(duration - (now - w[|w| - 1]))
  {
    var remaining := duration - (now - w[|w| - 1]);
    assert (numRequests - |w| + 1) as real == 1.0;
    assert remaining / 1.0 == remaining;
  }

  /** After a rejection, the wait is positive, at most one duration, and exact: a later request is
      allowed if and only if it does not come before `now + wait`. */
  lemma WaitIsExact(log: seq<real>, now: real, numRequests: int, duration: real, later: real)
    requires Newest(log) && Spaced(log, numRequests, duration)
    requires forall i :: 0 <= i < |log| ==> log[i] <= now
    requires numRequests >= 1 && !Allows(log, now, numRequests, duration) && now <= later
    ensures var wait := WaitFor(InWindow(log, now, duration), now, numRequests, duration);
      && wait.Some? && 0.0 < wait.value <= duration
      && (Allows(log, later, numRequests, duration) <==> later >= now + wait.value)
  {
    WindowBounded(log, now, numRequests, duration);
    WindowStartsHere(log, now, duration);
    WindowStartsHere(log, later, duration);
    var w := InWindow(log, now, duration);
    var oldest := w[|w| - 1];
    assert oldest == log[numRequests - 1];
    var v := InWindow(log, later, duration);
    WaitOfFull(w, now, numRequests, duration);
    if |v| < numRequests {
      assert log[numRequests - 1] <= later - duration;
    } else {
      assert later - duration < log[numRequests - 1];
    }
  }

  /** A rate of 0 is the exception: no request is ever allowed, and yet a wait of one duration is
      recommended.  For negative rates there is none. */
  lemma ZeroRateWait(log: seq<real>, now: real, numRequests: int, duration: real)
    requires Spaced(log, numRequests, duration) && numRequests <= 0
    ensures !Allows(log, now, numRequests, duration)
    ensures var wait := WaitFor(InWindow(log, now, duration), now, numRequests, duration);
      if numRequests == 0 then wait == Some(duration) else wait == None
  {
    var w := InWindow(log, now, duration);
    assert log == [] && w == [];
    if numRequests == 0 {
      var available := numRequests - |w| + 1;
      assert available == 1 && available as real == 1.0;
      assert duration / available as real == duration;
    }
  }

  /** `math.ceil` */
  function Ceil(x: real): int {
    if x.Floor as real == x then x.Floor else x.Floor + 1
  }

  lemma CeilIsLeast(x: real)
    ensures x <= Ceil(x) as real < x + 1.0
    ensures x > 0.0 ==> Ceil(x) >= 1
  {
    assert x.Floor as real <= x < x.Floor as real + 1.0;
  }

  /** The whole seconds a `Throttled` error reports are never too few: a client that waits that
      long is allowed. */
  lemma RetryAfterIsEnough(log: seq<real>, now: real, numRequests: int, duration: real)
    requires Newest(log) && Spaced(log, numRequests, duration)
    requires forall i :: 0 <= i < |log| ==> log[i] <= now
    requires numRequests >= 1 && !Allows(log, now, numRequests, duration)
    ensures var wait := WaitFor(InWindow(log, now, duration), now, numRequests, duration);
      && wait.Some? && 1 <= Ceil(wait.value)
      && Allows(log, now + Ceil(wait.value) as real, numRequests, duration)
      && Ceil(wait.value) as real < wait.value + 1.0
  {
    WaitIsExact(log, now, numRequests, duration, now);
    var wait := WaitFor(InWindow(log, now, duration), now, numRequests, duration).value;
    CeilIsLeast(wait);
    WaitIsExact(log, now, numRequests, duration, now + Ceil(wait) as real);
  }

  // ----- the cache and the throttle -----

  datatype Entry = Entry(history: seq<real>, expires: real)

  /** How the entry of a key stands to the key's log: it remembers all that was in the window when
      the newest request was accepted; without an entry, that request is at least `duration` old. */
  ghost predicate Remembers(entry: Option<Entry>, log: seq<real>, clock: real, duration: real) {
    match entry
    case Some(e) =>
      && log != []
      && e.history <= log
      && e.expires == log[0] + duration
      && forall i :: |e.history| <= i < |log| ==> log[i] <= log[0] - duration
    case None => log == [] || log[0] + duration <= clock
  }

  ghost predicate KeyValid(entry: Option<Entry>, log: seq<real>, clock: real, numRequests: int, duration: real) {
    && Newest(log) && Spaced(log, numRequests, duration)
    && (log != [] ==> log[0] <= clock)
    && Remembers(entry, log, clock, duration)
  }

  lemma PastLog(log: seq<real>, now: real)
    requires Newest(log) && (log != [] ==> log[0] <= now)
    ensures forall i :: 0 <= i < |log| ==> log[i] <= now
  {
    forall i | 0 <= i < |log|
      ensures log[i] <= now
    {
      if i > 0 { assert log[0] >= log[i]; }
    }
  }

  /** What a later request reads, whether or not the entry has expired or vanished, trims to the
      window of the log. */
  lemma ReadIsWindow(entry: Option<Entry>, log: seq<real>, clock: real, now: real, numRequests: int, duration: real,
                     history: seq<real>)
    requires KeyValid(entry, log, clock, numRequests, duration) && clock <= now && duration > 0.0
    requires match entry
      case Some(e) => history == e.history || (history == [] && e.expires <= now)
      case None => history == []
    ensures Trim(history, now, duration) == InWindow(log, now, duration)
  {
    PastLog(log, now);
    if history == [] {
      if log != [] { PastLog(log, log[0]); }
      if entry.None? || entry.value.expires <= now {
        NothingInWindow(log, now, duration);
      } else {
        TrimIsWindow(log, history, now, duration);
      }
    } else {
      TrimIsWindow(log, history, now, duration);
    }
  }

  /** The entry written after an acceptance remembers enough again. */
  lemma AcceptRemembers(entry: Option<Entry>, log: seq<real>, clock: real, now: real, numRequests: int, duration: real)
    requires KeyValid(entry, log, clock, numRequests, duration) && clock <= now && duration > 0.0
    requires Allows(log, now, numRequests, duration)
    ensures var entry := Entry([now] + InWindow(log, now, duration), now + duration);
      KeyValid(Some(entry), [now] + log, now, numRequests, duration)
  {
    PastLog(log, now);
    AcceptKeepsSpaced(log, now, numRequests, duration);
    if log != [] { WindowStartsHere(log, now, duration); }
    var w, next := InWindow(log, now, duration), [now] + log;
    assert [now] + w <= next;
    forall i | |w| + 1 <= i < |next|
      ensures next[i] <= now - duration
    {
      assert next[i] == log[i - 1];
    }
  }

  /** The shared cache, and as ghost state the log of every request accepted under each key. */
  class Cache {
    var entries: map<string, Entry>
    ghost var accepted: map<string, seq<real>>
    ghost var clock: real

    constructor (now: real)
      ensures entries == map[] && accepted == map[] && clock == now
    {
      entries, accepted, clock := map[], map[], now;
    }

    ghost function Log(key: string): seq<real>
      reads this
    {
      if key in accepted then accepted[key] else []
    }

    function EntryOf(key: string): Option<Entry>
      reads this
    {
      if key in entries then Some(entries[key]) else None
    }

    ghost predicate Valid(numRequests: int, duration: real)
      reads this
    {
      && duration > 0.0
      && forall key :: KeyValid(EntryOf(key), Log(key), clock, numRequests, duration)
    }

    /** `cache.get(key, [])` at time `now`; an entry whose timeout has passed may be gone already. */
    method Get(key: string, now: real, gone: bool) returns (history: seq<real>)
      ensures match EntryOf(key)
        case Some(e) => history == if gone && e.expires <= now then [] else e.history
        case None => history == []
    {
      if key !in entries || (gone && entries[key].expires <= now) {
        return [];
      }
      history := entries[key].history;
    }

    /** `cache.set(key, history, timeout)` at time `now` */
    method Set(key: string, history: seq<real>, now: real, timeout: real)
      modifies `entries
      ensures entries == old(entries)[key := Entry(history, now + timeout)]
    {
      entries := entries[key := Entry(history, now + timeout)];
    }
  }

  /** Whatever run of requests led here, no window of any key, past or present, ever held more
      accepted requests than the rate. */
  lemma RateNeverExceeded(cache: Cache, key: string, at: real, numRequests: int, duration: real)
    requires cache.Valid(numRequests, duration)
    ensures |InWindow(cache.Log(key), at, duration)| <= Max(numRequests, 0)
  {
    assert KeyValid(cache.EntryOf(key), cache.Log(key), cache.clock, numRequests, duration);
    WindowBounded(cache.Log(key), at, numRequests, duration);
  }

  class SimpleRateThrottle {
    const cache: Cache
    const limited: bool      // false when the rate is None
    const numRequests: int
    const duration: real

    var key: Option<string>
    var history: seq<real>
    var now: real

    constructor (cache: Cache, limited: bool, numRequests: int, duration: real)
      ensures this.cache == cache && this.limited == limited
      ensures this.numRequests == numRequests && this.duration == duration
    {
      this.cache, this.limited, this.numRequests, this.duration := cache, limited, numRequests, duration;
      key, history, now := None, [], 0.0;
    }

    /** `wait` */
    function Wait(): Option<real>
      reads this
    {
      WaitFor(history, now, numRequests, duration)
    }

    /** What the object's wait promises a client: it is positive and at most one duration, and a
        request on the key is allowed from exactly then on. */
    ghost predicate WaitIsHonest()
      requires key.Some?
      reads this, cache
    {
      && Wait().Some? && 0.0 < Wait().value <= duration
      && forall later :: now <= later ==>
           (Allows(cache.Log(key.value), later, numRequests, duration) <==> later >= now + Wait().value)
    }

    lemma RejectedWait()
      requires cache.Valid(numRequests, duration) && key.Some? && cache.clock == now && numRequests >= 1
      requires history == InWindow(cache.Log(key.value), now, duration)
      requires !Allows(cache.Log(key.value), now, numRequests, duration)
      ensures WaitIsHonest()
    {
      hide InWindow, WaitFor, Spaced, Remembers, Allows;
      var log := cache.Log(key.value);
      assert KeyValid(cache.EntryOf(key.value), log, cache.clock, numRequests, duration);
      PastLog(log, now);
      WaitIsExact(log, now, numRequests, duration, now);
      forall later | now <= later
        ensures Allows(log, later, numRequests, duration) <==> later >= now + Wait().value
      {
        WaitIsExact(log, now, numRequests, duration, later);
      }
    }

    /** Ghost bookkeeping: time passes, and a rejected request leaves no trace. */
    ghost method Advance(now: real)
      requires cache.Valid(numRequests, duration) && cache.clock <= now
      modifies cache`clock
      ensures cache.Valid(numRequests, duration) && cache.clock == now
    {
      cache.clock := now;
      forall k
        ensures KeyValid(cache.EntryOf(k), cache.Log(k), cache.clock, numRequests, duration)
      {
        assert KeyValid(old(cache.EntryOf(k)), old(cache.Log(k)), old(cache.clock), numRequests, duration);
      }
    }

    /** `throttle_success` */
    method Success(ghost log: seq<real>)
      requires cache.Valid(numRequests, duration) && cache.clock <= now && key.Some?
      requires log == cache.Log(key.value)
      requires KeyValid(Some(Entry([now] + history, now + duration)), [now] + log, now, numRequests, duration)
      modifies `history, cache
      ensures cache.Valid(numRequests, duration) && cache.clock == now
      ensures history == [now] + old(history)
      ensures cache.accepted == old(cache.accepted)[key.value := [now] + log]
    {
      Advance(now);
      label passed:
      history := [now] + history;
      cache.Set(key.value, history, now, duration);
      cache.accepted := cache.accepted[key.value := [now] + log];
      forall k
        ensures KeyValid(cache.EntryOf(k), cache.Log(k), cache.clock, numRequests, duration)
      {
        if k != key.value {
          assert KeyValid(old@passed(cache.EntryOf(k)), old@passed(cache.Log(k)), now, numRequests, duration);
        }
      }
    }

    /** One request at time `now`.  The decision is the one of the simple specification on the log of
        accepted requests, whatever the cache has forgotten by then. */
    method AllowRequest(cacheKey: Option<string>, now: real, gone: bool) returns (allowed: bool)
      requires cache.Valid(numRequests, duration) && cache.clock <= now
      modifies this, cache
      ensures cache.Valid(numRequests, duration)
      ensures !limited || cacheKey.None? ==> allowed && cache.accepted == old(cache.accepted)
      ensures limited && cacheKey.Some? ==>
        var log := old(cache.Log(cacheKey.value));
        && allowed == Allows(log, now, numRequests, duration)
        && cache.accepted
           == (if allowed then old(cache.accepted)[cacheKey.value := [now] + log] else old(cache.accepted))
        && cache.clock == now && this.now == now && key == cacheKey
        && history == (if allowed then [now] else []) + InWindow(log, now, duration)
      ensures limited && key.Some? && !allowed && numRequests >= 1 ==> WaitIsHonest()
    {
      hide KeyValid, InWindow, WaitIsHonest;
      if !limited {
        return true;
      }
      key := cacheKey;
      if key.None? {
        return true;
      }
      ghost var log, entry := cache.Log(key.value), cache.EntryOf(key.value);
      history := cache.Get(key.value, now, gone);
      this.now := now;
      assert KeyValid(entry, log, cache.clock, numRequests, duration);
      ReadIsWindow(entry, log, cache.clock, now, numRequests, duration, history);

      while history != [] && history[|history| - 1] <= now - duration
        invariant Trim(history, now, duration) == InWindow(log, now, duration)
        modifies `history
        decreases |history|
      {
        history := history[..|history| - 1];
      }
      assert history == InWindow(log, now, duration);

      if |history| >= numRequests {
        Advance(now);
        if numRequests >= 1 { RejectedWait(); }
        return false;
      }
      AcceptRemembers(entry, log, cache.clock, now, numRequests, duration);
      Success(log);
      return true;
    }
  }
}
