/**
 * The sliding-window rate limiter of src/middleware/rateLimit.ts: a
 * process-wide map from caller identity to the timestamps of its admitted
 * requests, pruned to the last minute before every decision.
 */
module RateLimit {
  import opened Wrappers
  import opened Sequences
  import opened Numbers
  import opened Js

  const AuthenticatedLimit: nat := 100
  const UnauthenticatedLimit: nat := 20
  const WindowMs: int := 60 * 1000
  const HealthPath: string := "/api/health"
  const DefaultClientIp: string := "127.0.0.1"
  const BearerPrefix: string := "Bearer "
  const ApiKeyPrefix: string := "apikey:"
  const IpPrefix: string := "ip:"

  /** `cleanupOldEntries`: the timestamps less than one window old, in their original order. */
  function CleanupOldEntries(timestamps: seq<int>, now: int): (kept: seq<int>)
    ensures |kept| <= |timestamps|
    ensures forall i :: 0 <= i < |kept| ==> now - kept[i] < WindowMs
    ensures forall t :: multiset(kept)[t] == if now - t < WindowMs then multiset(timestamps)[t] else 0
  {
    FilterMultiset(timestamps, t => now - t < WindowMs);
    Filter(timestamps, t => now - t < WindowMs)
  }

  /** Cleanup keeps order: it acts on each part of a concatenation separately. */
  lemma CleanupKeepsOrder(a: seq<int>, b: seq<int>, now: int)
    ensures CleanupOldEntries(a + b, now) == CleanupOldEntries(a, now) + CleanupOldEntries(b, now)
  {
    FilterConcat(a, b, t => now - t < WindowMs);
  }

  /** A timestamp exactly one window old is dropped; one a millisecond younger is kept. */
  lemma CleanupBoundary(now: int)
    ensures CleanupOldEntries([now - WindowMs], now) == []
    ensures CleanupOldEntries([now - WindowMs + 1], now) == [now - WindowMs + 1]
  {
    FilterKeepsAll([now - WindowMs + 1], t => now - t < WindowMs);
  }

  /** `Math.min(...timestamps)` on a non-empty list. */
  function Min(s: seq<int>): (m: int)
    requires |s| > 0
    ensures m in s
    ensures forall i :: 0 <= i < |s| ==> m <= s[i]
  {
    if |s| == 1 then s[0]
    else
      var rest := Min(s[1..]);
      assert forall i :: 1 <= i < |s| ==> s[i] == s[1..][i - 1];
      if s[0] <= rest then s[0] else rest
  }

  /**
   * `getRetryAfterSeconds`: whole seconds until the oldest timestamp leaves
   * the window. When every timestamp is in the window and not in the
   * future, the hint is between 1 and 60.
   */
  function RetryAfterSeconds(timestamps: seq<int>, now: int): (seconds: int)
    requires |timestamps| > 0
    ensures seconds * 1000 >= WindowMs - (now - Min(timestamps)) > (seconds - 1) * 1000
    ensures (forall i :: 0 <= i < |timestamps| ==> timestamps[i] <= now && now - timestamps[i] < WindowMs)
      ==> 1 <= seconds <= 60
  {
    CeilDiv(WindowMs - (now - Min(timestamps)), 1000)
  }

  /** A per-window limit; every limit of the middleware admits at least one request. */
  type Limit = n: nat | n >= 1 witness 1

  /** The identity a request is counted under, and its limit per window. */
  datatype Identity = Identity(key: string, limit: Limit)

  /** The limit that belongs to a store key, read off its prefix. */
  function LimitFor(key: string): (limit: Limit)
    ensures StartsWith(key, ApiKeyPrefix) ==> limit == 100
    ensures !StartsWith(key, ApiKeyPrefix) ==> limit == 20
  {
    if StartsWith(key, ApiKeyPrefix) then AuthenticatedLimit else UnauthenticatedLimit
  }

  /** `x-forwarded-for`, or the loopback address when it is absent or empty. */
  function ClientIp(forwardedFor: Option<string>): (ip: string)
    ensures ip != ""
    ensures Truthy(forwardedFor) ==> ip == forwardedFor.value
    ensures !Truthy(forwardedFor) ==> ip == "127.0.0.1"
  {
    if Truthy(forwardedFor) then forwardedFor.value else DefaultClientIp
  }

  /**
   * Identity selection: a `Bearer` token that is a known API key counts
   * under `apikey:<key>` with limit 100; every other request under
   * `ip:<client ip>` with limit 20. `apiKeys` stands for the `api_keys` table.
   */
  function SelectIdentity(authorization: Option<string>, forwardedFor: Option<string>, apiKeys: set<string>): (id: Identity)
    ensures id.limit == LimitFor(id.key)
    ensures authorization.Some? && StartsWith(authorization.value, BearerPrefix)
              && authorization.value[|BearerPrefix|..] in apiKeys
      ==> id == Identity(ApiKeyPrefix + authorization.value[|BearerPrefix|..], AuthenticatedLimit)
    ensures !(authorization.Some? && StartsWith(authorization.value, BearerPrefix)
              && authorization.value[|BearerPrefix|..] in apiKeys)
      ==> id == Identity(IpPrefix + ClientIp(forwardedFor), UnauthenticatedLimit)
  {
    var clientIp := ClientIp(forwardedFor);
    if authorization.Some? && StartsWith(authorization.value, BearerPrefix) then
      var apiKey := authorization.value[|BearerPrefix|..];
      if apiKey in apiKeys then
        var key := ApiKeyPrefix + apiKey;
        assert key[..|ApiKeyPrefix|] == ApiKeyPrefix;
        Identity(key, AuthenticatedLimit)
      else
        var key := IpPrefix + clientIp;
        assert key[0] == 'i';
        Identity(key, UnauthenticatedLimit)
    else
      var key := IpPrefix + clientIp;
      assert key[0] == 'i';
      Identity(key, UnauthenticatedLimit)
  }

  /** The middleware's answer: pass the request on, or 429 `RATE_LIMITED` with a `Retry-After` hint. */
  datatype Decision = Next | Limited(retryAfter: int)

  type Store = map<string, seq<int>>

  /** `rateLimitStore.get(key) || []`. */
  function History(store: Store, key: string): seq<int> {
    if key in store then store[key] else []
  }

  /**
   * One admission decision for `id` at time `now`, and the store after it.
   * Denied when the pruned history already holds `limit` timestamps (store
   * untouched); otherwise admitted, and the entry becomes the pruned history
   * followed by `now`. No other key is touched.
   */
  function Step(store: Store, id: Identity, now: int): (out: (Decision, Store))
    ensures out.0.Next? <==> |CleanupOldEntries(History(store, id.key), now)| < id.limit
    ensures out.0.Limited? ==> out.0.retryAfter == RetryAfterSeconds(CleanupOldEntries(History(store, id.key), now), now)
    ensures out.0.Limited? ==> out.1 == store
    ensures out.0.Next? ==> id.key in out.1 && out.1[id.key] == CleanupOldEntries(History(store, id.key), now) + [now]
    ensures out.1 - {id.key} == store - {id.key}
  {
    var pruned := CleanupOldEntries(History(store, id.key), now);
    if |pruned| >= id.limit then (Limited(RetryAfterSeconds(pruned, now)), store)
    else (Next, store[id.key := pruned + [now]])
  }

  /** The store invariant: no entry holds more timestamps than its key's limit. */
  predicate Bounded(store: Store) {
    forall key :: key in store ==> |store[key]| <= LimitFor(key)
  }

  /** Every decision keeps the store bounded, for identities whose limit is their key's limit. */
  lemma StepKeepsBounded(store: Store, id: Identity, now: int)
    requires Bounded(store)
    requires id.limit == LimitFor(id.key)
    ensures Bounded(Step(store, id, now).1)
  {
    var after := Step(store, id, now).1;
    forall key | key in after ensures |after[key]| <= LimitFor(key) {
      if key != id.key {
        assert key in after - {id.key};
      }
    }
  }

  /** A denial carries a hint between 1 and 60 seconds whenever no stored timestamp lies in the future. */
  lemma DenialHint(store: Store, id: Identity, now: int)
    requires forall t :: t in History(store, id.key) ==> t <= now
    requires Step(store, id, now).0.Limited?
    ensures 1 <= Step(store, id, now).0.retryAfter <= 60
  {
    var pruned := CleanupOldEntries(History(store, id.key), now);
    assert forall i :: 0 <= i < |pruned| ==> pruned[i] in History(store, id.key);
  }

  /** Once every stored timestamp is a full window old, the identity is admitted again with a fresh entry. */
  lemma ReadmittedAfterWindow(store: Store, id: Identity, now: int)
    requires forall t :: t in History(store, id.key) ==> now - t >= WindowMs
    ensures Step(store, id, now).0 == Next
    ensures Step(store, id, now).1[id.key] == [now]
  {
    var h := History(store, id.key);
    assert forall i :: 0 <= i < |h| ==> h[i] in h;
    FilterKeepsNone(h, t => now - t < WindowMs);
  }

  /** Within its limit, a history with one timestamp a full window old admits the next request. */
  lemma AdmittedWhenOneLeaves(store: Store, id: Identity, now: int, t: int)
    requires |History(store, id.key)| <= id.limit
    requires t in History(store, id.key) && now - t >= WindowMs
    ensures Step(store, id, now).0 == Next
  {
    FilterDropsOne(History(store, id.key), t => now - t < WindowMs, t);
  }

  /**
   * A blocked identity is let in again as soon as its oldest stored
   * timestamp leaves the window, even while the others are still inside it.
   */
  lemma AdmittedOnceOldestLeaves(store: Store, id: Identity, now: int)
    requires |History(store, id.key)| <= id.limit
    requires History(store, id.key) != []
    requires now - Min(History(store, id.key)) >= WindowMs
    ensures Step(store, id, now).0 == Next
  {
    AdmittedWhenOneLeaves(store, id, now, Min(History(store, id.key)));
  }

  /** A denied request retried `Retry-After` seconds later, or any time after that, is admitted. */
  lemma RetryHonoured(store: Store, id: Identity, now: int, later: int)
    requires |History(store, id.key)| <= id.limit
    requires Step(store, id, now).0.Limited?
    requires later >= now + Step(store, id, now).0.retryAfter * 1000
    ensures Step(store, id, later).0 == Next
  {
    var pruned := CleanupOldEntries(History(store, id.key), now);
    var oldest := Min(pruned);
    assert oldest in History(store, id.key);
    AdmittedWhenOneLeaves(store, id, later, oldest);
  }

  /** A request by one identity never changes the next decision for another. */
  lemma IdentitiesIndependent(store: Store, a: Identity, b: Identity, nowA: int, nowB: int)
    requires a.key != b.key
    ensures Step(Step(store, a, nowA).1, b, nowB).0 == Step(store, b, nowB).0
  {
    var after := Step(store, a, nowA).1;
    assert b.key in after - {a.key} <==> b.key in store - {a.key};
    assert History(after, b.key) == History(store, b.key);
  }

  /** A run of requests by one identity at the given times, from the given store. */
  function Replay(store: Store, id: Identity, times: seq<int>): (out: (seq<Decision>, Store))
    ensures |out.0| == |times|
  {
    if times == [] then ([], store)
    else
      var before := Replay(store, id, times[..|times| - 1]);
      var step := Step(before.1, id, times[|times| - 1]);
      (before.0 + [step.0], step.1)
  }

  /** Times that never decrease and all fall within one window of the first. */
  predicate WithinOneWindow(times: seq<int>) {
    forall i, j :: 0 <= i <= j < |times| ==> 0 <= times[j] - times[i] < WindowMs
  }

  /** Every decision of a run admitted its request. */
  predicate AllAdmitted(decisions: seq<Decision>) {
    forall i :: 0 <= i < |decisions| ==> decisions[i] == Next
  }

  /** Appending an admission to an all-admitted run keeps it all-admitted. */
  lemma AdmittedSnoc(decisions: seq<Decision>)
    requires AllAdmitted(decisions)
    ensures AllAdmitted(decisions + [Next])
  {
  }

  /** Replaying one more request is one more `Step` after the shorter run. */
  lemma ReplaySnoc(store: Store, id: Identity, times: seq<int>, now: int)
    ensures Replay(store, id, times + [now])
      == (Replay(store, id, times).0 + [Step(Replay(store, id, times).1, id, now).0],
          Step(Replay(store, id, times).1, id, now).1)
  {
    assert (times + [now])[..|times|] == times;
  }

  /** Writing a key twice leaves the second value. */
  lemma UpdateTwice(m: Store, key: string, a: seq<int>, b: seq<int>)
    ensures m[key := a][key := b] == m[key := b]
  {
  }

  /** Dropping the last request keeps a run within one window. */
  lemma WithinOneWindowPrefix(times: seq<int>)
    requires WithinOneWindow(times)
    requires |times| >= 1
    ensures WithinOneWindow(times[..|times| - 1])
  {
  }

  /** The last time of a run within one window is at most a window after every earlier one, and not before it. */
  lemma LastWithinWindow(times: seq<int>)
    requires WithinOneWindow(times)
    requires |times| >= 1
    ensures forall i :: 0 <= i < |times| - 1 ==> times[i] <= times[|times| - 1] && times[|times| - 1] - times[i] < WindowMs
  {
  }

  /** An entry below the limit whose timestamps are all inside the window is admitted and extended by `now`. */
  lemma AdmittedBelowLimit(store: Store, id: Identity, now: int)
    requires |History(store, id.key)| < id.limit
    requires forall i :: 0 <= i < |History(store, id.key)| ==> now - History(store, id.key)[i] < WindowMs
    ensures Step(store, id, now) == (Next, store[id.key := History(store, id.key) + [now]])
  {
    FilterKeepsAll(History(store, id.key), t => now - t < WindowMs);
  }

  /** A fresh key replayed with a run holds exactly the run. */
  lemma ReplayEntry(store: Store, key: string, prefix: seq<int>, after: Store)
    requires key !in store
    requires after == if prefix == [] then store else store[key := prefix]
    ensures History(after, key) == prefix
  {
  }

  /** Before the limit is reached, every request of the run is admitted and the entry is exactly the run. */
  lemma {:induction false} ReplayUnderLimit(store: Store, id: Identity, times: seq<int>)
    requires id.key !in store
    requires WithinOneWindow(times)
    requires |times| <= id.limit
    ensures AllAdmitted(Replay(store, id, times).0)
    ensures times != [] ==> Replay(store, id, times).1 == store[id.key := times]
  {
    if times != [] {
      var n := |times|;
      var prefix := times[..n - 1];
      var now := times[n - 1];
      assert prefix + [now] == times;
      WithinOneWindowPrefix(times);
      ReplayUnderLimit(store, id, prefix);
      ReplayAdmitsNext(store, id, prefix, now);
    }
  }

  /** One more request of a run within one window, below the limit, is admitted and appended. */
  lemma ReplayAdmitsNext(store: Store, id: Identity, prefix: seq<int>, now: int)
    requires id.key !in store
    requires WithinOneWindow(prefix + [now])
    requires |prefix| < id.limit
    requires AllAdmitted(Replay(store, id, prefix).0)
    requires prefix != [] ==> Replay(store, id, prefix).1 == store[id.key := prefix]
    ensures AllAdmitted(Replay(store, id, prefix + [now]).0)
    ensures Replay(store, id, prefix + [now]).1 == store[id.key := prefix + [now]]
  {
    var times := prefix + [now];
    assert times[..|times| - 1] == prefix;
    LastWithinWindow(times);
    var before := Replay(store, id, prefix);
    ReplayEntry(store, id.key, prefix, before.1);
    AdmittedBelowLimit(before.1, id, now);
    ReplaySnoc(store, id, prefix, now);
    assert before.1[id.key := times] == store[id.key := times] by {
      if prefix != [] {
        UpdateTwice(store, id.key, prefix, times);
      }
    }
    AdmittedSnoc(before.0);
  }

  /** An entry already holding `limit` timestamps, all inside the window and none in the future, is denied. */
  lemma DeniedAtLimit(store: Store, id: Identity, now: int)
    requires |History(store, id.key)| == id.limit
    requires forall i :: 0 <= i < |History(store, id.key)| ==>
      History(store, id.key)[i] <= now && now - History(store, id.key)[i] < WindowMs
    ensures Step(store, id, now).0.Limited?
    ensures 1 <= Step(store, id, now).0.retryAfter <= 60
  {
    var entry := History(store, id.key);
    FilterKeepsAll(entry, t => now - t < WindowMs);
    DenialHint(store, id, now);
  }

  /**
   * With every request inside one window, the first `limit` requests of a
   * fresh identity are admitted and the next is denied, with a hint between
   * 1 and 60 seconds.
   */
  lemma {:induction false} LimitPlusOneDenied(store: Store, id: Identity, times: seq<int>)
    requires id.key !in store
    requires WithinOneWindow(times)
    requires |times| == id.limit + 1
    ensures forall i :: 0 <= i < id.limit ==> Replay(store, id, times).0[i] == Next
    ensures Replay(store, id, times).0[id.limit].Limited?
    ensures 1 <= Replay(store, id, times).0[id.limit].retryAfter <= 60
  {
    var prefix := times[..id.limit];
    var now := times[id.limit];
    assert prefix + [now] == times;
    WithinOneWindowPrefix(times);
    ReplayUnderLimit(store, id, prefix);
    LastWithinWindow(times);
    var before := Replay(store, id, prefix);
    assert History(before.1, id.key) == prefix;
    DeniedAtLimit(before.1, id, now);
    ReplaySnoc(store, id, prefix, now);
  }

  /**
   * The process-wide `rateLimitStore` and the middleware that consults it.
   * `now` stands for `Date.now()` and `apiKeys` for the `api_keys` table.
   */
  class RateLimiter {
    var store: Store

    ghost predicate Valid()
      reads this
    {
      Bounded(store)
    }

    constructor ()
      ensures Valid() && store == map[]
    {
      store := map[];
    }

    /** `resetRateLimits`: forget every identity. */
    method Reset()
      modifies this
      ensures Valid() && store == map[]
    {
      store := map[];
    }

    /**
     * `rateLimitMiddleware`: the health path passes untouched; any other
     * request is counted under its identity and admitted or denied.
     */
    method Handle(path: string, authorization: Option<string>, forwardedFor: Option<string>,
                  apiKeys: set<string>, now: int) returns (d: Decision)
      requires Valid()
      modifies this
      ensures Valid()
      ensures path == HealthPath ==> d == Next && store == old(store)
      ensures path != HealthPath ==>
        (d, store) == Step(old(store), SelectIdentity(authorization, forwardedFor, apiKeys), now)
    {
      if path == HealthPath {
        return Next;
      }
      var id := SelectIdentity(authorization, forwardedFor, apiKeys);
      StepKeepsBounded(store, id, now);
      var timestamps := if id.key in store then store[id.key] else [];
      timestamps := CleanupOldEntries(timestamps, now);
      if |timestamps| >= id.limit {
        d := Limited(RetryAfterSeconds(timestamps, now));
        return;
      }
      timestamps := timestamps + [now];
      store := store[id.key := timestamps];
      d := Next;
    }
  }
}
