/**
 The fixed-window rate limiter of the client handler. A bucket per key counts the
 hits of the current window; when the map has grown past `maxBuckets` the expired
 buckets are pruned first and then, if that is not enough, the oldest ones.
 */
module RateLimiter {
  import opened Common
  import opened JsMaps

  datatype Bucket = Bucket(count: nat, resetAt: int)

  type Buckets = JsMap<string, Bucket>

  datatype Settings = Settings(windowMs: int, maxHits: int, maxBuckets: int)

  datatype Answer = Answer(success: bool, retryAfterMs: int, remaining: int, limit: int, windowMs: int, resetAt: int)

  const DEFAULT_MAX_BUCKETS := 5000

  /** The settings in force, clamped as the limiter clamps its options. */
  function Normalize(windowMs: Raw, maxHits: Raw, maxBuckets: Raw): (s: Settings)
    ensures ValidSettings(s)
  {
    Settings(
      ClampInteger(windowMs, 10000, 1000, 86400000),
      ClampInteger(maxHits, 1, 1, 100000),
      ClampInteger(maxBuckets, DEFAULT_MAX_BUCKETS, 100, 1000000))
  }

  predicate ValidSettings(s: Settings) {
    && 1000 <= s.windowMs <= 86400000
    && 1 <= s.maxHits <= 100000
    && 100 <= s.maxBuckets <= 1000000
  }

  predicate Live(b: Bucket, now: int) {
    now < b.resetAt
  }

  function LiveKeys(m: map<string, Bucket>, now: int): set<string> {
    set k | k in m && Live(m[k], now)
  }

  /** The bucket counted against at `now`: the stored one while its window lasts, else a fresh one. */
  function CurrentBucket(m: map<string, Bucket>, key: string, now: int, s: Settings): Bucket {
    if key in m && Live(m[key], now) then m[key] else Bucket(0, now + s.windowMs)
  }

  function HitBucket(b: Bucket, s: Settings): Bucket {
    if b.count >= s.maxHits then b else b.(count := b.count + 1)
  }

  function AnswerFor(b: Bucket, now: int, s: Settings): Answer {
    if b.count >= s.maxHits
    then Answer(false, Max(0, b.resetAt - now), 0, s.maxHits, s.windowMs, b.resetAt)
    else Answer(true, 0, Max(0, s.maxHits - (b.count + 1)), s.maxHits, s.windowMs, b.resetAt)
  }

  /**
   The map after pruning: unchanged while small, else the live buckets, at most the last `maxBuckets` in map order.
   */
  function Pruned(m: Buckets, now: int, maxBuckets: nat): Buckets {
    if |m.keys| <= maxBuckets then m else
      var live := Restrict(m, LiveKeys(m.vals, now));
      if |live.keys| <= maxBuckets then live else DropOldest(live, |live.keys| - maxBuckets)
  }

  function Checked(m: Buckets, key: string, now: int, s: Settings): Buckets
    requires ValidSettings(s)
  {
    var pruned := Pruned(m, now, s.maxBuckets);
    Put(pruned, key, HitBucket(CurrentBucket(pruned.vals, key, now, s), s))
  }

  function CheckAnswer(m: Buckets, key: string, now: int, s: Settings): Answer
    requires ValidSettings(s)
  {
    AnswerFor(CurrentBucket(Pruned(m, now, s.maxBuckets).vals, key, now, s), now, s)
  }

  function CleanKey(key: string): string {
    if key == "" then "global" else key
  }

  /** The keys left when the first `i` entries have been looked at. */
  ghost function KeptFrom(m: Buckets, i: nat, now: int): set<string>
    requires i <= |m.keys|
  {
    set k | k in m.vals && (k in m.keys[i..] || Live(m.vals[k], now))
  }

  lemma KeptStep(m: Buckets, i: nat, now: int)
    requires i < |m.keys|
    ensures var key := m.keys[i];
            KeptFrom(m, i + 1, now) == if Live(m.vals[key], now) then KeptFrom(m, i, now)
              else KeptFrom(m, i, now) - {key}
  {
    assert m.keys[i..] == [m.keys[i]] + m.keys[i + 1..];
  }

  class FixedWindowRateLimiter {
    var buckets: Buckets

    constructor ()
      ensures buckets == Empty()
    {
      buckets := Empty();
    }

    method Prune(now: int, maxBuckets: nat)
      modifies this
      ensures buckets == Pruned(old(buckets), now, maxBuckets)
    {
      if |buckets.keys| <= maxBuckets {
        return;
      }
      DeleteExpired(now);
      ghost var live := buckets;
      DeleteOldest(maxBuckets);
      assert |live.keys| <= maxBuckets ==> DropOldest(live, 0) == live;
    }

    method DeleteOldest(maxBuckets: nat)
      modifies this
      ensures buckets == DropOldest(old(buckets), Max(0, |old(buckets).keys| - maxBuckets))
    {
      ghost var live := buckets;
      ghost var dropped := 0;
      assert DropOldest(live, 0) == live;
      while |buckets.keys| > maxBuckets
        invariant 0 <= dropped <= Max(0, |live.keys| - maxBuckets)
        invariant buckets == DropOldest(live, dropped)
      {
        DropOldestTwice(live, dropped);
        buckets := Delete(buckets, buckets.keys[0]);
        dropped := dropped + 1;
      }
    }

    method DeleteExpired(now: int)
      modifies this
      ensures buckets == Restrict(old(buckets), LiveKeys(old(buckets).vals, now))
    {
      var snapshot := buckets;
      assert KeptFrom(snapshot, 0, now) == snapshot.vals.Keys;
      RestrictAll(snapshot, KeptFrom(snapshot, 0, now));
      for i := 0 to |snapshot.keys|
        invariant buckets == Restrict(snapshot, KeptFrom(snapshot, i, now))
      {
        var key := snapshot.keys[i];
        KeptStep(snapshot, i, now);
        if snapshot.vals[key].resetAt <= now {
          DeleteRestricted(snapshot, KeptFrom(snapshot, i, now), key);
          buckets := Delete(buckets, key);
        }
      }
      assert KeptFrom(snapshot, |snapshot.keys|, now) == LiveKeys(snapshot.vals, now);
    }

    /** One request against the limiter. */
    method Check(rawKey: string, now: int, windowMs: Raw, maxHits: Raw, maxBuckets: Raw) returns (answer: Answer)
      modifies this
      ensures var s := Normalize(windowMs, maxHits, maxBuckets);
              && buckets == Checked(old(buckets), CleanKey(rawKey), now, s)
              && answer == CheckAnswer(old(buckets), CleanKey(rawKey), now, s)
    {
      var key := CleanKey(rawKey);
      var s := Normalize(windowMs, maxHits, maxBuckets);
      Prune(now, s.maxBuckets);
      ghost var pruned := buckets;
      ghost var current := CurrentBucket(pruned.vals, key, now, s);
      var entry: Bucket;
      if key !in buckets.vals || now >= buckets.vals[key].resetAt {
        entry := Bucket(0, now + s.windowMs);
        buckets := Put(buckets, key, entry);
      } else {
        entry := buckets.vals[key];
        PutSame(pruned, key);
      }
      assert entry == current && buckets == Put(pruned, key, current);
      if entry.count >= s.maxHits {
        return Answer(false, Max(0, entry.resetAt - now), 0, s.maxHits, s.windowMs, entry.resetAt);
      }
      entry := entry.(count := entry.count + 1);
      PutTwice(pruned, key, current, entry);
      buckets := Put(buckets, key, entry);
      return Answer(true, 0, Max(0, s.maxHits - entry.count), s.maxHits, s.windowMs, entry.resetAt);
    }
  }
}
