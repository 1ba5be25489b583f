/** The settings of the limiter, what pruning keeps, and what a request is answered, from the requests alone. */
module RateLimiterAnswers {
  import opened Common
  import opened JsMaps
  import opened RateLimiter
  import opened RateLimiterProofs

  // ---- settings and pruning ----

  /** The setting in force: what was asked for cut to its range, or the default when it is missing or no number. */
  predicate InForceAs(asked: Raw, fallback: int, lo: int, hi: int, used: int) {
    used == if asked.Num? then Max(lo, Min(asked.n, hi)) else fallback
  }

  /** A window of 1 s to 1 day (10 s), 1 to 100000 hits (1), and 100 to 1000000 buckets (5000). */
  lemma SettingsExactly(windowMs: Raw, maxHits: Raw, maxBuckets: Raw)
    ensures var s := Normalize(windowMs, maxHits, maxBuckets);
            && InForceAs(windowMs, 10000, 1000, 24 * 60 * 60 * 1000, s.windowMs)
            && InForceAs(maxHits, 1, 1, 100000, s.maxHits)
            && InForceAs(maxBuckets, 5000, 100, 1000000, s.maxBuckets)
  {
  }

  /**
   Pruning leaves a map of up to `maxBuckets` buckets alone. Of a larger one it keeps the buckets that are live, and
   when these are still too many the `maxBuckets` that come last, all unchanged and in order.
   */
  lemma PrunedExactly(m: Buckets, now: int, maxBuckets: nat)
    ensures var pruned, live := Pruned(m, now, maxBuckets), Only(m.keys, LiveKeys(m.vals, now));
            && (|m.keys| <= maxBuckets ==> pruned == m)
            && (|m.keys| > maxBuckets ==>
                 pruned.keys == live[Max(0, |live| - maxBuckets)..]
                 && forall k | k in pruned.vals :: k in m.vals && now < m.vals[k].resetAt)
            && forall k | k in pruned.vals :: k in m.vals && pruned.vals[k] == m.vals[k]
  {
    var live := Restrict(m, LiveKeys(m.vals, now));
    OnlyElements(m.keys, LiveKeys(m.vals, now));
  }

  // ---- the answers, from the requests alone ----

  /** The request that opened the last window of the key: the first one not in an earlier window. */
  function Opening(reqs: seq<Request>, key: string, s: Settings): (o: Option<nat>)
    ensures o.Some? ==> o.value < |reqs|
  {
    if reqs == [] then None else
      var before, last := Opening(reqs[..|reqs| - 1], key, s), reqs[|reqs| - 1];
      if last.key != key || (before.Some? && last.now < reqs[before.value].now + s.windowMs) then before
      else Some(|reqs| - 1)
  }

  /** The requests of the key from index `i` on. */
  function Since(reqs: seq<Request>, i: nat, key: string): nat {
    if |reqs| <= i then 0 else
      Since(reqs[..|reqs| - 1], i, key) + if reqs[|reqs| - 1].key == key then 1 else 0
  }

  /** A window of the key is in force at the time. */
  predicate InForce(reqs: seq<Request>, key: string, now: int, s: Settings) {
    Opening(reqs, key, s).Some? && now < reqs[Opening(reqs, key, s).value].now + s.windowMs
  }

  /** How many requests the window in force has seen. */
  function Used(reqs: seq<Request>, key: string, now: int, s: Settings): nat {
    if InForce(reqs, key, now, s) then Since(reqs, Opening(reqs, key, s).value, key) else 0
  }

  /** When the window in force, or else the one that would be opened, ends. */
  function EndOfWindow(reqs: seq<Request>, key: string, now: int, s: Settings): int {
    (if InForce(reqs, key, now, s) then reqs[Opening(reqs, key, s).value].now else now) + s.windowMs
  }

  lemma RefBucketStep(ref: map<string, Bucket>, reqs: seq<Request>, r: Request, key: string, s: Settings)
    requires ValidSettings(s) && (Opening(reqs, key, s).None? <==> key !in ref)
    requires key in ref ==>
               && ref[key].resetAt == reqs[Opening(reqs, key, s).value].now + s.windowMs
               && ref[key].count == Min(Since(reqs, Opening(reqs, key, s).value, key), s.maxHits)
    ensures var all, next := reqs + [r], RefChecked(ref, r, s);
            && (Opening(all, key, s).None? <==> key !in next)
            && (key in next ==>
                 && next[key].resetAt == all[Opening(all, key, s).value].now + s.windowMs
                 && next[key].count == Min(Since(all, Opening(all, key, s).value, key), s.maxHits))
  {
    var all := reqs + [r];
    assert all[..|reqs|] == reqs;
    if r.key == key && !InForce(reqs, key, r.now, s) {
      assert Since(all[..|reqs|], |reqs|, key) == 0;
    }
  }

  /** The bucket of a key counts the requests of its last window, up to the limit. */
  lemma {:induction false} RefBucketIs(reqs: seq<Request>, key: string, s: Settings)
    requires ValidSettings(s)
    ensures var ref := RefState(map[], reqs, s);
            && (Opening(reqs, key, s).None? <==> key !in ref)
            && (key in ref ==>
                 && ref[key].resetAt == reqs[Opening(reqs, key, s).value].now + s.windowMs
                 && ref[key].count == Min(Since(reqs, Opening(reqs, key, s).value, key), s.maxHits))
  {
    if reqs != [] {
      var init, r := reqs[..|reqs| - 1], reqs[|reqs| - 1];
      RefBucketIs(init, key, s);
      RefStateSnoc(map[], init, r, s);
      assert init + [r] == reqs;
      RefBucketStep(RefState(map[], init, s), init, r, key, s);
    }
  }

  /**
   What the limiter answers, from the requests alone: a request is admitted if and only if the window in force has
   seen fewer than `maxHits` requests of its key. The answer names what is left, the end of the window, and for a
   denied request the time until then.
   */
  lemma AnswersExactly(reqs: seq<Request>, now: int, key: string, s: Settings)
    requires ValidSettings(s) && Timed(reqs) && (forall r | r in reqs :: r.now <= now)
    requires FewLive(map[], reqs + [Request(now, key)], s)
    ensures var answer, used := CheckAnswer(State(Empty(), reqs, s), key, now, s), Used(reqs, key, now, s);
            && (answer.success <==> used < s.maxHits)
            && answer.resetAt == EndOfWindow(reqs, key, now, s)
            && answer.limit == s.maxHits && answer.windowMs == s.windowMs
            && answer.remaining == (if used < s.maxHits then s.maxHits - used - 1 else 0)
            && answer.retryAfterMs == (if used < s.maxHits then 0 else answer.resetAt - now)
  {
    hide FewLive, Opening, Since, State, RefState;
    RefStateSnoc(map[], reqs, Request(now, key), s);
    RefBucketIs(reqs, key, s);
    PruningIsInvisibleExactlyWhenFewLive(reqs, now, s);
    var m, ref := State(Empty(), reqs, s), RefState(map[], reqs, s);
    assert CheckAnswer(m, key, now, s) == RefAnswer(ref, Request(now, key), s);
    hide CheckAnswer;
  }
}
