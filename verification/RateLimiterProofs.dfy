/**
 The pruning limiter against its reference, a limiter that never deletes a bucket:
 it gives the same answers for exactly as long as no more than `maxBuckets` buckets
 are live at once, and then it admits at most (k + 1) * maxHits requests of a key in
 any k windows.
 */
module RateLimiterProofs {
  import opened Common
  import opened JsMaps
  import opened RateLimiter

  datatype Request = Request(now: int, key: string)

  ghost predicate Timed(reqs: seq<Request>) {
    forall i, j :: 0 <= i < j < |reqs| ==> reqs[i].now <= reqs[j].now
  }

  // ---- the reference limiter ----

  function RefChecked(m: map<string, Bucket>, r: Request, s: Settings): map<string, Bucket> {
    m[r.key := HitBucket(CurrentBucket(m, r.key, r.now, s), s)]
  }

  function RefAnswer(m: map<string, Bucket>, r: Request, s: Settings): Answer {
    AnswerFor(CurrentBucket(m, r.key, r.now, s), r.now, s)
  }

  // ---- runs of both ----

  function RefState(m: map<string, Bucket>, reqs: seq<Request>, s: Settings): map<string, Bucket>
    decreases |reqs|
  {
    if reqs == [] then m else RefState(RefChecked(m, reqs[0], s), reqs[1..], s)
  }

  function RefAnswers(m: map<string, Bucket>, reqs: seq<Request>, s: Settings): (answers: seq<Answer>)
    ensures |answers| == |reqs|
    decreases |reqs|
  {
    if reqs == [] then [] else [RefAnswer(m, reqs[0], s)] + RefAnswers(RefChecked(m, reqs[0], s), reqs[1..], s)
  }

  function State(m: Buckets, reqs: seq<Request>, s: Settings): Buckets
    requires ValidSettings(s)
    decreases |reqs|
  {
    if reqs == [] then m else State(Checked(m, reqs[0].key, reqs[0].now, s), reqs[1..], s)
  }

  function Answers(m: Buckets, reqs: seq<Request>, s: Settings): (answers: seq<Answer>)
    requires ValidSettings(s)
    ensures |answers| == |reqs|
    decreases |reqs|
  {
    if reqs == [] then [] else
      [CheckAnswer(m, reqs[0].key, reqs[0].now, s)] + Answers(Checked(m, reqs[0].key, reqs[0].now, s), reqs[1..], s)
  }

  /** At every request of the run at most `maxBuckets` buckets of the reference limiter are live. */
  ghost predicate FewLive(m: map<string, Bucket>, reqs: seq<Request>, s: Settings)
    decreases |reqs|
  {
    reqs == [] || (|LiveKeys(m, reqs[0].now)| <= s.maxBuckets && FewLive(RefChecked(m, reqs[0], s), reqs[1..], s))
  }

  // ---- refinement ----

  /** From `now` on, the pruned map has lost nothing but expired buckets of the reference map. */
  ghost predicate Agree(m: Buckets, ref: map<string, Bucket>, now: int) {
    && (forall k | k in m.vals :: k in ref && ref[k] == m.vals[k])
    && (forall k | k in ref && k !in m.vals :: !Live(ref[k], now))
  }

  /** Every stored bucket has been hit, and no more often than allowed. */
  ghost predicate Counted(ref: map<string, Bucket>, s: Settings) {
    forall k | k in ref :: 1 <= ref[k].count <= s.maxHits
  }

  lemma LiveKeysAgree(m: Buckets, ref: map<string, Bucket>, now: int)
    requires Agree(m, ref, now)
    ensures LiveKeys(m.vals, now) == LiveKeys(ref, now)
  {
  }

  lemma PruneAgrees(m: Buckets, ref: map<string, Bucket>, now: int, maxBuckets: nat)
    requires Agree(m, ref, now) && |LiveKeys(ref, now)| <= maxBuckets
    ensures Agree(Pruned(m, now, maxBuckets), ref, now)
  {
    LiveKeysAgree(m, ref, now);
    var live := Restrict(m, LiveKeys(m.vals, now));
    assert live.vals.Keys == LiveKeys(ref, now);
    SizeIsCardinality(live);
  }

  lemma AgreeStep(m: Buckets, ref: map<string, Bucket>, r: Request, s: Settings)
    requires ValidSettings(s) && Agree(m, ref, r.now) && |LiveKeys(ref, r.now)| <= s.maxBuckets
    ensures Agree(Checked(m, r.key, r.now, s), RefChecked(ref, r, s), r.now)
    ensures CheckAnswer(m, r.key, r.now, s) == RefAnswer(ref, r, s)
  {
    PruneAgrees(m, ref, r.now, s.maxBuckets);
    var pruned := Pruned(m, r.now, s.maxBuckets);
    assert CurrentBucket(pruned.vals, r.key, r.now, s) == CurrentBucket(ref, r.key, r.now, s);
  }

  /** Refinement: while at most `maxBuckets` buckets are live the answers are those of the reference limiter. */
  lemma {:induction false} PruningIsInvisible(
    m: Buckets, ref: map<string, Bucket>, start: int, reqs: seq<Request>, end: int, s: Settings)
    requires ValidSettings(s) && Timed(reqs)
    requires Agree(m, ref, start) && start <= end && (forall r | r in reqs :: start <= r.now <= end)
    requires FewLive(ref, reqs, s)
    ensures Answers(m, reqs, s) == RefAnswers(ref, reqs, s)
    ensures Agree(State(m, reqs, s), RefState(ref, reqs, s), end)
    decreases |reqs|
  {
    if reqs != [] {
      var r := reqs[0];
      AgreeStep(m, ref, r, s);
      PruningIsInvisible(Checked(m, r.key, r.now, s), RefChecked(ref, r, s), r.now, reqs[1..], end, s);
    }
  }

  lemma {:induction false} CountedRun(ref: map<string, Bucket>, reqs: seq<Request>, s: Settings)
    requires ValidSettings(s) && Counted(ref, s)
    ensures Counted(RefState(ref, reqs, s), s)
    decreases |reqs|
  {
    if reqs != [] {
      CountedRun(RefChecked(ref, reqs[0], s), reqs[1..], s);
    }
  }

  /**
   The exact condition. After a run that kept it, the next request is answered like the
   reference limiter for every key if and only if at most `maxBuckets` buckets are live.
   */
  lemma PruningIsInvisibleExactlyWhenFewLive(reqs: seq<Request>, now: int, s: Settings)
    requires ValidSettings(s) && Timed(reqs) && (forall r | r in reqs :: r.now <= now)
    requires FewLive(map[], reqs, s)
    ensures var m, ref := State(Empty(), reqs, s), RefState(map[], reqs, s);
            (forall key :: CheckAnswer(m, key, now, s) == RefAnswer(ref, Request(now, key), s))
            <==> |LiveKeys(ref, now)| <= s.maxBuckets
  {
    var m, ref := State(Empty(), reqs, s), RefState(map[], reqs, s);
    var start := if reqs == [] then now else reqs[0].now;
    PruningIsInvisible(Empty(), map[], start, reqs, now, s);
    CountedRun(map[], reqs, s);
    if |LiveKeys(ref, now)| <= s.maxBuckets {
      forall key ensures CheckAnswer(m, key, now, s) == RefAnswer(ref, Request(now, key), s) {
        AgreeStep(m, ref, Request(now, key), s);
      }
    } else {
      var key := EvictedKey(m, ref, now, s);
      assert CheckAnswer(m, key, now, s) != RefAnswer(ref, Request(now, key), s);
    }
  }

  // ---- a run that gets there ----

  /** `n` requests at time 0, each with a key of its own. */
  function Flood(n: nat): seq<Request> {
    if n == 0 then [] else Flood(n - 1) + [Request(0, FloodKey(n))]
  }

  function FloodKey(n: nat): string {
    seq(n, _ => 'x')
  }

  function FloodKeys(n: nat): set<string> {
    if n == 0 then {} else FloodKeys(n - 1) + {FloodKey(n)}
  }

  lemma {:induction false} FloodKeysCount(n: nat)
    ensures |FloodKeys(n)| == n && forall k | k in FloodKeys(n) :: |k| <= n
  {
    if n > 0 {
      FloodKeysCount(n - 1);
      assert |FloodKey(n)| == n;
    }
  }

  lemma {:induction false} RefStateSnoc(m: map<string, Bucket>, reqs: seq<Request>, r: Request, s: Settings)
    ensures RefState(m, reqs + [r], s) == RefChecked(RefState(m, reqs, s), r, s)
    ensures FewLive(m, reqs + [r], s) <==>
              FewLive(m, reqs, s) && |LiveKeys(RefState(m, reqs, s), r.now)| <= s.maxBuckets
    decreases |reqs|
  {
    hide RefChecked, LiveKeys;
    if reqs == [] {
      assert reqs + [r] == [r];
    } else {
      assert (reqs + [r])[1..] == reqs[1..] + [r];
      RefStateSnoc(RefChecked(m, reqs[0], s), reqs[1..], r, s);
    }
  }

  lemma {:induction false} FloodFills(n: nat, s: Settings)
    requires ValidSettings(s) && n <= s.maxBuckets + 1
    ensures FewLive(map[], Flood(n), s) && (forall r | r in Flood(n) :: r.now == 0)
    ensures RefState(map[], Flood(n), s).Keys == FloodKeys(n) == LiveKeys(RefState(map[], Flood(n), s), 0)
  {
    if n > 0 {
      FloodFills(n - 1, s);
      FloodKeysCount(n - 1);
      RefStateSnoc(map[], Flood(n - 1), Request(0, FloodKey(n)), s);
      hide RefState, FewLive, FloodKey;
      FloodStep(RefState(map[], Flood(n - 1), s), n, s);
    }
  }

  lemma FloodStep(ref: map<string, Bucket>, n: nat, s: Settings)
    requires ValidSettings(s) && n > 0 && ref.Keys == FloodKeys(n - 1) == LiveKeys(ref, 0)
    ensures var next := RefChecked(ref, Request(0, FloodKey(n)), s); next.Keys == FloodKeys(n) == LiveKeys(next, 0)
  {
    FloodKeysCount(n - 1);
    assert |FloodKey(n)| == n;
    hide FloodKey;
    var next := RefChecked(ref, Request(0, FloodKey(n)), s);
    forall k | k in next ensures Live(next[k], 0) {
      assert k != FloodKey(n) ==> k in LiveKeys(ref, 0);
    }
  }

  /** `maxBuckets` + 1 distinct keys at one instant keep to the limit up to then, and the next answer gives it away. */
  lemma FloodIsNoticed(s: Settings)
    requires ValidSettings(s)
    ensures var reqs := Flood(s.maxBuckets + 1);
            && Timed(reqs) && FewLive(map[], reqs, s)
            && |LiveKeys(RefState(map[], reqs, s), 0)| == s.maxBuckets + 1
            && exists key :: CheckAnswer(State(Empty(), reqs, s), key, 0, s)
                          != RefAnswer(RefState(map[], reqs, s), Request(0, key), s)
  {
    var reqs := Flood(s.maxBuckets + 1);
    FloodFills(s.maxBuckets + 1, s);
    FloodKeysCount(s.maxBuckets + 1);
    hide Flood, FloodKeys, CheckAnswer, RefAnswer, LiveKeys, State, RefState, FewLive;
    assert Timed(reqs);
    PruningIsInvisibleExactlyWhenFewLive(reqs, 0, s);
  }

  /** With too many live buckets the oldest live one is evicted, and its key notices. */
  lemma EvictedKey(m: Buckets, ref: map<string, Bucket>, now: int, s: Settings) returns (key: string)
    requires ValidSettings(s) && Agree(m, ref, now) && Counted(ref, s)
    requires |LiveKeys(ref, now)| > s.maxBuckets
    ensures CheckAnswer(m, key, now, s) != RefAnswer(ref, Request(now, key), s)
  {
    LiveKeysAgree(m, ref, now);
    var live := Restrict(m, LiveKeys(m.vals, now));
    assert live.vals.Keys == LiveKeys(ref, now);
    SizeIsCardinality(live);
    OnlyElements(m.keys, LiveKeys(m.vals, now));
    key := live.keys[0];
    assert key !in live.keys[|live.keys| - s.maxBuckets..];
    assert key !in Pruned(m, now, s.maxBuckets).vals;
    assert key in LiveKeys(ref, now) && ref[key].count >= 1;
  }

  /** The map never holds more than `maxBuckets` + 1 buckets, whatever the requests. */
  lemma {:induction false} SizeBound(m: Buckets, reqs: seq<Request>, s: Settings)
    requires ValidSettings(s) && |m.keys| <= s.maxBuckets + 1
    ensures |State(m, reqs, s).keys| <= s.maxBuckets + 1
    decreases |reqs|
  {
    if reqs != [] {
      SizeBound(Checked(m, reqs[0].key, reqs[0].now, s), reqs[1..], s);
    }
  }

  // ---- the admission bound ----

  /** How many requests of `key` at times in [lo, hi) were admitted. */
  function Admissions(reqs: seq<Request>, answers: seq<Answer>, key: string, lo: int, hi: int): nat
    requires |reqs| == |answers|
  {
    if reqs == [] then 0 else
      (if reqs[0].key == key && lo <= reqs[0].now < hi && answers[0].success then 1 else 0)
      + Admissions(reqs[1..], answers[1..], key, lo, hi)
  }

  /** The number of windows that start in a stretch of `d` milliseconds, one straight after the other. */
  function Windows(d: int, w: int): nat
    requires w >= 1
  {
    if d <= 0 then 0 else 1 + Windows(d - w, w)
  }

  lemma {:induction false} WindowsMonotone(d: int, e: int, w: int)
    requires w >= 1 && d <= e
    ensures Windows(d, w) <= Windows(e, w)
    decreases Max(e, 0)
  {
    if d > 0 {
      WindowsMonotone(d - w, e - w, w);
    }
  }

  lemma {:induction false} WindowsExact(k: nat, w: int)
    requires w >= 1
    ensures Windows(k * w, w) == k
  {
    if k > 0 {
      WindowsExact(k - 1, w);
      assert k * w - w == (k - 1) * w;
    }
  }

  /** The most that can still be admitted from time `t` up to time `hi`. */
  function Budget(ref: map<string, Bucket>, key: string, t: int, hi: int, s: Settings): int
    requires ValidSettings(s)
  {
    if key in ref && Live(ref[key], t)
    then s.maxHits - ref[key].count + s.maxHits * Windows(hi - ref[key].resetAt, s.windowMs)
    else s.maxHits * Windows(hi - t, s.windowMs)
  }

  lemma HitsMonotone(h: int, m: nat, n: nat)
    requires 0 <= h && m <= n
    ensures 0 <= h * m <= h * n
  {
  }

  lemma BudgetLater(ref: map<string, Bucket>, key: string, t: int, now: int, hi: int, s: Settings)
    requires ValidSettings(s) && Counted(ref, s) && t <= now
    ensures 0 <= Budget(ref, key, now, hi, s) <= Budget(ref, key, t, hi, s)
  {
    var left, w := Windows(hi - now, s.windowMs), s.windowMs;
    if key in ref && Live(ref[key], t) {
      var after := Windows(hi - ref[key].resetAt, w);
      if Live(ref[key], now) {
        HitsMonotone(s.maxHits, after, after);
      } else {
        WindowsMonotone(hi - now, hi - ref[key].resetAt, w);
        HitsMonotone(s.maxHits, left, after);
      }
    } else {
      WindowsMonotone(hi - now, hi - t, w);
      HitsMonotone(s.maxHits, left, Windows(hi - t, w));
    }
  }

  /** One admission uses up one unit of the budget. */
  lemma BudgetStep(ref: map<string, Bucket>, r: Request, hi: int, s: Settings)
    requires ValidSettings(s) && Counted(ref, s) && r.now < hi
    ensures var cost := if RefAnswer(ref, r, s).success then 1 else 0;
            cost + Budget(RefChecked(ref, r, s), r.key, r.now, hi, s) == Budget(ref, r.key, r.now, hi, s)
  {
    var b := CurrentBucket(ref, r.key, r.now, s);
    if !(r.key in ref && Live(ref[r.key], r.now)) {
      assert hi - b.resetAt == hi - r.now - s.windowMs;
      assert s.maxHits * Windows(hi - r.now, s.windowMs) == s.maxHits * (1 + Windows(hi - b.resetAt, s.windowMs));
    }
  }

  lemma {:induction false} NoneAfter(reqs: seq<Request>, answers: seq<Answer>, key: string, lo: int, hi: int)
    requires |reqs| == |answers| && (forall r | r in reqs :: hi <= r.now)
    ensures Admissions(reqs, answers, key, lo, hi) == 0
  {
    if reqs != [] {
      NoneAfter(reqs[1..], answers[1..], key, lo, hi);
    }
  }

  lemma {:induction false} AdmittedWithinBudget(
    ref: map<string, Bucket>, reqs: seq<Request>, s: Settings, key: string, t: int, lo: int, hi: int)
    requires ValidSettings(s) && Timed(reqs) && Counted(ref, s) && (forall r | r in reqs :: t <= r.now)
    ensures Admissions(reqs, RefAnswers(ref, reqs, s), key, lo, hi) <= Budget(ref, key, t, hi, s)
    decreases |reqs|
  {
    BudgetLater(ref, key, t, t, hi, s);
    if reqs != [] {
      var r := reqs[0];
      if r.now >= hi {
        NoneAfter(reqs, RefAnswers(ref, reqs, s), key, lo, hi);
      } else {
        BudgetLater(ref, key, t, r.now, hi, s);
        var next := RefChecked(ref, r, s);
        AdmittedWithinBudget(next, reqs[1..], s, key, r.now, lo, hi);
        assert RefAnswers(ref, reqs, s)[1..] == RefAnswers(next, reqs[1..], s);
        if r.key == key {
          BudgetStep(ref, r, hi, s);
        }
      }
    }
  }

  lemma {:induction false} AdmittedInInterval(
    ref: map<string, Bucket>, reqs: seq<Request>, s: Settings, key: string, lo: int, k: nat)
    requires ValidSettings(s) && Timed(reqs) && Counted(ref, s)
    ensures Admissions(reqs, RefAnswers(ref, reqs, s), key, lo, lo + k * s.windowMs) <= (k + 1) * s.maxHits
    decreases |reqs|
  {
    var hi := lo + k * s.windowMs;
    if reqs == [] {
    } else if reqs[0].now < lo {
      var next := RefChecked(ref, reqs[0], s);
      AdmittedInInterval(next, reqs[1..], s, key, lo, k);
      assert RefAnswers(ref, reqs, s)[1..] == RefAnswers(next, reqs[1..], s);
    } else {
      AdmittedWithinBudget(ref, reqs, s, key, lo, lo, hi);
      BudgetOfInterval(ref, key, lo, k, s);
    }
  }

  lemma BudgetOfInterval(ref: map<string, Bucket>, key: string, lo: int, k: nat, s: Settings)
    requires ValidSettings(s) && Counted(ref, s)
    ensures Budget(ref, key, lo, lo + k * s.windowMs, s) <= (k + 1) * s.maxHits
  {
    var d := k * s.windowMs;
    WindowsExact(k, s.windowMs);
    if key in ref && Live(ref[key], lo) {
      var rest := lo + d - ref[key].resetAt;
      WindowsMonotone(rest, d, s.windowMs);
      HitsMonotone(s.maxHits, Windows(rest, s.windowMs), k);
    }
    Distribute(k, s.maxHits);
  }

  lemma Distribute(k: nat, h: int)
    ensures (k + 1) * h == h * k + h
  {
  }

  /** The bound: at most (k + 1) * maxHits admissions of one key in any k windows. */
  lemma AdmissionBound(reqs: seq<Request>, s: Settings, key: string, lo: int, k: nat)
    requires ValidSettings(s) && Timed(reqs) && FewLive(map[], reqs, s)
    ensures Admissions(reqs, Answers(Empty(), reqs, s), key, lo, lo + k * s.windowMs) <= (k + 1) * s.maxHits
  {
    if reqs != [] {
      PruningIsInvisible(Empty(), map[], reqs[0].now, reqs, reqs[|reqs| - 1].now, s);
    }
    AdmittedInInterval(map[], reqs, s, key, lo, k);
  }
}
