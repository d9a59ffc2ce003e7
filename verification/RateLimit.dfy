/** The sliding-window limiter of the auth endpoints (`security/rate_limit.py`): a pruned
    deque per client and route, compared with a limiter that never forgets an attempt. */
module RateLimit {

  datatype Key = Key(ip: string, route: string)

  /** Refusals carry the seconds of the "try again" message. */
  datatype Verdict = Allowed | Limited(retryAfter: int)

  // ---- Sorted times -------------------------------------------------------------------

  ghost predicate Sorted(ts: seq<real>) {
    forall i, j :: 0 <= i < j < |ts| ==> ts[i] <= ts[j]
  }

  ghost predicate UpTo(ts: seq<real>, now: real) {
    Sorted(ts) && forall i :: 0 <= i < |ts| ==> ts[i] <= now
  }

  /** How many times lie in the closed window from `lo` to `hi`. */
  function CountIn(ts: seq<real>, lo: real, hi: real): nat {
    if ts == [] then 0
    else CountIn(ts[..|ts| - 1], lo, hi) + if lo <= ts[|ts| - 1] <= hi then 1 else 0
  }

  lemma {:induction false} CountNone(ts: seq<real>, lo: real, hi: real)
    requires forall i :: 0 <= i < |ts| ==> ts[i] < lo || hi < ts[i]
    ensures CountIn(ts, lo, hi) == 0
  {
    if ts != [] { CountNone(ts[..|ts| - 1], lo, hi); }
  }

  lemma {:induction false} CountAll(ts: seq<real>, lo: real, hi: real)
    requires forall i :: 0 <= i < |ts| ==> lo <= ts[i] <= hi
    ensures CountIn(ts, lo, hi) == |ts|
  {
    if ts != [] { CountAll(ts[..|ts| - 1], lo, hi); }
  }

  lemma {:induction false} CountJoin(a: seq<real>, b: seq<real>, lo: real, hi: real)
    ensures CountIn(a + b, lo, hi) == CountIn(a, lo, hi) + CountIn(b, lo, hi)
  {
    if b == [] {
      assert a + b == a;
    } else {
      assert (a + b)[..|a + b| - 1] == a + b[..|b| - 1];
      CountJoin(a, b[..|b| - 1], lo, hi);
    }
  }

  lemma {:induction false} CountShrinks(ts: seq<real>, lo: real, hi: real, lo': real, hi': real)
    requires forall i :: 0 <= i < |ts| && lo' <= ts[i] <= hi' ==> lo <= ts[i] <= hi
    ensures CountIn(ts, lo', hi') <= CountIn(ts, lo, hi)
  {
    if ts != [] { CountShrinks(ts[..|ts| - 1], lo, hi, lo', hi'); }
  }

  // ---- The limiter that remembers everything ------------------------------------------

  /** Accept while fewer than `attempts` accepted times lie in the closed window. */
  predicate Admits(history: seq<real>, now: real, attempts: int, window: real) {
    CountUpTo(history, now, window) < attempts
  }

  function Recorded(history: seq<real>, now: real, attempts: int, window: real): seq<real> {
    if Admits(history, now, attempts, window) then history + [now] else history
  }

  /** How many accepted times the closed window ending at `t` holds. */
  function CountUpTo(history: seq<real>, t: real, window: real): nat {
    CountIn(history, t - window, t)
  }

  /** No closed window of the given length holds more than `attempts` accepted times. */
  ghost predicate WithinLimit(history: seq<real>, attempts: int, window: real) {
    forall t: real :: CountUpTo(history, t, window) <= attempts
  }

  lemma RecordedWithinLimit(history: seq<real>, now: real, attempts: int, window: real)
    requires UpTo(history, now) && WithinLimit(history, attempts, window)
    ensures UpTo(Recorded(history, now, attempts, window), now)
    ensures WithinLimit(Recorded(history, now, attempts, window), attempts, window)
  {
    var next := Recorded(history, now, attempts, window);
    forall t: real ensures CountUpTo(next, t, window) <= attempts {
      if next != history {
        assert next[..|next| - 1] == history;
        assert CountUpTo(history, t, window) <= attempts;
        if now <= t { CountShrinks(history, now - window, now, t - window, t); }
      }
    }
  }

  /** The accepted times of any run of attempts with fixed settings. */
  function AcceptedOf(times: seq<real>, attempts: int, window: real): seq<real> {
    if times == [] then []
    else Recorded(AcceptedOf(times[..|times| - 1], attempts, window), times[|times| - 1], attempts, window)
  }

  /** In every run no window of that length ever holds more than `attempts`. */
  lemma {:induction false} EveryWindowWithinLimit(times: seq<real>, attempts: nat, window: real)
    requires Sorted(times)
    ensures WithinLimit(AcceptedOf(times, attempts, window), attempts, window)
    ensures times != [] ==> UpTo(AcceptedOf(times, attempts, window), times[|times| - 1])
  {
    if times != [] {
      var init, last := times[..|times| - 1], times[|times| - 1];
      EveryWindowWithinLimit(init, attempts, window);
      var h := AcceptedOf(init, attempts, window);
      assert UpTo(h, last) by {
        if init != [] { assert init[|init| - 1] <= last; }
      }
      RecordedWithinLimit(h, last, attempts, window);
    }
  }

  // ---- The limiter as written ---------------------------------------------------------

  /** `max(1, int(bucket[0] + window - now))`. */
  function RetryAfter(oldest: real, window: real, now: real): int {
    var left := oldest + window - now;
    var whole := if left < 0.0 then -((-left).Floor) else left.Floor;
    if whole < 1 then 1 else whole
  }

  /** `gone` was evicted and `bucket` is kept; together they are all accepted times up to
      `clock`, and no window ending at `clock` or later reaches `gone`. */
  ghost predicate Remembers(gone: seq<real>, bucket: seq<real>, clock: real, window: real) {
    UpTo(gone + bucket, clock) && forall i :: 0 <= i < |gone| ==> gone[i] < clock - window
  }

  class Limiter {
    var buckets: map<Key, seq<real>>
    /** The evicted times, and the latest call. */
    ghost var evicted: map<Key, seq<real>>
    ghost var clock: real

    constructor ()
      ensures buckets == map[] && evicted == map[] && clock == 0.0
      ensures forall window: real :: Faithful(window)
    {
      buckets, evicted, clock := map[], map[], 0.0;
    }

    function Bucket(key: Key): seq<real>
      reads this
    {
      if key in buckets then buckets[key] else []
    }

    ghost function Gone(key: Key): seq<real>
      reads this
    {
      if key in evicted then evicted[key] else []
    }

    /** Every accepted time of a key. */
    ghost function Past(key: Key): seq<real>
      reads this
    {
      Gone(key) + Bucket(key)
    }

    ghost predicate Faithful(window: real)
      reads this
    {
      forall key :: Remembers(Gone(key), Bucket(key), clock, window)
    }

    /** `check`: the pruned deque decides like the limiter that remembers everything, and
        only the caller's own key is touched. */
    method Check(key: Key, now: real, attempts: int, window: real) returns (v: Verdict)
      requires Faithful(window) && clock <= now
      modifies this
      ensures Faithful(window)
      ensures attempts <= 0 ==> v.Allowed? && buckets == old(buckets) && evicted == old(evicted)
      ensures attempts > 0 ==> clock == now
      ensures attempts > 0 ==> (v.Allowed? <==> Admits(old(Past(key)), now, attempts, window))
      ensures attempts > 0 ==> Past(key) == Recorded(old(Past(key)), now, attempts, window)
      ensures buckets - {key} == old(buckets) - {key} && evicted - {key} == old(evicted) - {key}
      ensures v.Limited? ==> Bucket(key) != [] && v.retryAfter == RetryAfter(Bucket(key)[0], window, now)
    {
      if attempts <= 0 { return Allowed; }
      Evict(key, now, window);
      hide Remembers, RetryAfter, CountUpTo;
      if |buckets[key]| >= attempts {
        return Limited(RetryAfter(buckets[key][0], window, now));
      }
      RemembersNew(Gone(key), Bucket(key), now, window);
      assert Gone(key) + (Bucket(key) + [now]) == Past(key) + [now];
      label Pruned:
      buckets := buckets[key := buckets[key] + [now]];
      forall k: Key ensures Remembers(Gone(k), Bucket(k), clock, window) {
        assert old@Pruned(Remembers(Gone(k), Bucket(k), clock, window));
      }
      return Allowed;
    }

    /** The eviction loop: afterwards the deque holds exactly the window's times. */
    method Evict(key: Key, now: real, window: real)
      requires Faithful(window) && clock <= now
      modifies this
      ensures Faithful(window) && clock == now
      ensures key in buckets && Past(key) == old(Past(key))
      ensures |buckets[key]| == CountUpTo(Past(key), now, window)
      ensures buckets - {key} == old(buckets) - {key} && evicted - {key} == old(evicted) - {key}
    {
      forall k: Key ensures Remembers(Gone(k), Bucket(k), now, window) {
        RemembersLater(Gone(k), Bucket(k), clock, window, now);
      }
      hide Remembers;
      var bucket := Bucket(key);
      var cutoff := now - window;
      ghost var gone := Gone(key);
      while bucket != [] && bucket[0] < cutoff
        modifies {}
        invariant gone + bucket == old(Past(key))
        invariant Remembers(gone, bucket, now, window)
      {
        RemembersPop(gone, bucket, now, window);
        gone, bucket := gone + [bucket[0]], bucket[1..];
      }
      clock := now;
      buckets, evicted := buckets[key := bucket], evicted[key := gone];
      forall k: Key ensures Remembers(Gone(k), Bucket(k), clock, window) {
        assert k == key || old(Remembers(Gone(k), Bucket(k), now, window));
      }
      BucketIsWindow(gone, bucket, now, window);
    }
  }

  lemma RemembersLater(gone: seq<real>, bucket: seq<real>, clock: real, window: real, now: real)
    requires Remembers(gone, bucket, clock, window) && clock <= now
    ensures Remembers(gone, bucket, now, window)
  {
  }

  lemma RemembersPop(gone: seq<real>, bucket: seq<real>, now: real, window: real)
    requires Remembers(gone, bucket, now, window) && bucket != [] && bucket[0] < now - window
    ensures Remembers(gone + [bucket[0]], bucket[1..], now, window)
    ensures gone + [bucket[0]] + bucket[1..] == gone + bucket
  {
    assert gone + [bucket[0]] + bucket[1..] == gone + bucket;
  }

  lemma RemembersNew(gone: seq<real>, bucket: seq<real>, now: real, window: real)
    requires Remembers(gone, bucket, now, window)
    ensures Remembers(gone, bucket + [now], now, window)
  {
    assert gone + (bucket + [now]) == (gone + bucket) + [now];
  }

  lemma BucketIsWindow(gone: seq<real>, bucket: seq<real>, now: real, window: real)
    requires Remembers(gone, bucket, now, window)
    requires bucket != [] ==> now - window <= bucket[0]
    ensures |bucket| == CountUpTo(gone + bucket, now, window)
  {
    var all := gone + bucket;
    forall i | 0 <= i < |bucket| ensures now - window <= bucket[i] <= now {
      assert bucket[i] == all[|gone| + i] && bucket[0] == all[|gone|];
    }
    hide CountIn;
    CountJoin(gone, bucket, now - window, now);
    CountNone(gone, now - window, now);
    CountAll(bucket, now - window, now);
  }

  /** The "try again in N s" advice: a client that waits exactly that long, with nothing
      else accepted meanwhile, gets through exactly if under a second was left. */
  lemma RetryAdviceExactly(gone: seq<real>, bucket: seq<real>, attempts: int, window: real, now: real)
    requires Remembers(gone, bucket, now, window) && |bucket| == attempts && attempts > 0
    requires now - window <= bucket[0]
    ensures var wait := RetryAfter(bucket[0], window, now);
            Admits(gone + bucket, now + wait as real, attempts, window) <==> bucket[0] + window - now < 1.0
  {
    var wait := RetryAfter(bucket[0], window, now);
    var later := now + wait as real;
    var all := gone + bucket;
    forall i | 0 <= i < |bucket| ensures bucket[0] <= bucket[i] <= now {
      assert bucket[i] == all[|gone| + i] && bucket[0] == all[|gone|];
    }
    CountJoin(gone, bucket, later - window, later);
    CountNone(gone, later - window, later);
    if bucket[0] + window - now < 1.0 {
      assert bucket == [bucket[0]] + bucket[1..];
      CountJoin([bucket[0]], bucket[1..], later - window, later);
      CountNone([bucket[0]], later - window, later);
      CountBound(bucket[1..], later - window, later);
    } else {
      CountAll(bucket, later - window, later);
    }
  }

  lemma {:induction false} CountBound(ts: seq<real>, lo: real, hi: real)
    ensures CountIn(ts, lo, hi) <= |ts|
  {
    if ts != [] { CountBound(ts[..|ts| - 1], lo, hi); }
  }

  /** With one attempt a minute allowed, half a minute before the attempt expires the message
      says 30 seconds, and 30 seconds later the client is refused again. */
  lemma RetryAdviceCanFail()
    ensures RetryAfter(100.0, 60.0, 130.0) == 30
    ensures !Admits([100.0], 160.0, 1, 60.0)
  {
    CountAll([100.0], 100.0, 160.0);
  }
}
