/**
  The retry policy of internal/crawler/retry.go and the status mapping of internal/crawler/manager.go.
  The fetch, the context and the sleeper are oracles indexed by attempt; classifying an error is an
  arbitrary function.
 */
module FetchRetry {
  import opened Basics
  import opened Int64

  datatype ErrorClass = Transient | Permanent | RateLimit

  datatype Outcome<T, E> = Got(value: T) | Failed(error: E)

  /** What a crawl's surroundings do at each attempt. */
  datatype World<!T, !E> = World(
    fetch: nat -> Outcome<T, E>,      // what the call of attempt i returns
    classify: E -> ErrorClass,
    live: nat -> bool,                // the context is not done when attempt i begins
    sleeps: nat -> bool,              // the sleep after attempt i is not interrupted
    factor: nat -> real,              // jitter of the sleep after attempt i
    outOfRange: nat -> int)           // what the platform makes of its delay if that does not fit in an int64

  datatype Answer<T, E> =
    | Fetched(value: T)
    | NoCall                          // no attempt allowed: zero value and no error
    | Error(error: E, errClass: ErrorClass)
    | Expired                         // the deadline elapsed between attempts
    | Interrupted(last: E)            // the deadline elapsed while sleeping

  function ClassOf<T, E>(a: Answer<T, E>): ErrorClass {
    match a
    case Fetched(_) => Permanent
    case NoCall => Permanent
    case Error(_, errClass) => errClass
    case Expired => Transient
    case Interrupted(_) => Transient
  }

  predicate IsRateLimited<T, E>(w: World<T, E>, i: nat) {
    w.fetch(i).Failed? && w.classify(w.fetch(i).error) == RateLimit
  }

  predicate IsTransient<T, E>(w: World<T, E>, i: nat) {
    w.fetch(i).Failed? && w.classify(w.fetch(i).error) == Transient
  }

  // ---------------------------------------------------------------- backoff

  const CAP := 30_000_000_000

  /** The delay after attempt `attempt` before jitter: a shift in int64, capped when the result is not positive. */
  function Unjittered(initial: int, attempt: int): int {
    if initial <= 0 || attempt < 0 then 0 else
      var d := Wrap64(initial * Pow2(attempt));
      if d <= 0 then CAP else d
  }

  predicate Fits(d: int, factor: real) {
    d as real * factor < TWO_63 as real
  }

  /** The product of a positive delay and a positive factor, converted to int64; beyond its range the result depends on the platform. */
  function Jittered(d: int, factor: real, outOfRange: int): int {
    if Fits(d, factor) then (d as real * factor).Floor else outOfRange
  }

  function Backoff(initial: int, attempt: int, factor: real, outOfRange: int): int {
    if initial <= 0 || attempt < 0 then 0 else Jittered(Unjittered(initial, attempt), factor, outOfRange)
  }

  // ---------------------------------------------------------------- the loop

  /** How the loop ended after `calls` calls and the given sleeps; every earlier attempt was transient and slept through. */
  ghost predicate Ended<T, E>(w: World<T, E>, attempts: int, answer: Answer<T, E>, calls: nat, slept: nat) {
    && (forall i: nat :: i < slept ==> w.live(i) && IsTransient(w, i) && w.sleeps(i))
    && match answer
       case NoCall => attempts <= 0 && calls == 0 && slept == 0
       case Expired => calls == slept < attempts && !w.live(slept)
       case Fetched(v) => calls == slept + 1 <= attempts && w.live(slept) && w.fetch(slept) == Got(v)
       case Error(e, errClass) =>
         && calls == slept + 1 <= attempts && w.live(slept)
         && w.fetch(slept) == Failed(e) && errClass == w.classify(e)
         && (errClass != Transient || calls == attempts)
       case Interrupted(e) =>
         calls == slept + 1 < attempts && w.live(slept) && w.fetch(slept) == Failed(e) && IsTransient(w, slept) && !w.sleeps(slept)
  }

  method FetchWithRetry<T, E>(w: World<T, E>, maxRetries: int, initialBackoff: int)
    returns (answer: Answer<T, E>, calls: nat, delays: seq<int>, slept: nat)
    ensures Ended(w, maxRetries + 1, answer, calls, slept)
    ensures |delays| == if answer.Interrupted? then slept + 1 else slept
    ensures forall i :: 0 <= i < |delays| ==> delays[i] == Backoff(initialBackoff, i, w.factor(i), w.outOfRange(i))
  {
    calls, delays, slept := 0, [], 0;
    var attempts := maxRetries + 1;
    var attempt: nat := 0;
    answer := NoCall;
    while attempt < attempts
      invariant attempt == 0 || attempt < attempts
      invariant attempt == calls == slept == |delays|
      invariant attempt == 0 ==> answer == NoCall
      invariant forall i: nat :: i < attempt ==> w.live(i) && IsTransient(w, i) && w.sleeps(i)
      invariant forall i :: 0 <= i < |delays| ==> delays[i] == Backoff(initialBackoff, i, w.factor(i), w.outOfRange(i))
      decreases attempts - attempt
    {
      if !w.live(attempt) {
        answer := Expired;
        return;
      }
      var result := w.fetch(attempt);
      calls := calls + 1;
      if result.Got? {
        answer := Fetched(result.value);
        return;
      }
      var errClass := w.classify(result.error);
      if errClass != Transient {
        answer := Error(result.error, errClass);
        return;
      }
      if attempt == attempts - 1 {
        answer := Error(result.error, errClass);
        return;
      }
      delays := delays + [Backoff(initialBackoff, attempt, w.factor(attempt), w.outOfRange(attempt))];
      if !w.sleeps(attempt) {
        answer := Interrupted(result.error);
        return;
      }
      slept := slept + 1;
      attempt := attempt + 1;
    }
  }

  // ---------------------------------------------------------------- what it returns

  /** Attempt `k` is the first one that is not a transient failure. */
  ghost predicate FirstDecisive<T, E>(w: World<T, E>, k: nat) {
    !IsTransient(w, k) && forall i: nat :: i < k ==> IsTransient(w, i)
  }

  ghost predicate NeverExpires<T, E>(w: World<T, E>) {
    (forall i: nat :: w.live(i)) && (forall i: nat :: w.sleeps(i))
  }

  /**
    Without deadline expiry, the loop returns the first outcome that is not a transient failure among
    the first maxRetries + 1, or else the last transient error; it makes exactly that many calls, with
    one sleep between consecutive calls.
   */
  lemma RetryReturnsFirstDecisive<T, E>(w: World<T, E>, maxRetries: nat, answer: Answer<T, E>, calls: nat, slept: nat)
    requires Ended(w, maxRetries + 1, answer, calls, slept) && NeverExpires(w)
    ensures slept == calls - 1
    ensures forall k: nat :: k <= maxRetries && FirstDecisive(w, k) ==>
              calls == k + 1 && answer == match w.fetch(k)
                                          case Got(v) => Fetched(v)
                                          case Failed(e) => Error(e, w.classify(e))
    ensures (forall k: nat :: k <= maxRetries ==> IsTransient(w, k)) ==>
              && calls == maxRetries + 1
              && answer.Error? && answer.errClass == Transient && w.fetch(maxRetries) == Failed(answer.error)
  {
    forall k: nat | k <= maxRetries && FirstDecisive(w, k)
      ensures slept == k
    {
      assert slept < k ==> IsTransient(w, slept);
      assert k < slept ==> IsTransient(w, k);
    }
    assert slept <= maxRetries;
    if forall k: nat :: k <= maxRetries ==> IsTransient(w, k) {
      assert IsTransient(w, slept);
    }
  }

  datatype CrawlStatus = StatusError | StatusRateLimited | StatusNetworkError

  function ClassToStatus(errClass: ErrorClass): CrawlStatus {
    match errClass
    case RateLimit => StatusRateLimited
    case Transient => StatusNetworkError
    case Permanent => StatusError
  }

  /**
    A failed crawl is stored as network_error exactly when every attempt it was allowed failed
    transiently or the deadline cut it off; as rate_limited exactly when an attempt was classified so.
   */
  lemma StoredStatus<T, E>(w: World<T, E>, maxRetries: nat, answer: Answer<T, E>, calls: nat, slept: nat)
    requires Ended(w, maxRetries + 1, answer, calls, slept) && !answer.Fetched?
    ensures ClassToStatus(ClassOf(answer)) == StatusNetworkError
       <==> answer.Expired? || answer.Interrupted? || forall k: nat :: k <= maxRetries ==> IsTransient(w, k)
    ensures ClassToStatus(ClassOf(answer)) == StatusRateLimited
       <==> exists k: nat :: k < calls && IsRateLimited(w, k)
    ensures ClassToStatus(ClassOf(answer)) == StatusError
       <==> exists k: nat :: k < calls && w.fetch(k).Failed? && w.classify(w.fetch(k).error) == Permanent
  {
    assert forall k: nat :: k < slept ==> !IsRateLimited(w, k) by {
      forall k: nat | k < slept
        ensures !IsRateLimited(w, k)
      {
        assert IsTransient(w, k);
      }
    }
    forall k: nat | k < slept
      ensures w.fetch(k).Failed? && w.classify(w.fetch(k).error) == Transient
    {
      assert IsTransient(w, k);
    }
    if answer.Error? {
      assert w.fetch(slept) == Failed(answer.error);
      assert IsTransient(w, slept) <==> answer.errClass == Transient;
      assert IsRateLimited(w, slept) <==> answer.errClass == RateLimit;
    }
    if answer.Interrupted? {
      assert IsTransient(w, slept) && !IsRateLimited(w, slept);
    }
  }

  // ---------------------------------------------------------------- how long it sleeps

  lemma {:induction false} PowPositive(k: nat)
    ensures Pow2(k) >= 1
  {
    if k > 0 {
      PowPositive(k - 1);
    }
  }

  lemma ProductPositive(initial: int, k: nat)
    requires initial > 0
    ensures initial * Pow2(k) > 0
  {
    PowPositive(k);
  }

  /** Below 2^63 the delay is exactly initial * 2^attempt, and none if there is nothing to begin with. */
  lemma BackoffIsExact(initial: int, attempt: nat)
    requires initial * Pow2(attempt) < TWO_63
    ensures 0 < initial ==> Unjittered(initial, attempt) == initial * Pow2(attempt)
    ensures initial <= 0 ==> forall factor: real, outOfRange :: Backoff(initial, attempt, factor, outOfRange) == 0
  {
    if initial <= 0 {
      return;
    }
    ProductPositive(initial, attempt);
  }

  /** At the first attempt where the product reaches 2^63 the shift goes negative and the cap applies. */
  lemma FirstOverflowIsCapped(initial: int, attempt: nat)
    requires 0 < initial < TWO_63
    requires initial * Pow2(attempt) >= TWO_63 && (attempt > 0 ==> initial * Pow2(attempt - 1) < TWO_63)
    ensures attempt > 0 && Wrap64(initial * Pow2(attempt)) < 0 && Unjittered(initial, attempt) == 30_000_000_000
  {
    assert attempt > 0 by {
      assert Pow2(0) == 1;
    }
    DoubleProduct(initial, attempt);
    assert TWO_63 <= initial * Pow2(attempt) < TWO_64;
  }

  lemma DoubleProduct(initial: int, k: nat)
    requires k > 0
    ensures initial * Pow2(k) == 2 * (initial * Pow2(k - 1))
  {
  }

  /**
    Exactly when the cap applies: the low 64 bits of the product are zero or have their top bit set.
    Otherwise they are the delay.
   */
  lemma CapAppliesExactlyWhen(initial: int, attempt: nat)
    requires 0 < initial
    ensures var low := (initial * Pow2(attempt)) % TWO_64;
            Unjittered(initial, attempt) == if low == 0 || low >= TWO_63 then 30_000_000_000 else low
  {
    LowBits(initial * Pow2(attempt));
  }

  lemma LowBits(x: int)
    ensures Wrap64(x) == if x % TWO_64 >= TWO_63 then x % TWO_64 - TWO_64 else x % TWO_64
  {
    var k := x / TWO_64;
    WrapShift(x % TWO_64, k);
    assert x == x % TWO_64 + k * TWO_64;
  }

  /**
    Past the first overflow the guard can miss: here the third delay is four nanoseconds.  A run gets
    there only after a first sleep of over a century.
   */
  lemma LaterOverflowIsMissed()
    ensures var initial := 0x4000_0000_0000_0001;
            && initial < TWO_63
            && initial * Pow2(2) >= TWO_63
            && Unjittered(initial, 2) == 4
  {
    assert Pow2(1) == 2 && Pow2(2) == 4;
  }

  function Sum(delays: seq<int>): int {
    if delays == [] then 0 else Sum(delays[..|delays| - 1]) + delays[|delays| - 1]
  }

  lemma TimesMonotone(x: real, y: real, z: real)
    requires 0.0 <= x && y <= z
    ensures x * y <= x * z
  {
  }

  /** Whatever the jitter, the delay fits in an int64 exactly when it is at most 2^63 / 1.2; the guard before it does not see to that. */
  lemma JitterFitsExactlyWhen(d: int)
    requires 0 < d < TWO_63
    ensures (forall factor: real :: 0.8 <= factor < 1.2 ==> Fits(d, factor)) <==> 6 * d <= 5 * TWO_63
  {
    if 6 * d <= 5 * TWO_63 {
      forall factor: real | 0.8 <= factor < 1.2
        ensures Fits(d, factor)
      {
        TimesLess(d as real, factor, 1.2);
      }
    } else {
      var factor := TWO_63 as real / d as real;
      assert d as real * factor == TWO_63 as real;
      if factor >= 1.2 {
        TimesMonotone(d as real, 1.2, factor);
      }
      if factor < 0.8 {
        TimesMonotone(d as real, factor, 0.8);
      }
      assert !Fits(d, factor);
    }
  }

  lemma TimesLess(x: real, y: real, z: real)
    requires 0.0 < x && y < z
    ensures x * y < x * z
  {
  }

  lemma FloorBounds(d: int, x: real)
    requires d as real * 0.8 <= x <= d as real * 1.2
    ensures 8 * d - 10 < 10 * x.Floor <= 12 * d
  {
    var f := x.Floor as real;
    assert f <= x < f + 1.0;
    assert 8.0 * (d as real) - 10.0 < 10.0 * f <= 12.0 * (d as real);
  }

  /**
    The jitter takes a fifth off or adds one, less than a nanosecond aside; a delay that does not fit
    comes out smaller than it should be, whichever int64 it becomes.
   */
  lemma JitterBound(d: int, factor: real, outOfRange: int)
    requires 0 <= d && 0.8 <= factor < 1.2 && outOfRange < TWO_63
    ensures 10 * Jittered(d, factor, outOfRange) <= 12 * d
    ensures Fits(d, factor) ==> 8 * d - 10 < 10 * Jittered(d, factor, outOfRange)
  {
    var x := d as real * factor;
    TimesMonotone(d as real, factor, 1.2);
    TimesMonotone(d as real, 0.8, factor);
    FloorBounds(d, x);
    if !Fits(d, factor) {
      assert outOfRange as real <= x;
    }
  }

  /**
    The delay after attempt `attempt`: initial * 2^attempt give or take a fifth, less than a nanosecond
    aside, as long as that fits in an int64.
   */
  lemma DelayBounds(initial: int, attempt: nat, factor: real, outOfRange: int)
    requires 0 < initial && initial * Pow2(attempt) < TWO_63 && 0.8 <= factor < 1.2 && outOfRange < TWO_63
    ensures var d, delay := initial * Pow2(attempt), Backoff(initial, attempt, factor, outOfRange);
            && 10 * delay <= 12 * d
            && ((d as real) * factor < TWO_63 as real ==> 8 * d - 10 < 10 * delay)
  {
    BackoffIsExact(initial, attempt);
    ProductPositive(initial, attempt);
    JitterBound(initial * Pow2(attempt), factor, outOfRange);
  }

  lemma {:induction false} ProductsFit(initial: int, j: nat, k: nat)
    requires 0 < initial && j <= k
    ensures initial * Pow2(j) <= initial * Pow2(k)
    decreases k
  {
    if j < k {
      ProductsFit(initial, j, k - 1);
      DoubleProduct(initial, k);
      ProductPositive(initial, k - 1);
    }
  }

  /**
    While no shift overflows, the sleeps after attempts 0 .. n-1 of one crawl total at most
    1.2 * initial * (2^n - 1), whatever the jitter and its conversion.
   */
  lemma {:induction false} TotalSleepIsBounded(initial: int, delays: seq<int>, factor: nat -> real, outOfRange: nat -> int)
    requires 0 < initial && forall i :: 0 <= i < |delays| ==> delays[i] == Backoff(initial, i, factor(i), outOfRange(i))
    requires forall i: nat :: 0.8 <= factor(i) < 1.2 && outOfRange(i) < TWO_63
    requires |delays| > 0 ==> initial * Pow2(|delays| - 1) < TWO_63
    ensures 10 * Sum(delays) <= 12 * (initial * Pow2(|delays|) - initial)
    decreases |delays|
  {
    var n := |delays|;
    if n == 0 {
      assert Pow2(0) == 1;
    } else {
      if n > 1 {
        ProductsFit(initial, n - 2, n - 1);
      }
      TotalSleepIsBounded(initial, delays[..n - 1], factor, outOfRange);
      BackoffIsExact(initial, n - 1);
      ProductPositive(initial, n - 1);
      JitterBound(initial * Pow2(n - 1), factor(n - 1), outOfRange(n - 1));
      DoubleProduct(initial, n);
    }
  }
}
