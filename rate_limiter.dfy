/**
 * The fixed-window request limiter of the HTTP statistics API. The clock is
 * a parameter: `now` is the current time in milliseconds.
 */
module RateLimiter {
  import opened Wrappers
  import opened Bytes

  /** An IP address, as its bytes. */
  type Address = seq<int>

  /** One address's window: requests counted, in a 32-bit signed counter, since `startTime`. */
  datatype Bucket = Bucket(count: i32, startTime: int)

  const I32_MAX: i32 := 0x7FFF_FFFF
  const I32_MIN: i32 := -0x8000_0000

  /** `Count++` on a 32-bit `int` outside a checked context: the count plus one, modulo 2^32. */
  function Increment(c: i32): (r: i32)
    ensures (c as int + 1 - r as int) % 0x1_0000_0000 == 0
    ensures r < c <==> c == I32_MAX
  {
    if c == I32_MAX then I32_MIN else c + 1
  }

  /** What one request does: whether it is refused, and the address's bucket afterwards. */
  datatype Verdict = Verdict(limited: bool, bucket: Bucket)

  /**
   * The decision for one request from an address whose bucket is `current`
   * (`None` when the address has none yet), with at most `rateLimit`
   * requests per `rateLimitTime` milliseconds. The signed count is compared
   * with the unsigned limit as 64-bit values, so no conversion wraps there.
   */
  function Decide(current: Option<Bucket>, now: int, rateLimit: u32, rateLimitTime: int): Verdict {
    match current
    case None => Verdict(false, Bucket(1, now))
    case Some(b) =>
      if now - b.startTime >= rateLimitTime then Verdict(false, Bucket(1, now))
      else if b.count >= rateLimit then Verdict(true, b)
      else Verdict(false, Bucket(Increment(b.count), b.startTime))
  }

  class Limiter {
    var rateLimit: u32
    var rateLimitTime: int
    var buckets: map<Address, Bucket>

    function Lookup(ip: Address): Option<Bucket>
      reads this
    {
      if ip in buckets then Some(buckets[ip]) else None
    }

    /** The static state before any configuration: no limit, no buckets. */
    constructor ()
      ensures rateLimit == 0 && rateLimitTime == 0 && buckets == map[]
    {
      rateLimit := 0;
      rateLimitTime := 0;
      buckets := map[];
    }

    method SetRateLimit(limit: u32, time: int)
      modifies this
      ensures rateLimit == limit && rateLimitTime == time
      ensures buckets == old(buckets)
    {
      rateLimit := limit;
      rateLimitTime := time;
    }

    /**
     * Creates the address's bucket on its first request, restarts it once
     * its window has passed, refuses the request while the window's count has
     * reached the limit, and counts it otherwise.
     */
    method IsRateLimited(ip: Address, now: int) returns (limited: bool)
      modifies this
      ensures rateLimit == old(rateLimit) && rateLimitTime == old(rateLimitTime)
      ensures var v := Decide(old(Lookup(ip)), now, rateLimit, rateLimitTime);
        limited == v.limited && buckets == old(buckets)[ip := v.bucket]
    {
      if ip !in buckets {
        buckets := buckets[ip := Bucket(1, now)];
        return false;
      } else {
        var elapsedTime := now - buckets[ip].startTime;
        if elapsedTime >= rateLimitTime {
          buckets := buckets[ip := Bucket(1, now)];
        } else {
          if buckets[ip].count >= rateLimit {
            return true;
          } else {
            buckets := buckets[ip := buckets[ip].(count := Increment(buckets[ip].count))];
          }
        }
      }
      return false;
    }
  }

  /** The first request from an address is let through and opens a window of one. */
  lemma FirstRequest(now: int, rateLimit: u32, rateLimitTime: int)
    ensures Decide(None, now, rateLimit, rateLimitTime) == Verdict(false, Bucket(1, now))
  {}

  /** A request once the window is over is let through and opens a new one. */
  lemma WindowReset(b: Bucket, now: int, rateLimit: u32, rateLimitTime: int)
    requires now - b.startTime >= rateLimitTime
    ensures Decide(Some(b), now, rateLimit, rateLimitTime) == Verdict(false, Bucket(1, now))
  {}

  /** Inside the window a full bucket refuses the request and is left as it was. */
  lemma LimitedLeavesBucket(b: Bucket, now: int, rateLimit: u32, rateLimitTime: int)
    requires now - b.startTime < rateLimitTime && b.count >= rateLimit
    ensures Decide(Some(b), now, rateLimit, rateLimitTime) == Verdict(true, b)
  {}

  /**
   * Inside the window a bucket below the limit counts the request. The count
   * goes up by one, except that past the largest 32-bit value it wraps to the
   * smallest.
   */
  lemma CountsRequest(b: Bucket, now: int, rateLimit: u32, rateLimitTime: int)
    requires now - b.startTime < rateLimitTime && b.count < rateLimit
    ensures Decide(Some(b), now, rateLimit, rateLimitTime) == Verdict(false, Bucket(Increment(b.count), b.startTime))
    ensures b.count < I32_MAX ==> Decide(Some(b), now, rateLimit, rateLimitTime).bucket.count == b.count + 1
    ensures b.count == I32_MAX ==> Decide(Some(b), now, rateLimit, rateLimitTime).bucket.count == I32_MIN
  {}

  /** Refusal happens exactly inside a window whose count has reached the limit. */
  lemma LimitedIff(current: Option<Bucket>, now: int, rateLimit: u32, rateLimitTime: int)
    ensures Decide(current, now, rateLimit, rateLimitTime).limited <==>
      current.Some? && now - current.value.startTime < rateLimitTime && current.value.count >= rateLimit
  {}

  function Max(a: int, b: int): int {
    if a >= b then a else b
  }

  /**
   * Under a fixed limit below 2^31 a window never counts more than
   * `max(1, rateLimit)` requests. (`LargeLimitNeverRefuses` covers the larger
   * limits, where the count can wrap.)
   */
  lemma CountBounded(current: Option<Bucket>, now: int, rateLimit: u32, rateLimitTime: int)
    requires rateLimit <= I32_MAX
    requires current.Some? ==> 1 <= current.value.count <= Max(1, rateLimit)
    ensures 1 <= Decide(current, now, rateLimit, rateLimitTime).bucket.count <= Max(1, rateLimit)
  {}

  /**
   * Under a limit below 2^31, a run of requests from one address inside one
   * window lets through at most `max(1, rateLimit)` of them.
   */
  lemma {:induction false} AdmittedPerWindow(b: Bucket, times: seq<int>, rateLimit: u32, rateLimitTime: int)
    requires rateLimit <= I32_MAX
    requires 1 <= b.count <= Max(1, rateLimit)
    requires forall i :: 0 <= i < |times| ==> times[i] - b.startTime < rateLimitTime
    ensures b.count + Admitted(b, times, rateLimit, rateLimitTime) <= Max(1, rateLimit)
    decreases |times|
  {
    if times != [] {
      var v := Decide(Some(b), times[0], rateLimit, rateLimitTime);
      AdmittedPerWindow(v.bucket, times[1..], rateLimit, rateLimitTime);
    }
  }

  /** How many of the requests at `times` are let through, starting from bucket `b`. */
  function Admitted(b: Bucket, times: seq<int>, rateLimit: u32, rateLimitTime: int): nat
    decreases |times|
  {
    if times == [] then 0
    else
      var v := Decide(Some(b), times[0], rateLimit, rateLimitTime);
      (if v.limited then 0 else 1) + Admitted(v.bucket, times[1..], rateLimit, rateLimitTime)
  }

  /**
   * A limit of 2^31 or more is above every value the 32-bit count can hold,
   * so no request is ever refused, whatever the bucket.
   */
  lemma LargeLimitNeverRefuses(current: Option<Bucket>, now: int, rateLimit: u32, rateLimitTime: int)
    requires rateLimit > I32_MAX
    ensures !Decide(current, now, rateLimit, rateLimitTime).limited
  {}

  /** Under a limit of 2^31 or more, every request of a run inside one window is let through. */
  lemma {:induction false} LargeLimitAdmitsAll(b: Bucket, times: seq<int>, rateLimit: u32, rateLimitTime: int)
    requires rateLimit > I32_MAX
    ensures Admitted(b, times, rateLimit, rateLimitTime) == |times|
    decreases |times|
  {
    if times != [] {
      var v := Decide(Some(b), times[0], rateLimit, rateLimitTime);
      LargeLimitNeverRefuses(Some(b), times[0], rateLimit, rateLimitTime);
      LargeLimitAdmitsAll(v.bucket, times[1..], rateLimit, rateLimitTime);
    }
  }

  /**
   * Under the limit 2^31, the request after 2^31 - 1 counted ones is let
   * through and wraps the count to -2^31, and the one after that is let
   * through too.
   */
  lemma CountWrapsUnderLargeLimit(start: int, now: int, rateLimitTime: int)
    requires now - start < rateLimitTime
    ensures var v := Decide(Some(Bucket(I32_MAX, start)), now, 0x8000_0000, rateLimitTime);
      && !v.limited && v.bucket == Bucket(I32_MIN, start)
      && !Decide(Some(v.bucket), now, 0x8000_0000, rateLimitTime).limited
  {}
}
