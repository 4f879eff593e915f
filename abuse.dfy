/**
 * The contact form's abuse gate (app/lib/abuse.server.ts): a per-IP
 * fixed-window rate limiter and a per-IP duplicate-content throttle over two
 * process-wide Maps, the minimum fill-time check, the content hash, the
 * client-IP pick from proxy headers, the origin check and the fail-open bot
 * check. Every operation is given `now`, so the model is deterministic.
 */
module Abuse {
  import opened Wrappers
  import opened Text
  import opened JsMap

  // ---------------------------------------------------------------------
  // Rate limiting and duplicate throttling: the stored records
  // ---------------------------------------------------------------------

  /** A rate-limit bucket: submissions seen in the current window, and when the window ends. */
  datatype Bucket = Bucket(count: int, expiresAt: int)

  /** The last accepted content hash of one IP, and when it stops counting. */
  datatype LastHash = LastHash(hash: string, expiresAt: int)

  function BucketExpiry(b: Bucket): int { b.expiresAt }

  function LastHashExpiry(h: LastHash): int { h.expiresAt }

  /** `{ ok: true }` or `{ ok: false, retryAfterMs }`. */
  datatype RateLimitResult = Allowed | Limited(retryAfterMs: int)

  /** The table a call leaves behind, and what it returns. */
  datatype Transition<V, R> = Transition(table: Table<V>, result: R)

  /** `ip` has a bucket whose window is still open at `now`. */
  predicate LiveBucket(t: Table<Bucket>, ip: string, now: int) {
    ip in t.entries && t.entries[ip].expiresAt > now
  }

  /** Every stored bucket has counted between 1 and `maxPerWindow` submissions. */
  ghost predicate CountsInRange(t: Table<Bucket>, maxPerWindow: int) {
    forall k :: k in t.entries ==> 1 <= t.entries[k].count <= maxPerWindow
  }

  /** Every stored window ends no later than one window length after `last`. */
  ghost predicate ExpiriesWithin<V>(t: Table<V>, last: int, windowMs: int, expiry: V -> int) {
    forall k :: k in t.entries ==> expiry(t.entries[k]) <= last + windowMs
  }

  /**
   * `rateLimit(ip, now)` on the bucket table `t`. No bucket or an expired
   * one: a fresh bucket with count 1 and a new window, then a sweep, and the
   * call is allowed. A live bucket at the limit: refused with the time left
   * in its window, and nothing changes. A live bucket under the limit: its
   * count goes up by one, in place.
   */
  function RateLimitStep(t: Table<Bucket>, ip: string, now: int, maxPerWindow: int, windowMs: int)
    : (r: Transition<Bucket, RateLimitResult>)
    requires windowMs > 0
    ensures t.Valid() ==> r.table.Valid()
    ensures r.result.Limited? <==> LiveBucket(t, ip, now) && t.entries[ip].count >= maxPerWindow
    ensures r.result.Limited? ==> r.table == t && 0 < r.result.retryAfterMs == t.entries[ip].expiresAt - now
    ensures !LiveBucket(t, ip, now) ==> ip in r.table.entries && r.table.entries[ip] == Bucket(1, now + windowMs)
    ensures !LiveBucket(t, ip, now) ==> r.table == Sweep(t.Put(ip, Bucket(1, now + windowMs)), now, BucketExpiry)
    ensures LiveBucket(t, ip, now) && r.result.Allowed? ==>
      && ip in r.table.entries
      && r.table.entries[ip] == Bucket(t.entries[ip].count + 1, t.entries[ip].expiresAt)
      && r.table.order == t.order
    ensures forall k :: k != ip && k in r.table.entries ==> k in t.entries && r.table.entries[k] == t.entries[k]
    ensures forall k :: k in t.entries && t.entries[k].expiresAt > now ==> k in r.table.entries
  {
    var current := Lookup(t.entries, ip);
    if current.None? || current.value.expiresAt <= now then
      Transition(Sweep(t.Put(ip, Bucket(1, now + windowMs)), now, BucketExpiry), Allowed)
    else if current.value.count >= maxPerWindow then
      Transition(t, Limited(Max(0, current.value.expiresAt - now)))
    else
      Transition(t.Put(ip, current.value.(count := current.value.count + 1)), Allowed)
  }

  /**
   * `throttleDuplicates(ip, now, bodyHash)` on the hash table `t`: refused,
   * with nothing changed, exactly when the IP's last hash is still live and
   * equal to `bodyHash`; otherwise the new hash is stored with a new window,
   * the table is swept, and the call is accepted.
   */
  function ThrottleStep(t: Table<LastHash>, ip: string, now: int, bodyHash: string, windowMs: int)
    : (r: Transition<LastHash, bool>)
    requires windowMs > 0
    ensures t.Valid() ==> r.table.Valid()
    ensures !r.result <==> ip in t.entries && t.entries[ip].expiresAt > now && t.entries[ip].hash == bodyHash
    ensures !r.result ==> r.table == t
    ensures r.result ==> ip in r.table.entries && r.table.entries[ip] == LastHash(bodyHash, now + windowMs)
    ensures r.result ==> r.table == Sweep(t.Put(ip, LastHash(bodyHash, now + windowMs)), now, LastHashExpiry)
    ensures forall k :: k != ip && k in r.table.entries ==> k in t.entries && r.table.entries[k] == t.entries[k]
    ensures forall k :: k in t.entries && t.entries[k].expiresAt > now ==> k in r.table.entries
  {
    var prev := Lookup(t.entries, ip);
    if prev.Some? && prev.value.expiresAt > now && prev.value.hash == bodyHash then
      Transition(t, false)
    else
      Transition(Sweep(t.Put(ip, LastHash(bodyHash, now + windowMs)), now, LastHashExpiry), true)
  }

  /** A rate-limit call keeps every bucket's count within [1, maxPerWindow]. */
  lemma RateLimitKeepsCountsInRange(t: Table<Bucket>, ip: string, now: int, maxPerWindow: int, windowMs: int)
    requires windowMs > 0 && maxPerWindow >= 1
    requires CountsInRange(t, maxPerWindow)
    ensures CountsInRange(RateLimitStep(t, ip, now, maxPerWindow, windowMs).table, maxPerWindow)
  {
    var r := RateLimitStep(t, ip, now, maxPerWindow, windowMs);
    forall k | k in r.table.entries
      ensures 1 <= r.table.entries[k].count <= maxPerWindow
    {
      if k == ip && !r.result.Limited? && LiveBucket(t, ip, now) {
        assert t.entries[ip].count < maxPerWindow;
      }
    }
  }

  /**
   * With calls made at non-decreasing times, every window ends at most one
   * window length after the latest call, so a refusal never asks the client
   * to wait longer than one window.
   */
  lemma RetryAfterAtMostWindow(t: Table<Bucket>, ip: string, last: int, now: int, maxPerWindow: int, windowMs: int)
    requires windowMs > 0 && last <= now
    requires ExpiriesWithin(t, last, windowMs, BucketExpiry)
    ensures var r := RateLimitStep(t, ip, now, maxPerWindow, windowMs);
      && ExpiriesWithin(r.table, now, windowMs, BucketExpiry)
      && (r.result.Limited? ==> 0 < r.result.retryAfterMs <= windowMs)
  {
    var r := RateLimitStep(t, ip, now, maxPerWindow, windowMs);
    forall k | k in r.table.entries
      ensures BucketExpiry(r.table.entries[k]) <= now + windowMs
    {
      if k != ip {
        assert BucketExpiry(t.entries[k]) <= last + windowMs;
      } else if LiveBucket(t, ip, now) {
        assert BucketExpiry(t.entries[ip]) <= last + windowMs;
      }
    }
    if r.result.Limited? {
      assert BucketExpiry(t.entries[ip]) <= last + windowMs;
    }
  }

  /** How many of a sequence of `rateLimit(ip, times[i])` calls are allowed. */
  function AllowedCount(t: Table<Bucket>, ip: string, times: seq<int>, maxPerWindow: int, windowMs: int): nat
    requires windowMs > 0
    decreases |times|
  {
    if times == [] then 0
    else
      var r := RateLimitStep(t, ip, times[0], maxPerWindow, windowMs);
      (if r.result.Allowed? then 1 else 0) + AllowedCount(r.table, ip, times[1..], maxPerWindow, windowMs)
  }

  /** While a bucket with count `c` is live, exactly the next `maxPerWindow - c` calls are allowed. */
  lemma {:induction false} LiveBucketAdmits(t: Table<Bucket>, ip: string, times: seq<int>, maxPerWindow: int, windowMs: int)
    requires windowMs > 0
    requires ip in t.entries && t.entries[ip].count <= maxPerWindow
    requires forall i :: 0 <= i < |times| ==> times[i] < t.entries[ip].expiresAt
    ensures AllowedCount(t, ip, times, maxPerWindow, windowMs) == Min(|times|, maxPerWindow - t.entries[ip].count)
    decreases |times|
  {
    if times != [] {
      var r := RateLimitStep(t, ip, times[0], maxPerWindow, windowMs);
      assert LiveBucket(t, ip, times[0]);
      assert r.table.entries[ip].expiresAt == t.entries[ip].expiresAt;
      LiveBucketAdmits(r.table, ip, times[1..], maxPerWindow, windowMs);
    }
  }

  /**
   * Starting with no live bucket for `ip`, of any run of calls that all fall
   * within one window of the first, exactly the first `maxPerWindow` are
   * allowed: at most `maxPerWindow` per window, and none refused before that.
   */
  lemma WindowAdmitsExactlyMax(t: Table<Bucket>, ip: string, times: seq<int>, maxPerWindow: int, windowMs: int)
    requires windowMs > 0 && maxPerWindow >= 1
    requires times != [] && !LiveBucket(t, ip, times[0])
    requires forall i :: 0 <= i < |times| ==> times[i] < times[0] + windowMs
    ensures AllowedCount(t, ip, times, maxPerWindow, windowMs) == Min(|times|, maxPerWindow)
  {
    var r := RateLimitStep(t, ip, times[0], maxPerWindow, windowMs);
    LiveBucketAdmits(r.table, ip, times[1..], maxPerWindow, windowMs);
  }

  /**
   * After an accepted submission, the same IP sending within the window is
   * refused exactly when its hash is the same.
   */
  lemma RepeatWithinWindowIsDuplicate(t: Table<LastHash>, ip: string, first: int, second: int,
                                      hash: string, nextHash: string, windowMs: int)
    requires windowMs > 0
    requires ThrottleStep(t, ip, first, hash, windowMs).result
    requires second < first + windowMs
    ensures var after := ThrottleStep(t, ip, first, hash, windowMs).table;
      !ThrottleStep(after, ip, second, nextHash, windowMs).result <==> nextHash == hash
  {
  }

  /**
   * The two Maps. The source keeps them at module level, one per process;
   * here they are the fields of one gate object with its configuration.
   */
  class AbuseGate {
    /** RATE_LIMIT_MAX */
    const maxPerWindow: int
    /** RATE_LIMIT_WINDOW_MS */
    const windowMs: int
    /** ipBuckets */
    const ipBuckets: Store<Bucket>
    /** ipLastHash */
    const ipLastHash: Store<LastHash>

    ghost predicate Valid()
      reads this, ipBuckets, ipLastHash
    {
      && windowMs > 0 && maxPerWindow >= 1
      && ipBuckets as object != ipLastHash as object
      && ipBuckets.Valid() && ipLastHash.Valid()
      && CountsInRange(ipBuckets.Value(), maxPerWindow)
    }

    constructor (maxPerWindow: int, windowMs: int)
      requires windowMs > 0 && maxPerWindow >= 1
      ensures Valid()
      ensures this.maxPerWindow == maxPerWindow && this.windowMs == windowMs
      ensures fresh(ipBuckets) && fresh(ipLastHash)
      ensures ipBuckets.Value() == Empty() && ipLastHash.Value() == Empty()
    {
      this.maxPerWindow := maxPerWindow;
      this.windowMs := windowMs;
      ipBuckets := new Store();
      ipLastHash := new Store();
    }

    /** `rateLimit(ip, now)` */
    method RateLimit(ip: string, now: int) returns (r: RateLimitResult)
      requires Valid()
      modifies ipBuckets
      ensures Valid()
      ensures Transition(ipBuckets.Value(), r) == RateLimitStep(old(ipBuckets.Value()), ip, now, maxPerWindow, windowMs)
      ensures ipLastHash.Value() == old(ipLastHash.Value())
    {
      ghost var t0 := ipBuckets.Value();
      RateLimitKeepsCountsInRange(t0, ip, now, maxPerWindow, windowMs);
      var current := ipBuckets.Get(ip);
      if current.None? || current.value.expiresAt <= now {
        ipBuckets.Set(ip, Bucket(1, now + windowMs));
        CleanupExpired(ipBuckets, now, BucketExpiry);
        return Allowed;
      }
      if current.value.count >= maxPerWindow {
        return Limited(Max(0, current.value.expiresAt - now));
      }
      ipBuckets.Set(ip, current.value.(count := current.value.count + 1));
      return Allowed;
    }

    /** `throttleDuplicates(ip, now, bodyHash)`; `ok` is the result's `ok` field. */
    method ThrottleDuplicates(ip: string, now: int, bodyHash: string) returns (ok: bool)
      requires Valid()
      modifies ipLastHash
      ensures Valid()
      ensures Transition(ipLastHash.Value(), ok) == ThrottleStep(old(ipLastHash.Value()), ip, now, bodyHash, windowMs)
      ensures ipBuckets.Value() == old(ipBuckets.Value())
    {
      var prev := ipLastHash.Get(ip);
      if prev.Some? && prev.value.expiresAt > now && prev.value.hash == bodyHash {
        return false;
      }
      ipLastHash.Set(ip, LastHash(bodyHash, now + windowMs));
      CleanupExpired(ipLastHash, now, LastHashExpiry);
      return true;
    }
  }

  // ---------------------------------------------------------------------
  // Minimum fill time
  // ---------------------------------------------------------------------

  /**
   * `isTooFast(now, startedAt)` with MIN_SUBMIT_MS as `minSubmitMs`.
   * `startedAt` is `None` when the form's timestamp is NaN. A missing or zero
   * timestamp fails closed; otherwise the submission is too fast exactly
   * when less than `minSubmitMs` has elapsed.
   */
  function IsTooFast(now: int, startedAt: Option<int>, minSubmitMs: int): (tooFast: bool)
    ensures startedAt.None? || startedAt == Some(0) ==> tooFast
    ensures startedAt.Some? && startedAt.value != 0 ==> (tooFast <==> now - startedAt.value < minSubmitMs)
  {
    if startedAt.None? || startedAt.value == 0 then true
    else now - startedAt.value < minSubmitMs
  }

  /** Waiting longer never turns an accepted fill time into a rejected one. */
  lemma IsTooFastMonotone(now: int, later: int, startedAt: Option<int>, minSubmitMs: int)
    requires now <= later && !IsTooFast(now, startedAt, minSubmitMs)
    ensures !IsTooFast(later, startedAt, minSubmitMs)
  {
  }

  // ---------------------------------------------------------------------
  // Client IP
  // ---------------------------------------------------------------------

  /** Request headers by lower-case name (`req.headers.get(name)`). */
  type Headers = map<string, string>

  /**
   * The first comma-separated entry of X-Forwarded-For, trimmed: the text
   * before the first comma (or all of it), with surrounding whitespace
   * removed; "" when the header is absent.
   */
  function FirstForwarded(headers: Headers): (r: string)
    ensures ',' !in r && IsTrimmed(r)
    ensures "x-forwarded-for" !in headers ==> r == []
    ensures "x-forwarded-for" in headers ==> var h := headers["x-forwarded-for"];
      exists k :: 0 <= k <= |h| && ',' !in h[..k] && (k == |h| || h[k] == ',') && r == Trim(h[..k])
  {
    if "x-forwarded-for" in headers then
      var h := headers["x-forwarded-for"];
      var first := Split(h, ',')[0];
      SplitFirstPiece(h, ',');
      assert h[..|first|] == first;
      Trim(first)
    else ""
  }

  /**
   * `getClientIp(req)`: the first X-Forwarded-For entry if it is non-empty,
   * else CF-Connecting-IP if non-empty, else X-Real-IP if non-empty, else
   * "unknown". The result is never empty.
   */
  function GetClientIp(headers: Headers): (ip: string)
    ensures ip != []
    ensures FirstForwarded(headers) != [] ==> ip == FirstForwarded(headers)
    ensures FirstForwarded(headers) == [] && OrElse(Lookup(headers, "cf-connecting-ip"), "") != [] ==>
      ip == headers["cf-connecting-ip"]
    ensures FirstForwarded(headers) == [] && OrElse(Lookup(headers, "cf-connecting-ip"), "") == [] ==>
      ip == OrElse(Lookup(headers, "x-real-ip"), "unknown")
  {
    var forwarded := FirstForwarded(headers);
    var realIp :=
      if forwarded != [] then forwarded
      else OrElse(Lookup(headers, "cf-connecting-ip"), OrElse(Lookup(headers, "x-real-ip"), ""));
    OrElse(Some(realIp), "unknown")
  }

  /**
   * When X-Forwarded-For starts with the entry `first` (followed by nothing
   * or by a comma), the first forwarded entry is `first` trimmed, and it is
   * the client IP unless it is blank.
   */
  lemma ClientIpIsFirstForwardedEntry(headers: Headers, first: string, tail: string)
    requires "x-forwarded-for" in headers && headers["x-forwarded-for"] == first + tail
    requires ',' !in first && (tail == [] || tail[0] == ',')
    ensures FirstForwarded(headers) == Trim(first)
    ensures Trim(first) != [] ==> GetClientIp(headers) == Trim(first)
  {
    SplitAppend(first, tail, ',');
    assert Split(tail, ',')[0] == [];
    assert Split(first + tail, ',')[0] == first + [];
    assert first + [] == first;
    assert FirstForwarded(headers) == Trim(first);
  }

  // ---------------------------------------------------------------------
  // Origin check and bot check
  // ---------------------------------------------------------------------

  /** `req.headers.get("origin") || req.headers.get("referer")`, with "" for neither. */
  function ClaimedOrigin(headers: Headers): (origin: string)
    ensures origin == [] <==> OrElse(Lookup(headers, "origin"), "") == [] && OrElse(Lookup(headers, "referer"), "") == []
    ensures OrElse(Lookup(headers, "origin"), "") != [] ==> origin == headers["origin"]
    ensures OrElse(Lookup(headers, "origin"), "") == [] && origin != [] ==> origin == headers["referer"]
  {
    OrElse(Lookup(headers, "origin"), OrElse(Lookup(headers, "referer"), ""))
  }

  /**
   * `originAllowed(req, siteUrl)`. `hostOf(u)` is `new URL(u).host`, or
   * `None` when the URL constructor throws. With no site URL configured, or
   * no Origin/Referer sent, the request passes; a URL that does not parse
   * fails closed; otherwise the two hosts must be equal.
   */
  function OriginAllowed(headers: Headers, siteUrl: Option<string>, hostOf: string -> Option<string>): (ok: bool)
    ensures OrElse(siteUrl, "") == [] || ClaimedOrigin(headers) == [] ==> ok
    ensures OrElse(siteUrl, "") != [] && ClaimedOrigin(headers) != [] ==>
      (ok <==> hostOf(siteUrl.value).Some? && hostOf(ClaimedOrigin(headers)) == hostOf(siteUrl.value))
  {
    if OrElse(siteUrl, "") == [] then true
    else
      var origin := ClaimedOrigin(headers);
      if origin == [] then true
      else
        var allowHost := hostOf(siteUrl.value);
        if allowHost.None? then false
        else
          var receivedHost := hostOf(origin);
          if receivedHost.None? then false
          else allowHost.value == receivedHost.value
  }

  /** What the `isbot` classifier does with a user agent: a verdict, or a failure (it threw, or no callable export). */
  datatype Detection = Verdict(isBot: bool) | DetectorFailed

  /** `looksLikeBot(req)`: the classifier's verdict on the User-Agent (or ""), failing open. */
  function LooksLikeBot(headers: Headers, detect: string -> Detection): (bot: bool)
    ensures var ua := OrElse(Lookup(headers, "user-agent"), "");
      bot <==> detect(ua) == Verdict(true)
  {
    var ua := OrElse(Lookup(headers, "user-agent"), "");
    match detect(ua)
    case Verdict(b) => b
    case DetectorFailed => false
  }

  // ---------------------------------------------------------------------
  // Content hash
  // ---------------------------------------------------------------------

  const TwoTo31: int := 0x8000_0000
  const TwoTo32: int := 0x1_0000_0000

  /** `x | 0`: the signed 32-bit integer congruent to `x`. */
  function ToInt32(x: int): (r: int)
    ensures -TwoTo31 <= r < TwoTo31
    ensures r % TwoTo32 == x % TwoTo32
  {
    var m := x % TwoTo32;
    if m >= TwoTo31 then m - TwoTo32 else m
  }

  function Pow31(n: nat): nat {
    if n == 0 then 1 else 31 * Pow31(n - 1)
  }

  /** The polynomial sum of the code units: `s[i] * 31^(|s|-1-i)` added over all `i`. */
  function PolySum(s: string): int {
    if s == [] then 0 else (s[0] as int) * Pow31(|s| - 1) + PolySum(s[1..])
  }

  /** Appending a unit multiplies the sum so far by 31 and adds the unit. */
  lemma {:induction false} PolySumAppend(s: string, c: char)
    ensures PolySum(s + [c]) == PolySum(s) * 31 + c as int
  {
    if s != [] {
      assert (s + [c])[1..] == s[1..] + [c];
      PolySumAppend(s[1..], c);
      assert Pow31(|s|) == 31 * Pow31(|s| - 1);
      calc {
        PolySum(s + [c]);
        (s[0] as int) * Pow31(|s|) + PolySum(s[1..] + [c]);
        (s[0] as int) * (31 * Pow31(|s| - 1)) + PolySum(s[1..]) * 31 + c as int;
        ((s[0] as int) * Pow31(|s| - 1) + PolySum(s[1..])) * 31 + c as int;
      }
    } else {
      assert [] + [c] == [c];
    }
  }

  /** Numbers congruent modulo 2^32 stay congruent through one hash step. */
  lemma HashStepCongruent(h: int, sum: int, c: int)
    requires h % TwoTo32 == sum % TwoTo32
    ensures (h * 31 + c) % TwoTo32 == (sum * 31 + c) % TwoTo32
  {
    var k := h / TwoTo32 - sum / TwoTo32;
    assert h == sum + k * TwoTo32;
    assert h * 31 + c == (sum * 31 + c) + (31 * k) * TwoTo32;
    ModAddMultiple(sum * 31 + c, 31 * k);
  }

  lemma ModAddMultiple(x: int, k: int)
    ensures (x + k * TwoTo32) % TwoTo32 == x % TwoTo32
  {
  }

  /** The decimal digit for `d`. */
  function Digit(d: nat): (c: char)
    requires d < 10
    ensures '0' <= c <= '9' && c as int - '0' as int == d
  {
    ('0' as int + d) as char
  }

  predicate AllDigits(s: string) {
    forall i :: 0 <= i < |s| ==> '0' <= s[i] <= '9'
  }

  /** `String(n)` for a non-negative integer: decimal digits, no leading zero. */
  function DecimalString(n: nat): (r: string)
    ensures r != [] && AllDigits(r)
    ensures r[0] == '0' ==> n == 0 && r == "0"
  {
    if n < 10 then [Digit(n)] else DecimalString(n / 10) + [Digit(n % 10)]
  }

  /** The number a string of decimal digits denotes. */
  function DecimalValue(s: string): nat
    requires AllDigits(s)
  {
    if s == [] then 0 else DecimalValue(s[..|s| - 1]) * 10 + (s[|s| - 1] as int - '0' as int)
  }

  /** Reading back the decimal string gives the number. */
  lemma {:induction false} DecimalRoundTrip(n: nat)
    ensures DecimalValue(DecimalString(n)) == n
  {
    if n >= 10 {
      var r := DecimalString(n);
      assert r[..|r| - 1] == DecimalString(n / 10);
      DecimalRoundTrip(n / 10);
    }
  }

  /**
   * `hashContent(s)`: the code units folded with `h = (h * 31 + c) | 0`,
   * printed as the unsigned value `h >>> 0`. The result is the decimal
   * string of the polynomial sum modulo 2^32.
   */
  method HashContent(s: string) returns (r: string)
    ensures r == DecimalString(PolySum(s) % TwoTo32)
  {
    var h := 0;
    var i := 0;
    while i < |s|
      invariant 0 <= i <= |s|
      invariant -TwoTo31 <= h < TwoTo31
      invariant h % TwoTo32 == PolySum(s[..i]) % TwoTo32
    {
      HashStepCongruent(h, PolySum(s[..i]), s[i] as int);
      assert s[..i + 1] == s[..i] + [s[i]];
      PolySumAppend(s[..i], s[i]);
      h := ToInt32(h * 31 + s[i] as int);
      i := i + 1;
    }
    assert s[..i] == s;
    r := DecimalString(h % TwoTo32);
  }

  /** The hash of the empty string is "0", and every hash is below 2^32 and reads back as such. */
  lemma HashValueRange(s: string)
    ensures DecimalString(PolySum([]) % TwoTo32) == "0"
    ensures 0 <= DecimalValue(DecimalString(PolySum(s) % TwoTo32)) < TwoTo32
  {
    DecimalRoundTrip(PolySum(s) % TwoTo32);
  }
}
