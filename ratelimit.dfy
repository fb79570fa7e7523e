/** The sliding-window rate limiter of app/middleware.py and the two small
    computations of its middleware: which bucket a request is counted in, and
    the remaining-quota header.  The clock is an integer `now` supplied by the
    caller; the lock is left out and calls are taken one at a time. */
module RateLimit {
  import opened Wrappers
  import opened PyText

  // ------------------------------------------------------------ pruning

  /** The timestamps of `ts` that are still inside the window at `now`
      (strictly less than `window` old), in their original order. */
  function Recent(ts: seq<int>, now: int, window: int): (r: seq<int>)
    ensures |r| <= |ts|
    ensures forall t :: t in r <==> t in ts && now - t < window
    decreases |ts|
  {
    if ts == [] then []
    else (if now - ts[0] < window then [ts[0]] else []) + Recent(ts[1..], now, window)
  }

  /** Pruning works element by element, so survivors keep their order. */
  lemma {:induction false} RecentAppend(a: seq<int>, b: seq<int>, now: int, window: int)
    ensures Recent(a + b, now, window) == Recent(a, now, window) + Recent(b, now, window)
    decreases |a|
  {
    if a == [] {
      assert a + b == b;
    } else {
      assert (a + b)[0] == a[0];
      assert (a + b)[1..] == a[1..] + b;
      RecentAppend(a[1..], b, now, window);
    }
  }

  /** A list whose timestamps are all inside the window is kept whole. */
  lemma {:induction false} RecentKeepsFresh(ts: seq<int>, now: int, window: int)
    requires forall t :: t in ts ==> now - t < window
    ensures Recent(ts, now, window) == ts
    decreases |ts|
  {
    if ts != [] {
      assert ts[0] in ts;
      assert forall t :: t in ts[1..] ==> t in ts;
      RecentKeepsFresh(ts[1..], now, window);
    }
  }

  /** Pruning twice at the same instant is pruning once. */
  lemma RecentIdempotent(ts: seq<int>, now: int, window: int)
    ensures Recent(Recent(ts, now, window), now, window) == Recent(ts, now, window)
  {
    RecentKeepsFresh(Recent(ts, now, window), now, window);
  }

  // ------------------------------------------------------------ one decision

  /** `is_allowed` on a list `ts` at `now`: whether the request is admitted,
      and the list stored afterwards. */
  function Admit(ts: seq<int>, now: int, maxRequests: int, window: int): (r: (bool, seq<int>))
    ensures r.0 <==> |Recent(ts, now, window)| < maxRequests
    ensures |r.1| == |Recent(ts, now, window)| + (if r.0 then 1 else 0)
    ensures r.1[..|Recent(ts, now, window)|] == Recent(ts, now, window)
    ensures r.0 ==> r.1[|r.1| - 1] == now
  {
    var kept := Recent(ts, now, window);
    if |kept| >= maxRequests then (false, kept) else (true, kept + [now])
  }

  /** The admission decision depends only on the survivors and never pushes
      a list past `maxRequests`: rejected lists shrink or stay, admitted ones
      grow by exactly one. */
  lemma AdmitKeepsBound(ts: seq<int>, now: int, maxRequests: int, window: int)
    requires |ts| <= maxRequests
    ensures |Admit(ts, now, maxRequests, window).1| <= maxRequests
    ensures Admit(ts, now, maxRequests, window).0 ==>
      |Admit(ts, now, maxRequests, window).1| == |Recent(ts, now, window)| + 1
  {
  }

  /** With a positive window, every timestamp stored after a call is inside
      the window at the time of that call. */
  lemma AdmitKeepsOnlyRecent(ts: seq<int>, now: int, maxRequests: int, window: int)
    requires window > 0
    ensures forall t :: t in Admit(ts, now, maxRequests, window).1 ==> now - t < window
  {
  }

  /** Right after an admission the quota reported to the client lies between
      zero and one below the limit. */
  lemma AdmitRemaining(ts: seq<int>, now: int, maxRequests: int, window: int)
    requires Admit(ts, now, maxRequests, window).0
    ensures 0 <= RemainingQuota(maxRequests, Admit(ts, now, maxRequests, window).1) <= maxRequests - 1
  {
  }

  // ------------------------------------------------------------ a series of calls

  /** The decisions for calls at `times`, one after another, for one client
      whose stored list starts as `ts`. */
  function Run(ts: seq<int>, times: seq<int>, maxRequests: int, window: int): (r: seq<bool>)
    ensures |r| == |times|
    decreases |times|
  {
    if times == [] then []
    else
      var step := Admit(ts, times[0], maxRequests, window);
      [step.0] + Run(step.1, times[1..], maxRequests, window)
  }

  function Repeat<T>(x: T, n: nat): (r: seq<T>)
    ensures |r| == n && forall i :: 0 <= i < n ==> r[i] == x
  {
    seq(n, _ => x)
  }

  function Min(a: nat, b: nat): (m: nat) { if a <= b then a else b }

  /** `k` calls at the same instant, for a client with `j` live entries out of
      a limit of `n`: the first n - j are admitted and the rest rejected. */
  /** One call at `now` for a client with `j` live entries: it is admitted
      exactly when `j` is below the limit, and the live entries then number
      one more. */
  lemma AdmitStep(ts: seq<int>, now: int, j: nat, n: nat, window: int)
    requires window > 0 && |Recent(ts, now, window)| == j
    ensures Admit(ts, now, n, window).0 <==> j < n
    ensures |Recent(Admit(ts, now, n, window).1, now, window)| == if j < n then j + 1 else j
  {
    var kept := Recent(ts, now, window);
    RecentIdempotent(ts, now, window);
    if j < n {
      RecentAppend(kept, [now], now, window);
      assert Recent([now], now, window) == [now];
    }
  }

  lemma {:induction false} BurstFrom(ts: seq<int>, now: int, j: nat, k: nat, n: nat, window: int)
    requires window > 0 && j <= n && |Recent(ts, now, window)| == j
    ensures Run(ts, Repeat(now, k), n, window)
      == Repeat(true, Min(k, n - j)) + Repeat(false, k - Min(k, n - j))
    decreases k
  {
    if k > 0 {
      var times := Repeat(now, k);
      assert times[0] == now && times[1..] == Repeat(now, k - 1);
      var step := Admit(ts, now, n, window);
      AdmitStep(ts, now, j, n, window);
      var m := Min(k, n - j);
      if j < n {
        BurstFrom(step.1, now, j + 1, k - 1, n, window);
        assert [true] + Repeat(true, m - 1) == Repeat(true, m);
      } else {
        BurstFrom(step.1, now, j, k - 1, n, window);
        assert [false] + Repeat(false, k - 1) == Repeat(false, k);
      }
    }
  }

  /** With a limit of `n`, n + 1 calls for one client at the same instant
      (and nothing of it inside the window before) admit the first n and
      reject the last. */
  lemma SameInstantBurst(ts: seq<int>, now: int, n: nat, window: int)
    requires window > 0 && Recent(ts, now, window) == []
    ensures Run(ts, Repeat(now, n + 1), n, window) == Repeat(true, n) + [false]
  {
    BurstFrom(ts, now, 0, n + 1, n, window);
    assert Repeat(false, 1) == [false];
  }

  /** Limit 2, window 60: two calls at 0 pass, a third at 1 is refused, and
      once the window has gone by (at 61) a call passes again. */
  lemma LimitTwoExample()
    ensures Run([], [0, 0, 1, 61], 2, 60) == [true, true, false, true]
  {
    assert Recent([], 0, 60) == [];
    assert [] + [0] == [0] && [0] + [0] == [0, 0] && [] + [61] == [61];
    assert Admit([], 0, 2, 60) == (true, [0]);
    assert Recent([0], 0, 60) == [0];
    assert Admit([0], 0, 2, 60) == (true, [0, 0]);
    assert Recent([0, 0], 1, 60) == [0, 0];
    assert Admit([0, 0], 1, 2, 60) == (false, [0, 0]);
    assert Recent([0, 0], 61, 60) == [];
    assert Admit([0, 0], 61, 2, 60) == (true, [61]);
    var times := [0, 0, 1, 61];
    assert times[1..] == [0, 1, 61] && times[1..][1..] == [1, 61] && times[1..][1..][1..] == [61];
  }

  // ------------------------------------------------------------ the limiter

  /** The bound that every stored list keeps: `max_requests`, or zero when
      the limit is not positive (then nothing is ever admitted). */
  function Capacity(maxRequests: int): (c: nat)
  {
    if maxRequests < 0 then 0 else maxRequests
  }

  class RateLimiter {
    const maxRequests: int
    const windowSeconds: int
    /** Client id to the times of its admitted requests (a `defaultdict(list)`). */
    var requests: map<string, seq<int>>

    ghost predicate Valid()
      reads this
    {
      forall c :: c in requests ==> |requests[c]| <= Capacity(maxRequests)
    }

    constructor (maxRequests: int := 100, windowSeconds: int := 60)
      ensures Valid()
      ensures this.maxRequests == maxRequests && this.windowSeconds == windowSeconds
      ensures requests == map[]
    {
      this.maxRequests := maxRequests;
      this.windowSeconds := windowSeconds;
      requests := map[];
    }

    /** The list stored for `clientId`; a client never seen has an empty one. */
    function Stored(clientId: string): seq<int>
      reads this
    {
      if clientId in requests then requests[clientId] else []
    }

    /** `is_allowed(client_id)` at time `now`: prune the client's list to the
        window, then refuse when it is full, or append `now` and admit.  Only
        the client's own list changes, and it is stored even when refused. */
    method IsAllowed(clientId: string, now: int) returns (allowed: bool)
      requires Valid()
      modifies this
      ensures Valid()
      ensures allowed <==> |Recent(old(Stored(clientId)), now, windowSeconds)| < maxRequests
      ensures (allowed, Stored(clientId)) == Admit(old(Stored(clientId)), now, maxRequests, windowSeconds)
      ensures requests == old(requests)[clientId := Stored(clientId)]
      ensures windowSeconds > 0 ==> forall t :: t in Stored(clientId) ==> now - t < windowSeconds
    {
      var ts := Stored(clientId);
      var kept: seq<int> := [];
      for i := 0 to |ts|
        invariant kept == Recent(ts[..i], now, windowSeconds)
        invariant requests == old(requests)
      {
        assert ts[..i + 1] == ts[..i] + [ts[i]];
        RecentAppend(ts[..i], [ts[i]], now, windowSeconds);
        if now - ts[i] < windowSeconds {
          kept := kept + [ts[i]];
        }
      }
      assert ts[..|ts|] == ts;
      assert |kept| <= |ts| <= Capacity(maxRequests);
      requests := requests[clientId := kept];
      if |requests[clientId]| >= maxRequests {
        return false;
      }
      requests := requests[clientId := kept + [now]];
      assert Stored(clientId) == kept + [now];
      return true;
    }
  }

  // ------------------------------------------------------------ the middleware

  /** The login and register routes as the middleware tests for them. */
  predicate IsAuthPath(path: string)
  {
    StartsWith(path, "/login") || StartsWith(path, "/register")
  }

  /** The bucket a request is counted in: the attached user's id, else the
      client's address tagged "auth_" on the authentication routes, else the
      bare address. */
  function ClientId(host: string, path: string, user: Option<nat>): (id: string)
    ensures user.Some? ==> |id| > 5 && id[..5] == "user_" && id[5..] == Decimal(user.value)
    ensures user.None? && IsAuthPath(path) ==> |id| == |host| + 5 && id[..5] == "auth_" && id[5..] == host
    ensures user.None? && !IsAuthPath(path) ==> id == host
  {
    if user.Some? then "user_" + Decimal(user.value)
    else if IsAuthPath(path) then "auth_" + host
    else host
  }

  /** Buckets as ClientId hands them out: a signed-in user is counted in a
      bucket of their own whatever the address or path; anonymous calls to
      an authentication route are counted apart from the same address's
      other calls. */
  lemma ClientIdBuckets(h1: string, p1: string, h2: string, p2: string, a: nat, b: nat)
    ensures ClientId(h1, p1, Some(a)) == ClientId(h2, p2, Some(b)) <==> a == b
    ensures IsAuthPath(p1) && !IsAuthPath(p2) ==> ClientId(h1, p1, None) != ClientId(h1, p2, None)
  {
    if ClientId(h1, p1, Some(a)) == ClientId(h2, p2, Some(b)) {
      var prefix := "user_";
      assert Decimal(a) == ClientId(h1, p1, Some(a))[|prefix|..];
      DecimalInjective(a, b);
    }
    if IsAuthPath(p1) && !IsAuthPath(p2) {
      assert |ClientId(h1, p1, None)| == |h1| + 5;
    }
  }

  /** The prefix under which app/main.py mounts every router. */
  const ApiPrefix: string := "/api"

  /** As written, the authentication test looks at the unprefixed path, so a
      call to the mounted login route is counted in the address's general
      bucket. */
  lemma MountedLoginMissesAuthBucket(host: string)
    ensures ClientId(host, ApiPrefix + "/login", None) == host
    ensures ClientId(host, ApiPrefix + "/register", None) == host
  {
    assert (ApiPrefix + "/login")[1] != "/login"[1];
    assert (ApiPrefix + "/register")[1] != "/register"[1];
    assert (ApiPrefix + "/register")[1] != "/login"[1];
    assert (ApiPrefix + "/login")[1] != "/register"[1];
  }

  /** The authentication test for the routes where they are mounted. */
  predicate IsMountedAuthPath(path: string)
  {
    StartsWith(path, ApiPrefix + "/login") || StartsWith(path, ApiPrefix + "/register")
  }

  /** ClientId with the authentication routes recognised under the "/api"
      prefix they are served from. */
  function ClientIdMounted(host: string, path: string, user: Option<nat>): (id: string)
  {
    if user.Some? then "user_" + Decimal(user.value)
    else if IsMountedAuthPath(path) then "auth_" + host
    else host
  }

  /** Every anonymous call to the mounted login or register route lands in
      the "auth_" bucket of its address, apart from that address's other
      calls; signed-in users keep their own buckets. */
  lemma MountedAuthBucket(host: string, rest: string, other: string, a: nat, b: nat)
    requires !IsMountedAuthPath(other)
    ensures ClientIdMounted(host, ApiPrefix + "/login" + rest, None) == "auth_" + host
    ensures ClientIdMounted(host, ApiPrefix + "/register" + rest, None) == "auth_" + host
    ensures ClientIdMounted(host, other, None) != "auth_" + host
    ensures ClientIdMounted(host, other, Some(a)) == ClientIdMounted(host, ApiPrefix + "/login", Some(b)) <==> a == b
  {
    assert StartsWith(ApiPrefix + "/login" + rest, ApiPrefix + "/login");
    assert StartsWith(ApiPrefix + "/register" + rest, ApiPrefix + "/register");
    assert |"auth_" + host| == |host| + 5;
    if ClientIdMounted(host, other, Some(a)) == ClientIdMounted(host, ApiPrefix + "/login", Some(b)) {
      var prefix := "user_";
      assert Decimal(a) == ClientIdMounted(host, other, Some(a))[|prefix|..];
      DecimalInjective(a, b);
    }
  }

  /** The X-RateLimit-Remaining header. */
  function RemainingQuota(maxRequests: int, stored: seq<int>): (q: int)
    ensures q <= maxRequests
    ensures q >= 0 <==> |stored| <= maxRequests
    ensures q == 0 <==> |stored| == maxRequests
  {
    maxRequests - |stored|
  }

  /** What the middleware does before handing on the request. */
  datatype Decision =
    | TooManyRequests                       // 429 "Too many requests. Please try again later."
    | Forwarded(limit: int, remaining: int) // X-RateLimit-Limit and X-RateLimit-Remaining

  /** `rate_limit_middleware`, up to the point where the response headers
      are written, for a request arriving at `now`.  The bucket is chosen with
      ClientId, as the middleware does. */
  method RateLimitMiddleware(rl: RateLimiter, host: string, path: string, user: Option<nat>, now: int)
    returns (d: Decision)
    requires rl.Valid()
    modifies rl
    ensures rl.Valid()
    ensures var id := ClientId(host, path, user);
      var step := Admit(old(rl.Stored(id)), now, rl.maxRequests, rl.windowSeconds);
      && rl.requests == old(rl.requests)[id := step.1]
      && (d.TooManyRequests? <==> !step.0)
    ensures d.Forwarded? ==> d.limit == rl.maxRequests && 0 <= d.remaining <= rl.maxRequests - 1
    ensures d.Forwarded? ==>
      d.remaining == rl.maxRequests - |Recent(old(rl.Stored(ClientId(host, path, user))), now, rl.windowSeconds)| - 1
  {
    var id := ClientId(host, path, user);
    var ok := rl.IsAllowed(id, now);
    if !ok {
      return TooManyRequests;
    }
    d := Forwarded(rl.maxRequests, RemainingQuota(rl.maxRequests, rl.Stored(id)));
  }
}
