/** The per-IP fixed-window rate limiter for member submissions.
    The process-wide table maps an IP to its current window's counter;
    the clock reading (`Date.now()`) is passed in as `now`, in milliseconds. */
module RateLimit {
  import opened Strings

  /** Length of one window: one hour in milliseconds. */
  const WINDOW_MS: int := 60 * 60 * 1000
  /** Submissions allowed per IP in one window. */
  const MAX_REQUESTS: int := 10

  /** The stored counter for one IP. */
  datatype Entry = Entry(count: int, resetAt: int)

  /** What one call reports to the request handler. */
  datatype Verdict = Verdict(allowed: bool, remaining: int)

  /** Every entry the limiter stores satisfies this. */
  predicate WellFormed(e: Entry)
  {
    1 <= e.count <= MAX_REQUESTS
  }

  function Lookup(m: map<string, Entry>, ip: string): Option<Entry>
  {
    if ip in m then Some(m[ip]) else None
  }

  /** The window of the found entry is still in force: expiry is the strict
      test `now > resetAt`, so at `now == resetAt` the old window holds. */
  predicate InWindow(found: Option<Entry>, now: int)
  {
    found.Some? && now <= found.value.resetAt
  }

  /** The verdict of one call, given the entry found for the caller's IP. */
  function Decide(found: Option<Entry>, now: int): (v: Verdict)
    ensures !InWindow(found, now) ==> v == Verdict(true, MAX_REQUESTS - 1)
    ensures InWindow(found, now) ==> (v.allowed <==> found.value.count < MAX_REQUESTS)
    ensures InWindow(found, now) && found.value.count < MAX_REQUESTS ==> v.remaining == MAX_REQUESTS - found.value.count - 1
    ensures !v.allowed ==> v.remaining == 0
    ensures found.Some? && WellFormed(found.value) ==> 0 <= v.remaining < MAX_REQUESTS
  {
    if !InWindow(found, now) then Verdict(true, MAX_REQUESTS - 1)
    else if found.value.count >= MAX_REQUESTS then Verdict(false, 0)
    else Verdict(true, MAX_REQUESTS - (found.value.count + 1))
  }

  /** The entry stored for the caller's IP after one call. */
  function NextEntry(found: Option<Entry>, now: int): (e: Entry)
    ensures !InWindow(found, now) ==> e == Entry(1, now + WINDOW_MS)
    ensures InWindow(found, now) ==> e.resetAt == found.value.resetAt
    ensures InWindow(found, now) && found.value.count < MAX_REQUESTS ==> e.count == found.value.count + 1
    ensures InWindow(found, now) && found.value.count >= MAX_REQUESTS ==> e == found.value
    ensures found.Some? && WellFormed(found.value) ==> WellFormed(e)
    ensures Decide(found, now).allowed ==> Decide(found, now).remaining == MAX_REQUESTS - e.count
    ensures found.Some? && WellFormed(found.value) && !Decide(found, now).allowed ==> e == found.value
  {
    if !InWindow(found, now) then Entry(1, now + WINDOW_MS)
    else if found.value.count >= MAX_REQUESTS then found.value
    else found.value.(count := found.value.count + 1)
  }

  /** The verdicts a single IP receives for calls at the given times, starting
      from the entry found for it. Entries of other IPs never affect them. */
  function Replay(found: Option<Entry>, times: seq<int>): (vs: seq<Verdict>)
    ensures |vs| == |times|
    decreases |times|
  {
    if times == [] then []
    else [Decide(found, times[0])] + Replay(Some(NextEntry(found, times[0])), times[1..])
  }

  function CountAllowed(vs: seq<Verdict>): nat
  {
    if vs == [] then 0 else (if vs[0].allowed then 1 else 0) + CountAllowed(vs[1..])
  }

  function Min(a: int, b: int): int
  {
    if a <= b then a else b
  }

  /** Inside an open window the first `MAX_REQUESTS - count` calls are
      allowed and every later one is refused, with `remaining` counting down. */
  lemma {:induction false} InWindowVerdicts(e: Entry, times: seq<int>)
    requires WellFormed(e)
    requires forall i :: 0 <= i < |times| ==> times[i] <= e.resetAt
    ensures forall i :: 0 <= i < |times| ==>
      (Replay(Some(e), times)[i].allowed <==> i < MAX_REQUESTS - e.count)
    ensures forall i :: 0 <= i < |times| ==>
      Replay(Some(e), times)[i].remaining == if i < MAX_REQUESTS - e.count then MAX_REQUESTS - e.count - i - 1 else 0
    ensures CountAllowed(Replay(Some(e), times)) == Min(|times|, MAX_REQUESTS - e.count)
    decreases |times|
  {
    if times != [] {
      var next := NextEntry(Some(e), times[0]);
      var rest := Replay(Some(next), times[1..]);
      assert Replay(Some(e), times) == [Decide(Some(e), times[0])] + rest;
      assert next.resetAt == e.resetAt;
      InWindowVerdicts(next, times[1..]);
      if e.count < MAX_REQUESTS {
        assert next.count == e.count + 1;
      } else {
        assert next == e;
      }
      assert ([Decide(Some(e), times[0])] + rest)[1..] == rest;
    }
  }

  /** A window is opened by a call that finds no entry or an expired one;
      of that call and all later calls up to the window's end, exactly the
      first MAX_REQUESTS are allowed, so at most MAX_REQUESTS succeed per window. */
  lemma AtMostMaxPerWindow(found: Option<Entry>, times: seq<int>)
    requires times != [] && !InWindow(found, times[0])
    requires forall i :: 0 <= i < |times| ==> times[i] <= times[0] + WINDOW_MS
    ensures forall i :: 0 <= i < |times| ==> (Replay(found, times)[i].allowed <==> i < MAX_REQUESTS)
    ensures CountAllowed(Replay(found, times)) == Min(|times|, MAX_REQUESTS)
  {
    var window := Entry(1, times[0] + WINDOW_MS);
    var vs := Replay(found, times);
    var rest := Replay(Some(window), times[1..]);
    assert vs == [Verdict(true, MAX_REQUESTS - 1)] + rest;
    InWindowVerdicts(window, times[1..]);
    assert vs[1..] == rest;
  }

  /** The entry stored for one IP after calls at the given times. */
  function After(found: Option<Entry>, times: seq<int>): Option<Entry>
    decreases |times|
  {
    if times == [] then found else After(Some(NextEntry(found, times[0])), times[1..])
  }

  /** Calls can be replayed in two stretches, the second starting from the entry the first left. */
  lemma {:induction false} ReplayAppend(found: Option<Entry>, a: seq<int>, b: seq<int>)
    ensures Replay(found, a + b) == Replay(found, a) + Replay(After(found, a), b)
    decreases |a|
  {
    if a == [] {
      assert a + b == b;
    } else {
      assert (a + b)[0] == a[0] && (a + b)[1..] == a[1..] + b;
      ReplayAppend(Some(NextEntry(found, a[0])), a[1..], b);
    }
  }

  lemma {:induction false} CountAllowedAppend(x: seq<Verdict>, y: seq<Verdict>)
    ensures CountAllowed(x + y) == CountAllowed(x) + CountAllowed(y)
    decreases |x|
  {
    if x == [] {
      assert x + y == y;
    } else {
      assert (x + y)[0] == x[0] && (x + y)[1..] == x[1..] + y;
      CountAllowedAppend(x[1..], y);
    }
  }

  /** Calls inside an open window never move its end. */
  lemma {:induction false} WindowEndKept(e: Entry, times: seq<int>)
    requires forall i :: 0 <= i < |times| ==> times[i] <= e.resetAt
    ensures After(Some(e), times).Some? && After(Some(e), times).value.resetAt == e.resetAt
    decreases |times|
  {
    if times != [] {
      WindowEndKept(NextEntry(Some(e), times[0]), times[1..]);
    }
  }

  /** The window is fixed, not rolling: MAX_REQUESTS calls that fill one
      window, followed by MAX_REQUESTS calls just after it ends, are all
      allowed. With the first stretch's later calls at the window's last
      millisecond and the second stretch one millisecond on, 2 * MAX_REQUESTS - 1
      allowed calls fall within two milliseconds. */
  lemma FixedWindowAllowsBurstAtBoundary(found: Option<Entry>, a: seq<int>, b: seq<int>)
    requires |a| == MAX_REQUESTS && !InWindow(found, a[0])
    requires forall i :: 0 <= i < |a| ==> a[i] <= a[0] + WINDOW_MS
    requires |b| == MAX_REQUESTS && b[0] > a[0] + WINDOW_MS
    requires forall i :: 0 <= i < |b| ==> b[i] <= b[0] + WINDOW_MS
    ensures CountAllowed(Replay(found, a + b)) == 2 * MAX_REQUESTS
  {
    ReplayAppend(found, a, b);
    CountAllowedAppend(Replay(found, a), Replay(After(found, a), b));
    AtMostMaxPerWindow(found, a);
    var window := Entry(1, a[0] + WINDOW_MS);
    assert After(found, a) == After(Some(window), a[1..]);
    WindowEndKept(window, a[1..]);
    AtMostMaxPerWindow(After(found, a), b);
  }

  /** A concrete burst: one call at `t` opens a window, nine more come at
      its last millisecond `t + WINDOW_MS` and ten at `t + WINDOW_MS + 1`.
      All twenty are allowed, and the last nineteen fall within two
      milliseconds, where a rolling one-hour window would allow ten. */
  lemma BurstOfTwiceMaxAtWindowEnd(found: Option<Entry>, t: int)
    requires !InWindow(found, t)
    ensures var calls := [t] + seq(9, _ => t + WINDOW_MS) + seq(10, _ => t + WINDOW_MS + 1);
      && |calls| == 2 * MAX_REQUESTS
      && (forall i :: 1 <= i < |calls| ==> t + WINDOW_MS <= calls[i] <= t + WINDOW_MS + 1)
      && CountAllowed(Replay(found, calls)) == 2 * MAX_REQUESTS
  {
    var a := [t] + seq(9, _ => t + WINDOW_MS);
    var b := seq(10, _ => t + WINDOW_MS + 1);
    assert forall i :: 1 <= i < |a| ==> a[i] == t + WINDOW_MS;
    FixedWindowAllowsBurstAtBoundary(found, a, b);
  }

  /** The in-process table `ip -> {count, resetAt}` and the call that consults it. */
  class RateLimiter {
    var submissions: map<string, Entry>

    ghost predicate Valid()
      reads this
    {
      forall ip :: ip in submissions ==> WellFormed(submissions[ip])
    }

    constructor ()
      ensures Valid() && submissions == map[]
    {
      submissions := map[];
    }

    /** `checkRateLimit(ip)` at clock reading `now`: only the caller's entry may change. */
    method CheckRateLimit(ip: string, now: int) returns (v: Verdict)
      requires Valid()
      modifies this
      ensures Valid()
      ensures v == Decide(Lookup(old(submissions), ip), now)
      ensures submissions == old(submissions)[ip := NextEntry(Lookup(old(submissions), ip), now)]
      ensures 0 <= v.remaining < MAX_REQUESTS
      ensures forall other :: other != ip ==> Lookup(submissions, other) == Lookup(old(submissions), other)
    {
      var found := Lookup(submissions, ip);
      if found.None? || now > found.value.resetAt {
        submissions := submissions[ip := Entry(1, now + WINDOW_MS)];
        return Verdict(true, MAX_REQUESTS - 1);
      }
      var record := found.value;
      if record.count >= MAX_REQUESTS {
        return Verdict(false, 0);
      }
      record := record.(count := record.count + 1);
      submissions := submissions[ip := record];
      v := Verdict(true, MAX_REQUESTS - record.count);
    }
  }
}
