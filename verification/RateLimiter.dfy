/** TimeWindowRateLimiter: permits handed out per time window. */
module RateLimiter {
  import opened Words

  datatype Limiter = Limiter(max: nat, window: nat, allowExceed: bool, permits: nat, last: nat)

  function Create(max: nat, window: nat, allowExceed: bool, now: nat): Limiter {
    Limiter(max, window, allowExceed, max, now)
  }

  // Unsigned difference of two 64-bit times.
  function Elapsed(now: nat, since: nat): int {
    if now >= since then now - since else TWO_64 + now - since
  }

  // The start of a new window, if one is due.
  function Refill(s: Limiter, now: nat): Limiter {
    if Elapsed(now, s.last) >= s.window then s.(last := now, permits := s.max) else s
  }

  function TryAcquire(s: Limiter, now: nat, p: int): (Limiter, bool) {
    if p > s.max then (s, s.allowExceed)
    else
      var s1 := Refill(s, now);
      if s1.permits >= p then (s1.(permits := SizeT(s1.permits - p)), true) else (s1, false)
  }

  function Rollback(s: Limiter, p: int): Limiter {
    var sum := SizeT(s.permits + p);
    s.(permits := if sum > s.max then s.max else sum)
  }

  // ---------- the object ----------

  // A steady clock; time passes between any two readings.
  class Clock {
    var now: nat

    constructor () { now := 0; }

    method Read() returns (t: nat)
      modifies this
      ensures old(now) <= t == now
    {
      var passed: nat :| true;
      now := now + passed;
      t := now;
    }

    // Sleeps for at least ms.
    method Sleep(ms: nat)
      modifies this
      ensures old(now) + ms <= now
    {
      var passed: nat :| true;
      now := now + ms + passed;
    }
  }

  class TimeWindowRateLimiter {
    const maxPermits: nat
    const window: nat
    const allowExceed: bool
    var permits: nat
    var lastUpdate: nat

    function State(): Limiter
      reads this
    {
      Limiter(maxPermits, window, allowExceed, permits, lastUpdate)
    }

    constructor (max: nat, windowMs: nat, exceed: bool, now: nat)
      ensures State() == Create(max, windowMs, exceed, now)
    {
      maxPermits, window, allowExceed := max, windowMs, exceed;
      permits, lastUpdate := max, now;
    }

    method TryAcquireAt(now: nat, p: int) returns (ok: bool)
      modifies this
      ensures (State(), ok) == TryAcquire(old(State()), now, p)
    {
      if p > maxPermits {
        return allowExceed;
      }
      if Elapsed(now, lastUpdate) >= window {
        lastUpdate := now;
        permits := maxPermits;
      }
      if permits >= p {
        permits := SizeT(permits - p);
        return true;
      }
      return false;
    }

    method RollbackPermits(p: int)
      modifies this
      ensures State() == Rollback(old(State()), p)
    {
      permits := SizeT(permits + p);
      if permits > maxPermits {
        permits := maxPermits;
      }
    }

    // acquire, with no other caller: it succeeds after at most two failed tries.
    method Acquire(p: nat, clock: Clock) returns (ok: bool, failures: nat)
      requires lastUpdate <= clock.now && permits <= maxPermits < TWO_64
      modifies this, clock
      ensures p > maxPermits ==> ok == allowExceed && failures == 0
      ensures p <= maxPermits ==> ok && failures <= 2
      ensures p <= maxPermits ==> permits + p == old(permits) || permits + p == maxPermits
      ensures p > maxPermits ==> State() == old(State())
      ensures old(clock.now) <= clock.now
    {
      failures := 0;
      if p > maxPermits {
        return allowExceed, 0;
      }
      var now := clock.Read();
      ok := TryAcquireAt(now, p);
      // The second failure comes after the instant of the last update, so that the sleep
      // behind it reaches the end of the window.
      while !ok
        invariant old(clock.now) <= clock.now && lastUpdate <= clock.now
        invariant !ok ==> permits < p && failures <= 1 && (failures == 1 ==> lastUpdate < clock.now)
        invariant !ok ==> permits == old(permits) || permits == maxPermits
        invariant ok ==> failures <= 2 && (permits + p == old(permits) || permits + p == maxPermits)
        decreases if ok then 0 else 2 - failures
      {
        failures := failures + 1;
        now := clock.Read();
        var elapsed := Elapsed(now, lastUpdate);
        if 0 < elapsed < window {
          clock.Sleep(window - elapsed);
        } else {
          clock.Sleep(1);
        }
        now := clock.Read();
        ok := TryAcquireAt(now, p);
      }
    }
  }

  // ---------- whole runs ----------

  datatype Event = Try(time: nat, p: nat) | Back(time: nat, p: nat)

  function Step(s: Limiter, e: Event): Limiter {
    match e
    case Try(time, p) => TryAcquire(s, time, p).0
    case Back(_, p) => Rollback(s, p)
  }

  function Run(s: Limiter, es: seq<Event>): Limiter
    decreases es
  {
    if es == [] then s else Run(Step(s, es[0]), es[1..])
  }

  // The clock does not run backwards.
  ghost predicate Ordered(from: nat, es: seq<Event>)
    decreases es
  {
    es == [] || (from <= es[0].time && Ordered(es[0].time, es[1..]))
  }

  // Permits that event e takes out of s: those of granted requests up to the maximum.
  function Taken(s: Limiter, e: Event): nat {
    if e.Try? && e.p <= s.max && TryAcquire(s, e.time, e.p).1 then e.p else 0
  }

  // Permits granted at times in [a, b).
  function Granted(s: Limiter, es: seq<Event>, a: nat, b: nat): nat
    decreases es
  {
    if es == [] then 0
    else (if a <= es[0].time < b then Taken(s, es[0]) else 0) + Granted(Step(s, es[0]), es[1..], a, b)
  }

  // Permits rolled back at times in [a, b).
  function RolledBack(es: seq<Event>, a: nat, b: nat): nat {
    if es == [] then 0
    else (if es[0].Back? && a <= es[0].time < b then es[0].p else 0) + RolledBack(es[1..], a, b)
  }

  ghost predicate Valid(s: Limiter) {
    s.permits <= s.max < TWO_64
  }

  lemma {:induction false} PermitsInRange(s: Limiter, es: seq<Event>)
    requires Valid(s)
    ensures Valid(Run(s, es))
    decreases es
  {
    if es == [] {
    } else {
      PermitsInRange(Step(s, es[0]), es[1..]);
    }
  }

  lemma {:induction false} NothingAfter(s: Limiter, es: seq<Event>, a: nat, b: nat)
    requires Ordered(b, es)
    ensures Granted(s, es, a, b) == 0
    decreases es
  {
    if es == [] {
    } else {
      var rest := es[1..];
      assert Ordered(b, rest) by { if rest != [] { assert es[0].time <= rest[0].time; } }
      NothingAfter(Step(s, es[0]), rest, a, b);
    }
  }

  // A step either starts a new window, at least one window after the last, or grants out of
  // what is there.
  lemma StepBudget(s: Limiter, e: Event)
    requires Valid(s) && s.window > 0 && s.last <= e.time
    ensures var s1 := Step(s, e);
            && Valid(s1) && s1.max == s.max && s1.window == s.window
            && (s1.last == s.last || s1.last == e.time >= s.last + s.window)
            && Taken(s, e) + s1.permits <=
               (if s1.last == s.last then s.permits else s.max) + (if e.Back? then e.p else 0)
  {
  }

  // From time a on, with m windows enough to reach b from the next possible refill.
  lemma {:induction false} GrantedFrom(s: Limiter, es: seq<Event>, a: nat, b: nat, m: nat)
    requires Valid(s) && s.window > 0
    requires Ordered(if a <= s.last then s.last else a, es)
    requires b <= a + Times(m, s.window) || b <= s.last + s.window + Times(m, s.window)
    ensures Granted(s, es, a, b) <= s.permits + Times(m, s.max) + RolledBack(es, a, b)
    decreases es
  {
    hide Step, Taken, Valid;
    if es == [] {
    } else {
      var e, rest := es[0], es[1..];
      if e.time >= b {
        NothingAfter(s, es, a, b);
      } else {
        var s1 := Step(s, e);
        StepBudget(s, e);
        GrantedFrom(s1, rest, a, b, if s1.last == s.last then m else m - 1);
      }
    }
  }

  function Times(m: nat, x: nat): nat {
    if m == 0 then 0 else Times(m - 1, x) + x
  }

  lemma {:induction false} TimesIsProduct(m: nat, x: nat)
    ensures Times(m, x) == m * x
  {
    if m == 0 {
    } else {
      TimesIsProduct(m - 1, x);
    }
  }

  // Rolling back a granted request restores what was stored before it.
  lemma RollbackUndoesAcquire(s: Limiter, now: nat, p: nat)
    requires Valid(s) && p <= s.max && TryAcquire(s, now, p).1
    ensures Rollback(TryAcquire(s, now, p).0, p) == Refill(s, now)
  {
  }

  // In any k windows at most (k + 1) * max permits are granted, besides those given back.
  lemma {:induction false} WindowBound(s: Limiter, es: seq<Event>, a: nat, k: nat)
    requires Valid(s) && s.window > 0 && Ordered(s.last, es)
    ensures Granted(s, es, a, a + k * s.window) <= (k + 1) * s.max + RolledBack(es, a, a + k * s.window)
    decreases es
  {
    if es == [] {
    } else {
      var b := a + k * s.window;
      if es[0].time >= a {
        TimesIsProduct(k, s.window);
        TimesIsProduct(k, s.max);
        GrantedFrom(s, es, a, b, k);
      } else {
        StepBudget(s, es[0]);
        WindowBound(Step(s, es[0]), es[1..], a, k);
      }
    }
  }

  // Requests for everything at time t and at the start of each of the k - 1 windows behind it.
  function Bursts(max: nat, window: nat, t: nat, k: nat): seq<Event>
    decreases k
  {
    if k == 0 then [] else Before(Try(t, max), Bursts(max, window, t + window, k - 1))
  }

  function Before(e: Event, es: seq<Event>): (r: seq<Event>)
    ensures r != [] && r[0] == e && r[1..] == es
  {
    [e] + es
  }

  lemma {:induction false} BurstsAreGranted(s: Limiter, a: nat, b: nat, t: nat, k: nat)
    requires Valid(s) && s.window > 0 && s.last + s.window <= t && a <= t
    requires k > 0 ==> t + Times(k - 1, s.window) < b
    ensures Granted(s, Bursts(s.max, s.window, t, k), a, b) == Times(k, s.max)
    ensures Ordered(t, Bursts(s.max, s.window, t, k))
    ensures RolledBack(Bursts(s.max, s.window, t, k), a, b) == 0
    decreases k
  {
    if k == 0 {
    } else {
      var s1 := Step(s, Try(t, s.max));
      BurstsAreGranted(s1, a, b, t + s.window, k - 1);
      var rest := Bursts(s.max, s.window, t + s.window, k - 1);
      assert rest != [] ==> rest[0].time == t + s.window;
    }
  }

  // The bound is reached, for any number of windows of at least two milliseconds: the permits of
  // a window at its very end, and those of the k windows behind it each at its start.
  lemma BoundIsReached(max: nat, window: nat, k: nat)
    requires max < TWO_64 && window > 1 && k > 0
    ensures var s := Create(max, window, false, 0);
            var es := Before(Try(window - 1, max), Bursts(max, window, window, k));
            var a, b := window - 1, window - 1 + k * window;
            Ordered(0, es) && RolledBack(es, a, b) == 0 && Granted(s, es, a, b) == (k + 1) * max
  {
    hide Granted, Ordered, RolledBack, Bursts, Create;
    TimesIsProduct(k, window);
    TimesIsProduct(k + 1, max);
    AllBursts(max, window, k);
  }

  lemma AllBursts(max: nat, window: nat, k: nat)
    requires max < TWO_64 && window > 1 && k > 0
    ensures var s := Create(max, window, false, 0);
            var es := Before(Try(window - 1, max), Bursts(max, window, window, k));
            var a, b := window - 1, window - 1 + Times(k, window);
            Ordered(0, es) && RolledBack(es, a, b) == 0 && Granted(s, es, a, b) == Times(k + 1, max)
  {
    hide Valid, TryAcquire, Taken, Step;
    var a, b := window - 1, window - 1 + Times(k, window);
    var s := Create(max, window, false, 0);
    var first, rest := Try(a, max), Bursts(max, window, window, k);
    FirstBurst(max, window);
    BurstsAreGranted(Step(s, first), a, b, window, k);
    assert rest != [] ==> rest[0].time == window;
  }

  lemma FirstBurst(max: nat, window: nat)
    requires max < TWO_64 && window > 1
    ensures var s := Create(max, window, false, 0);
            var e := Try(window - 1, max);
            Taken(s, e) == max && Step(s, e) == s.(permits := 0) && Valid(s.(permits := 0))
  {
  }

  // ---------- requests are granted when they should be ----------

  // The limiter as a ledger: when the window began and what has been spent in it.
  datatype Ledger = Ledger(start: int, spent: int)

  // A request within the maximum opens a new window if the last is over, and is granted exactly
  // when it fits into what is left of the maximum.
  function Entry(l: Ledger, max: int, window: int, time: int, p: int): (Ledger, bool) {
    var now := if time - l.start >= window then Ledger(time, 0) else l;
    if now.spent + p <= max then (now.(spent := now.spent + p), true) else (now, false)
  }

  // The ledger after a run. What is given back is not spent any more, but never below nothing.
  function Balance(l: Ledger, max: int, window: int, es: seq<Event>): Ledger
    decreases |es|
  {
    if es == [] then l
    else
      var e, before := es[|es| - 1], Balance(l, max, window, es[..|es| - 1]);
      match e
      case Back(_, p) => before.(spent := if before.spent > p then before.spent - p else 0)
      case Try(time, p) => if p > max then before else Entry(before, max, window, time, p).0
  }

  // What is given back does not overflow the 64 bits of the store.
  ghost predicate NoOverflow(max: nat, es: seq<Event>) {
    forall i :: 0 <= i < |es| && es[i].Back? ==> max + es[i].p < TWO_64
  }

  ghost predicate Matches(s: Limiter, l: Ledger) {
    s.permits == s.max - l.spent && s.last == l.start && 0 <= l.spent <= s.max
  }

  lemma {:induction false} RunLast(s: Limiter, es: seq<Event>)
    requires es != []
    ensures Run(s, es) == Step(Run(s, es[..|es| - 1]), es[|es| - 1])
    decreases es
  {
    hide Step;
    if |es| > 1 {
      RunLast(Step(s, es[0]), es[1..]);
      assert es[1..][..|es| - 2] == es[..|es| - 1][1..];
    } else {
      assert es[..0] == [] && es[1..] == [];
    }
  }

  lemma {:induction false} OrderedAt(from: nat, es: seq<Event>, i: nat, j: nat)
    requires Ordered(from, es) && i <= j < |es|
    ensures from <= es[i].time <= es[j].time
    decreases es
  {
    if i > 0 {
      OrderedAt(es[0].time, es[1..], i - 1, j - 1);
    } else if j > 0 {
      OrderedAt(es[0].time, es[1..], 0, j - 1);
    }
  }

  lemma {:induction false} OrderedPrefix(from: nat, es: seq<Event>, n: nat)
    requires Ordered(from, es) && n <= |es|
    ensures Ordered(from, es[..n])
    decreases es
  {
    if n > 0 {
      OrderedPrefix(es[0].time, es[1..], n - 1);
      assert es[..n][1..] == es[1..][..n - 1];
    }
  }

  lemma StepMatches(s: Limiter, l: Ledger, e: Event)
    requires Matches(s, l) && s.max < TWO_64 && s.last <= e.time && (e.Back? ==> s.max + e.p < TWO_64)
    ensures var l' := match e
                      case Back(_, p) => l.(spent := if l.spent > p then l.spent - p else 0)
                      case Try(time, p) => if p > s.max then l else Entry(l, s.max, s.window, time, p).0;
            Matches(Step(s, e), l') && Step(s, e).last <= e.time
    ensures Step(s, e).max == s.max && Step(s, e).window == s.window && Step(s, e).allowExceed == s.allowExceed
  {
  }

  lemma {:induction false} RunMatches(s: Limiter, es: seq<Event>)
    requires Valid(s) && Ordered(s.last, es) && NoOverflow(s.max, es)
    ensures var s' := Run(s, es);
            && Matches(s', Balance(Ledger(s.last, s.max - s.permits), s.max, s.window, es))
            && s'.max == s.max && s'.window == s.window && s'.allowExceed == s.allowExceed
            && s'.last <= if es == [] then s.last else es[|es| - 1].time
    decreases |es|
  {
    hide Step, Entry;
    if es == [] {
    } else {
      var n := |es| - 1;
      OrderedPrefix(s.last, es, n);
      RunMatches(s, es[..n]);
      RunLast(s, es);
      OrderedAt(s.last, es, if n > 0 then n - 1 else 0, n);
      StepMatches(Run(s, es[..n]), Balance(Ledger(s.last, s.max - s.permits), s.max, s.window, es[..n]), es[n]);
    }
  }

  // In any run a request is granted exactly when it, and what has been spent in the window that
  // is open then, make at most the maximum; above the maximum only the flag decides.
  lemma GrantedIff(s: Limiter, es: seq<Event>, time: nat, p: nat)
    requires Valid(s) && Ordered(s.last, es + [Try(time, p)]) && NoOverflow(s.max, es)
    ensures var l := Balance(Ledger(s.last, s.max - s.permits), s.max, s.window, es);
            var spent := if time - l.start >= s.window then 0 else l.spent;
            TryAcquire(Run(s, es), time, p).1 == if p > s.max then s.allowExceed else p + spent <= s.max
  {
    hide Run, Balance;
    var all := es + [Try(time, p)];
    OrderedPrefix(s.last, all, |es|);
    assert all[..|es|] == es;
    OrderedAt(s.last, all, if es == [] then 0 else |es| - 1, |es|);
    RunMatches(s, es);
  }

  function Asked(es: seq<Event>): nat {
    if es == [] then 0 else es[0].p + Asked(es[1..])
  }

  // Requests within one window that together ask for no more than is stored are all granted.
  lemma {:induction false} WindowGrantsAll(s: Limiter, es: seq<Event>)
    requires Valid(s) && Ordered(s.last, es) && Asked(es) <= s.permits
    requires forall i :: 0 <= i < |es| ==> es[i].Try? && es[i].time < s.last + s.window
    ensures Run(s, es) == s.(permits := s.permits - Asked(es))
    ensures forall i :: 0 <= i < |es| ==> TryAcquire(Run(s, es[..i]), es[i].time, es[i].p).1
    decreases es
  {
    if es == [] {
    } else {
      var s1 := Step(s, es[0]);
      assert s1 == s.(permits := s.permits - es[0].p);
      assert Ordered(s.last, es[1..]) by {
        if |es| > 1 {
          assert es[1..][0] == es[1];
        }
      }
      WindowGrantsAll(s1, es[1..]);
      forall i | 0 <= i < |es| ensures TryAcquire(Run(s, es[..i]), es[i].time, es[i].p).1 {
        if i > 0 {
          assert es[..i][1..] == es[1..][..i - 1];
          assert Run(s, es[..i]) == Run(s1, es[1..][..i - 1]);
          assert es[1..][i - 1] == es[i];
        }
      }
    }
  }

  // A rollback that overflows takes permits away.
  lemma RollbackWraps()
    ensures var s := Limiter(TWO_64 - 1, 1000, false, TWO_64 - 2, 0); Rollback(s, 2).permits == 0
  {
  }

  // A clock that went backwards counts as one that wrapped.
  lemma ElapsedWraps(now: nat, since: nat)
    requires now < TWO_64 && since < TWO_64
    ensures Elapsed(now, since) == SizeT(now - since)
  {
    IsRemainder(now - since);
  }
}
