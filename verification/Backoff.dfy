/** Retrying the removal of a busy module: exponential backoff with a tail that meets the deadline. */
module Backoff {
  import opened Text

  const ULLONG_MAX := 0xFFFF_FFFF_FFFF_FFFF

  /** The previous delta doubled, 1 at least, saturating. */
  function Doubled(d: nat): nat {
    if d == 0 then 1 else if 2 * d > ULLONG_MAX then ULLONG_MAX else 2 * d
  }

  /** Halved until it fits. */
  function Fitted(d: nat, limit: nat): (r: nat)
    requires limit > 0
    ensures r <= limit && r <= d && (d > 0 ==> r > 0) && (r == d || 2 * r >= limit)
  {
    if d <= limit then d else Fitted(d / 2, limit)
  }

  /** The next delta at time `t`: nothing once the end is reached. */
  function NextDelta(tend: nat, delta: nat, t: nat): nat {
    if tend <= t then 0 else Fitted(Doubled(delta), tend - t)
  }

  /**
   get_backoff_delta_msec at time `t`: the deadline is never passed and lies in the future while there is time;
   the delta is the doubled one, or at least half of what is left
   */
  method GetBackoffDelta(tend: nat, delta: nat, t: nat) returns (d: nat, until: nat)
    requires tend <= ULLONG_MAX
    ensures until == t + d && d == NextDelta(tend, delta, t)
    ensures t < tend ==> t < until <= tend
    ensures t >= tend ==> d == 0
    ensures t < tend ==> d == Doubled(delta) || (d < Doubled(delta) && 2 * d >= tend - t)
    ensures t < tend && Doubled(delta) <= tend - t ==> d == Doubled(delta)
  {
    d := delta;
    if tend <= t {
      d := 0;
    } else {
      var limit: nat := tend - t;
      d := Doubled(d);
      while d > limit
        invariant 1 <= d <= Doubled(delta) && Fitted(d, limit) == NextDelta(tend, delta, t)
        invariant d < Doubled(delta) ==> 2 * d >= limit
        invariant Doubled(delta) <= limit ==> d == Doubled(delta)
      {
        d := d / 2;
      }
      if d == 0 {
        d := limit;
      }
    }
    until := t + d;
  }

  // ----- the number of attempts

  function Pow2(k: nat): (r: nat)
    ensures r > k
  {
    if k == 0 then 1 else 2 * Pow2(k - 1)
  }

  /** The greatest k with 2^k <= n. */
  function Log2(n: nat): (k: nat)
    requires n > 0
    ensures Pow2(k) <= n < Pow2(k + 1)
  {
    if n == 1 then 0
    else
      var k := Log2(n / 2);
      assert Pow2(k + 2) == 2 * Pow2(k + 1);
      k + 1
  }

  lemma {:induction false} Pow2Monotone(j: nat, k: nat)
    requires j <= k
    ensures Pow2(j) <= Pow2(k)
  {
    if j < k {
      Pow2Monotone(j, k - 1);
    }
  }

  lemma LogBound(k: nat, n: nat)
    requires n > 0 && Pow2(k) <= n
    ensures k <= Log2(n)
  {
    if k > Log2(n) {
      Pow2Monotone(Log2(n) + 1, k);
    }
  }

  /**
   The history of the sleeps: `doublings` ones of doubled length, then `halvings` ones that took at least half
   of the time left. `rest` bounds what is left now.
   */
  datatype History = History(doublings: nat, halvings: nat)

  ghost predicate Explains(h: History, wait: nat, delta: nat, rest: nat) {
    && Pow2(h.doublings) <= wait && rest <= wait
    && (h.halvings == 0 ==> delta == Pow2(h.doublings))
    && (h.halvings > 0 ==> rest <= delta && Pow2(h.halvings) * rest <= wait && Pow2(h.halvings - 1) <= wait)
  }

  ghost function Histories(wait: nat, delta: nat, rest: nat): iset<History> {
    iset h: History | forall k :: Asked(k) ==> Explains(h, wait, delta, rest)
  }

  lemma IsHistory(h: History, wait: nat, delta: nat, rest: nat)
    ensures h in Histories(wait, delta, rest) <==> Explains(h, wait, delta, rest)
  {
    assert Asked(0);
  }

  /** One more sleep of length `d` when at most `rest` was left and `limit` really was. */
  lemma Slept(h: History, wait: nat, delta: nat, rest: nat, limit: nat, d: nat) returns (h': History)
    requires h in Histories(wait, delta, rest) && 0 < limit <= rest && wait <= ULLONG_MAX
    requires delta > 0 && (d == Doubled(delta) || (d < Doubled(delta) && 2 * d >= limit)) && d <= limit
    requires Doubled(delta) <= limit ==> d == Doubled(delta)
    ensures h' in Histories(wait, d, limit - d)
    ensures h'.doublings + h'.halvings == h.doublings + h.halvings + 1
  {
    IsHistory(h, wait, delta, rest);
    if h.halvings == 0 && d == 2 * delta {
      h' := History(h.doublings + 1, 0);
    } else {
      HalfSleep(h, wait, delta, rest, limit, d);
      h' := History(h.doublings, h.halvings + 1);
    }
    IsHistory(h', wait, d, limit - d);
  }

  lemma HalfSleep(h: History, wait: nat, delta: nat, rest: nat, limit: nat, d: nat)
    requires Explains(h, wait, delta, rest) && 0 < limit <= rest && wait <= ULLONG_MAX
    requires delta > 0 && (d == Doubled(delta) || (d < Doubled(delta) && 2 * d >= limit)) && d <= limit
    requires !(h.halvings == 0 && d == 2 * delta)
    ensures 2 * d >= limit && Pow2(h.halvings) <= wait && Pow2(h.halvings + 1) * (limit - d) <= wait
  {
    Halve(Pow2(h.halvings), rest, limit, d, wait);
  }

  lemma Halve(k: nat, rest: nat, limit: nat, d: nat, wait: nat)
    requires k * rest <= wait && 0 < limit <= rest && limit <= 2 * d <= 2 * limit
    ensures k <= wait && 2 * k * (limit - d) <= wait
  {
    Product(k, 1, rest);
    Product(k, 2 * (limit - d), rest);
    assert 2 * k * (limit - d) == k * (2 * (limit - d));
  }

  lemma Product(k: nat, a: nat, b: nat)
    requires a <= b
    ensures k * a <= k * b
  {
  }

  /** No history is longer than twice the logarithm of the waiting time. */
  lemma HistoryBound(h: History, wait: nat, delta: nat, rest: nat)
    requires wait > 0 && h in Histories(wait, delta, rest)
    ensures h.doublings + h.halvings <= 2 * Log2(wait) + 1
  {
    IsHistory(h, wait, delta, rest);
    LogBound(h.doublings, wait);
    if h.halvings > 0 {
      LogBound(h.halvings - 1, wait);
    }
  }

  /** What the outside world does: results of the removals, results of the sleeps, and how late the clock is read. */
  datatype World = World(remove: nat -> int, sleep: nat -> int, start: nat, late: nat -> nat)

  /** The clock and the last delta. */
  datatype Timer = Timer(now: nat, delta: nat)

  /** ... after a sleep that starts at time `t`. */
  function NextTimer(a: Timer, tend: nat, t: nat): Timer {
    var d := NextDelta(tend, a.delta, t);
    Timer(t + d, d)
  }

  /** ... after `n` failed attempts and the sleeps behind them. */
  function TimerAfter(w: World, wait: nat, n: nat): Timer {
    if n == 0 then Timer(w.start, 1)
    else
      var before := TimerAfter(w, wait, n - 1);
      NextTimer(before, w.start + wait, before.now + w.late(n))
  }

  /** Attempt `n` fails in a way that is worth another one: the module is busy, the sleep works, there is time left. */
  predicate GoesOn(w: World, wait: nat, n: nat)
    requires n > 0
  {
    && w.remove(n - 1) == -EAGAIN && wait > 0
    && w.start > 0 && w.sleep(n) >= 0 && TimerAfter(w, wait, n).delta > 0
  }

  function Left(tend: nat, now: nat): nat {
    if now < tend then tend - now else 0
  }

  function TimeLeft(w: World, wait: nat, n: nat): nat {
    Left(w.start + wait, TimerAfter(w, wait, n).now)
  }

  /** One sleep, as the timer sees it. */
  lemma OneSleep(wait: nat, tend: nat, a: Timer, b: Timer, t: nat, rest: nat, before: History) returns (h: History)
    requires wait <= ULLONG_MAX && a.now <= t && a.delta > 0 && rest == Left(tend, a.now)
    requires b == NextTimer(a, tend, t) && b.delta > 0 && before in Histories(wait, a.delta, rest)
    ensures h in Histories(wait, b.delta, Left(tend, b.now))
    ensures h.doublings + h.halvings == before.doublings + before.halvings + 1
  {
    h := Slept(before, wait, a.delta, rest, tend - t, b.delta);
    assert Left(tend, b.now) == tend - t - b.delta;
  }

  /** The sleeps behind `n` attempts that went on. */
  lemma {:induction false} HistoryOf(w: World, wait: nat, n: nat) returns (h: History)
    requires wait > 0 && w.start + wait <= ULLONG_MAX && n in Rounds(w, wait)
    ensures h in Histories(wait, TimerAfter(w, wait, n).delta, TimeLeft(w, wait, n))
    ensures h.doublings + h.halvings == n && TimerAfter(w, wait, n).delta > 0
    decreases n
  {
    if n == 0 {
      h := History(0, 0);
      IsHistory(h, wait, 1, wait);
    } else {
      LastRound(w, wait, n);
      var before := HistoryOf(w, wait, n - 1);
      var a, b := TimerAfter(w, wait, n - 1), TimerAfter(w, wait, n);
      h := OneSleep(wait, w.start + wait, a, b, a.now + w.late(n), TimeLeft(w, wait, n - 1), before);
    }
  }

  /** So there are not many of them. */
  lemma RoundsBound(w: World, wait: nat, n: nat)
    requires wait > 0 && w.start + wait <= ULLONG_MAX && n in Rounds(w, wait)
    ensures n <= 2 * Log2(wait) + 1
  {
    var h := HistoryOf(w, wait, n);
    HistoryBound(h, wait, TimerAfter(w, wait, n).delta, TimeLeft(w, wait, n));
  }

  /**
   The retry loop of rmmod_do_remove_module, under a clock that has reached each deadline when it is read again:
   it stops at the first attempt that is not worth another one, after a number of attempts that is logarithmic
   in the time to wait
   */
  method RemoveModule(w: World, wait: nat, firstTime: bool) returns (err: int, attempts: nat)
    requires w.start + wait <= ULLONG_MAX
    ensures attempts > 0 && !GoesOn(w, wait, attempts) && forall k :: 1 <= k < attempts ==> GoesOn(w, wait, k)
    ensures err == Reported(w.remove(attempts - 1), firstTime)
    ensures if wait > 0 then attempts <= 2 * Log2(wait) + 2 else attempts == 1
    ensures forall k :: 0 <= k < attempts - 1 ==> w.remove(k) == -EAGAIN
    ensures var last := w.remove(attempts - 1); err == if last == -EEXIST && !firstTime then 0 else last
    ensures w.remove(attempts - 1) == -EAGAIN && wait > 0 && w.start > 0 && w.sleep(attempts) >= 0 ==>
              TimerAfter(w, wait, attempts - 1).now + w.late(attempts) >= w.start + wait
  {
    var tend: nat, interval: nat, now: nat := 0, 0, w.start;
    ghost var bound := if wait > 0 then 2 * Log2(wait) + 1 else 0;
    err, attempts := 0, 0;
    var go := true;
    while go
      invariant attempts <= bound + 1 && (go ==> attempts <= bound)
      invariant go ==> Clock(tend, interval, now) in Clocks(w, wait, attempts) && attempts in Rounds(w, wait)
      invariant !go ==> End(attempts, err) in Ends(w, wait, firstTime)
      decreases go, bound - attempts
    {
      go, err, tend, interval, now := Attempt(w, wait, firstTime, attempts, tend, interval, now);
      attempts := attempts + 1;
      if go {
        RoundsBound(w, wait, attempts);
      }
    }
    EndFacts(w, wait, firstTime, attempts, err);
    EndAnswers(w, wait, attempts);
  }

  /** The answers behind that: the module was busy each time, and in the end it is not, or the time is up. */
  lemma EndAnswers(w: World, wait: nat, attempts: nat)
    requires attempts > 0 && !GoesOn(w, wait, attempts) && forall k :: 1 <= k < attempts ==> GoesOn(w, wait, k)
    ensures forall k :: 0 <= k < attempts - 1 ==> w.remove(k) == -EAGAIN
    ensures w.remove(attempts - 1) == -EAGAIN && wait > 0 && w.start > 0 && w.sleep(attempts) >= 0 ==>
              TimerAfter(w, wait, attempts - 1).now + w.late(attempts) >= w.start + wait
  {
    forall k | 0 <= k < attempts - 1 ensures w.remove(k) == -EAGAIN {
      assert GoesOn(w, wait, k + 1);
    }
    var before := TimerAfter(w, wait, attempts - 1);
    assert TimerAfter(w, wait, attempts) == NextTimer(before, w.start + wait, before.now + w.late(attempts));
    assert Doubled(before.delta) > 0;
  }

  /** How a run ends: after which attempt, and with what result. */
  datatype End = End(attempts: nat, err: int)

  /** ... when all attempts before the last go on and the last does not. */
  ghost predicate IsEnd(w: World, wait: nat, firstTime: bool, end: End) {
    && end.attempts > 0 && end.attempts - 1 in Rounds(w, wait) && !GoesOn(w, wait, end.attempts)
    && end.err == Reported(w.remove(end.attempts - 1), firstTime)
  }

  ghost function Ends(w: World, wait: nat, firstTime: bool): iset<End> {
    iset end: End | IsEnd(w, wait, firstTime, end)
  }

  lemma EndFacts(w: World, wait: nat, firstTime: bool, attempts: nat, err: int)
    requires End(attempts, err) in Ends(w, wait, firstTime)
    ensures attempts > 0 && !GoesOn(w, wait, attempts) && forall k :: 1 <= k < attempts ==> GoesOn(w, wait, k)
    ensures err == Reported(w.remove(attempts - 1), firstTime)
  {
    RoundsNext(w, wait, attempts);
  }

  /** A module that is gone already is an error only with --first-time. */
  function Reported(err: int, firstTime: bool): int {
    if err == -EEXIST && !firstTime then 0 else err
  }

  /** One attempt and the sleep behind it. */
  method Attempt(w: World, wait: nat, firstTime: bool, n: nat, tend: nat, interval: nat, now: nat)
    returns (go: bool, err: int, tend': nat, interval': nat, now': nat)
    requires w.start + wait <= ULLONG_MAX && Clock(tend, interval, now) in Clocks(w, wait, n) && n in Rounds(w, wait)
    ensures go ==> wait > 0 && n + 1 in Rounds(w, wait) && Clock(tend', interval', now') in Clocks(w, wait, n + 1)
    ensures !go ==> End(n + 1, err) in Ends(w, wait, firstTime)
  {
    go, tend', interval', now' := false, tend, interval, now;
    err := w.remove(n);
    RoundsNext(w, wait, n + 1);
    if err == -EEXIST {
      err := if !firstTime then 0 else err;
    } else if err == -EAGAIN && wait > 0 {
      go, tend', interval', now' := Sleep(w, wait, n + 1, tend, interval, now);
    }
  }

  /** The numbers of attempts that all go on. */
  ghost function Rounds(w: World, wait: nat): iset<nat> {
    iset n: nat | AllGoOn(w, wait, n)
  }

  ghost predicate AllGoOn(w: World, wait: nat, n: nat) {
    forall k :: 1 <= k <= n ==> GoesOn(w, wait, k)
  }

  lemma LastRound(w: World, wait: nat, n: nat)
    requires n > 0 && n in Rounds(w, wait)
    ensures n - 1 in Rounds(w, wait) && TimerAfter(w, wait, n).delta > 0
  {
    assert GoesOn(w, wait, n);
  }

  lemma RoundsNext(w: World, wait: nat, n: nat)
    requires n > 0 && n - 1 in Rounds(w, wait)
    ensures GoesOn(w, wait, n) <==> n in Rounds(w, wait)
    ensures GoesOn(w, wait, n) ==> w.remove(n - 1) == -EAGAIN && wait > 0
    ensures forall k :: 1 <= k < n ==> GoesOn(w, wait, k)
  {
  }

  /** The loop's variables. */
  datatype Clock = Clock(tend: nat, interval: nat, now: nat)

  /** ... after `n` attempts. */
  ghost predicate Timed(w: World, wait: nat, n: nat, c: Clock) {
    && c.now == TimerAfter(w, wait, n).now
    && (n == 0 ==> c.tend == 0)
    && (n > 0 ==> c.tend == w.start + wait && c.interval == TimerAfter(w, wait, n).delta)
  }

  ghost function Clocks(w: World, wait: nat, n: nat): iset<Clock> {
    iset c: Clock | Timed(w, wait, n, c)
  }

  /** The sleep behind attempt `n`, and whether there is to be another one. */
  method Sleep(w: World, wait: nat, n: nat, tend: nat, interval: nat, now: nat)
    returns (go: bool, tend': nat, interval': nat, now': nat)
    requires w.start + wait <= ULLONG_MAX && wait > 0 && n > 0 && w.remove(n - 1) == -EAGAIN
    requires Clock(tend, interval, now) in Clocks(w, wait, n - 1)
    ensures go == GoesOn(w, wait, n) && (go ==> Clock(tend', interval', now') in Clocks(w, wait, n))
  {
    tend', interval' := tend, interval;
    if tend' == 0 {
      tend' := w.start + wait;
      interval' := 1;
    }
    interval', now' := GetBackoffDelta(tend', interval', now + w.late(n));
    go := tend' != wait && w.sleep(n) >= 0 && interval' > 0;
  }
}
