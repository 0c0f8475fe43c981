/** Lock-time arithmetic of an automatic approval: the `max(old, now) + hours` accumulator
    with Go's 64-bit duration conversion and the two clock reads of the original. */
module LockArithmetic {

  // All times and durations are nanoseconds, as in Go's time package.
  const SECOND: int := 1_000_000_000
  const HOUR: int := 3600 * SECOND
  const MAX_HOURS: int := 1440

  // 9999-12-31, the value that marks a permanent lock.
  const PERMANENT: int := 253_402_214_400 * SECOND

  // Go's zero time (year 1), the lock of a job that was never locked.
  const ZERO_TIME: int := -62_135_596_800 * SECOND

  const TWO63: int := 0x8000_0000_0000_0000
  const TWO64: int := 0x1_0000_0000_0000_0000

  type Uint64 = x: int | 0 <= x < TWO64

  function Max(a: int, b: int): int {
    if a < b then b else a
  }

  /** Two's-complement reading of an integer in 64 bits. */
  function Wrap64(x: int): (r: int)
    ensures -TWO63 <= r < TWO63 && (x - r) % TWO64 == 0
  {
    var m := x % TWO64;
    if m < TWO63 then m else m - TWO64
  }

  /** Two numbers in the signed 64-bit range that agree modulo 2^64 are equal. */
  lemma WrapUnique(x: int, r: int)
    requires -TWO63 <= r < TWO63 && (x - r) % TWO64 == 0
    ensures Wrap64(x) == r
  {
    var w := Wrap64(x);
    assert (x - r) - (x - w) == w - r;
    assert (w - r) % TWO64 == 0;
  }

  /** `time.Duration(hours) * time.Hour`: convert to int64, then multiply in int64. */
  function Extension(hours: Uint64): int {
    Wrap64(Wrap64(hours) * HOUR)
  }

  /** The largest hour count whose duration fits in 64 bits is 2562047: the conversion is
      exact up to there and wrong for every larger value. */
  lemma ExtensionExactIff(hours: Uint64)
    ensures Extension(hours) == hours * HOUR <==> hours <= 2_562_047
  {
    if hours <= 2_562_047 {
      WrapUnique(hours, hours);
      WrapUnique(hours * HOUR, hours * HOUR);
    }
  }

  /** One call of the lock code. `first` is the clock read that starts `lockTime`, `second`
      the later read that the old lock is compared with. */
  datatype LockCall = LockCall(first: int, second: int, hours: Uint64)

  predicate GoodCall(c: LockCall) {
    c.first <= c.second && c.hours <= MAX_HOURS
  }

  predicate GoodCalls(calls: seq<LockCall>) {
    forall i :: 0 <= i < |calls| ==> GoodCall(calls[i])
  }

  function NewLock(lock: int, c: LockCall): int {
    (if lock > c.second then lock else c.first) + Extension(c.hours)
  }

  /** The lock after a sequence of calls. */
  function LockAfter(lock: int, calls: seq<LockCall>): int {
    if calls == [] then lock
    else NewLock(LockAfter(lock, calls[..|calls| - 1]), calls[|calls| - 1])
  }

  /** Total extension granted by the calls from index `i` on. */
  function HoursFrom(calls: seq<LockCall>, i: nat): int {
    if |calls| <= i then 0
    else HoursFrom(calls[..|calls| - 1], i) + calls[|calls| - 1].hours * HOUR
  }

  /** Total time between the paired clock reads. */
  function Gaps(calls: seq<LockCall>): int {
    if calls == [] then 0
    else Gaps(calls[..|calls| - 1]) + (calls[|calls| - 1].second - calls[|calls| - 1].first)
  }

  /** The same calls with both reads giving the first value. */
  function Shared(calls: seq<LockCall>): (r: seq<LockCall>)
    ensures |r| == |calls|
  {
    seq(|calls|, i requires 0 <= i < |calls| => calls[i].(second := calls[i].first))
  }

  predicate OneRead(calls: seq<LockCall>) {
    forall i :: 0 <= i < |calls| ==> calls[i].first == calls[i].second
  }

  lemma {:induction false} HoursFromNonNegative(calls: seq<LockCall>, i: nat)
    ensures HoursFrom(calls, i) >= 0
  {
    if i < |calls| {
      HoursFromNonNegative(calls[..|calls| - 1], i);
    }
  }

  /** What one lock call can do to the lock: bounded above by the max-plus step, and it moves
      the lock backwards exactly when the lock expires between the two reads by more than the
      extension. */
  lemma NewLockBounds(lock: int, c: LockCall)
    requires GoodCall(c)
    ensures Extension(c.hours) == c.hours * HOUR
    ensures c.first + c.hours * HOUR <= NewLock(lock, c) <= Max(lock, c.first) + c.hours * HOUR
    ensures NewLock(lock, c) < lock <==> c.first + c.hours * HOUR < lock <= c.second
  {
    ExtensionExactIff(c.hours);
  }

  ghost predicate IsMaxPlus(lock: int, calls: seq<LockCall>, r: int) {
    && lock + HoursFrom(calls, 0) <= r
    && (forall i {:trigger calls[i]} :: 0 <= i < |calls| ==> calls[i].first + HoursFrom(calls, i) <= r)
    && (r == lock + HoursFrom(calls, 0)
        || exists i {:trigger calls[i]} :: 0 <= i < |calls| && r == calls[i].first + HoursFrom(calls, i))
  }

  /** Closed form with one clock read per call: the lock is the maximum of the initial lock
      plus every extension and, over each call, its clock read plus the extensions granted
      from it on. */
  lemma {:induction false} ClosedForm(lock: int, calls: seq<LockCall>)
    requires GoodCalls(calls) && OneRead(calls)
    ensures IsMaxPlus(lock, calls, LockAfter(lock, calls))
  {
    if calls != [] {
      var n := |calls| - 1;
      var init, c := calls[..n], calls[n];
      ClosedForm(lock, init);
      NewLockBounds(LockAfter(lock, init), c);
      assert HoursFrom(calls, 0) == HoursFrom(init, 0) + c.hours * HOUR;
      forall i | 0 <= i < |calls|
        ensures HoursFrom(calls, i) == HoursFrom(init, i) + c.hours * HOUR
      {
      }
      assert HoursFrom(init, n) == 0;
      var prev, r := LockAfter(lock, init), LockAfter(lock, calls);
      forall i {:trigger calls[i]} | 0 <= i < |calls|
        ensures calls[i].first + HoursFrom(calls, i) <= r
      {
        if i < n {
          assert init[i] == calls[i];
        }
      }
      if prev <= c.first {
        assert r == calls[n].first + HoursFrom(calls, n);
      } else if prev != lock + HoursFrom(init, 0) {
        var i :| 0 <= i < |init| && prev == init[i].first + HoursFrom(init, i);
        assert calls[i] == init[i];
        assert r == calls[i].first + HoursFrom(calls, i);
      }
    }
  }

  /** With one read per call and clock reads up to `t`, the lock never moves backwards and
      never exceeds the later of the initial lock and `t` by more than the total extension. */
  lemma {:induction false} LockEnvelope(lock: int, calls: seq<LockCall>, t: int)
    requires GoodCalls(calls) && OneRead(calls)
    requires forall i :: 0 <= i < |calls| ==> calls[i].first <= t
    ensures lock <= LockAfter(lock, calls) <= Max(lock, t) + HoursFrom(calls, 0)
  {
    if calls != [] {
      var init := calls[..|calls| - 1];
      LockEnvelope(lock, init, t);
      NewLockBounds(LockAfter(lock, init), calls[|calls| - 1]);
      HoursFromNonNegative(init, 0);
    }
  }

  /** With two reads per call the lock is never above the one-read closed form, and below it
      by at most the total time between paired reads. */
  lemma {:induction false} TwoReads(lock: int, calls: seq<LockCall>)
    requires GoodCalls(calls)
    ensures GoodCalls(Shared(calls)) && OneRead(Shared(calls))
    ensures LockAfter(lock, Shared(calls)) - Gaps(calls) <= LockAfter(lock, calls)
                                                         <= LockAfter(lock, Shared(calls))
  {
    if calls != [] {
      var init, c := calls[..|calls| - 1], calls[|calls| - 1];
      TwoReads(lock, init);
      assert Shared(calls)[..|calls| - 1] == Shared(init);
      NewLockBounds(LockAfter(lock, init), c);
      NewLockBounds(LockAfter(lock, Shared(init)), c.(second := c.first));
    }
  }

  /** A lock that expires between the two reads moves back: the lock was 5 and the call, which
      asks for no hours, reads the clock at 0 and at 10. */
  lemma LockMovesBack()
    ensures GoodCall(LockCall(0, 10, 0)) && NewLock(5, LockCall(0, 10, 0)) < 5
  {
    NewLockBounds(5, LockCall(0, 10, 0));
  }
}
