// time_usec_sequential (bochs/pc_system.cc): a microsecond clock that never repeats a reading.
module SequentialTime {
  import opened Machine

  // The readings taken while the underlying clock shows `clocks`, when the last one was `prev`.
  function Readings(prev: nat, clocks: seq<nat>): (r: seq<nat>)
    ensures |r| == |clocks|
    decreases |clocks|
  {
    if clocks == [] then []
    else
      var t := Max(prev, clocks[0]) + 1;
      [t] + Readings(t, clocks[1..])
  }

  // Each reading is later than the one before and than the clock.
  lemma {:induction false} ReadingsAreSequential(prev: nat, clocks: seq<nat>)
    ensures var r := Readings(prev, clocks);
            && (forall k :: 0 <= k < |r| ==> r[k] > clocks[k] && r[k] > prev + k)
            && (forall j, k :: 0 <= j < k < |r| ==> r[j] + (k - j) <= r[k])
    decreases |clocks|
  {
    if clocks != [] {
      var t := Max(prev, clocks[0]) + 1;
      var r, rest := Readings(prev, clocks), Readings(t, clocks[1..]);
      ReadingsAreSequential(t, clocks[1..]);
      forall j, k | 0 <= j < k < |r| ensures r[j] + (k - j) <= r[k] {
        assert r[k] == rest[k - 1] && rest[k - 1] > t + (k - 1);
        if j > 0 {
          assert r[j] == rest[j - 1];
        }
      }
    }
  }

  ghost predicate StrictlyLater(r: seq<nat>, clocks: seq<nat>) {
    && |r| == |clocks| && (forall k :: 0 <= k < |r| ==> r[k] > clocks[k])
    && forall j, k :: 0 <= j < k < |r| ==> r[j] < r[k]
  }

  lemma ReadingsAreLater(prev: nat, clocks: seq<nat>)
    ensures StrictlyLater(Readings(prev, clocks), clocks)
  {
    ReadingsAreSequential(prev, clocks);
  }

  // And as early as that allows: the k-th one is some clock value since, or the reading before the
  // first, plus the number of readings taken from then on.
  lemma {:induction false} ReadingsAreEarliest(prev: nat, clocks: seq<nat>, k: nat)
    requires k < |clocks|
    ensures var r := Readings(prev, clocks);
            r[k] == prev + k + 1 || exists j :: 0 <= j <= k && r[k] == clocks[j] + (k - j) + 1
    decreases k
  {
    var t := Max(prev, clocks[0]) + 1;
    var r, rest := Readings(prev, clocks), Readings(t, clocks[1..]);
    if k > 0 {
      ReadingsAreEarliest(t, clocks[1..], k - 1);
      if j :| 0 <= j <= k - 1 && rest[k - 1] == clocks[1..][j] + (k - 1 - j) + 1 {
        assert r[k] == clocks[j + 1] + (k - (j + 1)) + 1;
        return;
      }
    }
    if t == clocks[0] + 1 {
      assert r[k] == clocks[0] + (k - 0) + 1;
    }
  }

  class Clock {
    var lastTimeUsec: nat
    var usecSinceLast: nat

    // The most recent reading, before it is narrowed to 64 bits.
    function Last(): nat
      reads this
    {
      lastTimeUsec + usecSinceLast
    }

    ghost predicate Valid()
      reads this
    {
      lastTimeUsec < TWO64 && usecSinceLast < TWO64
    }

    constructor ()
      ensures Valid() && Last() == 0 && lastTimeUsec == 0
    {
      lastTimeUsec, usecSinceLast := 0, 0;
    }

    // A reading while the underlying clock shows `now`. If that clock has been set back, the reading
    // goes back with it, unless so many readings were ahead of the clock that the difference, which is
    // taken modulo 2^64, looks smaller than their number.
    method TimeUsecSequential(now: nat) returns (t: nat)
      requires Valid() && now < TWO64
      modifies this
      ensures Valid() && lastTimeUsec == now && t == U64(Last())
      ensures now >= old(lastTimeUsec) ==> t == U64(Max(old(Last()), now) + 1)
      ensures now < old(lastTimeUsec) ==>
                t == U64(if old(Last()) <= now + TWO64 then now + 1 else old(Last()) + 1)
      ensures now >= old(lastTimeUsec) && Max(old(Last()), now) + 1 < TWO64 ==> Last() == t
    {
      hide U64;
      LessAWrap(Last() + 1);
      if now != lastTimeUsec {
        var diff := U64(now - lastTimeUsec);
        Difference(now, lastTimeUsec);
        lastTimeUsec := now;
        if diff >= usecSinceLast {
          usecSinceLast := 0;
        } else {
          usecSinceLast := usecSinceLast - diff;
        }
      }
      OneMore(now, usecSinceLast);
      usecSinceLast := U64(usecSinceLast + 1);
      t := U64(now + usecSinceLast);
    }
  }

  lemma Difference(now: nat, last: nat)
    requires now < TWO64 && last < TWO64
    ensures U64(now - last) == if now >= last then now - last else now - last + TWO64
  {
  }

  lemma LessAWrap(x: nat)
    ensures U64(x - TWO64) == U64(x)
  {
  }

  lemma OneMore(now: nat, u: nat)
    ensures U64(u + 1) < TWO64 && U64(now + U64(u + 1)) == U64(now + u + 1)
    ensures now + u + 1 < TWO64 ==> U64(u + 1) == u + 1 && U64(now + u + 1) == now + u + 1
  {
  }

  // Over a whole run with a clock that never goes back the object takes exactly those readings.
  method TakeReadings(c: Clock, clocks: seq<nat>) returns (readings: seq<nat>)
    requires forall k :: 0 <= k < |clocks| ==> c.lastTimeUsec <= clocks[k] && clocks[k] + |clocks| < TWO64
    requires forall j, k :: 0 <= j < k < |clocks| ==> clocks[j] <= clocks[k]
    requires c.Valid() && c.Last() + |clocks| < TWO64
    modifies c
    ensures readings == Readings(old(c.Last()), clocks)
    ensures StrictlyLater(readings, clocks)
  {
    hide Readings, StrictlyLater;
    readings := [];
    var i := 0;
    ghost var start := c.Last();
    assert clocks[0..] == clocks;
    while i < |clocks|
      invariant 0 <= i <= |clocks| && c.Valid()
      invariant readings + Readings(c.Last(), clocks[i..]) == Readings(start, clocks)
      invariant i < |clocks| ==> c.lastTimeUsec <= clocks[i]
      invariant c.Last() + (|clocks| - i) < TWO64
      decreases |clocks| - i
    {
      NextReading(c.Last(), clocks, i);
      var t := c.TimeUsecSequential(clocks[i]);
      readings := readings + [t];
      i := i + 1;
    }
    NextReading(c.Last(), clocks, i);
    ReadingsAreLater(start, clocks);
  }

  lemma NextReading(prev: nat, clocks: seq<nat>, i: nat)
    requires i <= |clocks|
    ensures i == |clocks| ==> Readings(prev, clocks[i..]) == []
    ensures i < |clocks| ==> var t := Max(prev, clocks[i]) + 1;
                             Readings(prev, clocks[i..]) == [t] + Readings(t, clocks[i + 1..])
  {
  }
}
