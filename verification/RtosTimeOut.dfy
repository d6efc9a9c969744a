/** Block time accounting of FreeRTOS: what is left of a wait, from a tick counter that wraps around. */
module RtosTimeOut {
  import opened RtosList

  /** What the tick counter and the overflow counter show at an absolute time. */
  function Count(now: nat): Tick {
    now % WRAP
  }

  function Overflows(now: nat): Tick {
    now / WRAP % WRAP
  }

  /** The decision of xTaskCheckForTimeOut for a limited wait, on the counters it compares. */
  predicate Expired(entering: Tick, overflowCount: Tick, tick: Tick, overflows: Tick, wait: Tick) {
    if overflows != overflowCount && tick >= entering then true
    else !(Elapsed(entering, tick) < wait)
  }

  /** The difference of two tick counts as 32-bit arithmetic gives it. */
  function Elapsed(entering: Tick, tick: Tick): Tick {
    if tick >= entering then tick - entering else tick - entering + 0x1_0000_0000
  }

  /** The decision is right exactly unless the time has come round again unnoticed: a whole round of the tick
      counter and a bit less than the wait has passed, and the counters do not show it. */
  lemma ExpiredIsRight(entered: nat, now: nat, wait: Tick)
    requires entered <= now
    ensures (Expired(Count(entered), Overflows(entered), Count(now), Overflows(now), wait) <==> now - entered >= wait)
       <==> !(now - entered >= WRAP && (now - entered) % WRAP < wait
              && (Count(now) < Count(entered) || Overflows(now) == Overflows(entered)))
    ensures now / WRAP <= entered / WRAP + 1 ==>
              (Expired(Count(entered), Overflows(entered), Count(now), Overflows(now), wait) <==> now - entered >= wait)
    ensures now - entered < WRAP ==> Elapsed(Count(entered), Count(now)) == now - entered
  {
    ElapsedIsRest(entered, now);
    if now / WRAP == entered / WRAP {
      assert now - entered < WRAP;
    } else if now / WRAP == entered / WRAP + 1 {
      NextOverflow(entered / WRAP);
    }
  }

  lemma NextOverflow(e: nat)
    ensures (e + 1) % WRAP != e % WRAP
  {
  }

  lemma ElapsedIsRest(entered: nat, now: nat)
    requires entered <= now
    ensures Elapsed(Count(entered), Count(now)) == (now - entered) % WRAP
    ensures now - entered < WRAP ==> (now - entered) % WRAP == now - entered
    ensures now - entered < WRAP && now / WRAP != entered / WRAP ==> now / WRAP == entered / WRAP + 1 && Count(now) < Count(entered)
  {
    var a, b := entered / WRAP, now / WRAP;
    assert entered == a * WRAP + Count(entered) && now == b * WRAP + Count(now);
    if Count(now) >= Count(entered) {
      RestIs(now - entered, b - a, Count(now) - Count(entered));
    } else {
      RestIs(now - entered, b - a - 1, Count(now) - Count(entered) + WRAP);
    }
  }

  lemma RestIs(x: nat, q: int, r: nat)
    requires x == q * WRAP + r && r < WRAP
    ensures x % WRAP == r && x / WRAP == q
  {
  }

  /** After two rounds a wait that is long over can look as if it had just begun. */
  lemma TwoRoundsGoUnnoticed()
    ensures exists entered: nat, now: nat, wait: Tick :: now / WRAP == entered / WRAP + 2 && now - entered >= wait
              && !Expired(Count(entered), Overflows(entered), Count(now), Overflows(now), wait)
  {
    var entered: nat, now: nat, wait: Tick := 10, 2 * WRAP + 5, 0xFFFF_FFFE;
    assert Count(entered) == 10 && Count(now) == 5;
    assert now / WRAP == entered / WRAP + 2;
    assert !Expired(Count(entered), Overflows(entered), Count(now), Overflows(now), wait);
  }

  class TimeOut {
    const canSuspend: bool   // INCLUDE_vTaskSuspend: the largest wait is an unlimited one

    var overflowCount: Tick
    var timeOnEntering: Tick

    ghost var enteredAt: nat

    ghost predicate Valid()
      reads this
    {
      timeOnEntering == Count(enteredAt) && overflowCount == Overflows(enteredAt)
    }

    /** vTaskSetTimeOutState, with the kernel's counters. */
    constructor (canSuspend: bool, tick: Tick, numOverflows: Tick, ghost now: nat)
      requires tick == Count(now) && numOverflows == Overflows(now)
      ensures Valid() && enteredAt == now && this.canSuspend == canSuspend
    {
      this.canSuspend := canSuspend;
      overflowCount, timeOnEntering, enteredAt := numOverflows, tick, now;
    }

    method SetState(tick: Tick, numOverflows: Tick, ghost now: nat)
      requires tick == Count(now) && numOverflows == Overflows(now)
      modifies this
      ensures Valid() && enteredAt == now
    {
      overflowCount, timeOnEntering, enteredAt := numOverflows, tick, now;
    }

    /** The wait has no end. */
    predicate Unlimited(wait: Tick) {
      canSuspend && wait == MAX_DELAY
    }

    /** xTaskCheckForTimeOut: reports a timeout exactly when the wait is over, and otherwise takes what has
        elapsed off it. An unlimited wait never ends. */
    method Check(tick: Tick, numOverflows: Tick, wait: Tick, ghost now: nat) returns (timedOut: bool, left: Tick)
      requires Valid() && tick == Count(now) && numOverflows == Overflows(now) && enteredAt <= now
      modifies this
      ensures Valid()
      ensures Unlimited(wait) ==> !timedOut && left == wait && enteredAt == old(enteredAt)
      ensures !Unlimited(wait) ==>
                (timedOut <==> Expired(Count(old(enteredAt)), Overflows(old(enteredAt)), Count(now), Overflows(now), wait))
      ensures !Unlimited(wait) && now / WRAP <= old(enteredAt) / WRAP + 1 ==> (timedOut <==> now - old(enteredAt) >= wait)
      ensures !Unlimited(wait) && now / WRAP <= old(enteredAt) / WRAP + 1 && !timedOut ==>
                left == wait - (now - old(enteredAt)) && left > 0 && enteredAt == now
      ensures timedOut ==> left == wait && enteredAt == old(enteredAt)
    {
      hide Count, Overflows, Elapsed;
      left := wait;
      if canSuspend && wait == MAX_DELAY {
        timedOut := false;
      } else {
        ExpiredIsRight(enteredAt, now, wait);
        if numOverflows != overflowCount && tick >= timeOnEntering {
          timedOut := true;
        } else if Elapsed(timeOnEntering, tick) < wait {
          left := wait - Elapsed(timeOnEntering, tick);
          SetState(tick, numOverflows, now);
          timedOut := false;
        } else {
          timedOut := true;
        }
      }
    }
  }

  // ---------- any number of calls ----------

  /** The calls of a waiting task at the given times: how many of them report no timeout, and what is left of
      the wait after those. */
  function Calls(entered: nat, wait: Tick, times: seq<nat>): (r: (nat, Tick))
    ensures r.0 <= |times|
    decreases |times|
  {
    if times == [] || Expired(Count(entered), Overflows(entered), Count(times[0]), Overflows(times[0]), wait) then (0, wait)
    else
      var rest := Calls(times[0], wait - Elapsed(Count(entered), Count(times[0])), times[1..]);
      (rest.0 + 1, rest.1)
  }

  /** Times that go forward, by less than two wraps of the counter at a time. */
  ghost predicate Close(entered: nat, times: seq<nat>) {
    && (times != [] ==> entered <= times[0] && times[0] / WRAP <= entered / WRAP + 1)
    && forall i {:trigger times[i]} :: 0 < i < |times| ==> times[i - 1] <= times[i] && times[i] / WRAP <= times[i - 1] / WRAP + 1
  }

  /** Over any number of calls, what is left and what has elapsed since the start add up to the wait, what is
      left stays positive, and the first timeout is reported by the first call at or after the end. */
  lemma {:induction false} CallsAddUp(start: nat, wait: Tick, times: seq<nat>)
    requires Close(start, times) && 0 < wait
    ensures var r := Calls(start, wait, times);
            && 0 < r.1 && r.1 + ((if r.0 == 0 then start else times[r.0 - 1]) - start) == wait
            && (forall i :: 0 <= i < r.0 ==> times[i] - start < wait)
            && (r.0 < |times| ==> times[r.0] - start >= wait)
    decreases |times|
  {
    hide Count, Overflows, Expired, Elapsed;
    if times != [] {
      ExpiredIsRight(start, times[0], wait);
      var now := times[0];
      if !Expired(Count(start), Overflows(start), Count(now), Overflows(now), wait) {
        StillClose(start, times);
        CallsAddUp(now, wait - Elapsed(Count(start), Count(now)), times[1..]);
        var n := Calls(now, wait - Elapsed(Count(start), Count(now)), times[1..]).0;
        assert n > 0 ==> times[1..][n - 1] == times[n];
        forall i | 0 <= i < n + 1
          ensures times[i] - start < wait
        {
          assert i > 0 ==> times[1..][i - 1] == times[i];
        }
        assert n < |times[1..]| ==> times[1..][n] == times[n + 1];
      }
    }
  }

  lemma StillClose(entered: nat, times: seq<nat>)
    requires Close(entered, times) && times != []
    ensures Close(times[0], times[1..])
  {
    assert forall i :: 0 <= i < |times| - 1 ==> times[1..][i] == times[i + 1];
  }
}
