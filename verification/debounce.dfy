/**
  `debounce(func, wait)`: the returned function keeps one pending timer;
  each call cancels it and schedules `func` with this call's arguments
  `wait` milliseconds later.

  Time is a whole number of milliseconds. A trace of calls in arrival order is
  replayed against the single timer slot (`Replay`), and the outcome is proved
  equal to a definition that never mentions the timer (`LastOfBurst`): a call
  runs `func` exactly when no later call arrives before its delay elapses.
  The model assumes that calls made in the same millisecond run in one task,
  before any timer can fire; so a call arriving at the very millisecond the
  timer is due still cancels it. Timers fire exactly when due.
 */
module Debounce {

  datatype Call<A> = Call(time: int, args: A)

  /** One run of the wrapped function: when, and with which arguments. */
  datatype Invocation<A> = Invocation(time: int, args: A)

  /** The closure's `timeout` slot. */
  datatype Timer<A> = Idle | Pending(due: int, args: A)

  const TwoTo31: int := 0x8000_0000
  const TwoTo32: int := 0x1_0000_0000

  /** The WebIDL `long` conversion of the delay argument: wrap-around to a
      signed 32-bit value. */
  function ToInt32(x: int): (r: int)
    ensures -TwoTo31 <= r < TwoTo31
    ensures (r - x) % TwoTo32 == 0
  {
    var m := x % TwoTo32;
    if m >= TwoTo31 then m - TwoTo32 else m
  }

  /** The delay `setTimeout` actually waits: the argument converted to a
      32-bit `long`, then clamped at zero when negative. */
  function Delay(wait: int): (d: nat)
    ensures d < TwoTo31
    ensures 0 <= wait < TwoTo31 ==> d == wait
    ensures -TwoTo31 <= wait < 0 ==> d == 0
    ensures d == 0 || (d - wait) % TwoTo32 == 0
    ensures wait % TwoTo32 < TwoTo31 ==> d == wait % TwoTo32
    ensures wait % TwoTo32 >= TwoTo31 ==> d == 0
  {
    var w := ToInt32(wait);
    if w < 0 then 0 else w
  }

  /** A delay in [-2^31, 0) or in [2^31, 2^32) gives an immediate timer.
      Outside [-2^31, 2^32) the wrap can give a positive delay again:
      2^32 + 100 ms and -2^32 + 100 ms both wait 100 ms. */
  lemma DelayExamples()
    ensures Delay(-5) == 0
    ensures Delay(100) == 100
    ensures Delay(TwoTo31) == 0
    ensures Delay(TwoTo32 - 1) == 0
    ensures Delay(TwoTo32 + 100) == 100
    ensures Delay(-TwoTo32 + 100) == 100
    ensures Delay(3 * TwoTo31 - 1) == TwoTo31 - 1
  {
  }

  /** Calls arrive in time order. */
  predicate Chronological<A>(calls: seq<Call<A>>) {
    forall i, j :: 0 <= i < j < |calls| ==> calls[i].time <= calls[j].time
  }

  /** Every later call arrives after call `i`'s timer is due: `i` ends its burst. */
  predicate LastOfBurst<A>(calls: seq<Call<A>>, wait: int, i: nat)
    requires i < |calls|
  {
    forall j :: i < j < |calls| ==> calls[j].time > calls[i].time + Delay(wait)
  }

  /** The run that call `i` schedules. */
  function Scheduled<A>(calls: seq<Call<A>>, wait: int, i: nat): Invocation<A>
    requires i < |calls|
  {
    Invocation(calls[i].time + Delay(wait), calls[i].args)
  }

  /** A pending timer eventually fires once no call cancels it. */
  function Flush<A>(timer: Timer<A>): seq<Invocation<A>> {
    match timer
    case Idle => []
    case Pending(due, args) => [Invocation(due, args)]
  }

  /** Calls `i..` replayed against the timer slot: a timer due before the
      next call arrives has fired; the call then clears the slot and
      schedules its own run. */
  function Replay<A>(calls: seq<Call<A>>, wait: int, i: nat, timer: Timer<A>): seq<Invocation<A>>
    requires i <= |calls|
    decreases |calls| - i
  {
    if i == |calls| then Flush(timer)
    else
      var fired := if timer.Pending? && timer.due < calls[i].time then Flush(timer) else [];
      fired + Replay(calls, wait, i + 1, Pending(calls[i].time + Delay(wait), calls[i].args))
  }

  /** Every run of `func` caused by a trace of calls to the debounced function. */
  function Debounced<A>(calls: seq<Call<A>>, wait: int): seq<Invocation<A>> {
    Replay(calls, wait, 0, Idle)
  }

  /** The reference: from call `i` on, the scheduled runs of the calls that end
      their bursts, in call order. */
  function BurstEnds<A>(calls: seq<Call<A>>, wait: int, i: nat): seq<Invocation<A>>
    requires i <= |calls|
    decreases |calls| - i
  {
    if i == |calls| then []
    else
      (if LastOfBurst(calls, wait, i) then [Scheduled(calls, wait, i)] else [])
      + BurstEnds(calls, wait, i + 1)
  }

  /** In a time-ordered trace, a call ends its burst exactly when the next
      call (if any) arrives after its timer is due. */
  lemma LastOfBurstByNext<A>(calls: seq<Call<A>>, wait: int, i: nat)
    requires Chronological(calls) && i < |calls|
    ensures LastOfBurst(calls, wait, i) <==>
      (i + 1 == |calls| || calls[i + 1].time > calls[i].time + Delay(wait))
  {
  }

  lemma {:induction false} ReplayPending<A>(calls: seq<Call<A>>, wait: int, i: nat)
    requires Chronological(calls) && 0 < i <= |calls|
    ensures Replay(calls, wait, i, Pending(calls[i - 1].time + Delay(wait), calls[i - 1].args))
         == (if LastOfBurst(calls, wait, i - 1) then [Scheduled(calls, wait, i - 1)] else [])
            + BurstEnds(calls, wait, i)
    decreases |calls| - i
  {
    var d := Delay(wait);
    var timer := Pending(calls[i - 1].time + d, calls[i - 1].args);
    LastOfBurstByNext(calls, wait, i - 1);
    if i < |calls| {
      var fired := if calls[i - 1].time + d < calls[i].time then Flush(timer) else [];
      assert Replay(calls, wait, i, timer)
          == fired + Replay(calls, wait, i + 1, Pending(calls[i].time + d, calls[i].args));
      ReplayPending(calls, wait, i + 1);
    }
  }

  /** The debounced function runs `func` for exactly the calls that end their
      bursts, each at its own time plus the delay, with its own arguments. */
  lemma DebouncedRunsBurstEnds<A>(calls: seq<Call<A>>, wait: int)
    requires Chronological(calls)
    ensures Debounced(calls, wait) == BurstEnds(calls, wait, 0)
  {
    if |calls| > 0 {
      ReplayPending(calls, wait, 1);
    }
  }

  /** Every call that ends its burst produces its run, and every run comes
      from a call that ends its burst. */
  lemma {:induction false} BurstEndsMembers<A>(calls: seq<Call<A>>, wait: int, i: nat)
    requires i <= |calls|
    ensures forall j :: i <= j < |calls| && LastOfBurst(calls, wait, j) ==>
      Scheduled(calls, wait, j) in BurstEnds(calls, wait, i)
    ensures forall v :: v in BurstEnds(calls, wait, i) ==>
      exists j :: i <= j < |calls| && LastOfBurst(calls, wait, j) && v == Scheduled(calls, wait, j)
    decreases |calls| - i
  {
    if i < |calls| {
      BurstEndsMembers(calls, wait, i + 1);
    }
  }

  /** From call `i` on, runs happen no earlier than call `i`'s own due time
      and are more than the delay apart. */
  lemma {:induction false} BurstEndsSpaced<A>(calls: seq<Call<A>>, wait: int, i: nat)
    requires Chronological(calls) && i <= |calls|
    ensures var out := BurstEnds(calls, wait, i);
      && (i < |calls| ==> forall k :: 0 <= k < |out| ==> out[k].time >= calls[i].time + Delay(wait))
      && forall k, l :: 0 <= k < l < |out| ==> out[l].time > out[k].time + Delay(wait)
    decreases |calls| - i
  {
    if i < |calls| {
      BurstEndsSpaced(calls, wait, i + 1);
      var rest := BurstEnds(calls, wait, i + 1);
      assert var out := BurstEnds(calls, wait, i + 1);
        (i + 1 < |calls| ==> forall k :: 0 <= k < |out| ==> out[k].time >= calls[i + 1].time + Delay(wait));
      if LastOfBurst(calls, wait, i) && i + 1 < |calls| {
        assert calls[i + 1].time > calls[i].time + Delay(wait);
      }
      var head: seq<Invocation<A>> := if LastOfBurst(calls, wait, i) then [Scheduled(calls, wait, i)] else [];
      var out := head + rest;
      assert BurstEnds(calls, wait, i) == out;
      if i + 1 < |calls| {
        assert calls[i].time <= calls[i + 1].time;
      }
      forall k | 0 <= k < |out|
        ensures out[k].time >= calls[i].time + Delay(wait)
      {
        if k >= |head| {
          assert i + 1 < |calls|;
          assert out[k] == rest[k - |head|];
          assert rest[k - |head|].time >= calls[i + 1].time + Delay(wait);
        }
      }
      forall k, l | 0 <= k < l < |out|
        ensures out[l].time > out[k].time + Delay(wait)
      {
        if k >= |head| {
          assert out[k] == rest[k - |head|] && out[l] == rest[l - |head|];
        } else {
          assert i + 1 < |calls|;
          assert out[k] == Scheduled(calls, wait, i);
          assert out[l] == rest[l - 1];
          assert rest[l - 1].time >= calls[i + 1].time + Delay(wait);
        }
      }
    }
  }

  /** The runs of the debounced function are more than the delay apart, and the
      last call of a non-empty trace always runs. */
  lemma DebouncedProperties<A>(calls: seq<Call<A>>, wait: int)
    requires Chronological(calls)
    ensures var out := Debounced(calls, wait);
      && (forall k, l :: 0 <= k < l < |out| ==> out[l].time > out[k].time + Delay(wait))
      && (|calls| > 0 ==> |out| > 0 && out[|out| - 1] == Scheduled(calls, wait, |calls| - 1))
  {
    DebouncedRunsBurstEnds(calls, wait);
    BurstEndsSpaced(calls, wait, 0);
    if |calls| > 0 {
      LastCallRuns(calls, wait, 0);
    }
  }

  /** A burst: calls `lo..hi` each follow the previous one no later than its
      timer is due, and the call after `hi`, if any, comes after `hi`'s timer
      is due. The whole burst yields exactly one run, that of its last call. */
  lemma {:induction false} BurstYieldsOneRun<A>(calls: seq<Call<A>>, wait: int, lo: nat, hi: nat)
    requires Chronological(calls) && lo <= hi < |calls|
    requires forall m :: lo <= m < hi ==> calls[m + 1].time <= calls[m].time + Delay(wait)
    requires hi + 1 == |calls| || calls[hi + 1].time > calls[hi].time + Delay(wait)
    ensures BurstEnds(calls, wait, lo) == [Scheduled(calls, wait, hi)] + BurstEnds(calls, wait, hi + 1)
    decreases hi - lo
  {
    LastOfBurstByNext(calls, wait, lo);
    if lo == hi {
      assert LastOfBurst(calls, wait, lo);
    } else {
      assert calls[lo + 1].time <= calls[lo].time + Delay(wait);
      assert BurstEnds(calls, wait, lo) == BurstEnds(calls, wait, lo + 1);
      BurstYieldsOneRun(calls, wait, lo + 1, hi);
    }
  }

  lemma {:induction false} LastCallRuns<A>(calls: seq<Call<A>>, wait: int, i: nat)
    requires i < |calls|
    ensures var out := BurstEnds(calls, wait, i);
      |out| > 0 && out[|out| - 1] == Scheduled(calls, wait, |calls| - 1)
    decreases |calls| - i
  {
    if i + 1 < |calls| {
      LastCallRuns(calls, wait, i + 1);
    }
  }

  /** Two calls in the same task with a zero delay run `func` once, with the
      second call's arguments. */
  lemma ZeroDelayCoalesces()
    ensures Debounced([Call(0, 1), Call(0, 2)], 0) == [Invocation(0, 2)]
  {
  }
}
