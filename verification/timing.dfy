/**
  `throttle` and `debounce` of the site's utility script as event machines.
  The wrapped function is not run; the machines report the argument lists
  it is invoked with.  An event is either a call of the wrapper or the
  expiry of the timer the wrapper armed; real time is not modelled, only
  the order of these events.
 */
module Timing {
  import opened Common

  datatype Event<A> = Call(args: A) | TimerFire

  /** The invocation of one step as a list of zero or one argument lists. */
  function AsSeq<A>(o: Option<A>): seq<A>
  {
    match o case Some(a) => [a] case None => []
  }

  /** How many timer expiries a sequence of events holds. */
  function Fires<A>(evs: seq<Event<A>>): nat
  {
    if |evs| == 0 then 0 else (if evs[0].TimerFire? then 1 else 0) + Fires(evs[1..])
  }

  // ---------------------------------------------------------------- throttle

  /** `inThrottle`; the limit timer is pending exactly while it is set. */
  datatype Throttle = Throttle(inThrottle: bool)

  datatype ThrottleStep<A> = ThrottleStep(next: Throttle, invoked: Option<A>)

  /** One event of the function `throttle(func, limit)` returns. */
  function ThrottleOn<A>(t: Throttle, e: Event<A>): (r: ThrottleStep<A>)
    ensures e.Call? && !t.inThrottle ==> r == ThrottleStep(Throttle(true), Some(e.args))
    ensures e.Call? && t.inThrottle ==> r == ThrottleStep(t, None)
    ensures e.TimerFire? ==> r.invoked.None? && !r.next.inThrottle
  {
    match e
    case Call(a) => if t.inThrottle then ThrottleStep(t, None) else ThrottleStep(Throttle(true), Some(a))
    case TimerFire => ThrottleStep(Throttle(false), None)
  }

  /** The invocations a sequence of events causes, in order. */
  function ThrottleRun<A>(t: Throttle, evs: seq<Event<A>>): seq<A>
    decreases |evs|
  {
    if |evs| == 0 then []
    else
      var s := ThrottleOn(t, evs[0]);
      AsSeq(s.invoked) + ThrottleRun(s.next, evs[1..])
  }

  /** Between two expiries of the limit timer at most one call gets
      through: calls made while throttled are dropped, not deferred. */
  lemma {:induction false} ThrottleBound<A>(t: Throttle, evs: seq<Event<A>>)
    ensures |ThrottleRun(t, evs)| <= Fires(evs) + (if t.inThrottle then 0 else 1)
    decreases |evs|
  {
    if |evs| > 0 {
      ThrottleBound(ThrottleOn(t, evs[0]).next, evs[1..]);
    }
  }

  /** A burst of calls with no expiry in between runs the function once,
      with the first call's arguments. */
  lemma {:induction false} ThrottleBurst<A>(calls: seq<A>)
    requires |calls| > 0
    ensures ThrottleRun(Throttle(false), CallsOf(calls)) == [calls[0]]
  {
    ThrottledDropsAll(calls[1..]);
    assert CallsOf(calls)[1..] == CallsOf(calls[1..]);
  }

  lemma {:induction false} ThrottledDropsAll<A>(calls: seq<A>)
    ensures ThrottleRun(Throttle(true), CallsOf(calls)) == []
    decreases |calls|
  {
    if |calls| > 0 {
      assert CallsOf(calls)[1..] == CallsOf(calls[1..]);
      ThrottledDropsAll(calls[1..]);
    }
  }

  /** The calls of a burst, as events. */
  function CallsOf<A>(calls: seq<A>): (evs: seq<Event<A>>)
    ensures |evs| == |calls|
    ensures forall i :: 0 <= i < |calls| ==> evs[i] == Call(calls[i])
  {
    if |calls| == 0 then [] else [Call(calls[0])] + CallsOf(calls[1..])
  }

  // ---------------------------------------------------------------- debounce

  /** `timeout`: the arguments captured by the pending `later`, if a timer
      is pending. */
  datatype Debounce<A> = Debounce(pending: Option<A>)

  datatype DebounceStep<A> = DebounceStep(next: Debounce<A>, invoked: Option<A>)

  /** One event of the function `debounce(func, wait, immediate)` returns.
      A call cancels the pending timer and arms a new one that captures its
      own arguments; `immediate` runs the function at once when no timer
      was pending.  The expiry clears `timeout` and, unless `immediate`,
      runs the function with the captured arguments. */
  function DebounceOn<A>(immediate: bool, d: Debounce<A>, e: Event<A>): (r: DebounceStep<A>)
    ensures e.Call? ==> r.next == Debounce(Some(e.args))
    ensures e.Call? ==> (r.invoked.Some? <==> immediate && d.pending.None?)
    ensures e.TimerFire? ==> r.next.pending.None? && (r.invoked.Some? <==> !immediate && d.pending.Some?)
    ensures r.invoked.Some? ==> r.invoked.value == (if e.Call? then e.args else d.pending.value)
  {
    match e
    case Call(a) =>
      var callNow := immediate && d.pending.None?;
      DebounceStep(Debounce(Some(a)), if callNow then Some(a) else None)
    case TimerFire =>
      if d.pending.None? then DebounceStep(d, None)
      else DebounceStep(Debounce(None), if immediate then None else d.pending)
  }

  function DebounceRun<A>(immediate: bool, d: Debounce<A>, evs: seq<Event<A>>): seq<A>
    decreases |evs|
  {
    if |evs| == 0 then []
    else
      var s := DebounceOn(immediate, d, evs[0]);
      AsSeq(s.invoked) + DebounceRun(immediate, s.next, evs[1..])
  }

  /** Without `immediate`, a burst of calls followed by the expiry runs the
      function exactly once, with the last call's arguments. */
  lemma DebounceTrailingBurst<A>(calls: seq<A>)
    requires |calls| > 0
    ensures DebounceRun(false, Debounce(None), CallsOf(calls) + [TimerFire]) == [calls[|calls| - 1]]
  {
    CallsInvokeNothing(false, Debounce(None), calls);
    CallsLeaveLastPending(false, Debounce(None), calls);
    RunAppend(false, Debounce(None), CallsOf(calls), [TimerFire]);
  }

  /** With `immediate`, a burst of calls from idle followed by the expiry
      runs the function exactly once, with the first call's arguments. */
  lemma DebounceLeadingBurst<A>(calls: seq<A>)
    requires |calls| > 0
    ensures DebounceRun(true, Debounce(None), CallsOf(calls) + [TimerFire]) == [calls[0]]
  {
    var first := DebounceOn(true, Debounce(None), Call(calls[0]));
    CallsInvokeNothing(true, first.next, calls[1..]);
    if |calls| > 1 {
      CallsLeaveLastPending(true, first.next, calls[1..]);
    }
    assert CallsOf(calls) == [Call(calls[0])] + CallsOf(calls[1..]);
    assert (CallsOf(calls) + [TimerFire])[1..] == CallsOf(calls[1..]) + [TimerFire];
    RunAppend(true, first.next, CallsOf(calls[1..]), [TimerFire]);
  }

  /** A burst of calls invokes nothing unless `immediate` and idle at its
      start. */
  lemma {:induction false} CallsInvokeNothing<A>(immediate: bool, d: Debounce<A>, calls: seq<A>)
    requires immediate ==> d.pending.Some?
    ensures DebounceRun(immediate, d, CallsOf(calls)) == []
    decreases |calls|
  {
    if |calls| > 0 {
      var n := DebounceOn(immediate, d, Call(calls[0])).next;
      assert CallsOf(calls)[1..] == CallsOf(calls[1..]);
      CallsInvokeNothing(immediate, n, calls[1..]);
    }
  }

  /** A non-empty burst of calls leaves the last call's arguments pending. */
  lemma {:induction false} CallsLeaveLastPending<A>(immediate: bool, d: Debounce<A>, calls: seq<A>)
    requires |calls| > 0
    ensures DebounceAfter(immediate, d, CallsOf(calls)) == Debounce(Some(calls[|calls| - 1]))
    decreases |calls|
  {
    var n := DebounceOn(immediate, d, Call(calls[0])).next;
    assert CallsOf(calls)[1..] == CallsOf(calls[1..]);
    if |calls| > 1 {
      CallsLeaveLastPending(immediate, n, calls[1..]);
      assert calls[1..][|calls[1..]| - 1] == calls[|calls| - 1];
    }
  }

  /** The state after a sequence of events. */
  function DebounceAfter<A>(immediate: bool, d: Debounce<A>, evs: seq<Event<A>>): Debounce<A>
    decreases |evs|
  {
    if |evs| == 0 then d else DebounceAfter(immediate, DebounceOn(immediate, d, evs[0]).next, evs[1..])
  }

  lemma {:induction false} RunAppend<A>(immediate: bool, d: Debounce<A>, xs: seq<Event<A>>, ys: seq<Event<A>>)
    ensures DebounceRun(immediate, d, xs + ys) ==
            DebounceRun(immediate, d, xs) + DebounceRun(immediate, DebounceAfter(immediate, d, xs), ys)
    decreases |xs|
  {
    if |xs| == 0 {
      assert xs + ys == ys;
    } else {
      assert (xs + ys)[1..] == xs[1..] + ys;
      RunAppend(immediate, DebounceOn(immediate, d, xs[0]).next, xs[1..], ys);
    }
  }

  /** Without `immediate` only an expiry runs the function; with it, only a
      call made while no timer is pending, which again needs an expiry
      after the first: either way there is at most one run per expiry, plus
      one for `immediate`. */
  lemma {:induction false} DebounceBound<A>(immediate: bool, d: Debounce<A>, evs: seq<Event<A>>)
    ensures |DebounceRun(immediate, d, evs)| <= Fires(evs) + (if immediate && d.pending.None? then 1 else 0)
    decreases |evs|
  {
    if |evs| > 0 {
      DebounceBound(immediate, DebounceOn(immediate, d, evs[0]).next, evs[1..]);
    }
  }
}
