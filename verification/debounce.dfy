/** `debounce(callback, wait)` as a state machine over a virtual clock: the wrapper holds
    at most one pending invocation, each call replaces it, and it runs once its deadline
    has passed. */
module Debounce {
  import opened Wrappers

  /** The invocation a `setTimeout` currently holds: its arguments and when it is due. */
  datatype Pending<A> = Pending(args: A, deadline: int)

  /** One debounced wrapper: the fixed `wait` and the single pending slot (`timeoutId`). */
  datatype Debouncer<A> = Debouncer(wait: nat, pending: Option<Pending<A>>)

  /** A fresh wrapper with nothing pending. */
  function Create<A>(wait: nat): (d: Debouncer<A>)
    ensures d.wait == wait && d.pending.None?
  {
    Debouncer(wait, None)
  }

  /** Calling the wrapper at time `now`: `clearTimeout` drops whatever was pending and a
      new invocation with these arguments is due `wait` later. */
  function Call<A>(d: Debouncer<A>, now: int, args: A): (d': Debouncer<A>)
    ensures d'.wait == d.wait
    ensures d'.pending == Some(Pending(args, now + d.wait))
  {
    d.(pending := Some(Pending(args, now + d.wait)))
  }

  /** The pending invocation is due at time `now`. */
  predicate Due<A>(d: Debouncer<A>, now: int) {
    d.pending.Some? && d.pending.value.deadline <= now
  }

  /** Letting the clock reach `now`: a due invocation runs (its arguments are returned)
      and the slot empties; otherwise nothing happens. */
  function Fire<A>(d: Debouncer<A>, now: int): (r: (Debouncer<A>, Option<A>))
    ensures r.0.wait == d.wait
    ensures Due(d, now) ==> r.0.pending.None? && r.1 == Some(d.pending.value.args)
    ensures !Due(d, now) ==> r == (d, None)
  {
    if Due(d, now) then (d.(pending := None), Some(d.pending.value.args)) else (d, None)
  }

  /** What can happen to a wrapper: a call at a time, or the clock reaching a time. */
  datatype Event<A> = CallAt(time: int, args: A) | TickAt(time: int)

  /** One event: the clock first reaches the event's time (a due invocation runs), then a
      call, if it is one, is made. */
  function Step<A>(d: Debouncer<A>, e: Event<A>): (Debouncer<A>, Option<A>) {
    var (d1, ran) := Fire(d, e.time);
    match e
    case CallAt(t, args) => (Call(d1, t, args), ran)
    case TickAt(_) => (d1, ran)
  }

  /** The wrapper after a sequence of events, with the arguments of every callback run:
      each event runs the callback at most once. */
  function Run<A>(d: Debouncer<A>, events: seq<Event<A>>): (r: (Debouncer<A>, seq<A>))
    ensures r.0.wait == d.wait
    ensures |r.1| <= |events|
    decreases |events|
  {
    if |events| == 0 then (d, [])
    else
      var (d1, ran) := Step(d, events[0]);
      var (d2, rest) := Run(d1, events[1..]);
      (d2, (if ran.Some? then [ran.value] else []) + rest)
  }

  /** A burst: calls only, in time order, each made before the previous one's
      invocation fell due. */
  predicate Burst<A>(wait: nat, calls: seq<Event<A>>) {
    && (forall i :: 0 <= i < |calls| ==> calls[i].CallAt?)
    && (forall i :: 0 <= i < |calls| - 1 ==>
          calls[i].time <= calls[i + 1].time < calls[i].time + wait)
  }

  /** A burst of calls followed by the clock passing the last call's deadline runs the
      callback exactly once, with the arguments of the last call, and leaves nothing
      pending; this holds whatever was pending before, provided it was not yet due when
      the burst began. */
  lemma {:induction false} BurstRunsOnce<A>(d: Debouncer<A>, calls: seq<Event<A>>, t: int)
    requires |calls| > 0 && Burst(d.wait, calls)
    requires !Due(d, calls[0].time)
    requires t >= calls[|calls| - 1].time + d.wait
    ensures Run(d, calls + [TickAt(t)]).1 == [calls[|calls| - 1].args]
    ensures Run(d, calls + [TickAt(t)]).0.pending.None?
    decreases |calls|
  {
    var events := calls + [TickAt(t)];
    var d1 := Call(d, calls[0].time, calls[0].args);
    assert Step(d, events[0]) == (d1, None);
    assert events[1..] == calls[1..] + [TickAt(t)];
    if |calls| > 1 {
      assert !Due(d1, calls[1].time);
      BurstRunsOnce(d1, calls[1..], t);
    } else {
      assert events[1..] == [TickAt(t)];
      var d2 := d1.(pending := None);
      assert Step(d1, TickAt(t)) == (d2, Some(calls[0].args));
      assert Run(d2, []) == (d2, []);
      var tick: seq<Event<A>> := [TickAt(t)];
      assert tick[1..] == [];
      assert Due(d1, t);
      assert tick[0] == TickAt(t);
      assert Step(d1, tick[0]) == (d2, Some(calls[0].args));
      assert Run(d1, tick) == (d2, [calls[0].args] + []);
    }
  }
}
