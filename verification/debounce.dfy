/**
  The restart-debounce batcher of `src/directive/virtual-scroll.ts` (the
  `debounce` closure, its `destroy` and `createItemVisibleSubscription`).

  The Subject/switchMap/takeUntil/timer plumbing is modelled by the one thing it
  achieves: at most one timer, described by `Phase`. Time is an integer clock
  (milliseconds) advanced one unit at a time by `Tick`; a timer started at time
  `t` with delay `d` fires on the first tick that reaches `t + d`.
*/
module Debounce {
  import opened Wrappers
  import opened Sequences

  /**
    The timer: none running, one running until `deadline`, or none ever again
    because `destroy` completed the restart subject.
  */
  datatype Phase = Idle | Pending(deadline: int) | Disposed

  /** The closure state: the fixed delay, the clock, the timer and the accumulated `entriesArr`. */
  datatype Debouncer<E> = Debouncer(delay: nat, now: int, phase: Phase, batch: seq<E>)

  /** A fresh batcher, as `debounce(fn, delay)` returns it. */
  function Create<E>(delay: nat, now: int): (d: Debouncer<E>)
    ensures d.phase == Idle && d.batch == [] && d.delay == delay && d.now == now
  {
    Debouncer(delay, now, Idle, [])
  }

  /**
    One call of the debounced function: the entries are appended to the batch,
    the running timer (if any) is stopped and a new one of the full delay is
    started. After `destroy` the append still happens, but the completed restart
    subject starts no timer.
  */
  function Invoke<E>(d: Debouncer<E>, entries: seq<E>): (d': Debouncer<E>)
    ensures d'.batch == d.batch + entries
    ensures d'.delay == d.delay && d'.now == d.now
    ensures !d.phase.Disposed? ==> d'.phase == Pending(d.now + d.delay)
    ensures d.phase.Disposed? ==> d'.phase == Disposed
  {
    var entriesArr := d.batch + entries;
    match d.phase
    case Disposed => d.(batch := entriesArr)
    case _ => d.(batch := entriesArr, phase := Pending(d.now + d.delay))
  }

  /**
    There is never more than one timer: two calls at the same instant leave the
    same state as one call with both batches, since the second restart replaces
    the first timer instead of adding one.
  */
  lemma InvokeCoalesces<E>(d: Debouncer<E>, a: seq<E>, b: seq<E>)
    ensures Invoke(Invoke(d, a), b) == Invoke(d, a + b)
  {
  }

  /** `destroy`: stop the timer and complete the subjects; the batch is kept but will never be delivered. */
  function Destroy<E>(d: Debouncer<E>): (d': Debouncer<E>)
    ensures d'.phase == Disposed
    ensures d'.batch == d.batch && d'.delay == d.delay && d'.now == d.now
    ensures d.phase.Disposed? ==> d' == d
  {
    d.(phase := Disposed)
  }

  /** What one tick of the clock did: the new state and the batch handed to the handler, if the timer fired. */
  datatype Step<E> = Step(next: Debouncer<E>, fired: Option<seq<E>>)

  /** Whether the timer fires on the next tick. */
  predicate Due<E>(d: Debouncer<E>) {
    d.phase.Pending? && d.phase.deadline <= d.now + 1
  }

  /**
    One unit of time passes. A timer whose deadline is reached fires: the
    handler receives the whole batch and, once it returns, the batch is reset
    to empty (`AbortedTick` is the firing whose handler throws).
  */
  function Tick<E>(d: Debouncer<E>): (s: Step<E>)
    ensures s.next.now == d.now + 1 && s.next.delay == d.delay
    ensures s.fired.Some? <==> Due(d)
    ensures s.fired.Some? ==> s.fired.value == d.batch && s.next.batch == [] && s.next.phase == Idle
    ensures s.fired.None? ==> s.next.batch == d.batch && s.next.phase == d.phase
  {
    var d1 := d.(now := d.now + 1);
    if d.phase.Pending? && d.phase.deadline <= d1.now then Step(d1.(phase := Idle, batch := []), Some(d.batch))
    else Step(d1, None)
  }

  /**
    The tick on which the timer fires but the handler throws: the handler has
    received the batch, but the throw skips the reset of `entriesArr`, so the
    whole batch stays pending while no timer is left running.
  */
  function AbortedTick<E>(d: Debouncer<E>): (s: Step<E>)
    requires Due(d)
    ensures s.fired == Tick(d).fired
    ensures s.next == Tick(d).next.(batch := d.batch)
  {
    Step(d.(now := d.now + 1, phase := Idle), Some(d.batch))
  }

  /** Something that happens to the batcher. */
  datatype Input<E> = Call(entries: seq<E>) | Advance | Stop

  /** The batches handed to the handler by one step. */
  function Flushed<E>(fired: Option<seq<E>>): seq<seq<E>> {
    match fired
    case Some(b) => [b]
    case None => []
  }

  function StepOn<E>(d: Debouncer<E>, i: Input<E>): Step<E> {
    match i
    case Call(entries) => Step(Invoke(d, entries), None)
    case Advance => Tick(d)
    case Stop => Step(Destroy(d), None)
  }

  /** The final state and the batches handed to the handler, in order. */
  datatype Trace<E> = Trace(last: Debouncer<E>, flushes: seq<seq<E>>)

  /** Runs the inputs one after the other from `d`. */
  function Run<E>(d: Debouncer<E>, inputs: seq<Input<E>>): Trace<E>
    decreases |inputs|
  {
    if inputs == [] then Trace(d, [])
    else
      var s := StepOn(d, inputs[0]);
      var rest := Run(s.next, inputs[1..]);
      Trace(rest.last, Flushed(s.fired) + rest.flushes)
  }

  /** All entries passed to the debounced function by `inputs`, in call order. */
  function Invoked<E>(inputs: seq<Input<E>>): seq<E>
    decreases |inputs|
  {
    if inputs == [] then []
    else OwnEntries(inputs[0]) + Invoked(inputs[1..])
  }

  /** All entries of `batches`, in order. */
  function Flatten<E>(batches: seq<seq<E>>): seq<E>
    decreases |batches|
  {
    if batches == [] then [] else batches[0] + Flatten(batches[1..])
  }

  lemma {:induction false} FlattenAppend<E>(a: seq<seq<E>>, b: seq<seq<E>>)
    ensures Flatten(a + b) == Flatten(a) + Flatten(b)
    decreases |a|
  {
    if a == [] {
      assert a + b == b;
    } else {
      assert (a + b)[1..] == a[1..] + b;
      FlattenAppend(a[1..], b);
    }
  }

  /** `n` ticks of the clock with nothing else happening. */
  function Ticks<E>(n: nat): (ins: seq<Input<E>>)
    ensures |ins| == n && forall i :: 0 <= i < n ==> ins[i] == Advance
  {
    if n == 0 then [] else [Advance] + Ticks(n - 1)
  }

  /** Running two input sequences one after the other is running their concatenation. */
  lemma {:induction false} RunAppend<E>(d: Debouncer<E>, a: seq<Input<E>>, b: seq<Input<E>>)
    ensures Run(d, a + b) == Trace(Run(Run(d, a).last, b).last, Run(d, a).flushes + Run(Run(d, a).last, b).flushes)
    decreases |a|
  {
    if a == [] {
      assert a + b == b;
    } else {
      assert (a + b)[0] == a[0];
      assert (a + b)[1..] == a[1..] + b;
      RunAppend(StepOn(d, a[0]).next, a[1..], b);
    }
  }

  /** The entries one input passes to the debounced function. */
  function OwnEntries<E>(i: Input<E>): seq<E> {
    if i.Call? then i.entries else []
  }

  /** One step conserves entries: what it flushes, then what it keeps, is the old batch plus its own entries. */
  lemma StepConserves<E>(d: Debouncer<E>, i: Input<E>)
    ensures Flatten(Flushed(StepOn(d, i).fired)) + StepOn(d, i).next.batch == d.batch + OwnEntries(i)
  {
  }

  /**
    With a handler that always returns, nothing is lost, duplicated or
    reordered: the batches the handler receives, followed by what is still
    pending, are the entries pending at the start followed by every entry
    passed in since, in call order.
  */
  lemma {:induction false} RunConservesEntries<E>(d: Debouncer<E>, inputs: seq<Input<E>>)
    ensures Flatten(Run(d, inputs).flushes) + Run(d, inputs).last.batch == d.batch + Invoked(inputs)
    decreases |inputs|
  {
    if inputs == [] {
      assert d.batch + Invoked(inputs) == d.batch;
    } else {
      var s := StepOn(d, inputs[0]);
      var rest := Run(s.next, inputs[1..]);
      RunConservesEntries(s.next, inputs[1..]);
      StepConserves(d, inputs[0]);
      FlattenAppend(Flushed(s.fired), rest.flushes);
      var own, later := OwnEntries(inputs[0]), Invoked(inputs[1..]);
      assert Run(d, inputs) == Trace(rest.last, Flushed(s.fired) + rest.flushes);
      assert Invoked(inputs) == own + later;
      Regroup(Flatten(Flushed(s.fired)), Flatten(rest.flushes), rest.last.batch, s.next.batch, later, d.batch, own);
    }
  }

  /** After `destroy` the handler never fires again, whatever happens next. */
  lemma {:induction false} DisposedNeverFires<E>(d: Debouncer<E>, inputs: seq<Input<E>>)
    requires d.phase.Disposed?
    ensures Run(d, inputs).flushes == []
    ensures Run(d, inputs).last.phase.Disposed?
    decreases |inputs|
  {
    if inputs != [] {
      DisposedNeverFires(StepOn(d, inputs[0]).next, inputs[1..]);
    }
  }

  /** While the clock has not reached the deadline, ticks change nothing but the clock. */
  lemma {:induction false} QuietBeforeDeadline<E>(d: Debouncer<E>, n: nat)
    requires d.phase.Pending? && d.now + n < d.phase.deadline
    ensures Run(d, Ticks(n)) == Trace(d.(now := d.now + n), [])
    decreases n
  {
    if n > 0 {
      QuietBeforeDeadline(Tick(d).next, n - 1);
    }
  }

  /**
    A pending timer left alone fires exactly once, on the tick that reaches its
    deadline, with the whole batch; the batcher is then idle and empty.
  */
  lemma FiresAtDeadline<E>(d: Debouncer<E>)
    requires d.phase.Pending? && d.now < d.phase.deadline
    ensures Run(d, Ticks(d.phase.deadline - d.now)) ==
            Trace(Debouncer(d.delay, d.phase.deadline, Idle, []), [d.batch])
  {
    var n := d.phase.deadline - d.now;
    assert Ticks<E>(n) == Ticks<E>(n - 1) + [Advance];
    RunAppend(d, Ticks(n - 1), [Advance]);
    QuietBeforeDeadline(d, n - 1);
  }

  /**
    Restart semantics: a call on a live batcher followed by `delay` quiet ticks
    produces exactly one flush, carrying everything pending plus the new
    entries, `delay` after the call.
  */
  lemma SettlesAfterDelay<E>(d: Debouncer<E>, entries: seq<E>)
    requires !d.phase.Disposed? && d.delay > 0
    ensures Run(d, [Call(entries)] + Ticks(d.delay)) ==
            Trace(Debouncer(d.delay, d.now + d.delay, Idle, []), [d.batch + entries])
  {
    var d1 := Invoke(d, entries);
    assert d1 == Debouncer(d.delay, d.now, Pending(d.now + d.delay), d.batch + entries);
    assert d1.phase.deadline - d1.now == d.delay;
    RunAfterCall(d, entries, Ticks(d.delay));
    FiresAtDeadline(d1);
  }

  /** A run that starts with a call is the run of the rest from the state the call leaves. */
  lemma RunAfterCall<E>(d: Debouncer<E>, entries: seq<E>, rest: seq<Input<E>>)
    ensures Run(d, [Call(entries)] + rest) == Run(Invoke(d, entries), rest)
  {
  }

  /**
    A batch whose handler threw is handed over again: after the aborted flush,
    the next call and `delay` quiet ticks give one flush carrying the whole
    kept batch, already delivered once, ahead of the new entries.
  */
  lemma AbortedFlushRedelivers<E>(d: Debouncer<E>, entries: seq<E>)
    requires Due(d) && d.delay > 0
    ensures AbortedTick(d).fired == Some(d.batch)
    ensures Run(AbortedTick(d).next, [Call(entries)] + Ticks(d.delay)).flushes == [d.batch + entries]
  {
    SettlesAfterDelay(AbortedTick(d).next, entries);
  }

  /**
    A handler that throws at every firing never lets the batch go: after an
    aborted firing, the next call restarts the timer and `delay - 1` quiet
    ticks bring it due again, with nothing flushed in between and the kept
    batch followed by the new entries pending.
  */
  lemma ThrowingAgain<E>(d: Debouncer<E>, entries: seq<E>)
    requires Due(d) && d.delay > 0
    ensures var t := Run(Invoke(AbortedTick(d).next, entries), Ticks(d.delay - 1));
            && t.flushes == []
            && Due(t.last) && t.last.delay == d.delay
            && t.last.batch == d.batch + entries
  {
    var d1 := Invoke(AbortedTick(d).next, entries);
    assert d1 == Debouncer(d.delay, d.now + 1, Pending(d.now + 1 + d.delay), d.batch + entries);
    QuietBeforeDeadline(d1, d.delay - 1);
  }

  /**
    The state reached by repeating `ThrowingAgain` once per call in `calls`:
    every firing on the way was aborted, the timer is due again and the batch
    is the original one followed by every call's entries, so it only grows.
  */
  function ThrowingCycles<E>(d: Debouncer<E>, calls: seq<seq<E>>): (d': Debouncer<E>)
    requires Due(d) && d.delay > 0
    ensures Due(d') && d'.delay == d.delay
    ensures d'.batch == d.batch + Flatten(calls)
    decreases |calls|
  {
    if calls == [] then d
    else
      ThrowingAgain(d, calls[0]);
      var next := Run(Invoke(AbortedTick(d).next, calls[0]), Ticks(d.delay - 1)).last;
      var d' := ThrowingCycles(next, calls[1..]);
      assert d'.batch == (d.batch + calls[0]) + Flatten(calls[1..]);
      d'
  }

  /** A call followed by fewer quiet ticks than the delay: the batch grows and nothing fires. */
  lemma CallThenQuiet<E>(d: Debouncer<E>, entries: seq<E>, n: nat)
    requires !d.phase.Disposed? && n < d.delay
    ensures Run(d, [Call(entries)] + Ticks(n)) == Trace(Invoke(d, entries).(now := d.now + n), [])
  {
    RunAfterCall(d, entries, Ticks(n));
    QuietBeforeDeadline(Invoke(d, entries), n);
  }

  /**
    Calls at times 0, D/2 and D with delay D produce exactly one flush, at time
    2D (the last call plus the delay), holding the three batches in call order;
    nothing is flushed a tick earlier.
  */
  lemma ThreeCallsOneFlush<E>(delay: nat, a: seq<E>, b: seq<E>, c: seq<E>)
    requires delay >= 2
    ensures var first := [Call(a)] + Ticks(delay / 2);
            var second := [Call(b)] + Ticks(delay - delay / 2);
            && Run(Create(delay, 0), first + second + ([Call(c)] + Ticks(delay - 1))).flushes == []
            && Run(Create(delay, 0), first + second + ([Call(c)] + Ticks(delay))) ==
               Trace(Debouncer(delay, 2 * delay, Idle, []), [a + b + c])
  {
    var half := delay / 2;
    var first: seq<Input<E>> := [Call(a)] + Ticks(half);
    var second: seq<Input<E>> := [Call(b)] + Ticks(delay - half);
    var d0: Debouncer<E> := Create(delay, 0);
    CallThenQuiet(d0, a, half);
    var d1 := Debouncer(delay, half, Pending(delay), a);
    assert Run(d0, first) == Trace(d1, []);
    CallThenQuiet(d1, b, delay - half);
    var d2 := Debouncer(delay, delay, Pending(half + delay), a + b);
    assert Run(d1, second) == Trace(d2, []);
    RunAppend(d0, first, second);
    CallThenQuiet(d2, c, delay - 1);
    SettlesAfterDelay(d2, c);
    RunAppend(d0, first + second, [Call(c)] + Ticks(delay - 1));
    RunAppend(d0, first + second, [Call(c)] + Ticks(delay));
  }
}
