/**
  The visibility tracker of `src/directive/virtual-scroll.ts`: raw intersection
  entries go through the debounce batcher, and each settled entry becomes one
  `CHANGE_ITEM` dispatch on the event bus.

  The IntersectionObserver and the DOM queries are outside the model: the entry
  batches the observer would deliver are inputs, and the observer itself is
  reduced to whether it is still connected.
*/
module VirtualScroll {
  import opened EventBus
  import opened Debounce
  import opened Sequences

  /** One IntersectionObserverEntry, reduced to its target's `id` and `isIntersecting`. */
  datatype Entry = Entry(targetId: string, isIntersecting: bool)

  /** The event type `eventType.CHANGE_ITEM` (its string value is defined outside this model). */
  const CHANGE_ITEM: string := "CHANGE_ITEM"

  /** The debounce window the directive's constructor passes to `debounce`, in milliseconds. */
  const DELAY: nat := 1000

  /** One `eventBusService.dispatch(type, ...args)` call. */
  datatype BusCall = BusCall(eventType: string, args: seq<Value>)

  /** The dispatch made for an item that entered the viewport: listeners receive the payload itself as `event.args`. */
  function OnItemVisible(id: string): (c: BusCall)
    ensures MakeEvent(c.eventType, c.args) == Event(CHANGE_ITEM, Payload(id, true))
  {
    BusCall(CHANGE_ITEM, [Payload(id, true)])
  }

  /** The dispatch made for an item that left the viewport: listeners receive the payload itself as `event.args`. */
  function OnItemHidden(id: string): (c: BusCall)
    ensures MakeEvent(c.eventType, c.args) == Event(CHANGE_ITEM, Payload(id, false))
  {
    BusCall(CHANGE_ITEM, [Payload(id, false)])
  }

  /** The dispatch for one entry: its flag is the entry's `isIntersecting`, whichever branch is taken. */
  function Classify(e: Entry): (c: BusCall)
    ensures c == BusCall(CHANGE_ITEM, [Payload(e.targetId, e.isIntersecting)])
  {
    if e.isIntersecting then OnItemVisible(e.targetId) else OnItemHidden(e.targetId)
  }

  /** `handleIntersection`: the dispatches for a settled batch, made entry by entry. */
  function HandleIntersection(entries: seq<Entry>): (calls: seq<BusCall>)
    ensures |calls| == |entries|
  {
    if entries == [] then [] else HandleIntersection(entries[..|entries| - 1]) + [Classify(entries[|entries| - 1])]
  }

  /**
    One `CHANGE_ITEM` dispatch per entry, in entry order, with no deduplication
    by id; its payload carries the entry's id and `isIntersecting` as `showFlag`.
  */
  lemma {:induction false} HandleIntersectionPerEntry(entries: seq<Entry>)
    ensures forall i :: 0 <= i < |entries| ==>
              HandleIntersection(entries)[i] == BusCall(CHANGE_ITEM, [Payload(entries[i].targetId, entries[i].isIntersecting)])
    decreases |entries|
  {
    if entries != [] {
      HandleIntersectionPerEntry(entries[..|entries| - 1]);
    }
  }

  /** Classification is per entry, so it does not matter how the entries were split into batches. */
  lemma {:induction false} HandleIntersectionAppend(a: seq<Entry>, b: seq<Entry>)
    ensures HandleIntersection(a + b) == HandleIntersection(a) + HandleIntersection(b)
    decreases |b|
  {
    if b == [] {
      assert a + b == a;
    } else {
      var b' := b[..|b| - 1];
      assert (a + b)[..|a + b| - 1] == a + b';
      assert (a + b)[|a + b| - 1] == b[|b| - 1];
      HandleIntersectionAppend(a, b');
    }
  }

  /** Three entries settled in one window give three dispatches in arrival order, the repeated id included. */
  lemma ClassificationExample()
    ensures HandleIntersection([Entry("a", true), Entry("b", false), Entry("a", false)]) ==
            [ BusCall(CHANGE_ITEM, [Payload("a", true)])
            , BusCall(CHANGE_ITEM, [Payload("b", false)])
            , BusCall(CHANGE_ITEM, [Payload("a", false)]) ]
  {
  }

  /** The IntersectionObserver: not created yet, observing the items, or disconnected. */
  datatype ObserverState = NoObserver | Observing | Disconnected

  /** The directive: its debouncer and its observer. */
  datatype Scroller = Scroller(debouncer: Debouncer<Entry>, observer: ObserverState)

  /** The constructor: a debouncer with the fixed window, no observer yet. */
  function Construct(now: int): (s: Scroller)
    ensures s.debouncer == Create(DELAY, now) && s.observer == NoObserver
  {
    Scroller(Create(DELAY, now), NoObserver)
  }

  /** `ngAfterViewInit`: the observer is created and starts observing the items. */
  function AfterViewInit(s: Scroller): (s': Scroller)
    ensures s'.debouncer == s.debouncer && s'.observer == Observing
  {
    s.(observer := Observing)
  }

  /** `ngOnDestroy`: first the debouncer is destroyed, then the observer (if any) is disconnected. */
  function OnDestroy(s: Scroller): (s': Scroller)
    ensures s'.debouncer == Destroy(s.debouncer)
    ensures s'.observer != Observing
  {
    var destroyed := s.(debouncer := Destroy(s.debouncer));
    if destroyed.observer.NoObserver? then destroyed else destroyed.(observer := Disconnected)
  }

  /** Something that happens to the directive. */
  datatype Happening = Intersections(entries: seq<Entry>) | ClockTick | Teardown

  /** What a happening did: the new state and the dispatches made. */
  datatype Outcome = Outcome(next: Scroller, calls: seq<BusCall>)

  /**
    One happening. Only a connected observer delivers entries, which go to the
    debounced function; a tick may fire the timer, whose batch is classified.
  */
  function React(s: Scroller, h: Happening): (o: Outcome)
    ensures o.calls != [] ==> h.ClockTick? && s.debouncer.phase.Pending?
    ensures h.Intersections? && s.observer.Observing? ==> o.next.debouncer == Invoke(s.debouncer, h.entries)
  {
    match h
    case Intersections(entries) =>
      if s.observer.Observing? then Outcome(s.(debouncer := Invoke(s.debouncer, entries)), [])
      else Outcome(s, [])
    case ClockTick =>
      var step := Tick(s.debouncer);
      var calls := match step.fired case Some(batch) => HandleIntersection(batch) case None => [];
      Outcome(s.(debouncer := step.next), calls)
    case Teardown => Outcome(OnDestroy(s), [])
  }

  /** Runs the happenings in order, collecting every dispatch. */
  function Lifetime(s: Scroller, hs: seq<Happening>): Outcome
    decreases |hs|
  {
    if hs == [] then Outcome(s, [])
    else
      var o := React(s, hs[0]);
      var rest := Lifetime(o.next, hs[1..]);
      Outcome(rest.next, o.calls + rest.calls)
  }

  /** The entries a connected observer hands over along `hs`, starting from `s`. */
  function Delivered(s: Scroller, hs: seq<Happening>): seq<Entry>
    decreases |hs|
  {
    if hs == [] then []
    else
      OwnDelivery(s, hs[0]) + Delivered(React(s, hs[0]).next, hs[1..])
  }

  /**
    Once `ngOnDestroy` has run, no entry is ever classified again: whatever
    happens afterwards, nothing is dispatched and the debouncer stays destroyed.
  */
  lemma {:induction false} NoClassificationAfterDestroy(s: Scroller, hs: seq<Happening>)
    requires s.debouncer.phase.Disposed? && !s.observer.Observing?
    ensures Lifetime(s, hs).calls == []
    ensures Lifetime(s, hs).next.debouncer.phase.Disposed?
    decreases |hs|
  {
    if hs != [] {
      NoClassificationAfterDestroy(React(s, hs[0]).next, hs[1..]);
    }
  }

  /** The teardown itself establishes what `NoClassificationAfterDestroy` needs. */
  lemma SilentAfterOnDestroy(s: Scroller, hs: seq<Happening>)
    ensures Lifetime(OnDestroy(s), hs).calls == []
  {
    NoClassificationAfterDestroy(OnDestroy(s), hs);
  }

  /** The entries a connected observer hands over in one happening. */
  function OwnDelivery(s: Scroller, h: Happening): seq<Entry> {
    if h.Intersections? && s.observer.Observing? then h.entries else []
  }

  /** One happening dispatches, then keeps pending, exactly the pending entries plus what it delivers. */
  lemma ReactConserves(s: Scroller, h: Happening)
    ensures React(s, h).calls + HandleIntersection(React(s, h).next.debouncer.batch) ==
            HandleIntersection(s.debouncer.batch + OwnDelivery(s, h))
  {
    var o := React(s, h);
    match h
    case Intersections(entries) =>
      if s.observer.Observing? {
        assert o.next.debouncer.batch == s.debouncer.batch + entries;
      } else {
        assert s.debouncer.batch + OwnDelivery(s, h) == s.debouncer.batch;
      }
    case ClockTick =>
      var step := Tick(s.debouncer);
      if step.fired.Some? {
        assert HandleIntersection(o.next.debouncer.batch) == [];
        assert o.calls == HandleIntersection(s.debouncer.batch);
      }
      assert s.debouncer.batch + OwnDelivery(s, h) == s.debouncer.batch;
    case Teardown =>
      assert s.debouncer.batch + OwnDelivery(s, h) == s.debouncer.batch;
  }

  /** Conservation of one step, composed with conservation of the steps after it. */
  lemma ConservesCompose(made: seq<BusCall>, calls: seq<BusCall>, pending: seq<Entry>, kept: seq<Entry>,
                         later: seq<Entry>, batch: seq<Entry>, own: seq<Entry>)
    requires made + HandleIntersection(kept) == HandleIntersection(batch + own)
    requires calls + HandleIntersection(pending) == HandleIntersection(kept + later)
    ensures (made + calls) + HandleIntersection(pending) == HandleIntersection(batch + (own + later))
  {
    var hb, ho, hl := HandleIntersection(batch), HandleIntersection(own), HandleIntersection(later);
    HandleIntersectionAppend(kept, later);
    HandleIntersectionAppend(batch, own);
    HandleIntersectionAppend(own, later);
    HandleIntersectionAppend(batch, own + later);
    Regroup(made, calls, HandleIntersection(pending), HandleIntersection(kept), hl, hb, ho);
  }

  /** Composes the conservation of one happening with that of the happenings after it. */
  lemma StepThenRest(s: Scroller, h: Happening, calls: seq<BusCall>, pending: seq<Entry>, later: seq<Entry>)
    requires calls + HandleIntersection(pending) == HandleIntersection(React(s, h).next.debouncer.batch + later)
    ensures (React(s, h).calls + calls) + HandleIntersection(pending) ==
            HandleIntersection(s.debouncer.batch + (OwnDelivery(s, h) + later))
  {
    ReactConserves(s, h);
    ConservesCompose(React(s, h).calls, calls, pending, React(s, h).next.debouncer.batch, later,
                     s.debouncer.batch, OwnDelivery(s, h));
  }

  /**
    When no listener throws, every delivered entry is dispatched exactly once
    and in order: the dispatches made, followed by those the still-pending
    entries would give, are the classification of what was pending plus
    everything delivered.
  */
  lemma {:induction false} DispatchesFollowDeliveries(s: Scroller, hs: seq<Happening>)
    ensures Lifetime(s, hs).calls + HandleIntersection(Lifetime(s, hs).next.debouncer.batch) ==
            HandleIntersection(s.debouncer.batch + Delivered(s, hs))
    decreases |hs|
  {
    if hs == [] {
      assert s.debouncer.batch + Delivered(s, hs) == s.debouncer.batch;
    } else {
      var o := React(s, hs[0]);
      var rest := Lifetime(o.next, hs[1..]);
      DispatchesFollowDeliveries(o.next, hs[1..]);
      StepThenRest(s, hs[0], rest.calls, rest.next.debouncer.batch, Delivered(o.next, hs[1..]));
    }
  }

  /**
    A tick on which the timer fires and the dispatch for entry `k` of the batch
    throws in a listener (as `ItemChangeEventCallback` does for an id no item
    has): the dispatches for entries `0..k` have been made, the throw leaves
    `handleIntersection` before the reset of `entriesArr`, so the whole batch
    stays pending with no timer running.
  */
  function AbortedClockTick(s: Scroller, k: nat): (o: Outcome)
    requires Due(s.debouncer)
    requires k < |s.debouncer.batch|
    ensures o.calls == React(s, ClockTick).calls[..k + 1]
    ensures o.next == React(s, ClockTick).next.(debouncer := React(s, ClockTick).next.debouncer.(batch := s.debouncer.batch))
  {
    var batch := s.debouncer.batch;
    HandleIntersectionAppend(batch[..k + 1], batch[k + 1..]);
    assert batch[..k + 1] + batch[k + 1..] == batch;
    Outcome(s.(debouncer := AbortedTick(s.debouncer).next), HandleIntersection(batch[..k + 1]))
  }

  /**
    After an aborted flush the entries dispatched before the throw are
    dispatched again: everything dispatched from then on, followed by what is
    still pending, is the prefix already dispatched plus the classification of
    the whole kept batch and every entry delivered since.
  */
  lemma AbortedFlushRepeats(s: Scroller, k: nat, hs: seq<Happening>)
    requires Due(s.debouncer)
    requires k < |s.debouncer.batch|
    ensures var o := AbortedClockTick(s, k);
            var rest := Lifetime(o.next, hs);
            (o.calls + rest.calls) + HandleIntersection(rest.next.debouncer.batch) ==
            HandleIntersection(s.debouncer.batch)[..k + 1] + HandleIntersection(s.debouncer.batch + Delivered(o.next, hs))
  {
    var o := AbortedClockTick(s, k);
    var rest := Lifetime(o.next, hs);
    DispatchesFollowDeliveries(o.next, hs);
    assert (o.calls + rest.calls) + HandleIntersection(rest.next.debouncer.batch) ==
           o.calls + (rest.calls + HandleIntersection(rest.next.debouncer.batch));
  }

  /**
    A listener that throws at entry k on every firing stalls the scroller:
    after any number of aborted firings, each followed by more entries and
    quiet ticks (`Debounce.ThrowingCycles`), the next firing makes exactly the
    dispatches the first one made, so entries after k are never dispatched
    while the pending batch keeps growing.
  */
  lemma ThrowingListenerStalls(s: Scroller, k: nat, calls: seq<seq<Entry>>)
    requires Due(s.debouncer) && s.debouncer.delay > 0 && k < |s.debouncer.batch|
    ensures var s' := s.(debouncer := ThrowingCycles(s.debouncer, calls));
            && s'.debouncer.batch == s.debouncer.batch + Flatten(calls)
            && Due(s'.debouncer) && k < |s'.debouncer.batch|
            && AbortedClockTick(s', k).calls == AbortedClockTick(s, k).calls
  {
    var b := s.debouncer.batch;
    var more := Flatten(calls);
    var s' := s.(debouncer := ThrowingCycles(s.debouncer, calls));
    assert (b + more)[..k + 1] == b[..k + 1];
  }
}
