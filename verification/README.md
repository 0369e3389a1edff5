# Event bus and visibility tracker — a Dafny model

This project models the core of a small Angular front end:

- **EventBus** (`event_bus.dfy`): the process-wide listener registry of
  `EventBus` — `addEventListener`, `removeEventListener`, `hasEventListener`,
  `dispatch` and `getEvents`. The class-static registry becomes an explicit
  `Registry` value: an ordered map from event type to its bucket of
  `{scope, callback, args}` records. Scopes and callbacks are opaque
  identities seen through `Handle` (`undefined`, `null` or a reference), so
  that JavaScript truthiness and loose `==` are explicit. `dispatch` returns
  the invocations it would make rather than calling anything.
- **Debounce** (`debounce.dfy`): the restart-debounce closure of the
  `VirtualScroll` directive (`debounce`, its `destroy`, and the timer of
  `createItemVisibleSubscription`). It is a state machine with phases Idle,
  Pending(deadline) and Disposed, an integer clock in milliseconds, and Invoke,
  Tick and Destroy steps.
- **VirtualScroll** (`virtual_scroll.dfy`): `handleIntersection`,
  `onItemVisible` and `onItemHidden`, which turn each settled entry into one
  `CHANGE_ITEM` dispatch. It also covers the directive's life cycle:
  construction, `ngAfterViewInit` and the teardown order of `ngOnDestroy`.
- **Navigation** (`navigation.dfy`): the component's guarded registration and
  `itemChangeEventCallback`, which sets `isVisible` on the first item with the
  event's id.
- `wrappers.dfy` (Option, Result), `text.dfy` (string concatenation and
  character counts) and `sequences.dfy` (regrouping of concatenations) are
  helpers.

Behaviour that the code fixes and a reader might expect otherwise:

- `dispatch` with no extra argument sets `event.args` to `args[0]`, which is
  `undefined`. It is never `null`. The rest array is always truthy, so the
  `null` initialiser is always overwritten.
- `dispatch` skips a record whose callback is falsy. There is one invocation
  per record that has a callback, not one per record.
- After `destroy`, the debounced function still appends its entries to the
  pending batch. No timer is started any more, so that batch is never handed
  to the handler.
- The batcher has three states, not two: a destroyed batcher is not Idle,
  because the completed restart subject can never start a timer again.
- The timer's handler resets the pending batch only after
  `handleIntersection` returns. If a listener throws during one of its
  dispatches (as `itemChangeEventCallback` does for an id no item has), the
  whole batch stays pending. The next firing dispatches it again, including
  the entries already dispatched before the throw.

## Model

| member | source | states |
|---|---|---|
| EventBus.AddEventListener | src/service/event-bus.ts:11-27 | the bucket of `type` gains exactly one record `{scope, callback, args}` at its end and is created if absent; every other bucket is unchanged; duplicates are accepted; a new type is appended to the visiting order |
| EventBus.AddThenHas | src/service/event-bus.ts:11-27 | right after `addEventListener(t, cb, s)`, `hasEventListener(t, cb, s)` is true, for every kind of callback and scope |
| EventBus.AddGrowsReport | src/service/event-bus.ts:11-27 | each registration adds exactly one record to the registry's total, whether its bucket is new or existing |
| EventBus.Without | src/service/event-bus.ts:36-44 | a record survives removal if and only if it was in the bucket and its scope or callback differs from the removed pair under loose equality; removal never lengthens the bucket |
| EventBus.WithoutAppend | src/service/event-bus.ts:36-44 | removal acts record by record and keeps the survivors' relative order: it distributes over concatenation of buckets |
| EventBus.RemoveEventListener | src/service/event-bus.ts:29-47 | a known type's bucket becomes the old bucket without the matching records; an unknown type leaves the registry unchanged and creates no bucket; other buckets and the type order are unchanged |
| EventBus.FilterBucket | src/service/event-bus.ts:34-45 | the copying loop builds exactly the bucket without the matching records |
| EventBus.RemoveThenHasNot | src/service/event-bus.ts:29-47 | after `removeEventListener(t, cb, s)` with a truthy scope, `hasEventListener(t, cb, s)` is false |
| EventBus.RemoveWithoutScopeKeepsOwnedListener | src/service/event-bus.ts:124 | with a falsy scope, lookup and removal disagree: in any registry, a record owned by an object survives removal of its callback without a scope and is still found |
| EventBus.UnregisteredNotDelivered | src/service/event-bus.ts:70-84 | dispatch calls only callbacks taken from the bucket, so a registration with no record there receives nothing |
| EventBus.RemovedListenerNotDelivered | src/service/event-bus.ts:29-47 | a dispatch after the removal of `(cb, scope)` makes no call of `cb` with context `scope` |
| EventBus.SelfRemovalSticks | src/service/event-bus.ts:29-47 | once a listener that unsubscribes itself has been called, its registration is absent from the bucket for the rest of the pass |
| EventBus.SelfRemovalDuringDispatch | src/service/event-bus.ts:70-84 | a listener that removes itself while being called is still called in that pass, and no later dispatch of the type calls it again |
| EventBus.HasEventListener | src/service/event-bus.ts:113-130 | an unknown type gives false; with callback and scope both undefined, the result is whether the bucket is non-empty; otherwise it is whether some record has a loosely equal callback and, when the scope is truthy, a loosely equal scope |
| EventBus.ScanForListener | src/service/event-bus.ts:115-129 | the early-returning search loop answers exactly what the lookup rule defines |
| EventBus.MakeEvent | src/service/event-bus.ts:57-68 | `event.args` is the argument array when there are several arguments, the single argument when there is one, and `undefined` (never `null`) when there is none |
| EventBus.EventArgsAmbiguity | src/service/event-bus.ts:62-68 | the unwrapping loses information: one array argument and the same values passed separately give the same event, and so do no argument and one `undefined` |
| EventBus.DeliverCall | src/service/event-bus.ts:79-81 | the call for a record invokes its callback with the record's scope as context and the shared event; the dispatch's own arguments come first, the record's bound arguments after them |
| EventBus.Deliveries | src/service/event-bus.ts:75-83 | iterating over a snapshot calls every record that has a callback, with its scope as context and the arguments `args ++ record.args` after the event; it makes no other call; when every record has a callback, call i is made for record i |
| EventBus.DeliveriesAppend | src/service/event-bus.ts:75-83 | calls are made in registration order: the calls for a concatenated snapshot are the calls for its first part followed by those for its second |
| EventBus.Dispatch | src/service/event-bus.ts:70-84 | an unknown type gives no calls; every call carries the same event; every record of the bucket that has a callback is called |
| EventBus.RegisteredIsDelivered | src/service/event-bus.ts:70-84 | a pair that `hasEventListener` finds under a truthy scope is called by the next dispatch of its type, with that scope as context |
| EventBus.DeliverSnapshot | src/service/event-bus.ts:70-84 | even when each called listener adds or removes listeners, the calls made are exactly those of the registry at the start of dispatch; the final registry is the start registry with every listener's changes applied in call order |
| EventBus.Label | src/service/event-bus.ts:99 | a record is labelled with its scope's non-empty `className`, or else "anonymous" |
| EventBus.BucketLines | src/service/event-bus.ts:97-101 | a bucket gives one report line per record, in bucket order, each the record's label followed by ` listen for '<type>'` and a line break |
| EventBus.GetEvents | src/service/event-bus.ts:91-104 | the report is empty exactly when no record is registered |
| EventBus.GetEventsLineCount | src/service/event-bus.ts:91-104 | the report has as many lines as there are registered records; when no type or class name contains a line break, it has exactly that many line breaks |
| EventBus.ListBucket | src/service/event-bus.ts:97-101 | the inner loop appends exactly the bucket's report lines |
| EventBus.ListRegistrations | src/service/event-bus.ts:91-104 | the nested loops build exactly the report: the types in registration order, each with its bucket's lines |
| Debounce.Create | src/directive/virtual-scroll.ts:63-66 | a fresh batcher has no timer and an empty batch |
| Debounce.Invoke | src/directive/virtual-scroll.ts:67-77 | a call appends its entries to the end of the batch, with no deduplication; on a live batcher it replaces any running timer by one whose deadline is the call time plus the delay; a destroyed batcher stays destroyed |
| Debounce.InvokeCoalesces | src/directive/virtual-scroll.ts:69-76 | two calls at the same instant equal one call with both batches: the restart leaves one timer, never two |
| Debounce.Destroy | src/directive/virtual-scroll.ts:80-85 | destroy leaves no timer and permanently disables restarts, keeping the batch; on an already destroyed batcher it changes nothing |
| Debounce.Tick | src/directive/virtual-scroll.ts:33-41 | a tick fires exactly when a timer is running and its deadline is reached; firing, with a handler that returns, hands the whole batch to the handler, empties the batch and leaves no timer; otherwise only the clock moves |
| Debounce.AbortedTick | src/directive/virtual-scroll.ts:38-41 | a firing whose handler throws hands over the same batch and leaves the same state as a normal firing, except that the batch is kept instead of emptied |
| Debounce.AbortedFlushRedelivers | src/directive/virtual-scroll.ts:33-77 | after a firing whose handler threw, the next call and `delay` quiet ticks flush the kept batch again, in full and ahead of the new entries |
| Debounce.ThrowingAgain | src/directive/virtual-scroll.ts:33-77 | after a firing whose handler throws, the next call and delay - 1 quiet ticks flush nothing and leave the timer due again with the kept batch followed by the new entries pending |
| Debounce.ThrowingCycles | src/directive/virtual-scroll.ts:33-77 | repeating that cycle for any list of calls leaves the timer due with the original batch followed by all the calls' entries: a handler that throws every time never empties the batch |
| Debounce.RunConservesEntries | src/directive/virtual-scroll.ts:33-77 | over any run, the batches handed to the handler followed by the still-pending batch are the initial batch followed by every entry passed in, in call order: as long as every handler call returns, nothing is lost, repeated or reordered |
| Debounce.DisposedNeverFires | src/directive/virtual-scroll.ts:80-85 | after destroy the handler never fires again, whatever calls and ticks follow |
| Debounce.QuietBeforeDeadline | src/directive/virtual-scroll.ts:33-37 | before the deadline is reached, ticks change only the clock |
| Debounce.FiresAtDeadline | src/directive/virtual-scroll.ts:33-41 | a running timer left alone fires exactly once, on the tick reaching its deadline, with the whole batch, and the batcher is then idle and empty |
| Debounce.SettlesAfterDelay | src/directive/virtual-scroll.ts:67-77 | a call followed by `delay` quiet ticks gives exactly one flush, holding the earlier pending entries and the new ones, at the call time plus the delay |
| Debounce.ThreeCallsOneFlush | src/directive/virtual-scroll.ts:63-88 | calls at times 0, D/2 and D with delay D of at least 2 give nothing up to time 2D-1 and exactly one flush, at time 2D, holding the three batches in call order |
| VirtualScroll.OnItemVisible | src/directive/virtual-scroll.ts:140-143 | the dispatch for an item entering the view reaches listeners as a `CHANGE_ITEM` event whose `args` is the payload `{id, showFlag: true}` itself |
| VirtualScroll.OnItemHidden | src/directive/virtual-scroll.ts:149-151 | the dispatch for an item leaving the view reaches listeners as a `CHANGE_ITEM` event whose `args` is the payload `{id, showFlag: false}` itself |
| VirtualScroll.Classify | src/directive/virtual-scroll.ts:116-126 | whichever branch is taken, an entry becomes a `CHANGE_ITEM` dispatch of `{id, showFlag}` with `showFlag` equal to `isIntersecting` |
| VirtualScroll.HandleIntersection | src/directive/virtual-scroll.ts:115-127 | one dispatch per entry |
| VirtualScroll.HandleIntersectionPerEntry | src/directive/virtual-scroll.ts:115-151 | dispatch i is `CHANGE_ITEM` with `{id: entry i's target id, showFlag: entry i's isIntersecting}`, in entry order, with no deduplication by id |
| VirtualScroll.HandleIntersectionAppend | src/directive/virtual-scroll.ts:116-126 | classifying two batches one after the other equals classifying their concatenation |
| VirtualScroll.ClassificationExample | src/directive/virtual-scroll.ts:115-127 | entries a-visible, b-hidden, a-hidden give exactly the three dispatches a/true, b/false, a/false, in that order |
| VirtualScroll.Construct | src/directive/virtual-scroll.ts:22-27 | the directive starts with a batcher of the 1000 ms window, an empty batch and no observer |
| VirtualScroll.AfterViewInit | src/directive/virtual-scroll.ts:47-49 | after view init the observer is observing, and the batcher is unchanged |
| VirtualScroll.OnDestroy | src/directive/virtual-scroll.ts:55-58 | teardown destroys the batcher and leaves no observer observing |
| VirtualScroll.React | src/directive/virtual-scroll.ts:38-41 | dispatches happen only on a tick with a running timer; entries from an observing observer go to the debounced function |
| VirtualScroll.NoClassificationAfterDestroy | src/directive/virtual-scroll.ts:55-58 | once the batcher is destroyed and the observer is not observing, no dispatch ever happens again and the batcher stays destroyed |
| VirtualScroll.SilentAfterOnDestroy | src/directive/virtual-scroll.ts:55-58 | after `ngOnDestroy` no entry is classified, whatever happens next |
| VirtualScroll.DispatchesFollowDeliveries | src/directive/virtual-scroll.ts:38-41 | over any life of the directive in which no listener throws, the dispatches made followed by those the pending entries would give are the classification of the initial batch plus every entry the observer delivered, in order |
| VirtualScroll.AbortedClockTick | src/directive/virtual-scroll.ts:38-41 | a firing on which the dispatch for entry k throws makes the first k + 1 dispatches of the batch, keeps the whole batch pending and otherwise changes the state as a normal firing does |
| VirtualScroll.AbortedFlushRepeats | src/directive/virtual-scroll.ts:38-41 | after such a firing, everything dispatched and still pending is the already-dispatched prefix followed by the classification of the whole kept batch and every entry delivered later: that prefix is dispatched again, provided every later flush returns |
| VirtualScroll.ThrowingListenerStalls | src/directive/virtual-scroll.ts:33-77 | a listener that throws at entry k on every firing stalls the scroller: after any number of aborted firings, each followed by more entries, the batch is the first batch followed by all later entries, the timer is due, and the next firing makes exactly the dispatches of the first, so entries after k are never dispatched |
| Navigation.Register | src/component/navigation/navigation.ts:23-25 | after construction the pair `(callback, component)` is found; the registry is unchanged when it was already found, and otherwise gains exactly that record; other types are untouched |
| Navigation.RegisterIdempotent | src/component/navigation/navigation.ts:23-25 | a second guarded registration of the same pair changes nothing |
| Navigation.RegistrationsFound | src/component/navigation/navigation.ts:23 | with the component as a truthy scope, the guard finds the pair if and only if at least one record is exactly that registration |
| Navigation.RegisterAtMostOnce | src/component/navigation/navigation.ts:23-25 | starting from at most one record for the pair, the guarded registration leaves exactly one |
| Navigation.FirstWithId | src/component/navigation/navigation.ts:29 | the index found holds the id and no earlier item does; no index is found if and only if no item has the id |
| Navigation.ItemChangeEventCallback | src/component/navigation/navigation.ts:28-31 | the callback succeeds if and only if the event carries a payload whose id some item has; it then sets `isVisible` to `showFlag` on the first such item only, and every other item, the length and the order are unchanged; otherwise it throws |
| Navigation.ItemChangeIdempotent | src/component/navigation/navigation.ts:30 | the flag is assigned, not toggled: applying the same event twice equals applying it once |
| Navigation.VisibilityReachesNavigation | src/component/navigation/navigation.ts:28-30 | the tracker's dispatch for an entry reaches the registered component, with the component as context and `event.args` equal to the `{id, showFlag}` payload itself, because one argument is unwrapped |

## Left out

- The IntersectionObserver, `getItems`/`querySelectorAll` and the observation
  loop of `setupVirtualScroll` are DOM input and output. The entry batches the
  observer would deliver are inputs of `VirtualScroll.React`, and an entry
  keeps only its target's `id` and `isIntersecting`.
- The observer configuration (`observerConfig`, `root`) and the item selector
  are passed on to the DOM and do nothing else.
- `getItemScope` is deprecated, reads `__ngContext__` by reflection and is not
  called.
- `console.log` calls, the Angular decorators, dependency injection and
  `src/app/app.ts` (a component shell with no logic) are left out.
- `Navigation.trackByItems` only returns `item.id`, for Angular rendering.
- The mock navigation data and `NavigationModel`'s other fields are left out.
  An item keeps only `id` and `isVisible`.
- Callbacks are not executed, so an exception raised by one listener, which
  aborts the rest of a dispatch, is not modelled inside the event bus.
  `EventBus.DeliverSnapshot` models only the registry changes a listener makes
  while it is called. The effect of such an exception on the batcher is
  modelled separately, by `Debounce.AbortedTick` and
  `VirtualScroll.AbortedClockTick`.
- Debounce.Tick: assumes the handler returns. When it throws, the source skips
  `entriesArr = []`, keeps the batch and hands it over again at the next
  firing. That case is `Debounce.AbortedTick`.
- Debounce.RunConservesEntries: assumes every handler call returns. When one
  throws, the kept batch is handed over again, so entries repeat
  (`Debounce.AbortedFlushRedelivers`).
- VirtualScroll.DispatchesFollowDeliveries: assumes no listener throws during
  a flush. When one does, the source keeps the batch and dispatches it again,
  so the entries dispatched before the throw repeat
  (`VirtualScroll.AbortedFlushRepeats`).
- VirtualScroll.AbortedFlushRepeats: assumes every flush after the aborted one
  returns. A listener that throws at the same entry on every flush (an unknown
  id) keeps the batch pending forever, re-dispatches entries 0..k at each
  firing, never reaches the entries after k, and lets `entriesArr` grow; that
  case is `VirtualScroll.ThrowingListenerStalls` and `Debounce.ThrowingCycles`.
- Scopes and callbacks are compared by identity, with `null == undefined`.
  Other loose-equality coercions of JavaScript are left out, and so are
  non-object truthy scopes. A type name that is inherited from
  `Object.prototype` (such as `toString`) would read as an existing bucket; the
  model treats it as an ordinary string.
- `getEvents` visits types in the order their buckets were created.
  JavaScript visits integer-like keys first, in numeric order; this is left
  out.
- The value of `eventType.CHANGE_ITEM` is defined in a configuration file
  outside this model. It is written here as the string "CHANGE_ITEM".
- RxJS scheduling is reduced to an integer clock advanced in 1 ms ticks. A
  timer started at time t with delay d fires on the tick that reaches t + d.
  After firing, the directive's subscription to the restart subject stays
  open until the next call, which has no observable effect.
- `itemChangeEventCallback`'s second parameter is unused by the source and is
  not modelled.
