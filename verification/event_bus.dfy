/**
  The listener registry and publish/subscribe bus of `src/service/event-bus.ts`.

  The source keeps one class-static registry; here it is an explicit value
  (`Registry`) that every operation takes and returns. Scopes and callbacks are
  opaque identities, seen through `Handle` so that JavaScript's `undefined`,
  `null`, truthiness and loose equality `==` are explicit. `dispatch` does not
  run callbacks: it returns the invocations it would make, in order.
*/
module EventBus {
  import opened Text

  /** A JavaScript reference as the bus sees it: `undefined`, `null`, or an object identity. */
  datatype Handle<T(==)> = Undefined | Null | Ref(target: T) {

    /** Objects and functions are truthy; `undefined` and `null` are not. */
    predicate Truthy() {
      Ref?
    }

    /** JavaScript `==` on references: identity, and `null == undefined`. */
    predicate LooselyEquals(other: Handle<T>) {
      if Ref? then other.Ref? && target == other.target else !other.Ref?
    }
  }

  /** The identity of a callback function. */
  type CallbackId = nat

  /** A listener's owner object: its identity and its `className` attribute ("" when absent). */
  datatype Owner = Owner(id: nat, className: string)

  /** The argument values that travel through the bus. */
  datatype Value =
    | Undef                                 // JavaScript `undefined`
    | Payload(id: string, showFlag: bool)   // the `{id, showFlag}` object of a visibility change
    | List(elements: seq<Value>)            // an array
    | Opaque(tag: nat)                      // any other value, which has no `id` property

  /** One registration: the record pushed by `addEventListener`. */
  datatype Listener = Listener(scope: Handle<Owner>, callback: Handle<CallbackId>, args: seq<Value>)

  /** The event object built by `dispatch`. */
  datatype Event = Event(eventType: string, args: Value)

  /** One call that `dispatch` makes: `callback.apply(context, [event] ++ args)`. */
  datatype Invocation = Invocation(callback: CallbackId, context: Handle<Owner>, event: Event, args: seq<Value>)

  /**
    The registry: an ordered map from event type to its bucket of listeners.
    `order` lists the types in the order their buckets were created, which is
    the order in which `getEvents` visits them.
  */
  datatype Registry = Registry(order: seq<string>, buckets: map<string, seq<Listener>>) {

    /** Every registered type occurs exactly once in `order`, and `order` lists nothing else. */
    ghost predicate Valid() {
      && (forall i, j :: 0 <= i < j < |order| ==> order[i] != order[j])
      && (forall t :: t in buckets <==> t in order)
    }
  }

  /** The registry at start-up. */
  const Empty: Registry := Registry([], map[])

  /** The listeners registered for `t`; an unknown type reads as an empty bucket. */
  function Bucket(r: Registry, t: string): seq<Listener> {
    if t in r.buckets then r.buckets[t] else []
  }

  // ---------------------------------------------------------------------------
  // addEventListener
  // ---------------------------------------------------------------------------

  /** Appends one record to the bucket of `t`, creating the bucket when `t` is new. */
  function AddEventListener(r: Registry, t: string, callback: Handle<CallbackId>, scope: Handle<Owner>,
                            args: seq<Value>): (r': Registry)
    ensures t in r'.buckets
    ensures Bucket(r', t) == Bucket(r, t) + [Listener(scope, callback, args)]
    ensures forall u :: u != t ==> Bucket(r', u) == Bucket(r, u)
    ensures t in r.buckets ==> r'.order == r.order
    ensures t !in r.buckets ==> r'.order == r.order + [t]
    ensures r.Valid() ==> r'.Valid()
  {
    var l := Listener(scope, callback, args);
    if t in r.buckets then Registry(r.order, r.buckets[t := r.buckets[t] + [l]])
    else Registry(r.order + [t], r.buckets[t := [l]])
  }

  // ---------------------------------------------------------------------------
  // removeEventListener
  // ---------------------------------------------------------------------------

  /** The identity test of `removeEventListener`: scope and callback both loosely equal. */
  predicate SameRegistration(l: Listener, callback: Handle<CallbackId>, scope: Handle<Owner>) {
    l.scope.LooselyEquals(scope) && l.callback.LooselyEquals(callback)
  }

  /** `s` without the records registered as `(callback, scope)`. */
  function Without(s: seq<Listener>, callback: Handle<CallbackId>, scope: Handle<Owner>): (s': seq<Listener>)
    ensures forall l {:trigger l in s'} :: l in s' <==> l in s && !SameRegistration(l, callback, scope)
    ensures |s'| <= |s|
  {
    if s == [] then []
    else
      var last := s[|s| - 1];
      Without(s[..|s| - 1], callback, scope) + (if SameRegistration(last, callback, scope) then [] else [last])
  }

  /**
    Surviving records keep their relative order: removal distributes over
    concatenation, so it acts on each record independently and in place.
  */
  lemma {:induction false} WithoutAppend(a: seq<Listener>, b: seq<Listener>, callback: Handle<CallbackId>,
                                         scope: Handle<Owner>)
    ensures Without(a + b, callback, scope) == Without(a, callback, scope) + Without(b, callback, scope)
    decreases |b|
  {
    if b == [] {
      assert a + b == a;
    } else {
      var b' := b[..|b| - 1];
      var last := b[|b| - 1];
      var step := if SameRegistration(last, callback, scope) then [] else [last];
      assert (a + b)[..|a + b| - 1] == a + b';
      assert (a + b)[|a + b| - 1] == last;
      assert Without(a + b, callback, scope) == Without(a + b', callback, scope) + step;
      assert Without(b, callback, scope) == Without(b', callback, scope) + step;
      WithoutAppend(a, b', callback, scope);
    }
  }

  /** Rebuilds the bucket of a known `t` without the `(callback, scope)` records; an unknown `t` is left alone. */
  function RemoveEventListener(r: Registry, t: string, callback: Handle<CallbackId>, scope: Handle<Owner>): (r': Registry)
    ensures t in r.buckets ==> t in r'.buckets && r'.buckets[t] == Without(r.buckets[t], callback, scope)
    ensures t !in r.buckets ==> r' == r
    ensures forall u :: u != t ==> Bucket(r', u) == Bucket(r, u)
    ensures r'.order == r.order && r'.buckets.Keys == r.buckets.Keys
    ensures r.Valid() ==> r'.Valid()
  {
    if t in r.buckets then Registry(r.order, r.buckets[t := Without(r.buckets[t], callback, scope)]) else r
  }

  /** The rebuild loop of `removeEventListener`: copies every record that does not match into a new array. */
  method FilterBucket(bucket: seq<Listener>, callback: Handle<CallbackId>, scope: Handle<Owner>)
    returns (kept: seq<Listener>)
    ensures kept == Without(bucket, callback, scope)
  {
    kept := [];
    for i := 0 to |bucket|
      invariant kept == Without(bucket[..i], callback, scope)
    {
      assert bucket[..i + 1][..i] == bucket[..i];
      var listener := bucket[i];
      if !SameRegistration(listener, callback, scope) {
        kept := kept + [listener];
      }
    }
    assert bucket[..|bucket|] == bucket;
  }

  // ---------------------------------------------------------------------------
  // hasEventListener
  // ---------------------------------------------------------------------------

  /** The test of `hasEventListener`'s loop: a falsy scope matches any scope, the callback must always match. */
  predicate ProbeMatches(l: Listener, callback: Handle<CallbackId>, scope: Handle<Owner>) {
    (scope.Truthy() ==> l.scope.LooselyEquals(scope)) && l.callback.LooselyEquals(callback)
  }

  /** Whether some record of `s` passes the probe. */
  function AnyMatch(s: seq<Listener>, callback: Handle<CallbackId>, scope: Handle<Owner>): (b: bool)
    ensures b <==> exists i :: 0 <= i < |s| && ProbeMatches(s[i], callback, scope)
  {
    if s == [] then false
    else AnyMatch(s[..|s| - 1], callback, scope) || ProbeMatches(s[|s| - 1], callback, scope)
  }

  /** Whether a registration for `t` exists; with neither callback nor scope given, whether the bucket is non-empty. */
  function HasEventListener(r: Registry, t: string, callback: Handle<CallbackId>, scope: Handle<Owner>): (b: bool)
    ensures t !in r.buckets ==> !b
    ensures t in r.buckets && callback.Undefined? && scope.Undefined? ==> (b <==> |r.buckets[t]| > 0)
    ensures t in r.buckets && !(callback.Undefined? && scope.Undefined?) ==>
              (b <==> exists l :: l in r.buckets[t] && ProbeMatches(l, callback, scope))
  {
    if t !in r.buckets then false
    else if callback.Undefined? && scope.Undefined? then |r.buckets[t]| > 0
    else AnyMatch(r.buckets[t], callback, scope)
  }

  /** The search loop of `hasEventListener`, returning at the first match. */
  method ScanForListener(r: Registry, t: string, callback: Handle<CallbackId>, scope: Handle<Owner>)
    returns (found: bool)
    ensures found == HasEventListener(r, t, callback, scope)
  {
    if t !in r.buckets {
      return false;
    }
    var bucket := r.buckets[t];
    if callback.Undefined? && scope.Undefined? {
      return |bucket| > 0;
    }
    for i := 0 to |bucket|
      invariant forall k :: 0 <= k < i ==> !ProbeMatches(bucket[k], callback, scope)
    {
      if ProbeMatches(bucket[i], callback, scope) {
        return true;
      }
    }
    return false;
  }

  /** A registration just added is always found again. */
  lemma AddThenHas(r: Registry, t: string, callback: Handle<CallbackId>, scope: Handle<Owner>, args: seq<Value>)
    ensures HasEventListener(AddEventListener(r, t, callback, scope, args), t, callback, scope)
  {
  }

  /** After removing `(callback, scope)` with a truthy scope, the pair is no longer found. */
  lemma RemoveThenHasNot(r: Registry, t: string, callback: Handle<CallbackId>, scope: Handle<Owner>)
    requires scope.Truthy()
    ensures !HasEventListener(RemoveEventListener(r, t, callback, scope), t, callback, scope)
  {
  }

  /**
    With a falsy scope the two operations disagree: removal only drops records
    whose scope is also null or undefined, while the lookup ignores scopes, so a
    registration under an owner is still found after such a removal.
  */
  lemma RemoveWithoutScopeKeepsOwnedListener(r: Registry, t: string, o: Owner, cb: CallbackId, args: seq<Value>)
    requires Listener(Ref(o), Ref(cb), args) in Bucket(r, t)
    ensures HasEventListener(RemoveEventListener(r, t, Ref(cb), Undefined), t, Ref(cb), Undefined)
  {
    var l := Listener(Ref(o), Ref(cb), args);
    assert l in Bucket(RemoveEventListener(r, t, Ref(cb), Undefined), t);
    assert ProbeMatches(l, Ref(cb), Undefined);
  }

  // ---------------------------------------------------------------------------
  // dispatch
  // ---------------------------------------------------------------------------

  /**
    The event object of `dispatch(t, ...args)`. `args` is a rest parameter and
    hence always a truthy array, so the `null` initialiser is always replaced:
    several arguments are passed as the array, otherwise `args[0]` (undefined
    when there are none).
  */
  function MakeEvent(t: string, args: seq<Value>): (e: Event)
    ensures e.eventType == t
    ensures |args| > 1 ==> e.args == List(args)
    ensures |args| == 1 ==> e.args == args[0]
    ensures |args| == 0 ==> e.args == Undef
  {
    Event(t, if |args| > 1 then List(args) else if |args| == 1 then args[0] else Undef)
  }

  /**
    The unwrapping is lossy: a listener that only reads `event.args` cannot tell
    one array argument from the same values passed separately, nor no argument
    from one `undefined`. Only the trailing arguments tell them apart.
  */
  lemma EventArgsAmbiguity(t: string, a: Value, b: Value)
    ensures MakeEvent(t, [List([a, b])]) == MakeEvent(t, [a, b])
    ensures MakeEvent(t, []) == MakeEvent(t, [Undef])
  {
  }

  /** The call made for one listener of the snapshot. */
  function Deliver(ev: Event, args: seq<Value>, l: Listener): Invocation
    requires l.callback.Ref?
  {
    Invocation(l.callback.target, l.scope, ev, args + l.args)
  }

  /**
    The call for a record: its callback, with the record's scope as context and
    the shared event; the callback receives the dispatch's own arguments first,
    then the record's bound arguments.
  */
  lemma DeliverCall(ev: Event, args: seq<Value>, l: Listener)
    requires l.callback.Ref?
    ensures Deliver(ev, args, l).callback == l.callback.target && Deliver(ev, args, l).context == l.scope
    ensures Deliver(ev, args, l).event == ev
    ensures |Deliver(ev, args, l).args| == |args| + |l.args|
    ensures Deliver(ev, args, l).args[..|args|] == args && Deliver(ev, args, l).args[|args|..] == l.args
  {
  }

  /**
    The calls made while iterating over the snapshot `s`: one per record that
    has a (truthy) callback, in snapshot order.
  */
  function Deliveries(ev: Event, args: seq<Value>, s: seq<Listener>): (invs: seq<Invocation>)
    ensures |invs| <= |s|
    ensures forall i :: 0 <= i < |s| && s[i].callback.Ref? ==> Deliver(ev, args, s[i]) in invs
    ensures forall inv :: inv in invs ==>
              exists k :: 0 <= k < |s| && s[k].callback.Ref? && inv == Deliver(ev, args, s[k])
    ensures (forall i :: 0 <= i < |s| ==> s[i].callback.Ref?) ==>
              |invs| == |s| && forall i :: 0 <= i < |s| ==> invs[i] == Deliver(ev, args, s[i])
  {
    if s == [] then []
    else
      var front, last := s[..|s| - 1], s[|s| - 1];
      var earlier := Deliveries(ev, args, front);
      var calls := earlier + (if last.callback.Ref? then [Deliver(ev, args, last)] else []);
      StepCovers(ev, args, s, front, earlier, calls);
      StepSound(ev, args, s, front, earlier, calls);
      StepExact(ev, args, s, front, earlier, calls);
      calls
  }

  /** Inductive step of `Deliveries`: every record with a callback is called. */
  lemma StepCovers(ev: Event, args: seq<Value>, s: seq<Listener>, front: seq<Listener>,
                   earlier: seq<Invocation>, calls: seq<Invocation>)
    requires s != [] && front == s[..|s| - 1]
    requires calls == earlier + (if s[|s| - 1].callback.Ref? then [Deliver(ev, args, s[|s| - 1])] else [])
    requires forall i :: 0 <= i < |front| && front[i].callback.Ref? ==> Deliver(ev, args, front[i]) in earlier
    ensures forall i :: 0 <= i < |s| && s[i].callback.Ref? ==> Deliver(ev, args, s[i]) in calls
  {
  }

  /** Inductive step of `Deliveries`: every call is made for a record with a callback. */
  lemma StepSound(ev: Event, args: seq<Value>, s: seq<Listener>, front: seq<Listener>,
                  earlier: seq<Invocation>, calls: seq<Invocation>)
    requires s != [] && front == s[..|s| - 1]
    requires calls == earlier + (if s[|s| - 1].callback.Ref? then [Deliver(ev, args, s[|s| - 1])] else [])
    requires forall inv :: inv in earlier ==>
               exists k :: 0 <= k < |front| && front[k].callback.Ref? && inv == Deliver(ev, args, front[k])
    ensures forall inv :: inv in calls ==>
              exists k :: 0 <= k < |s| && s[k].callback.Ref? && inv == Deliver(ev, args, s[k])
  {
  }

  /** Inductive step of `Deliveries`: with every callback present, call `i` is for record `i`. */
  lemma StepExact(ev: Event, args: seq<Value>, s: seq<Listener>, front: seq<Listener>,
                  earlier: seq<Invocation>, calls: seq<Invocation>)
    requires s != [] && front == s[..|s| - 1]
    requires calls == earlier + (if s[|s| - 1].callback.Ref? then [Deliver(ev, args, s[|s| - 1])] else [])
    requires |earlier| <= |front|
    requires (forall i :: 0 <= i < |front| ==> front[i].callback.Ref?) ==>
               |earlier| == |front| && forall i :: 0 <= i < |front| ==> earlier[i] == Deliver(ev, args, front[i])
    ensures |calls| <= |s|
    ensures (forall i :: 0 <= i < |s| ==> s[i].callback.Ref?) ==>
              |calls| == |s| && forall i :: 0 <= i < |s| ==> calls[i] == Deliver(ev, args, s[i])
  {
  }

  /** One more record of the snapshot adds its call, if it has a callback, at the end. */
  lemma DeliveriesSnoc(ev: Event, args: seq<Value>, s: seq<Listener>, i: nat)
    requires i < |s|
    ensures Deliveries(ev, args, s[..i + 1]) ==
            Deliveries(ev, args, s[..i]) + (if s[i].callback.Ref? then [Deliver(ev, args, s[i])] else [])
  {
    assert s[..i + 1][..i] == s[..i];
  }

  /** Delivery follows registration order: it distributes over concatenation of the snapshot. */
  lemma {:induction false} DeliveriesAppend(ev: Event, args: seq<Value>, a: seq<Listener>, b: seq<Listener>)
    ensures Deliveries(ev, args, a + b) == Deliveries(ev, args, a) + Deliveries(ev, args, b)
    decreases |b|
  {
    if b == [] {
      assert a + b == a;
    } else {
      var b' := b[..|b| - 1];
      assert (a + b)[..|a + b| - 1] == a + b';
      DeliveriesAppend(ev, args, a, b');
    }
  }

  /** The invocations `dispatch(t, ...args)` makes, from the bucket of `t` as it is when dispatch starts. */
  function Dispatch(r: Registry, t: string, args: seq<Value>): (invs: seq<Invocation>)
    ensures t !in r.buckets ==> invs == []
    ensures forall inv :: inv in invs ==> inv.event == MakeEvent(t, args)
    ensures forall l :: l in Bucket(r, t) && l.callback.Ref? ==> Deliver(MakeEvent(t, args), args, l) in invs
  {
    Deliveries(MakeEvent(t, args), args, Bucket(r, t))
  }

  /** A registration `hasEventListener` finds under a truthy scope receives the next dispatch of its type. */
  lemma RegisteredIsDelivered(r: Registry, t: string, args: seq<Value>, cb: CallbackId, scope: Handle<Owner>)
    requires scope.Truthy() && HasEventListener(r, t, Ref(cb), scope)
    ensures exists inv :: inv in Dispatch(r, t, args) && inv.callback == cb && inv.context == scope
                          && inv.event == MakeEvent(t, args)
  {
    var l :| l in r.buckets[t] && ProbeMatches(l, Ref(cb), scope);
    assert Deliver(MakeEvent(t, args), args, l) in Dispatch(r, t, args);
  }

  /** A change a listener makes to the registry while it is being called. */
  datatype Mutation =
    | Subscribe(t: string, callback: Handle<CallbackId>, scope: Handle<Owner>, args: seq<Value>)
    | Unsubscribe(t: string, callback: Handle<CallbackId>, scope: Handle<Owner>)

  function Apply(r: Registry, m: Mutation): Registry {
    match m
    case Subscribe(t, callback, scope, args) => AddEventListener(r, t, callback, scope, args)
    case Unsubscribe(t, callback, scope) => RemoveEventListener(r, t, callback, scope)
  }

  function ApplyAll(r: Registry, ms: seq<Mutation>): Registry {
    if ms == [] then r else Apply(ApplyAll(r, ms[..|ms| - 1]), ms[|ms| - 1])
  }

  /** The registry after each invocation of `invs`, in turn, has made the changes `react` gives for it. */
  function AfterReactions(r: Registry, invs: seq<Invocation>, react: Invocation -> seq<Mutation>): Registry {
    if invs == [] then r else ApplyAll(AfterReactions(r, invs[..|invs| - 1], react), react(invs[|invs| - 1]))
  }

  /**
    The delivery loop of `dispatch`, with re-entrant listeners: each call may
    add or remove listeners (`react`). Because the loop runs over a copy of the
    bucket taken at the start, the calls made are exactly those of the
    registry as it was, whatever the listeners do.
  */
  method DeliverSnapshot(r: Registry, t: string, args: seq<Value>, react: Invocation -> seq<Mutation>)
    returns (invs: seq<Invocation>, r': Registry)
    ensures invs == Dispatch(r, t, args)
    ensures r' == AfterReactions(r, invs, react)
  {
    var ev := MakeEvent(t, args);
    var snapshot := Bucket(r, t);
    invs := [];
    r' := r;
    for i := 0 to |snapshot|
      invariant invs == Deliveries(ev, args, snapshot[..i])
      invariant r' == AfterReactions(r, invs, react)
    {
      DeliveriesSnoc(ev, args, snapshot, i);
      var listener := snapshot[i];
      if listener.callback.Ref? {
        var inv := Deliver(ev, args, listener);
        var invs' := invs + [inv];
        assert invs'[..|invs'| - 1] == invs;
        invs := invs';
        r' := ApplyAll(r', react(inv));
      }
    }
    assert snapshot[..|snapshot|] == snapshot;
  }

  /** No record of `t`'s bucket is the registration `(cb, scope)`. */
  ghost predicate Unregistered(r: Registry, t: string, cb: CallbackId, scope: Handle<Owner>) {
    forall l :: l in Bucket(r, t) ==> !SameRegistration(l, Ref(cb), scope)
  }

  /** A dispatch reaches only registrations that are in the bucket. */
  lemma UnregisteredNotDelivered(r: Registry, t: string, cb: CallbackId, scope: Handle<Owner>, args: seq<Value>)
    requires Unregistered(r, t, cb, scope)
    ensures forall inv :: inv in Dispatch(r, t, args) ==> !(inv.callback == cb && inv.context == scope)
  {
    forall inv | inv in Dispatch(r, t, args)
      ensures !(inv.callback == cb && inv.context == scope)
    {
      var s := Bucket(r, t);
      var k :| 0 <= k < |s| && s[k].callback.Ref? && inv == Deliver(MakeEvent(t, args), args, s[k]);
      assert s[k] in s;
    }
  }

  /** A removed registration receives nothing from any later dispatch. */
  lemma RemovedListenerNotDelivered(r: Registry, t: string, cb: CallbackId, scope: Handle<Owner>, args: seq<Value>)
    ensures forall inv :: inv in Dispatch(RemoveEventListener(r, t, Ref(cb), scope), t, args) ==>
              !(inv.callback == cb && inv.context == scope)
  {
    UnregisteredNotDelivered(RemoveEventListener(r, t, Ref(cb), scope), t, cb, scope, args);
  }

  /** The reaction of a listener `(cb, scope)` that unsubscribes itself from `t` whenever it is called. */
  function SelfRemoval(t: string, cb: CallbackId, scope: Handle<Owner>): Invocation -> seq<Mutation> {
    (inv: Invocation) => if inv.callback == cb && inv.context == scope then [Unsubscribe(t, Ref(cb), scope)] else []
  }

  /** Once the self-removing listener has been called, its registration stays gone for the rest of the pass. */
  lemma {:induction false} SelfRemovalSticks(r: Registry, invs: seq<Invocation>, t: string, cb: CallbackId, scope: Handle<Owner>)
    requires exists k :: 0 <= k < |invs| && invs[k].callback == cb && invs[k].context == scope
    ensures Unregistered(AfterReactions(r, invs, SelfRemoval(t, cb, scope)), t, cb, scope)
    decreases |invs|
  {
    var react := SelfRemoval(t, cb, scope);
    var front := invs[..|invs| - 1];
    var last := invs[|invs| - 1];
    var before := AfterReactions(r, front, react);
    if last.callback == cb && last.context == scope {
      var ms := react(last);
      assert ms == [Unsubscribe(t, Ref(cb), scope)];
      assert ms[..|ms| - 1] == [];
      assert ApplyAll(before, ms) == RemoveEventListener(before, t, Ref(cb), scope);
    } else {
      assert react(last) == [];
      var k :| 0 <= k < |invs| && invs[k].callback == cb && invs[k].context == scope;
      assert front[k] == invs[k];
      SelfRemovalSticks(r, front, t, cb, scope);
    }
  }

  /**
    A listener that removes itself while it is being called: the pass that calls
    it is unaffected (it runs over the snapshot), and no later dispatch of the
    type reaches it.
  */
  lemma SelfRemovalDuringDispatch(r: Registry, t: string, args: seq<Value>, later: seq<Value>, cb: CallbackId, scope: Handle<Owner>)
    requires scope.Truthy() && HasEventListener(r, t, Ref(cb), scope)
    ensures exists inv :: inv in Dispatch(r, t, args) && inv.callback == cb && inv.context == scope
    ensures forall inv :: inv in Dispatch(AfterReactions(r, Dispatch(r, t, args), SelfRemoval(t, cb, scope)), t, later) ==>
              !(inv.callback == cb && inv.context == scope)
  {
    var invs := Dispatch(r, t, args);
    RegisteredIsDelivered(r, t, args, cb, scope);
    var inv :| inv in invs && inv.callback == cb && inv.context == scope;
    var k :| 0 <= k < |invs| && invs[k] == inv;
    SelfRemovalSticks(r, invs, t, cb, scope);
    UnregisteredNotDelivered(AfterReactions(r, invs, SelfRemoval(t, cb, scope)), t, cb, scope, later);
  }

  // ---------------------------------------------------------------------------
  // getEvents
  // ---------------------------------------------------------------------------

  /** The owner name of a record: the scope's `className` when present and non-empty, else "anonymous". */
  function Label(scope: Handle<Owner>): (s: string)
    ensures s == "anonymous" || (scope.Ref? && s == scope.target.className && s != "")
    ensures scope.Ref? && scope.target.className != "" ==> s == scope.target.className
  {
    if scope.Ref? && scope.target.className != "" then scope.target.className else "anonymous"
  }

  /** The report line of one record. */
  function Line(t: string, l: Listener): string {
    Label(l.scope) + " listen for '" + t + "'\n"
  }

  /** The report lines of one bucket, one per record, in bucket order. */
  function BucketLines(t: string, s: seq<Listener>): (lines: seq<string>)
    ensures |lines| == |s|
    ensures forall i :: 0 <= i < |s| ==> lines[i] == Line(t, s[i])
  {
    if s == [] then [] else BucketLines(t, s[..|s| - 1]) + [Line(t, s[|s| - 1])]
  }

  /** The report lines of the types `ts`, in that order. */
  function LinesOf(r: Registry, ts: seq<string>): seq<string> {
    if ts == [] then [] else LinesOf(r, ts[..|ts| - 1]) + BucketLines(ts[|ts| - 1], Bucket(r, ts[|ts| - 1]))
  }

  /** The number of records in the buckets of `ts`. */
  function CountOf(r: Registry, ts: seq<string>): nat {
    if ts == [] then 0 else CountOf(r, ts[..|ts| - 1]) + |Bucket(r, ts[|ts| - 1])|
  }

  /** The total number of registered records. */
  function ListenerCount(r: Registry): nat {
    CountOf(r, r.order)
  }

  /** The diagnostic report of `getEvents`: one line per record, types in registration order. */
  function GetEvents(r: Registry): (report: string)
    ensures report == "" <==> ListenerCount(r) == 0
  {
    LinesOfCount(r, r.order);
    LinesOfLastNonEmpty(r, r.order);
    Concat(LinesOf(r, r.order))
  }

  /** Every report line is non-empty, so a non-empty list of lines ends in a non-empty one. */
  lemma {:induction false} LinesOfLastNonEmpty(r: Registry, ts: seq<string>)
    ensures LinesOf(r, ts) != [] ==> LinesOf(r, ts)[|LinesOf(r, ts)| - 1] != ""
    decreases |ts|
  {
    if ts != [] {
      var front := ts[..|ts| - 1];
      var t := ts[|ts| - 1];
      var b := Bucket(r, t);
      if b == [] {
        assert LinesOf(r, ts) == LinesOf(r, front);
        LinesOfLastNonEmpty(r, front);
      } else {
        var lines := BucketLines(t, b);
        assert LinesOf(r, ts)[|LinesOf(r, ts)| - 1] == lines[|b| - 1] == Line(t, b[|b| - 1]);
      }
    }
  }

  lemma {:induction false} LinesOfCount(r: Registry, ts: seq<string>)
    ensures |LinesOf(r, ts)| == CountOf(r, ts)
    decreases |ts|
  {
    if ts != [] {
      LinesOfCount(r, ts[..|ts| - 1]);
    }
  }

  /** Nothing in the report text can be mistaken for a line break. */
  ghost predicate NoLineBreaks(r: Registry) {
    && (forall t :: t in r.order ==> '\n' !in t)
    && (forall t, l :: t in r.buckets && l in r.buckets[t] && l.scope.Ref? ==> '\n' !in l.scope.target.className)
  }

  lemma LineBreaks(t: string, l: Listener)
    requires '\n' !in t
    requires l.scope.Ref? ==> '\n' !in l.scope.target.className
    ensures Occurrences(Line(t, l), '\n') == 1
  {
  }

  lemma {:induction false} BucketLinesBreaks(t: string, s: seq<Listener>)
    requires '\n' !in t
    requires forall l :: l in s && l.scope.Ref? ==> '\n' !in l.scope.target.className
    ensures Occurrences(Concat(BucketLines(t, s)), '\n') == |s|
    decreases |s|
  {
    if s != [] {
      var s' := s[..|s| - 1];
      var l := s[|s| - 1];
      BucketLinesBreaks(t, s');
      assert BucketLines(t, s) == BucketLines(t, s') + [Line(t, l)];
      ConcatSnoc(BucketLines(t, s'), Line(t, l));
      LineBreaks(t, l);
      OccurrencesAppend(Concat(BucketLines(t, s')), Line(t, l), '\n');
    }
  }

  lemma {:induction false} LinesOfBreaks(r: Registry, ts: seq<string>)
    requires NoLineBreaks(r)
    requires forall t :: t in ts ==> t in r.order
    ensures Occurrences(Concat(LinesOf(r, ts)), '\n') == CountOf(r, ts)
    decreases |ts|
  {
    if ts != [] {
      var ts' := ts[..|ts| - 1];
      var t := ts[|ts| - 1];
      assert t in r.order;
      LinesOfBreaks(r, ts');
      BucketLinesBreaks(t, Bucket(r, t));
      ConcatAppend(LinesOf(r, ts'), BucketLines(t, Bucket(r, t)));
      OccurrencesAppend(Concat(LinesOf(r, ts')), Concat(BucketLines(t, Bucket(r, t))), '\n');
    }
  }

  /**
    The report has one line per registered record: as many lines as records,
    and, when no type or class name contains a line break, exactly that many
    line breaks.
  */
  lemma GetEventsLineCount(r: Registry)
    ensures |LinesOf(r, r.order)| == ListenerCount(r)
    ensures NoLineBreaks(r) ==> Occurrences(GetEvents(r), '\n') == ListenerCount(r)
  {
    LinesOfCount(r, r.order);
    if NoLineBreaks(r) {
      LinesOfBreaks(r, r.order);
    }
  }

  lemma {:induction false} CountOfUpdate(r: Registry, r': Registry, ts: seq<string>, t: string, k: nat)
    requires forall u :: u != t ==> Bucket(r', u) == Bucket(r, u)
    requires |Bucket(r', t)| == |Bucket(r, t)| + k
    requires forall i, j :: 0 <= i < j < |ts| ==> ts[i] != ts[j]
    ensures t in ts ==> CountOf(r', ts) == CountOf(r, ts) + k
    ensures t !in ts ==> CountOf(r', ts) == CountOf(r, ts)
    decreases |ts|
  {
    if ts != [] {
      var ts' := ts[..|ts| - 1];
      CountOfUpdate(r, r', ts', t, k);
      if ts[|ts| - 1] == t {
        assert t !in ts' by {
          forall i | 0 <= i < |ts'| ensures ts'[i] != t {
            assert ts[i] != ts[|ts| - 1];
          }
        }
      } else {
        assert t in ts ==> t in ts';
      }
    }
  }

  /** Each registration adds exactly one line to the report. */
  lemma AddGrowsReport(r: Registry, t: string, callback: Handle<CallbackId>, scope: Handle<Owner>, args: seq<Value>)
    requires r.Valid()
    ensures ListenerCount(AddEventListener(r, t, callback, scope, args)) == ListenerCount(r) + 1
  {
    var r' := AddEventListener(r, t, callback, scope, args);
    CountOfUpdate(r, r', r.order, t, 1);
    if t !in r.buckets {
      assert t !in r.order;
      assert r'.order[..|r'.order| - 1] == r.order;
      CountOfUpdate(r, r', r.order, t, 1);
    }
  }

  /** The inner loop of `getEvents`: one line per record of one bucket. */
  method ListBucket(t: string, bucket: seq<Listener>) returns (str: string)
    ensures str == Concat(BucketLines(t, bucket))
  {
    str := "";
    for j := 0 to |bucket|
      invariant str == Concat(BucketLines(t, bucket[..j]))
    {
      assert bucket[..j + 1][..j] == bucket[..j];
      assert BucketLines(t, bucket[..j + 1]) == BucketLines(t, bucket[..j]) + [Line(t, bucket[j])];
      ConcatSnoc(BucketLines(t, bucket[..j]), Line(t, bucket[j]));
      str := str + Line(t, bucket[j]);
    }
    assert bucket[..|bucket|] == bucket;
  }

  /** The outer loop of `getEvents`: over the types in registration order. */
  method ListRegistrations(r: Registry) returns (str: string)
    ensures str == GetEvents(r)
  {
    str := "";
    for i := 0 to |r.order|
      invariant str == Concat(LinesOf(r, r.order[..i]))
    {
      var t := r.order[i];
      var lines := ListBucket(t, Bucket(r, t));
      assert r.order[..i + 1][..i] == r.order[..i];
      assert LinesOf(r, r.order[..i + 1]) == LinesOf(r, r.order[..i]) + BucketLines(t, Bucket(r, t));
      ConcatAppend(LinesOf(r, r.order[..i]), BucketLines(t, Bucket(r, t)));
      str := str + lines;
    }
    assert r.order[..|r.order|] == r.order;
  }
}
