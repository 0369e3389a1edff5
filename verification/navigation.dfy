/**
  The navigation component of `src/component/navigation/navigation.ts`: it
  subscribes once to `CHANGE_ITEM` and, on each event, sets the visibility flag
  of the first list item whose id the event names.
*/
module Navigation {
  import opened Wrappers
  import opened EventBus
  import opened VirtualScroll

  /** A navigation list item, reduced to the two fields the component reads and writes. */
  datatype NavItem = NavItem(id: string, isVisible: bool)

  /** The exception thrown when the item to update does not exist (`navItem` is undefined). */
  datatype Fault = TypeError

  // ---------------------------------------------------------------------------
  // Registration in the constructor
  // ---------------------------------------------------------------------------

  /**
    The constructor's guarded registration of `(callback, self)` for
    `CHANGE_ITEM`: added only when `hasEventListener` does not already find it.
  */
  function Register(bus: Registry, self: Owner, callback: CallbackId): (bus': Registry)
    ensures HasEventListener(bus', CHANGE_ITEM, Ref(callback), Ref(self))
    ensures HasEventListener(bus, CHANGE_ITEM, Ref(callback), Ref(self)) ==> bus' == bus
    ensures !HasEventListener(bus, CHANGE_ITEM, Ref(callback), Ref(self)) ==>
              Bucket(bus', CHANGE_ITEM) == Bucket(bus, CHANGE_ITEM) + [Listener(Ref(self), Ref(callback), [])]
    ensures forall u :: u != CHANGE_ITEM ==> Bucket(bus', u) == Bucket(bus, u)
    ensures bus.Valid() ==> bus'.Valid()
  {
    if HasEventListener(bus, CHANGE_ITEM, Ref(callback), Ref(self)) then bus
    else
      var bus' := AddEventListener(bus, CHANGE_ITEM, Ref(callback), Ref(self), []);
      AddThenHas(bus, CHANGE_ITEM, Ref(callback), Ref(self), []);
      bus'
  }

  /** Running the guarded registration twice for the same component changes nothing. */
  lemma RegisterIdempotent(bus: Registry, self: Owner, callback: CallbackId)
    ensures Register(Register(bus, self, callback), self, callback) == Register(bus, self, callback)
  {
  }

  /** How many records of `s` are exactly the registration `(callback, self)`. */
  function Registrations(s: seq<Listener>, self: Owner, callback: CallbackId): nat {
    if s == [] then 0
    else Registrations(s[..|s| - 1], self, callback)
         + (if s[|s| - 1].scope == Ref(self) && s[|s| - 1].callback == Ref(callback) then 1 else 0)
  }

  /** With a truthy scope, `hasEventListener` finds the pair exactly when some record is that registration. */
  lemma {:induction false} RegistrationsFound(s: seq<Listener>, self: Owner, callback: CallbackId)
    ensures Registrations(s, self, callback) > 0 <==> AnyMatch(s, Ref(callback), Ref(self))
    decreases |s|
  {
    if s != [] {
      RegistrationsFound(s[..|s| - 1], self, callback);
    }
  }

  /** The guard keeps the registration unique: at most one record per `(callback, self)`, and one after. */
  lemma RegisterAtMostOnce(bus: Registry, self: Owner, callback: CallbackId)
    requires Registrations(Bucket(bus, CHANGE_ITEM), self, callback) <= 1
    ensures Registrations(Bucket(Register(bus, self, callback), CHANGE_ITEM), self, callback) == 1
  {
    var s := Bucket(bus, CHANGE_ITEM);
    RegistrationsFound(s, self, callback);
    if !HasEventListener(bus, CHANGE_ITEM, Ref(callback), Ref(self)) {
      var s' := s + [Listener(Ref(self), Ref(callback), [])];
      assert s'[..|s'| - 1] == s;
    }
  }

  // ---------------------------------------------------------------------------
  // itemChangeEventCallback
  // ---------------------------------------------------------------------------

  /** The position of the first item with the given id, which is what `filter(...)[0]` reads. */
  function FirstWithId(items: seq<NavItem>, id: string): (k: Option<nat>)
    ensures k.Some? ==> k.value < |items| && items[k.value].id == id
    ensures k.Some? ==> forall j :: 0 <= j < k.value ==> items[j].id != id
    ensures k.None? <==> forall j :: 0 <= j < |items| ==> items[j].id != id
    decreases |items|
  {
    if items == [] then None
    else if items[0].id == id then Some(0)
    else match FirstWithId(items[1..], id)
      case Some(k) => Some(k + 1)
      case None => None
  }

  /**
    `itemChangeEventCallback`: reads `event.args.id` and `event.args.showFlag`
    and sets the first matching item's `isVisible`. When the event carries no
    payload or no item has the id, `navItem` is undefined and the assignment
    throws.
  */
  function ItemChangeEventCallback(items: seq<NavItem>, event: Event): (r: Result<seq<NavItem>, Fault>)
    ensures r.Success? <==> event.args.Payload? && exists j :: 0 <= j < |items| && items[j].id == event.args.id
    ensures r.Success? ==> |r.value| == |items|
    ensures r.Success? ==>
              var k := FirstWithId(items, event.args.id).value;
              && r.value[k] == items[k].(isVisible := event.args.showFlag)
              && forall j :: 0 <= j < |items| && j != k ==> r.value[j] == items[j]
  {
    if !event.args.Payload? then Failure(TypeError)
    else match FirstWithId(items, event.args.id)
      case None => Failure(TypeError)
      case Some(k) => Success(items[k := items[k].(isVisible := event.args.showFlag)])
  }

  /** The flag is set, not toggled: applying the same event twice is the same as applying it once. */
  lemma ItemChangeIdempotent(items: seq<NavItem>, event: Event)
    requires ItemChangeEventCallback(items, event).Success?
    ensures ItemChangeEventCallback(ItemChangeEventCallback(items, event).value, event) ==
            ItemChangeEventCallback(items, event)
  {
    var once := ItemChangeEventCallback(items, event).value;
    var k := FirstWithId(items, event.args.id).value;
    assert FirstWithId(once, event.args.id) == Some(k) by {
      assert once[k].id == event.args.id;
      assert forall j :: 0 <= j < k ==> once[j].id != event.args.id;
      var k' := FirstWithId(once, event.args.id);
      assert k'.Some?;
    }
    assert once[k := once[k].(isVisible := event.args.showFlag)] == once;
  }

  // ---------------------------------------------------------------------------
  // From the visibility tracker to the navigation list
  // ---------------------------------------------------------------------------

  /**
    The callback depends on `dispatch`'s single-argument unwrapping: the
    dispatch the tracker makes for an entry reaches the registered component
    with `event.args` equal to the `{id, showFlag}` payload itself, which is what
    `ItemChangeEventCallback` reads.
  */
  lemma VisibilityReachesNavigation(bus: Registry, self: Owner, callback: CallbackId, e: Entry)
    ensures Classify(e).eventType == CHANGE_ITEM
    ensures exists inv :: inv in Dispatch(Register(bus, self, callback), CHANGE_ITEM, Classify(e).args)
              && inv.callback == callback && inv.context == Ref(self)
              && inv.event == Event(CHANGE_ITEM, Payload(e.targetId, e.isIntersecting))
  {
    var bus' := Register(bus, self, callback);
    var args := Classify(e).args;
    assert args == [Payload(e.targetId, e.isIntersecting)];
    RegisteredIsDelivered(bus', CHANGE_ITEM, args, callback, Ref(self));
  }
}
