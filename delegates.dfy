/**
 * The character's `OnAwesomenessChanged` event: a multicast delegate with one
 * level parameter. Listeners are known by the ids of the handles that `Add`
 * returned; every broadcast is appended to a log together with the listeners
 * it reached.
 */
module Delegates {
  import opened Awesomeness

  /** `FDelegateHandle`: either reset (not bound to anything) or naming one listener. */
  datatype DelegateHandle = Unbound | Bound(id: nat)

  /** One broadcast of the event: the level it carried and the listeners it reached. */
  datatype Notification = Notification(level: AwesomenessLevel, receivers: seq<nat>)

  /** The listener list with every occurrence of `id` taken out and the rest left in order. */
  function Without(listeners: seq<nat>, id: nat): (rest: seq<nat>)
    ensures forall other :: other in rest <==> other in listeners && other != id
    ensures id !in listeners ==> rest == listeners
    ensures |rest| <= |listeners|
  {
    if listeners == [] then []
    else if listeners[0] == id then Without(listeners[1..], id)
    else [listeners[0]] + Without(listeners[1..], id)
  }

  /** `Without` of a single listener: it is dropped when it is the removed id and kept otherwise. */
  lemma WithoutSingle(listener: nat, id: nat)
    ensures Without([listener], id) == if listener == id then [] else [listener]
  {
  }

  /**
   * `Without` works piecewise: removing from a concatenation removes from each part
   * and keeps the parts in order. With `WithoutSingle` this fixes the result exactly:
   * the remaining listeners, each as often as before, in their original order.
   */
  lemma {:induction false} WithoutConcat(front: seq<nat>, back: seq<nat>, id: nat)
    ensures Without(front + back, id) == Without(front, id) + Without(back, id)
  {
    if front == [] {
      assert front + back == back;
    } else {
      assert (front + back)[0] == front[0];
      assert (front + back)[1..] == front[1..] + back;
      WithoutConcat(front[1..], back, id);
    }
  }

  /** Removing a handle: a bound handle takes its listener out, a reset one changes nothing. */
  function RemoveHandle(listeners: seq<nat>, handle: DelegateHandle): (rest: seq<nat>)
    ensures handle.Bound? ==> handle.id !in rest
    ensures handle.Unbound? ==> rest == listeners
    ensures forall other :: other in listeners && !(handle.Bound? && other == handle.id) ==> other in rest
    ensures forall other :: other in rest ==> other in listeners
    ensures |rest| <= |listeners|
  {
    if handle.Bound? then Without(listeners, handle.id) else listeners
  }

  /** Removing the same handle twice is the same as removing it once. */
  lemma RemoveHandleIdempotent(listeners: seq<nat>, handle: DelegateHandle)
    ensures RemoveHandle(RemoveHandle(listeners, handle), handle) == RemoveHandle(listeners, handle)
  {
  }

  class AwesomenessChangedEvent {
    /** Ids of the bound listeners; `Add` appends and `Remove` keeps the others in place. */
    var listeners: seq<nat>
    /** Every broadcast made so far, oldest first. */
    var broadcasts: seq<Notification>
    /** Id the next added listener receives. */
    var nextHandleId: nat

    /** Every bound id was handed out earlier, so a new id is never already bound. */
    ghost predicate Valid()
      reads this
    {
      forall id :: id in listeners ==> id < nextHandleId
    }

    constructor ()
      ensures Valid()
      ensures listeners == [] && broadcasts == []
    {
      listeners := [];
      broadcasts := [];
      nextHandleId := 0;
    }

    /** `AddUObject`: binds one more listener at the end of the list and returns its new handle. */
    method Add() returns (handle: DelegateHandle)
      requires Valid()
      modifies this
      ensures Valid()
      ensures handle.Bound? && handle.id !in old(listeners)
      ensures listeners == old(listeners) + [handle.id]
      ensures broadcasts == old(broadcasts)
    {
      handle := Bound(nextHandleId);
      listeners := listeners + [nextHandleId];
      nextHandleId := nextHandleId + 1;
    }

    /** `Remove`: unbinds the listener of a handle; a reset or unknown handle is ignored. */
    method Remove(handle: DelegateHandle)
      requires Valid()
      modifies this
      ensures Valid()
      ensures listeners == RemoveHandle(old(listeners), handle)
      ensures broadcasts == old(broadcasts) && nextHandleId == old(nextHandleId)
    {
      listeners := RemoveHandle(listeners, handle);
    }

    /** `Broadcast`: one call delivers the level to every bound listener. */
    method Broadcast(level: AwesomenessLevel)
      modifies this
      ensures broadcasts == old(broadcasts) + [Notification(level, listeners)]
      ensures listeners == old(listeners) && nextHandleId == old(nextHandleId)
    {
      broadcasts := broadcasts + [Notification(level, listeners)];
    }
  }
}
