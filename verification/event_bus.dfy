/**
 * The listener list of `TetrisGame` (`addEventListener` and `trigger`, identical in
 * static/app/tetris.jsx and static/tetris.jsx). A JavaScript handler is represented by an
 * identity; calling it with some data is a `Delivery`.
 */
module EventBus {

  /** A registered `{name, func}` entry. */
  datatype Listener = Listener(name: string, handler: nat)

  /** One call `handler.func(data)`. */
  datatype Delivery<D> = Delivery(handler: nat, data: D)

  /** `this.events`: the listeners in registration order. */
  type Bus = seq<Listener>

  /** `addEventListener`: append the listener; duplicates are kept. */
  function Subscribe(bus: Bus, name: string, handler: nat): (r: Bus)
    ensures |r| == |bus| + 1 && r[..|bus|] == bus && r[|bus|] == Listener(name, handler)
  {
    bus + [Listener(name, handler)]
  }

  /**
   * `trigger`: call every listener registered under `name` with `data`, in registration order
   * (`filter` then `forEach`).
   */
  function Trigger<D>(bus: Bus, name: string, data: D): (r: seq<Delivery<D>>)
    ensures |r| <= |bus|
    ensures forall k :: 0 <= k < |r| ==> r[k].data == data
  {
    if |bus| == 0 then []
    else
      var rest := Trigger(bus[1..], name, data);
      if bus[0].name == name then [Delivery(bus[0].handler, data)] + rest else rest
  }

  /** The handlers registered under `name`, in registration order: the filter step on its own. */
  function Handlers(bus: Bus, name: string): (r: seq<nat>)
    ensures |r| <= |bus|
  {
    if |bus| == 0 then []
    else (if bus[0].name == name then [bus[0].handler] else []) + Handlers(bus[1..], name)
  }

  /** `trigger` calls exactly the filtered handlers, one call each, in order, all with `data`. */
  lemma {:induction false} TriggerCallsHandlers<D>(bus: Bus, name: string, data: D)
    ensures |Trigger(bus, name, data)| == |Handlers(bus, name)|
    ensures forall k :: 0 <= k < |Handlers(bus, name)| ==>
              Trigger(bus, name, data)[k] == Delivery(Handlers(bus, name)[k], data)
  {
    if |bus| > 0 {
      TriggerCallsHandlers(bus[1..], name, data);
    }
  }

  /** Triggering on a concatenated list is triggering on each part in turn. */
  lemma {:induction false} TriggerAppend<D>(a: Bus, b: Bus, name: string, data: D)
    ensures Trigger(a + b, name, data) == Trigger(a, name, data) + Trigger(b, name, data)
  {
    if |a| == 0 {
      assert a + b == b;
    } else {
      assert (a + b)[1..] == a[1..] + b;
      TriggerAppend(a[1..], b, name, data);
    }
  }

  /**
   * A new listener is called last for its own name, and listeners for other names are not
   * affected by it.
   */
  lemma SubscribeThenTrigger<D>(bus: Bus, name: string, handler: nat, other: string, data: D)
    ensures Trigger(Subscribe(bus, name, handler), name, data) == Trigger(bus, name, data) + [Delivery(handler, data)]
    ensures other != name ==> Trigger(Subscribe(bus, name, handler), other, data) == Trigger(bus, other, data)
  {
    TriggerAppend(bus, [Listener(name, handler)], name, data);
    TriggerAppend(bus, [Listener(name, handler)], other, data);
  }

  /** A handler is called for `name` exactly when it was registered under `name`. */
  lemma {:induction false} CalledIffRegistered<D>(bus: Bus, name: string, handler: nat, data: D)
    ensures Delivery(handler, data) in Trigger(bus, name, data) <==> Listener(name, handler) in bus
  {
    if |bus| > 0 {
      CalledIffRegistered(bus[1..], name, handler, data);
      assert Listener(name, handler) in bus <==> bus[0] == Listener(name, handler) || Listener(name, handler) in bus[1..];
    }
  }
}
