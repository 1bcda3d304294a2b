/** How projections and processes react to events: `onEvent` looks the
    event's type up in a table of handlers and runs the handler it finds,
    and a batch is handed over one event at a time, in order. A handler
    acts on the outside world `W` the model writes to (its database), and
    may throw `F`. */
module Routing {
  import opened Wrappers
  import opened Aggregate

  type Handler<!W, !P, F> = (W, Event<P>) -> Result<W, F>

  /** The handlers a model defines, by event type; a type may have none. */
  type Handlers<!W, !P, F> = map<string, Handler<W, P, F>>

  /** `onEvent(event)`: the handler registered for the event's type runs on
      the event; without one nothing happens. */
  function Route<W, P, F>(handlers: Handlers<W, P, F>, world: W, event: Event<P>): (r: Result<W, F>)
    ensures event.eventType !in handlers ==> r == Success(world)
    ensures event.eventType in handlers ==> r == handlers[event.eventType](world, event)
  {
    if event.eventType in handlers then handlers[event.eventType](world, event) else Success(world)
  }

  /** Where a sequence of deliveries stands: the world so far, how many
      events have been handed to `onEvent`, and the error that stopped it. */
  datatype Delivery<W, F> = Delivery(world: W, delivered: nat, failure: Option<F>)

  /** Awaiting `onEvent` for each event in turn: an error stops the
      sequence, after the failing event was handed over. */
  function DeliverAll<W, P, F>(handlers: Handlers<W, P, F>, world: W, events: seq<Event<P>>): (d: Delivery<W, F>)
    ensures d.delivered <= |events|
    ensures d.failure.None? ==> d.delivered == |events|
    ensures d.failure.Some? ==> d.delivered > 0
    decreases |events|
  {
    if |events| == 0 then Delivery(world, 0, None)
    else
      var before := DeliverAll(handlers, world, events[..|events| - 1]);
      if before.failure.Some? then before
      else
        match Route(handlers, before.world, events[|events| - 1])
        case Success(next) => Delivery(next, |events|, None)
        case Failure(f) => Delivery(before.world, |events|, Some(f))
  }

  /** A failed delivery stopped at the first event whose handler threw: the
      events before it were all delivered, and the world is what they made
      it. */
  lemma {:induction false} DeliverFailed<W, P, F>(handlers: Handlers<W, P, F>, world: W, events: seq<Event<P>>)
    requires DeliverAll(handlers, world, events).failure.Some?
    ensures var d := DeliverAll(handlers, world, events);
      && DeliverAll(handlers, world, events[..d.delivered - 1]).failure.None?
      && d.world == DeliverAll(handlers, world, events[..d.delivered - 1]).world
      && Route(handlers, d.world, events[d.delivered - 1]) == Failure(d.failure.value)
    decreases |events|
  {
    var init := events[..|events| - 1];
    var before := DeliverAll(handlers, world, init);
    if before.failure.Some? {
      DeliverFailed(handlers, world, init);
      assert init[..before.delivered - 1] == events[..before.delivered - 1];
    }
  }

  /** One more event: delivered from where the shorter prefix left off,
      unless that prefix already failed. */
  lemma DeliverNext<W, P, F>(handlers: Handlers<W, P, F>, world: W, events: seq<Event<P>>, i: nat)
    requires i < |events|
    ensures var before := DeliverAll(handlers, world, events[..i]);
      DeliverAll(handlers, world, events[..i + 1]) ==
        if before.failure.Some? then before
        else match Route(handlers, before.world, events[i])
          case Success(next) => Delivery(next, i + 1, None)
          case Failure(f) => Delivery(before.world, i + 1, Some(f))
  {
    assert events[..i + 1][..i] == events[..i];
  }

  /** Once a delivery has failed, the later events are never handed over. */
  lemma {:induction false} DeliverStops<W, P, F>(handlers: Handlers<W, P, F>, world: W, events: seq<Event<P>>, j: nat)
    requires j <= |events| && DeliverAll(handlers, world, events[..j]).failure.Some?
    ensures DeliverAll(handlers, world, events) == DeliverAll(handlers, world, events[..j])
    decreases |events|
  {
    if j < |events| {
      var init := events[..|events| - 1];
      assert init[..j] == events[..j];
      DeliverStops(handlers, world, init, j);
      assert events[..|events|] == events;
    } else {
      assert events[..j] == events;
    }
  }

  /** Events no handler is registered for change nothing, and every one of
      them is handed over. */
  lemma {:induction false} DeliverUnhandled<W, P, F>(handlers: Handlers<W, P, F>, world: W, events: seq<Event<P>>)
    requires forall i | 0 <= i < |events| :: events[i].eventType !in handlers
    ensures DeliverAll(handlers, world, events) == Delivery(world, |events|, None)
    decreases |events|
  {
    if |events| > 0 {
      DeliverUnhandled(handlers, world, events[..|events| - 1]);
    }
  }

  /** Delivering a concatenation delivers the first part, then the second
      from the world the first left. */
  lemma {:induction false} DeliverAppend<W, P, F>(handlers: Handlers<W, P, F>, world: W, a: seq<Event<P>>, b: seq<Event<P>>)
    requires DeliverAll(handlers, world, a).failure.None?
    ensures var rest := DeliverAll(handlers, DeliverAll(handlers, world, a).world, b);
      DeliverAll(handlers, world, a + b) == Delivery(rest.world, |a| + rest.delivered, rest.failure)
    decreases |b|
  {
    if |b| == 0 {
      assert a + b == a;
    } else {
      var b' := b[..|b| - 1];
      assert (a + b)[..|a + b| - 1] == a + b';
      assert (a + b)[|a + b| - 1] == b[|b| - 1];
      DeliverAppend(handlers, world, a, b');
    }
  }

  /** A queue message; only its body, the event, is used. */
  datatype Message<P> = Message(body: Event<P>)

  function Bodies<P>(batch: seq<Message<P>>): (events: seq<Event<P>>)
    ensures |events| == |batch|
    ensures forall i | 0 <= i < |batch| :: events[i] == batch[i].body
  {
    seq(|batch|, i requires 0 <= i < |batch| => batch[i].body)
  }
}
