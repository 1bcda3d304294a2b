/** Processes: reactions to the system's events that cause side effects.
    A process class is built from the environment: the bindings are derived
    once, the side effects from the bindings, and the event handlers from
    both. A process offers no methods to readers. */
module Processes {
  import opened Wrappers
  import opened Aggregate
  import opened Routing

  /** What `process(aggregates, bindingsProvider, opts)` is given. */
  datatype ProcessDef<!Env, !B, !W, !P, F, !Fx> = ProcessDef(
    name: string,
    bindingsProvider: Env -> B,
    effects: B -> Fx,
    eventHandlers: (Fx, B) -> Handlers<W, P, F>)

  /** The handlers an instance built from `env` routes events to. */
  function InstanceHandlers<Env, B, W, P, F, Fx>(def: ProcessDef<Env, B, W, P, F, Fx>, env: Env): Handlers<W, P, F>
  {
    var bindings := def.bindingsProvider(env);
    def.eventHandlers(def.effects(bindings), bindings)
  }

  class Process<Env, B, W, P, F, Fx> {
    const env: Env
    const eventHandlers: Handlers<W, P, F>
    const effects: Fx

    /** `new Process(env)`: bindings from `env`, the side effects from the
        bindings, then the handlers from those effects and bindings. */
    constructor(def: ProcessDef<Env, B, W, P, F, Fx>, env: Env)
      ensures this.env == env
      ensures effects == def.effects(def.bindingsProvider(env))
      ensures eventHandlers == def.eventHandlers(effects, def.bindingsProvider(env))
      ensures eventHandlers == InstanceHandlers(def, env)
    {
      var bindings := def.bindingsProvider(env);
      var fx := def.effects(bindings);
      this.env := env;
      effects := fx;
      eventHandlers := def.eventHandlers(fx, bindings);
    }

    /** `onEvent`: runs the handler for the event's type, if there is one. */
    method OnEvent(world: W, event: Event<P>) returns (r: Result<W, F>)
      ensures r == Route(eventHandlers, world, event)
      ensures event.eventType !in eventHandlers ==> r == Success(world)
    {
      if event.eventType in eventHandlers {
        var handler := eventHandlers[event.eventType];
        r := handler(world, event);
      } else {
        r := Success(world);
      }
    }

    /** `queue(batch)`: awaits `onEvent` for each message body in batch
        order; the first handler that throws ends the batch. */
    method Queue(world: W, batch: seq<Message<P>>) returns (d: Delivery<W, F>)
      ensures d == DeliverAll(eventHandlers, world, Bodies(batch))
      ensures d.failure.None? ==> d.delivered == |batch|
    {
      var events := Bodies(batch);
      var current := world;
      var i := 0;
      while i < |batch|
        invariant 0 <= i <= |batch|
        invariant DeliverAll(eventHandlers, world, events[..i]) == Delivery(current, i, None)
      {
        var r := OnEvent(current, batch[i].body);
        DeliverNext(eventHandlers, world, events, i);
        if r.Failure? {
          DeliverStops(eventHandlers, world, events, i + 1);
          d := Delivery(current, i + 1, Some(r.error));
          assert events[..|events|] == events;
          return;
        }
        current := r.value;
        i := i + 1;
      }
      assert events[..i] == events;
      d := Delivery(current, i, None);
    }
  }
}
