/** Projections: read models fed by the system's events. A projection class
    is built from the environment; its bindings are derived once, and both
    its event handlers and the methods it offers readers come from them. */
module Projections {
  import opened Wrappers
  import opened Aggregate
  import opened Routing

  /** What `projection(aggregates, bindingsProvider, opts)` is given. */
  datatype ProjectionDef<!Env, !B, !W, !P, F, Mth> = ProjectionDef(
    name: string,
    bindingsProvider: Env -> B,
    eventHandlers: B -> Handlers<W, P, F>,
    methods: B -> Mth)

  /** The handlers an instance built from `env` routes events to. */
  function InstanceHandlers<Env, B, W, P, F, Mth>(def: ProjectionDef<Env, B, W, P, F, Mth>, env: Env): Handlers<W, P, F>
  {
    def.eventHandlers(def.bindingsProvider(env))
  }

  class Projection<Env, B, W, P, F, Mth> {
    const env: Env
    const eventHandlers: Handlers<W, P, F>
    const methods: Mth

    /** `new Projection(env)`: the bindings are derived from `env`, then the
        handlers and the methods from those same bindings. */
    constructor(def: ProjectionDef<Env, B, W, P, F, Mth>, env: Env)
      ensures this.env == env
      ensures eventHandlers == InstanceHandlers(def, env)
      ensures methods == def.methods(def.bindingsProvider(env))
    {
      var bindings := def.bindingsProvider(env);
      this.env := env;
      eventHandlers := def.eventHandlers(bindings);
      methods := def.methods(bindings);
    }

    /** `onEvent`: runs the handler for the event's type, if there is one. */
    method OnEvent(world: W, event: Event<P>) returns (r: Result<W, F>)
      ensures r == Route(eventHandlers, world, event)
      ensures event.eventType !in eventHandlers ==> r == Success(world)
    {
      if event.eventType in eventHandlers {
        var handler := eventHandlers[event.eventType];
        r := handler(world, event);
      } else {
        r := Success(world);
      }
    }

    /** `queue(batch)`: awaits `onEvent` for each message body in batch
        order; the first handler that throws ends the batch. */
    method Queue(world: W, batch: seq<Message<P>>) returns (d: Delivery<W, F>)
      ensures d == DeliverAll(eventHandlers, world, Bodies(batch))
      ensures d.failure.None? ==> d.delivered == |batch|
    {
      var events := Bodies(batch);
      var current := world;
      var i := 0;
      while i < |batch|
        invariant 0 <= i <= |batch|
        invariant DeliverAll(eventHandlers, world, events[..i]) == Delivery(current, i, None)
      {
        var r := OnEvent(current, batch[i].body);
        DeliverNext(eventHandlers, world, events, i);
        if r.Failure? {
          DeliverStops(eventHandlers, world, events, i + 1);
          d := Delivery(current, i + 1, Some(r.error));
          assert events[..|events|] == events;
          return;
        }
        current := r.value;
        i := i + 1;
      }
      assert events[..i] == events;
      d := Delivery(current, i, None);
    }
  }
}
