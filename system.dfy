/** The system: resolves aggregates and projections by name, and runs a
    command synchronously. The events the aggregate returns go to the event
    store, if one is configured, and then to a fresh instance of every
    projection and process. */
module Systems {
  import opened Wrappers
  import opened Aggregate
  import opened Routing
  import opened Projections
  import opened Processes

  /** What the system code throws: an `Error` with its message, or the
      `TypeError` the runtime raises for a missing map entry. */
  datatype Thrown = Error(message: string) | TypeError

  /** The handle `_getAggregate` returns; only its id is read here. */
  datatype AggregateHandle = AggregateHandle(aggregateId: string)

  /** An entry of the aggregates map: a getter with a `_getAggregate`
      function, or anything else. */
  datatype AggregateEntry<!Env> = Getter(getAggregate: (Env, Option<string>) -> AggregateHandle) | Other

  /** A projection or a process class, as listed among the models. */
  datatype Model<!Env, !B, !W, !P, F, Mth, !Fx> =
    | ProjectionModel(projection: ProjectionDef<Env, B, W, P, F, Mth>)
    | ProcessModel(process: ProcessDef<Env, B, W, P, F, Fx>)

  /** What `system(opts)` is given; the projection and process factories
      list their entries in definition order. */
  datatype SystemDef<!Env, !B, !W, !P, F, Mth, !Fx> = SystemDef(
    aggregates: map<string, AggregateEntry<Env>>,
    projections: Option<Env -> seq<(string, ProjectionDef<Env, B, W, P, F, Mth>)>>,
    processes: Option<Env -> seq<(string, ProcessDef<Env, B, W, P, F, Fx>)>>,
    hasEventStore: bool)

  function InvalidSignature(name: string): string
  {
    "Invalid aggregate signature for '" + name + "'"
  }

  function MissingProjections(name: string): string
  {
    "Could not find projections for '" + name + "' from the system definition, ensure it's configured correctly"
  }

  /** The aggregate handle `getAggregate` resolves `name` to. */
  function ResolveAggregate<Env, B, W, P, F, Mth, Fx>(
    def: SystemDef<Env, B, W, P, F, Mth, Fx>, env: Env, name: string, aggregateId: Option<string>): (r: Result<AggregateHandle, Thrown>)
    ensures name !in def.aggregates ==> r == Failure(TypeError)
    ensures r.Success? <==> name in def.aggregates && def.aggregates[name].Getter?
    ensures r.Success? ==> r.value == def.aggregates[name].getAggregate(env, aggregateId)
    ensures name in def.aggregates && def.aggregates[name].Other? ==> r == Failure(Error(InvalidSignature(name)))
  {
    if name !in def.aggregates then Failure(TypeError)
    else match def.aggregates[name]
      case Getter(get) => Success(get(env, aggregateId))
      case Other => Failure(Error(InvalidSignature(name)))
  }

  function ProjectionModels<Env, B, W, P, F, Mth, Fx>(entries: seq<(string, ProjectionDef<Env, B, W, P, F, Mth>)>): (ms: seq<Model<Env, B, W, P, F, Mth, Fx>>)
    ensures |ms| == |entries|
    ensures forall i | 0 <= i < |entries| :: ms[i] == ProjectionModel(entries[i].1)
  {
    seq(|entries|, i requires 0 <= i < |entries| => ProjectionModel(entries[i].1))
  }

  function ProcessModels<Env, B, W, P, F, Mth, Fx>(entries: seq<(string, ProcessDef<Env, B, W, P, F, Fx>)>): (ms: seq<Model<Env, B, W, P, F, Mth, Fx>>)
    ensures |ms| == |entries|
    ensures forall i | 0 <= i < |entries| :: ms[i] == ProcessModel(entries[i].1)
  {
    seq(|entries|, i requires 0 <= i < |entries| => ProcessModel(entries[i].1))
  }

  /** The entries of the projections factory, none without one. */
  function ListedProjections<Env, B, W, P, F, Mth, Fx>(def: SystemDef<Env, B, W, P, F, Mth, Fx>, env: Env)
    : seq<(string, ProjectionDef<Env, B, W, P, F, Mth>)>
  {
    if def.projections.Some? then def.projections.value(env) else []
  }

  /** The entries of the processes factory, none without one. */
  function ListedProcesses<Env, B, W, P, F, Mth, Fx>(def: SystemDef<Env, B, W, P, F, Mth, Fx>, env: Env)
    : seq<(string, ProcessDef<Env, B, W, P, F, Fx>)>
  {
    if def.processes.Some? then def.processes.value(env) else []
  }

  /** The models of `getAggregate`: every projection, then every process,
      each in the order its factory lists them. */
  function Models<Env, B, W, P, F, Mth, Fx>(def: SystemDef<Env, B, W, P, F, Mth, Fx>, env: Env): (ms: seq<Model<Env, B, W, P, F, Mth, Fx>>)
    ensures |ms| == |ListedProjections(def, env)| + |ListedProcesses(def, env)|
    ensures forall i | 0 <= i < |ListedProjections(def, env)| ::
      ms[i] == ProjectionModel(ListedProjections(def, env)[i].1)
    ensures forall i | 0 <= i < |ListedProcesses(def, env)| ::
      ms[|ListedProjections(def, env)| + i] == ProcessModel(ListedProcesses(def, env)[i].1)
  {
    var ps := ProjectionModels(ListedProjections(def, env));
    var qs := ProcessModels(ListedProcesses(def, env));
    assert forall i | 0 <= i < |qs| :: (ps + qs)[|ps| + i] == qs[i];
    ps + qs
  }

  /** The handlers of an instance of `model` built from `env`. */
  function ModelHandlers<Env, B, W, P, F, Mth, Fx>(model: Model<Env, B, W, P, F, Mth, Fx>, env: Env): Handlers<W, P, F>
  {
    match model
    case ProjectionModel(d) => Projections.InstanceHandlers(d, env)
    case ProcessModel(d) => Processes.InstanceHandlers(d, env)
  }

  /** `new model(env)`: builds a fresh instance and yields the handlers its
      `onEvent` routes to. */
  method NewModel<Env, B, W, P, F, Mth, Fx>(model: Model<Env, B, W, P, F, Mth, Fx>, env: Env) returns (handlers: Handlers<W, P, F>)
    ensures handlers == ModelHandlers(model, env)
  {
    match model
    case ProjectionModel(d) =>
      var instance := new Projection(d, env);
      handlers := instance.eventHandlers;
    case ProcessModel(d) =>
      var instance := new Process(d, env);
      handlers := instance.eventHandlers;
  }

  /** The loop of `executeSync` over one model's instance: awaits
      `onEvent` for each event in turn, until a handler throws. */
  method DeliverEach<W, P, F>(handlers: Handlers<W, P, F>, world: W, events: seq<Event<P>>) returns (d: Delivery<W, F>)
    ensures d == DeliverAll(handlers, world, events)
  {
    var current := world;
    var i := 0;
    while i < |events|
      invariant 0 <= i <= |events|
      invariant DeliverAll(handlers, world, events[..i]) == Delivery(current, i, None)
    {
      var r := Route(handlers, current, events[i]);
      DeliverNext(handlers, world, events, i);
      if r.Failure? {
        DeliverStops(handlers, world, events, i + 1);
        assert events[..|events|] == events;
        return Delivery(current, i + 1, Some(r.error));
      }
      current := r.value;
      i := i + 1;
    }
    assert events[..i] == events;
    d := Delivery(current, i, None);
  }

  /** What delivering `events` to a fresh instance of each model does, model
      by model, each from its own world. */
  function Deliveries<Env, B, W, P, F, Mth, Fx>(
    models: seq<Model<Env, B, W, P, F, Mth, Fx>>, env: Env, worlds: seq<W>, events: seq<Event<P>>): (ds: seq<Delivery<W, F>>)
    requires |worlds| == |models|
    ensures |ds| == |models|
    ensures forall m | 0 <= m < |models| :: ds[m] == DeliverAll(ModelHandlers(models[m], env), worlds[m], events)
  {
    seq(|models|, m requires 0 <= m < |models| => DeliverAll(ModelHandlers(models[m], env), worlds[m], events))
  }

  /** The first model, in model order, whose delivery failed. */
  function FirstFailure<W, F>(ds: seq<Delivery<W, F>>): (r: Option<nat>)
    ensures r.None? <==> forall m | 0 <= m < |ds| :: ds[m].failure.None?
    ensures r.Some? ==> r.value < |ds| && ds[r.value].failure.Some?
    ensures r.Some? ==> forall m | 0 <= m < r.value :: ds[m].failure.None?
  {
    if |ds| == 0 then None
    else if ds[0].failure.Some? then Some(0)
    else match FirstFailure(ds[1..])
      case None => None
      case Some(m) => Some(m + 1)
  }

  /** Why `executeSync` rejected: the aggregate's command failed, or a
      model's handler threw. */
  datatype SyncError<X, F> = CommandFailed(cause: X) | ModelFailed(model: nat, thrown: F)

  /** One observable step of `executeSync`: an event appended to the store,
      or an event handed to a model's `onEvent`. */
  datatype Step<P> = Stored(event: Event<P>) | Delivered(model: nat, event: Event<P>)

  function StoredSteps<P>(events: seq<Event<P>>): (steps: seq<Step<P>>)
    ensures |steps| == |events|
    ensures forall i | 0 <= i < |events| :: steps[i] == Stored(events[i])
  {
    seq(|events|, i requires 0 <= i < |events| => Stored(events[i]))
  }

  function DeliveredSteps<P>(m: nat, events: seq<Event<P>>): (steps: seq<Step<P>>)
    ensures |steps| == |events|
    ensures forall i | 0 <= i < |events| :: steps[i] == Delivered(m, events[i])
  {
    seq(|events|, i requires 0 <= i < |events| => Delivered(m, events[i]))
  }

  /** The object `getAggregate` returns, with what its `executeSync` calls
      leave behind: the events appended to the store, and for each model
      its world, the events handed to it and the instances built. */
  class AggregateInterface<Env, B, W, P, F, Mth, Fx> {
    const env: Env
    const aggregateId: string
    const models: seq<Model<Env, B, W, P, F, Mth, Fx>>
    const hasEventStore: bool
    var eventLog: seq<Event<P>>
    var worlds: seq<W>
    var traces: seq<seq<Event<P>>>
    var built: seq<nat>
    var journal: seq<Step<P>>

    predicate Valid()
      reads this
    {
      |worlds| == |models| && |traces| == |models| && |built| == |models|
    }

    constructor(env: Env, aggregateId: string, models: seq<Model<Env, B, W, P, F, Mth, Fx>>, hasEventStore: bool, worlds: seq<W>)
      requires |worlds| == |models|
      ensures Valid()
      ensures this.env == env && this.aggregateId == aggregateId
      ensures this.models == models && this.hasEventStore == hasEventStore
      ensures this.worlds == worlds && eventLog == [] && journal == []
      ensures traces == seq(|models|, _ => []) && built == seq(|models|, _ => 0)
    {
      this.env := env;
      this.aggregateId := aggregateId;
      this.models := models;
      this.hasEventStore := hasEventStore;
      this.worlds := worlds;
      eventLog := [];
      traces := seq(|models|, _ => []);
      built := seq(|models|, _ => 0);
      journal := [];
    }

    /** One model's share of the fan-out, with what it leaves behind. */
    method Feed(m: nat, handlers: Handlers<W, P, F>, events: seq<Event<P>>) returns (d: Delivery<W, F>)
      requires Valid() && m < |models|
      modifies this
      ensures Valid()
      ensures d == DeliverAll(handlers, old(worlds)[m], events)
      ensures worlds == old(worlds)[m := d.world]
      ensures traces == old(traces)[m := old(traces)[m] + events[..d.delivered]]
      ensures journal == old(journal) + DeliveredSteps(m, events[..d.delivered])
      ensures eventLog == old(eventLog) && built == old(built)
    {
      d := DeliverEach(handlers, worlds[m], events);
      worlds := worlds[m := d.world];
      traces := traces[m := traces[m] + events[..d.delivered]];
      journal := journal + DeliveredSteps(m, events[..d.delivered]);
    }

    /** The event store loop: `addEvent` for each event, in order. */
    method AppendAll(events: seq<Event<P>>)
      requires Valid()
      modifies this
      ensures Valid()
      ensures eventLog == old(eventLog) + events
      ensures journal == old(journal) + StoredSteps(events)
      ensures worlds == old(worlds) && traces == old(traces) && built == old(built)
    {
      var i := 0;
      while i < |events|
        invariant 0 <= i <= |events|
        invariant eventLog == old(eventLog) + events[..i]
        invariant journal == old(journal) + StoredSteps(events[..i])
        invariant worlds == old(worlds) && traces == old(traces) && built == old(built)
      {
        assert events[..i + 1] == events[..i] + [events[i]];
        assert StoredSteps(events[..i + 1]) == StoredSteps(events[..i]) + [Stored(events[i])];
        eventLog := eventLog + [events[i]];
        journal := journal + [Stored(events[i])];
        i := i + 1;
      }
      assert events[..i] == events;
    }

    /** The fan-out: for every model, a fresh instance from `env` and the
        whole event list, each model from its own world. */
    method FanOut(events: seq<Event<P>>) returns (ds: seq<Delivery<W, F>>)
      requires Valid()
      modifies this
      ensures Valid()
      ensures ds == Deliveries(models, env, old(worlds), events)
      ensures eventLog == old(eventLog)
      ensures |journal| >= |old(journal)| && journal[..|old(journal)|] == old(journal)
      ensures forall i | |old(journal)| <= i < |journal| :: journal[i].Delivered?
      ensures forall m | 0 <= m < |models| ::
        && worlds[m] == ds[m].world
        && traces[m] == old(traces)[m] + events[..ds[m].delivered]
        && built[m] == old(built)[m] + 1
    {
      ds := [];
      var base := |journal|;
      var m := 0;
      while m < |models|
        invariant 0 <= m <= |models| && Valid()
        invariant |ds| == m
        invariant forall k | 0 <= k < m :: ds[k] == DeliverAll(ModelHandlers(models[k], env), old(worlds)[k], events)
        invariant eventLog == old(eventLog)
        invariant |journal| >= base && journal[..base] == old(journal)
        invariant forall i | base <= i < |journal| :: journal[i].Delivered?
        invariant forall k | 0 <= k < m ::
          && worlds[k] == ds[k].world
          && traces[k] == old(traces)[k] + events[..ds[k].delivered]
          && built[k] == old(built)[k] + 1
        invariant forall k | m <= k < |models| ::
          worlds[k] == old(worlds)[k] && traces[k] == old(traces)[k] && built[k] == old(built)[k]
      {
        var handlers := NewModel(models[m], env);
        built := built[m := built[m] + 1];
        ghost var before := journal;
        var d := Feed(m, handlers, events);
        assert journal[..base] == before[..base];
        ds := ds + [d];
        m := m + 1;
      }
      assert ds == Deliveries(models, env, old(worlds), events);
    }

    /** `executeSync`: `received` is what the aggregate handle's command
        call resolved to. Its events go to the store, in order, when there
        is one; then every model gets a fresh instance and every event, in
        order, until one of its handlers throws. The id comes back only
        when no handler threw. */
    method ExecuteSync<X>(received: Result<seq<Event<P>>, X>) returns (r: Result<string, SyncError<X, F>>)
      requires Valid()
      modifies this
      ensures Valid()
      ensures received.Failure? ==>
        && r == Failure(CommandFailed(received.error))
        && eventLog == old(eventLog) && worlds == old(worlds) && traces == old(traces)
        && built == old(built) && journal == old(journal)
      ensures received.Success? ==>
        var events := received.value;
        var stored := if hasEventStore then events else [];
        var ds := Deliveries(models, env, old(worlds), events);
        && eventLog == old(eventLog) + stored
        && (forall m | 0 <= m < |models| ::
              && worlds[m] == ds[m].world
              && traces[m] == old(traces)[m] + events[..ds[m].delivered]
              && built[m] == old(built)[m] + 1)
        && |journal| >= |old(journal)| + |stored|
        && journal[..|old(journal)| + |stored|] == old(journal) + StoredSteps(stored)
        && (forall i | |old(journal)| + |stored| <= i < |journal| :: journal[i].Delivered?)
        && r == (match FirstFailure(ds)
                 case None => Success(aggregateId)
                 case Some(m) => Failure(ModelFailed(m, ds[m].failure.value)))
        && (r.Success? ==> forall m | 0 <= m < |models| :: traces[m] == old(traces)[m] + events)
    {
      if received.Failure? {
        return Failure(CommandFailed(received.error));
      }
      var events := received.value;
      if hasEventStore {
        AppendAll(events);
      }
      var ds := FanOut(events);
      match FirstFailure(ds)
      case None =>
        assert events[..|events|] == events;
        r := Success(aggregateId);
      case Some(k) =>
        r := Failure(ModelFailed(k, ds[k].failure.value));
    }
  }

  /** `getAggregate(env, name, aggregateId)`: resolves the handle and lists
      the models; the worlds are where each model's handlers write. */
  method GetAggregate<Env, B, W, P, F, Mth, Fx>(
    def: SystemDef<Env, B, W, P, F, Mth, Fx>, env: Env, name: string, aggregateId: Option<string>, worlds: seq<W>)
    returns (r: Result<AggregateInterface<Env, B, W, P, F, Mth, Fx>, Thrown>)
    requires |worlds| == |Models(def, env)|
    ensures ResolveAggregate(def, env, name, aggregateId).Failure? ==>
      r == Failure(ResolveAggregate(def, env, name, aggregateId).error)
    ensures ResolveAggregate(def, env, name, aggregateId).Success? ==>
      && r.Success? && fresh(r.value) && r.value.Valid()
      && r.value.aggregateId == ResolveAggregate(def, env, name, aggregateId).value.aggregateId
      && r.value.models == Models(def, env) && r.value.hasEventStore == def.hasEventStore
      && r.value.env == env && r.value.worlds == worlds
      && r.value.eventLog == [] && r.value.journal == []
  {
    var handle :- ResolveAggregate(def, env, name, aggregateId);
    var o := new AggregateInterface(env, handle.aggregateId, Models(def, env), def.hasEventStore, worlds);
    r := Success(o);
  }

  /** The first projection entry registered under `name`. */
  function LookupProjection<Env, B, W, P, F, Mth>(entries: seq<(string, ProjectionDef<Env, B, W, P, F, Mth>)>, name: string)
    : (r: Option<ProjectionDef<Env, B, W, P, F, Mth>>)
    ensures r.None? <==> forall i | 0 <= i < |entries| :: entries[i].0 != name
    ensures r.Some? ==> exists i | 0 <= i < |entries| :: entries[i] == (name, r.value)
  {
    if |entries| == 0 then None
    else if entries[0].0 == name then Some(entries[0].1)
    else
      var r := LookupProjection(entries[1..], name);
      assert r.Some? ==> exists i | 0 <= i < |entries[1..]| :: entries[1..][i] == (name, r.value);
      assert forall i | 0 <= i < |entries[1..]| :: entries[1..][i] == entries[i + 1];
      r
  }

  /** `getProjection(env, name)`: the methods of a new instance of the
      named projection; without a projections factory it throws. */
  method GetProjection<Env, B, W, P, F, Mth, Fx>(def: SystemDef<Env, B, W, P, F, Mth, Fx>, env: Env, name: string) returns (r: Result<Mth, Thrown>)
    ensures def.projections.None? ==> r == Failure(Error(MissingProjections(name)))
    ensures def.projections.Some? ==>
      match LookupProjection(def.projections.value(env), name)
      case None => r == Failure(TypeError)
      case Some(p) => r == Success(p.methods(p.bindingsProvider(env)))
  {
    if def.projections.None? {
      return Failure(Error(MissingProjections(name)));
    }
    var entry := LookupProjection(def.projections.value(env), name);
    if entry.None? {
      return Failure(TypeError);
    }
    var instance := new Projection(entry.value, env);
    r := Success(instance.methods);
  }
}
