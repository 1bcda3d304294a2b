/** Aggregates: single-writer state machines. A command is looked up by
    type, its payload validated, and its handler run on the current state.
    The handler's events are stamped with time and origin and folded, one
    at a time, through their reducers. The final state is written to
    storage once. */
module Aggregate {
  import opened Wrappers

  /** A schema check (`safeParse`): the accepted, possibly normalised,
      value or the issue found. */
  type Schema<!T, E> = T -> Result<T, E>

  /** An event as a command handler returns it. */
  datatype EventInput<P> = EventInput(eventType: string, payload: P)

  /** An event as it is returned, stored and delivered: the input stamped
      with the time and the aggregate it came from. */
  datatype Event<P> = Event(eventType: string, payload: P, timestamp: int, aggregate: string, aggregateId: string)

  /** A handler returns one event or an array of them. */
  datatype HandlerOutput<P> = One(input: EventInput<P>) | Many(inputs: seq<EventInput<P>>)

  /** An event definition: the payload schema and the reducer, which takes
      the payload, the state and the event's timestamp. */
  datatype EventDef<!S, !P, E> = EventDef(schema: Schema<P, E>, reducer: (P, S, int) -> S)

  /** A command definition: the payload schema and the handler, which sees
      the state (absent before the first event) and throws `E` to reject. */
  datatype CommandDef<!S, !P, E> = CommandDef(schema: Schema<P, E>, handler: (P, Option<S>) -> Result<HandlerOutput<P>, E>)

  /** What `aggregate({name, state, events, commands})` is built from.
      `placeholder` is the empty object `{}` a reducer is given in place of
      an absent state. */
  datatype Definition<!S, !P, E> = Definition(
    name: string,
    stateSchema: Schema<S, E>,
    events: map<string, EventDef<S, P, E>>,
    commands: map<string, CommandDef<S, P, E>>,
    placeholder: S)

  /** Why `execute` throws. */
  datatype ExecError<E> =
    | CommandNotFound(command: string)
    | InvalidPayload(issue: E)
    | Rejected(reason: E)
    | InvalidState(issue: E)

  // ---------------------------------------------------------------------------
  // Builders: `aggregate.state`, `aggregate.events`, `aggregate.commands`

  /** `aggregate.state(schema)` returns the schema it is given. */
  function DefineState<S, E>(schema: Schema<S, E>): Schema<S, E>
  {
    schema
  }

  /** `aggregate.events(state, factory)` runs the factory with the identity
      as its `define`. */
  function DefineEvents<S, P, E>(
    state: Schema<S, E>,
    factory: (EventDef<S, P, E> -> EventDef<S, P, E>) -> map<string, EventDef<S, P, E>>)
    : map<string, EventDef<S, P, E>>
  {
    factory(d => d)
  }

  /** `aggregate.commands(state, events, factory)`, likewise. */
  function DefineCommands<S, P, E>(
    state: Schema<S, E>,
    events: map<string, EventDef<S, P, E>>,
    factory: (CommandDef<S, P, E> -> CommandDef<S, P, E>) -> map<string, CommandDef<S, P, E>>)
    : map<string, CommandDef<S, P, E>>
  {
    factory(d => d)
  }

  /** The builders change nothing: the state schema is passed through, and
      defining a table through `define` gives back the table itself. */
  lemma DefineIsIdentity<S, P, E>(
    state: Schema<S, E>, events: map<string, EventDef<S, P, E>>, commands: map<string, CommandDef<S, P, E>>)
    ensures DefineState(state) == state
    ensures DefineEvents(state, (define: EventDef<S, P, E> -> EventDef<S, P, E>) => map k | k in events :: define(events[k])) == events
    ensures DefineCommands(state, events, (define: CommandDef<S, P, E> -> CommandDef<S, P, E>) => map k | k in commands :: define(commands[k])) == commands
  {
  }

  // ---------------------------------------------------------------------------
  // The specification of `execute`

  /** An array is used as it is; a single event becomes a one-element list. */
  function AsList<P>(output: HandlerOutput<P>): seq<EventInput<P>>
  {
    match output
    case One(input) => [input]
    case Many(inputs) => inputs
  }

  /** `eventInputs.map(...)`: each input gets the clock's reading for its
      position, the aggregate's name and its id. */
  function Stamp<P>(inputs: seq<EventInput<P>>, name: string, id: string, clock: nat -> int): (events: seq<Event<P>>)
    ensures |events| == |inputs|
    ensures forall i | 0 <= i < |inputs| ::
      && events[i].eventType == inputs[i].eventType
      && events[i].payload == inputs[i].payload
      && events[i].timestamp == clock(i)
      && events[i].aggregate == name
      && events[i].aggregateId == id
  {
    seq(|inputs|, i requires 0 <= i < |inputs| => Event(inputs[i].eventType, inputs[i].payload, clock(i), name, id))
  }

  /** One step of the loop: an event without a definition is skipped;
      otherwise its reducer runs on the state, or on the placeholder when
      there is none, and the result must pass the state schema. */
  function Apply<S, P, E>(def: Definition<S, P, E>, state: Option<S>, event: Event<P>): Result<Option<S>, E>
  {
    if event.eventType !in def.events then Success(state)
    else
      var prior := if state.Some? then state.value else def.placeholder;
      var next := def.events[event.eventType].reducer(event.payload, prior, event.timestamp);
      match def.stateSchema(next)
      case Success(valid) => Success(Some(valid))
      case Failure(issue) => Failure(issue)
  }

  /** Where the loop stands: the state so far and, once the state schema
      has rejected a reduced state, the issue. */
  datatype Folded<S, E> = Folded(state: Option<S>, issue: Option<E>)

  /** The fold of `Apply` over the events, stopping at the first rejected
      state and keeping the state reached before it. */
  function Reduce<S, P, E>(def: Definition<S, P, E>, state: Option<S>, events: seq<Event<P>>): Folded<S, E>
    decreases |events|
  {
    if |events| == 0 then Folded(state, None)
    else
      var before := Reduce(def, state, events[..|events| - 1]);
      if before.issue.Some? then before
      else
        match Apply(def, before.state, events[|events| - 1])
        case Success(next) => Folded(next, None)
        case Failure(issue) => Folded(before.state, Some(issue))
  }

  /** The result of one `execute`: what it returns or throws, the state it
      leaves in memory and whether it writes that state to storage. */
  datatype Outcome<S, P, E> = Outcome(result: Result<seq<Event<P>>, ExecError<E>>, state: Option<S>, written: bool)

  /** `execute(type, payload)` on an aggregate with the given state; the
      clock gives the reading taken for each event. */
  function Run<S, P, E>(def: Definition<S, P, E>, id: string, state: Option<S>, commandType: string, payload: P, clock: nat -> int)
    : Outcome<S, P, E>
  {
    if commandType !in def.commands then Outcome(Failure(CommandNotFound(commandType)), state, false)
    else
      var command := def.commands[commandType];
      match command.schema(payload)
      case Failure(issue) => Outcome(Failure(InvalidPayload(issue)), state, false)
      case Success(data) =>
        match command.handler(data, state)
        case Failure(reason) => Outcome(Failure(Rejected(reason)), state, false)
        case Success(output) =>
          var events := Stamp(AsList(output), def.name, id, clock);
          var folded := Reduce(def, state, events);
          if folded.issue.Some? then Outcome(Failure(InvalidState(folded.issue.value)), folded.state, false)
          else Outcome(Success(events), folded.state, true)
  }

  // ---------------------------------------------------------------------------
  // Properties of the specification

  /** Folding a concatenation folds the first part, then the second from
      where the first stopped. */
  lemma {:induction false} ReduceAppend<S, P, E>(def: Definition<S, P, E>, state: Option<S>, a: seq<Event<P>>, b: seq<Event<P>>)
    ensures Reduce(def, state, a + b) ==
      var first := Reduce(def, state, a);
      if first.issue.Some? then first else Reduce(def, first.state, b)
    decreases |b|
  {
    if |b| > 0 {
      var b' := b[..|b| - 1];
      assert (a + b)[..|a + b| - 1] == a + b';
      assert (a + b)[|a + b| - 1] == b[|b| - 1];
      ReduceAppend(def, state, a, b');
    } else {
      assert a + b == a;
    }
  }

  /** Once the state schema has rejected a state, the rest of the batch is
      not looked at. */
  lemma {:induction false} ReduceStops<S, P, E>(def: Definition<S, P, E>, state: Option<S>, events: seq<Event<P>>, j: nat)
    requires j <= |events| && Reduce(def, state, events[..j]).issue.Some?
    ensures Reduce(def, state, events) == Reduce(def, state, events[..j])
  {
    ReduceAppend(def, state, events[..j], events[j..]);
    assert events[..j] + events[j..] == events;
  }

  /** One more event, from a point the fold has reached without an issue,
      is one more `Apply`. */
  lemma ReduceNext<S, P, E>(def: Definition<S, P, E>, state: Option<S>, events: seq<Event<P>>, i: nat, current: Option<S>)
    requires i < |events| && Reduce(def, state, events[..i]) == Folded(current, None)
    ensures Reduce(def, state, events[..i + 1]) ==
      match Apply(def, current, events[i])
      case Success(next) => Folded(next, None)
      case Failure(issue) => Folded(current, Some(issue))
  {
    assert events[..i + 1][..i] == events[..i];
  }

  /** The events a definition knows, in order. */
  function Known<S, P, E>(def: Definition<S, P, E>, events: seq<Event<P>>): (known: seq<Event<P>>)
    ensures |known| <= |events|
    ensures forall i | 0 <= i < |known| :: known[i].eventType in def.events
    decreases |events|
  {
    if |events| == 0 then []
    else if events[|events| - 1].eventType in def.events then Known(def, events[..|events| - 1]) + [events[|events| - 1]]
    else Known(def, events[..|events| - 1])
  }

  /** Events without a definition leave no trace: folding the batch is
      folding only the known events. */
  lemma {:induction false} ReduceSkipsUnknown<S, P, E>(def: Definition<S, P, E>, state: Option<S>, events: seq<Event<P>>)
    ensures Reduce(def, state, events) == Reduce(def, state, Known(def, events))
    decreases |events|
  {
    if |events| > 0 {
      var init, last := events[..|events| - 1], events[|events| - 1];
      ReduceSkipsUnknown(def, state, init);
      if last.eventType in def.events {
        var k := Known(def, init) + [last];
        assert k[..|k| - 1] == Known(def, init);
      }
    }
  }

  /** A batch of events none of which is defined changes nothing. */
  lemma UnknownEventsKeepState<S, P, E>(def: Definition<S, P, E>, state: Option<S>, events: seq<Event<P>>)
    requires forall i | 0 <= i < |events| :: events[i].eventType !in def.events
    ensures Reduce(def, state, events) == Folded(state, None)
  {
    ReduceSkipsUnknown(def, state, events);
    if |Known(def, events)| > 0 {
      KnownFrom(def, events, 0);
      assert false;
    }
  }

  /** Every known event is one of the batch's events. */
  lemma {:induction false} KnownFrom<S, P, E>(def: Definition<S, P, E>, events: seq<Event<P>>, i: nat)
    requires i < |Known(def, events)|
    ensures exists j | 0 <= j < |events| :: events[j] == Known(def, events)[i]
    decreases |events|
  {
    var init, last := events[..|events| - 1], events[|events| - 1];
    if last.eventType in def.events && i == |Known(def, init)| {
      assert events[|events| - 1] == Known(def, events)[i];
    } else {
      KnownFrom(def, init, i);
      var j :| 0 <= j < |init| && init[j] == Known(def, init)[i];
      assert events[j] == Known(def, events)[i];
    }
  }

  /** An unknown command throws before anything else happens. */
  lemma UnknownCommand<S, P, E>(def: Definition<S, P, E>, id: string, state: Option<S>, commandType: string, payload: P, clock: nat -> int)
    requires commandType !in def.commands
    ensures Run(def, id, state, commandType, payload, clock) == Outcome(Failure(CommandNotFound(commandType)), state, false)
  {
  }

  /** A payload the command schema rejects throws the schema's issue; the
      state is untouched and nothing is written, whatever the handler. */
  lemma InvalidPayloadSkipsHandler<S, P, E>(
    def: Definition<S, P, E>, id: string, state: Option<S>, commandType: string, payload: P, clock: nat -> int,
    handler: (P, Option<S>) -> Result<HandlerOutput<P>, E>)
    requires commandType in def.commands && def.commands[commandType].schema(payload).Failure?
    ensures var other := def.(commands := def.commands[commandType := def.commands[commandType].(handler := handler)]);
      && Run(def, id, state, commandType, payload, clock) ==
         Outcome(Failure(InvalidPayload(def.commands[commandType].schema(payload).error)), state, false)
      && Run(other, id, state, commandType, payload, clock) == Run(def, id, state, commandType, payload, clock)
  {
  }

  /** A rejecting handler rethrows; the state is untouched and nothing is
      written. */
  lemma HandlerRejects<S, P, E>(def: Definition<S, P, E>, id: string, state: Option<S>, commandType: string, payload: P, clock: nat -> int)
    requires commandType in def.commands && def.commands[commandType].schema(payload).Success?
    requires def.commands[commandType].handler(def.commands[commandType].schema(payload).value, state).Failure?
    ensures Run(def, id, state, commandType, payload, clock) ==
      Outcome(Failure(Rejected(def.commands[commandType].handler(def.commands[commandType].schema(payload).value, state).error)), state, false)
  {
  }

  /** On success `execute` returns one stamped event per handler output, in
      order, and writes exactly the fold of the batch over the prior state;
      on a rejected state nothing is written but the state keeps what the
      batch reached before the rejection. */
  lemma HandledCommand<S, P, E>(def: Definition<S, P, E>, id: string, state: Option<S>, commandType: string, payload: P, clock: nat -> int)
    requires commandType in def.commands && def.commands[commandType].schema(payload).Success?
    requires def.commands[commandType].handler(def.commands[commandType].schema(payload).value, state).Success?
    ensures var output := def.commands[commandType].handler(def.commands[commandType].schema(payload).value, state).value;
      var inputs := AsList(output);
      var events := Stamp(inputs, def.name, id, clock);
      var folded := Reduce(def, state, Known(def, events));
      && |events| == |inputs|
      && (forall i | 0 <= i < |inputs| :: events[i] == Event(inputs[i].eventType, inputs[i].payload, clock(i), def.name, id))
      && Run(def, id, state, commandType, payload, clock) ==
           if folded.issue.None? then Outcome(Success(events), folded.state, true)
           else Outcome(Failure(InvalidState(folded.issue.value)), folded.state, false)
  {
    var output := def.commands[commandType].handler(def.commands[commandType].schema(payload).value, state).value;
    ReduceSkipsUnknown(def, state, Stamp(AsList(output), def.name, id, clock));
  }

  /** A command whose handler yields one event runs as one step of the
      loop over that event, stamped with the first clock reading. */
  lemma RunSingle<S, P, E>(def: Definition<S, P, E>, id: string, state: Option<S>, commandType: string, payload: P,
                           clock: nat -> int, input: EventInput<P>)
    requires commandType in def.commands && def.commands[commandType].schema(payload).Success?
    requires def.commands[commandType].handler(def.commands[commandType].schema(payload).value, state) == Success(One(input))
    ensures var event := Event(input.eventType, input.payload, clock(0), def.name, id);
      Run(def, id, state, commandType, payload, clock) ==
        match Apply(def, state, event)
        case Success(next) => Outcome(Success([event]), next, true)
        case Failure(issue) => Outcome(Failure(InvalidState(issue)), state, false)
  {
    var event := Event(input.eventType, input.payload, clock(0), def.name, id);
    SingleEvent(input, def.name, id, clock);
    ReduceSingle(def, state, event);
  }

  /** A one-event batch is one step of the loop. */
  lemma ReduceSingle<S, P, E>(def: Definition<S, P, E>, state: Option<S>, event: Event<P>)
    ensures Reduce(def, state, [event]) ==
      match Apply(def, state, event)
      case Success(next) => Folded(next, None)
      case Failure(issue) => Folded(state, Some(issue))
  {
    assert [event][..0] == [];
  }

  /** A single event from a handler is a one-event batch. */
  lemma SingleEvent<P>(input: EventInput<P>, name: string, id: string, clock: nat -> int)
    ensures Stamp(AsList(One(input)), name, id, clock) == [Event(input.eventType, input.payload, clock(0), name, id)]
  {
  }

  // ---------------------------------------------------------------------------
  // The aggregate actor

  /** One aggregate instance: its definition, its id, the state held in
      memory, the state in its storage and how many times storage was
      written. */
  class AggregateActor<S, P, E> {
    const def: Definition<S, P, E>
    const id: string
    var state: Option<S>
    var stored: Option<S>
    var writes: nat

    /** Loads the stored state; nothing stored means no state. */
    constructor(def: Definition<S, P, E>, id: string, storage: Option<S>)
      ensures this.def == def && this.id == id
      ensures state == storage && stored == storage && writes == 0
    {
      this.def := def;
      this.id := id;
      state := storage;
      stored := storage;
      writes := 0;
    }

    /** `execute(commandType, payload)`, reading the clock once per event. */
    method Execute(commandType: string, payload: P, clock: nat -> int) returns (r: Result<seq<Event<P>>, ExecError<E>>)
      modifies this
      ensures var o := Run(def, id, old(state), commandType, payload, clock);
        && r == o.result
        && state == o.state
        && (o.written ==> stored == o.state && writes == old(writes) + 1)
        && (!o.written ==> stored == old(stored) && writes == old(writes))
    {
      if commandType !in def.commands {
        return Failure(CommandNotFound(commandType));
      }
      var command := def.commands[commandType];
      var validation := command.schema(payload);
      if validation.Failure? {
        return Failure(InvalidPayload(validation.error));
      }
      var output := command.handler(validation.value, state);
      if output.Failure? {
        return Failure(Rejected(output.error));
      }
      var events := Stamp(AsList(output.value), def.name, id, clock);
      var issue := ReduceEvents(events);
      if issue.Some? {
        return Failure(InvalidState(issue.value));
      }
      stored := state;
      writes := writes + 1;
      return Success(events);
    }

    /** The loop of `execute`: each event with a definition is reduced into
        the state in memory and the result checked against the state
        schema; the first rejected state ends the loop, and nothing is
        stored. */
    method ReduceEvents(events: seq<Event<P>>) returns (issue: Option<E>)
      modifies this
      ensures Reduce(def, old(state), events) == Folded(state, issue)
      ensures stored == old(stored) && writes == old(writes)
    {
      var i := 0;
      while i < |events|
        invariant 0 <= i <= |events|
        invariant Reduce(def, old(state), events[..i]) == Folded(state, None)
        invariant stored == old(stored) && writes == old(writes)
      {
        var event := events[i];
        ReduceNext(def, old(state), events, i, state);
        if event.eventType !in def.events {
          i := i + 1;
          continue;
        }
        var eventDef := def.events[event.eventType];
        var nextState := eventDef.reducer(event.payload, if state.Some? then state.value else def.placeholder, event.timestamp);
        var checked := def.stateSchema(nextState);
        if checked.Failure? {
          ReduceStops(def, old(state), events, i + 1);
          return Some(checked.error);
        }
        state := Some(checked.value);
        i := i + 1;
      }
      assert events[..|events|] == events;
      return None;
    }
  }
}
