# escf in Dafny

This is a model of escf, an event-sourcing framework for Cloudflare Workers, together with the core of its `basic-auth` example application.

**Aggregates.** An aggregate is a single-writer state machine that lives in a Durable Object:
- `execute(type, payload)` looks the command up and validates its payload;
- it runs the command's handler on the current state and stamps each event the handler returns;
- it folds the events, one at a time, through their reducers, checking every reduced state against the state schema;
- it writes the final state to storage once.

**The system.** The system resolves aggregates by name. `executeSync` first appends the aggregate's events to the event store, if there is one. It then hands every event, in order, to a fresh instance of every projection and every process. A projection or process routes each event to the handler registered for its type, and `queue` feeds a message batch through that routing in order. `getProjection` returns the reader methods of a new projection instance.

**Errors across the boundary.** A `RequestError` writes its fields into its message as JSON, so they survive the boundary. `castRpcError` and `isRpcError` recover them on the caller's side.

**The example application** contributes three parts:
- the user aggregate (create, update, authenticate, delete);
- its `Duration` helper;
- the session service, a projection over a users table and a sessions table.

## Modules

| file | module | what it holds |
|---|---|---|
| wrappers.dfy | `Wrappers` | `Option` and `Result` |
| json.dfy | `Json` | JSON values with properties in insertion order, property get/set, `Object.assign`, `JSON.stringify` and `JSON.parse`, with the round trip proved |
| text.dfy | `Text` | `indexOf` and `String.prototype.split` |
| rpc.dfy | `Rpc` | `RequestError`, `unmarshal`, `castRpcError`, `isRpcError` |
| duration.dfy | `Durations` | `Duration.milliseconds`, `isWithinDuration` |
| aggregate.dfy | `Aggregate` | the specification `Run` of `execute`, and the actor class `AggregateActor` |
| routing.dfy | `Routing` | handler tables, `onEvent` routing, ordered delivery of a sequence of events |
| projection.dfy | `Projections` | the projection definition and class (`onEvent`, `queue`) |
| process.dfy | `Processes` | the process definition and class (`onEvent`, `queue`) |
| system.dfy | `Systems` | `getAggregate`, `executeSync` (class `AggregateInterface`), `getProjection` |
| user.dfy | `User` | the example user aggregate: schemas, reducers, command handlers, lifecycle lemmas |
| sessions.dfy | `Sessions` | the example session service: event handlers on the tables, and the class `SessionService` with its methods |

## Design choices

- **Clock readings and random ids are parameters.** The clock reading for each event is `clock(i)`. The three readings inside `validateSession` are `now`, `nowWithin` and `nowRefresh`. The `nanoid()` session id is `sessionId`.
- **Schemas are functions to `Result`.** A zod schema is a function from a value to `Result` (the `safeParse` outcome). The email-format check of the user schema is the parameter `isEmail`.
- **A model's database is the world `W`.** The outside world a projection or process writes to is a value `W`. A handler is a function from the world and the event to a new world or a thrown error. `executeSync` gives each model its own world.
- **Integer time.** Times and durations are integers: whole milliseconds.
- **JSON values.** In the RPC module, JSON values are `null`, booleans, integers, strings and objects, and objects keep their properties in insertion order, which is JavaScript's order only for property names that are not integer-like (see "Left out"). In the user aggregate, objects are maps from property name to value, and a spread is map union. Key order is not observable there.
- **The stray line in `execute`.** src/aggregate.ts:145 holds a stray `);`. The model follows the evident reading: the loop body ends after the assignment at line 144.

## Model

| member | source | states |
|---|---|---|
| Aggregate.DefineIsIdentity | src/aggregate.ts:214-241 | `aggregate.state` passes its schema through, and defining event and command tables through the builders' `define` gives back the tables unchanged |
| Aggregate.Stamp | src/aggregate.ts:121-126 | one event per handler output in the same order, keeping type and payload, with the clock reading, the aggregate name and the id |
| Aggregate.SingleEvent | src/aggregate.ts:117-126 | a single returned event becomes a one-element list, stamped |
| Aggregate.ReduceSingle | src/aggregate.ts:128-144 | a one-event batch is one loop step: reducer on the state (or the `{}` placeholder), then the state schema |
| Aggregate.ReduceAppend | src/aggregate.ts:128-144 | folding a concatenation folds the first part, then the second from where the first stopped |
| Aggregate.ReduceStops | src/aggregate.ts:139-143 | once the state schema rejects a state, later events are never looked at |
| Aggregate.ReduceSkipsUnknown | src/aggregate.ts:129-130 | events without a definition leave no trace: the fold equals the fold of the known events only |
| Aggregate.UnknownEventsKeepState | src/aggregate.ts:129-130 | a batch of undefined events leaves the state unchanged, without error |
| Aggregate.UnknownCommand | src/aggregate.ts:107-108 | an unknown command throws "not found" with the state unchanged and nothing written |
| Aggregate.InvalidPayloadSkipsHandler | src/aggregate.ts:110-114 | a payload the schema rejects throws the schema's issue with the state unchanged and nothing written, whatever the handler is |
| Aggregate.HandlerRejects | src/aggregate.ts:116 | a handler that throws is rethrown with the state unchanged and nothing written |
| Aggregate.HandledCommand | src/aggregate.ts:116-149 | on success, the stamped events come back in order and the fold of the known events is written once; on a rejected state nothing is written, but the state keeps what earlier events reached |
| Aggregate.AggregateActor.constructor | src/aggregate.ts:97-100 | the in-memory state is the stored state, and absent when nothing is stored |
| Aggregate.AggregateActor.Execute | src/aggregate.ts:103-150 | the loop's result, in-memory state and storage write agree with the specification `Run`; storage is written once, only on success |
| Aggregate.AggregateActor.ReduceEvents | src/aggregate.ts:128-145 | the loop leaves the in-memory state and the first rejection exactly as the fold `Reduce` gives them, and touches no storage |
| Aggregate.ReduceNext | src/aggregate.ts:128-145 | one more event after an issue-free prefix is one more `Apply` on the state reached |
| Aggregate.RunSingle | src/aggregate.ts:103-150 | a command whose handler yields one event runs as a single `Apply` of that event, stamped with the first clock reading; success writes, a rejected state does not |
| Routing.Route | src/projection.ts:48-57 | the handler registered for the event's type runs on the event; without one nothing changes |
| Routing.DeliverAll | src/projection.ts:42-46 | no more events are counted than were given; without a handler error every event is delivered; a failure is counted against at least one event |
| Routing.DeliverFailed | src/projection.ts:42-46 | a failed delivery stopped at the first event whose handler threw: every earlier event was delivered without error, and the world is what they made it |
| Routing.DeliverNext | src/projection.ts:42-46 | delivering one more event after an error-free prefix routes exactly that event, counting it whether its handler succeeds or throws |
| Routing.DeliverStops | src/projection.ts:42-46 | after a failed delivery, later events are not handed over |
| Routing.DeliverUnhandled | src/projection.ts:52 | events no handler is registered for change nothing and are all handed over |
| Routing.DeliverAppend | src/projection.ts:43-45 | delivering a concatenation delivers the first part, then the second from the world it left |
| Routing.Bodies | src/projection.ts:43-44 | the events of a batch are the message bodies, in batch order |
| Projections.Projection.constructor | src/projection.ts:102-109 | bindings are computed once from `env`; both the handlers and the methods come from them |
| Projections.Projection.OnEvent | src/projection.ts:48-57 | `onEvent` is `Route` on the instance's handlers; an unhandled type is a no-op |
| Projections.Projection.Queue | src/projection.ts:42-46 | the loop delivers the batch exactly as `DeliverAll` over the bodies; without an error, every message is delivered |
| Processes.Process.constructor | src/process.ts:101-108 | effects are built from the bindings first, then handlers from those effects and the same bindings; the instance keeps `env`, handlers and effects only |
| Processes.Process.OnEvent | src/process.ts:54-63 | `onEvent` is `Route` on the instance's handlers; an unhandled type is a no-op |
| Processes.Process.Queue | src/process.ts:48-52 | the loop delivers the batch exactly as `DeliverAll` over the bodies |
| Systems.ResolveAggregate | src/system.ts:87-98 | an entry with a `_getAggregate` function yields its handle; any other entry throws "Invalid aggregate signature for '<name>'"; a missing one raises a TypeError |
| Systems.Models | src/system.ts:100-103 | the models are every projection, then every process, each in factory order; none for a missing factory |
| Systems.NewModel | src/system.ts:122 | a fresh instance from `env` routes with the handlers of that model's definition |
| Systems.DeliverEach | src/system.ts:123-125 | the loop over one instance delivers exactly as `DeliverAll` |
| Systems.Deliveries | src/system.ts:120-127 | every model receives the whole event list, each from its own world |
| Systems.FirstFailure | src/system.ts:120 | the first model, in model order, whose delivery failed; none exactly when all succeeded |
| Systems.AggregateInterface.constructor | src/system.ts:100-105 | the interface holds `env`, the id, the models and whether there is an event store; nothing stored or delivered yet |
| Systems.AggregateInterface.AppendAll | src/system.ts:112-118 | each event is appended to the store in order, and nothing else changes |
| Systems.AggregateInterface.Feed | src/system.ts:121-126 | one model's delivery: its world and trace advance by what was delivered; other models are untouched |
| Systems.AggregateInterface.FanOut | src/system.ts:120-127 | every model gets one fresh instance and its delivery of the full event list; the store is untouched |
| Systems.AggregateInterface.ExecuteSync | src/system.ts:107-129 | a failed command changes nothing; otherwise events are stored (only with a store) in order before any delivery, every model receives them in order, and the id is returned only when no handler threw |
| Systems.GetAggregate | src/system.ts:82-131 | a resolution error propagates; otherwise a new interface with the handle's id, all models and the store flag |
| Systems.LookupProjection | src/system.ts:142 | the projection registered under the name, and none exactly when no entry has it |
| Systems.GetProjection | src/system.ts:132-144 | without a projections factory, throws "Could not find projections for '<name>' …"; an unknown name raises a TypeError; otherwise the methods of a new instance |
| Json.Set | src/rpc.ts:4 | a property assignment: the key reads as the new value and other keys are unchanged; a new key goes last |
| Json.AssignGet | src/rpc.ts:11 | after `Object.assign`, a source key reads as in the source and every other key as in the target |
| Json.AssignWellFormed | src/rpc.ts:11 | `Object.assign` keeps property names distinct |
| Json.RoundTrip | src/rpc.ts:6-19 | `JSON.parse(JSON.stringify(v))` gives back `v` |
| Json.ParsedWellFormed | src/rpc.ts:19 | a parsed value has distinct property names |
| Json.SurrogatePair | src/rpc.ts:19 | `JSON.parse` reads the escapes `\ud83d\ude00` as the one character U+1F600 |
| Text.IndexOf | src/rpc.ts:17 | the first occurrence of the separator at or after a position, or none |
| Text.Split | src/rpc.ts:17-18 | `split` yields more than one piece exactly when the separator occurs |
| Text.SplitJoin | src/rpc.ts:17 | joining the pieces with the separator gives back the string |
| Text.SplitPieces | src/rpc.ts:17 | no piece contains the separator |
| Rpc.DefaultStatus | src/rpc.ts:4 | `status` is set only when it is absent or null; other properties are unchanged |
| Rpc.ArgumentObject | src/rpc.ts:2-5 | a string becomes `{message, status}`; an object keeps its own non-null status; anything else raises a TypeError |
| Rpc.NewRequestError | src/rpc.ts:1-8 | the message is the serialised argument, `name` is "RequestError", and `status` is the argument's status after defaulting (400) |
| Rpc.Unmarshal | src/rpc.ts:9-13 | `unmarshal` succeeds exactly on strings and objects |
| Rpc.UnmarshalFields | src/rpc.ts:9-13 | after `unmarshal`, each argument field reads as given; `message` and `name` are otherwise the serialised text and "RequestError" |
| Rpc.UnmarshalCarries | src/rpc.ts:9-13 | unmarshalling `{message, status}`, or a bare message, gives that message and status (400 by default) |
| Rpc.UnmarshalText | src/rpc.ts:19 | text that is not JSON raises a SyntaxError |
| Rpc.CastRpcErrorAsWritten | src/rpc.ts:16-22 | as written: the JSON text is the second `split` piece; an error whose message lacks the separator, or that has no own message and so reads the inherited `""`, is returned unchanged; a present non-string message raises a TypeError |
| Rpc.CastRpcError | src/rpc.ts:16-22 | corrected: the JSON text is everything after the first separator; an error without the separator or without an own message is returned unchanged; a present non-string message raises a TypeError |
| Rpc.CastRoundTrip | src/rpc.ts:1-22 | for `new RequestError(m, s)` thrown across the boundary, the corrected cast gives back message `m`, status `s` and the name |
| Rpc.CastAgreement | src/rpc.ts:17-19 | the two casts agree when the separator occurs once |
| Rpc.SeparatorInMessage | src/rpc.ts:17-19 | the as-written cast of `new RequestError("RequestError: ")` raises a SyntaxError |
| Rpc.IsRpcError | src/rpc.ts:24-33 | after the cast as written: true exactly for a RequestError all of whose listed properties are strictly equal; the cast's exception propagates |
| Rpc.IsRpcErrorCorrected | src/rpc.ts:24-33 | the same check over the corrected cast |
| Rpc.PlainErrorIsNotRpcError | src/rpc.ts:24-32 | a plain error without the separator is not a RequestError, under either cast |
| Rpc.NoMessageNotRpcError | src/rpc.ts:16-32 | an error with no own message and a name other than "RequestError" is returned unchanged by either cast and is not a RequestError |
| Rpc.BareErrorNotRpcError | src/rpc.ts:16-32 | `isRpcError(new Error(), eq)` is false for every `eq` |
| Rpc.EmptyExpectation | src/rpc.ts:24-27 | an empty expectation matches every RequestError that crossed the boundary and whose message does not hold the separator |
| Rpc.RecognisedByStatus | src/rpc.ts:24-30 | such a RequestError is recognised by its status |
| Rpc.SeparatorNotRecognised | src/rpc.ts:16-25 | for the RequestError whose message is the separator, `isRpcError` throws a SyntaxError whatever is expected |
| Rpc.CorrectedRecognises | src/rpc.ts:24-30 | over the corrected cast every RequestError that crossed the boundary is recognised, by an empty expectation and by its status |
| Rpc.CastRoundTripAsWritten | src/rpc.ts:1-22 | the cast as written gives back message `m`, status `s` and the name for `new RequestError(m, s)` whenever `m` does not hold the separator |
| Rpc.WireAgreement | src/rpc.ts:16-22 | on a received message whose JSON text holds no separator, the cast as written and the corrected cast agree |
| Rpc.MessageTextSeparatorFree | src/rpc.ts:1-8 | `JSON.stringify({message: m, status})` holds the separator only if `m` does |
| Rpc.EscapeSeparatorFree | src/rpc.ts:6 | escaping a string for JSON never creates the separator |
| Rpc.PlainPrefix | src/rpc.ts:6 | escaped text that starts with backslash-free characters comes from a string that starts with those characters |
| Rpc.JoinSeparatorFree | src/rpc.ts:6 | the separator cannot straddle the quote that closes the message string, nor start in text without an `R` |
| Durations.Factor | examples/basic-auth/src/utils/date.ts:12-29 | every unit's factor is a positive integer, a multiple of 1000 except for "ms" |
| Durations.MillisecondsScaled | examples/basic-auth/src/utils/date.ts:12-29 | `milliseconds()` is the value times its unit's factor; "ms" returns the value unchanged |
| Durations.WeekIsSevenDays | examples/basic-auth/src/utils/date.ts:25-28 | the final (week) case is seven times the day case |
| Durations.MillisecondsMonotone | examples/basic-auth/src/utils/date.ts:12-29 | `milliseconds()` is strictly increasing in the value |
| Durations.WithinDurationForms | examples/basic-auth/src/utils/date.ts:40-48 | the number and `Date` forms agree, and both mean `t + value × factor > now` |
| Durations.WithinEarlier | examples/basic-auth/src/utils/date.ts:40-48 | within the duration now implies within it at any earlier reading |
| User.StateSchema | examples/basic-auth/src/aggregates/user.ts:11-18 | accepts exactly string name, valid email, boolean `deleted` and string `passwordHash`, and keeps only those four |
| User.Created | examples/basic-auth/src/aggregates/user.ts:21-26 | the payload's fields over the state's, and `deleted` false |
| User.Updated | examples/basic-auth/src/aggregates/user.ts:27-32 | the payload's fields over the state's |
| User.Deleted | examples/basic-auth/src/aggregates/user.ts:33-38 | `deleted` true, every other field kept |
| User.NewUserPayload | examples/basic-auth/src/aggregates/user.ts:52-59 | the `UserCreated` payload is the accepted fields, `deleted` false and `passwordHash` equal to the password |
| User.NewUserState | examples/basic-auth/src/aggregates/user.ts:11-26 | reducing that payload from the empty placeholder gives a live user row |
| User.CreateFresh | examples/basic-auth/src/aggregates/user.ts:48-61 | creating a new user emits exactly one stamped `UserCreated` and writes the live user, password as hash |
| User.CreateExisting | examples/basic-auth/src/aggregates/user.ts:51 | creating an existing user fails with "Already created", and nothing changes |
| User.MissingUser | examples/basic-auth/src/aggregates/user.ts:62-90 | update, delete and authenticate on an absent user fail with "Not found", and nothing changes |
| User.DeletedIsTerminal | examples/basic-auth/src/aggregates/user.ts:47-101 | every command on a deleted user fails with no event, no state change and no write |
| User.UpdateUserSchema | examples/basic-auth/src/aggregates/user.ts:5-8 | `userSchema.partial()` accepts exactly an object whose `name` is a string or `undefined` and whose `email` is a valid email or `undefined`; its output has just the fields that are present |
| User.UpdateOverlays | examples/basic-auth/src/aggregates/user.ts:62-73 | the event carries the state overlaid with the supplied fields; with every supplied field defined, fields not supplied keep their values and the overlaid user is written; a supplied `undefined` makes the state schema reject the new state, so nothing is written |
| User.UpdateApplies | examples/basic-auth/src/aggregates/user.ts:11-32 | reducing the update of a live user gives a state that passes the state schema (supplied fields replaced, others kept, still live, same password hash) exactly when no supplied field is `undefined` |
| User.UpdatedValid | examples/basic-auth/src/aggregates/user.ts:11-32 | the spread of the supplied fields over a live user passes the state schema exactly when none of them is `undefined` |
| User.DeleteMarks | examples/basic-auth/src/aggregates/user.ts:74-85 | deleting emits `UserDeleted` with a null payload and writes the user marked deleted |
| User.AuthenticateChecksPassword | examples/basic-auth/src/aggregates/user.ts:86-100 | succeeds exactly when the challenge equals `passwordHash`, emitting `UserAuthenticated` (null) with the state unchanged; otherwise "Invalid password" |
| Sessions.SessionDurationIs30Days | examples/basic-auth/src/projections/sessions/index.ts:14 | the session duration is 2 592 000 000 ms |
| Sessions.OnUserCreated | examples/basic-auth/src/projections/sessions/index.ts:26-32 | inserts the user's row exactly when the id is new and name and email are present; otherwise a constraint error |
| Sessions.OnUserDeleted | examples/basic-auth/src/projections/sessions/index.ts:36-39 | the deletion never fails |
| Sessions.UserDeletedRemoves | examples/basic-auth/src/projections/sessions/index.ts:36-39 | removes the user row and exactly that user's sessions; every other row is kept |
| Sessions.UserUpdatedSets | examples/basic-auth/src/projections/sessions/index.ts:33-35 | sets name and email of that user's row where the payload supplies them; no other row changes, and a missing row is a no-op |
| Sessions.HandlersKeepKeys | examples/basic-auth/src/projections/sessions/index.ts:25-40 | every handler keeps each row under its own primary key |
| Sessions.AuthenticatedIgnored | examples/basic-auth/src/projections/sessions/index.ts:25-40 | `UserAuthenticated` events have no handler and change nothing |
| Sessions.ValidateUnknown | examples/basic-auth/src/projections/sessions/index.ts:98-103 | an unknown session throws 419 "Invalid session" and no table changes |
| Sessions.ValidateExpired | examples/basic-auth/src/projections/sessions/index.ts:104-107 | an expired session throws 419, and exactly its row is deleted |
| Sessions.ValidateRefreshes | examples/basic-auth/src/projections/sessions/index.ts:108-117 | for an unexpired session, with readings at most 30 days apart, the refresh always happens and is written before the user lookup; a missing user then throws 419, otherwise the session comes back not fresh |
| Sessions.SessionService.CreateSession | examples/basic-auth/src/projections/sessions/index.ts:42-50 | inserts a row expiring 30 days after `now` and returns it marked fresh; a taken id is a constraint error with no change |
| Sessions.SessionService.Authenticate | examples/basic-auth/src/projections/sessions/index.ts:79-89 | without a local user row, throws "Invalid credentials" (400) with no change; otherwise creates a session for that row |
| Sessions.SessionService.ValidateSession | examples/basic-auth/src/projections/sessions/index.ts:97-118 | the step-by-step method returns and writes exactly what `Validate` specifies |
| Sessions.SessionService.InvalidateSession | examples/basic-auth/src/projections/sessions/index.ts:125-127 | removes only the row with that id; users are untouched |

## Left out

- **Durable Object plumbing.** This covers `blockConcurrencyWhile`, `ctx.storage` and `ctx.id`. Storage is a field of `AggregateActor`, and one `execute` runs at a time; serialising calls is the host's job.
- **`Promise.all` parallelism** at src/system.ts:120. Each model's deliveries form an independent ordered trace in its own world, and no interleaving across models is modelled.
- Systems.AggregateInterface.ExecuteSync: when several models throw, `Promise.all` rejects with the error that happens first in time. The model reports the first failing model in model order (`Systems.FirstFailure`).
- Systems.AggregateInterface.ExecuteSync: a failure of `addEvent` is not modelled: appending to the store always succeeds.
- **The aggregate handle.** `_getAggregate`, `_receiveCommand` and `aggregateId` are not defined by the aggregate code. The handle is reduced to its id, and the command call to its outcome (the `received` parameter of `ExecuteSync`).
- **The system's builder helpers.** `system.aggregates`, `.projections`, `.processes` and `.eventStore` (src/system.ts:147-169) return their argument. The projection and process builders (src/projection.ts:118-141, src/process.ts:113-138) do the same. None of them has its own member.
- **`console.error` logging** in `execute` has no observable effect on the model.
- **zod.** Schemas are explicit functions. The email format check is the parameter `isEmail`. Key stripping and merging are written out per schema.
- **Numbers.** JSON and JavaScript numbers are integers here: no fractions, NaN or infinities. JSON text has no arrays and no insignificant whitespace.
- **Integer-like property names.** A JavaScript object lists property names that are array indices ("0", "2", ...) first, in ascending order, and only then the others in insertion order. The model keeps every name in insertion order. So for an argument such as `{b: 1, 2: 3}`, `Json.Stringify` writes `{"b":1,"2":3}`, while `JSON.stringify` writes `{"2":3,"b":1}`. The same holds for the order in which `Object.values` lists the projection and process factories in `Systems.Models`.
- **Inherited properties.** The code looks names up with plain property reads, which also find properties inherited from `Object.prototype` (`toString`, `constructor`, ...). The model looks names up in the tables' own entries only. So it does not capture these cases:
  - a command named `toString` (src/aggregate.ts:107-110) finds a function without a `schema`, and `execute` throws a TypeError where the model reports that the command is not found;
  - an event type `constructor` (src/aggregate.ts:129-134) finds a function without a `reducer`, and `execute` throws before writing, where the model skips the event;
  - an aggregate named `toString` (src/system.ts:88-97) gives "Invalid aggregate signature", where the model raises a TypeError.
- **Throwing model constructors.** A projection's `bindingsProvider` and `eventHandlers`, and a process's `effects`, are total functions in the model, so building a model never fails (`Systems.NewModel`, `Systems.GetProjection`). In the source they run inside `new model(env)`: a throw there rejects `executeSync` through `Promise.all` (src/system.ts:120-122) and makes `getProjection` throw (src/system.ts:142). The model does not capture these failures.
- **UTF-16 strings.** A string is a sequence of Unicode scalar values, while a JavaScript string is a sequence of UTF-16 code units. `JSON.parse` decodes a `\u` escape of a high surrogate followed by one of a low surrogate into one character (`Json.SurrogatePair`). A lone surrogate cannot be represented: a text that escapes one is rejected as a SyntaxError, where JavaScript builds a string holding the lone code unit. String lengths and indices count characters, not code units; the separator and the property names are in the Basic Multilingual Plane, so searching and splitting are not affected.
- **Throwing reducers.** A reducer is a total function in the model. A reducer that throws in the source ends `execute` with the state of the earlier events in memory and no write; the model cannot express this. The example's reducers never throw.
- **Key order in the user aggregate.** User objects are maps, so the order of their keys is not modelled.
- **`Duration.seconds` and `Duration.transform`** are not used by the core and are not modelled.
- **The users projection** (examples/basic-auth/src/projections/users/index.ts) is not part of this model. In `authenticate` its result, the resolved user id, is a parameter, and any error it throws is not modelled.
- **`register`** in the session service is left out: it only forwards to the users projection and then creates a session.
- **HTTP routes and cookies** of the example application are not part of this model.
- Sessions.OnUserCreated: a payload whose name or email is not a string is treated as a failed NOT NULL constraint. The database's coercion of other value types is not modelled.
- Sessions.UserUpdatedSets: only string name and email values are written. Drizzle's handling of other value types, and of an update with no columns to set, is not modelled.
- **The `Session` class** (examples/basic-auth/src/projections/sessions/index.ts:132-154) is the value `Session(user, session, isFresh)`. Its `session` getter is that value's `session` and `isFresh` fields.

## Findings

| source | as written | input that shows it | evidently intended | confidence | as-written member | corrected member |
|---|---|---|---|---|---|---|
| src/rpc.ts:17-19 | the JSON text is `message.split("RequestError: ")[1]`, which ends at the next occurrence of the separator | `new RequestError("RequestError: ")` thrown across the boundary: the cut text `{"message":"` is not JSON, and `castRpcError` raises a SyntaxError | take everything after the first separator, so any message survives the round trip | medium, not executed | Rpc.SeparatorInMessage (on Rpc.CastRpcErrorAsWritten), Rpc.SeparatorNotRecognised (on Rpc.IsRpcError) | Rpc.CastRoundTrip (on Rpc.CastRpcError) and Rpc.CorrectedRecognises (on Rpc.IsRpcErrorCorrected); Rpc.CastRoundTripAsWritten shows the code as written round-trips every message without the separator |
