/** The example application's user aggregate: a user is created once,
    then updated, authenticated or deleted, and a deleted user accepts no
    further command. States and payloads are JavaScript values; an object
    is a map from property name to value, and a spread `{...a, ...b}` is
    the map union in which `b` wins. The email format check is a
    parameter. */
module User {
  import opened Wrappers
  import opened Aggregate

  /** The JavaScript values this aggregate handles. */
  datatype Js = Undefined | Null | Bool(b: bool) | Num(n: int) | Str(s: string) | Obj(props: map<string, Js>)

  type Object = map<string, Js>

  /** What the user aggregate throws: a `RequestError` with its message, or
      a schema's validation error. */
  datatype UserError = RequestError(message: string) | SchemaIssue

  /** `o.k`: `undefined` when the property is missing. */
  function Field(o: Object, k: string): Js
  {
    if k in o then o[k] else Undefined
  }

  /** The properties a spread `...v` copies: those of an object, none of
      `null` or `undefined`. */
  function Props(v: Js): Object
  {
    if v.Obj? then v.props else map[]
  }

  /** JavaScript truthiness. */
  predicate Truthy(v: Js)
  {
    match v
    case Undefined => false
    case Null => false
    case Bool(b) => b
    case Num(n) => n != 0
    case Str(s) => |s| > 0
    case Obj(_) => true
  }

  // ---------------------------------------------------------------------------
  // Schemas

  /** `userSchema`: a string `name` and a string `email` that passes the
      email check; the output keeps just those two. */
  function UserSchema(isEmail: string -> bool, v: Js): Result<Js, UserError>
  {
    var name := Field(Props(v), "name");
    var email := Field(Props(v), "email");
    if v.Obj? && name.Str? && email.Str? && isEmail(email.s) then
      Success(Obj(map["name" := name, "email" := email]))
    else Failure(SchemaIssue)
  }

  /** A user state in the form the state schema outputs it. */
  datatype UserRow = UserRow(name: string, email: string, deleted: bool, passwordHash: string)

  function Row(u: UserRow): Object
  {
    map["name" := Str(u.name), "email" := Str(u.email), "deleted" := Bool(u.deleted), "passwordHash" := Str(u.passwordHash)]
  }

  /** The state schema: `userSchema` merged with a boolean `deleted` and a
      string `passwordHash`; other properties are dropped. */
  function StateSchema(isEmail: string -> bool, s: Object): (r: Result<Object, UserError>)
    ensures r.Success? <==>
      Field(s, "name").Str? && Field(s, "email").Str? && isEmail(Field(s, "email").s)
      && Field(s, "deleted").Bool? && Field(s, "passwordHash").Str?
    ensures r.Success? ==> r.value == Row(UserRow(Field(s, "name").s, Field(s, "email").s, Field(s, "deleted").b, Field(s, "passwordHash").s))
  {
    var name := Field(s, "name");
    var email := Field(s, "email");
    var deleted := Field(s, "deleted");
    var hash := Field(s, "passwordHash");
    if name.Str? && email.Str? && isEmail(email.s) && deleted.Bool? && hash.Str? then
      Success(Row(UserRow(name.s, email.s, deleted.b, hash.s)))
    else Failure(SchemaIssue)
  }

  /** `z.object({ password: z.string() }).and(userSchema)`: both parts must
      accept, and the outputs are merged. */
  function CreateUserSchema(isEmail: string -> bool, v: Js): Result<Js, UserError>
  {
    var password := Field(Props(v), "password");
    if v.Obj? && password.Str? && UserSchema(isEmail, v).Success? then
      Success(Obj(map["password" := password] + UserSchema(isEmail, v).value.props))
    else Failure(SchemaIssue)
  }

  /** `userSchema.partial()`: each field may be missing or `undefined`; the
      output has the fields that are there, an `undefined` one included. */
  function UpdateUserSchema(isEmail: string -> bool, v: Js): (r: Result<Js, UserError>)
    ensures r.Success? <==> v.Obj? && UpdateFields(isEmail, map k | k in v.props && k in {"name", "email"} :: v.props[k])
    ensures r.Success? ==> r.value == Obj(map k | k in v.props && k in {"name", "email"} :: v.props[k])
  {
    var o := Props(v);
    if !v.Obj? || ("name" in o && !(o["name"].Str? || o["name"].Undefined?))
      || ("email" in o && !((o["email"].Str? && isEmail(o["email"].s)) || o["email"].Undefined?)) then
      Failure(SchemaIssue)
    else
      Success(Obj(map k | k in o && k in {"name", "email"} :: o[k]))
  }

  /** What the update schema lets through: only `name` and `email`, each a
      string (a valid email for `email`) or `undefined`. */
  predicate UpdateFields(isEmail: string -> bool, given: Object) {
    && (forall k | k in given :: k in {"name", "email"})
    && ("name" in given ==> given["name"].Str? || given["name"].Undefined?)
    && ("email" in given ==> (given["email"].Str? && isEmail(given["email"].s)) || given["email"].Undefined?)
  }

  /** No supplied field is `undefined`. */
  predicate Defined(given: Object) {
    forall k | k in given :: !given[k].Undefined?
  }

  /** A user with the supplied string fields over it. */
  function Overlay(u: UserRow, given: Object): UserRow
  {
    UserRow(
      if "name" in given && given["name"].Str? then given["name"].s else u.name,
      if "email" in given && given["email"].Str? then given["email"].s else u.email,
      u.deleted,
      u.passwordHash)
  }

  /** `z.null()`. */
  function NullSchema(v: Js): Result<Js, UserError>
  {
    if v == Null then Success(v) else Failure(SchemaIssue)
  }

  /** `z.string()`. */
  function StringSchema(v: Js): Result<Js, UserError>
  {
    if v.Str? then Success(v) else Failure(SchemaIssue)
  }

  // ---------------------------------------------------------------------------
  // Reducers

  /** `UserCreated`: the payload over the state, and not deleted. */
  function Created(payload: Js, state: Object): (r: Object)
    ensures Field(r, "deleted") == Bool(false)
    ensures forall k | k != "deleted" :: Field(r, k) == if k in Props(payload) then Props(payload)[k] else Field(state, k)
  {
    (state + Props(payload))["deleted" := Bool(false)]
  }

  /** `UserUpdated`: the payload over the state. */
  function Updated(payload: Js, state: Object): (r: Object)
    ensures forall k :: Field(r, k) == if k in Props(payload) then Props(payload)[k] else Field(state, k)
  {
    state + Props(payload)
  }

  /** `UserDeleted`: the state, marked deleted. */
  function Deleted(state: Object): (r: Object)
    ensures Field(r, "deleted") == Bool(true)
    ensures forall k | k != "deleted" :: Field(r, k) == Field(state, k)
  {
    state["deleted" := Bool(true)]
  }

  // ---------------------------------------------------------------------------
  // Command handlers

  /** The checks `UpdateUser`, `DeleteUser` and `Authenticate` start with. */
  function Existing(state: Option<Object>): Option<UserError>
  {
    if state.None? then Some(RequestError("Not found"))
    else if Truthy(Field(state.value, "deleted")) then Some(RequestError("User Deleted"))
    else None
  }

  /** `CreateUser`: only before the first event; the password is kept as
      the password hash. */
  function CreateUser(payload: Js, state: Option<Object>): Result<HandlerOutput<Js>, UserError>
  {
    if state.Some? then Failure(RequestError("Already created"))
    else
      var fields := Props(payload)["deleted" := Bool(false)]["passwordHash" := Field(Props(payload), "password")];
      Success(One(EventInput("UserCreated", Obj(fields))))
  }

  /** `UpdateUser`: the current state with the supplied fields over it. */
  function UpdateUser(payload: Js, state: Option<Object>): Result<HandlerOutput<Js>, UserError>
  {
    match Existing(state)
    case Some(e) => Failure(e)
    case None => Success(One(EventInput("UserUpdated", Obj(state.value + Props(payload)))))
  }

  /** `DeleteUser`. */
  function DeleteUser(payload: Js, state: Option<Object>): Result<HandlerOutput<Js>, UserError>
  {
    match Existing(state)
    case Some(e) => Failure(e)
    case None => Success(One(EventInput("UserDeleted", Null)))
  }

  /** `Authenticate`: the challenge must equal the stored password hash. */
  function Authenticate(challenge: Js, state: Option<Object>): Result<HandlerOutput<Js>, UserError>
  {
    match Existing(state)
    case Some(e) => Failure(e)
    case None =>
      if Field(state.value, "passwordHash") != challenge then Failure(RequestError("Invalid password"))
      else Success(One(EventInput("UserAuthenticated", Null)))
  }

  /** The `UserAggregate` definition. */
  function UserAggregate(isEmail: string -> bool): Definition<Object, Js, UserError>
  {
    Definition(
      "UserAggregate",
      s => StateSchema(isEmail, s),
      map[
        "UserCreated" := EventDef(v => UserSchema(isEmail, v), (p: Js, s: Object, t: int) => Created(p, s)),
        "UserUpdated" := EventDef(v => UserSchema(isEmail, v), (p: Js, s: Object, t: int) => Updated(p, s)),
        "UserDeleted" := EventDef(NullSchema, (p: Js, s: Object, t: int) => Deleted(s)),
        "UserAuthenticated" := EventDef(NullSchema, (p: Js, s: Object, t: int) => s)],
      map[
        "CreateUser" := CommandDef(v => CreateUserSchema(isEmail, v), CreateUser),
        "UpdateUser" := CommandDef(v => UpdateUserSchema(isEmail, v), UpdateUser),
        "DeleteUser" := CommandDef(NullSchema, DeleteUser),
        "Authenticate" := CommandDef(StringSchema, Authenticate)],
      map[])
  }

  // ---------------------------------------------------------------------------
  // The user lifecycle, through `execute`

  /** A user that exists and is not deleted, in the state schema's form. */
  predicate Live(isEmail: string -> bool, u: UserRow)
  {
    !u.deleted && isEmail(u.email)
  }

  /** Creating a new user emits one `UserCreated` event, stamped, whose
      payload is the accepted fields with the password also as the password
      hash and `deleted` false; the state written is that user, live, with
      the plain password dropped by the state schema. */
  lemma CreateFresh(isEmail: string -> bool, id: string, payload: Js, clock: nat -> int)
    requires CreateUserSchema(isEmail, payload).Success?
    ensures var name := Field(Props(payload), "name");
      var email := Field(Props(payload), "email");
      var password := Field(Props(payload), "password");
      var fields := map["password" := password, "name" := name, "email" := email,
                        "deleted" := Bool(false), "passwordHash" := password];
      Run(UserAggregate(isEmail), id, None, "CreateUser", payload, clock) ==
        Outcome(Success([Event("UserCreated", Obj(fields), clock(0), "UserAggregate", id)]),
                Some(Row(UserRow(name.s, email.s, false, password.s))), true)
  {
    var def := UserAggregate(isEmail);
    var name := Field(Props(payload), "name");
    var email := Field(Props(payload), "email");
    var password := Field(Props(payload), "password");
    var fields := NewUserPayload(isEmail, payload);
    var e := Event("UserCreated", Obj(fields), clock(0), def.name, id);
    SingleEvent(EventInput("UserCreated", Obj(fields)), def.name, id, clock);
    NewUserState(isEmail, fields, name, email, password);
    ReduceSingle(def, None, e);
  }

  /** The event payload `CreateUser` builds from an accepted payload. */
  lemma NewUserPayload(isEmail: string -> bool, payload: Js) returns (fields: Object)
    requires CreateUserSchema(isEmail, payload).Success?
    ensures var password := Field(Props(payload), "password");
      fields == map["password" := password, "name" := Field(Props(payload), "name"),
                    "email" := Field(Props(payload), "email"), "deleted" := Bool(false), "passwordHash" := password]
    ensures CreateUser(CreateUserSchema(isEmail, payload).value, None) == Success(One(EventInput("UserCreated", Obj(fields))))
  {
    var accepted := CreateUserSchema(isEmail, payload).value;
    var password := Field(Props(payload), "password");
    fields := map["password" := password, "name" := Field(Props(payload), "name"),
                  "email" := Field(Props(payload), "email"), "deleted" := Bool(false), "passwordHash" := password];
    assert Field(Props(accepted), "password") == password;
    assert Props(accepted)["deleted" := Bool(false)]["passwordHash" := password] == fields;
  }

  /** The `UserCreated` reducer on the empty placeholder, then the state
      schema, give the row of a live user. */
  lemma NewUserState(isEmail: string -> bool, fields: Object, name: Js, email: Js, password: Js)
    requires fields == map["password" := password, "name" := name, "email" := email,
                           "deleted" := Bool(false), "passwordHash" := password]
    requires name.Str? && email.Str? && isEmail(email.s) && password.Str?
    ensures StateSchema(isEmail, Created(Obj(fields), map[])) == Success(Row(UserRow(name.s, email.s, false, password.s)))
  {
    var s := Created(Obj(fields), map[]);
    assert Field(s, "name") == name && Field(s, "email") == email && Field(s, "passwordHash") == password;
  }

  /** Creating a user that exists fails, and nothing changes. */
  lemma CreateExisting(isEmail: string -> bool, id: string, s: Object, payload: Js, clock: nat -> int)
    requires CreateUserSchema(isEmail, payload).Success?
    ensures Run(UserAggregate(isEmail), id, Some(s), "CreateUser", payload, clock)
      == Outcome(Failure(Rejected(RequestError("Already created"))), Some(s), false)
  {
  }

  /** Updating, deleting or authenticating a user that was never created
      fails with "Not found", and nothing changes. */
  lemma MissingUser(isEmail: string -> bool, id: string, commandType: string, payload: Js, clock: nat -> int)
    requires commandType in {"UpdateUser", "DeleteUser", "Authenticate"}
    requires UserAggregate(isEmail).commands[commandType].schema(payload).Success?
    ensures Run(UserAggregate(isEmail), id, None, commandType, payload, clock)
      == Outcome(Failure(Rejected(RequestError("Not found"))), None, false)
  {
  }

  /** Deleted is terminal: every command on a deleted user fails, the state
      stays as it is and nothing is written. A command that gets past its
      schema fails with "Already created" or "User Deleted". */
  lemma DeletedIsTerminal(isEmail: string -> bool, id: string, s: Object, commandType: string, payload: Js, clock: nat -> int)
    requires Truthy(Field(s, "deleted"))
    ensures var o := Run(UserAggregate(isEmail), id, Some(s), commandType, payload, clock);
      && o.result.Failure? && o.state == Some(s) && !o.written
      && (o.result.error.Rejected? ==>
            o.result.error.reason == RequestError(if commandType == "CreateUser" then "Already created" else "User Deleted"))
  {
  }

  /** Updating a live user emits the current state with the supplied fields
      over it. When every supplied field is defined, the new state has them
      and keeps the rest, the password hash and the deleted flag; a supplied
      `undefined` spreads into the state, which the state schema then
      rejects, so nothing is written. */
  lemma UpdateOverlays(isEmail: string -> bool, id: string, u: UserRow, payload: Js, clock: nat -> int)
    requires Live(isEmail, u) && UpdateUserSchema(isEmail, payload).Success?
    ensures var given := UpdateUserSchema(isEmail, payload).value.props;
      var event := Event("UserUpdated", Obj(Row(u) + given), clock(0), "UserAggregate", id);
      var o := Run(UserAggregate(isEmail), id, Some(Row(u)), "UpdateUser", payload, clock);
      && (Defined(given) ==> o == Outcome(Success([event]), Some(Row(Overlay(u, given))), true))
      && (!Defined(given) ==> o == Outcome(Failure(InvalidState(SchemaIssue)), Some(Row(u)), false))
  {
    var def := UserAggregate(isEmail);
    var accepted := UpdateUserSchema(isEmail, payload).value;
    var input := UpdateUser(accepted, Some(Row(u))).value.input;
    RunSingle(def, id, Some(Row(u)), "UpdateUser", payload, clock, input);
    UpdateApplies(isEmail, id, u, accepted.props, clock(0));
  }

  /** Reducing an update of a live user whose supplied fields passed the
      update schema gives a valid state with those fields over it, unless a
      supplied field is `undefined`. */
  lemma UpdateApplies(isEmail: string -> bool, id: string, u: UserRow, given: Object, t: int)
    requires Live(isEmail, u) && UpdateFields(isEmail, given)
    ensures Apply(UserAggregate(isEmail), Some(Row(u)), Event("UserUpdated", Obj(Row(u) + given), t, "UserAggregate", id)) ==
      if Defined(given) then Success(Some(Row(Overlay(u, given)))) else Failure(SchemaIssue)
  {
    var event := Event("UserUpdated", Obj(Row(u) + given), t, "UserAggregate", id);
    ApplyUpdated(isEmail, Row(u), event);
    UpdatedValid(isEmail, u, given);
  }

  /** A `UserUpdated` event is reduced by `Updated`, then checked. */
  lemma ApplyUpdated(isEmail: string -> bool, state: Object, event: Event<Js>)
    requires event.eventType == "UserUpdated"
    ensures Apply(UserAggregate(isEmail), Some(state), event) ==
      match StateSchema(isEmail, Updated(event.payload, state))
      case Success(valid) => Success(Some(valid))
      case Failure(issue) => Failure(issue)
  {
  }

  /** The supplied fields over a live user pass the state schema exactly
      when none of them is `undefined`. */
  lemma UpdatedValid(isEmail: string -> bool, u: UserRow, given: Object)
    requires Live(isEmail, u) && UpdateFields(isEmail, given)
    ensures StateSchema(isEmail, Updated(Obj(Row(u) + given), Row(u))) ==
      if Defined(given) then Success(Row(Overlay(u, given))) else Failure(SchemaIssue)
  {
    var next := Updated(Obj(Row(u) + given), Row(u));
    assert Field(next, "deleted") == Bool(false);
    assert Field(next, "passwordHash") == Str(u.passwordHash);
    assert Field(next, "name") == if "name" in given then given["name"] else Str(u.name);
    assert Field(next, "email") == if "email" in given then given["email"] else Str(u.email);
  }

  /** Deleting a live user emits `UserDeleted` and writes the same user,
      marked deleted. */
  lemma DeleteMarks(isEmail: string -> bool, id: string, u: UserRow, clock: nat -> int)
    requires Live(isEmail, u)
    ensures Run(UserAggregate(isEmail), id, Some(Row(u)), "DeleteUser", Null, clock) ==
      Outcome(Success([Event("UserDeleted", Null, clock(0), "UserAggregate", id)]),
              Some(Row(u.(deleted := true))), true)
  {
    var def := UserAggregate(isEmail);
    RunSingle(def, id, Some(Row(u)), "DeleteUser", Null, clock, EventInput("UserDeleted", Null));
  }

  /** Authenticating a live user succeeds exactly when the challenge is the
      password hash: it then emits `UserAuthenticated` with a null payload
      and writes the state unchanged; otherwise it fails with "Invalid
      password" and nothing changes. */
  lemma AuthenticateChecksPassword(isEmail: string -> bool, id: string, u: UserRow, challenge: string, clock: nat -> int)
    requires Live(isEmail, u)
    ensures var o := Run(UserAggregate(isEmail), id, Some(Row(u)), "Authenticate", Str(challenge), clock);
      && (challenge != u.passwordHash ==>
            o == Outcome(Failure(Rejected(RequestError("Invalid password"))), Some(Row(u)), false))
      && (challenge == u.passwordHash ==>
            o == Outcome(Success([Event("UserAuthenticated", Null, clock(0), "UserAggregate", id)]), Some(Row(u)), true))
  {
    var def := UserAggregate(isEmail);
    if challenge == u.passwordHash {
      SingleEvent(EventInput("UserAuthenticated", Null), def.name, id, clock);
      ReduceSingle(def, Some(Row(u)), Event("UserAuthenticated", Null, clock(0), def.name, id));
    }
  }
}
