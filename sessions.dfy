/** The example application's session service: a projection that keeps a
    users table and a sessions table up to date from the user events, and
    offers methods to open, check and close sessions. A session lasts 30
    days from its last use. Tables are maps keyed by their primary key;
    `nanoid()` and the clock readings are parameters. */
module Sessions {
  import opened Wrappers
  import opened Durations
  import opened Aggregate
  import opened Routing
  import User

  datatype UserRow = UserRow(userId: string, name: string, email: string)
  datatype SessionRow = SessionRow(sessionId: string, userId: string, expiresAt: int)

  /** The two tables, each keyed by its primary key. */
  datatype Tables = Tables(users: map<string, UserRow>, sessions: map<string, SessionRow>)

  predicate Keyed(t: Tables)
  {
    && (forall k | k in t.users :: t.users[k].userId == k)
    && (forall k | k in t.sessions :: t.sessions[k].sessionId == k)
  }

  /** What the service throws: a `RequestError` with message and status, or
      a failed database constraint. */
  datatype Thrown = RequestError(message: string, status: int) | Constraint

  /** A `Session`: the user row, the session row and whether it was just
      created. */
  datatype Session = Session(user: UserRow, session: SessionRow, isFresh: bool)

  const SessionDuration := Duration(30, D)

  /** Thirty days, in milliseconds. */
  lemma SessionDurationIs30Days()
    ensures Milliseconds(SessionDuration) == 2592000000
  {
  }

  // ---------------------------------------------------------------------------
  // Event handlers

  /** `UserCreated`: inserts the user's row; the primary key and the
      not-null columns must hold. */
  function OnUserCreated(t: Tables, e: Event<User.Js>): (r: Result<Tables, Thrown>)
    ensures r.Success? <==>
      e.aggregateId !in t.users && User.Field(User.Props(e.payload), "name").Str? && User.Field(User.Props(e.payload), "email").Str?
    ensures r.Success? ==>
      r.value == t.(users := t.users[e.aggregateId := UserRow(e.aggregateId, User.Field(User.Props(e.payload), "name").s, User.Field(User.Props(e.payload), "email").s)])
  {
    var name := User.Field(User.Props(e.payload), "name");
    var email := User.Field(User.Props(e.payload), "email");
    if e.aggregateId in t.users || !name.Str? || !email.Str? then Failure(Constraint)
    else Success(t.(users := t.users[e.aggregateId := UserRow(e.aggregateId, name.s, email.s)]))
  }

  /** `UserUpdated`: sets the row's columns the payload supplies; without a
      row nothing changes. */
  function OnUserUpdated(t: Tables, e: Event<User.Js>): Result<Tables, Thrown>
  {
    var id := e.aggregateId;
    if id !in t.users then Success(t)
    else
      var row := t.users[id];
      var name := User.Field(User.Props(e.payload), "name");
      var email := User.Field(User.Props(e.payload), "email");
      var row' := row.(name := if name.Str? then name.s else row.name, email := if email.Str? then email.s else row.email);
      Success(t.(users := t.users[id := row']))
  }

  /** `UserDeleted`: deletes the user's row, then every session of that
      user. */
  function OnUserDeleted(t: Tables, e: Event<User.Js>): (r: Result<Tables, Thrown>)
    ensures r.Success?
  {
    var id := e.aggregateId;
    Success(Tables(t.users - {id}, map k | k in t.sessions && t.sessions[k].userId != id :: t.sessions[k]))
  }

  /** The handler table of the session service. */
  function SessionHandlers(): Handlers<Tables, User.Js, Thrown>
  {
    map["UserCreated" := OnUserCreated, "UserUpdated" := OnUserUpdated, "UserDeleted" := OnUserDeleted]
  }

  /** `UserDeleted` removes the user's row and exactly that user's sessions,
      and nothing else. */
  lemma UserDeletedRemoves(t: Tables, e: Event<User.Js>)
    requires e.eventType == "UserDeleted"
    ensures Route(SessionHandlers(), t, e).Success?
    ensures var t' := Route(SessionHandlers(), t, e).value;
      && t'.users == t.users - {e.aggregateId}
      && (forall k :: k in t'.sessions <==> k in t.sessions && t.sessions[k].userId != e.aggregateId)
      && (forall k | k in t'.sessions :: t'.sessions[k] == t.sessions[k])
  {
  }

  /** `UserUpdated` changes only the name and the email of the user's own
      row, each to the payload's value where it supplies one. */
  lemma UserUpdatedSets(t: Tables, e: Event<User.Js>)
    requires e.eventType == "UserUpdated"
    ensures Route(SessionHandlers(), t, e).Success?
    ensures var t' := Route(SessionHandlers(), t, e).value;
      var name := User.Field(User.Props(e.payload), "name");
      var email := User.Field(User.Props(e.payload), "email");
      && t'.sessions == t.sessions
      && t'.users.Keys == t.users.Keys
      && (forall k | k in t.users && k != e.aggregateId :: t'.users[k] == t.users[k])
      && (e.aggregateId in t.users ==>
            var row := t'.users[e.aggregateId];
            && row.userId == t.users[e.aggregateId].userId
            && row.name == (if name.Str? then name.s else t.users[e.aggregateId].name)
            && row.email == (if email.Str? then email.s else t.users[e.aggregateId].email))
  {
  }

  /** Every handler keeps each row under its own primary key. */
  lemma HandlersKeepKeys(t: Tables, e: Event<User.Js>)
    requires Keyed(t) && Route(SessionHandlers(), t, e).Success?
    ensures Keyed(Route(SessionHandlers(), t, e).value)
  {
  }

  /** `UserAuthenticated` has no handler: it changes nothing. */
  lemma AuthenticatedIgnored(t: Tables, events: seq<Event<User.Js>>)
    requires forall i | 0 <= i < |events| :: events[i].eventType == "UserAuthenticated"
    ensures DeliverAll(SessionHandlers(), t, events) == Delivery(t, |events|, None)
  {
    DeliverUnhandled(SessionHandlers(), t, events);
  }

  // ---------------------------------------------------------------------------
  // Session validation

  /** What `validateSession(sessionId)` throws and writes, given the clock
      readings it takes: for the expiry test, inside `isWithinDuration`, and
      for the new expiry. */
  function Validate(t: Tables, sessionId: string, now: int, nowWithin: int, nowRefresh: int): (Result<Session, Thrown>, Tables)
  {
    if sessionId !in t.sessions then (Failure(RequestError("Invalid session", 419)), t)
    else
      var s := t.sessions[sessionId];
      if s.expiresAt <= now then
        (Failure(RequestError("Invalid session", 419)), t.(sessions := t.sessions - {sessionId}))
      else
        var refresh := IsWithinDuration(Millis(s.expiresAt), SessionDuration, nowWithin);
        var s' := if refresh then s.(expiresAt := nowRefresh + Milliseconds(SessionDuration)) else s;
        var t' := if refresh then t.(sessions := t.sessions[sessionId := s']) else t;
        if s.userId !in t.users then (Failure(RequestError("Invalid session", 419)), t')
        else (Success(Session(t.users[s.userId], s', false)), t')
  }

  /** An unknown session is rejected with status 419 and nothing changes. */
  lemma ValidateUnknown(t: Tables, sessionId: string, now: int, nowWithin: int, nowRefresh: int)
    requires sessionId !in t.sessions
    ensures Validate(t, sessionId, now, nowWithin, nowRefresh) == (Failure(RequestError("Invalid session", 419)), t)
  {
  }

  /** An expired session is rejected with status 419, and exactly its row
      is deleted. */
  lemma ValidateExpired(t: Tables, sessionId: string, now: int, nowWithin: int, nowRefresh: int)
    requires sessionId in t.sessions && t.sessions[sessionId].expiresAt <= now
    ensures var (r, t') := Validate(t, sessionId, now, nowWithin, nowRefresh);
      && r == Failure(RequestError("Invalid session", 419))
      && t'.users == t.users
      && t'.sessions.Keys == t.sessions.Keys - {sessionId}
      && (forall k | k in t'.sessions :: t'.sessions[k] == t.sessions[k])
  {
  }

  /** The refresh test cannot fail for a session that has not expired,
      when the two readings are no more than 30 days apart (in particular
      when they are the same): the expiry always moves to 30 days after
      the last reading, and the row is written before the user is looked
      up. With the user row present, the session comes back, not fresh. */
  lemma ValidateRefreshes(t: Tables, sessionId: string, now: int, nowWithin: int, nowRefresh: int)
    requires sessionId in t.sessions && t.sessions[sessionId].expiresAt > now
    requires nowWithin <= now + Milliseconds(SessionDuration)
    ensures var s := t.sessions[sessionId];
      var s' := s.(expiresAt := nowRefresh + Milliseconds(SessionDuration));
      var (r, t') := Validate(t, sessionId, now, nowWithin, nowRefresh);
      && t' == t.(sessions := t.sessions[sessionId := s'])
      && (s.userId in t.users ==> r == Success(Session(t.users[s.userId], s', false)))
      && (s.userId !in t.users ==> r == Failure(RequestError("Invalid session", 419)))
  {
    var s := t.sessions[sessionId];
    assert IsWithinDuration(Millis(s.expiresAt), SessionDuration, nowWithin) by {
      WithinDurationForms(s.expiresAt, SessionDuration, nowWithin);
      MillisecondsScaled(SessionDuration);
    }
  }

  // ---------------------------------------------------------------------------
  // The service's methods, on the tables in place

  /** The methods the session service offers; `users` and `sessions` are
      its tables. */
  class SessionService {
    var users: map<string, UserRow>
    var sessions: map<string, SessionRow>

    function State(): Tables
      reads this
    {
      Tables(users, sessions)
    }

    constructor(t: Tables)
      ensures State() == t
    {
      users := t.users;
      sessions := t.sessions;
    }

    /** `createSession(user)`: inserts a session for the user that expires
        30 days after `now`, and returns it marked fresh. The new id must
        not be taken, as the primary key demands. */
    method CreateSession(user: UserRow, sessionId: string, now: int) returns (r: Result<Session, Thrown>)
      modifies this
      ensures sessionId in old(sessions) ==> r == Failure(Constraint) && State() == old(State())
      ensures sessionId !in old(sessions) ==>
        var row := SessionRow(sessionId, user.userId, now + Milliseconds(SessionDuration));
        && r == Success(Session(user, row, true))
        && sessions == old(sessions)[sessionId := row] && users == old(users)
    {
      if sessionId in sessions {
        return Failure(Constraint);
      }
      var row := SessionRow(sessionId, user.userId, now + Milliseconds(SessionDuration));
      sessions := sessions[sessionId := row];
      r := Success(Session(user, row, true));
    }

    /** `authenticate(email, password)`: `userId` is what the users
        projection resolved the credentials to. Without a local row for it
        the call fails with "Invalid credentials"; otherwise a session is
        created for that row. */
    method Authenticate(userId: string, sessionId: string, now: int) returns (r: Result<Session, Thrown>)
      modifies this
      ensures userId !in old(users) ==> r == Failure(RequestError("Invalid credentials", 400)) && State() == old(State())
      ensures userId in old(users) && sessionId !in old(sessions) ==>
        var user := old(users)[userId];
        var row := SessionRow(sessionId, user.userId, now + Milliseconds(SessionDuration));
        && r == Success(Session(user, row, true))
        && users == old(users) && sessions == old(sessions)[sessionId := row]
      ensures userId in old(users) && sessionId in old(sessions) ==> r == Failure(Constraint) && State() == old(State())
    {
      if userId !in users {
        return Failure(RequestError("Invalid credentials", 400));
      }
      r := CreateSession(users[userId], sessionId, now);
    }

    /** `validateSession(sessionId)`, step by step, with its three clock
        readings. */
    method ValidateSession(sessionId: string, now: int, nowWithin: int, nowRefresh: int) returns (r: Result<Session, Thrown>)
      modifies this
      ensures (r, State()) == Validate(old(State()), sessionId, now, nowWithin, nowRefresh)
    {
      if sessionId !in sessions {
        return Failure(RequestError("Invalid session", 419));
      }
      var session := sessions[sessionId];
      if session.expiresAt <= now {
        sessions := sessions - {sessionId};
        return Failure(RequestError("Invalid session", 419));
      }
      if IsWithinDuration(Millis(session.expiresAt), SessionDuration, nowWithin) {
        session := session.(expiresAt := nowRefresh + Milliseconds(SessionDuration));
        sessions := sessions[sessionId := session];
      }
      if session.userId !in users {
        return Failure(RequestError("Invalid session", 419));
      }
      r := Success(Session(users[session.userId], session, false));
    }

    /** `invalidateSession(sessionId)`: removes only that session's row. */
    method InvalidateSession(sessionId: string)
      modifies this
      ensures users == old(users)
      ensures sessions == old(sessions) - {sessionId}
    {
      sessions := sessions - {sessionId};
    }
  }
}
