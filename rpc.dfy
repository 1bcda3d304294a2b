/** The RequestError wire format. An error raised inside a Durable Object
    reaches the caller only as the text of its message, so a RequestError
    writes all of its fields into that text as JSON, and the caller side
    parses them back out. */
module Rpc {
  import opened Wrappers
  import opened Json
  import opened Text

  /** An exception raised by the JavaScript runtime while handling an error. */
  datatype Thrown = TypeError | SyntaxError

  /** An error object: its own properties in the order they were created. */
  type ErrorObject = Members

  const RequestErrorName: string := "RequestError"

  /** What the runtime writes before the message of a RequestError that
      crossed the RPC boundary. */
  const Separator: string := "RequestError: "

  /** An `Error` with the given message, as the remote caller receives it. */
  function PlainError(message: string): ErrorObject
  {
    [("message", JStr(message)), ("name", JStr("Error"))]
  }

  /** The message property of a well-formed error: always a string. */
  function MessageText(e: ErrorObject): string
  {
    if Get(e, "message").Some? && Get(e, "message").value.JStr? then Get(e, "message").value.s else ""
  }

  predicate StatusMissing(ms: Members) {
    Get(ms, "status").None? || Get(ms, "status") == Some(JNull)
  }

  /** `arg.status ??= status`: the property is assigned only when it is
      absent or null. */
  function DefaultStatus(ms: Members, status: int): (r: Members)
    ensures Get(r, "status") == if StatusMissing(ms) then Some(JNum(status)) else Get(ms, "status")
    ensures forall k | k != "status" :: Get(r, k) == Get(ms, k)
    ensures WellFormed(JObj(ms)) ==> WellFormed(JObj(r))
  {
    if StatusMissing(ms) then
      var r := Set(ms, "status", JNum(status));
      assert WellFormed(JObj(ms)) ==> WellFormed(JObj(r)) by {
        if WellFormed(JObj(ms)) {
          SetWellFormed(ms, "status", JNum(status));
        }
      }
      r
    else ms
  }

  /** The constructor argument after its first two lines: a string becomes
      `{message: arg}`, and `status` is defaulted. Any other value than a
      string or an object has no assignable properties, so line 4 throws. */
  function ArgumentObject(arg: Json, status: int): (r: Result<Members, Thrown>)
    ensures r.Success? <==> arg.JStr? || arg.JObj?
    ensures r.Failure? ==> r.error == TypeError
    ensures arg.JStr? ==> r == Success([("message", arg), ("status", JNum(status))])
    ensures arg.JObj? ==>
      Get(r.value, "status") == (if StatusMissing(arg.members) then Some(JNum(status)) else Get(arg.members, "status"))
    ensures arg.JObj? ==> forall k | k != "status" :: Get(r.value, k) == Get(arg.members, k)
    ensures arg.JObj? && !StatusMissing(arg.members) ==> r.value == arg.members
    ensures r.Success? && WellFormed(arg) ==> WellFormed(JObj(r.value))
  {
    match arg
    case JStr(_) =>
      var o := [("message", arg)];
      assert Get(o, "status").None? by {
        GetAbsent(o, "status");
      }
      assert WellFormed(JObj(o));
      assert o + [("status", JNum(status))] == [("message", arg), ("status", JNum(status))];
      Success(DefaultStatus(o, status))
    case JObj(ms) => Success(DefaultStatus(ms, status))
    case _ => Failure(TypeError)
  }

  /** What `new RequestError(arg, status)` yields: the error object, and the
      argument object as the constructor left it. */
  datatype Construction = Construction(error: ErrorObject, argument: Members)

  /** `new RequestError(arg, status)`: the message is the JSON text of the
      whole argument object, `status` is the argument's status after
      defaulting, and the name is "RequestError". */
  function NewRequestError(arg: Json, status: int := 400): (r: Result<Construction, Thrown>)
    ensures r.Success? <==> arg.JStr? || arg.JObj?
    ensures r.Failure? ==> r.error == TypeError
    ensures r.Success? ==>
      && Get(r.value.error, "message") == Some(JStr(Stringify(JObj(r.value.argument))))
      && Get(r.value.error, "name") == Some(JStr(RequestErrorName))
      && Get(r.value.error, "status") == Get(r.value.argument, "status")
      && Get(r.value.argument, "status").Some?
      && Get(r.value.argument, "status") != Some(JNull)
    ensures r.Success? ==> forall k | k != "message" && k != "status" && k != "name" :: Get(r.value.error, k).None?
    ensures r.Success? ==> r.value.argument == ArgumentObject(arg, status).value
  {
    var a :- ArgumentObject(arg, status);
    var e := [("message", JStr(Stringify(JObj(a)))), ("status", Get(a, "status").value), ("name", JStr(RequestErrorName))];
    ThreeFields(JStr(Stringify(JObj(a))), Get(a, "status").value, JStr(RequestErrorName));
    Success(Construction(e, a))
  }

  /** The fields of an object built from exactly `message`, `status` and
      `name`. */
  lemma ThreeFields(message: Json, status: Json, name: Json)
    ensures var e := [("message", message), ("status", status), ("name", name)];
      && Get(e, "message") == Some(message)
      && Get(e, "status") == Some(status)
      && Get(e, "name") == Some(name)
      && forall k | k != "message" && k != "status" && k != "name" :: Get(e, k).None?
  {
    var e := [("message", message), ("status", status), ("name", name)];
    GetFirst(e, 0, "message");
    GetFirst(e, 1, "status");
    GetFirst(e, 2, "name");
    forall k | k != "message" && k != "status" && k != "name"
      ensures Get(e, k).None?
    {
      GetAbsent(e, k);
    }
  }

  /** `RequestError.unmarshal(arg)`: a new RequestError, onto which every
      field of its own parsed message is copied with `Object.assign`. */
  function Unmarshal(arg: Json): (r: Result<ErrorObject, Thrown>)
    requires WellFormed(arg)
    ensures r.Success? <==> arg.JStr? || arg.JObj?
    ensures r.Failure? ==> r.error == TypeError
  {
    var c :- NewRequestError(arg);
    var text := Stringify(JObj(c.argument));
    RoundTrip(JObj(c.argument));
    var parsed := Parse(text);
    Success(Assign(c.error, parsed.value.members))
  }

  /** After `unmarshal`, a field of the argument object reads as in the
      argument, `name` is "RequestError" unless the argument names itself,
      and `message` is the serialised argument unless it carries one. */
  lemma UnmarshalFields(arg: Json, k: string)
    requires WellFormed(arg) && (arg.JStr? || arg.JObj?)
    ensures var a := ArgumentObject(arg, 400).value;
      Get(Unmarshal(arg).value, k) ==
        if Get(a, k).Some? then Get(a, k)
        else if k == "message" then Some(JStr(Stringify(JObj(a))))
        else if k == "name" then Some(JStr(RequestErrorName))
        else None
  {
    var c := NewRequestError(arg).value;
    UnmarshalAssigns(arg);
    AssignGet(c.error, c.argument, k);
  }

  /** `unmarshal` assigns the parsed argument object onto the new error. */
  lemma UnmarshalAssigns(arg: Json)
    requires WellFormed(arg) && (arg.JStr? || arg.JObj?)
    ensures var c := NewRequestError(arg).value;
      Unmarshal(arg).value == Assign(c.error, c.argument)
  {
    var c := NewRequestError(arg).value;
    RoundTrip(JObj(c.argument));
  }

  /** The three fields a RequestError is recognised by. */
  predicate Carries(e: ErrorObject, m: string, status: int) {
    && Get(e, "message") == Some(JStr(m))
    && Get(e, "status") == Some(JNum(status))
    && Get(e, "name") == Some(JStr(RequestErrorName))
  }

  /** `RequestError.unmarshal` of `{message, status}` carries that message
      and status; in particular `unmarshal(m)` has message `m` and status
      400. */
  lemma UnmarshalCarries(m: string, status: int)
    ensures Unmarshal(JObj([("message", JStr(m)), ("status", JNum(status))])).Success?
    ensures Carries(Unmarshal(JObj([("message", JStr(m)), ("status", JNum(status))])).value, m, status)
    ensures Unmarshal(JStr(m)).Success? && Carries(Unmarshal(JStr(m)).value, m, 400)
  {
    var a := [("message", JStr(m)), ("status", JNum(status))];
    assert WellFormed(JObj(a));
    GetFirst(a, 0, "message");
    GetFirst(a, 1, "status");
    GetAbsent(a, "name");
    UnmarshalFields(JObj(a), "message");
    UnmarshalFields(JObj(a), "status");
    UnmarshalFields(JObj(a), "name");
    var b := [("message", JStr(m)), ("status", JNum(400))];
    assert ArgumentObject(JStr(m), 400).value == b;
    GetFirst(b, 0, "message");
    GetFirst(b, 1, "status");
    GetAbsent(b, "name");
    UnmarshalFields(JStr(m), "message");
    UnmarshalFields(JStr(m), "status");
    UnmarshalFields(JStr(m), "name");
  }

  /** `JSON.parse` of a text, then `RequestError.unmarshal` of the value. */
  function UnmarshalText(text: string): (r: Result<ErrorObject, Thrown>)
    ensures Parse(text).None? ==> r == Failure(SyntaxError)
    ensures r.Failure? && Parse(text).Some? ==> r.error == TypeError
  {
    var parsed := Parse(text);
    if parsed.None? then Failure(SyntaxError)
    else
      ParsedWellFormed(text);
      Unmarshal(parsed.value)
  }

  /** `castRpcError` as written: the JSON text is taken to be the second
      piece of `message.split("RequestError: ")`, which ends at the next
      occurrence of the separator. */
  function CastRpcErrorAsWritten(err: ErrorObject): (r: Result<ErrorObject, Thrown>)
    ensures Get(err, "message").Some? && !Get(err, "message").value.JStr? ==> r == Failure(TypeError)
    ensures (Get(err, "message").None? || Get(err, "message").value.JStr?) && IndexOf(MessageText(err), Separator, 0).None?
      ==> r == Success(err)
  {
    match Get(err, "message")
    case None => Success(err)
    case Some(JStr(m)) =>
      var parts := Split(m, Separator);
      if |parts| > 1 then UnmarshalText(parts[1]) else Success(err)
    case Some(_) => Failure(TypeError)
  }

  /** `castRpcError` with the JSON text taken as everything after the first
      separator, so that a separator inside the serialised fields does not
      cut the text short. */
  function CastRpcError(err: ErrorObject): (r: Result<ErrorObject, Thrown>)
    ensures Get(err, "message").Some? && !Get(err, "message").value.JStr? ==> r == Failure(TypeError)
    ensures (Get(err, "message").None? || Get(err, "message").value.JStr?) && IndexOf(MessageText(err), Separator, 0).None?
      ==> r == Success(err)
  {
    match Get(err, "message")
    case None => Success(err)
    case Some(JStr(m)) =>
      (match IndexOf(m, Separator, 0)
       case Some(i) => UnmarshalText(m[i + |Separator|..])
       case None => Success(err))
    case Some(_) => Failure(TypeError)
  }

  /** The error the caller receives when `e` is thrown across the boundary. */
  function Received(e: ErrorObject): ErrorObject
  {
    PlainError(Separator + MessageText(e))
  }

  /** Round trip: casting what the caller receives for
      `new RequestError(m, status)` gives back `m` as the message and
      `status` as the status. */
  lemma CastRoundTrip(m: string, status: int)
    ensures var e := NewRequestError(JStr(m), status).value.error;
      CastRpcError(Received(e)).Success? && Carries(CastRpcError(Received(e)).value, m, status)
  {
    var a := [("message", JStr(m)), ("status", JNum(status))];
    var e := NewRequestError(JStr(m), status).value.error;
    var text := Stringify(JObj(a));
    assert MessageText(e) == text;
    CastWire(text);
    assert WellFormed(JObj(a));
    RoundTrip(JObj(a));
    UnmarshalCarries(m, status);
  }

  /** What the caller receives for a message `text` is cast back from
      `text` itself. */
  lemma CastWire(text: string)
    ensures CastRpcError(PlainError(Separator + text)) == UnmarshalText(text)
  {
    var wire := Separator + text;
    assert Get(PlainError(wire), "message") == Some(JStr(wire));
    assert IndexOf(wire, Separator, 0) == Some(0) by {
      assert OccursAt(wire, Separator, 0);
    }
    assert wire[|Separator|..] == text;
  }

  /** The two casts agree whenever the message holds the separator at most
      once. */
  lemma CastAgreement(err: ErrorObject)
    requires Get(err, "message") == Some(JStr(MessageText(err)))
    requires IndexOf(MessageText(err), Separator, 0).Some?
    requires var i := IndexOf(MessageText(err), Separator, 0).value;
      IndexOf(MessageText(err)[i + |Separator|..], Separator, 0).None?
    ensures CastRpcErrorAsWritten(err) == CastRpcError(err)
  {
    var m := MessageText(err);
    var i := IndexOf(m, Separator, 0).value;
    var after := m[i + |Separator|..];
    assert Split(m, Separator) == [m[..i]] + Split(after, Separator);
    assert Split(after, Separator) == [after];
  }

  /** Against the round trip: a message that is itself the separator is
      cut at that occurrence, and the truncated text does not parse. */
  lemma SeparatorInMessage(m: string)
    requires m == Separator
    ensures var e := NewRequestError(JStr(m), 400).value.error;
      CastRpcErrorAsWritten(Received(e)) == Failure(SyntaxError)
  {
    var e := NewRequestError(JStr(m), 400).value.error;
    var cut, tail := SeparatorWire(m);
    assert Received(e) == PlainError(Separator + (cut + Separator + tail));
    CastCut(cut, tail);
  }

  /** The message of `new RequestError("RequestError: ")`. */
  lemma SeparatorWire(m: string) returns (cut: string, tail: string)
    requires m == Separator
    ensures cut == "{" + Quote("message") + ":\""
    ensures forall j | 0 <= j < |cut| :: cut[j] != 'R'
    ensures MessageText(NewRequestError(JStr(m), 400).value.error) == cut + m + tail
  {
    var c := NewRequestError(JStr(m), 400).value;
    cut, tail := SeparatorText(m);
    assert c.argument == [("message", JStr(m)), ("status", JNum(400))];
    assert Get(c.error, "message") == Some(JStr(cut + m + tail));
  }

  /** The as-written cast of a message whose JSON text is cut at `cut`. */
  lemma CastCut(cut: string, tail: string)
    requires cut == "{" + Quote("message") + ":\""
    requires forall j | 0 <= j < |cut| :: cut[j] != 'R'
    ensures CastRpcErrorAsWritten(PlainError(Separator + (cut + Separator + tail))) == Failure(SyntaxError)
  {
    var wire := Separator + (cut + Separator + tail);
    GetFirst(PlainError(wire), 0, "message");
    SecondPiece(cut, tail);
    ParseCut("message");
  }

  /** The serialised `{message: "RequestError: ", status: 400}` holds the
      separator right after `{"message":"`. */
  lemma SeparatorText(m: string) returns (cut: string, tail: string)
    requires m == Separator
    ensures cut == "{" + Quote("message") + ":\""
    ensures forall j | 0 <= j < |cut| :: cut[j] != 'R'
    ensures Stringify(JObj([("message", JStr(m)), ("status", JNum(400))])) == cut + m + tail
  {
    var rest := [("status", JNum(400))];
    cut := "{" + Quote("message") + ":\"";
    tail := "\"" + "," + StringifyMembers(rest) + "}";
    StatusAfterMessage(m, 400);
    StringifyPair("message", m, rest);
    SeparatorPlain(m);
    CutText();
  }

  lemma StatusAfterMessage(m: string, status: int)
    ensures [("message", JStr(m))] + [("status", JNum(status))] == [("message", JStr(m)), ("status", JNum(status))]
  {
  }

  lemma SeparatorPlain(m: string)
    requires m == Separator
    ensures Escape(m) == m
  {
    assert forall i | 0 <= i < |m| :: PlainChar(m[i]);
    EscapePlain(m);
  }

  lemma CutText()
    ensures forall j | 0 <= j < |"{" + Quote("message") + ":\""| :: ("{" + Quote("message") + ":\"")[j] != 'R'
  {
    QuoteMessage();
    CutLetters("{" + Quote("message") + ":\"");
  }

  lemma QuoteMessage()
    ensures Quote("message") == "\"message\""
  {
    MessagePlain();
    EscapePlain("message");
  }

  lemma MessagePlain()
    ensures forall i | 0 <= i < |"message"| :: PlainChar("message"[i])
  {
  }

  lemma CutLetters(cut: string)
    requires cut == "{\"message\":\""
    ensures forall j | 0 <= j < |cut| :: cut[j] != 'R'
  {
  }

  /** The text of an object whose first property holds a string. */
  lemma StringifyPair(k: string, v: string, rest: Members)
    requires |rest| > 0
    ensures Stringify(JObj([(k, JStr(v))] + rest)) ==
      ("{" + Quote(k) + ":\"") + Escape(v) + ("\"" + "," + StringifyMembers(rest) + "}")
  {
    PairMembers(k, v, rest);
    ColonQuote();
    PairRegroup(Quote(k), Escape(v), StringifyMembers(rest));
  }

  /** The members of such an object, before the braces are added. */
  lemma PairMembers(k: string, v: string, rest: Members)
    requires |rest| > 0
    ensures StringifyMembers([(k, JStr(v))] + rest) ==
      Quote(k) + ":" + ("\"" + Escape(v) + "\"") + ("," + StringifyMembers(rest))
  {
    assert ([(k, JStr(v))] + rest)[1..] == rest;
  }

  lemma ColonQuote()
    ensures ":" + "\"" == ":\""
  {
  }

  lemma PairRegroup(q: string, e: string, r: string)
    ensures "{" + (q + ":" + ("\"" + e + "\"") + ("," + r)) + "}" ==
      ("{" + q + (":" + "\"")) + e + ("\"" + "," + r + "}")
  {
  }

  /** `split` cuts `"RequestError: " + cut + "RequestError: " + tail` into
      pieces whose second is `cut`, when `cut` holds no `R`. */
  lemma SecondPiece(cut: string, tail: string)
    requires forall j | 0 <= j < |cut| :: cut[j] != 'R'
    ensures var parts := Split(Separator + (cut + Separator + tail), Separator);
      |parts| > 1 && parts[1] == cut
  {
    var text := cut + Separator + tail;
    var wire := Separator + text;
    assert IndexOf(wire, Separator, 0) == Some(0) by {
      assert OccursAt(wire, Separator, 0);
    }
    assert wire[|Separator|..] == text;
    assert IndexOf(text, Separator, 0) == Some(|cut|) by {
      assert text[|cut|..|cut| + |Separator|] == Separator;
      forall j | 0 <= j < |cut|
        ensures !OccursAt(text, Separator, j)
      {
        assert text[j] == cut[j];
        if j + |Separator| <= |text| {
          assert text[j..j + |Separator|][0] == text[j];
        }
      }
      FirstOccurrence(text, Separator, |cut|);
    }
    assert text[..|cut|] == cut;
  }

  /** An object text cut off right after the opening quote of its first
      value, such as `{"message":"`, is not JSON text. */
  lemma ParseCut(k: string)
    ensures Parse("{" + Quote(k) + ":\"").None?
  {
    var s := "{" + Quote(k) + ":\"";
    var body := s[1..];
    assert body == "\"" + (Escape(k) + "\"" + ":\"");
    assert body[1..] == Escape(k) + "\"" + ":\"";
    ParseQuoted(k, ":\"");
    assert ParseChars(body[1..]) == Some((k, ":\""));
    assert ":\""[1..] == "\"";
    assert ParseValue("\"").None?;
    assert ParseMembers(body, []).None?;
    assert ParseObject(body).None?;
  }

  /** `===` between a property read and an expected value: objects are never
      identical to a value built elsewhere, and a missing property is
      `undefined`, which no JSON value equals. */
  predicate StrictEquals(actual: Option<Json>, expected: Json) {
    actual.Some? && !actual.value.JObj? && !expected.JObj? && actual.value == expected
  }

  /** What `isRpcError` checks once the error is cast: the name is
      "RequestError" and every listed property is strictly equal to the
      expected value. */
  predicate Recognised(e: ErrorObject, eq: Members) {
    && Get(e, "name") == Some(JStr(RequestErrorName))
    && forall i | 0 <= i < |eq| :: StrictEquals(Get(e, eq[i].0), eq[i].1)
  }

  /** `isRpcError(err, eq)` as written: the error goes through the
      as-written cast, whose exception propagates. */
  function IsRpcError(err: ErrorObject, eq: Members): (r: Result<bool, Thrown>)
    ensures r.Failure? <==> CastRpcErrorAsWritten(err).Failure?
    ensures r.Failure? ==> r.error == CastRpcErrorAsWritten(err).error
    ensures r.Success? ==>
      (r.value <==>
        && Get(CastRpcErrorAsWritten(err).value, "name") == Some(JStr(RequestErrorName))
        && forall i | 0 <= i < |eq| :: StrictEquals(Get(CastRpcErrorAsWritten(err).value, eq[i].0), eq[i].1))
  {
    var e :- CastRpcErrorAsWritten(err);
    Success(Recognised(e, eq))
  }

  /** `isRpcError(err, eq)` over the corrected cast. */
  function IsRpcErrorCorrected(err: ErrorObject, eq: Members): (r: Result<bool, Thrown>)
    ensures r.Failure? <==> CastRpcError(err).Failure?
    ensures r.Success? ==>
      (r.value <==>
        && Get(CastRpcError(err).value, "name") == Some(JStr(RequestErrorName))
        && forall i | 0 <= i < |eq| :: StrictEquals(Get(CastRpcError(err).value, eq[i].0), eq[i].1))
  {
    var e :- CastRpcError(err);
    Success(Recognised(e, eq))
  }

  /** A plain error whose message lacks the separator is not a RequestError,
      under either cast. */
  lemma PlainErrorIsNotRpcError(m: string, eq: Members)
    requires IndexOf(m, Separator, 0).None?
    ensures IsRpcError(PlainError(m), eq) == Success(false)
    ensures IsRpcErrorCorrected(PlainError(m), eq) == Success(false)
  {
    var e := PlainError(m);
    GetFirst(e, 0, "message");
    GetFirst(e, 1, "name");
    assert MessageText(e) == m;
    assert CastRpcErrorAsWritten(e) == Success(e);
    assert CastRpcError(e) == Success(e);
    assert Get(e, "name") != Some(JStr(RequestErrorName));
  }

  /** An error with no own `message` (`new Error()`) reads the inherited
      empty message, so neither cast changes it and it is not a
      RequestError unless its own name says so. */
  lemma NoMessageNotRpcError(err: ErrorObject, eq: Members)
    requires Get(err, "message").None?
    requires Get(err, "name") != Some(JStr(RequestErrorName))
    ensures IsRpcError(err, eq) == Success(false)
    ensures IsRpcErrorCorrected(err, eq) == Success(false)
  {
  }

  /** The bare `new Error()`: its only own property is its name. */
  lemma BareErrorNotRpcError(eq: Members)
    ensures IsRpcError([("name", JStr("Error"))], eq) == Success(false)
  {
    var err: ErrorObject := [("name", JStr("Error"))];
    GetFirst(err, 0, "name");
    assert Get(err, "message").None?;
    NoMessageNotRpcError(err, eq);
  }

  /** An empty expectation matches every RequestError whose message does
      not hold the separator. */
  lemma EmptyExpectation(m: string, status: int)
    requires IndexOf(m, Separator, 0).None?
    ensures IsRpcError(Received(NewRequestError(JStr(m), status).value.error), []) == Success(true)
  {
    CastRoundTripAsWritten(m, status);
  }

  /** Such a RequestError, thrown across the boundary, is recognised by its
      status. */
  lemma RecognisedByStatus(m: string, status: int)
    requires IndexOf(m, Separator, 0).None?
    ensures IsRpcError(Received(NewRequestError(JStr(m), status).value.error), [("status", JNum(status))]) == Success(true)
  {
    CastRoundTripAsWritten(m, status);
    var c := CastRpcErrorAsWritten(Received(NewRequestError(JStr(m), status).value.error)).value;
    assert Recognised(c, [("status", JNum(status))]);
  }

  /** Against recognition: for the RequestError whose message is the
      separator, `isRpcError` throws a SyntaxError, whatever is expected. */
  lemma SeparatorNotRecognised(m: string, eq: Members)
    requires m == Separator
    ensures IsRpcError(Received(NewRequestError(JStr(m), 400).value.error), eq) == Failure(SyntaxError)
  {
    SeparatorInMessage(m);
  }

  /** With the corrected cast every RequestError thrown across the boundary
      is recognised, by an empty expectation and by its status. */
  lemma CorrectedRecognises(m: string, status: int)
    ensures IsRpcErrorCorrected(Received(NewRequestError(JStr(m), status).value.error), []) == Success(true)
    ensures IsRpcErrorCorrected(Received(NewRequestError(JStr(m), status).value.error), [("status", JNum(status))]) == Success(true)
  {
    CastRoundTrip(m, status);
  }

  // ---------------------------------------------------------------------------
  // The as-written cast on messages without the separator

  /** No occurrence of the separator anywhere in `s`. */
  predicate SeparatorFree(s: string) {
    forall j | 0 <= j < |s| :: !OccursAt(s, Separator, j)
  }

  /** No capital `R`, the separator's first letter. */
  predicate NoR(s: string) {
    forall k | 0 <= k < |s| :: s[k] != 'R'
  }

  lemma SeparatorChars()
    ensures |Separator| == 14 && Separator[0] == 'R'
    ensures forall k | 0 <= k < |Separator| :: Separator[k] != '"' && Separator[k] != '\\'
  {
  }

  /** A plain character is written as itself; any other starts with a
      backslash and holds no `R`. */
  lemma EscapeCharShape(c: char)
    ensures PlainChar(c) ==> EscapeChar(c) == [c]
    ensures !PlainChar(c) ==> |EscapeChar(c)| > 0 && EscapeChar(c)[0] == '\\' && NoR(EscapeChar(c))
  {
    if c as int < 0x20 && c != '\n' && c != '\r' && c != '\t' && c as int != 8 && c as int != 12 {
      HexNoR(c as int / 16);
      HexNoR(c as int % 16);
    }
  }

  lemma HexNoR(d: nat)
    requires d < 16
    ensures HexChar(d) != 'R'
  {
  }

  /** Escaped text that begins with backslash-free `w` comes from a string
      that begins with `w`. */
  lemma {:induction false} PlainPrefix(x: string, w: string)
    requires forall k | 0 <= k < |w| :: w[k] != '\\'
    ensures |w| <= |Escape(x)| && Escape(x)[..|w|] == w ==> |w| <= |x| && x[..|w|] == w
    decreases |w|
  {
    if |w| > 0 && |w| <= |Escape(x)| && Escape(x)[..|w|] == w {
      var e := EscapeChar(x[0]);
      EscapeCharShape(x[0]);
      assert Escape(x) == e + Escape(x[1..]);
      assert Escape(x)[0] == w[0];
      assert e == [x[0]];
      assert Escape(x[1..])[..|w| - 1] == w[1..];
      PlainPrefix(x[1..], w[1..]);
      assert x[..|w|] == [x[0]] + x[1..][..|w| - 1];
    }
  }

  /** Escaping never creates the separator. */
  lemma {:induction false} EscapeSeparatorFree(m: string)
    requires SeparatorFree(m)
    ensures SeparatorFree(Escape(m))
    decreases |m|
  {
    if |m| > 0 {
      var c, rest := m[0], Escape(m[1..]);
      var e := EscapeChar(c);
      TailSeparatorFree(m);
      EscapeSeparatorFree(m[1..]);
      EscapeCharShape(c);
      SeparatorChars();
      var s := Escape(m);
      assert s == e + rest;
      forall j | 0 <= j < |s|
        ensures !OccursAt(s, Separator, j)
      {
        if 0 <= j && j + |Separator| <= |s| {
          if j >= |e| {
            assert !OccursAt(rest, Separator, j - |e|);
            assert s[j..j + |Separator|] == rest[j - |e|..j - |e| + |Separator|];
          } else if PlainChar(c) {
            PlainStart(m);
          } else {
            assert s[j] == e[j];
            assert s[j..j + |Separator|][0] == e[j];
          }
        }
      }
    }
  }

  lemma TailSeparatorFree(m: string)
    requires |m| > 0 && SeparatorFree(m)
    ensures SeparatorFree(m[1..])
  {
    forall i | 0 <= i < |m[1..]|
      ensures !OccursAt(m[1..], Separator, i)
    {
      assert !OccursAt(m, Separator, i + 1);
      if i + |Separator| <= |m[1..]| {
        assert m[1..][i..i + |Separator|] == m[i + 1..i + 1 + |Separator|];
      }
    }
  }

  /** When `m` opens with a plain character, its escaped text does not open
      with the separator. */
  lemma PlainStart(m: string)
    requires |m| > 0 && PlainChar(m[0]) && SeparatorFree(m)
    ensures !OccursAt(Escape(m), Separator, 0)
  {
    SeparatorChars();
    assert !OccursAt(m, Separator, 0);
    PlainOpening(m, Separator);
  }

  /** The same for any backslash-free `sep` that `m` does not open with. */
  lemma PlainOpening(m: string, sep: string)
    requires |m| > 0 && PlainChar(m[0]) && |sep| > 0 && !OccursAt(m, sep, 0)
    requires forall k | 0 <= k < |sep| :: sep[k] != '\\'
    ensures !OccursAt(Escape(m), sep, 0)
  {
    var c, x := m[0], m[1..];
    EscapedHead(m);
    var w := sep[1..];
    assert sep == [sep[0]] + w;
    PlainPrefix(x, w);
    ConsPrefix(c, Escape(x), w);
    ConsPrefix(c, x, w);
    assert m == [c] + x;
  }

  lemma EscapedHead(m: string)
    requires |m| > 0 && PlainChar(m[0])
    ensures Escape(m) == [m[0]] + Escape(m[1..])
  {
    EscapeCharShape(m[0]);
  }

  lemma ConsPrefix(c: char, x: string, w: string)
    ensures (|w| + 1 <= |[c] + x| && ([c] + x)[..|w| + 1] == [c] + w) <==> (|w| <= |x| && x[..|w|] == w)
  {
    if |w| <= |x| {
      assert ([c] + x)[..|w| + 1] == [c] + x[..|w|];
      assert ([c] + x[..|w|])[1..] == x[..|w|];
      assert ([c] + w)[1..] == w;
    }
  }

  /** Text made of an `R`-free part, a separator-free part and an `R`-free
      part opening with a quote holds no separator. */
  lemma JoinSeparatorFree(a: string, b: string, c: string)
    requires NoR(a) && SeparatorFree(b) && NoR(c) && |c| > 0 && c[0] == '"'
    ensures SeparatorFree(a + b + c)
  {
    SeparatorChars();
    var s := a + b + c;
    forall j | 0 <= j < |s|
      ensures !OccursAt(s, Separator, j)
    {
      if 0 <= j && j + |Separator| <= |s| {
        var w := s[j..j + |Separator|];
        if j < |a| {
          assert w[0] == a[j];
        } else if j + |Separator| <= |a| + |b| {
          assert !OccursAt(b, Separator, j - |a|);
          assert w == b[j - |a|..j - |a| + |Separator|];
        } else if j < |a| + |b| {
          assert w[|a| + |b| - j] == c[0];
        } else {
          assert w[0] == c[j - |a| - |b|];
        }
      }
    }
  }

  lemma QuoteStatus()
    ensures Quote("status") == "\"status\"" && NoR(Quote("status") + ":")
  {
    assert forall i | 0 <= i < |"status"| :: PlainChar("status"[i]);
    EscapePlain("status");
  }

  lemma IntToStringNoR(n: int)
    ensures NoR(IntToString(n))
  {
    var d := NatToString(if n < 0 then -n else n);
    NatToStringDigits(if n < 0 then -n else n);
    assert NoR(d);
  }

  /** The text after the message in `{message, status}`: a quote, a comma,
      the status member and the closing brace. */
  lemma StatusTailNoR(status: int) returns (tail: string)
    ensures tail == "\"" + "," + StringifyMembers([("status", JNum(status))]) + "}"
    ensures NoR(tail) && |tail| > 0 && tail[0] == '"'
  {
    var ms := [("status", JNum(status))];
    var member := StringifyMembers(ms);
    tail := "\"" + "," + member + "}";
    SingleMember("status", JNum(status));
    QuoteStatus();
    IntToStringNoR(status);
    NoRJoin(Quote("status") + ":", IntToString(status));
    NoRJoin("\"" + ",", member);
    NoRJoin("\"" + "," + member, "}");
  }

  lemma SingleMember(k: string, v: Json)
    ensures StringifyMembers([(k, v)]) == Quote(k) + ":" + Stringify(v)
  {
    var ms := [(k, v)];
    assert ms[0] == (k, v);
    assert StringifyMembers(ms) == Quote(k) + ":" + Stringify(v) + "";
  }

  lemma NoRJoin(a: string, b: string)
    requires NoR(a) && NoR(b)
    ensures NoR(a + b)
  {
    assert forall k | 0 <= k < |a + b| :: (a + b)[k] == if k < |a| then a[k] else b[k - |a|];
  }

  /** The JSON text of `{message: m, status}` holds the separator only if
      `m` does. */
  lemma MessageTextSeparatorFree(m: string, status: int)
    requires SeparatorFree(m)
    ensures SeparatorFree(Stringify(JObj([("message", JStr(m)), ("status", JNum(status))])))
  {
    var rest := [("status", JNum(status))];
    StatusAfterMessage(m, status);
    StringifyPair("message", m, rest);
    CutText();
    EscapeSeparatorFree(m);
    var tail := StatusTailNoR(status);
    JoinSeparatorFree("{" + Quote("message") + ":\"", Escape(m), tail);
  }

  /** On a received message whose JSON text holds no separator, the two
      casts agree. */
  lemma WireAgreement(text: string)
    requires SeparatorFree(text)
    ensures CastRpcErrorAsWritten(PlainError(Separator + text)) == CastRpcError(PlainError(Separator + text))
  {
    var wire := Separator + text;
    var err := PlainError(wire);
    GetFirst(err, 0, "message");
    assert MessageText(err) == wire;
    assert IndexOf(wire, Separator, 0) == Some(0) by {
      assert OccursAt(wire, Separator, 0);
    }
    assert wire[|Separator|..] == text;
    assert IndexOf(text, Separator, 0).None?;
    CastAgreement(err);
  }

  /** Round trip for the cast as written: a RequestError whose message does
      not hold the separator comes back with its message and status. */
  lemma CastRoundTripAsWritten(m: string, status: int)
    requires IndexOf(m, Separator, 0).None?
    ensures var e := NewRequestError(JStr(m), status).value.error;
      CastRpcErrorAsWritten(Received(e)).Success? && Carries(CastRpcErrorAsWritten(Received(e)).value, m, status)
  {
    var a := [("message", JStr(m)), ("status", JNum(status))];
    var e := NewRequestError(JStr(m), status).value.error;
    var text := Stringify(JObj(a));
    assert MessageText(e) == text;
    MessageTextSeparatorFree(m, status);
    WireAgreement(text);
    CastRoundTrip(m, status);
  }
}
