/** A JSON text codec standing in for `JSON.stringify` and `JSON.parse` on the
    values a RequestError carries: null, booleans, integers, strings and
    objects. An object keeps its properties in insertion order, which is the
    order a JavaScript object lists properties whose names are not array
    indices; the runtime lists integer-like names ("0", "2", ...) first, in
    ascending order, and this model does not. */
module Json {
  import opened Wrappers

  datatype Json =
    | JNull
    | JBool(b: bool)
    | JNum(n: int)
    | JStr(s: string)
    | JObj(members: seq<(string, Json)>)

  type Members = seq<(string, Json)>

  // ---------------------------------------------------------------------------
  // Object properties

  /** The value of property `k`, as a property read on the object. */
  function Get(ms: Members, k: string): Option<Json>
  {
    if |ms| == 0 then None
    else if ms[0].0 == k then Some(ms[0].1)
    else Get(ms[1..], k)
  }

  /** A property assignment `o[k] = v`: an existing property keeps its place,
      a new one is added at the end. */
  function Set(ms: Members, k: string, v: Json): (r: Members)
    ensures Get(r, k) == Some(v)
    ensures forall k' | k' != k :: Get(r, k') == Get(ms, k')
    ensures Get(ms, k).None? ==> r == ms + [(k, v)]
    ensures Get(ms, k).Some? ==> |r| == |ms|
  {
    if |ms| == 0 then [(k, v)]
    else if ms[0].0 == k then [(k, v)] + ms[1..]
    else
      var r := [ms[0]] + Set(ms[1..], k, v);
      assert Get(ms, k).None? ==> ms == [ms[0]] + ms[1..];
      r
  }

  /** `Object.assign(target, source)` on property lists: every property of
      `source`, in order, is assigned onto `target`. */
  function Assign(target: Members, source: Members): Members
    decreases |source|
  {
    if |source| == 0 then target
    else
      Assign(Set(target, source[0].0, source[0].1), source[1..])
  }

  /** After `Object.assign`, a key of the source reads as in the source and
      every other key as in the target. */
  lemma {:induction false} AssignGet(target: Members, source: Members, k: string)
    requires DistinctKeys(source)
    ensures Get(Assign(target, source), k) ==
      if Get(source, k).Some? then Get(source, k) else Get(target, k)
    decreases |source|
  {
    if |source| > 0 {
      AssignGet(Set(target, source[0].0, source[0].1), source[1..], k);
      if source[0].0 == k {
        GetAbsent(source[1..], k);
      }
    }
  }

  lemma {:induction false} GetAbsent(ms: Members, k: string)
    requires forall i | 0 <= i < |ms| :: ms[i].0 != k
    ensures Get(ms, k) == None
  {
    if |ms| > 0 {
      GetAbsent(ms[1..], k);
    }
  }

  /** A read finds the first property with that key. */
  lemma {:induction false} GetFirst(ms: Members, i: nat, k: string)
    requires i < |ms| && ms[i].0 == k
    requires forall j | 0 <= j < i :: ms[j].0 != k
    ensures Get(ms, k) == Some(ms[i].1)
  {
    if i > 0 {
      GetFirst(ms[1..], i - 1, k);
    }
  }

  predicate DistinctKeys(ms: Members) {
    forall i, j | 0 <= i < j < |ms| :: ms[i].0 != ms[j].0
  }

  /** Keys are distinct at every level: true of every object JavaScript builds. */
  predicate WellFormed(v: Json) {
    match v
    case JObj(ms) =>
      && DistinctKeys(ms)
      && (forall i | 0 <= i < |ms| :: WellFormed(ms[i].1))
    case _ => true
  }

  /** Assigning a property keeps keys distinct; the keys afterwards are `k`
      and the keys that were there before. */
  lemma {:induction false} SetWellFormed(ms: Members, k: string, v: Json)
    requires WellFormed(JObj(ms)) && WellFormed(v)
    ensures WellFormed(JObj(Set(ms, k, v)))
    ensures forall i | 0 <= i < |Set(ms, k, v)| :: Set(ms, k, v)[i].0 == k || Get(ms, Set(ms, k, v)[i].0).Some?
  {
    if |ms| > 0 && ms[0].0 != k {
      assert WellFormed(JObj(ms[1..])) by {
        assert forall i | 0 <= i < |ms[1..]| :: ms[1..][i] == ms[i + 1];
      }
      SetWellFormed(ms[1..], k, v);
      GetAbsent(ms[1..], ms[0].0);
      var r := Set(ms, k, v);
      assert r == [ms[0]] + Set(ms[1..], k, v);
      forall i | 0 <= i < |r| && r[i].0 != k
        ensures Get(ms, r[i].0).Some?
      {
        if i > 0 {
          assert r[i] == Set(ms[1..], k, v)[i - 1];
        }
      }
    } else if |ms| > 0 {
      var r := Set(ms, k, v);
      assert r == [(k, v)] + ms[1..];
      assert forall i | 0 < i < |r| :: r[i] == ms[i];
      assert DistinctKeys(r);
      forall i | 0 < i < |ms|
        ensures Get(ms, ms[i].0).Some?
      {
        GetKey(ms, i);
      }
    }
  }

  /** `Object.assign` keeps keys distinct. */
  lemma {:induction false} AssignWellFormed(target: Members, source: Members)
    requires WellFormed(JObj(target)) && WellFormed(JObj(source))
    ensures WellFormed(JObj(Assign(target, source)))
    decreases |source|
  {
    if |source| > 0 {
      SetWellFormed(target, source[0].0, source[0].1);
      assert WellFormed(JObj(source[1..])) by {
        assert forall i | 0 <= i < |source[1..]| :: source[1..][i] == source[i + 1];
      }
      AssignWellFormed(Set(target, source[0].0, source[0].1), source[1..]);
    }
  }

  lemma {:induction false} GetKey(ms: Members, i: nat)
    requires i < |ms|
    ensures Get(ms, ms[i].0).Some?
  {
    if i > 0 && ms[0].0 != ms[i].0 {
      GetKey(ms[1..], i - 1);
    }
  }

  // ---------------------------------------------------------------------------
  // Serialisation (`JSON.stringify`)

  predicate IsDigit(c: char) { '0' <= c <= '9' }

  function DigitChar(d: nat): (c: char)
    requires d < 10
    ensures IsDigit(c) && c as int - '0' as int == d
  {
    "0123456789"[d]
  }

  function HexChar(d: nat): char
    requires d < 16
  {
    "0123456789abcdef"[d]
  }

  /** Decimal digits of `n`, most significant first, no leading zero. */
  function NatToString(n: nat): string
  {
    if n < 10 then [DigitChar(n)] else NatToString(n / 10) + [DigitChar(n % 10)]
  }

  function IntToString(n: int): string
  {
    if n < 0 then "-" + NatToString(-n) else NatToString(n)
  }

  /** How `JSON.stringify` writes one character inside a string literal. */
  function EscapeChar(c: char): string
  {
    if c == '"' then "\\\""
    else if c == '\\' then "\\\\"
    else if c as int == 8 then "\\b"
    else if c as int == 12 then "\\f"
    else if c == '\n' then "\\n"
    else if c == '\r' then "\\r"
    else if c == '\t' then "\\t"
    else if c as int < 0x20 then ['\\', 'u', '0', '0', HexChar(c as int / 16), HexChar(c as int % 16)]
    else [c]
  }

  function Escape(s: string): string
  {
    if |s| == 0 then "" else EscapeChar(s[0]) + Escape(s[1..])
  }

  /** A character `JSON.stringify` writes as itself inside a string. */
  predicate PlainChar(c: char) { c as int >= 0x20 && c != '"' && c != '\\' }

  lemma {:induction false} EscapePlain(s: string)
    requires forall i | 0 <= i < |s| :: PlainChar(s[i])
    ensures Escape(s) == s
  {
    if |s| > 0 {
      EscapePlain(s[1..]);
    }
  }

  function Quote(s: string): string
  {
    "\"" + Escape(s) + "\""
  }

  function Stringify(v: Json): string
    decreases v, 1
  {
    match v
    case JNull => "null"
    case JBool(b) => if b then "true" else "false"
    case JNum(n) => IntToString(n)
    case JStr(s) => Quote(s)
    case JObj(ms) => "{" + StringifyMembers(ms) + "}"
  }

  function StringifyMembers(ms: Members): string
    decreases ms, 0
  {
    if |ms| == 0 then ""
    else
      assert ms[0].1 < ms[0];
      Quote(ms[0].0) + ":" + Stringify(ms[0].1)
      + (if |ms| == 1 then "" else "," + StringifyMembers(ms[1..]))
  }

  // ---------------------------------------------------------------------------
  // Parsing (`JSON.parse`); each parser returns the value and the text after it

  predicate IsHex(c: char) { '0' <= c <= '9' || 'a' <= c <= 'f' || 'A' <= c <= 'F' }

  function HexValue(c: char): (d: nat)
    requires IsHex(c)
    ensures d < 16
  {
    if '0' <= c <= '9' then c as int - '0' as int
    else if 'a' <= c <= 'f' then c as int - 'a' as int + 10
    else c as int - 'A' as int + 10
  }

  /** The code unit written by the four hex digits that start `s`. */
  function HexUnit(s: string): (n: nat)
    requires |s| >= 4 && IsHex(s[0]) && IsHex(s[1]) && IsHex(s[2]) && IsHex(s[3])
    ensures n < 0x10000
  {
    HexValue(s[0]) * 4096 + HexValue(s[1]) * 256 + HexValue(s[2]) * 16 + HexValue(s[3])
  }

  predicate HexAt(s: string, i: nat) {
    i + 4 <= |s| && IsHex(s[i]) && IsHex(s[i + 1]) && IsHex(s[i + 2]) && IsHex(s[i + 3])
  }

  /** The character a backslash escape stands for. A `\u` escape of a high
      surrogate followed by a `\u` escape of a low surrogate is one
      character outside the Basic Multilingual Plane, as in UTF-16. */
  function ParseEscape(s: string): (r: Option<(char, string)>)
    ensures r.Some? ==> |r.value.1| < |s|
  {
    if |s| == 0 then None
    else if s[0] == '"' then Some(('"', s[1..]))
    else if s[0] == '\\' then Some(('\\', s[1..]))
    else if s[0] == '/' then Some(('/', s[1..]))
    else if s[0] == 'b' then Some((8 as char, s[1..]))
    else if s[0] == 'f' then Some((12 as char, s[1..]))
    else if s[0] == 'n' then Some(('\n', s[1..]))
    else if s[0] == 'r' then Some(('\r', s[1..]))
    else if s[0] == 't' then Some(('\t', s[1..]))
    else if s[0] == 'u' && HexAt(s, 1) then
      var code := HexUnit(s[1..]);
      if code < 0xD800 || 0xE000 <= code then Some((code as char, s[5..]))
      else if code < 0xDC00 && |s| >= 7 && s[5] == '\\' && s[6] == 'u' && HexAt(s, 7) then
        var low := HexUnit(s[7..]);
        if 0xDC00 <= low < 0xE000 then
          Some(((0x10000 + (code - 0xD800) * 0x400 + (low - 0xDC00)) as char, s[11..]))
        else None
      else None
    else None
  }

  /** The body of a string literal up to its closing quote. */
  function ParseChars(s: string): (r: Option<(string, string)>)
    ensures r.Some? ==> |r.value.1| < |s|
  {
    if |s| == 0 then None
    else if s[0] == '"' then Some(("", s[1..]))
    else if s[0] == '\\' then
      var e :- ParseEscape(s[1..]);
      var t :- ParseChars(e.1);
      Some(([e.0] + t.0, t.1))
    else if (s[0] as int) < 0x20 then None
    else
      var t :- ParseChars(s[1..]);
      Some(([s[0]] + t.0, t.1))
  }

  function DigitRun(s: string): (k: nat)
    ensures k <= |s|
  {
    if |s| == 0 || !IsDigit(s[0]) then 0 else 1 + DigitRun(s[1..])
  }

  predicate AllDigits(s: string) { forall i | 0 <= i < |s| :: IsDigit(s[i]) }

  function DigitsValue(ds: string): nat
    requires AllDigits(ds)
  {
    if |ds| == 0 then 0
    else DigitsValue(ds[..|ds| - 1]) * 10 + (ds[|ds| - 1] as int - '0' as int)
  }

  /** An unsigned integer: a lone `0`, or digits not starting with `0`. */
  function ParseNat(s: string): (r: Option<(nat, string)>)
    ensures r.Some? ==> |r.value.1| < |s|
  {
    if |s| == 0 || !IsDigit(s[0]) then None
    else if s[0] == '0' then Some((0, s[1..]))
    else
      var k := DigitRun(s);
      assert AllDigits(s[..k]) by { DigitRunAllDigits(s); }
      Some((DigitsValue(s[..k]), s[k..]))
  }

  lemma {:induction false} DigitRunAllDigits(s: string)
    ensures AllDigits(s[..DigitRun(s)])
  {
    if |s| > 0 && IsDigit(s[0]) {
      DigitRunAllDigits(s[1..]);
      assert s[..DigitRun(s)] == [s[0]] + s[1..][..DigitRun(s[1..])];
    }
  }

  function ParseLiteral(s: string, word: string, v: Json): (r: Option<(Json, string)>)
    requires |word| > 0
    ensures r.Some? ==> |r.value.1| < |s|
  {
    if |word| <= |s| && s[..|word|] == word then Some((v, s[|word|..])) else None
  }

  function ParseValue(s: string): (r: Option<(Json, string)>)
    decreases |s|, 2
    ensures r.Some? ==> |r.value.1| < |s|
  {
    if |s| == 0 then None
    else if s[0] == 'n' then ParseLiteral(s, "null", JNull)
    else if s[0] == 't' then ParseLiteral(s, "true", JBool(true))
    else if s[0] == 'f' then ParseLiteral(s, "false", JBool(false))
    else if s[0] == '"' then
      var t :- ParseChars(s[1..]);
      Some((JStr(t.0), t.1))
    else if s[0] == '-' then
      var t :- ParseNat(s[1..]);
      Some((JNum(0 - t.0), t.1))
    else if IsDigit(s[0]) then
      var t :- ParseNat(s);
      Some((JNum(t.0), t.1))
    else if s[0] == '{' then ParseObject(s[1..])
    else None
  }

  /** An object after its opening brace. */
  function ParseObject(s: string): (r: Option<(Json, string)>)
    decreases |s|, 1
    ensures r.Some? ==> |r.value.1| < |s|
  {
    if |s| == 0 then None
    else if s[0] == '}' then Some((JObj([]), s[1..]))
    else ParseMembers(s, [])
  }

  /** `"key":value` pairs separated by commas up to the closing brace; a
      repeated key is assigned again, as `JSON.parse` does. */
  function ParseMembers(s: string, acc: Members): (r: Option<(Json, string)>)
    decreases |s|, 0
    ensures r.Some? ==> |r.value.1| < |s|
  {
    if |s| == 0 || s[0] != '"' then None
    else
      var key :- ParseChars(s[1..]);
      if |key.1| == 0 || key.1[0] != ':' then None
      else
        var value :- ParseValue(key.1[1..]);
        var rest := value.1;
        var acc' := Set(acc, key.0, value.0);
        if |rest| == 0 then None
        else if rest[0] == ',' then ParseMembers(rest[1..], acc')
        else if rest[0] == '}' then Some((JObj(acc'), rest[1..]))
        else None
  }

  /** `JSON.parse`: one value and nothing after it. */
  function Parse(text: string): (r: Option<Json>)
    ensures r.Some? ==> ParseValue(text).Some? && ParseValue(text).value == (r.value, "")
  {
    match ParseValue(text)
    case Some((v, rest)) => if rest == "" then Some(v) else None
    case None => None
  }

  /** Every value `JSON.parse` builds has distinct keys at every level. */
  lemma {:induction false} ParsedWellFormed(text: string)
    ensures Parse(text).Some? ==> WellFormed(Parse(text).value)
  {
    ParsedValueWellFormed(text);
  }

  lemma {:induction false} ParsedValueWellFormed(s: string)
    ensures ParseValue(s).Some? ==> WellFormed(ParseValue(s).value.0)
    decreases |s|, 2
  {
    if |s| > 0 && s[0] == '{' {
      ParsedObjectWellFormed(s[1..]);
    }
  }

  lemma {:induction false} ParsedObjectWellFormed(s: string)
    ensures ParseObject(s).Some? ==> WellFormed(ParseObject(s).value.0)
    decreases |s|, 1
  {
    if |s| > 0 && s[0] != '}' {
      ParsedMembersWellFormed(s, []);
    }
  }

  lemma {:induction false} ParsedMembersWellFormed(s: string, acc: Members)
    requires WellFormed(JObj(acc))
    ensures ParseMembers(s, acc).Some? ==> WellFormed(ParseMembers(s, acc).value.0)
    decreases |s|, 0
  {
    if |s| > 0 && s[0] == '"' {
      match ParseChars(s[1..])
      case None =>
      case Some(key) =>
        if |key.1| > 0 && key.1[0] == ':' {
          ParsedValueWellFormed(key.1[1..]);
          match ParseValue(key.1[1..])
          case None =>
          case Some(value) =>
            SetWellFormed(acc, key.0, value.0);
            if |value.1| > 0 && value.1[0] == ',' {
              ParsedMembersWellFormed(value.1[1..], Set(acc, key.0, value.0));
            }
        }
    }
  }

  // ---------------------------------------------------------------------------
  // Round trip

  lemma {:induction false} NatToStringDigits(n: nat)
    ensures var s := NatToString(n);
      && |s| > 0 && AllDigits(s) && DigitsValue(s) == n
      && (s[0] == '0' <==> n == 0)
      && (n == 0 ==> s == "0")
  {
    if n >= 10 {
      NatToStringDigits(n / 10);
      var s := NatToString(n);
      assert s[..|s| - 1] == NatToString(n / 10);
    }
  }

  lemma {:induction false} DigitRunPrefix(ds: string, rest: string)
    requires AllDigits(ds)
    requires |rest| == 0 || !IsDigit(rest[0])
    ensures DigitRun(ds + rest) == |ds|
  {
    if |ds| > 0 {
      assert (ds + rest)[1..] == ds[1..] + rest;
      DigitRunPrefix(ds[1..], rest);
    } else {
      assert ds + rest == rest;
    }
  }

  lemma ParseNatToString(n: nat, rest: string)
    requires |rest| == 0 || !IsDigit(rest[0])
    ensures ParseNat(NatToString(n) + rest) == Some((n, rest))
  {
    var s := NatToString(n);
    NatToStringDigits(n);
    var t := s + rest;
    if n == 0 {
      assert t[1..] == rest;
    } else {
      DigitRunPrefix(s, rest);
      assert t[..|s|] == s;
      assert t[|s|..] == rest;
    }
  }

  lemma ParseDigitsValue(digits: string, m: nat, rest: string)
    requires |digits| > 0 && IsDigit(digits[0])
    requires ParseNat(digits + rest) == Some((m, rest))
    ensures ParseValue(digits + rest) == Some((JNum(m), rest))
  {
    assert (digits + rest)[0] == digits[0];
  }

  lemma ParseNegativeValue(digits: string, m: nat, rest: string)
    requires ParseNat(digits + rest) == Some((m, rest))
    ensures ParseValue("-" + digits + rest) == Some((JNum(-(m as int)), rest))
  {
    assert ("-" + digits + rest)[1..] == digits + rest;
  }

  lemma ParseNegativeToString(m: nat, rest: string)
    requires m > 0
    requires |rest| == 0 || !IsDigit(rest[0])
    ensures ParseValue(IntToString(-(m as int)) + rest) == Some((JNum(-(m as int)), rest))
  {
    var digits := NatToString(m);
    ParseNatToString(m, rest);
    ParseNegativeValue(digits, m, rest);
    NegativeText(m, rest);
  }

  lemma NegativeText(m: nat, rest: string)
    requires m > 0
    ensures IntToString(-(m as int)) + rest == "-" + NatToString(m) + rest
  {
  }

  lemma ParseIntToString(n: int, rest: string)
    requires |rest| == 0 || !IsDigit(rest[0])
    ensures ParseValue(IntToString(n) + rest) == Some((JNum(n), rest))
  {
    if n < 0 {
      ParseNegativeToString(-n, rest);
    } else {
      ParseNatToString(n, rest);
      NatToStringDigits(n);
      ParseDigitsValue(NatToString(n), n, rest);
    }
  }

  lemma ParseCharsPlain(c: char, x: string)
    requires c != '"' && c != '\\' && c as int >= 0x20
    ensures ParseChars([c] + x) ==
      match ParseChars(x)
      case Some(t) => Some(([c] + t.0, t.1))
      case None => None
  {
    assert ([c] + x)[1..] == x;
  }

  lemma ParseCharsEscaped(body: string, c: char, x: string)
    requires ParseEscape(body + x) == Some((c, x))
    ensures ParseChars("\\" + body + x) ==
      match ParseChars(x)
      case Some(t) => Some(([c] + t.0, t.1))
      case None => None
  {
    assert ("\\" + body + x)[1..] == body + x;
  }

  lemma ParseUnicodeEscape(c: char, x: string)
    requires c as int < 0x20
    ensures ParseEscape(['u', '0', '0', HexChar(c as int / 16), HexChar(c as int % 16)] + x) == Some((c, x))
  {
    var hi, lo := c as int / 16, c as int % 16;
    var s := ['u', '0', '0', HexChar(hi), HexChar(lo)] + x;
    assert HexValue(HexChar(hi)) == hi && HexValue(HexChar(lo)) == lo;
    assert s[5..] == x;
  }

  /** The escape body of a surrogate pair decodes to one character. */
  lemma SurrogateEscape(x: string)
    ensures ParseEscape("ud83d\\ude00" + x) == Some(('\U{1F600}', x))
  {
    var s := "ud83d\\ude00" + x;
    assert s[1..5] == "d83d" && s[7..11] == "de00" && s[11..] == x;
    assert HexUnit(s[1..]) == 0xD83D;
    assert HexUnit(s[7..]) == 0xDE00;
  }

  /** A surrogate pair written as two escapes is one character:
      `JSON.parse("\"\\ud83d\\ude00\"")` is U+1F600. */
  lemma SurrogatePair(text: string)
    requires text == "\"" + "\\" + "ud83d\\ude00" + "\""
    ensures Parse(text) == Some(JStr(['\U{1F600}']))
  {
    var body := "ud83d\\ude00";
    SurrogateEscape("\"");
    assert ParseChars("\"") == Some(("", ""));
    ParseCharsEscaped(body, '\U{1F600}', "\"");
    assert text == "\"" + ("\\" + body + "\"");
    assert text[1..] == "\\" + body + "\"";
    assert ['\U{1F600}'] + "" == ['\U{1F600}'];
    assert ParseValue(text) == Some((JStr(['\U{1F600}']), ""));
  }

  /** Parsing the escaped form of one character yields that character and
      continues with what follows. */
  lemma ParseEscapeChar(c: char, x: string)
    ensures ParseChars(EscapeChar(c) + x) ==
      match ParseChars(x)
      case Some(t) => Some(([c] + t.0, t.1))
      case None => None
  {
    if c == '"' || c == '\\' || c as int == 8 || c as int == 12 || c == '\n' || c == '\r' || c == '\t' {
      var body := EscapeChar(c)[1..];
      assert EscapeChar(c) == "\\" + body;
      assert (body + x)[1..] == x;
      ParseCharsEscaped(body, c, x);
    } else if c as int < 0x20 {
      var body := ['u', '0', '0', HexChar(c as int / 16), HexChar(c as int % 16)];
      assert EscapeChar(c) == "\\" + body;
      ParseUnicodeEscape(c, x);
      ParseCharsEscaped(body, c, x);
    } else {
      ParseCharsPlain(c, x);
    }
  }

  lemma {:induction false} ParseQuoted(str: string, rest: string)
    ensures ParseChars(Escape(str) + "\"" + rest) == Some((str, rest))
  {
    if |str| == 0 {
      assert Escape(str) + "\"" + rest == "\"" + rest;
    } else {
      ParseQuoted(str[1..], rest);
      assert Escape(str) + "\"" + rest == EscapeChar(str[0]) + (Escape(str[1..]) + "\"" + rest);
      ParseEscapeChar(str[0], Escape(str[1..]) + "\"" + rest);
      assert [str[0]] + str[1..] == str;
    }
  }

  lemma ParseKeyword(word: string, v: Json, rest: string)
    requires word == "null" || word == "true" || word == "false"
    requires v == (if word == "null" then JNull else JBool(word == "true"))
    ensures ParseValue(word + rest) == Some((v, rest))
  {
    var t := word + rest;
    assert t[..|word|] == word;
    assert t[|word|..] == rest;
  }

  lemma ParseQuotedValue(str: string, rest: string)
    ensures ParseValue(Quote(str) + rest) == Some((JStr(str), rest))
  {
    var t := Quote(str) + rest;
    assert t[1..] == Escape(str) + "\"" + rest;
    ParseQuoted(str, rest);
  }

  lemma ParseObjectText(ms: Members, rest: string)
    requires ParseObject(StringifyMembers(ms) + "}" + rest) == Some((JObj(ms), rest))
    ensures ParseValue("{" + StringifyMembers(ms) + "}" + rest) == Some((JObj(ms), rest))
  {
    assert ("{" + StringifyMembers(ms) + "}" + rest)[1..] == StringifyMembers(ms) + "}" + rest;
  }

  lemma {:induction false} ParseStringify(v: Json, rest: string)
    requires WellFormed(v)
    requires |rest| == 0 || !IsDigit(rest[0])
    ensures ParseValue(Stringify(v) + rest) == Some((v, rest))
    decreases v, 1
  {
    match v
    case JNull =>
      ParseKeyword("null", v, rest);
    case JBool(b) =>
      ParseKeyword(if b then "true" else "false", v, rest);
    case JNum(n) =>
      ParseIntToString(n, rest);
    case JStr(str) =>
      ParseQuotedValue(str, rest);
    case JObj(ms) =>
      if |ms| == 0 {
        assert ParseObject("}" + rest) == Some((JObj(ms), rest)) by {
          assert ("}" + rest)[1..] == rest;
        }
      } else {
        ParseStringifyMembers(ms, [], rest);
        assert [] + ms == ms;
      }
      ParseObjectText(ms, rest);
  }

  /** One `"key":value` pair, whatever text the value is written as. */
  lemma ParseMemberStep(k: string, text: string, v: Json, tail: string, acc: Members)
    requires |tail| > 0
    requires ParseValue(text + tail) == Some((v, tail))
    ensures ParseMembers(Quote(k) + ":" + text + tail, acc) ==
      if tail[0] == ',' then ParseMembers(tail[1..], Set(acc, k, v))
      else if tail[0] == '}' then Some((JObj(Set(acc, k, v)), tail[1..]))
      else None
  {
    var after := MemberText(k, text, tail);
    ParseQuoted(k, after);
  }

  /** How the text of one member splits into the opening quote, the
      escaped key, the closing quote and what follows. */
  lemma MemberText(k: string, text: string, tail: string) returns (after: string)
    ensures after == ":" + text + tail
    ensures after[0] == ':' && after[1..] == text + tail
    ensures var s := Quote(k) + ":" + text + tail;
      s[0] == '"' && s[1..] == Escape(k) + "\"" + after
  {
    after := ":" + text + tail;
    var s := Quote(k) + ":" + text + tail;
    assert s == "\"" + (Escape(k) + "\"" + after);
    assert after[1..] == text + tail;
  }

  lemma WellFormedMembers(ms: Members)
    requires |ms| > 0 && WellFormed(JObj(ms))
    ensures WellFormed(ms[0].1) && WellFormed(JObj(ms[1..]))
    ensures forall i | 0 <= i < |ms[1..]| :: ms[1..][i].0 != ms[0].0
  {
    assert forall i | 0 <= i < |ms[1..]| :: ms[1..][i] == ms[i + 1];
  }

  lemma StringifyMembersSplit(ms: Members, rest: string)
    requires |ms| > 0
    ensures StringifyMembers(ms) + "}" + rest ==
      Quote(ms[0].0) + ":" + Stringify(ms[0].1)
      + (if |ms| == 1 then "}" + rest else "," + (StringifyMembers(ms[1..]) + "}" + rest))
  {
    var a := Quote(ms[0].0) + ":" + Stringify(ms[0].1);
    if |ms| == 1 {
      assert StringifyMembers(ms) == a + "";
      assert a + "" == a;
    } else {
      var b := StringifyMembers(ms[1..]);
      assert StringifyMembers(ms) == a + ("," + b);
      Regroup(a, b, rest);
    }
  }

  lemma Regroup(a: string, b: string, rest: string)
    ensures a + ("," + b) + "}" + rest == a + ("," + (b + "}" + rest))
  {
  }

  /** A pair written by `StringifyMembers` parses back, whatever follows it. */
  lemma {:induction false} ParseStringifiedMember(k: string, v: Json, tail: string, acc: Members)
    requires WellFormed(v)
    requires |tail| > 0 && (tail[0] == ',' || tail[0] == '}')
    ensures ParseMembers(Quote(k) + ":" + Stringify(v) + tail, acc) ==
      if tail[0] == ',' then ParseMembers(tail[1..], Set(acc, k, v))
      else Some((JObj(Set(acc, k, v)), tail[1..]))
    decreases v, 2
  {
    ParseStringify(v, tail);
    ParseMemberStep(k, Stringify(v), v, tail, acc);
  }

  lemma {:induction false} ParseStringifyMembers(ms: Members, acc: Members, rest: string)
    requires |ms| > 0
    requires WellFormed(JObj(ms))
    requires forall i | 0 <= i < |ms| :: Get(acc, ms[i].0).None?
    ensures ParseMembers(StringifyMembers(ms) + "}" + rest, acc) == Some((JObj(acc + ms), rest))
    decreases ms, 3
  {
    assert ms[0].1 < ms[0];
    WellFormedMembers(ms);
    StringifyMembersSplit(ms, rest);
    if |ms| == 1 {
      ParseLastMember(ms, acc, rest);
    } else {
      ParseNextMember(ms, acc, rest);
    }
  }

  lemma {:induction false} ParseLastMember(ms: Members, acc: Members, rest: string)
    requires |ms| == 1 && WellFormed(ms[0].1)
    requires Get(acc, ms[0].0).None?
    ensures ParseMembers(Quote(ms[0].0) + ":" + Stringify(ms[0].1) + ("}" + rest), acc) == Some((JObj(acc + ms), rest))
    decreases ms, 2
  {
    var k, v := ms[0].0, ms[0].1;
    assert v < ms[0];
    ParseClosingMember(k, v, rest, acc);
    AppendFresh(acc, ms);
  }

  /** The last pair of an object, followed by its closing brace. */
  lemma {:induction false} ParseClosingMember(k: string, v: Json, rest: string, acc: Members)
    requires WellFormed(v)
    ensures ParseMembers(Quote(k) + ":" + Stringify(v) + ("}" + rest), acc) == Some((JObj(Set(acc, k, v)), rest))
    decreases v, 3
  {
    var tail := "}" + rest;
    assert tail[0] == '}' && tail[1..] == rest;
    ParseStringifiedMember(k, v, tail, acc);
  }

  /** Setting a key the accumulator lacks appends the pair. */
  lemma AppendFresh(acc: Members, ms: Members)
    requires |ms| == 1 && Get(acc, ms[0].0).None?
    ensures acc + ms == Set(acc, ms[0].0, ms[0].1)
  {
    assert ms == [(ms[0].0, ms[0].1)];
  }

  lemma {:induction false} ParseNextMember(ms: Members, acc: Members, rest: string)
    requires |ms| > 1 && WellFormed(ms[0].1) && WellFormed(JObj(ms[1..]))
    requires forall i | 0 <= i < |ms[1..]| :: ms[1..][i].0 != ms[0].0
    requires forall i | 0 <= i < |ms| :: Get(acc, ms[i].0).None?
    ensures ParseMembers(Quote(ms[0].0) + ":" + Stringify(ms[0].1) + ("," + (StringifyMembers(ms[1..]) + "}" + rest)), acc)
      == Some((JObj(acc + ms), rest))
    decreases ms, 2
  {
    assert ms[0].1 < ms[0];
    var more := StringifyMembers(ms[1..]) + "}" + rest;
    ParseStringifiedMember(ms[0].0, ms[0].1, "," + more, acc);
    assert ("," + more)[1..] == more;
    var acc' := FreshTail(ms, acc);
    ParseStringifyMembers(ms[1..], acc', rest);
  }

  /** The accumulator after the first pair still lacks every later key. */
  lemma FreshTail(ms: Members, acc: Members) returns (acc': Members)
    requires |ms| > 0
    requires forall i | 0 <= i < |ms[1..]| :: ms[1..][i].0 != ms[0].0
    requires forall i | 0 <= i < |ms| :: Get(acc, ms[i].0).None?
    ensures acc' == Set(acc, ms[0].0, ms[0].1) && acc' + ms[1..] == acc + ms
    ensures forall i | 0 <= i < |ms[1..]| :: Get(acc', ms[1..][i].0).None?
  {
    acc' := Set(acc, ms[0].0, ms[0].1);
    assert acc' == acc + [ms[0]];
    assert forall i | 0 <= i < |ms[1..]| :: Get(acc, ms[1..][i].0).None? by {
      assert forall i | 0 <= i < |ms[1..]| :: ms[1..][i] == ms[i + 1];
    }
  }

  /** `JSON.parse(JSON.stringify(v))` gives `v` back. */
  lemma RoundTrip(v: Json)
    requires WellFormed(v)
    ensures Parse(Stringify(v)) == Some(v)
  {
    ParseStringify(v, "");
    assert Stringify(v) + "" == Stringify(v);
  }
}
