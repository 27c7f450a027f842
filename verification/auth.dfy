/**
 The bearer-token gate in front of the create handler, and the create handler
 it guards.

 The gate reads the `Authorization` header, takes the second piece of the header
 split on single spaces, refuses with 401 when there is no header or that piece
 is empty, refuses with 401 when the token does not decode, and otherwise runs
 the handler. Token decoding (signature and expiry) is a parameter `decodes`.
 */
module Auth {
  import opened Reminders

  const Space: char := ' '
  const AuthorizationHeader: string := "Authorization"

  const Created: int := 201
  const Unauthorized: int := 401
  /** The response when the handler raises. */
  const ServerError: int := 500

  /** Python's `s.split(sep)` with an explicit separator: every occurrence of
      `sep` cuts, so neighbouring separators give empty pieces. */
  function Split(s: string, sep: char): (parts: seq<string>)
    ensures |parts| >= 1
    ensures |parts| >= 2 <==> sep in s
    ensures forall k :: 0 <= k < |parts| ==> sep !in parts[k]
  {
    if |s| == 0 then [""]
    else
      var rest := Split(s[1..], sep);
      assert sep in s <==> s[0] == sep || sep in s[1..] by {
        assert s == [s[0]] + s[1..];
      }
      if s[0] == sep then [""] + rest
      else [[s[0]] + rest[0]] + rest[1..]
  }

  /** `sep.join(parts)`. */
  function Join(parts: seq<string>, sep: char): string
    requires |parts| >= 1
  {
    if |parts| == 1 then parts[0]
    else parts[0] + [sep] + Join(parts[1..], sep)
  }

  /** Joining the pieces back gives the original text. */
  lemma {:induction false} JoinSplit(s: string, sep: char)
    ensures Join(Split(s, sep), sep) == s
  {
    if |s| > 0 {
      var rest := Split(s[1..], sep);
      JoinSplit(s[1..], sep);
      if s[0] == sep {
        assert s == [sep] + s[1..];
      } else if |rest| == 1 {
        assert s == [s[0]] + s[1..];
      } else {
        assert ([[s[0]] + rest[0]] + rest[1..])[1..] == rest[1..];
        assert s == [s[0]] + s[1..];
      }
    }
  }

  /** Splitting a join of separator-free pieces gives back the pieces. */
  lemma {:induction false} SplitJoin(parts: seq<string>, sep: char)
    requires |parts| >= 1
    requires forall k :: 0 <= k < |parts| ==> sep !in parts[k]
    ensures Split(Join(parts, sep), sep) == parts
  {
    if |parts| == 1 {
      SplitFree(parts[0], sep);
    } else {
      SplitJoin(parts[1..], sep);
      SplitAfterFree(parts[0], sep, Join(parts[1..], sep));
      assert parts == [parts[0]] + parts[1..];
    }
  }

  /** A separator-free text is one piece. */
  lemma {:induction false} SplitFree(s: string, sep: char)
    requires sep !in s
    ensures Split(s, sep) == [s]
  {
    if |s| > 0 {
      assert sep !in s[1..];
      SplitFree(s[1..], sep);
      assert s == [s[0]] + s[1..];
    }
  }

  /** A separator-free prefix followed by a separator starts a new piece. */
  lemma {:induction false} SplitAfterFree(p: string, sep: char, tail: string)
    requires sep !in p
    ensures Split(p + [sep] + tail, sep) == [p] + Split(tail, sep)
  {
    if |p| == 0 {
      assert p + [sep] + tail == [sep] + tail;
      assert ([sep] + tail)[1..] == tail;
    } else {
      var s := p + [sep] + tail;
      assert s[1..] == p[1..] + [sep] + tail;
      assert sep !in p[1..];
      SplitAfterFree(p[1..], sep, tail);
      assert p == [p[0]] + p[1..];
    }
  }

  /** Headers can be read without error: when the `Authorization` header is
      present it contains a space, so `split(" ")[1]` exists. */
  predicate HeadersReadable(headers: map<string, string>)
  {
    AuthorizationHeader in headers ==> Space in headers[AuthorizationHeader]
  }

  /** The token the gate sees: `None` without the header, otherwise the second
      space-separated piece of it. */
  function Token(headers: map<string, string>): (tok: Option<string>)
    requires HeadersReadable(headers)
    ensures tok.None? <==> AuthorizationHeader !in headers
    ensures tok.Some? ==> Space !in tok.value
  {
    if AuthorizationHeader in headers then
      Some(Split(headers[AuthorizationHeader], Space)[1])
    else None
  }

  /** A header of the intended shape `Bearer <token>` yields that token. */
  lemma BearerHeaderYieldsToken(headers: map<string, string>, scheme: string, tok: string)
    requires AuthorizationHeader in headers
    requires headers[AuthorizationHeader] == scheme + [Space] + tok
    requires Space !in scheme && Space !in tok
    ensures HeadersReadable(headers)
    ensures Token(headers) == Some(tok)
  {
    assert headers[AuthorizationHeader][|scheme|] == Space;
    SplitJoin([scheme, tok], Space);
    assert Join([scheme, tok], Space) == scheme + [Space] + tok by {
      assert [scheme, tok][1..] == [tok];
    }
  }

  /** What the gate decides. */
  datatype Decision = MissingToken | InvalidToken | Proceed

  /** The gate: a missing or empty token is refused first, then a token that
      does not decode; only then does the wrapped handler run. */
  function Gate(headers: map<string, string>, decodes: string -> bool): (d: Decision)
    requires HeadersReadable(headers)
    ensures d == MissingToken <==> Token(headers) == None || Token(headers) == Some("")
    ensures d == Proceed <==>
              Token(headers).Some? && Token(headers).value != "" && decodes(Token(headers).value)
  {
    match Token(headers)
    case None => MissingToken
    case Some(tok) =>
      if tok == "" then MissingToken
      else if !decodes(tok) then InvalidToken
      else Proceed
  }

  /** Text the database driver accepts as a parameter: it refuses any string
      holding the NUL character, and the handler then raises. */
  predicate Storable(s: string)
  {
    forall i :: 0 <= i < |s| ==> s[i] != '\0'
  }

  /** `POST /reminders`: the gate, then the insert. Returns the new table and
      the response status. A refused or failed request leaves the table as it
      was. */
  function PostReminder(
    t: Table, headers: map<string, string>, decodes: string -> bool,
    title: string, triggerTime: string): (r: (Table, int))
    requires HeadersReadable(headers)
    requires Gate(headers, decodes) == Proceed ==> t.nextId <= MaxSerial
    ensures r.1 == Created || r.1 == Unauthorized || r.1 == ServerError
    ensures r.1 == Unauthorized <==> Gate(headers, decodes) != Proceed
    ensures r.1 == Created <==>
              Gate(headers, decodes) == Proceed && Storable(title) && Storable(triggerTime)
    ensures r.1 != Created ==> r.0 == t
    ensures r.1 == Created ==>
              && |r.0.rows| == |t.rows| + 1
              && r.0.rows[..|t.rows|] == t.rows
              && r.0.rows[|t.rows|] == Reminder(t.nextId, title, triggerTime, None, Pending)
    ensures Valid(t) ==> Valid(r.0)
  {
    if Gate(headers, decodes) != Proceed then (t, Unauthorized)
    else if !Storable(title) || !Storable(triggerTime) then (t, ServerError)
    else (Insert(t, title, triggerTime), Created)
  }

  /** Without an `Authorization` header the create request is refused and
      nothing is stored, whatever the decoder would say. */
  lemma NoHeaderNoInsert(
    t: Table, headers: map<string, string>, decodes: string -> bool,
    title: string, triggerTime: string)
    requires AuthorizationHeader !in headers
    ensures PostReminder(t, headers, decodes, title, triggerTime) == (t, Unauthorized)
  {
  }

  /** A token that does not decode is refused and nothing is stored. */
  lemma BadTokenNoInsert(
    t: Table, headers: map<string, string>, decodes: string -> bool,
    title: string, triggerTime: string)
    requires HeadersReadable(headers)
    requires Token(headers).Some? && !decodes(Token(headers).value)
    ensures Gate(headers, decodes) != Proceed
    ensures PostReminder(t, headers, decodes, title, triggerTime) == (t, Unauthorized)
  {
  }

  /** A title or trigger time holding NUL passes the gate but fails in the
      insert: the answer is 500 and nothing is stored. */
  lemma NulFieldNoInsert(
    t: Table, headers: map<string, string>, decodes: string -> bool,
    title: string, triggerTime: string, k: nat)
    requires HeadersReadable(headers)
    requires Gate(headers, decodes) == Proceed && t.nextId <= MaxSerial
    requires (k < |title| && title[k] == '\0') || (k < |triggerTime| && triggerTime[k] == '\0')
    ensures PostReminder(t, headers, decodes, title, triggerTime) == (t, ServerError)
  {
  }
}
