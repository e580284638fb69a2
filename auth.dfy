/** The `authenticationToken` middleware: it takes the second space-separated field
    of the `authorization` header and hands it to `jwt.verify`, which is a
    parameter here. */
module Auth {
  import opened Tables
  import opened Schema

  /** JavaScript's `s.split(' ')`: the fields between single spaces, empty ones included. */
  function Split(s: string): (r: seq<string>)
    ensures |r| >= 1
    ensures forall i :: 0 <= i < |r| ==> ' ' !in r[i]
    decreases |s|
  {
    if |s| == 0 then [""]
    else
      var rest := Split(s[1..]);
      if s[0] == ' ' then [""] + rest
      else
        assert forall i :: 1 <= i < |rest| ==> rest[1..][i - 1] == rest[i];
        [[s[0]] + rest[0]] + rest[1..]
  }

  /** The fields glued back together with single spaces (`Array.prototype.join(' ')`). */
  function Join(fields: seq<string>): string
    requires |fields| >= 1
    decreases |fields|
  {
    if |fields| == 1 then fields[0] else fields[0] + " " + Join(fields[1..])
  }

  /** Joining the fields of a split gives back the header. */
  lemma {:induction false} JoinSplit(s: string)
    ensures Join(Split(s)) == s
    decreases |s|
  {
    if |s| > 0 {
      JoinSplit(s[1..]);
      var rest := Split(s[1..]);
      assert s == [s[0]] + s[1..];
      if s[0] != ' ' && |rest| > 1 {
        assert rest == [rest[0]] + rest[1..];
        assert Join(rest) == rest[0] + " " + Join(rest[1..]);
      }
    }
  }

  /** A space-free text followed by a space splits into that text and the fields of what follows. */
  lemma {:induction false} SplitAtFirstSpace(a: string, b: string)
    requires ' ' !in a
    ensures Split(a + " " + b) == [a] + Split(b)
    decreases |a|
  {
    if |a| > 0 {
      SplitAtFirstSpace(a[1..], b);
      assert (a + " " + b)[1..] == a[1..] + " " + b;
      assert [a[0]] + a[1..] == a;
    } else {
      assert a + " " + b == [' '] + b;
    }
  }

  /** Splitting space-free fields that were joined gives back the fields. */
  lemma {:induction false} SplitJoin(fields: seq<string>)
    requires |fields| >= 1
    requires forall i :: 0 <= i < |fields| ==> ' ' !in fields[i]
    ensures Split(Join(fields)) == fields
    decreases |fields|
  {
    if |fields| == 1 {
      SplitNoSpace(fields[0]);
    } else {
      SplitJoin(fields[1..]);
      SplitAtFirstSpace(fields[0], Join(fields[1..]));
      assert fields == [fields[0]] + fields[1..];
    }
  }

  /** A text without spaces is a single field. */
  lemma {:induction false} SplitNoSpace(s: string)
    requires ' ' !in s
    ensures Split(s) == [s]
    decreases |s|
  {
    if |s| > 0 {
      SplitNoSpace(s[1..]);
      assert s == [s[0]] + s[1..];
    }
  }

  /** `authHeader.split(' ')[1]`: `None` stands for `undefined`. */
  function SecondField(header: string): Option<string>
  {
    var fields := Split(header);
    if |fields| >= 2 then Some(fields[1]) else None
  }

  /** The second field is the text between the first space and the next space (or the end). */
  lemma SecondFieldAt(a: string, token: string, rest: string)
    requires ' ' !in a && ' ' !in token
    requires rest == "" || rest[0] == ' '
    ensures SecondField(a + " " + token + rest) == Some(token)
  {
    assert a + " " + token + rest == a + " " + (token + rest);
    SplitAtFirstSpace(a, token + rest);
    if rest == "" {
      assert token + rest == token;
      SplitNoSpace(token);
    } else {
      assert token + rest == token + " " + rest[1..];
      SplitAtFirstSpace(token, rest[1..]);
    }
  }

  /** A header without a space has no second field. */
  lemma NoSpaceNoSecondField(header: string)
    requires ' ' !in header
    ensures SecondField(header) == None
  {
    SplitNoSpace(header);
  }

  /** The token that survives the middleware's two guards: the header must be present
      and non-empty (`!authHeader`), and its second field present and non-empty (`!token`). */
  function BearerToken(header: Option<string>): (r: Option<string>)
    ensures r.Some? ==> r.value != "" && header.Some? && SecondField(header.value) == r
    ensures r.None? <==> header.None? || header.value == "" || SecondField(header.value) in {None, Some("")}
  {
    if header.None? || header.value == "" then None
    else match SecondField(header.value)
      case None => None
      case Some(token) => if token == "" then None else Some(token)
  }

  /** A well-formed `Authorization: <scheme> <token>` header yields its token. */
  lemma BearerTokenOf(scheme: string, token: string)
    requires ' ' !in scheme && ' ' !in token && token != ""
    ensures BearerToken(Some(scheme + " " + token)) == Some(token)
  {
    assert scheme + " " + token == scheme + " " + token + "";
    SecondFieldAt(scheme, token, "");
  }

  /** What the middleware decides: reject, or bind `request.username`. */
  datatype AuthResult = Rejected | Authenticated(username: string)

  /** The 401 response of every rejection. */
  function RejectedOutcome(): Outcome { Fail(401, InvalidToken) }

  /** The middleware, with `jwt.verify` (under the fixed secret) as the parameter
      `verify`; `None` stands for the error callback. */
  function Authenticate(header: Option<string>, verify: string -> Option<Claims>): (r: AuthResult)
    ensures BearerToken(header).None? ==> r == Rejected
    ensures r.Authenticated? <==> BearerToken(header).Some? && verify(BearerToken(header).value).Some?
    ensures r.Authenticated? ==> verify(BearerToken(header).value) == Some(Claims(r.username))
  {
    match BearerToken(header)
    case None => Rejected
    case Some(token) =>
      match verify(token)
      case None => Rejected
      case Some(payload) => Authenticated(payload.username)
  }

  /** A token issued at login, sent as `Bearer <token>`, binds the user it was issued to,
      given that `verify` inverts `sign` on it and that the token has no spaces. */
  lemma IssuedTokenAuthenticates(username: string, sign: Claims -> string, verify: string -> Option<Claims>)
    requires verify(sign(Claims(username))) == Some(Claims(username))
    requires ' ' !in sign(Claims(username)) && sign(Claims(username)) != ""
    ensures Authenticate(Some("Bearer " + sign(Claims(username))), verify) == Authenticated(username)
  {
    var token := sign(Claims(username));
    assert "Bearer " + token == "Bearer" + " " + token;
    BearerTokenOf("Bearer", token);
  }
}
