/** The server's bearer-token check (`authenticateToken` in `server/server.js`).
    Signature and expiry checking belong to the token library and are given
    as the parameter `verify`: the claims of a token it accepts, or nothing. */
module Auth {
  import opened Common
  import Text

  /** What a token carries: the `userId` and `username` it was signed with. */
  datatype Claims = Claims(userId: string, username: string)

  /** The outcome of the check: 401, 403, or the handler runs with the claims. */
  datatype Verdict = NoToken | BadToken | Admitted(claims: Claims) {

    function StatusCode(): int
      requires !Admitted?
    {
      if NoToken? then 401 else 403
    }
  }

  /** `authHeader && authHeader.split(' ')[1]`. An absent header yields no
      token; an empty header is falsy and is itself the (empty) token; any
      other header yields its second space-separated piece, if it has one. */
  function TokenOf(header: Option<string>): (t: Option<string>)
    ensures header.None? ==> t.None?
    ensures header == Some("") ==> t == Some("")
    ensures header.Some? && header.value != "" ==> (t.Some? <==> ' ' in header.value)
    ensures header.Some? && header.value != "" && t.Some? ==> ' ' !in t.value
  {
    match header
    case None => None
    case Some(h) =>
      if h == "" then Some("")
      else
        var parts := Text.Split(h, ' ');
        if |parts| >= 2 then Some(parts[1]) else None
  }

  /** The token is the text between the first space and the next space (or
      the end): a header `a t rest` with `a`, `t` free of spaces and `rest`
      empty or starting with a space. */
  lemma TokenIsSecondPiece(h: string)
    requires ' ' in h
    ensures exists a, rest :: Around(h, a, TokenOf(Some(h)).value, rest)
  {
    var parts := Text.Split(h, ' ');
    assert h != "";
    assert TokenOf(Some(h)) == Some(parts[1]);
    var t := parts[1];
    Text.JoinSplit(h, ' ');
    var rest: string;
    if |parts| == 2 {
      rest := "";
      JoinTwo(parts);
    } else {
      rest := " " + Text.Join(parts[2..], ' ');
      JoinMore(parts);
    }
    assert Around(h, parts[0], t, rest);
  }

  /** `h` is `a t rest`: `a` before the first space, `t` up to the next
      space or the end, and `rest` the remainder. */
  predicate Around(h: string, a: string, t: string, rest: string) {
    ' ' !in a && ' ' !in t && h == a + " " + t + rest && (rest == "" || rest[0] == ' ')
  }

  lemma JoinTwo(parts: seq<string>)
    requires |parts| == 2
    ensures Text.Join(parts, ' ') == parts[0] + " " + parts[1] + ""
  {
    assert parts[1..] == [parts[1]];
  }

  lemma JoinMore(parts: seq<string>)
    requires |parts| > 2
    ensures Text.Join(parts, ' ') == parts[0] + " " + parts[1] + (" " + Text.Join(parts[2..], ' '))
  {
    assert parts[1..][1..] == parts[2..];
    assert Text.Join(parts[1..], ' ') == parts[1] + " " + Text.Join(parts[2..], ' ');
  }

  /** Conversely, `Bearer <token>` (and anything after a further space)
      yields exactly `<token>`. */
  lemma SecondPieceIsToken(a: string, t: string, rest: string)
    requires ' ' !in a && ' ' !in t
    requires rest == "" || rest[0] == ' '
    ensures TokenOf(Some(a + " " + t + rest)) == Some(t)
  {
    var h := a + " " + t + rest;
    assert h == a + [' '] + (t + rest);
    Text.SplitCons(a, ' ', t + rest);
    if rest == "" {
      assert t + rest == t;
      Text.SplitWhole(t, ' ');
    } else {
      assert t + rest == t + [' '] + rest[1..];
      Text.SplitCons(t, ' ', rest[1..]);
    }
  }

  /** `authenticateToken`: no token gives 401; a token the library refuses
      gives 403 (the library refuses the empty token before anything else);
      otherwise the handler runs with the token's claims. */
  function Authenticate(header: Option<string>, verify: string -> Option<Claims>): (v: Verdict)
    ensures v == NoToken <==> TokenOf(header).None?
    ensures v == BadToken <==> TokenOf(header).Some? && (TokenOf(header).value == "" || verify(TokenOf(header).value).None?)
    ensures v.Admitted? ==> TokenOf(header).Some? && verify(TokenOf(header).value) == Some(v.claims)
  {
    match TokenOf(header)
    case None => NoToken
    case Some(t) =>
      if t == "" then BadToken
      else
        match verify(t)
        case None => BadToken
        case Some(c) => Admitted(c)
  }

  /** A missing header, or one without a space, gives 401; an empty header
      gives 403, whatever the token library would say. */
  lemma HeaderShapes(verify: string -> Option<Claims>, h: string)
    ensures Authenticate(None, verify) == NoToken
    ensures ' ' !in h && h != "" ==> Authenticate(Some(h), verify) == NoToken
    ensures Authenticate(Some(""), verify) == BadToken
  {
  }
}
