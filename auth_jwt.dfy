/** Resolving the caller from the `Authorization` header: the bearer scheme,
    the token's `sub` claim read as a user id, and the active-user check.
    Decoding a token is a parameter: a total function that answers `None`
    for every token the real decoder rejects. */
module AuthJwt {
  import opened Common
  import opened Text
  import opened Models

  /** The claims of a decoded token. */
  type Claims = map<string, string>

  /** The token of a `Bearer <token>` header: exactly two whitespace-separated
      parts, the first equal to "bearer" once lower-cased. */
  function BearerToken(authorization: Option<string>): (r: Option<string>)
    ensures authorization.None? || authorization == Some("") ==> r.None?
    ensures r.Some? ==> r.value != [] && NoSpace(r.value)
  {
    match authorization
    case None => None
    case Some(h) =>
      if h == [] then None
      else
        SplitTokens(h);
        var parts := SplitWhitespace(h);
        if |parts| != 2 || Lower(parts[0]) != "bearer" then None
        else Some(parts[1])
  }

  /** `int(payload.get("sub", ""))`: the subject as an integer, or a failure. */
  function SubjectId(claims: Claims): Option<int>
  {
    ParseInt(if "sub" in claims then claims["sub"] else "")
  }

  /** `get_current_user`: the active user the header's token names, or Unauthenticated. */
  function GetCurrentUser(users: seq<User>, authorization: Option<string>, decode: string -> Option<Claims>): (r: Result<User>)
    ensures r.Err? ==> r.error == Unauthenticated
    ensures BearerToken(authorization).None? ==> r.Err?
    ensures r.Ok? ==> r.value in users && r.value.isActive
    ensures r.Ok? ==>
      var token := BearerToken(authorization);
      token.Some? && decode(token.value).Some? && SubjectId(decode(token.value).value) == Some(r.value.id)
  {
    match BearerToken(authorization)
    case None => Err(Unauthenticated)
    case Some(token) =>
      match decode(token)
      case None => Err(Unauthenticated)
      case Some(claims) =>
        match SubjectId(claims)
        case None => Err(Unauthenticated)
        case Some(id) =>
          match UserIndex(users, id)
          case None => Err(Unauthenticated)
          case Some(k) => if users[k].isActive then Ok(users[k]) else Err(Unauthenticated)
  }

  /** A header `<scheme> <token>` is accepted exactly when the scheme is "bearer"
      in any letter case, and then it yields the token. */
  lemma BearerHeader(scheme: string, token: string)
    requires scheme != [] && NoSpace(scheme) && token != [] && NoSpace(token)
    ensures BearerToken(Some(scheme + " " + token)) == if Lower(scheme) == "bearer" then Some(token) else None
  {
    var h := scheme + " " + token;
    assert [scheme, token][1..] == [token];
    assert JoinSpace([scheme, token]) == h;
    SplitJoin([scheme, token]);
    var parts := SplitWhitespace(h);
    assert parts == [scheme, token];
    assert |h| > 0;
  }

  /** "Basic abc" is not a bearer header. */
  lemma BasicSchemeRejected()
    ensures BearerToken(Some("Basic abc")) == None
  {
    BearerHeader("Basic", "abc");
    assert "Basic" + " " + "abc" == "Basic abc";
  }

  /** A header with any number of parts other than two is rejected. */
  lemma WrongPartCountRejected(parts: seq<string>)
    requires forall k :: 0 <= k < |parts| ==> parts[k] != [] && NoSpace(parts[k])
    requires |parts| != 2
    ensures BearerToken(Some(JoinSpace(parts))) == None
  {
    SplitJoin(parts);
  }

  /** A header that carries a token whose subject is `str(u.id)` authenticates
      as `u` exactly when `u` is active. */
  lemma TokenForUser(users: seq<User>, k: nat, token: string, decode: string -> Option<Claims>, claims: Claims)
    requires UsersValid(users) && k < |users|
    requires token != [] && NoSpace(token)
    requires decode(token) == Some(claims) && "sub" in claims && claims["sub"] == IntToString(users[k].id)
    ensures GetCurrentUser(users, Some("Bearer " + token), decode)
         == if users[k].isActive then Ok(users[k]) else Err(Unauthenticated)
  {
    BearerHeader("Bearer", token);
    assert "Bearer" + " " + token == "Bearer " + token;
    assert Lower("Bearer") == "bearer";
    var header := Some("Bearer " + token);
    assert BearerToken(header) == Some(token);
    ParseIntToString(users[k].id);
    assert SubjectId(claims) == Some(users[k].id);
    assert UserIndex(users, users[k].id) == Some(k);
  }

  /** An inactive user never authenticates, whatever the header and the decoder say. */
  lemma InactiveUserRejected(users: seq<User>, k: nat, authorization: Option<string>, decode: string -> Option<Claims>)
    requires UsersValid(users) && k < |users| && !users[k].isActive
    ensures GetCurrentUser(users, authorization, decode) != Ok(users[k])
    ensures forall u :: GetCurrentUser(users, authorization, decode) == Ok(u) ==> u.id != users[k].id
  {
  }
}
