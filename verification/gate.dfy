/**
 The authentication middleware: reads a bearer token from the
 `Authorization` header, verifies it, looks the user up, and either answers
 the request itself or passes it on with the user attached. Token
 verification is the parameter `verify`.
 */
module Gate {
  import opened Common
  import opened Records

  const TokenRequired: string := "Authorization token required"
  const InvalidToken: string := "Invalid token"
  const UserNotFound: string := "User not found"
  const ServerError: string := "Server error"

  const BearerPrefix: string := "Bearer "

  /** The verified payload: `user` may be missing, and so may its `_id`. */
  datatype Payload = NoUserClaim | UserClaim(id: Option<Id>)

  /**
   What `jwt.verify` did: returned a payload, threw a `JsonWebTokenError`
   (a bad signature, a malformed or expired token), or threw anything else.
   */
  datatype Verification = Verified(payload: Payload) | JwtRejected | VerifyFailed

  /** Exactly one of: an answer with a status and message, or `next()` with the user on the request. */
  datatype Outcome = Respond(status: nat, message: string) | Proceed(user: User)

  /** `User.findById`: the first user with that id; a missing id finds nobody. */
  function FindById(users: seq<User>, id: Option<Id>): (r: Option<nat>)
    ensures r.Some? ==> id.Some? && r.value < |users| && users[r.value].id == id.value
    ensures r.None? <==> id.None? || forall k :: 0 <= k < |users| ==> users[k].id != id.value
  {
    if id.None? || |users| == 0 then None
    else if users[0].id == id.value then Some(0)
    else match FindById(users[1..], id)
      case None => None
      case Some(k) => Some(k + 1)
  }

  /** `authHeader.split(' ')[1]`: the text between the first and second spaces. */
  function BearerToken(header: string): (t: string)
    requires StartsWith(header, BearerPrefix)
    ensures ' ' !in t
  {
    assert header[6] == ' ';
    SplitFirstTwo(header, ' ');
    Split(header, ' ')[1]
  }

  /** A header of the prefix and a space-free token yields that token, empty or not. */
  lemma BearerTokenOf(t: string)
    requires ' ' !in t
    ensures BearerToken(BearerPrefix + t) == t
  {
    var h := BearerPrefix + t;
    assert h[6] == ' ';
    assert forall k :: 0 <= k < 6 ==> h[k] != ' ';
    assert IndexOf(h, ' ') == 6;
    SplitFirstTwo(h, ' ');
    assert h[7..] == t;
    assert IndexOf(t, ' ') == |t|;
  }

  /** Anything after a second space is ignored. */
  lemma BearerTokenStopsAtSpace(t: string, rest: string)
    requires ' ' !in t
    ensures BearerToken(BearerPrefix + t + " " + rest) == t
  {
    var h := BearerPrefix + t + " " + rest;
    assert h[6] == ' ';
    assert forall k :: 0 <= k < 6 ==> h[k] != ' ';
    assert IndexOf(h, ' ') == 6;
    SplitFirstTwo(h, ' ');
    assert h[7..] == t + " " + rest;
    FirstSegment(t, rest);
  }

  /** The first space-separated segment of `t + " " + rest` is `t`. */
  lemma {:induction false} FirstSegment(t: string, rest: string)
    requires ' ' !in t
    ensures Split(t + " " + rest, ' ')[0] == t
  {
    var s := t + " " + rest;
    assert s[|t|] == ' ';
    assert forall k :: 0 <= k < |t| ==> s[k] == t[k];
    assert IndexOf(s, ' ') == |t|;
    assert s[..|t|] == t;
  }

  /**
   `isAuth`: 401 without a `Bearer ` header; 401 for a token `jwt` rejects;
   401 when the payload's user id finds nobody; 500 when verification or the
   payload fails otherwise; and `next()` with the user found.
   */
  function IsAuth(header: Option<string>, verify: string -> Verification, users: seq<User>): (r: Outcome)
    ensures header.None? || !StartsWith(header.value, BearerPrefix) ==> r == Respond(401, TokenRequired)
    ensures header.Some? && StartsWith(header.value, BearerPrefix) ==>
      var v := verify(BearerToken(header.value));
      && (v.JwtRejected? ==> r == Respond(401, InvalidToken))
      && (v.VerifyFailed? ==> r == Respond(500, ServerError))
      && (v == Verified(NoUserClaim) ==> r == Respond(500, ServerError))
      && (v.Verified? && v.payload.UserClaim? ==>
            (r == Respond(401, UserNotFound) <==> FindById(users, v.payload.id).None?))
    ensures r.Proceed? <==> (header.Some? && StartsWith(header.value, BearerPrefix)
      && verify(BearerToken(header.value)).Verified?
      && verify(BearerToken(header.value)).payload.UserClaim?
      && FindById(users, verify(BearerToken(header.value)).payload.id).Some?)
    ensures r.Proceed? ==> (r.user in users
      && r.user.id == verify(BearerToken(header.value)).payload.id.value)
    ensures r.Respond? ==> r.status in {401, 500}
  {
    if header.None? || !StartsWith(header.value, BearerPrefix) then Respond(401, TokenRequired)
    else
      match verify(BearerToken(header.value))
      case JwtRejected => Respond(401, InvalidToken)
      case VerifyFailed => Respond(500, ServerError)
      case Verified(NoUserClaim) => Respond(500, ServerError)
      case Verified(UserClaim(id)) =>
        match FindById(users, id)
        case None => Respond(401, UserNotFound)
        case Some(i) => Proceed(users[i])
  }

  /** Only the exact, case-sensitive prefix passes the header check. */
  lemma LowercaseBearerRefused(t: string, verify: string -> Verification, users: seq<User>)
    ensures IsAuth(Some("bearer " + t), verify, users) == Respond(401, TokenRequired)
  {
    assert ("bearer " + t)[0] != BearerPrefix[0];
  }
}
