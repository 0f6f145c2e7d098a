/** Token-based sessions: the token payload, the authenticateToken middleware (token taken from
    the Authorization header, else from the cookie; then verified and checked against the users
    table) and the requireRole gate. Signing and verifying a token are foreign (jsonwebtoken), so
    they are parameters. */
module Session {
  import opened Wrappers
  import opened Text
  import opened Schema

  /** The four user fields a token carries and every auth response reveals; a password hash has
      no place in it. */
  datatype PublicUser = PublicUser(id: nat, username: string, role: string, name: string)

  /** generateToken's payload for the user stored under `id`. */
  function Payload(id: nat, u: User): (p: PublicUser)
    ensures p.id == id && p.username == u.username && p.role == u.role && p.name == u.name
  {
    PublicUser(id, u.username, u.role, u.name)
  }

  const BEARER := "Bearer "

  /** The token the Authorization header supplies: the text after `Bearer `, which may be empty. */
  function HeaderToken(header: Option<string>): (r: Option<string>)
    ensures r.Some? <==> header.Some? && StartsWith(header.value, BEARER)
    ensures r.Some? ==> header.value == BEARER + r.value
  {
    if header.Some? && StartsWith(header.value, BEARER) then Some(header.value[|BEARER|..]) else None
  }

  /** The token after both stages: the cookie replaces a header token that is missing or empty. */
  function Extracted(header: Option<string>, cookie: Option<string>): Option<string> {
    var fromHeader := HeaderToken(header);
    if !Present(fromHeader) && Present(cookie) then cookie else fromHeader
  }

  /** A usable header token wins over any cookie; otherwise the cookie is the only source. */
  lemma ExtractionOrder(header: Option<string>, cookie: Option<string>)
    ensures Present(HeaderToken(header)) ==> Extracted(header, cookie) == HeaderToken(header)
    ensures !Present(HeaderToken(header)) ==>
      (Present(Extracted(header, cookie)) <==> Present(cookie))
      && (Present(cookie) ==> Extracted(header, cookie) == cookie)
  {
  }

  /** A header that is not a Bearer header, such as `Basic ...` or `bearer ...`, supplies nothing. */
  lemma OnlyBearerHeaders(header: string, cookie: Option<string>)
    requires !StartsWith(header, BEARER)
    ensures Present(Extracted(Some(header), cookie)) <==> Present(cookie)
  {
  }

  /** What authenticateToken decides; every failure is a 401. */
  datatype AuthResult =
    | Authenticated(user: PublicUser)
    | NoToken
    | BadToken
    | UnknownUser
    | InactiveUser

  function AuthStatus(r: AuthResult): (code: nat)
    ensures r.Authenticated? <==> code == 200
    ensures !r.Authenticated? <==> code == 401
  {
    if r.Authenticated? then 200 else 401
  }

  /** The middleware's decision for a request, with `verify` standing for jwt.verify (None when
      the signature or the expiry check fails). */
  function Authenticate(users: map<nat, User>, header: Option<string>, cookie: Option<string>,
                        verify: string -> Option<PublicUser>): AuthResult
  {
    var token := Extracted(header, cookie);
    if !Present(token) then NoToken
    else match verify(token.value)
      case None => BadToken
      case Some(claims) =>
        if claims.id !in users then UnknownUser
        else if !users[claims.id].isActive then InactiveUser
        else Authenticated(Payload(claims.id, users[claims.id]))
  }

  /** authenticateToken: takes the token from the header, falls back to the cookie, then checks it. */
  method AuthenticateToken(users: map<nat, User>, header: Option<string>, cookie: Option<string>,
                           verify: string -> Option<PublicUser>) returns (r: AuthResult)
    ensures r == Authenticate(users, header, cookie, verify)
  {
    var token: Option<string> := None;
    if Present(header) && StartsWith(header.value, BEARER) {
      token := Some(header.value[7..]);
    }
    if !Present(token) && Present(cookie) {
      token := cookie;
    }
    if !Present(token) {
      return NoToken;
    }
    var decoded := verify(token.value);
    if decoded.None? {
      return BadToken;
    }
    var id := decoded.value.id;
    if id !in users {
      return UnknownUser;
    }
    var user := users[id];
    if !user.isActive {
      return InactiveUser;
    }
    r := Authenticated(Payload(id, user));
  }

  /** A request is authenticated only for an active stored user, and the user it carries is read
      from the table (current role and name), not from the token's claims. */
  lemma AuthenticatedIsActiveStoredUser(users: map<nat, User>, header: Option<string>, cookie: Option<string>,
                                         verify: string -> Option<PublicUser>)
    ensures var r := Authenticate(users, header, cookie, verify);
      r.Authenticated? ==>
        && Present(Extracted(header, cookie))
        && r.user.id in users && users[r.user.id].isActive
        && r.user == Payload(r.user.id, users[r.user.id])
  {
  }

  /** A token issued for user `id` keeps authenticating that user while the account is active,
      is refused once it is deactivated, and once the user is gone. */
  lemma IssuedTokenLifecycle(users: map<nat, User>, claims: PublicUser, token: string,
                             cookie: Option<string>, verify: string -> Option<PublicUser>)
    requires token != "" && verify(token) == Some(claims)
    ensures var r := Authenticate(users, Some(BEARER + token), cookie, verify);
      && (claims.id in users && users[claims.id].isActive ==> r == Authenticated(Payload(claims.id, users[claims.id])))
      && (claims.id in users && !users[claims.id].isActive ==> r == InactiveUser)
      && (claims.id !in users ==> r == UnknownUser)
  {
    assert (BEARER + token)[..|BEARER|] == BEARER;
    assert (BEARER + token)[|BEARER|..] == token;
  }

  /** The bare `Bearer ` header gives an empty token, so without a cookie the request has none. */
  lemma EmptyBearerIsNoToken(users: map<nat, User>, verify: string -> Option<PublicUser>)
    ensures Authenticate(users, Some(BEARER), None, verify) == NoToken
  {
    assert BEARER[..|BEARER|] == BEARER;
  }

  /** What requireRole decides. */
  datatype Gate = Unauthenticated | Forbidden | Pass

  function GateStatus(g: Gate): (code: nat)
    ensures g == Unauthenticated <==> code == 401
    ensures g == Forbidden <==> code == 403
  {
    match g
    case Unauthenticated => 401
    case Forbidden => 403
    case Pass => 200
  }

  /** requireRole(...roles): no user is 401, a role outside the list is 403. */
  function RequireRole(roles: seq<string>, user: Option<PublicUser>): (g: Gate)
    ensures g == Pass <==> user.Some? && user.value.role in roles
    ensures g == Unauthenticated <==> user.None?
  {
    if user.None? then Unauthenticated
    else if user.value.role !in roles then Forbidden
    else Pass
  }

  /** A request that passed authentication is never refused as unauthenticated by the role gate,
      and passes it exactly when the stored role is listed. */
  lemma GateAfterAuthentication(users: map<nat, User>, header: Option<string>, cookie: Option<string>,
                                verify: string -> Option<PublicUser>, roles: seq<string>)
    requires Authenticate(users, header, cookie, verify).Authenticated?
    ensures var u := Authenticate(users, header, cookie, verify).user;
      RequireRole(roles, Some(u)) != Unauthenticated
      && (RequireRole(roles, Some(u)) == Pass <==> users[u.id].role in roles)
  {
    AuthenticatedIsActiveStoredUser(users, header, cookie, verify);
  }
}
