/** Request authentication and the `role_required` guard (auth/utils.py).
    Decoding, signature and expiry checks belong to the token library and
    are not modelled: a presented token is its jti, its identity (an email)
    and its kind. */
module AuthUtils {
  import opened Wrappers
  import opened Http
  import opened UserModel

  datatype TokenKind = Access | Refresh

  datatype Token = Token(jti: string, identity: string, kind: TokenKind)

  /** `check_if_token_in_blacklist`: a jti is refused when it is in the set. */
  predicate TokenInBlacklist(blacklist: set<string>, jti: string)
  {
    jti in blacklist
  }

  /** What a protected endpoint does before its handler: a token of the
      expected kind must be present, its jti must not be revoked, and its
      identity must resolve to a user (`user_loader_callback`, which does not
      look at the `active` flag). Every refusal is an authentication error. */
  function VerifyJwt(blacklist: set<string>, users: seq<User>, token: Option<Token>, kind: TokenKind): (r: Result<User, Status>)
    ensures r.Success? <==> (token.Some? && token.value.kind == kind && token.value.jti !in blacklist
                             && exists i :: 0 <= i < |users| && users[i].email == token.value.identity)
    ensures r.Success? ==> r.value in users && r.value.email == token.value.identity
    ensures r.Failure? ==> r.error == Unauthorized
    ensures token.Some? && token.value.jti in blacklist ==> r == Failure(Unauthorized)
  {
    if token.None? || token.value.kind != kind then Failure(Unauthorized)
    else if TokenInBlacklist(blacklist, token.value.jti) then Failure(Unauthorized)
    else
      match FirstWithEmail(users, token.value.identity)
      case None => Failure(Unauthorized)
      case Some(u) => Success(u)
  }

  /** The argument given to `role_required`: a single role, a list of roles,
      or a value of any other type (a set, say). */
  datatype RoleSpec = OneRole(role: Role) | RoleList(roles: seq<Role>) | OtherValue

  /** The permission test inside `role_required`. */
  function HasPermission(userRole: Role, roles: RoleSpec): (ok: bool)
    ensures roles.OneRole? ==> (ok <==> userRole == roles.role)
    ensures roles.RoleList? ==> (ok <==> exists i :: 0 <= i < |roles.roles| && roles.roles[i] == userRole)
    ensures roles.OtherValue? ==> !ok
  {
    match roles
    case OneRole(r) => userRole == r
    case RoleList(rs) => userRole in rs
    case OtherValue => false
  }

  /** A single role and the one-element list of it grant the same access;
      any other kind of argument grants none, even when it holds the role. */
  lemma OneRoleIsSingletonList(userRole: Role, r: Role)
    ensures HasPermission(userRole, OneRole(r)) == HasPermission(userRole, RoleList([r]))
    ensures !HasPermission(userRole, OtherValue)
  {
  }

  /** The result of a guarded endpoint: the handler's own result, or the
      refusal the guard answered with instead of calling it. */
  datatype Guarded<T> = Handled(result: T) | Refused(status: Status)

  /** `role_required(roles)` wrapped around `handler`. */
  function RoleRequired<T>(blacklist: set<string>, users: seq<User>, token: Option<Token>,
                           roles: RoleSpec, handler: User -> T): (r: Guarded<T>)
    ensures r.Handled? <==> (VerifyJwt(blacklist, users, token, Access).Success?
                             && HasPermission(VerifyJwt(blacklist, users, token, Access).value.role, roles))
    ensures r.Handled? ==> r.result == handler(VerifyJwt(blacklist, users, token, Access).value)
    ensures r.Refused? ==> r.status == Unauthorized || r.status == Forbidden
    ensures VerifyJwt(blacklist, users, token, Access).Success? && r.Refused? ==> r.status == Forbidden
  {
    match VerifyJwt(blacklist, users, token, Access)
    case Failure(s) => Refused(s)
    case Success(user) =>
      if HasPermission(user.role, roles) then Handled(handler(user)) else Refused(Forbidden)
  }

  /** A refused request never reaches the handler: any other handler gets the
      same refusal. */
  lemma RefusalIgnoresHandler<T>(blacklist: set<string>, users: seq<User>, token: Option<Token>,
                                 roles: RoleSpec, h1: User -> T, h2: User -> T)
    requires RoleRequired(blacklist, users, token, roles, h1).Refused?
    ensures RoleRequired(blacklist, users, token, roles, h2) == RoleRequired(blacklist, users, token, roles, h1)
  {
  }

  /** A revoked token is refused by every guarded endpoint, whatever the
      user table holds and whatever role the endpoint asks for. */
  lemma RevokedTokenIsRefused<T>(blacklist: set<string>, users: seq<User>, token: Token,
                                 roles: RoleSpec, handler: User -> T)
    requires token.jti in blacklist
    ensures RoleRequired(blacklist, users, Some(token), roles, handler) == Refused(Unauthorized)
  {
  }
}
