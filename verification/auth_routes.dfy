/** The /api/auth routes: registration (validated, role defaulted, username unique) and the login
    decision. Password hashing and comparison are foreign (bcrypt): registration receives the hash
    it stores, login receives the comparison as a parameter. */
module AuthRoutes {
  import opened Wrappers
  import opened Schema
  import opened Password
  import opened Session

  datatype UserTable = UserTable(rows: map<nat, User>, nextId: nat)

  predicate IdsBelow(t: UserTable) { forall id | id in t.rows :: id < t.nextId }

  /** No two users share a username. */
  predicate UniqueUsernames(rows: map<nat, User>) {
    forall i, j | i in rows && j in rows && rows[i].username == rows[j].username :: i == j
  }

  /** Whether password rules are strict: the flag is `true` or the environment is production. */
  function StrictValidation(flag: Option<string>, nodeEnv: Option<string>): bool {
    flag == Some("true") || nodeEnv == Some("production")
  }

  const DOCTOR := "doctor"
  const ESTHETICIAN := "esthetician"
  const VALID_ROLES: seq<string> := [DOCTOR, ESTHETICIAN]

  /** The role a new user is stored with: the requested one only when it is a known role. */
  function AssignedRole(role: Option<string>): (r: string)
    ensures r in VALID_ROLES
    ensures role.Some? && role.value in VALID_ROLES ==> r == role.value
    ensures r != DOCTOR ==> role == Some(ESTHETICIAN)
  {
    if Present(role) && role.value in VALID_ROLES then role.value else DOCTOR
  }

  /** The lowest id whose row has username `name` (the first row of the lookup). */
  function FirstByUsername(rows: map<nat, User>, name: string, bound: nat): (r: Option<nat>)
    ensures r.Some? ==> r.value < bound && r.value in rows && rows[r.value].username == name
    ensures r.Some? ==> forall j | j < r.value && j in rows :: rows[j].username != name
    ensures r.None? ==> forall j | j < bound && j in rows :: rows[j].username != name
    decreases bound
  {
    if bound == 0 then None
    else match FirstByUsername(rows, name, bound - 1)
      case Some(i) => Some(i)
      case None => if bound - 1 in rows && rows[bound - 1].username == name then Some(bound - 1) else None
  }

  datatype RegisterRequest = RegisterRequest(
    username: Option<string>,
    password: Option<string>,
    role: Option<string>,
    name: Option<string>)

  datatype AuthOutcome =
    | Registered(user: PublicUser)
    | LoggedIn(user: PublicUser)
    | MissingRegisterFields
    | UsernameTooShort
    | WeakPassword(details: seq<PasswordError>)
    | UsernameTaken
    | MissingCredentials
    | InvalidCredentials
    | AccountInactive

  function StatusCode(out: AuthOutcome): (code: nat)
    ensures out.Registered? <==> code == 201
    ensures out.LoggedIn? <==> code == 200
    ensures out == UsernameTaken <==> code == 409
    ensures out.InvalidCredentials? || out.AccountInactive? <==> code == 401
  {
    match out
    case Registered(_) => 201
    case LoggedIn(_) => 200
    case MissingRegisterFields => 400
    case UsernameTooShort => 400
    case WeakPassword(_) => 400
    case UsernameTaken => 409
    case MissingCredentials => 400
    case InvalidCredentials => 401
    case AccountInactive => 401
  }

  /** POST /register on table `t`; `passwordHash` is what bcrypt produced for the password. */
  function RegisterSpec(t: UserTable, req: RegisterRequest, strict: bool, passwordHash: string): (AuthOutcome, UserTable) {
    if !Present(req.username) || !Present(req.password) || !Present(req.name) then (MissingRegisterFields, t)
    else if |req.username.value| < 3 then (UsernameTooShort, t)
    else if !Validate(req.password, strict).valid then (WeakPassword(Validate(req.password, strict).errors), t)
    else if FirstByUsername(t.rows, req.username.value, t.nextId).Some? then (UsernameTaken, t)
    else
      var row := User(req.username.value, passwordHash, AssignedRole(req.role), req.name.value, true);
      (Registered(Payload(t.nextId, row)), UserTable(t.rows[t.nextId := row], t.nextId + 1))
  }

  /** A rejected registration leaves the table as it was; an accepted one adds exactly one active
      user, with a valid username, an accepted password, a known role and the stored hash. */
  lemma RegisterEffects(t: UserTable, req: RegisterRequest, strict: bool, passwordHash: string)
    requires IdsBelow(t)
    ensures var (out, t') := RegisterSpec(t, req, strict, passwordHash);
      && (!out.Registered? ==> t' == t)
      && (out.Registered? ==>
            && Present(req.username) && Present(req.password) && Present(req.name)
            && |req.username.value| >= 3 && Validate(req.password, strict).valid
            && out.user.id == t.nextId && out.user.id !in t.rows
            && t'.rows == t.rows[out.user.id := t'.rows[out.user.id]] && t'.nextId == t.nextId + 1
            && t'.rows[out.user.id] == User(req.username.value, passwordHash, AssignedRole(req.role), req.name.value, true)
            && out.user == Payload(out.user.id, t'.rows[out.user.id])
            && IdsBelow(t'))
  {
  }

  /** A taken username is refused exactly when the earlier checks pass and some user has it. */
  lemma RegisterRefusesTakenUsername(t: UserTable, req: RegisterRequest, strict: bool, passwordHash: string)
    requires IdsBelow(t)
    ensures RegisterSpec(t, req, strict, passwordHash).0 == UsernameTaken <==>
      && Present(req.username) && Present(req.password) && Present(req.name)
      && |req.username.value| >= 3 && Validate(req.password, strict).valid
      && exists id | id in t.rows :: t.rows[id].username == req.username.value
  {
    if Present(req.username) && exists id | id in t.rows :: t.rows[id].username == req.username.value {
      var id :| id in t.rows && t.rows[id].username == req.username.value;
      assert FirstByUsername(t.rows, req.username.value, t.nextId).Some?;
    }
  }

  /** Registration keeps usernames unique. */
  lemma RegisterKeepsUsernamesUnique(t: UserTable, req: RegisterRequest, strict: bool, passwordHash: string)
    requires IdsBelow(t) && UniqueUsernames(t.rows)
    ensures UniqueUsernames(RegisterSpec(t, req, strict, passwordHash).1.rows)
  {
    var (out, t') := RegisterSpec(t, req, strict, passwordHash);
    RegisterEffects(t, req, strict, passwordHash);
    if out.Registered? {
      assert forall j | j in t.rows :: t.rows[j].username != req.username.value;
    }
  }

  /** POST /login; `compare` stands for bcrypt.compare(password, hash). */
  function LoginSpec(t: UserTable, username: Option<string>, password: Option<string>,
                     compare: (string, string) -> bool): AuthOutcome
  {
    if !Present(username) || !Present(password) then MissingCredentials
    else match FirstByUsername(t.rows, username.value, t.nextId)
      case None => InvalidCredentials
      case Some(id) =>
        if !t.rows[id].isActive then AccountInactive
        else if !compare(password.value, t.rows[id].passwordHash) then InvalidCredentials
        else LoggedIn(Payload(id, t.rows[id]))
  }

  /** A login succeeds only for an active user with that username whose stored hash matches the
      password, and answers with that user's public fields. */
  lemma LoginSucceedsOnlyForMatchingActiveUser(t: UserTable, username: Option<string>, password: Option<string>,
                                               compare: (string, string) -> bool)
    ensures var out := LoginSpec(t, username, password, compare);
      out.LoggedIn? ==>
        && Present(username) && Present(password)
        && out.user.id in t.rows && t.rows[out.user.id].username == username.value
        && t.rows[out.user.id].isActive && compare(password.value, t.rows[out.user.id].passwordHash)
        && out.user == Payload(out.user.id, t.rows[out.user.id])
  {
  }

  /** An unknown username and a wrong password get the same answer, so a failed login does not tell
      which of the two was wrong. */
  lemma UnknownUserLooksLikeWrongPassword(t: UserTable, username: string, password: string,
                                          compare: (string, string) -> bool)
    requires IdsBelow(t) && username != "" && password != ""
    requires forall id | id in t.rows && t.rows[id].username == username ::
               t.rows[id].isActive && !compare(password, t.rows[id].passwordHash)
    ensures LoginSpec(t, Some(username), Some(password), compare) == InvalidCredentials
  {
  }

  /** An inactive account is refused before the password is compared: the answer is the same for
      every password comparison. */
  lemma InactiveRefusedBeforePassword(t: UserTable, username: string, password: string,
                                      compare1: (string, string) -> bool, compare2: (string, string) -> bool)
    requires username != "" && password != ""
    requires var first := FirstByUsername(t.rows, username, t.nextId);
      first.Some? && !t.rows[first.value].isActive
    ensures LoginSpec(t, Some(username), Some(password), compare1) == AccountInactive
    ensures LoginSpec(t, Some(username), Some(password), compare2) == AccountInactive
  {
  }

  /** A user just registered can log in with the same password, and gets the same public fields. */
  lemma RegisterThenLogin(t: UserTable, req: RegisterRequest, strict: bool, passwordHash: string,
                          compare: (string, string) -> bool)
    requires IdsBelow(t)
    requires RegisterSpec(t, req, strict, passwordHash).0.Registered?
    requires compare(req.password.value, passwordHash)
    ensures var (out, t') := RegisterSpec(t, req, strict, passwordHash);
      LoginSpec(t', req.username, req.password, compare) == LoggedIn(out.user)
  {
    var (out, t') := RegisterSpec(t, req, strict, passwordHash);
    RegisterEffects(t, req, strict, passwordHash);
    assert forall j | j in t.rows :: t.rows[j].username != req.username.value;
  }

  class UserStore {
    var rows: map<nat, User>
    var nextId: nat

    function Snapshot(): UserTable
      reads this
    {
      UserTable(rows, nextId)
    }

    ghost predicate Valid()
      reads this
    {
      IdsBelow(Snapshot()) && UniqueUsernames(rows)
    }

    constructor ()
      ensures Valid() && rows == map[] && nextId == 1
    {
      rows := map[];
      nextId := 1;
    }

    /** POST /register: the checks in order, then the insert. */
    method Register(req: RegisterRequest, strict: bool, passwordHash: string) returns (out: AuthOutcome)
      requires Valid()
      modifies this
      ensures Valid()
      ensures (out, Snapshot()) == RegisterSpec(old(Snapshot()), req, strict, passwordHash)
    {
      if !Present(req.username) || !Present(req.password) || !Present(req.name) {
        return MissingRegisterFields;
      }
      var username := req.username.value;
      if |username| < 3 {
        return UsernameTooShort;
      }
      var validation := ValidatePassword(req.password, strict);
      if !validation.valid {
        return WeakPassword(validation.errors);
      }
      var role := AssignedRole(req.role);
      if FirstByUsername(rows, username, nextId).Some? {
        return UsernameTaken;
      }
      RegisterKeepsUsernamesUnique(Snapshot(), req, strict, passwordHash);
      var row := User(username, passwordHash, role, req.name.value, true);
      out := Registered(Payload(nextId, row));
      rows := rows[nextId := row];
      nextId := nextId + 1;
    }
  }
}
