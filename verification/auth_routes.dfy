/** The decision logic of the public account routes: whether first-time setup is needed,
    registration (field checks, the username conflict, the first-user rule and the invite
    rule) and login. Password hashing and comparison are parameters; token signing is not
    modelled. */
module AuthRoutes {
  import opened Common
  import opened JsText
  import opened Catalog
  import opened Accounts

  // ---------------------------------------------------------------- GET /auth/status

  /** `setupRequired`: there is no account yet. */
  function SetupRequired(st: Store): (r: bool)
    ensures r <==> forall id :: !HasUser(st, id)
  {
    UserCount(st) == 0
  }

  // ---------------------------------------------------------------- POST /auth/register

  const MsgFieldsRequired := "Username, password, and display name are required"
  const MsgShortUsername := "Username must be at least 3 characters"
  const MsgShortPassword := "Password must be at least 6 characters"
  const MsgUsernameTaken := "Username already taken"
  const MsgInviteRequired := "Invite code is required"
  const MsgInviteInvalid := "Invalid or already used invite code"
  const MsgLoginRequired := "Username and password are required"
  const MsgBadLogin := "Invalid username or password"

  const MinUsername := 3
  const MinPassword := 6

  datatype RegisterBody = RegisterBody(username: Option<string>, password: Option<string>,
                                       displayName: Option<string>, inviteCode: Option<string>)

  datatype Registration =
    | RegisterRejected(status: int, message: string)
    | Registered(store: Store, userId: int, role: Role)

  /** The field checks, in the order the route makes them; `None` when all pass. Lengths are
      JavaScript lengths, in UTF-16 code units. */
  function FieldError(body: RegisterBody): (r: Option<string>)
    ensures r.None? <==> Given(body.username) && Given(body.password) && Given(body.displayName)
                          && Utf16Length(body.username.value) >= MinUsername && Utf16Length(body.password.value) >= MinPassword
  {
    if !Given(body.username) || !Given(body.password) || !Given(body.displayName) then Some(MsgFieldsRequired)
    else if Utf16Length(body.username.value) < MinUsername then Some(MsgShortUsername)
    else if Utf16Length(body.password.value) < MinPassword then Some(MsgShortPassword)
    else None
  }

  /** The invite a non-first registration needs: supplied, stored and not yet used. */
  function InviteError(st: Store, inviteCode: Option<string>): (r: Option<string>)
    ensures r.None? <==> Given(inviteCode) && HasCode(st, inviteCode.value)
                          && GetInviteCode(st, inviteCode.value).value.usedBy.None?
  {
    if !Given(inviteCode) then Some(MsgInviteRequired)
    else
      var code := GetInviteCode(st, inviteCode.value);
      if code.None? || code.value.usedBy.Some? then Some(MsgInviteInvalid) else None
  }

  /** What the checks made before the password is hashed decide: a rejection, or admission
      as the first account or as a later one. */
  datatype Admission = Refused(status: int, message: string) | Admitted(first: bool)

  /** The checks of `POST /auth/register`, on the store as it is when the request arrives:
      the fields, the name, and for any account but the first the invite. */
  function RegisterCheck(st: Store, body: RegisterBody): (r: Admission)
    ensures r.Admitted? <==> FieldError(body).None? && !NameTaken(st, body.username.value)
                             && (SetupRequired(st) || InviteError(st, body.inviteCode).None?)
    ensures r.Admitted? ==> r.first == SetupRequired(st)
    ensures r.Refused? ==> r.status in {400, 409}
  {
    var fieldError := FieldError(body);
    if fieldError.Some? then Refused(400, fieldError.value)
    else if UserByUsername(st, body.username.value).Some? then Refused(409, MsgUsernameTaken)
    else
      var first := UserCount(st) == 0;
      var inviteError := InviteError(st, body.inviteCode);
      if !first && inviteError.Some? then Refused(400, inviteError.value)
      else Admitted(first)
  }

  /** The message of the error `createUser` throws when the name was taken meanwhile. */
  const MsgUniqueFailed := "UNIQUE constraint failed: users.username"

  /** What `POST /auth/register` does after awaiting the hash, on the store `st` as it is
      then: create the account, mark the invite (for a later account that sent one) and, for
      the first account, migrate the global favourites and watchlist. Other requests may
      have run during the await. A name taken meanwhile makes the insert break `UNIQUE`;
      the route does not catch that, and the framework answers 500. The invite and migration
      statements cannot fail: they name the user just created. */
  function RegisterCommit(st: Store, body: RegisterBody, first: bool, hash: string, now: int): (r: Registration)
    requires FieldError(body).None?
    ensures r.RegisterRejected? <==> NameTaken(st, body.username.value)
    ensures r.RegisterRejected? ==> r == RegisterRejected(500, MsgUniqueFailed)
    ensures r.Registered? ==> r.userId == st.nextUser && r.role == (if first then Admin else Member)
    ensures r.Registered? ==> r.store.users == st.users + [User(st.nextUser, body.username.value, hash, body.displayName.value, r.role, now)]
  {
    var role := if first then Admin else Member;
    var created := CreateUser(st, body.username.value, hash, body.displayName.value, role, now);
    if created.None? then RegisterRejected(500, MsgUniqueFailed)
    else
      var id := created.value.1;
      var after := created.value.0;
      assert HasUser(after, id) by { assert after.users[|st.users|].id == id; }
      var marked := if !first && Given(body.inviteCode)
                    then MarkInviteCodeUsed(after, body.inviteCode.value, id, now).value
                    else after;
      assert marked.users == after.users;
      var migrated := if first then Migrate(marked, id).value else marked;
      Registered(migrated, id, role)
  }

  /** `POST /auth/register` when no other request runs during the hash: the checks and the
      commit see the same store. `hash` is the bcrypt hash of the password. The first account
      is an admin, needs no invite and takes over the global favourites and watchlist; any
      other is a member and uses up its invite. */
  function Register(st: Store, body: RegisterBody, hash: string, now: int): (r: Registration)
    ensures r.Registered? ==> FieldError(body).None? && !NameTaken(st, body.username.value)
    ensures r.RegisterRejected? ==> r.status in {400, 409}
  {
    var admission := RegisterCheck(st, body);
    if admission.Refused? then RegisterRejected(admission.status, admission.message)
    else RegisterCommit(st, body, admission.first, hash, now)
  }

  /** Two first registrations whose hashes overlap both pass the checks on the empty user
      table, and both become admins. */
  lemma ConcurrentFirstRegistrations(st: Store, b1: RegisterBody, b2: RegisterBody, h1: string, h2: string, now: int)
    requires SetupRequired(st) && FieldError(b1).None? && FieldError(b2).None?
    requires b1.username.value != b2.username.value
    ensures RegisterCheck(st, b1) == Admitted(true) && RegisterCheck(st, b2) == Admitted(true)
    ensures var r1 := RegisterCommit(st, b1, true, h1, now);
      r1.Registered? && r1.role == Admin
      && var r2 := RegisterCommit(r1.store, b2, true, h2, now);
         r2.Registered? && r2.role == Admin
  {
    var r1 := RegisterCommit(st, b1, true, h1, now);
    assert r1.Registered?;
    assert forall i :: 0 <= i < |r1.store.users| ==> r1.store.users[i].username != b2.username.value;
  }

  /** Two later registrations with the same unused invite, whose hashes overlap, both pass the
      invite check and both create an account; the invite ends up naming the second. */
  lemma ConcurrentInviteUse(st: Store, b1: RegisterBody, b2: RegisterBody, h1: string, h2: string, now: int)
    requires !SetupRequired(st) && FieldError(b1).None? && FieldError(b2).None?
    requires b1.username.value != b2.username.value
    requires !NameTaken(st, b1.username.value) && !NameTaken(st, b2.username.value)
    requires b1.inviteCode == b2.inviteCode && InviteError(st, b1.inviteCode).None?
    ensures RegisterCheck(st, b1) == Admitted(false) && RegisterCheck(st, b2) == Admitted(false)
    ensures var r1 := RegisterCommit(st, b1, false, h1, now);
      r1.Registered? && r1.role == Member
      && var r2 := RegisterCommit(r1.store, b2, false, h2, now);
         r2.Registered? && r2.role == Member
  {
    var r1 := RegisterCommit(st, b1, false, h1, now);
    assert r1.Registered?;
    assert forall i :: 0 <= i < |r1.store.users| ==> r1.store.users[i].username != b2.username.value;
  }

  /** The same name registered twice with overlapping hashes: both requests pass the checks,
      and the later commit is a 500 that changes nothing. */
  lemma ConcurrentSameName(st: Store, body: RegisterBody, h1: string, h2: string, now: int)
    requires RegisterCheck(st, body).Admitted?
    ensures var first := RegisterCheck(st, body).first;
      var r1 := RegisterCommit(st, body, first, h1, now);
      r1.Registered?
      && RegisterCommit(r1.store, body, first, h2, now) == RegisterRejected(500, MsgUniqueFailed)
  {
    var first := RegisterCheck(st, body).first;
    var r1 := RegisterCommit(st, body, first, h1, now);
    assert r1.store.users[|st.users|].username == body.username.value;
  }

  /** The field checks come first, in order, and consult nothing stored: two stores give
      the same rejection. */
  lemma RegisterChecksFieldsFirst(st1: Store, st2: Store, body: RegisterBody, hash: string, now: int)
    requires FieldError(body).Some?
    ensures Register(st1, body, hash, now) == RegisterRejected(400, FieldError(body).value)
    ensures Register(st1, body, hash, now) == Register(st2, body, hash, now)
    ensures !Given(body.username) ==> FieldError(body).value == MsgFieldsRequired
    ensures Given(body.username) && Given(body.password) && Given(body.displayName) && Utf16Length(body.username.value) < MinUsername
            ==> FieldError(body).value == MsgShortUsername
    ensures Given(body.username) && Given(body.password) && Given(body.displayName) && Utf16Length(body.username.value) >= MinUsername
            ==> FieldError(body).value == MsgShortPassword
  {
  }

  /** A well-formed body whose username is taken is a 409, whatever the invite. */
  lemma RegisterConflict(st: Store, body: RegisterBody, hash: string, now: int)
    requires FieldError(body).None? && NameTaken(st, body.username.value)
    ensures Register(st, body, hash, now) == RegisterRejected(409, MsgUsernameTaken)
  {
  }

  /** The first account: an admin, whatever the invite field says, holding every globally
      flagged item in its own favourites and watchlist; setup is then no longer needed. */
  lemma RegisterFirstUser(st: Store, body: RegisterBody, hash: string, now: int, i: nat)
    requires FieldError(body).None? && SetupRequired(st) && i < |st.items|
    ensures var r := Register(st, body, hash, now);
      r.Registered? && r.role == Admin && r.userId == st.nextUser
      && UserByUsername(r.store, body.username.value).Some?
      && !SetupRequired(r.store)
      && (IsOne(Col(st.items[i].row, "is_favorite")) ==> (r.userId, st.items[i].id) in r.store.favorites)
      && (IsOne(Col(st.items[i].row, "in_watchlist")) ==> (r.userId, st.items[i].id) in r.store.watchlist)
      && r.store.invites == st.invites
  {
    var created := CreateUser(st, body.username.value, hash, body.displayName.value, Admin, now).value;
    assert created.0.users[|st.users|].username == body.username.value;
    assert NameTaken(created.0, body.username.value);
    assert HasUser(created.0, created.1) by { assert created.0.users[|st.users|].id == created.1; }
    MigrateSpec(created.0, created.1, i, created.1, 0);
  }

  /** A later account: it is created exactly when the supplied invite is stored and
      unused; it is then a member and the invite records it as its user. */
  lemma RegisterWithInvite(st: Store, body: RegisterBody, hash: string, now: int)
    requires FieldError(body).None? && !NameTaken(st, body.username.value) && !SetupRequired(st)
    ensures var r := Register(st, body, hash, now);
      r.Registered? <==> InviteError(st, body.inviteCode).None?
    ensures var r := Register(st, body, hash, now);
      r.RegisterRejected? ==> r == RegisterRejected(400, InviteError(st, body.inviteCode).value)
    ensures var r := Register(st, body, hash, now);
      r.Registered? ==>
        r.role == Member && r.userId == st.nextUser
        && r.store.favorites == st.favorites && r.store.watchlist == st.watchlist
        && |r.store.invites| == |st.invites|
        && forall k :: 0 <= k < |st.invites| && st.invites[k].code == body.inviteCode.value ==>
             r.store.invites[k].usedBy == Some(r.userId)
  {
    if InviteError(st, body.inviteCode).None? {
      var created := CreateUser(st, body.username.value, hash, body.displayName.value, Member, now).value;
      assert created.0.invites == st.invites && created.0.favorites == st.favorites;
      var marked := MarkInviteCodeUsed(created.0, body.inviteCode.value, created.1, now);
      assert HasUser(created.0, created.1) by { assert created.0.users[|st.users|].id == created.1; }
      assert marked.Some?;
    }
  }

  /** The invite rule is what separates a later registration from the first: with the
      same store apart from the user table, an invite error only rejects when accounts exist. */
  lemma RegisterInviteOnlyAfterSetup(st: Store, body: RegisterBody, hash: string, now: int)
    requires FieldError(body).None? && !NameTaken(st, body.username.value)
    requires InviteError(st, body.inviteCode).Some?
    ensures Register(st, body, hash, now).Registered? <==> SetupRequired(st)
  {
  }

  // ---------------------------------------------------------------- POST /auth/login

  datatype LoginBody = LoginBody(username: Option<string>, password: Option<string>)

  datatype Login =
    | LoginRejected(status: int, message: string)
    | LoggedIn(id: int, username: string, displayName: string, role: Role)

  /** `POST /auth/login`. `matches(password, hash)` is the bcrypt comparison. */
  function LogIn(st: Store, body: LoginBody, matches: (string, string) -> bool): (r: Login)
    ensures r.LoginRejected? ==> r.status == 400 || r == LoginRejected(401, MsgBadLogin)
  {
    if !Given(body.username) || !Given(body.password) then LoginRejected(400, MsgLoginRequired)
    else
      var user := UserByUsername(st, body.username.value);
      if user.None? then LoginRejected(401, MsgBadLogin)
      else if !matches(body.password.value, user.value.passwordHash) then LoginRejected(401, MsgBadLogin)
      else LoggedIn(user.value.id, user.value.username, user.value.displayName, user.value.role)
  }

  /** Login succeeds exactly for a stored name whose hash matches the password, and then
      reports that account; an unknown name and a wrong password get the same answer. */
  lemma LogInSpec(st: Store, body: LoginBody, matches: (string, string) -> bool)
    requires Given(body.username) && Given(body.password)
    ensures var r := LogIn(st, body, matches);
      r.LoggedIn? <==> NameTaken(st, body.username.value)
                       && matches(body.password.value, UserByUsername(st, body.username.value).value.passwordHash)
    ensures var r := LogIn(st, body, matches);
      r.LoggedIn? ==> var u := UserByUsername(st, body.username.value).value;
        r == LoggedIn(u.id, u.username, u.displayName, u.role)
    ensures var r := LogIn(st, body, matches);
      !NameTaken(st, body.username.value) ==> r == LoginRejected(401, MsgBadLogin)
    ensures var r := LogIn(st, body, matches);
      r.LoginRejected? ==> r == LoginRejected(401, MsgBadLogin)
  {
  }

  /** A registered account can log in with the password it was registered with. */
  lemma RegisterThenLogIn(st: Store, body: RegisterBody, hash: string, now: int,
                          matches: (string, string) -> bool)
    requires UsersValid(st)
    requires Register(st, body, hash, now).Registered?
    requires matches(body.password.value, hash)
    ensures var r := Register(st, body, hash, now);
      LogIn(r.store, LoginBody(body.username, body.password), matches)
        == LoggedIn(r.userId, body.username.value, body.displayName.value, r.role)
  {
    var r := Register(st, body, hash, now);
    var role := if UserCount(st) == 0 then Admin else Member;
    var created := CreateUser(st, body.username.value, hash, body.displayName.value, role, now).value;
    CreateUserSpec(st, body.username.value, hash, body.displayName.value, role, now);
    assert r.store.users == created.0.users;
    LookupSeesUsersOnly(r.store, created.0, body.username.value);
  }

  /** A lookup by name reads the user table only. */
  lemma {:induction false} LookupSeesUsersOnly(a: Store, b: Store, username: string)
    requires a.users == b.users
    ensures UserByUsername(a, username) == UserByUsername(b, username)
    decreases |a.users|
  {
    if |a.users| > 0 && a.users[0].username != username {
      LookupSeesUsersOnly(a.(users := a.users[1..]), b.(users := b.users[1..]), username);
    }
  }
}
