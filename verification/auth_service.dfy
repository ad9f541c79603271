/** Registration, login and token validation. The `users` table, BCrypt and
    the JWT library are passed in as functions; what is modelled is the order
    of the checks and what each outcome carries. */
module AuthService {
  import opened Wrappers
  import JavaText
  import PasswordUtil

  /** A `users` row. */
  datatype User = User(
    userId: int,
    name: Option<string>,
    email: Option<string>,
    phone: Option<string>,
    passwordHash: Option<string>,
    role: Option<string>,
    deptId: Option<int>)

  /** The `UserDAO` queries the service uses. `findByEmailOrPhone` and
      `findById` see active users only; the two existence tests see all. */
  datatype Directory = Directory(
    emailExists: string -> bool,
    phoneExists: string -> bool,
    findByEmailOrPhone: string -> Option<User>,
    findById: int -> Option<User>)

  const CITIZEN := "CITIZEN"
  const NAME_REQUIRED := "Name is required"
  const CONTACT_REQUIRED := "Email or phone is required"
  const PASSWORD_TOO_SHORT := "Password must be at least 6 characters"
  const EMAIL_TAKEN := "Email already registered"
  const PHONE_TAKEN := "Phone number already registered"
  const INVALID_CREDENTIALS := "Invalid credentials"

  // ----- register -----

  datatype Registration = Rejected(message: string) | Registered(user: User)

  /** `register`. The checks run in a fixed order and the first that fails
      names the outcome; the existence tests receive the untrimmed value and
      are skipped for a blank one. A new user is a CITIZEN without a
      department, stored with the values exactly as given. `hash` stands for
      BCrypt with its random salt; `nextUserId` for the generated key. */
  function Register(name: Option<string>, email: Option<string>, phone: Option<string>,
                    password: Option<string>, dir: Directory, hash: string -> string,
                    nextUserId: int): (r: Registration)
    ensures r.Registered? ==> !JavaText.IsBlank(name) && PasswordUtil.IsValidPassword(password)
    ensures r.Registered? ==> !JavaText.IsBlank(email) || !JavaText.IsBlank(phone)
    ensures r.Registered? ==> r.user == User(nextUserId, name, email, phone, Some(hash(password.value)), Some(CITIZEN), None)
    ensures r.Rejected? ==> r.message in {NAME_REQUIRED, CONTACT_REQUIRED, PASSWORD_TOO_SHORT, EMAIL_TAKEN, PHONE_TAKEN}
  {
    if JavaText.IsBlank(name) then Rejected(NAME_REQUIRED)
    else if JavaText.IsBlank(email) && JavaText.IsBlank(phone) then Rejected(CONTACT_REQUIRED)
    else if !PasswordUtil.IsValidPassword(password) then Rejected(PASSWORD_TOO_SHORT)
    else if !JavaText.IsBlank(email) && dir.emailExists(email.value) then Rejected(EMAIL_TAKEN)
    else if !JavaText.IsBlank(phone) && dir.phoneExists(phone.value) then Rejected(PHONE_TAKEN)
    else Registered(User(nextUserId, name, email, phone, Some(hash(password.value)), Some(CITIZEN), None))
  }

  /** A validation rule: whether it fails, and the message it then gives. */
  datatype Check = Check(fails: bool, message: string)

  /** The rules of registration, in the order they are applied. */
  function RegisterChecks(name: Option<string>, email: Option<string>, phone: Option<string>,
                          password: Option<string>, dir: Directory): (cs: seq<Check>)
    ensures |cs| == 5
  {
    [ Check(JavaText.IsBlank(name), NAME_REQUIRED),
      Check(JavaText.IsBlank(email) && JavaText.IsBlank(phone), CONTACT_REQUIRED),
      Check(!PasswordUtil.IsValidPassword(password), PASSWORD_TOO_SHORT),
      Check(!JavaText.IsBlank(email) && dir.emailExists(email.value), EMAIL_TAKEN),
      Check(!JavaText.IsBlank(phone) && dir.phoneExists(phone.value), PHONE_TAKEN) ]
  }

  /** The message of the first failing rule, if any rule fails. */
  function FirstFailure(cs: seq<Check>): (m: Option<string>)
    ensures m.None? <==> forall k :: 0 <= k < |cs| ==> !cs[k].fails
    ensures m.Some? ==> exists k :: (0 <= k < |cs| && cs[k].fails && cs[k].message == m.value &&
                                     forall j :: 0 <= j < k ==> !cs[j].fails)
  {
    if |cs| == 0 then None
    else if cs[0].fails then Some(cs[0].message)
    else
      var m := FirstFailure(cs[1..]);
      if m.Some? then
        var k :| 0 <= k < |cs[1..]| && cs[1..][k].fails && cs[1..][k].message == m.value &&
          forall j :: 0 <= j < k ==> !cs[1..][j].fails;
        assert cs[k + 1] == cs[1..][k];
        m
      else m
  }

  /** Registration is rejected exactly when some rule fails, and then with
      the message of the first failing rule. */
  lemma RegisterFollowsChecks(name: Option<string>, email: Option<string>, phone: Option<string>,
                              password: Option<string>, dir: Directory, hash: string -> string,
                              nextUserId: int)
    ensures var r := Register(name, email, phone, password, dir, hash, nextUserId);
      var first := FirstFailure(RegisterChecks(name, email, phone, password, dir));
      (r.Rejected? <==> first.Some?) && (r.Rejected? ==> r.message == first.value)
  {
    var cs := RegisterChecks(name, email, phone, password, dir);
    FirstFailureOfFive(cs);
  }

  /** Five rules, read off one after another. */
  lemma FirstFailureOfFive(cs: seq<Check>)
    requires |cs| == 5
    ensures FirstFailure(cs) ==
      if cs[0].fails then Some(cs[0].message)
      else if cs[1].fails then Some(cs[1].message)
      else if cs[2].fails then Some(cs[2].message)
      else if cs[3].fails then Some(cs[3].message)
      else if cs[4].fails then Some(cs[4].message)
      else None
  {
    if cs[0].fails {
      FirstFailureAt(cs, 0);
    } else if cs[1].fails {
      FirstFailureAt(cs, 1);
    } else if cs[2].fails {
      FirstFailureAt(cs, 2);
    } else if cs[3].fails {
      FirstFailureAt(cs, 3);
    } else if cs[4].fails {
      FirstFailureAt(cs, 4);
    }
  }

  /** The first failing rule decides the message. */
  lemma FirstFailureAt(cs: seq<Check>, n: nat)
    requires n < |cs| && cs[n].fails
    requires forall j :: 0 <= j < n ==> !cs[j].fails
    ensures FirstFailure(cs) == Some(cs[n].message)
  {
    var first := FirstFailure(cs);
    var k :| 0 <= k < |cs| && cs[k].fails && cs[k].message == first.value &&
      forall j :: 0 <= j < k ==> !cs[j].fails;
    assert k == n;
  }

  /** A blank name is reported first, whatever else is wrong. */
  lemma NameIsCheckedFirst(name: Option<string>, email: Option<string>, phone: Option<string>,
                           password: Option<string>, dir: Directory, hash: string -> string,
                           nextUserId: int)
    requires JavaText.IsBlank(name)
    ensures Register(name, email, phone, password, dir, hash, nextUserId) == Rejected(NAME_REQUIRED)
  {
  }

  /** A taken email blocks registration even when the phone is new, and a
      blank email is never looked up. */
  lemma EmailCheckedBeforePhone(name: Option<string>, email: Option<string>, phone: Option<string>,
                                password: Option<string>, dir: Directory, hash: string -> string,
                                nextUserId: int)
    requires !JavaText.IsBlank(name) && PasswordUtil.IsValidPassword(password)
    ensures !JavaText.IsBlank(email) && dir.emailExists(email.value) ==>
      Register(name, email, phone, password, dir, hash, nextUserId) == Rejected(EMAIL_TAKEN)
    ensures JavaText.IsBlank(email) && !JavaText.IsBlank(phone) && !dir.phoneExists(phone.value) ==>
      Register(name, email, phone, password, dir, hash, nextUserId).Registered?
  {
  }

  // ----- login -----

  /** The `user` map of a successful login. */
  datatype UserData = UserData(userId: int, name: Option<string>, email: Option<string>,
                               phone: Option<string>, role: Option<string>, deptId: Option<int>)

  datatype LoginOutcome = LoginFailed(message: string) | LoggedIn(token: string, user: UserData)

  /** `findByEmailOrPhone` on an identifier that may be null: a null one
      matches no row. */
  function FindUser(dir: Directory, identifier: Option<string>): (u: Option<User>)
    ensures identifier.None? ==> u.None?
    ensures identifier.Some? ==> u == dir.findByEmailOrPhone(identifier.value)
  {
    if identifier.Some? then dir.findByEmailOrPhone(identifier.value) else None
  }

  /** `login`: an unknown identifier and a wrong password give the same
      answer. On success the token is issued for the stored user's id, role
      and name, and the user map copies the stored row, hash excluded.
      `check` is BCrypt's comparison; `issue` is the token signer. */
  function Login(identifier: Option<string>, password: Option<string>, dir: Directory,
                 check: (string, string) -> bool,
                 issue: (int, Option<string>, Option<string>) -> string): (r: LoginOutcome)
    ensures r.LoginFailed? ==> r.message == INVALID_CREDENTIALS
    ensures r.LoggedIn? <==>
      FindUser(dir, identifier).Some? && PasswordUtil.VerifyPassword(password, FindUser(dir, identifier).value.passwordHash, check)
    ensures r.LoggedIn? ==> var u := FindUser(dir, identifier).value;
      r.token == issue(u.userId, u.role, u.name) &&
      r.user == UserData(u.userId, u.name, u.email, u.phone, u.role, u.deptId)
  {
    match FindUser(dir, identifier)
    case None => LoginFailed(INVALID_CREDENTIALS)
    case Some(u) =>
      if !PasswordUtil.VerifyPassword(password, u.passwordHash, check) then LoginFailed(INVALID_CREDENTIALS)
      else LoggedIn(issue(u.userId, u.role, u.name), UserData(u.userId, u.name, u.email, u.phone, u.role, u.deptId))
  }

  /** A failed login does not reveal whether the identifier exists: for any
      two failing attempts the outcomes are equal. */
  lemma LoginFailuresIndistinguishable(id1: Option<string>, pw1: Option<string>,
                                       id2: Option<string>, pw2: Option<string>, dir: Directory,
                                       check: (string, string) -> bool,
                                       issue: (int, Option<string>, Option<string>) -> string)
    requires Login(id1, pw1, dir, check, issue).LoginFailed?
    requires Login(id2, pw2, dir, check, issue).LoginFailed?
    ensures Login(id1, pw1, dir, check, issue) == Login(id2, pw2, dir, check, issue)
  {
  }

  /** A user just registered can log in with the same password, given that
      the lookup finds the stored row by its email and that BCrypt accepts a
      password against its own hash. */
  lemma RegisterThenLogin(name: Option<string>, email: Option<string>, phone: Option<string>,
                          password: Option<string>, dir: Directory, hash: string -> string,
                          nextUserId: int, check: (string, string) -> bool,
                          issue: (int, Option<string>, Option<string>) -> string)
    requires Register(name, email, phone, password, dir, hash, nextUserId).Registered?
    requires email.Some? && dir.findByEmailOrPhone(email.value) ==
      Some(Register(name, email, phone, password, dir, hash, nextUserId).user)
    requires check(password.value, hash(password.value))
    ensures var r := Login(email, password, dir, check, issue);
      r.LoggedIn? && r.user.userId == nextUserId && r.user.role == Some(CITIZEN)
  {
  }

  // ----- tokens -----

  /** `validateToken`: no user when the token yields no id (bad signature,
      expired, malformed, null); otherwise whatever `findById` finds, which
      is nothing for an inactive user. `userIdOf` is the token reader. */
  function ValidateToken(token: Option<string>, userIdOf: Option<string> -> Option<int>,
                         dir: Directory): (u: Option<User>)
    ensures userIdOf(token).None? ==> u.None?
    ensures u.Some? ==> userIdOf(token).Some? && dir.findById(userIdOf(token).value) == u
    ensures userIdOf(token).Some? ==> u == dir.findById(userIdOf(token).value)
  {
    match userIdOf(token)
    case None => None
    case Some(id) => dir.findById(id)
  }

  /** The token a login returns leads back to the same active user, given
      that the token reader recovers the id the signer put in. */
  lemma LoginTokenValidates(identifier: Option<string>, password: Option<string>, dir: Directory,
                            check: (string, string) -> bool,
                            issue: (int, Option<string>, Option<string>) -> string,
                            userIdOf: Option<string> -> Option<int>)
    requires Login(identifier, password, dir, check, issue).LoggedIn?
    requires forall id, role, name :: userIdOf(Some(issue(id, role, name))) == Some(id)
    requires var u := FindUser(dir, identifier).value; dir.findById(u.userId) == Some(u)
    ensures var r := Login(identifier, password, dir, check, issue);
      ValidateToken(Some(r.token), userIdOf, dir) == FindUser(dir, identifier)
  {
  }
}
