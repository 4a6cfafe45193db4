/**
 * Registration and login (server/server.js, `/api/auth/register` and
 * `/api/auth/login`). bcrypt is a library call: `Hasher.hash` takes the
 * random salt `bcrypt.hash(password, 10)` draws as a parameter, and
 * `HasherSound` is the one law the routes rely on. A signed JWT is modelled
 * by the claims it carries.
 */
module Accounts {
  import opened Types
  import opened Collections
  import opened ServerState

  const BCRYPT_ROUNDS: nat := 10

  datatype Hasher = Hasher(hash: (string, nat) -> string, compare: (string, string) -> bool)

  /** `bcrypt.compare(pw, await bcrypt.hash(pw, rounds))` resolves to true. */
  ghost predicate HasherSound(h: Hasher) {
    forall pw, salt {:trigger h.hash(pw, salt)} :: h.compare(pw, h.hash(pw, salt))
  }

  /** The request body of `/api/auth/register`; a missing field is the empty string. */
  datatype RegisterForm = RegisterForm(name: string, email: string, password: string, role: string)

  /** The `user` object both routes return next to the token. */
  datatype UserView = UserView(id: Id, name: string, email: string, role: Role)

  datatype Session = Session(token: Claims, user: UserView)

  predicate EmailTaken(st: Store, email: string) {
    exists i :: 0 <= i < |st.users| && st.users[i].email == email
  }

  /** No two registered users share an email. */
  ghost predicate UniqueEmails(st: Store) {
    forall i, j :: 0 <= i < j < |st.users| ==> st.users[i].email != st.users[j].email
  }

  predicate FieldsPresent(form: RegisterForm) {
    form.name != "" && form.email != "" && form.password != "" && form.role != ""
  }

  function HasEmail(email: string): User -> bool {
    (u: User) => u.email == email
  }

  /** `POST /api/auth/register`. */
  function Register(st: Store, form: RegisterForm, salt: nat, h: Hasher): (r: Handled<Session>)
    ensures !FieldsPresent(form) ==> r == Handled(st, Fail(400, "All fields are required"))
    ensures FieldsPresent(form) && EmailTaken(st, form.email) ==> r == Handled(st, Fail(400, "Email already registered"))
    ensures r.outcome.Ok? <==> FieldsPresent(form) && !EmailTaken(st, form.email) && ParseRole(form.role).Some?
    ensures !r.outcome.Ok? ==> r.store == st
    ensures r.outcome.Ok? ==>
      && r.store == st.(users := r.store.users, nextId := st.nextId + 1)
      && r.store.users == st.users + [User(st.nextId, form.name, form.email, h.hash(form.password, salt), ParseRole(form.role).value)]
      && r.outcome.value.token == Claims(st.nextId, ParseRole(form.role).value, None)
  {
    if !FieldsPresent(form) then Handled(st, Fail(400, "All fields are required"))
    else if FindFirst(st.users, HasEmail(form.email)).Some? then Handled(st, Fail(400, "Email already registered"))
    else
      match ParseRole(form.role)
      case None => Handled(st, Fail(500, "Registration failed"))
      case Some(role) =>
        var user := User(st.nextId, form.name, form.email, h.hash(form.password, salt), role);
        var st' := st.(users := st.users + [user], nextId := st.nextId + 1);
        Handled(st', Ok(Session(Claims(user.id, role, None), UserView(user.id, user.name, user.email, role))))
  }

  /** Registration never lets two users share an email. */
  lemma RegisterKeepsEmailsUnique(st: Store, form: RegisterForm, salt: nat, h: Hasher)
    requires UniqueEmails(st)
    ensures UniqueEmails(Register(st, form, salt, h).store)
  {
  }

  /**
   * `POST /api/auth/login`: every attempt that reaches a verdict is written
   * to the security log. `password` is `None` when the body has no such
   * field: `bcrypt.compare(undefined, hash)` rejects, and the catch answers
   * 500 without logging.
   */
  function Login(st: Store, email: string, password: Option<string>, h: Hasher, ctx: Ctx): (r: Handled<Session>)
    ensures r.store.(securityLog := st.securityLog) == st
    ensures ctx.logWritable && (password.Some? || !EmailTaken(st, email)) <==> |r.store.securityLog| == |st.securityLog| + 1
    ensures !EmailTaken(st, email) ==> r.outcome == Fail(401, "Invalid credentials")
    ensures !EmailTaken(st, email) && ctx.logWritable ==>
      r.store.securityLog[|st.securityLog|].user == Some(ANONYMOUS)
      && r.store.securityLog[|st.securityLog|].status == "error"
    ensures EmailTaken(st, email) && password.None? ==> r == Handled(st, Fail(500, "Server error"))
    ensures EmailTaken(st, email) && password.Some? ==>
      var user := st.users[FindFirst(st.users, HasEmail(email)).value];
      && (h.compare(password.value, user.password) ==>
            && r.outcome.Ok?
            && r.outcome.value.token == Claims(user.id, user.role, Some(user.name))
            && r.outcome.value.user == UserView(user.id, user.name, user.email, user.role))
      && (!h.compare(password.value, user.password) ==> r.outcome == Fail(401, "Invalid credentials"))
    ensures r.outcome.Ok? ==>
      exists i :: 0 <= i < |st.users| && st.users[i].email == email
        && h.compare(password.value, st.users[i].password)
        && r.outcome.value.token == Claims(st.users[i].id, st.users[i].role, Some(st.users[i].name))
    ensures r.outcome.Ok? && ctx.logWritable ==> r.store.securityLog[|st.securityLog|].status == "success"
  {
    match FindFirst(st.users, HasEmail(email))
    case None =>
      Handled(LogSecurityEvent(st, "Login Attempt", None, "error", "Failed login attempt for email: " + email, ctx),
              Fail(401, "Invalid credentials"))
    case Some(i) =>
      var user := st.users[i];
      match password
      case None => Handled(st, Fail(500, "Server error"))
      case Some(pw) =>
        if !h.compare(pw, user.password) then
          Handled(LogSecurityEvent(st, "Login Attempt", Some(user.name), "error", "Invalid password", ctx),
                  Fail(401, "Invalid credentials"))
        else
          Handled(LogSecurityEvent(st, "Login", Some(user.name), "success", "User logged in successfully", ctx),
                  Ok(Session(Claims(user.id, user.role, Some(user.name)), UserView(user.id, user.name, user.email, user.role))))
  }

  /** A user who has just registered can log in with the same email and password. */
  lemma RegisterThenLogin(st: Store, form: RegisterForm, salt: nat, h: Hasher, ctx: Ctx)
    requires HasherSound(h)
    requires Register(st, form, salt, h).outcome.Ok?
    ensures var st' := Register(st, form, salt, h).store;
      Login(st', form.email, Some(form.password), h, ctx).outcome.Ok?
      && Login(st', form.email, Some(form.password), h, ctx).outcome.value.token
         == Claims(st.nextId, ParseRole(form.role).value, Some(form.name))
  {
    var st' := Register(st, form, salt, h).store;
    var k := |st.users|;
    assert st'.users[k].email == form.email;
    assert FindFirst(st'.users, HasEmail(form.email)) == Some(k) by {
      var found := FindFirst(st'.users, HasEmail(form.email));
      assert found.Some?;
      assert !EmailTaken(st, form.email);
      assert found.value >= k;
    }
    assert h.compare(form.password, h.hash(form.password, salt));
  }
}
