/** The `/api/users` routes: input validation, registration and login. */
module Users {
  import opened Optional
  import opened Store
  import opened StoreFacts
  import opened Http
  import opened Email

  const UsernameError := "Username must be between 3 and 50 characters"
  const EmailError := "Invalid email format"
  const PasswordError := "Password must be at least 4 characters long"

  /** `validateInput`: the first failing check's message, or `None` when the
      input is acceptable. The checks run username, email, password. */
  function ValidateInput(username: Option<string>, email: Option<string>, password: Option<string>): (err: Option<string>)
    ensures err.None? <==>
      && username.Some? && 3 <= |username.value| <= 50
      && email.Some? && RegexMatch(email.value)
      && password.Some? && |password.value| >= 4
    ensures !(username.Some? && 3 <= |username.value| <= 50) ==> err == Some(UsernameError)
    ensures (username.Some? && 3 <= |username.value| <= 50) && !(email.Some? && RegexMatch(email.value)) ==>
      err == Some(EmailError)
    ensures (username.Some? && 3 <= |username.value| <= 50) && (email.Some? && RegexMatch(email.value)) &&
            !(password.Some? && |password.value| >= 4) ==>
      err == Some(PasswordError)
    ensures err.Some? ==> err.value in {UsernameError, EmailError, PasswordError}
  {
    EmailMatchesIffRegex(if email.Some? then email.value else "");
    if Falsy(username) || |username.value| < 3 || |username.value| > 50 then Some(UsernameError)
    else if Falsy(email) || !EmailMatches(email.value) then Some(EmailError)
    else if Falsy(password) || |password.value| < 4 then Some(PasswordError)
    else None
  }

  /** A three-character password is refused and a four-character one
      accepted. */
  lemma PasswordLengthBoundary()
    ensures ValidateInput(Some("ann"), Some("a@b.c"), Some("abc")) == Some(PasswordError)
    ensures ValidateInput(Some("ann"), Some("a@b.c"), Some("abcd")) == None
  {
    AcceptsShortAddress();
  }

  /** POST /users/register: 400 with the validation message, 400 when the
      email is already registered, otherwise one new member under a fresh
      id, storing only a digest of the password, and a reply with the id,
      username and email. */
  function Register(s: Store, username: Option<string>, email: Option<string>, password: Option<string>): (r: Reply)
    ensures r.response.status in {201, 400}
    ensures r.response.status == 400 ==> r.next == s
    ensures ValidateInput(username, email, password).Some? ==>
      r.response == Fail(400, ValidateInput(username, email, password).value)
    ensures ValidateInput(username, email, password).None? && EmailTaken(s, email.value) ==>
      r.response == Fail(400, "Email already exists")
    ensures r.response.status == 201 <==>
      ValidateInput(username, email, password).None? && !EmailTaken(s, email.value)
    ensures r.response.status == 201 ==>
      && r.response.body.Registered?
      && var id := r.response.body.user.id;
      && r.next == s.(users := r.next.users, nextUser := r.next.nextUser)
      && r.next.users.Keys == s.users.Keys + {id}
      && (Valid(s) ==> id !in s.users)
      && (forall u | u in s.users && u != id :: r.next.users[u] == s.users[u])
      && r.next.users[id].username == username.value
      && r.next.users[id].email == email.value
      && r.next.users[id].role == Member
      && (forall p :: Compare(p, r.next.users[id].hash) <==> p == password.value)
      && r.response.body.user == PublicUser(id, username.value, email.value)
    ensures Valid(s) ==> Valid(r.next)
  {
    var err := ValidateInput(username, email, password);
    if err.Some? then Reply(s, Fail(400, err.value))
    else if EmailTaken(s, email.value) then Reply(s, Fail(400, "Email already exists"))
    else
      var id := s.nextUser;
      var user := User(username.value, email.value, Hash(password.value), Member);
      var t := s.(users := s.users[id := user], nextUser := id + 1);
      assert Valid(s) ==> Valid(t) by {
        if Valid(s) {
          UserInsertValid(s, user);
        }
      }
      Reply(t, Response(201, Registered(PublicUser(id, username.value, email.value))))
  }

  /** Registering the same email twice adds one user: the second attempt is
      refused. */
  lemma SecondRegistrationRefused(s: Store, username: Option<string>, email: Option<string>, password: Option<string>,
                                  username2: Option<string>, password2: Option<string>)
    requires Register(s, username, email, password).response.status == 201
    ensures var t := Register(s, username, email, password).next;
            Register(t, username2, email, password2).next == t
            && Register(t, username2, email, password2).response.status == 400
  {
    var t := Register(s, username, email, password).next;
    var id := Register(s, username, email, password).response.body.user.id;
    assert t.users[id].email == email.value;
    assert EmailTaken(t, email.value);
  }

  /** POST /users/login: 400 without an email or password; the same
      "Invalid credentials" reply for an unknown email and for a wrong
      password; otherwise the token claims and profile of the stored user.
      Login never changes the database, so only the response is modelled. */
  function Login(s: Store, email: Option<string>, password: Option<string>): (r: Response)
    ensures r.status in {200, 400}
    ensures Falsy(email) || Falsy(password) ==> r == Fail(400, "Email and password are required")
    ensures !Falsy(email) && !Falsy(password) && r.status == 400 ==> r == Fail(400, "Invalid credentials")
    ensures Valid(s) && !Falsy(email) && !Falsy(password) ==>
      (r.status == 200 <==>
         exists u | u in s.users :: s.users[u].email == email.value && Compare(password.value, s.users[u].hash))
    ensures r.status == 200 ==>
      && r.body.LoggedIn?
      && var u := r.body.token.id;
      && u in s.users
      && s.users[u].email == email.value
      && Compare(password.value, s.users[u].hash)
      && r.body.token == Claims(u, s.users[u].email, s.users[u].role)
      && r.body.profile == Profile(u, s.users[u].username, s.users[u].email, s.users[u].role)
  {
    if Falsy(email) || Falsy(password) then Fail(400, "Email and password are required")
    else
      var found := UserByEmail(s, email.value);
      if found.None? then Fail(400, "Invalid credentials")
      else
        var user := s.users[found.value];
        if !Compare(password.value, user.hash) then Fail(400, "Invalid credentials")
        else
          Response(200, LoggedIn(Claims(found.value, user.email, user.role),
                                 Profile(found.value, user.username, user.email, user.role)))
  }

  /** A freshly registered member can log in with the password they chose,
      and gets a member's claims for the new id; any other password is
      refused. */
  lemma LoginAfterRegister(s: Store, username: Option<string>, email: Option<string>,
                            password: Option<string>, other: string)
    requires Valid(s)
    requires Register(s, username, email, password).response.status == 201
    requires other != "" && other != password.value
    ensures var reg := Register(s, username, email, password);
            var r := Login(reg.next, email, password);
            && r.status == 200
            && r.body.token == Claims(reg.response.body.user.id, email.value, Member)
    ensures var reg := Register(s, username, email, password);
            Login(reg.next, email, Some(other)) == Fail(400, "Invalid credentials")
  {
    var reg := Register(s, username, email, password);
    var t := reg.next;
    var id := reg.response.body.user.id;
    assert t.users[id].email == email.value;
    UserByEmailExact(t, email.value);
    assert UserByEmail(t, email.value) == Some(id);
  }
}
