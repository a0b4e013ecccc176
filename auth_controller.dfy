/**
 * Registration and login over an in-memory user collection keyed by email. Password hashing and
 * its comparison belong to the User model, which is not part of this model: the comparison is a
 * parameter. Signing is symbolic: a token records what it was signed over.
 */
module AuthController {
  import opened Js
  import opened Http

  type UserId = nat

  /** A stored user; `password` is what registration handed to the User model. */
  datatype User = User(id: UserId, name: string, email: string, password: string)

  /** A signed token: the payload `{ id }`, the issue and expiry times in seconds, and the signing secret. */
  datatype Token = Token(subject: UserId, issuedAt: int, expiresAt: int, secret: string)

  /** `expiresIn: '30d'`, in seconds. */
  const TokenLifetime := 30 * 24 * 60 * 60

  const MissingFields := "Please include all fields"
  const UserExists := "User already exists"
  const InvalidCredentials := "Invalid credentials"

  /**
   * `generateToken(id)`: the payload is the identifier alone, and the token expires 30 days after
   * it is issued. The secret and the clock (`now`, in seconds) are the environment's.
   */
  function GenerateToken(id: UserId, secret: string, now: int): (t: Token)
    ensures t.subject == id && t.secret == secret
    ensures t.issuedAt == now && t.expiresAt - t.issuedAt == TokenLifetime
  {
    Token(id, now, now + TokenLifetime, secret)
  }

  /** The check a route guard applies to a token: the right secret, and not yet expired. */
  function VerifyToken(t: Token, secret: string, now: int): Option<UserId> {
    if t.secret == secret && now < t.expiresAt then Some(t.subject) else None
  }

  /**
   * A generated token names its user for 30 days under the secret that signed it, and for no
   * time under any other secret.
   */
  lemma TokenRoundTrip(id: UserId, secret: string, issued: int, secret': string, now: int)
    ensures VerifyToken(GenerateToken(id, secret, issued), secret', now)
         == if secret' == secret && now < issued + TokenLifetime then Some(id) else None
  {
  }

  /** What registration and login reply with. */
  datatype Reply = Reply(id: UserId, name: string, email: string, token: Token)

  function ReplyFor(u: User, secret: string, now: int): (r: Reply)
    ensures r.id == u.id && r.name == u.name && r.email == u.email && r.token.subject == u.id
  {
    Reply(u.id, u.name, u.email, GenerateToken(u.id, secret, now))
  }

  datatype RegisterBody = RegisterBody(name: Option<string>, email: Option<string>, password: Option<string>)

  datatype LoginBody = LoginBody(email: string, password: string)

  /** `name && email && password`. */
  predicate AllGiven(body: RegisterBody) {
    TruthyString(body.name) && TruthyString(body.email) && TruthyString(body.password)
  }

  class Registry {
    var users: map<string, User>
    var nextId: UserId

    /** Each user is stored under its own email, and identifiers are distinct and below `nextId`. */
    ghost predicate Valid()
      reads this
    {
      && (forall e :: e in users ==> users[e].email == e && users[e].id < nextId)
      && (forall e, e' :: e in users && e' in users && e != e' ==> users[e].id != users[e'].id)
    }

    constructor ()
      ensures Valid() && users == map[] && nextId == 0
    {
      users, nextId := map[], 0;
    }

    /**
     * `registerUser`: a falsy name, email or password is refused with 400 "Please include all
     * fields", a known email with 400 "User already exists", both leaving the collection as it
     * was; otherwise exactly one user is added under a fresh identifier and the reply carries a
     * token for that identifier.
     */
    method Register(body: RegisterBody, secret: string, now: int) returns (r: Outcome<Reply>)
      requires Valid()
      modifies this
      ensures Valid()
      ensures !AllGiven(body) ==> r == Fail(StatusBadRequest, MissingFields)
                                  && users == old(users) && nextId == old(nextId)
      ensures AllGiven(body) && body.email.value in old(users) ==>
                r == Fail(StatusBadRequest, UserExists) && users == old(users) && nextId == old(nextId)
      ensures AllGiven(body) && body.email.value !in old(users) ==>
                var u := User(old(nextId), body.name.value, body.email.value, body.password.value);
                && users == old(users)[body.email.value := u]
                && |users| == |old(users)| + 1
                && nextId == old(nextId) + 1
                && r == Ok(StatusCreated, ReplyFor(u, secret, now))
    {
      if !AllGiven(body) {
        r := Fail(StatusBadRequest, MissingFields);
        return;
      }
      var email := body.email.value;
      if email in users {
        r := Fail(StatusBadRequest, UserExists);
        return;
      }
      var u := User(nextId, body.name.value, email, body.password.value);
      users := users[email := u];
      nextId := nextId + 1;
      r := Ok(StatusCreated, ReplyFor(u, secret, now));
    }

    /**
     * `loginUser`: succeeds exactly when a user has this email and the password matches it, and
     * then replies with that user and a token for its identifier; every failure is the same 401
     * "Invalid credentials". Being a function, it changes nothing.
     */
    function Login(body: LoginBody, matchPassword: (User, string) -> bool, secret: string, now: int): (r: Outcome<Reply>)
      reads this
      ensures r.Ok? <==> body.email in users && matchPassword(users[body.email], body.password)
      ensures r.Ok? ==> r == Ok(StatusOk, ReplyFor(users[body.email], secret, now))
      ensures !r.Ok? ==> r == Fail(StatusUnauthorized, InvalidCredentials)
    {
      if body.email in users && matchPassword(users[body.email], body.password) then
        Ok(StatusOk, ReplyFor(users[body.email], secret, now))
      else
        Fail(StatusUnauthorized, InvalidCredentials)
    }
  }

  /** An unknown email and a wrong password cannot be told apart from the reply. */
  lemma LoginFailuresIdentical(reg: Registry, unknown: LoginBody, wrong: LoginBody,
                               matchPassword: (User, string) -> bool, secret: string, now: int)
    requires unknown.email !in reg.users
    requires wrong.email in reg.users && !matchPassword(reg.users[wrong.email], wrong.password)
    ensures reg.Login(unknown, matchPassword, secret, now) == reg.Login(wrong, matchPassword, secret, now)
                                                            == Fail(StatusUnauthorized, InvalidCredentials)
  {
  }

  /** Registering the same email twice: the first succeeds, the second is refused and adds no one. */
  method RegisterTwice(body: RegisterBody, secret: string, now: int) returns (first: Outcome<Reply>, second: Outcome<Reply>)
    requires AllGiven(body)
    ensures first.Ok? && first.code == StatusCreated
    ensures second == Fail(StatusBadRequest, UserExists)
  {
    var reg := new Registry();
    first := reg.Register(body, secret, now);
    second := reg.Register(body, secret, now);
  }

  /** A user who has just registered logs in exactly when the model's comparison accepts the password. */
  method RegisterThenLogin(body: RegisterBody, password: string, matchPassword: (User, string) -> bool,
                           secret: string, now: int) returns (login: Outcome<Reply>)
    requires AllGiven(body)
    ensures login.Ok? <==> matchPassword(User(0, body.name.value, body.email.value, body.password.value), password)
    ensures login.Ok? ==> login.value.id == 0 && login.value.token.subject == 0
  {
    var reg := new Registry();
    var registered := reg.Register(body, secret, now);
    login := reg.Login(LoginBody(body.email.value, password), matchPassword, secret, now);
  }
}
