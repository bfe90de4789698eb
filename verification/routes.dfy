/**
 The decision logic of the three route handlers of `server.js` that do more
 than pass a request through: `POST /api/register`, `POST /api/login` and
 `POST /api/user/changepassword`. Each handler is a function from the
 request and the collaborators' answers to the response the client gets and
 the collaborator calls made on the way.
 */
module Routes {
  import opened Wrappers
  import opened LoginCounter
  import opened Api

  /** Is some call of the list a `createUser`? */
  predicate CreatesUser(effects: seq<Effect>)
  {
    exists e :: e in effects && e.CreateUser?
  }

  /** Is some call of the list a `changePassword`? */
  predicate ChangesPassword(effects: seq<Effect>)
  {
    exists e :: e in effects && e.ChangePassword?
  }

  /**
   Only the first response a handler sends reaches the client: a second
   `res.status(..).json(..)` throws because the headers are already sent,
   and the handler's `catch` only logs that.
   */
  function FirstSent(sent: Option<Response>, r: Response): Response
  {
    if sent.Some? then sent.value else r
  }

  // ---------------------------------------------------------------- register

  datatype RegisterRequest = RegisterRequest(first: Field, last: Field, email: Field, password: Field)

  predicate RegisterComplete(req: RegisterRequest)
  {
    Truthy(req.email) && Truthy(req.password) && Truthy(req.first) && Truthy(req.last)
  }

  /** The row registration inserts: the names and email as given, and the bcrypt hash of password + fresh salt. */
  function NewRow(req: RegisterRequest, crypto: Crypto): NewUser
  {
    NewUser(req.first, req.last, req.email, crypto.hash(Text(req.password) + crypto.salt, HashRounds), crypto.salt)
  }

  /**
   `POST /api/register` as written. The 400 for a missing field is not
   followed by `return`, so the handler still looks the email up and, when
   it is unknown, hashes, inserts the row and signs a token; only the
   client's response stays the 400.
   */
  function HandleRegister(req: RegisterRequest, store: Store, crypto: Crypto): (out: Outcome)
    ensures |out.effects| >= 1 && out.effects[0] == GetUser(req.email)
    ensures !RegisterComplete(req) ==> out.response == BadRequest(AllInputRequired)
    ensures RegisterComplete(req) && store.getUser(req.email).Some? ==>
      out == Outcome(Response(409, ErrorJson(UserAlreadyExists), []), [GetUser(req.email)])
    ensures CreatesUser(out.effects) <==> store.getUser(req.email).None?
    ensures DrawSalt in out.effects <==> store.getUser(req.email).None?
    ensures out.response.status == 201 <==> RegisterComplete(req) && store.getUser(req.email).None?
    ensures out.response.status == 201 ==>
      var claims := Claims(store.createUser(NewRow(req, crypto)), req.email);
      && CreateUser(NewRow(req, crypto)) in out.effects
      && Sign(claims, RegisterTokenLifetime) in out.effects
      && out.response == Response(201, UserJson(claims.userId, req.first, req.last, req.email,
                                                crypto.sign(claims, RegisterTokenLifetime)), [])
  {
    var sent := if RegisterComplete(req) then None else Some(BadRequest(AllInputRequired));
    var lookup := [GetUser(req.email)];
    if store.getUser(req.email).Some? then
      Outcome(FirstSent(sent, Response(409, ErrorJson(UserAlreadyExists), [])), lookup)
    else
      var row := NewRow(req, crypto);
      var claims := Claims(store.createUser(row), req.email);
      var token := crypto.sign(claims, RegisterTokenLifetime);
      var effects := lookup + [DrawSalt, Hash(Text(req.password) + crypto.salt, HashRounds), CreateUser(row), Sign(claims, RegisterTokenLifetime)];
      assert effects[1] == DrawSalt && effects[3] == CreateUser(row);
      Outcome(FirstSent(sent, Response(201, UserJson(claims.userId, req.first, req.last, req.email, token), [])), effects)
  }

  /** `POST /api/register` with the early exit the missing-field branch evidently intends. */
  function RegisterEarlyExit(req: RegisterRequest, store: Store, crypto: Crypto): (out: Outcome)
    ensures !RegisterComplete(req) ==> out == Outcome(BadRequest(AllInputRequired), [])
    // The property the missing `return` breaks: an incomplete request leaves the store untouched.
    ensures !RegisterComplete(req) ==> forall e :: e in out.effects ==> !TouchesStore(e)
    ensures RegisterComplete(req) ==> out == HandleRegister(req, store, crypto)
  {
    if !RegisterComplete(req) then Outcome(BadRequest(AllInputRequired), [])
    else HandleRegister(req, store, crypto)
  }

  /** As written, a request missing a field still inserts a row when its email is unknown, although the client is told 400. */
  lemma MissingFieldStillCreatesUser(req: RegisterRequest, store: Store, crypto: Crypto)
    requires !RegisterComplete(req) && store.getUser(req.email).None?
    ensures HandleRegister(req, store, crypto).response == BadRequest(AllInputRequired)
    ensures CreatesUser(HandleRegister(req, store, crypto).effects)
    ensures !CreatesUser(RegisterEarlyExit(req, store, crypto).effects)
  {
  }

  /** A store that knows no email. */
  function EmptyStore(): Store
  {
    Store((e: Field) => None, (row: NewUser) => 1, (h: string, s: string, id: UserId) => "")
  }

  /** A stand-in for bcrypt whose hash is the identity. */
  function PlainCrypto(salt: string): Crypto
  {
    Crypto(salt, (x: string, n: nat) => x, (x: string, y: string) => x == y, (c: Claims, l: string) => l)
  }

  /** The concrete input: only an email, which the store does not know; the row gets the hash of `"undefined"` + salt. */
  lemma MissingPasswordExample()
    ensures var out := HandleRegister(RegisterRequest(None, None, Some("a@example.com"), None), EmptyStore(), PlainCrypto("00"));
      && out.response.status == 400
      && CreateUser(NewUser(None, None, Some("a@example.com"), "undefined00", "00")) in out.effects
  {
    var req := RegisterRequest(None, None, Some("a@example.com"), None);
    assert Text(req.password) + "00" == "undefined00";
    assert NewRow(req, PlainCrypto("00")) == NewUser(None, None, Some("a@example.com"), "undefined00", "00");
  }

  // ------------------------------------------------------------------- login

  datatype LoginRequest = LoginRequest(email: Field, password: Field)

  predicate LoginComplete(req: LoginRequest)
  {
    Truthy(req.email) && Truthy(req.password)
  }

  /** The store knows the email and bcrypt accepts password + that user's salt against the stored hash. */
  predicate Accepted(req: LoginRequest, store: Store, crypto: Crypto)
  {
    var user := store.getUser(req.email);
    user.Some? && crypto.compare(Text(req.password) + user.value.salt, user.value.passwordHash)
  }

  /**
   `POST /api/login`: input check, the attempt counter from the `Cookie`
   header (`None` when there is none), the gate at five, then the
   credential check.
   */
  function HandleLogin(req: LoginRequest, cookieHeader: Option<string>, store: Store, crypto: Crypto): (out: Outcome)
    ensures !LoginComplete(req) ==> out == Outcome(BadRequest(AllInputRequired), [])
    ensures LoginComplete(req) && Throttled(AttemptsIn(cookieHeader)) ==>
      out == Outcome(BadRequest(TooManyAttempts), [])
    ensures out.response.status == 200 <==>
      LoginComplete(req) && !Throttled(AttemptsIn(cookieHeader)) && Accepted(req, store, crypto)
    ensures out.response.status == 200 ==>
      var user := store.getUser(req.email).value;
      var claims := Claims(user.id, req.email);
      var token := crypto.sign(claims, LoginTokenLifetime);
      && Sign(claims, LoginTokenLifetime) in out.effects
      && out.response == Response(200, UserJson(user.id, Some(user.first), Some(user.last), Some(user.email), token),
                                  [TokenCookie(token)])
    ensures LoginComplete(req) && !Throttled(AttemptsIn(cookieHeader)) && !Accepted(req, store, crypto) ==>
      out.response == Response(400, ErrorJson(InvalidCredentials), [LoginCookie(Bump(AttemptsIn(cookieHeader)))])
    ensures out.effects != [] ==> out.effects[0] == GetUser(req.email)
    ensures forall e :: e in out.effects ==> !WritesStore(e) && !e.Hash?
  {
    if !LoginComplete(req) then Outcome(BadRequest(AllInputRequired), [])
    else
      var count := AttemptsIn(cookieHeader);
      if Throttled(count) then Outcome(BadRequest(TooManyAttempts), [])
      else
        var failed := Response(400, ErrorJson(InvalidCredentials), [LoginCookie(Bump(count))]);
        match store.getUser(req.email)
        case None => Outcome(failed, [GetUser(req.email)])
        case Some(user) =>
          var candidate := Text(req.password) + user.salt;
          var checked := [GetUser(req.email), Compare(candidate, user.passwordHash)];
          if crypto.compare(candidate, user.passwordHash) then
            var claims := Claims(user.id, req.email);
            var token := crypto.sign(claims, LoginTokenLifetime);
            var body := UserJson(user.id, Some(user.first), Some(user.last), Some(user.email), token);
            var effects := checked + [Sign(claims, LoginTokenLifetime)];
            assert effects[2] == Sign(claims, LoginTokenLifetime);
            Outcome(Response(200, body, [TokenCookie(token)]), effects)
          else Outcome(failed, checked)
  }

  /** The gate refuses whatever the credentials and whatever the store and bcrypt would answer. */
  lemma ThrottleIgnoresCredentials(req1: LoginRequest, req2: LoginRequest, cookieHeader: Option<string>,
                                   store1: Store, store2: Store, crypto1: Crypto, crypto2: Crypto)
    requires LoginComplete(req1) && LoginComplete(req2) && Throttled(AttemptsIn(cookieHeader))
    ensures HandleLogin(req1, cookieHeader, store1, crypto1) == HandleLogin(req2, cookieHeader, store2, crypto2)
  {
  }

  // --------------------------------------------------------- change password

  datatype ChangeRequest = ChangeRequest(current: Field, change: Field, confirm: Field)

  predicate ChangeComplete(req: ChangeRequest)
  {
    Truthy(req.current) && Truthy(req.change) && Truthy(req.confirm)
  }

  /** Unless the store finds the caller and bcrypt rejects the current password, the check passes. */
  predicate CurrentPasswordPasses(req: ChangeRequest, caller: Claims, store: Store, crypto: Crypto)
  {
    var user := store.getUser(caller.email);
    user.None? || crypto.compare(Text(req.current) + user.value.salt, user.value.passwordHash)
  }

  /**
   `POST /api/user/changepassword` for a caller the auth middleware has
   already admitted with the token claims `caller`.
   */
  function HandleChangePassword(req: ChangeRequest, caller: Claims, store: Store, crypto: Crypto): (out: Outcome)
    ensures !ChangeComplete(req) ==> out == Outcome(BadRequest(AllInputRequired), [])
    ensures ChangeComplete(req) && req.change != req.confirm ==> out == Outcome(BadRequest(PasswordsDoNotMatch), [])
    ensures out.response.status == 200 <==>
      ChangeComplete(req) && req.change == req.confirm && CurrentPasswordPasses(req, caller, store, crypto)
    ensures ChangesPassword(out.effects) <==> out.response.status == 200
    ensures DrawSalt in out.effects <==> out.response.status == 200
    ensures out.response.status == 200 ==>
      var hash := crypto.hash(Text(req.change) + crypto.salt, HashRounds);
      && ChangePassword(hash, crypto.salt, caller.userId) in out.effects
      && out.response == Response(200, StoreJson(store.changePassword(hash, crypto.salt, caller.userId)), [])
    ensures ChangeComplete(req) && req.change == req.confirm && !CurrentPasswordPasses(req, caller, store, crypto) ==>
      out.response == Response(400, PlainText(IncorrectPassword), [])
    ensures out.effects != [] ==> out.effects[0] == GetUser(caller.email)
    ensures forall e :: e in out.effects ==> !e.CreateUser? && !e.Sign?
    ensures out.response.cookies == []
  {
    if !ChangeComplete(req) then Outcome(BadRequest(AllInputRequired), [])
    else if req.change != req.confirm then Outcome(BadRequest(PasswordsDoNotMatch), [])
    else
      var user := store.getUser(caller.email);
      var checked := if user.None? then [GetUser(caller.email)]
                     else [GetUser(caller.email), Compare(Text(req.current) + user.value.salt, user.value.passwordHash)];
      if !CurrentPasswordPasses(req, caller, store, crypto) then
        Outcome(Response(400, PlainText(IncorrectPassword), []), checked)
      else
        var input := Text(req.change) + crypto.salt;
        var hash := crypto.hash(input, HashRounds);
        var effects := checked + [DrawSalt, Hash(input, HashRounds), ChangePassword(hash, crypto.salt, caller.userId)];
        assert effects[|checked|] == DrawSalt;
        assert effects[|effects| - 1] == ChangePassword(hash, crypto.salt, caller.userId);
        Outcome(Response(200, StoreJson(store.changePassword(hash, crypto.salt, caller.userId)), []), effects)
  }

  /** A caller the store does not find skips the current-password check and reaches `changePassword`. */
  lemma UnknownCallerStillChangesPassword(req: ChangeRequest, caller: Claims, store: Store, crypto: Crypto)
    requires ChangeComplete(req) && req.change == req.confirm && store.getUser(caller.email).None?
    ensures HandleChangePassword(req, caller, store, crypto).response.status == 200
    ensures HandleChangePassword(req, caller, store, crypto).effects[0] == GetUser(caller.email)
    ensures ChangesPassword(HandleChangePassword(req, caller, store, crypto).effects)
  {
  }
}
