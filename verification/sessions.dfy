/**
 Properties that span several requests. A browser keeps the `login` cookie
 the login handler writes and sends it back on the next attempt; a store
 backed by a map from email to user record answers `getUser` and applies
 the `createUser` and `changePassword` calls a request makes.
 */
module Sessions {
  import opened Wrappers
  import opened Strings
  import opened LoginCounter
  import opened Api
  import opened Routes

  // ------------------------------------------------------------ cookie jar

  /** The `Cookie` header a browser sends while it holds the `login` cookie `jar` (and no other cookie). */
  function CookieHeader(jar: Option<Count>): Option<string>
  {
    if jar.None? then None else Some(LoginKey + Render(jar.value))
  }

  /** The browser keeps the last `login` cookie a response sets, and otherwise what it had. */
  function Remember(jar: Option<Count>, cookies: seq<SetCookie>): Option<Count>
  {
    if |cookies| == 0 then jar
    else
      var c := cookies[|cookies| - 1];
      if c.LoginCookie? then Some(c.count) else Remember(jar, cookies[..|cookies| - 1])
  }

  /** One login attempt: the request body and what the store and bcrypt answer to it. */
  datatype Attempt = Attempt(req: LoginRequest, store: Store, crypto: Crypto)

  /** The `login` cookie the browser holds after one more attempt. */
  function Step(jar: Option<Count>, a: Attempt): Option<Count>
  {
    Remember(jar, HandleLogin(a.req, CookieHeader(jar), a.store, a.crypto).response.cookies)
  }

  /** The `login` cookie the browser holds after the attempts, in order. */
  function Replay(jar: Option<Count>, attempts: seq<Attempt>): Option<Count>
  {
    if |attempts| == 0 then jar
    else Step(Replay(jar, attempts[..|attempts| - 1]), attempts[|attempts| - 1])
  }

  /** An attempt with both fields given whose credentials the store and bcrypt reject. */
  predicate FailsCredentials(a: Attempt)
  {
    LoginComplete(a.req) && !Accepted(a.req, a.store, a.crypto)
  }

  /** The counter a browser's cookie stands for; no cookie reads as 0. */
  lemma JarRoundTrip(jar: Option<Count>)
    ensures AttemptsIn(CookieHeader(jar)) == (if jar.None? then Attempts(0) else jar.value)
  {
    if jar.Some? {
      RenderRoundTrip(jar.value);
    }
  }

  /**
   One attempt never lowers the counter: a failed one below the limit adds
   one, every other attempt (success, throttled, missing input) leaves the
   cookie as it was.
   */
  lemma StepNeverLowers(jar: Option<Count>, a: Attempt)
    ensures var n := if jar.Some? && jar.value.Attempts? then jar.value.n else 0;
      jar.None? || jar.value.Attempts? ==>
        || Step(jar, a) == jar
        || Step(jar, a) == Some(Attempts(n + 1))
    ensures FailsCredentials(a) && !Throttled(AttemptsIn(CookieHeader(jar))) ==>
      Step(jar, a) == Some(Bump(AttemptsIn(CookieHeader(jar))))
    ensures HandleLogin(a.req, CookieHeader(jar), a.store, a.crypto).response.status == 200 ==> Step(jar, a) == jar
    ensures !LoginComplete(a.req) || Throttled(AttemptsIn(CookieHeader(jar))) ==> Step(jar, a) == jar
  {
    JarRoundTrip(jar);
    var header := CookieHeader(jar);
    var count := AttemptsIn(header);
    var out := HandleLogin(a.req, header, a.store, a.crypto);
    if out.response.status == 200 {
      assert out.response.cookies[..0] == [];
      assert Step(jar, a) == Remember(jar, []);
    } else if LoginComplete(a.req) && !Throttled(count) {
      assert out.response.cookies == [LoginCookie(Bump(count))];
      assert Step(jar, a) == Some(Bump(count));
    } else {
      assert out.response.cookies == [];
    }
  }

  /** Starting without a cookie, k failed attempts (k at most five) leave the counter at k. */
  lemma {:induction false} FailuresCount(attempts: seq<Attempt>)
    requires |attempts| <= MaxLoginAttempts
    requires forall i :: 0 <= i < |attempts| ==> FailsCredentials(attempts[i])
    ensures Replay(None, attempts) == if |attempts| == 0 then None else Some(Attempts(|attempts|))
  {
    if |attempts| > 0 {
      var init := attempts[..|attempts| - 1];
      assert forall i :: 0 <= i < |init| ==> init[i] == attempts[i];
      FailuresCount(init);
      var prev := Replay(None, init);
      JarRoundTrip(prev);
      StepNeverLowers(prev, attempts[|attempts| - 1]);
    }
  }

  /**
   After five failed attempts from a browser that started without the
   cookie, the sixth is refused by the gate, whatever its credentials and
   whatever the store and bcrypt would answer; the cookie stays at five.
   */
  lemma SixthAttemptThrottled(attempts: seq<Attempt>, sixth: Attempt)
    requires |attempts| == MaxLoginAttempts
    requires forall i :: 0 <= i < |attempts| ==> FailsCredentials(attempts[i])
    requires LoginComplete(sixth.req)
    ensures Replay(None, attempts) == Some(Attempts(MaxLoginAttempts))
    ensures HandleLogin(sixth.req, CookieHeader(Replay(None, attempts)), sixth.store, sixth.crypto)
            == Outcome(BadRequest(TooManyAttempts), [])
    ensures Replay(None, attempts + [sixth]) == Some(Attempts(MaxLoginAttempts))
  {
    FailuresCount(attempts);
    JarRoundTrip(Replay(None, attempts));
    assert (attempts + [sixth])[..|attempts|] == attempts;
  }

  /**
   A `login` cookie whose value is not a digit string reads as NaN: the gate
   never fires, and every failure writes NaN back, so the throttle is off
   for good.
   */
  lemma {:induction false} NonNumericCookieDisablesThrottle(attempts: seq<Attempt>)
    ensures Replay(Some(NaN), attempts) == Some(NaN)
    ensures !Throttled(AttemptsIn(CookieHeader(Replay(Some(NaN), attempts))))
  {
    JarRoundTrip(Some(NaN));
    if |attempts| > 0 {
      NonNumericCookieDisablesThrottle(attempts[..|attempts| - 1]);
      StepNeverLowers(Some(NaN), attempts[|attempts| - 1]);
    }
  }

  /** A hand-set `login=abc` is such a value. */
  lemma HandSetCookieIsNaN()
    ensures AttemptsIn(Some("login=abc")) == NaN
  {
    LoginHeaderScan("abc");
    assert LoginKey + "abc" == "login=abc";
    assert !IsDigit("abc"[0]);
  }

  // ----------------------------------------------------------- map store

  /** The user store as a map from email to user record. */
  type Db = map<string, User>

  /** `getUser` looks the email up; `createUser` answers with the next id; `changePassword` replies `reply`. */
  function DbStore(db: Db, reply: string): Store
  {
    Store((e: Field) => if e.Some? && e.value in db then Some(db[e.value]) else None,
          (row: NewUser) => |db|,
          (h: string, s: string, id: UserId) => reply)
  }

  /** What a call does to the map: `createUser` inserts the row under its email with the next id, `changePassword` rewrites hash and salt of the users with that id. */
  function Apply(db: Db, e: Effect): Db
  {
    match e
    case CreateUser(row) =>
      if row.email.Some?
      then db[row.email.value := User(|db|, Text(row.first), Text(row.last), row.email.value, row.passwordHash, row.salt)]
      else db
    case ChangePassword(h, s, id) =>
      map k | k in db :: if db[k].id == id then db[k].(passwordHash := h, salt := s) else db[k]
    case _ => db
  }

  /** The map after all the calls of one request. */
  function Commit(db: Db, effects: seq<Effect>): Db
    decreases |effects|
  {
    if |effects| == 0 then db else Commit(Apply(db, effects[0]), effects[1..])
  }

  /** bcrypt accepts a text against its own hash. */
  ghost predicate HonestCrypto(crypto: Crypto)
  {
    forall x: string, rounds: nat :: crypto.compare(x, crypto.hash(x, rounds))
  }

  /** Calls that do not write the store leave the map as it is. */
  lemma {:induction false} CommitReadsOnly(db: Db, effects: seq<Effect>)
    requires forall e :: e in effects ==> !WritesStore(e)
    ensures Commit(db, effects) == db
    decreases |effects|
  {
    if |effects| > 0 {
      assert effects[0] in effects;
      assert forall e :: e in effects[1..] ==> e in effects;
      CommitReadsOnly(db, effects[1..]);
    }
  }

  /** Applying the calls of a request one after the other. */
  lemma {:induction false} CommitConcat(db: Db, first: seq<Effect>, rest: seq<Effect>)
    ensures Commit(db, first + rest) == Commit(Commit(db, first), rest)
    decreases |first|
  {
    if |first| > 0 {
      assert (first + rest)[1..] == first[1..] + rest;
      CommitConcat(Apply(db, first[0]), first[1..], rest);
    } else {
      assert first + rest == rest;
    }
  }

  /** A request whose only store write is `w` leaves the map as `w` alone does. */
  lemma OneWrite(db: Db, before: seq<Effect>, w: Effect, after: seq<Effect>)
    requires forall e :: e in before ==> !WritesStore(e)
    requires forall e :: e in after ==> !WritesStore(e)
    ensures Commit(db, before + [w] + after) == Apply(db, w)
  {
    CommitConcat(db, before + [w], after);
    CommitConcat(db, before, [w]);
    CommitReadsOnly(db, before);
    assert Commit(db, [w]) == Commit(Apply(db, w), []);
    CommitReadsOnly(Apply(db, w), after);
  }

  /** The map after registering `req` with an email it does not know. */
  lemma RegisteredRow(db: Db, reply: string, req: RegisterRequest, crypto: Crypto)
    requires RegisterComplete(req) && req.email.value !in db
    ensures var db' := Commit(db, RegisterEarlyExit(req, DbStore(db, reply), crypto).effects);
      && req.email.value in db'
      && db'[req.email.value] == User(|db|, req.first.value, req.last.value, req.email.value,
                                      crypto.hash(req.password.value + crypto.salt, HashRounds), crypto.salt)
  {
    var out := RegisterEarlyExit(req, DbStore(db, reply), crypto);
    var row := NewRow(req, crypto);
    var claims := Claims(|db|, req.email);
    var before := [GetUser(req.email), DrawSalt, Hash(Text(req.password) + crypto.salt, HashRounds)];
    var after := [Sign(claims, RegisterTokenLifetime)];
    assert out.effects == before + [CreateUser(row)] + after;
    OneWrite(db, before, CreateUser(row), after);
  }

  /** A user who has just registered can log in with the same email and password. */
  lemma RegisterThenLogin(db: Db, reply: string, req: RegisterRequest, crypto: Crypto, cookieHeader: Option<string>)
    requires RegisterComplete(req) && req.email.value !in db
    requires HonestCrypto(crypto)
    requires !Throttled(AttemptsIn(cookieHeader))
    ensures var db' := Commit(db, RegisterEarlyExit(req, DbStore(db, reply), crypto).effects);
      HandleLogin(LoginRequest(req.email, req.password), cookieHeader, DbStore(db', reply), crypto).response.status == 200
  {
    RegisteredRow(db, reply, req, crypto);
  }

  /** A second registration with an email just registered gets 409 and inserts nothing, even as written. */
  lemma RegisterTwiceConflicts(db: Db, reply: string, req1: RegisterRequest, req2: RegisterRequest,
                               crypto1: Crypto, crypto2: Crypto)
    requires RegisterComplete(req1) && req1.email.value !in db
    requires req2.email == req1.email
    ensures var db' := Commit(db, RegisterEarlyExit(req1, DbStore(db, reply), crypto1).effects);
      var out := HandleRegister(req2, DbStore(db', reply), crypto2);
      && !CreatesUser(out.effects)
      && (RegisterComplete(req2) ==> out.response.status == 409)
  {
    RegisteredRow(db, reply, req1, crypto1);
  }

  /** The map after a successful password change by a caller whose record carries the caller's id. */
  lemma ChangedRow(db: Db, reply: string, req: ChangeRequest, caller: Claims, crypto: Crypto)
    requires caller.email.Some? && caller.email.value in db && db[caller.email.value].id == caller.userId
    requires HandleChangePassword(req, caller, DbStore(db, reply), crypto).response.status == 200
    ensures var db' := Commit(db, HandleChangePassword(req, caller, DbStore(db, reply), crypto).effects);
      && caller.email.value in db'
      && db'[caller.email.value].passwordHash == crypto.hash(req.change.value + crypto.salt, HashRounds)
      && db'[caller.email.value].salt == crypto.salt
  {
    var store := DbStore(db, reply);
    var user := db[caller.email.value];
    var input := Text(req.change) + crypto.salt;
    var hash := crypto.hash(input, HashRounds);
    var e := HandleChangePassword(req, caller, store, crypto).effects;
    var checked := [GetUser(caller.email), Compare(Text(req.current) + user.salt, user.passwordHash)];
    var write := ChangePassword(hash, crypto.salt, caller.userId);
    assert e == checked + [DrawSalt, Hash(input, HashRounds)] + [write] + [];
    OneWrite(db, checked + [DrawSalt, Hash(input, HashRounds)], write, []);
  }

  /** After a successful password change the caller can log in with the new password. */
  lemma ChangeThenLogin(db: Db, reply: string, req: ChangeRequest, caller: Claims, crypto: Crypto,
                        cookieHeader: Option<string>)
    requires Truthy(caller.email) && caller.email.value in db && db[caller.email.value].id == caller.userId
    requires HandleChangePassword(req, caller, DbStore(db, reply), crypto).response.status == 200
    requires HonestCrypto(crypto)
    requires !Throttled(AttemptsIn(cookieHeader))
    ensures var db' := Commit(db, HandleChangePassword(req, caller, DbStore(db, reply), crypto).effects);
      HandleLogin(LoginRequest(caller.email, req.change), cookieHeader, DbStore(db', reply), crypto).response.status == 200
  {
    ChangedRow(db, reply, req, caller, crypto);
  }
}
