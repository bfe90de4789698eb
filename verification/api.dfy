/**
 What the route handlers of `server.js` see and produce: request bodies,
 user records and token claims, the collaborators they call (the user store,
 bcrypt, the random salt and the token signer) as oracles, and a response
 together with the list of collaborator calls the request made.
 */
module Api {
  import opened Wrappers
  import opened LoginCounter

  /** One field of a JSON request body: `None` when it is absent (`undefined`). */
  type Field = Option<string>

  /** JavaScript truthiness of a field: present and not the empty string. */
  predicate Truthy(f: Field)
  {
    f.Some? && f.value != ""
  }

  /** The field as JavaScript's `+` turns it into text: an absent field reads `"undefined"`. */
  function Text(f: Field): string
  {
    if f.Some? then f.value else "undefined"
  }

  /** The id the store gives a user. */
  type UserId = int

  /** A user record as the store returns it. */
  datatype User = User(id: UserId, first: string, last: string, email: string, passwordHash: string, salt: string)

  /** The claims put into a session token, and attached to a request by the auth middleware. */
  datatype Claims = Claims(userId: UserId, email: Field)

  /** The row `createUser` is asked to insert. */
  datatype NewUser = NewUser(first: Field, last: Field, email: Field, passwordHash: string, salt: string)

  /** The user store (`con`): its answers, as functions of the arguments it is called with. */
  datatype Store = Store(
    getUser: Field -> Option<User>,
    createUser: NewUser -> UserId,
    changePassword: (string, string, UserId) -> string)

  /**
   The cryptographic collaborators: the hex salt `crypto.randomBytes` gives
   this request, `bcrypt.hash` and `bcrypt.compare`, and `jwt.sign` with
   the process-wide signing key already applied.
   */
  datatype Crypto = Crypto(
    salt: string,
    hash: (string, nat) -> string,
    compare: (string, string) -> bool,
    sign: (Claims, string) -> string)

  /** The bcrypt work factor used for every password hash. */
  const HashRounds: nat := 10
  /** Token lifetime (`expiresIn`) at registration. */
  const RegisterTokenLifetime := "2h"
  /** Token lifetime (`expiresIn`) at login. */
  const LoginTokenLifetime := "15m"

  const AllInputRequired := "All input is required"
  const UserAlreadyExists := "User Already Exist. Please Login"
  const TooManyAttempts := "Too many login attempts. Please try again later."
  const InvalidCredentials := "Invalid Credentials"
  const PasswordsDoNotMatch := "Passwords do not match"
  const IncorrectPassword := "Incorrect Password"

  /** One call a request makes to a collaborator, with its arguments; `DrawSalt` is `crypto.randomBytes(32)`, whose answer is `Crypto.salt`. */
  datatype Effect =
    | GetUser(email: Field)
    | DrawSalt
    | Compare(candidate: string, storedHash: string)
    | Hash(input: string, rounds: nat)
    | CreateUser(row: NewUser)
    | Sign(claims: Claims, lifetime: string)
    | ChangePassword(passwordHash: string, salt: string, id: UserId)

  /** Does the call read or write the user store? */
  predicate TouchesStore(e: Effect)
  {
    e.GetUser? || e.CreateUser? || e.ChangePassword?
  }

  /** Does the call write the user store? */
  predicate WritesStore(e: Effect)
  {
    e.CreateUser? || e.ChangePassword?
  }

  /** A cookie the response sets. */
  datatype SetCookie = TokenCookie(token: string) | LoginCookie(count: Count)

  /** A response body: a JSON error, the JSON user record with its token, plain text, or the store's reply as JSON. */
  datatype Body =
    | ErrorJson(error: string)
    | UserJson(id: UserId, first: Field, last: Field, email: Field, token: string)
    | PlainText(text: string)
    | StoreJson(output: string)

  datatype Response = Response(status: nat, body: Body, cookies: seq<SetCookie>)

  /** The response the client receives, and every collaborator call the request made, in order. */
  datatype Outcome = Outcome(response: Response, effects: seq<Effect>)

  /** A 400 response with a JSON error and no cookie. */
  function BadRequest(error: string): Response
  {
    Response(400, ErrorJson(error), [])
  }
}
