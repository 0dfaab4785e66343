/** The decision logic of the user routes: signup, login and get-by-id over
    an in-memory user store. Password hashing and comparison are parameters
    (`hash`, `matches`), a signed token is its claims record, and an
    exception raised by the store or a library is a `Fault` input naming the
    step that throws. */
module UserRoutes {
  import opened JsValues

  type UserId = nat

  /** A stored user; `password` is whatever the user model stores for the
      raw password (its hash). */
  datatype User = User(id: UserId, username: string, email: string, password: string)

  /** A user as the get-by-id route returns it: the record without its
      password. */
  datatype PublicUser = PublicUser(id: UserId, username: string, email: string)

  /** The claims of a signed token and its lifetime in seconds. */
  datatype Claims = Claims(id: UserId, username: string, role: string)
  datatype Token = Token(claims: Claims, expiresInSeconds: nat)

  const UserRole := "user"
  const TokenLifetime: nat := 3600

  datatype Body =
    | Message(message: string)
    | Session(token: Token, userId: UserId, username: string, email: string)
    | Profile(user: PublicUser)

  datatype Response = Response(status: nat, body: Body)

  /** The steps of the handlers that can throw: the store's lookup and
      save, the password comparison and the token signing. */
  datatype Step = Lookup | Save | Compare | Sign

  /** Whether, and at which step, the store or a library throws, and with
      what message. A step the handler never reaches throws nothing. */
  datatype Fault = NoFault | Throws(step: Step, message: string)

  predicate ThrowsAt(fault: Fault, step: Step)
  {
    fault.Throws? && fault.step == step
  }

  const DuplicateMessage := "Username or email already exists"
  const InvalidCredentials := Response(400, Message("Invalid credentials"))
  const UserNotFound := Response(404, Message("User not found"))

  /** The catch block of every handler: status 500 with the error's message. */
  function Failure(fault: Fault): Response
    requires fault.Throws?
  {
    Response(500, Message(fault.message))
  }

  /** `jwt.sign({id, username, role: 'user'}, secret, {expiresIn: '1h'})`. */
  function IssueToken(u: User): (t: Token)
    ensures t.claims.id == u.id && t.claims.username == u.username
    ensures t.claims.role == "user" && t.expiresInSeconds == 60 * 60
  {
    Token(Claims(u.id, u.username, UserRole), TokenLifetime)
  }

  /** The body the signup and login routes send on success. */
  function SessionFor(u: User): Body
  {
    Session(IssueToken(u), u.id, u.username, u.email)
  }

  predicate UsernamesUnique(users: seq<User>)
  {
    forall i, j :: 0 <= i < j < |users| ==> users[i].username != users[j].username
  }

  predicate EmailsUnique(users: seq<User>)
  {
    forall i, j :: 0 <= i < j < |users| ==> users[i].email != users[j].email
  }

  predicate IdsUnique(users: seq<User>)
  {
    forall i, j :: 0 <= i < j < |users| ==> users[i].id != users[j].id
  }

  /** The signup lookup `findOne({$or: [{username}, {email}]})` finds a user. */
  predicate Taken(users: seq<User>, username: string, email: string)
  {
    exists u :: u in users && (u.username == username || u.email == email)
  }

  /** `findOne({email})`: the first stored user with that email. */
  function FindByEmail(users: seq<User>, email: string): (r: Option<User>)
    ensures r.None? <==> forall u :: u in users ==> u.email != email
    ensures r.Some? ==> r.value in users && r.value.email == email
    ensures EmailsUnique(users) ==> forall u :: u in users && u.email == email ==> r == Some(u)
  {
    if users == [] then None
    else if users[0].email == email then Some(users[0])
    else FindByEmail(users[1..], email)
  }

  /** `findById(id)`: the stored user with that id. */
  function FindById(users: seq<User>, id: UserId): (r: Option<User>)
    ensures r.None? <==> forall u :: u in users ==> u.id != id
    ensures r.Some? ==> r.value in users && r.value.id == id
    ensures IdsUnique(users) ==> forall u :: u in users && u.id == id ==> r == Some(u)
  {
    if users == [] then None
    else if users[0].id == id then Some(users[0])
    else FindById(users[1..], id)
  }

  /** The login route. It reads the store and never changes it. An unknown
      email and a wrong password give the same response; on success the
      response carries a token for the user found, with claims
      `{id, username, role: 'user'}` and a one-hour lifetime. */
  function Login(users: seq<User>, email: string, password: string,
                 matches: (string, string) -> bool, fault: Fault): (r: Response)
    ensures r.status == 200 || r.status == 400 || r.status == 500
    ensures r.status == 400 ==> r == InvalidCredentials
    ensures r.status == 500 ==> fault.Throws? && r == Response(500, Message(fault.message))
    ensures r.status == 200 ==>
              exists u :: u in users && u.email == email && matches(password, u.password)
                && r.body == Session(Token(Claims(u.id, u.username, "user"), 3600), u.id, u.username, u.email)
    ensures ThrowsAt(fault, Lookup) ==> r.status == 500
    ensures !ThrowsAt(fault, Lookup) && (forall u :: u in users ==> u.email != email) ==>
              r == InvalidCredentials
  {
    if ThrowsAt(fault, Lookup) then Failure(fault)
    else match FindByEmail(users, email)
      case None => InvalidCredentials
      case Some(user) =>
        if ThrowsAt(fault, Compare) then Failure(fault)
        else if !matches(password, user.password) then InvalidCredentials
        else if ThrowsAt(fault, Sign) then Failure(fault)
        else Response(200, SessionFor(user))
  }

  /** The get-by-id route behind the authentication middleware: 404 when no
      user has the id, otherwise the user without the password. */
  function GetById(users: seq<User>, id: UserId, fault: Fault): (r: Response)
    ensures ThrowsAt(fault, Lookup) ==> r == Response(500, Message(fault.message))
    ensures !ThrowsAt(fault, Lookup) ==>
              (r == UserNotFound <==> forall u :: u in users ==> u.id != id)
    ensures r.status == 200 ==>
              exists u :: u in users && u.id == id
                && r.body == Profile(PublicUser(u.id, u.username, u.email))
    ensures !ThrowsAt(fault, Lookup) && IdsUnique(users) ==>
              forall u :: u in users && u.id == id ==>
                r == Response(200, Profile(PublicUser(u.id, u.username, u.email)))
    ensures r.status == 200 || r.status == 404 || r.status == 500
  {
    if ThrowsAt(fault, Lookup) then Failure(fault)
    else match FindById(users, id)
      case None => UserNotFound
      case Some(user) => Response(200, Profile(PublicUser(user.id, user.username, user.email)))
  }

  /** Appending a user whose username and email are not taken keeps
      usernames and emails unique. */
  lemma SignupKeepsIdentitiesUnique(users: seq<User>, u: User)
    requires UsernamesUnique(users) && EmailsUnique(users)
    requires !Taken(users, u.username, u.email)
    ensures UsernamesUnique(users + [u]) && EmailsUnique(users + [u])
  {
    var all := users + [u];
    forall i, j | 0 <= i < j < |all|
      ensures all[i].username != all[j].username && all[i].email != all[j].email
    {
      if j == |users| {
        assert all[i] in users;
      }
    }
  }

  /** Once a user is appended, a later signup repeating its username or its
      email finds it in the lookup, and so is refused. */
  lemma RepeatIsTaken(users: seq<User>, u: User, username: string, email: string)
    requires username == u.username || email == u.email
    ensures Taken(users + [u], username, email)
  {
    assert (users + [u])[|users|] == u;
  }

  /** Login with an unknown email and login with a known email but a wrong
      password produce the identical response. */
  lemma LoginFailuresIndistinguishable(
    store1: seq<User>, email1: string, password1: string,
    store2: seq<User>, email2: string, password2: string,
    matches: (string, string) -> bool)
    requires forall u :: u in store1 ==> u.email != email1
    requires EmailsUnique(store2)
    requires exists u :: u in store2 && u.email == email2 && !matches(password2, u.password)
    ensures Login(store1, email1, password1, matches, NoFault)
         == Login(store2, email2, password2, matches, NoFault)
         == Response(400, Message("Invalid credentials"))
  {
    var u :| u in store2 && u.email == email2 && !matches(password2, u.password);
    assert FindByEmail(store2, email2) == Some(u);
  }

  /** With unique emails, login succeeds for exactly the stored user whose
      password matches. */
  lemma LoginSucceedsForMatchingUser(users: seq<User>, u: User, password: string,
                                     matches: (string, string) -> bool)
    requires EmailsUnique(users) && u in users && matches(password, u.password)
    ensures Login(users, u.email, password, matches, NoFault) == Response(200, SessionFor(u))
  {
    assert FindByEmail(users, u.email) == Some(u);
  }

  /** The user store of the signup route. Stored ids come from a counter
      standing for the store's id generator. */
  class UserStore {
    var users: seq<User>
    var nextId: UserId

    /** Usernames, emails and ids are unique, and every id was issued. */
    ghost predicate Valid()
      reads this
    {
      UsernamesUnique(users) && EmailsUnique(users) && IdsUnique(users)
      && forall i :: 0 <= i < |users| ==> users[i].id < nextId
    }

    constructor ()
      ensures Valid() && users == []
    {
      users := [];
      nextId := 0;
    }

    /** The signup route. A taken username or email is refused with 400 and
        the store is unchanged; otherwise exactly one user is appended and
        201 is sent with a token for it. A throwing lookup or save leaves the
        store unchanged; a throwing token signer leaves the new user stored
        but answers 500. */
    method Signup(username: string, email: string, password: string,
                  hash: string -> string, fault: Fault) returns (r: Response)
      requires Valid()
      modifies this
      ensures Valid()
      ensures ThrowsAt(fault, Lookup) ==>
                users == old(users) && r == Response(500, Message(fault.message))
      ensures !ThrowsAt(fault, Lookup) && Taken(old(users), username, email) ==>
                users == old(users) && r == Response(400, Message(DuplicateMessage))
      ensures !ThrowsAt(fault, Lookup) && !Taken(old(users), username, email) && ThrowsAt(fault, Save) ==>
                users == old(users) && r == Response(500, Message(fault.message))
      ensures !ThrowsAt(fault, Lookup) && !Taken(old(users), username, email) && !ThrowsAt(fault, Save) ==>
                users == old(users) + [User(old(nextId), username, email, hash(password))]
                && r == (if ThrowsAt(fault, Sign) then Response(500, Message(fault.message))
                         else Response(201, SessionFor(User(old(nextId), username, email, hash(password)))))
    {
      if ThrowsAt(fault, Lookup) {
        return Failure(fault);
      }
      if Taken(users, username, email) {
        return Response(400, Message(DuplicateMessage));
      }
      var user := User(nextId, username, email, hash(password));
      if ThrowsAt(fault, Save) {
        return Failure(fault);
      }
      SignupKeepsIdentitiesUnique(users, user);
      users := users + [user];
      nextId := nextId + 1;
      if ThrowsAt(fault, Sign) {
        return Failure(fault);
      }
      r := Response(201, SessionFor(user));
    }
  }

  /** The end-to-end scenario: sign up, log in with the same password, log
      in with a wrong one, sign up again with the same username. */
  method SignupLoginScenario(store: UserStore, hash: string -> string,
                             matches: (string, string) -> bool)
    returns (signup: Response, login: Response, wrong: Response, again: Response)
    requires store.Valid() && store.users == []
    requires matches("p1", hash("p1")) && !matches("wrong", hash("p1"))
    modifies store
    ensures signup.status == 201 && signup.body.Session?
    ensures login.status == 200 && login.body.Session? && login.body.userId == signup.body.userId
    ensures wrong == Response(400, Message("Invalid credentials"))
    ensures again.status == 400 && |store.users| == 1
  {
    signup := store.Signup("a", "a@x.com", "p1", hash, NoFault);
    LoginSucceedsForMatchingUser(store.users, store.users[0], "p1", matches);
    login := Login(store.users, "a@x.com", "p1", matches, NoFault);
    LoginFailuresIndistinguishable([], "a@x.com", "wrong", store.users, "a@x.com", "wrong", matches);
    wrong := Login(store.users, "a@x.com", "wrong", matches, NoFault);
    assert store.users[0] in store.users;
    again := store.Signup("a", "b@x.com", "p2", hash, NoFault);
  }
}
