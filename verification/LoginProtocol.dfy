/**
 The two-step login of the logic server against the data server: the session's current request,
 the two database queries, and who a token is issued to.
 */
module LoginProtocol {
  import opened Options

  const SYSTEM_USER: int := 1

  /** How much of a stored hash the data server returns. */
  const HASH_LIMIT: nat := 64

  datatype User = User(id: int, username: string, email: string, passwordHash: string)

  datatype Action = ValidateUser | CreateUser(user: User) | GetUserInfo | Ping | Other

  /** A parsed client message: its string fields if present, and the user of a valid token. */
  datatype ClientRequest = ClientRequest(
    action: Action, complete: bool, key: Option<string>, password: Option<string>, token: Option<int>)

  datatype AuthState = Initial | Validated

  /** current_request. */
  datatype Session = Session(action: Action, request: Option<ClientRequest>, authState: AuthState, key: Option<string>)

  datatype Query =
    ValidateQuery(key: Option<string>) | InfoQuery(key: Option<string>) | CreateQuery(user: User) | OtherQuery

  datatype Reply = Reply(code: int, passwordHash: Option<string>, userId: Option<int>)

  datatype Response = Nothing | Error(code: int) | Pong | Forwarded | Token(userId: int)

  const NO_SESSION := Session(ValidateUser, None, Initial, None)

  function Remember(s: Session, r: ClientRequest): Session {
    s.(action := r.action, request := Some(r))
  }

  // ----- the logic server, as functions of the session -----

  /** process_client_request: the new session, the query to forward, and a local response. */
  function Process(s: Session, r: ClientRequest): (Session, Option<Query>, Response) {
    if !r.complete then (s, None, Error(400))
    else match r.action
         case Ping => (s, None, Pong)
         case ValidateUser => (Remember(s, r), Some(ValidateQuery(r.key)), Nothing)
         case CreateUser(user) => (Remember(s, r), Some(CreateQuery(user)), Nothing)
         case GetUserInfo =>
           if r.token == None then (s, None, Error(401)) else (Remember(s, r), Some(InfoQuery(r.key)), Nothing)
         case Other =>
           if r.token == None then (s, None, Error(401)) else (Remember(s, r), Some(OtherQuery), Nothing)
  }

  /** handle_db_response: the new session, the second query, and the response to the client. */
  function Handle(s: Session, reply: Reply, connected: bool): (Session, Option<Query>, Response) {
    if s.request == None then (s, None, Error(500))
    else if s.action != ValidateUser then (s, None, Forwarded)
    else match s.authState
         case Initial =>
           if reply.code != 200 || reply.passwordHash == None || s.request.value.password == None
              || s.request.value.password != reply.passwordHash then (s, None, Error(401))
           else
             var t := if s.request.value.key.Some? then s.(key := s.request.value.key) else s;
             if !connected then (t, None, Error(503))
             else (t.(authState := Validated), Some(InfoQuery(t.key)), Nothing)
         case Validated =>
           if reply.code != 200 || reply.userId == None then (s, None, Error(401))
           else (NO_SESSION, None, Token(reply.userId.value))
  }

  // ----- the logic server's session object -----

  class LogicSession {
    var action: Action
    var request: Option<ClientRequest>
    var authState: AuthState
    var key: Option<string>

    function State(): Session
      reads this
    {
      Session(action, request, authState, key)
    }

    constructor ()
      ensures State() == NO_SESSION
    {
      action, request, authState, key := ValidateUser, None, Initial, None;
    }

    method ProcessClientRequest(r: ClientRequest) returns (query: Option<Query>, response: Response)
      modifies this`action, this`request
      ensures (State(), query, response) == Process(old(State()), r)
    {
      query, response := None, Nothing;
      if !r.complete {
        return None, Error(400);
      }
      if r.action.Ping? {
        return None, Pong;
      }
      if !r.action.ValidateUser? && !r.action.CreateUser? && r.token == None {
        return None, Error(401);
      }
      action := r.action;
      request := Some(r);
      match r.action {
        case ValidateUser => query := Some(ValidateQuery(r.key));
        case CreateUser(user) => query := Some(CreateQuery(user));
        case GetUserInfo => query := Some(InfoQuery(r.key));
        case _ => query := Some(OtherQuery);
      }
    }

    method HandleDbResponse(reply: Reply, connected: bool) returns (query: Option<Query>, response: Response)
      modifies this
      ensures (State(), query, response) == Handle(old(State()), reply, connected)
    {
      query, response := None, Nothing;
      if request == None {
        return None, Error(500);
      }
      if action != ValidateUser {
        return None, Forwarded;
      }
      var success := reply.code == 200;
      match authState {
        case Initial =>
          var password := request.value.password;
          if !success || reply.passwordHash == None || password == None {
            return None, Error(401);
          }
          if password.value != reply.passwordHash.value {
            return None, Error(401);
          }
          if request.value.key.Some? {
            key := request.value.key;
          }
          if !connected {
            return None, Error(503);
          }
          query := Some(InfoQuery(key));
          authState := Validated;
        case Validated =>
          if !success {
            return None, Error(401);
          }
          if reply.userId == None {
            return None, Error(401);
          }
          response := Token(reply.userId.value);
          key, request, action, authState := None, None, ValidateUser, Initial;
      }
    }
  }

  // ----- the data server's side -----

  predicate Matches(u: User, key: string) {
    u.username == key || u.email == key
  }

  function Returned(hash: string): (r: string)
    ensures r <= hash && |r| == if |hash| < 64 then |hash| else 64
  {
    if |hash| <= HASH_LIMIT then hash else hash[..HASH_LIMIT]
  }

  /** The first row of a select by key can be any row that matches. */
  ghost predicate IsFirstRow(users: set<User>, key: string, row: Option<User>) {
    match row
    case None => forall u :: u in users ==> !Matches(u, key)
    case Some(u) => u in users && Matches(u, key)
  }

  /** A failed statement and a missing row look the same to the logic server. */
  const REFUSED := Reply(400, None, None)

  ghost predicate IsReply(users: set<User>, q: Query, reply: Reply) {
    reply == REFUSED ||
    match q
    case ValidateQuery(None) => false
    case ValidateQuery(Some(key)) =>
      exists row :: IsFirstRow(users, key, row) && row.Some? && row.value.id != SYSTEM_USER
                    && reply == Reply(200, Some(Returned(row.value.passwordHash)), None)
    case InfoQuery(None) => reply.passwordHash == None && reply.userId == None
    case InfoQuery(Some(key)) =>
      exists row :: IsFirstRow(users, key, row) && row.Some? && reply == Reply(200, None, Some(row.value.id))
    case CreateQuery(_) => reply.passwordHash == None && reply.userId == None
    case OtherQuery => reply.passwordHash == None && reply.userId == None
  }

  /** An insert succeeds only with a username and an email that are still free. */
  function Stored(users: set<User>, q: Query): set<User> {
    match q
    case CreateQuery(user) =>
      if exists u :: u in users && (u.username == user.username || u.email == user.email || u.id == user.id)
      then users else users + {user}
    case _ => users
  }

  // ----- a client, a session and the database, with at most one query outstanding -----

  /** Why a token was issued: the login request, and the users at that moment. */
  datatype Grant = Grant(userId: int, request: ClientRequest, users: set<User>)

  /** `said` is the last response to the client. */
  datatype World = World(session: Session, users: set<User>, outstanding: Option<Query>, grants: seq<Grant>, said: Response)

  datatype Step = FromClient(request: ClientRequest) | FromDb(reply: Reply, connected: bool)

  ghost predicate Enabled(w: World, step: Step) {
    match step
    case FromClient(_) => w.outstanding == None
    case FromDb(reply, _) => w.outstanding.Some? && IsReply(w.users, w.outstanding.value, reply)
  }

  function Next(w: World, step: Step): World {
    match step
    case FromClient(r) =>
      var (s, q, response) := Process(w.session, r);
      w.(session := s, outstanding := q, said := response)
    case FromDb(reply, connected) =>
      var (s, q, response) := Handle(w.session, reply, connected);
      w.(session := s, outstanding := q, said := response,
         users := if w.outstanding.Some? then Stored(w.users, w.outstanding.value) else w.users,
         grants := if response.Token? && w.session.request.Some?
                   then w.grants + [Grant(response.userId, w.session.request.value, w.users)] else w.grants)
  }

  function Start(users: set<User>): World {
    World(NO_SESSION, users, None, [], Nothing)
  }

  ghost predicate Runs(w: World, steps: seq<Step>)
    decreases |steps|
  {
    steps == [] || (Enabled(w, steps[0]) && Runs(Next(w, steps[0]), steps[1..]))
  }

  function After(w: World, steps: seq<Step>): World
    decreases |steps|
  {
    if steps == [] then w else After(Next(w, steps[0]), steps[1..])
  }

  // ----- who may ask the database what -----

  /** A complete request that needs no token or has a valid one; a ping is answered at once. */
  predicate MayAsk(r: ClientRequest) {
    r.complete && !r.action.Ping? && (r.token.Some? || r.action.ValidateUser? || r.action.CreateUser?)
  }

  /** What the database is asked for it. */
  function QueryFor(r: ClientRequest): Query {
    match r.action
    case ValidateUser => ValidateQuery(r.key)
    case CreateUser(user) => CreateQuery(user)
    case GetUserInfo => InfoQuery(r.key)
    case _ => OtherQuery
  }

  /**
   A client's message leads to a query exactly if it may ask, and to the one for its action and key. All
   others are answered with 400, 401 or a pong, and leave everything else as it was.
   */
  lemma ClientStepExactly(w: World, r: ClientRequest)
    requires Enabled(w, FromClient(r))
    ensures var t := Next(w, FromClient(r));
            && (t.outstanding.Some? <==> MayAsk(r))
            && t.users == w.users && t.grants == w.grants
            && t.session.authState == w.session.authState && t.session.key == w.session.key
            && (MayAsk(r) ==>
                  t.outstanding.value == QueryFor(r) && t.said == Nothing
                  && t.session.action == r.action && t.session.request == Some(r))
            && (!MayAsk(r) ==> t == w.(said := t.said))
            && (t.said == Error(400) <==> !r.complete)
            && (t.said == Pong <==> r.complete && r.action.Ping?)
            && (t.said == Error(401) <==> r.complete && !r.action.Ping? && !MayAsk(r))
  {
  }

  /** The password of the request is the one the database returned. */
  predicate ProvenBy(r: ClientRequest, reply: Reply) {
    reply.code == 200 && reply.passwordHash.Some? && r.password == reply.passwordHash
  }

  /**
   A reply of the database leads to a second query exactly for a proven password, to a token exactly in
   the second step of a login, and is passed on exactly if the request is not a login.
   */
  lemma DbStepExactly(w: World, reply: Reply, connected: bool)
    requires w.session.request.Some? && w.session.request.value.action == w.session.action
    ensures var t := Next(w, FromDb(reply, connected));
            var r := w.session.request.value;
            var first := r.action.ValidateUser? && w.session.authState.Initial?;
            var second := r.action.ValidateUser? && w.session.authState.Validated?;
            && (t.outstanding.Some? <==> first && ProvenBy(r, reply) && connected)
            && (t.outstanding.Some? ==>
                  t.outstanding.value == InfoQuery(if r.key.Some? then r.key else w.session.key)
                  && t.session.authState.Validated? && t.session.request == Some(r))
            && (forall id :: t.said == Token(id) <==> second && reply.code == 200 && reply.userId == Some(id))
            && t.grants == (if t.said.Token? then w.grants + [Grant(t.said.userId, r, w.users)] else w.grants)
            && (t.said == Forwarded <==> !r.action.ValidateUser?)
            && (t.said == Error(503) <==> first && ProvenBy(r, reply) && !connected)
            && (t.said == Error(401) <==> (first && !ProvenBy(r, reply)) || (second && !t.said.Token?))
            && (t.session == NO_SESSION <==> t.said.Token?)
  {
  }

  /** A reply that nobody asked for is answered with 500 and changes no session. */
  lemma StrayReply(w: World, reply: Reply, connected: bool)
    requires w.session.request == None && w.outstanding == None
    ensures Next(w, FromDb(reply, connected)) == w.(said := Error(500))
  {
  }

  /** A query that is outstanding is the one for a request that may ask, or the second one of its login. */
  ghost predicate Authorised(w: World) {
    (w.session.request.Some? ==>
       MayAsk(w.session.request.value) && w.session.action == w.session.request.value.action)
    && (w.outstanding.Some? ==>
          w.session.request.Some?
          && var r := w.session.request.value;
             w.outstanding.value == QueryFor(r)
             || (r.action.ValidateUser? && w.session.authState.Validated? && w.outstanding.value == InfoQuery(w.session.key)))
  }

  /** In every run whatever is asked of the database was asked for by a client that may. */
  lemma QueriesAreAuthorised(users: set<User>, steps: seq<Step>)
    requires Runs(Start(users), steps)
    ensures Authorised(After(Start(users), steps))
  {
    AuthorisedRuns(Start(users), steps);
  }

  lemma {:induction false} AuthorisedRuns(w: World, steps: seq<Step>)
    requires Authorised(w) && Runs(w, steps)
    ensures Authorised(After(w, steps))
    decreases |steps|
  {
    hide Authorised, Next, Enabled;
    if steps != [] {
      AuthorisedStep(w, steps[0]);
      AuthorisedRuns(Next(w, steps[0]), steps[1..]);
    }
  }

  lemma AuthorisedStep(w: World, step: Step)
    requires Authorised(w) && Enabled(w, step)
    ensures Authorised(Next(w, step))
  {
    hide Process, Handle, Stored;
    match step
    case FromClient(r) => ClientStepExactly(w, r);
    case FromDb(reply, connected) => AuthorisedReply(w, reply, connected);
  }

  lemma AuthorisedReply(w: World, reply: Reply, connected: bool)
    requires Authorised(w) && Enabled(w, FromDb(reply, connected))
    ensures Authorised(Next(w, FromDb(reply, connected)))
  {
  }

  // ----- the users -----

  /** No two users share a name, an email or an id. */
  ghost predicate Distinct(users: set<User>) {
    forall u, v ::
      u in users && v in users && (u.username == v.username || u.email == v.email || u.id == v.id) ==> u == v
  }

  /** A user is added exactly for a query to create one whose name, email and id are free, and none goes. */
  lemma StoredExactly(w: World, reply: Reply, connected: bool, user: User)
    requires Enabled(w, FromDb(reply, connected))
    ensures var t := Next(w, FromDb(reply, connected));
            user in t.users <==>
            user in w.users
            || (w.outstanding == Some(CreateQuery(user))
                && forall u :: u in w.users ==> u.username != user.username && u.email != user.email && u.id != user.id)
    ensures Distinct(w.users) ==> Distinct(Next(w, FromDb(reply, connected)).users)
  {
    hide Handle;
  }

  // ----- soundness -----

  /** The password of the request is the one stored for some row of its key, not the system user's. */
  ghost predicate Proven(users: set<User>, r: ClientRequest) {
    r.key.Some? && exists u :: u in users && Matches(u, r.key.value) && u.id != SYSTEM_USER
                               && r.password == Some(Returned(u.passwordHash))
  }

  /** A token goes to a row of the key, after a password was proven for a row of the key. */
  ghost predicate Granted(g: Grant) {
    Proven(g.users, g.request)
    && exists u :: u in g.users && Matches(u, g.request.key.value) && u.id == g.userId
  }

  /** A login's second query is only outstanding with the proof of its first. */
  ghost predicate Coherent(w: World) {
    && (forall i :: 0 <= i < |w.grants| ==> Granted(w.grants[i]))
    && (w.outstanding.Some? ==> w.session.request.Some?)
    && (w.outstanding.Some? && w.session.action == ValidateUser ==>
          var r, q := w.session.request.value, w.outstanding.value;
          q == ValidateQuery(r.key)
          || (w.session.authState.Validated? && q == InfoQuery(r.key) && Proven(w.users, r)))
  }

  lemma NextIsCoherent(w: World, step: Step)
    requires Coherent(w) && Enabled(w, step)
    ensures Coherent(Next(w, step))
  {
  }

  lemma {:induction false} RunsAreCoherent(w: World, steps: seq<Step>)
    requires Coherent(w) && Runs(w, steps)
    ensures Coherent(After(w, steps))
    decreases |steps|
  {
    hide Coherent, Next, Enabled;
    if steps != [] {
      NextIsCoherent(w, steps[0]);
      RunsAreCoherent(Next(w, steps[0]), steps[1..]);
    }
  }

  /** The token is for a row of the key that is not the system user's and whose own password was given. */
  ghost predicate Faithful(g: Grant) {
    g.userId != SYSTEM_USER && g.request.key.Some? && g.request.password.Some?
    && HasPassword(g.users, g.request.key.value, g.userId, g.request.password.value)
  }

  /**
   Whichever rows of the key the two queries return: if the first can be used to log in, the second
   is not the system user's, and some row with its id returns the first one's password.
   */
  ghost predicate SafeKey(users: set<User>, key: string) {
    forall u, v :: u in users && v in users && Matches(u, key) && Matches(v, key) && u.id != SYSTEM_USER ==>
      v.id != SYSTEM_USER && HasPassword(users, key, v.id, Returned(u.passwordHash))
  }

  /** A row of the key with this id returns this password. */
  ghost predicate HasPassword(users: set<User>, key: string, id: int, password: string) {
    exists x :: x in users && Matches(x, key) && x.id == id && Returned(x.passwordHash) == password
  }

  /** The key identifies one row. */
  ghost predicate Unambiguous(users: set<User>, key: string) {
    forall u, v :: u in users && v in users && Matches(u, key) && Matches(v, key) ==> u == v
  }

  lemma UnambiguousIsSafe(users: set<User>, key: string)
    requires Unambiguous(users, key)
    ensures SafeKey(users, key)
  {
    hide Matches;
  }

  /**
   Login soundness, in every run with one outstanding query: a token is issued only for a row of the
   key, after a password was proven for a row of the key that is not the system user's; if the key is
   safe at that moment, the password is the token's own user's.
   */
  lemma LoginSoundness(users: set<User>, steps: seq<Step>, i: nat)
    requires Runs(Start(users), steps) && i < |After(Start(users), steps).grants|
    ensures var g := After(Start(users), steps).grants[i];
            && g.request.key.Some?
            && (exists u, v ::
              u in g.users && v in g.users && Matches(u, g.request.key.value) && Matches(v, g.request.key.value)
              && u.id != 1 && g.request.password == Some(Returned(u.passwordHash)) && v.id == g.userId)
            && (SafeKey(g.users, g.request.key.value) ==> Faithful(g))
  {
    assert Coherent(Start(users));
    RunsAreCoherent(Start(users), steps);
    assert Granted(After(Start(users), steps).grants[i]);
    GrantedIsFaithful(After(Start(users), steps).grants[i]);
  }

  lemma GrantedIsFaithful(g: Grant)
    requires Granted(g)
    ensures SafeKey(g.users, g.request.key.value) ==> Faithful(g)
  {
    hide HasPassword, Returned, Matches;
    var u :| u in g.users && Matches(u, g.request.key.value) && u.id != SYSTEM_USER
             && g.request.password == Some(Returned(u.passwordHash));
    var v :| v in g.users && Matches(v, g.request.key.value) && v.id == g.userId;
  }

  /** No run issues a token for the key, while the users are those of `w`, that is not faithful. */
  ghost predicate TokensAreFaithful(w: World, key: string) {
    forall steps, i ::
      Runs(w, steps) && |w.grants| <= i < |After(w, steps).grants|
      && After(w, steps).grants[i].request.key == Some(key) && After(w, steps).grants[i].users == w.users ==>
        Faithful(After(w, steps).grants[i])
  }

  /** The login of a client with the password of `u`, answered with the rows `u` and `v`. */
  function LoginSteps(key: string, u: User, v: User): seq<Step> {
    var r := ClientRequest(ValidateUser, true, Some(key), Some(Returned(u.passwordHash)), None);
    [FromClient(r), FromDb(Reply(200, Some(Returned(u.passwordHash)), None), true),
     FromDb(Reply(200, None, Some(v.id)), true)]
  }

  lemma LoginRuns(w: World, key: string, u: User, v: User)
    requires w.outstanding == None && w.session.authState.Initial?
    requires u in w.users && v in w.users && Matches(u, key) && Matches(v, key) && u.id != SYSTEM_USER
    ensures Runs(w, LoginSteps(key, u, v))
    ensures var r := ClientRequest(ValidateUser, true, Some(key), Some(Returned(u.passwordHash)), None);
            After(w, LoginSteps(key, u, v)).grants == w.grants + [Grant(v.id, r, w.users)]
  {
    var steps := LoginSteps(key, u, v);
    var w1 := Next(w, steps[0]);
    assert IsFirstRow(w.users, key, Some(u)) && Enabled(w1, steps[1]);
    var w2 := Next(w1, steps[1]);
    assert IsFirstRow(w.users, key, Some(v)) && Enabled(w2, steps[2]);
    var w3 := Next(w2, steps[2]);
    var after1, after2, after3 := steps[1..], steps[1..][1..], steps[1..][1..][1..];
    assert after1[0] == steps[1] && after2[0] == steps[2] && after3 == [];
    assert Runs(w3, after3) && Runs(w2, after2) && Runs(w1, after1) && Runs(w, steps);
    assert After(w, steps) == After(w1, after1) == After(w2, after2) == After(w3, after3) == w3;
  }

  /**
   Exactly the safe keys are sound: starting from a session that is not in a login, every token for
   the key goes to a user whose own password was given if and only if the key is safe.
   */
  lemma FaithfulExactly(w: World, key: string)
    requires Coherent(w) && w.outstanding == None && w.session.authState.Initial?
    ensures TokensAreFaithful(w, key) <==> SafeKey(w.users, key)
  {
    hide Runs, After, Coherent, SafeKey;
    forall steps, i | Runs(w, steps) && |w.grants| <= i < |After(w, steps).grants|
      && After(w, steps).grants[i].request.key == Some(key) && After(w, steps).grants[i].users == w.users
      && SafeKey(w.users, key)
      ensures Faithful(After(w, steps).grants[i])
    {
      RunsAreCoherent(w, steps);
      CoherentGrants(After(w, steps), i);
      GrantedIsFaithful(After(w, steps).grants[i]);
    }
    if TokensAreFaithful(w, key) {
      FaithfulIsSafe(w, key);
    }
  }

  lemma CoherentGrants(w: World, i: nat)
    requires Coherent(w) && i < |w.grants|
    ensures Granted(w.grants[i])
  {
  }

  lemma FaithfulIsSafe(w: World, key: string)
    requires w.outstanding == None && w.session.authState.Initial? && TokensAreFaithful(w, key)
    ensures SafeKey(w.users, key)
  {
    hide Runs, After, LoginSteps, HasPassword;
    forall u, v | u in w.users && v in w.users && Matches(u, key) && Matches(v, key) && u.id != SYSTEM_USER
      ensures v.id != SYSTEM_USER && HasPassword(w.users, key, v.id, Returned(u.passwordHash))
    {
      LoginRuns(w, key, u, v);
      var steps := LoginSteps(key, u, v);
      assert Faithful(After(w, steps).grants[|w.grants|]);
    }
  }

  /**
   Completeness: a session that is not wedged, a key that identifies one row u, and a database that
   refuses nothing it can answer: the login ends with a token exactly for u's password.
   */
  lemma RightPasswordGetsToken(w: World, r: ClientRequest, u: User, first: Reply, second: Reply)
    requires w.outstanding == None && w.session.authState.Initial?
    requires r.action == ValidateUser && r.complete && r.key.Some? && Unambiguous(w.users, r.key.value)
    requires u in w.users && Matches(u, r.key.value) && u.id != SYSTEM_USER
    requires IsReply(w.users, ValidateQuery(r.key), first) && first != REFUSED
    requires IsReply(w.users, InfoQuery(r.key), second) && second != REFUSED
    ensures var asked := Next(w, FromClient(r));
            var proven := Next(asked, FromDb(first, true));
            if r.password == Some(Returned(u.passwordHash))
            then proven.outstanding == Some(InfoQuery(r.key))
                 && Next(proven, FromDb(second, true)).grants == w.grants + [Grant(u.id, r, w.users)]
            else proven.outstanding == None && proven.grants == w.grants
  {
  }

  /** An unsafe key: a username that is another user's email can yield the other's token. */
  lemma AmbiguousKeyMixesUsers() returns (users: set<User>, steps: seq<Step>)
    ensures Runs(Start(users), steps) && !SafeKey(users, "x")
    ensures var w := After(Start(users), steps);
            |w.grants| == 1 && w.grants[0].userId == 3 && w.grants[0].request.password == Some("a")
            && forall u :: u in users && u.id == 3 ==> Returned(u.passwordHash) != "a"
  {
    var a, b := User(2, "x", "m", "a"), User(3, "y", "x", "b");
    users, steps := {a, b}, LoginSteps("x", a, b);
    LoginRuns(Start(users), "x", a, b);
    assert a in users && b in users && Matches(a, "x") && Matches(b, "x");
    assert !HasPassword(users, "x", 3, "a");
  }

  /** After a refused second step: validated, but no second query outstanding. */
  ghost predicate Wedged(w: World) {
    w.session.authState.Validated?
    && (w.outstanding.Some? ==> w.session.request.Some?)
    && (w.outstanding.Some? && w.session.action == ValidateUser ==> w.outstanding.value.ValidateQuery?)
  }

  lemma {:induction false} WedgedStays(w: World, steps: seq<Step>)
    requires Wedged(w) && Runs(w, steps)
    ensures Wedged(After(w, steps)) && After(w, steps).grants == w.grants
    decreases |steps|
  {
    if steps != [] {
      WedgedStep(w, steps[0]);
      WedgedStays(Next(w, steps[0]), steps[1..]);
    }
  }

  lemma WedgedStep(w: World, step: Step)
    requires Wedged(w) && Enabled(w, step)
    ensures Wedged(Next(w, step)) && Next(w, step).grants == w.grants
  {
  }

  /** A login whose second query is refused leaves a session that never issues a token again. */
  lemma RefusedInfoWedges(w: World, steps: seq<Step>)
    requires Coherent(w) && w.outstanding.Some? && w.session.action == ValidateUser && w.session.authState.Validated?
    requires Runs(Next(w, FromDb(REFUSED, true)), steps)
    ensures After(Next(w, FromDb(REFUSED, true)), steps).grants == w.grants
  {
    WedgedStays(Next(w, FromDb(REFUSED, true)), steps);
  }
}
