/**
 * The JSON API (src/api.rs): fetching an entry by id, by tags or at random,
 * registering for a token, and adding an entry under a valid token.
 */
module Api {
  import opened Wrappers
  import opened Recipe
  import Server
  import Auth
  import Http

  /** What a response carries. */
  datatype Body =
    | Empty
    | JokeJson(joke: JsonJoke)
    | TokenJson(auth: Auth.AuthBody)
    | ErrorJson(reply: Auth.ErrorReply)
    | StoreFailure(error: StoreError)

  datatype Response = Response(status: nat, body: Body)

  /** The answer for a fetched entry: its row and tags as JSON. */
  function EntryReply(joke: Joke, tags: set<string>): Response
  {
    Response(Http.OK, JokeJson(JsonJoke(joke.id, joke.whosThere, joke.answerWho, tags, joke.jokeSource)))
  }

  /** `get_joke_by_id`: the entry with its tags, or 404 whatever went wrong. */
  method GetJokeById(db: Store, id: string) returns (r: Response)
    ensures r.status == Http.OK <==> db.available && id in db.jokes
    ensures r.status == Http.OK ==> r == EntryReply(db.jokes[id], TagsOf(db.tags, id))
    ensures r.status != Http.OK ==> r == Response(Http.NOT_FOUND, Empty)
  {
    var fetched := db.Get(id);
    match fetched {
      case Ok((joke, tags)) =>
        r := Response(Http.OK, JokeJson(JsonJoke.New(joke, tags)));
      case Err(_) =>
        r := Response(Http.NOT_FOUND, Empty);
    }
  }

  /**
   * `get_tagged_joke`: an entry carrying one of the tags, or 404 when the
   * database fails, no entry matches, or the drawn entry cannot be fetched.
   * In a consistent store every match can be fetched.
   */
  method GetTaggedJoke(db: Store, tags: seq<string>) returns (r: Response)
    ensures r.status == Http.OK || r == Response(Http.NOT_FOUND, Empty)
    ensures r.status == Http.OK ==>
              exists id :: id in Candidates(db.tags, Elements(tags)) && id in db.jokes
                           && r == EntryReply(db.jokes[id], TagsOf(db.tags, id))
    ensures r.status == Http.OK ==> r.body.JokeJson? && exists t :: t in tags && t in r.body.joke.tags
    ensures (db.available && Consistent(db.Snapshot()) && Candidates(db.tags, Elements(tags)) != {})
              ==> r.status == Http.OK
    ensures !db.available || Candidates(db.tags, Elements(tags)) == {} ==> r.status == Http.NOT_FOUND
  {
    var tagged := db.GetTagged(tags);
    match tagged {
      case Ok(Some(id)) =>
        r := GetJokeById(db, id);
        if r.status == Http.OK {
          CandidatesMeaning(db.tags, Elements(tags), id);
          var t :| t in Elements(tags) && (id, t) in db.tags;
          assert t in TagsOf(db.tags, id);
        }
      case Ok(None) =>
        r := Response(Http.NOT_FOUND, Empty);
      case Err(_) =>
        r := Response(Http.NOT_FOUND, Empty);
    }
  }

  /** `get_random_joke`: some stored entry, or 404 when there is none or the database fails. */
  method GetRandomJoke(db: Store) returns (r: Response)
    ensures r.status == Http.OK <==> db.available && db.jokes != map[]
    ensures r.status == Http.OK ==>
              exists id :: id in db.jokes && r == EntryReply(db.jokes[id], TagsOf(db.tags, id))
    ensures r.status != Http.OK ==> r == Response(Http.NOT_FOUND, Empty)
  {
    var random := db.GetRandom();
    match random {
      case Ok(id) =>
        r := GetJokeById(db, id);
      case Err(_) =>
        r := Response(Http.NOT_FOUND, Empty);
    }
  }

  /** An `AuthError` as a response: its status, and a body repeating it with the message. */
  function ErrorResponse(e: Auth.AuthError): (r: Response)
    ensures r.body.ErrorJson? && r.body.reply.status == r.status
    ensures r.status == Http.UNAUTHORIZED <==> e != Auth.TokenCreation
  {
    var reply := Auth.IntoResponse(e);
    Response(reply.status, ErrorJson(reply))
  }

  /**
   * `register`: with the right password and an HMAC key, 200 and a bearer
   * token that the server's own keys accept now; a wrong password is 401,
   * a key that cannot sign HS512 is 500.
   */
  function Register(state: Server.AppState, registration: Auth.Registration, now: int): (r: Response)
    requires registration.password == state.regKey ==> now + Auth.SecondsPerDay >= 0
    ensures r.status == Http.OK <==> registration.password == state.regKey && state.jwtKeys.encoding.family == Auth.Hmac
    ensures r.status == Http.UNAUTHORIZED <==> registration.password != state.regKey
    ensures r.status == Http.INTERNAL_SERVER_ERROR <==>
              registration.password == state.regKey && state.jwtKeys.encoding.family != Auth.Hmac
    ensures r.status != Http.OK ==> r.body.ErrorJson? && r.body.reply.status == r.status
    ensures r.status == Http.OK ==> r.body.TokenJson? && r.body.auth.tokenType == "Bearer"
    ensures r.status == Http.OK && Auth.Paired(state.jwtKeys.encoding, state.jwtKeys.decoding) ==>
              var header := Some(Auth.BearerHeader(Auth.Jwt(r.body.auth.accessToken)));
              Auth.Validate(header, state.jwtKeys, now) == Ok(r.body.auth.accessToken.claims)
  {
    match Auth.MakeJwtToken(state.jwtKeys, state.regKey, registration, now)
    case Err(e) => ErrorResponse(e)
    case Ok(token) => Response(Http.OK, TokenJson(token))
  }

  /**
   * `add_joke`: the bearer token is checked first, and a rejection is
   * answered without touching the store; otherwise the entry is added,
   * 201 on success and 400 with the store's error otherwise.
   */
  method AddJoke(header: Option<Auth.AuthHeader>, state: Server.AppState, joke: JsonJoke, now: int) returns (r: Response)
    requires state.db.Valid()
    modifies state.db
    ensures state.db.Valid() && state.db.available == old(state.db.available)
    ensures Auth.Validate(header, state.jwtKeys, now).Err? ==>
              && r == ErrorResponse(Auth.Validate(header, state.jwtKeys, now).error)
              && state.db.Snapshot() == old(state.db.Snapshot())
    ensures Auth.Validate(header, state.jwtKeys, now).Ok? ==>
              if old(state.db.available) && Insert(old(state.db.Snapshot()), joke).Ok? then
                && r == Response(Http.CREATED, Empty)
                && state.db.Snapshot() == Insert(old(state.db.Snapshot()), joke).value
              else
                && r == Response(Http.BAD_REQUEST,
                                 StoreFailure(if old(state.db.available) then Insert(old(state.db.Snapshot()), joke).error else Backend))
                && state.db.Snapshot() == old(state.db.Snapshot())
  {
    match Auth.Validate(header, state.jwtKeys, now) {
      case Err(e) =>
        r := ErrorResponse(e);
      case Ok(_) =>
        var added := state.db.Add(joke);
        match added {
          case Ok(_) =>
            r := Response(Http.CREATED, Empty);
          case Err(e) =>
            r := Response(Http.BAD_REQUEST, StoreFailure(e));
        }
    }
  }

  /** An entry added under a valid token is then served by id with exactly its tags, in a consistent store. */
  lemma AddThenFetch(db: Tables, joke: JsonJoke)
    requires Consistent(db) && Insert(db, joke).Ok?
    ensures var db' := Insert(db, joke).value;
            joke.id in db'.jokes
            && EntryReply(db'.jokes[joke.id], TagsOf(db'.tags, joke.id)) == Response(Http.OK, JokeJson(joke))
  {
    InsertThenLookup(db, joke);
  }
}
