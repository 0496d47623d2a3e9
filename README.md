# recipe-server, modelled in Dafny

This is a model of the checkable core of `recipe-server`. It is a small web server for knock-knock jokes, partway through being renamed to a recipe server. The model has seven modules:

- **Recipe** (`recipe.dfy`, `src/recipe.rs`): the entry store.
  - SQLite's `jokes` and `tags` tables are a `Store` class. It holds a map from id to row, a set of (joke id, tag) pairs, and a flag saying whether the database answers.
  - It provides the `JsonJoke` conversions and the `get`, `get_tagged`, `get_random` and `add` queries.
  - `add` is a transaction. It works on a copy of both relations and commits all of it or nothing.
  - `ORDER BY RANDOM() LIMIT 1` is a nondeterministic choice (`:|`).
- **Web** (`web.dfy`, `src/web.rs`): the HTML front end.
  - It normalises the tag filter character by character, splits it on commas, and dispatches.
  - Dispatch order: an `id` parameter wins, then tags, then the random fallback.
  - A successful id fetch also becomes the current joke.
- **Auth** (`authjwt.dfy`, `src/authjwt.rs`): registration against the shared secret, token issuance, bearer-token validation, and the error-to-status mapping.
  - Signing is symbolic. A signature is the term `Mac(algorithm, key, claims)`.
  - Validation follows `jsonwebtoken`'s HS512 validation, including its default 60-second leeway on expiry.
- **Server** (`server.dfy`, `src/main.rs`): the database URI choice (`get_db_uri`), the directory derived from it (`extract_db_dir`), the shared `AppState`, and the root page.
- **Api** (`api.dfy`, `src/api.rs`): the JSON handlers and the status codes they answer with.
- **Wrappers** and **Http**: `Option`/`Result`, and the status codes.

Two points where the code is not what it first looks like, and which the model follows as written:

- **`get_tagged` looks like a uniqueness check, but its ambiguity case cannot occur.** The query asks for `DISTINCT` matching ids, orders them at random and keeps at most one (`LIMIT 1`). The code then tests `njoke_ids == 1` (`src/recipe.rs:90-98`). That test fails only when no id matches, so `None` never means "several matches". `Store.GetTagged` keeps the test and proves that the result is `Some` exactly when some stored pair matches the query.
- **`AppState` in `src/main.rs:30-33` has only `db` and `current_joke`.** `src/authjwt.rs` and `src/api.rs` also read `jwt_keys` and `reg_key` from it. The model has one `AppState` with all four fields.
- **`Joke` is the four-column row of `src/recipe.rs:21-26`,** which is what the handlers and queries use.

## Model

| member | source | states |
|---|---|---|
| Recipe.JsonJoke.New | src/recipe.rs:35-44 | the entry's tag set holds exactly the elements of the tag list: duplicates collapse, so it is no larger than the list, and it is the same size when the list has no duplicates |
| Recipe.ElementsCard | src/recipe.rs:36 | collecting a list into a set never grows it, and loses nothing when the list is duplicate-free |
| Recipe.JsonJoke.ToJoke | src/recipe.rs:46-55 | the row carries the entry's id, whos_there, answer_who and source (as joke_source), and the tags are the entry's tag set |
| Recipe.ToJokeThenNew | src/recipe.rs:35-55 | `to_joke` then `new`, with the tags listed in any order, gives back the same entry |
| Recipe.NewThenToJoke | src/recipe.rs:35-55 | `new` then `to_joke` gives back the same id, whos_there, answer_who and source (source ↔ joke_source), and the set of the tags |
| Recipe.CandidatesMeaning | src/recipe.rs:90 | an id is among the joined, distinct ids exactly when one of its tag pairs carries a query tag |
| Recipe.InsertAdds | src/recipe.rs:110-137 | a committed insert adds exactly one row, under the entry's id, and exactly the entry's (id, tag) pairs |
| Recipe.InsertPreserves | src/recipe.rs:110-137 | a committed insert keeps every row under its own id; when every tag pair named a stored row, it still does |
| Recipe.InsertThenLookup | src/recipe.rs:110-137 | after a committed insert, looking the id up gives the entry's fields and its tags, plus any orphan pairs already under that id; in a consistent store, exactly its tags |
| Recipe.InsertLeavesOthers | src/recipe.rs:110-137 | a committed insert changes what no other id looks up to |
| Recipe.InsertThenCandidates | src/recipe.rs:110-137 | after a committed insert, no earlier tag match is lost, and the new entry matches every query naming one of its tags |
| Recipe.Store.Get | src/recipe.rs:64-74 | succeeds exactly when the database answers and a row has the id; returns that row and the tags paired with the id, each once, in some order; otherwise `RowNotFound` or the backend error |
| Recipe.Store.GetTagged | src/recipe.rs:76-102 | without touching the stored relations: `Some(id)` exactly when some stored pair carries a query tag, and then `id` carries one; `None` for an empty query; an error only when the database fails |
| Recipe.Store.GetRandom | src/recipe.rs:104-108 | returns the id of some stored row; errors exactly when the database fails or holds no rows |
| Recipe.Store.Add | src/recipe.rs:110-137 | the new relations are exactly the insert's result, the row plus one pair per tag; a duplicate id or pair, or a database failure, leaves both relations unchanged and reports the error |
| Auth.JwtKeys.New | src/authjwt.rs:11-16 | both keys are HMAC keys over the one secret, so a token signed with one is checked by the other |
| Auth.AuthBody.New | src/authjwt.rs:58-65 | the body carries the given token and the token type "Bearer" |
| Auth.MakeJwtToken | src/authjwt.rs:133-148 | succeeds exactly when the password is right and the key is an HMAC key; a wrong password is `Registration`, with nothing signed and whatever the clock says; otherwise the claims are the fixed issuer, `"<name> <<email>>"`, and now plus one day, signed HS512 under the encoding key, in a body of type "Bearer"; a key that cannot sign HS512 is `TokenCreation` |
| Auth.Validate | src/authjwt.rs:76-95 | a missing or non-bearer header is `InvalidToken`; any decoding failure is `Registration`; it succeeds, returning the token's claims, exactly for an HS512 token signed under an HMAC decoding key and not past its expiry by more than the leeway |
| Auth.IntoResponse | src/authjwt.rs:98-110 | `TokenCreation` is 500; `Registration` and `InvalidToken` are 401 |
| Auth.IssueThenValidate | src/authjwt.rs:88-94 | a token issued under keys from one secret validates under those keys, with the same claims, until a day plus the leeway has passed |
| Auth.ExpiredTokenRejected | src/authjwt.rs:88-93 | the same token, presented after its expiry and the leeway, is refused as `Registration` |
| Auth.ForeignTokenRejected | src/authjwt.rs:86-93 | a token issued under one secret is refused as `Registration` by keys from another |
| Server.GetDbUri | src/main.rs:49-57 | the argument when given, else the environment value when set, else "sqlite://db/knock-knock.db" |
| Server.FindFirst | src/main.rs:61 | the index of the first occurrence of the character, or none when it does not occur |
| Server.FindLast | src/main.rs:63 | the index of the last occurrence of the character, or none when it does not occur |
| Server.SchemeColon | src/main.rs:60-61 | in a URI starting with "sqlite://", the first ':' is at index 6, so the path starts right after the scheme |
| Server.ExtractDbDir | src/main.rs:59-72 | `InvalidDbUri(uri)` exactly when the URI does not both start with "sqlite://" and end with ".db"; otherwise a strict prefix of the path after the scheme, ending at its last '/', or "" when it has none |
| Server.DirEndsAtLastSlash | src/main.rs:63-64 | the directory is the path cut at whichever '/' has no '/' after it |
| Server.DefaultUriShape | src/main.rs:55 | the default URI is a valid sqlite URI whose path has its only '/' after "db" |
| Server.DefaultDbDir | src/main.rs:59-68 | the default URI yields the directory "db" |
| Server.AppState.constructor | src/main.rs:30-33 | the shared state holds the store, the current joke, the token keys and the registration secret |
| Server.AppState.GetJoke | src/main.rs:35-47 | the current joke becomes a stored row when one can be drawn and is unchanged otherwise; the page shows the current joke either way |
| Web.NormaliseTags | src/web.rs:38-44 | the character loop builds exactly the normalised filter |
| Web.NormalisedAppend | src/web.rs:38-44 | normalising works piecewise over concatenation |
| Web.NormalisedChars | src/web.rs:38-44 | the normalised filter holds only lower-case letters and commas |
| Web.NormalisedCommas | src/web.rs:38-44 | every comma survives |
| Web.NormalisedLetters | src/web.rs:38-44 | every letter survives, lower-cased: a lower-case letter occurs as often as it and its capital did |
| Web.NormalisedFixed | src/web.rs:38-44 | a string of lower-case letters and commas is its own normalisation |
| Web.NormalisedIdempotent | src/web.rs:38-44 | normalising a normalised filter changes nothing |
| Web.NormalisedExample | src/web.rs:38-44 | "Fun!!,  Easy2" normalises to "fun,easy" |
| Web.Split | src/web.rs:46 | splitting on a character gives at least one segment, empty segments included, and no segment contains the separator |
| Web.SplitCount | src/web.rs:46 | splitting gives one more segment than the string has copies of the separator |
| Web.SplitThenJoin | src/web.rs:46 | joining the segments back with the separator gives the string |
| Web.JoinThenSplit | src/web.rs:46 | splitting separator-free parts joined by the separator gives the parts back |
| Web.SplitExample | src/web.rs:46 | "fun,easy" splits into the tags "fun" and "easy" |
| Web.GetJoke | src/web.rs:9-73 | an id wins over tags: its row renders with its tags joined by ", " and becomes the current joke, or it is a 404 with the current joke unchanged; otherwise the normalised, split tags redirect to "/?id=" plus a matching id, panic on a database error, or fall back to a redirect to a random stored id, which panics when none can be drawn |
| Api.GetJokeById | src/api.rs:20-29 | 200 with the row and its tags exactly when the database answers and the id is stored; 404 with no body otherwise |
| Api.GetTaggedJoke | src/api.rs:56-75 | 200 only with a stored entry carrying one of the requested tags; 404 when the database fails or nothing matches; in a consistent store, any match gives 200 |
| Api.GetRandomJoke | src/api.rs:85-98 | 200 with some stored entry exactly when the database answers and is not empty; 404 otherwise |
| Api.ErrorResponse | src/api.rs:118 | an authentication error answers with its own status, 401 unless it is `TokenCreation`, and repeats the status in its body |
| Api.Register | src/api.rs:112-121 | 200 with a "Bearer" token exactly when the password is right and the key is an HMAC key; 401 for a wrong password, 500 for a key that cannot sign; a token issued under paired keys validates at once |
| Api.AddJoke | src/api.rs:136-146 | a rejected token answers with its error and leaves the store untouched; with a valid token, 201 and the insert committed, or 400 with the store's error and the store unchanged; whether the database answers is unchanged |
| Api.AddThenFetch | src/api.rs:136-146 | in a consistent store, an entry added is then fetched by id as exactly that entry |

## Left out

- SQL and sqlx are not modelled: connection pools, temporary-table DDL, migrations and the bulk load in `init_from`. The relations are in memory. Any database failure is one flag, and while it is down every query fails with `Backend`.
- `ORDER BY RANDOM()` is a nondeterministic choice. Uniformity is not modelled.
- HS512 cryptography and the token's text encoding are symbolic. A token is its algorithm, its claims and a `Mac` term, and `NotAJwt` stands for any text that does not parse as a token.
- The 60-second leeway is `jsonwebtoken`'s default validation setting. It is not a constant of this repository.
- The clock (`Utc::now`) is a parameter. The panic of `u64::try_from(...).unwrap()` on an expiry before the epoch is a precondition on `Auth.MakeJwtToken` and `Api.Register`: `now + 86400 >= 0` whenever the password is right.
- File, environment and network I/O are left out: `read_secret`, `make_jwt_keys`, argument parsing, `serve`, listeners, tracing and the static file services. The environment variable is passed to `Server.GetDbUri` as an `Option`.
- The `RwLock`, async execution and concurrency are not modelled. Each handler runs alone.
- `src/joke.rs` holds a single constant and is left out.
- HTML templates (`src/templates.rs`) and the Leptos front end are left out. `Web.GetJoke` returns the joke and the tag string a page would render.
- `is_alphabetic` and `to_lowercase` are ASCII only. Unicode letters and multi-character lower-casing are not modelled.
- The tag pairs do not have to name stored rows, because SQLite does not enforce foreign keys by default. Lemmas that need the store to be consistent say so.
- Api's `get_joke` is not modelled separately. It only passes the store and the id to `get_joke_by_id`, which `Api.GetJokeById` models.
- The JSON body extractors' rejection of malformed request bodies (axum's 4xx answers) is not modelled. Neither is the logging.
- Api.AddJoke: the 400 body is the store's error value, not its `to_string` text.
- Web.GetJoke: the order of the tags shown on the page is whatever order the rows come back in. The contract names that order through a ghost out-parameter rather than fixing it.
