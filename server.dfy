/**
 * The server's configuration strings and its shared state (src/main.rs):
 * choosing the database URI, deriving the directory to create for it, and
 * the root page, which shows a random joke and remembers it.
 */
module Server {
  import opened Wrappers
  import opened Recipe
  import Auth

  /** The server's error kinds; only `InvalidDbUri` arises in the modelled code. */
  datatype ServerError = RecipeNotFound(reason: string) | RecipeMisformat(reason: string) | InvalidDbUri(uri: string)

  const DefaultDbUri := "sqlite://db/knock-knock.db"
  const Scheme := "sqlite://"
  const DbSuffix := ".db"

  predicate HasPrefix(s: string, prefix: string)
  {
    |prefix| <= |s| && s[..|prefix|] == prefix
  }

  predicate HasSuffix(s: string, suffix: string)
  {
    |suffix| <= |s| && s[|s| - |suffix|..] == suffix
  }

  /**
   * `get_db_uri`: the command-line argument when given, else the value of
   * the `KK2_DB_URI` environment variable when set, else the default.
   */
  function GetDbUri(arg: Option<string>, env: Option<string>): (r: string)
    ensures arg.Some? ==> r == arg.value
    ensures arg.None? && env.Some? ==> r == env.value
    ensures arg.None? && env.None? ==> r == DefaultDbUri
  {
    match arg
    case Some(uri) => uri
    case None =>
      match env
      case Some(uri) => uri
      case None => DefaultDbUri
  }

  /** `str::find` for a character: the index of its first occurrence. */
  function FindFirst(s: string, c: char): (r: Option<nat>)
    ensures r.Some? ==> r.value < |s| && s[r.value] == c && c !in s[..r.value]
    ensures r.None? ==> c !in s
  {
    if s == [] then None
    else if s[0] == c then Some(0)
    else
      match FindFirst(s[1..], c)
      case None => None
      case Some(i) =>
        assert s[..i + 1] == [s[0]] + s[1..][..i];
        Some(i + 1)
  }

  /** `str::rfind` for a character: the index of its last occurrence. */
  function FindLast(s: string, c: char): (r: Option<nat>)
    ensures r.Some? ==> r.value < |s| && s[r.value] == c && c !in s[r.value + 1..]
    ensures r.None? ==> c !in s
  {
    if s == [] then None
    else if s[|s| - 1] == c then Some(|s| - 1)
    else
      match FindLast(s[..|s| - 1], c)
      case None => None
      case Some(i) =>
        assert s[i + 1..] == s[..|s| - 1][i + 1..] + [s[|s| - 1]];
        Some(i)
  }

  /** In a URI with the `sqlite://` scheme the first ':' is the scheme's own. */
  lemma SchemeColon(uri: string)
    requires HasPrefix(uri, Scheme)
    ensures FindFirst(uri, ':') == Some(|Scheme| - 3)
  {
    assert forall i :: 0 <= i < |Scheme| ==> uri[i] == uri[..|Scheme|][i] == Scheme[i];
    assert uri[6] == ':';
    var r := FindFirst(uri, ':');
    assert r.value <= 6;
  }

  /**
   * `extract_db_dir`: for a `sqlite://...db` URI, the path after the scheme
   * up to its last '/', or "" when it has none; any other URI is refused.
   */
  function ExtractDbDir(uri: string): (r: Result<string, ServerError>)
    ensures r.Err? <==> !(HasPrefix(uri, Scheme) && HasSuffix(uri, DbSuffix))
    ensures r.Err? ==> r.error == InvalidDbUri(uri)
    ensures r.Ok? ==> var path := uri[|Scheme|..];
                      && HasPrefix(path, r.value) && |r.value| < |path|
                      && ('/' in path ==> path[|r.value|] == '/' && '/' !in path[|r.value| + 1..])
                      && ('/' !in path ==> r.value == "")
  {
    if HasPrefix(uri, Scheme) && HasSuffix(uri, DbSuffix) then
      SchemeColon(uri);
      var start := FindFirst(uri, ':').value + 3;
      var path := uri[start..];
      assert |path| > 0 by {
        var k := |uri| - |DbSuffix|;
        assert uri[k] == uri[k..][0] == '.';
        assert forall i :: 0 <= i < |Scheme| ==> uri[i] == uri[..|Scheme|][i] && Scheme[i] != '.';
      }
      match FindLast(path, '/')
      case Some(end) => Ok(path[..end])
      case None => Ok("")
    else
      Err(InvalidDbUri(uri))
  }

  /** The directory of a database URI ends where the path's last '/' stands. */
  lemma DirEndsAtLastSlash(uri: string, k: nat)
    requires ExtractDbDir(uri).Ok?
    requires k < |uri| - |Scheme| && uri[|Scheme| + k] == '/'
    requires forall i :: |Scheme| + k < i < |uri| ==> uri[i] != '/'
    ensures ExtractDbDir(uri) == Ok(uri[|Scheme|..][..k])
  {
    var path := uri[|Scheme|..];
    var n := |ExtractDbDir(uri).value|;
    assert path[k] == '/';
    assert path[n] == uri[|Scheme| + n];
  }

  /** The default URI is a `sqlite://...db` URI whose path has one '/', after `db`. */
  lemma DefaultUriShape(uri: string)
    requires uri == DefaultDbUri
    ensures HasPrefix(uri, Scheme) && HasSuffix(uri, DbSuffix)
    ensures uri[|Scheme| + 2] == '/'
    ensures forall i :: |Scheme| + 2 < i < |uri| ==> uri[i] != '/'
    ensures uri[|Scheme|..][..2] == "db"
  {
    assert uri[..|Scheme|] == Scheme;
    assert uri[|uri| - |DbSuffix|..] == DbSuffix;
  }

  /** With neither an argument nor the environment variable, the database lives under `db`. */
  lemma DefaultDbDir(uri: string)
    requires uri == GetDbUri(None, None)
    ensures ExtractDbDir(uri) == Ok("db")
  {
    DefaultUriShape(uri);
    DirEndsAtLastSlash(uri, 2);
  }

  /**
   * The state every request shares: the store, the joke last shown, the
   * token keys and the registration secret.
   */
  class AppState {
    const db: Store
    var currentJoke: Joke
    const jwtKeys: Auth.JwtKeys
    const regKey: string

    constructor (db: Store, currentJoke: Joke, jwtKeys: Auth.JwtKeys, regKey: string)
      ensures this.db == db && this.currentJoke == currentJoke
      ensures this.jwtKeys == jwtKeys && this.regKey == regKey
    {
      this.db := db;
      this.currentJoke := currentJoke;
      this.jwtKeys := jwtKeys;
      this.regKey := regKey;
    }

    /**
     * The root page: fetch a random joke row and remember it; when the
     * fetch fails, keep the joke shown before.  The page shows the
     * remembered joke either way.
     */
    method GetJoke() returns (shown: Joke)
      modifies this
      ensures db.available && db.jokes != map[] ==> currentJoke in db.jokes.Values
      ensures !(db.available && db.jokes != map[]) ==> currentJoke == old(currentJoke)
      ensures shown == currentJoke
    {
      if db.available && db.jokes != map[] {
        assert db.jokes.Keys != {};
        var id :| id in db.jokes;
        currentJoke := db.jokes[id];
      }
      shown := currentJoke;
    }
  }
}
