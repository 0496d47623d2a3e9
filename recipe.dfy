/**
 * The entry store of the recipe (formerly knock-knock joke) server.
 *
 * The SQLite database is modelled as two in-memory relations: `jokes`,
 * keyed by id, and `tags`, a set of (joke id, tag) pairs.  A transaction
 * works on its own copy of the relations and either commits all of it or
 * nothing.  `ORDER BY RANDOM() LIMIT 1` is a nondeterministic choice.
 */
module Recipe {
  import opened Wrappers

  /** A row of the `jokes` relation; `SELECT *` yields all four columns. */
  datatype Joke = Joke(id: string, whosThere: string, answerWho: string, jokeSource: string)

  /** The JSON form of an entry: the row's fields plus its tag set. */
  datatype JsonJoke = JsonJoke(id: string, whosThere: string, answerWho: string, tags: set<string>, source: string)
  {
    /** `JsonJoke::new`: the tag list is collected into a set. */
    static function New(joke: Joke, tags: seq<string>): (r: JsonJoke)
      ensures forall t :: t in r.tags <==> t in tags
      ensures |r.tags| <= |tags|
      ensures Distinct(tags) ==> |r.tags| == |tags|
    {
      ElementsCard(tags);
      JsonJoke(joke.id, joke.whosThere, joke.answerWho, Elements(tags), joke.jokeSource)
    }

    /** `JsonJoke::to_joke`: the row to store and the tags, in no particular order. */
    function ToJoke(): (r: (Joke, set<string>))
      ensures r.0.id == id && r.0.whosThere == whosThere && r.0.answerWho == answerWho
      ensures r.0.jokeSource == source && r.1 == tags
    {
      (Joke(id, whosThere, answerWho, source), tags)
    }
  }

  /** The set of the elements of a list. */
  function Elements<T>(s: seq<T>): set<T>
  {
    set x | x in s
  }

  predicate Distinct<T(==)>(s: seq<T>)
  {
    forall i, j :: 0 <= i < j < |s| ==> s[i] != s[j]
  }

  /** Collecting a list into a set never adds elements, and loses none when the list is duplicate-free. */
  lemma {:induction false} ElementsCard<T>(s: seq<T>)
    ensures |Elements(s)| <= |s|
    ensures Distinct(s) ==> |Elements(s)| == |s|
  {
    if s != [] {
      ElementsCard(s[1..]);
      assert Elements(s) == {s[0]} + Elements(s[1..]);
      if Distinct(s) {
        assert s[0] !in Elements(s[1..]) by {
          forall k | 0 <= k < |s[1..]| ensures s[1..][k] != s[0] {
            assert s[1..][k] == s[k + 1];
          }
        }
        assert Distinct(s[1..]) by {
          forall i, j | 0 <= i < j < |s[1..]| ensures s[1..][i] != s[1..][j] {
            assert s[1..][i] == s[i + 1] && s[1..][j] == s[j + 1];
          }
        }
      }
    } else {
      assert Elements(s) == {};
    }
  }

  /** `JsonJoke::new` followed by `to_joke` gives back the row and the set of the tags. */
  lemma NewThenToJoke(joke: Joke, tags: seq<string>)
    ensures JsonJoke.New(joke, tags).ToJoke() == (joke, Elements(tags))
  {
  }

  /** `to_joke` followed by `new`, with the tags listed in any order, gives back the entry. */
  lemma ToJokeThenNew(j: JsonJoke, tags: seq<string>)
    requires Elements(tags) == j.tags
    ensures JsonJoke.New(j.ToJoke().0, tags) == j
  {
  }

  /** What can go wrong in a query: no row, a broken uniqueness constraint, or the database itself. */
  datatype StoreError = RowNotFound | UniqueViolation | Backend

  /** The value of the two persistent relations. */
  datatype Tables = Tables(jokes: map<string, Joke>, tags: set<(string, string)>)

  /** Every joke is stored under its own id (the primary key). */
  ghost predicate Keyed(db: Tables)
  {
    forall id :: id in db.jokes ==> db.jokes[id].id == id
  }

  /**
   * Every tag pair names a stored joke.  SQLite does not enforce foreign
   * keys unless asked to, so the store does not rely on this; the lemmas
   * that need it say so.
   */
  ghost predicate Consistent(db: Tables)
  {
    forall p :: p in db.tags ==> p.0 in db.jokes
  }

  /** `SELECT tag FROM tags WHERE joke_id = id`, as a set. */
  function TagsOf(tags: set<(string, string)>, id: string): set<string>
  {
    set p | p in tags && p.0 == id :: p.1
  }

  /** `SELECT DISTINCT joke_id FROM tags JOIN qtags ON tags.tag = qtags.tag`. */
  function Candidates(tags: set<(string, string)>, query: set<string>): set<string>
  {
    set p | p in tags && p.1 in query :: p.0
  }

  /** A joke is a candidate exactly when one of its tags is in the query. */
  lemma CandidatesMeaning(tags: set<(string, string)>, query: set<string>, id: string)
    ensures id in Candidates(tags, query) <==> exists t :: t in query && (id, t) in tags
  {
    if exists t :: t in query && (id, t) in tags {
      var t :| t in query && (id, t) in tags;
      assert (id, t).0 == id;
    }
  }

  /** What `get` observes, tag order aside. */
  function Lookup(db: Tables, id: string): Result<(Joke, set<string>), StoreError>
  {
    if id in db.jokes then Ok((db.jokes[id], TagsOf(db.tags, id))) else Err(RowNotFound)
  }

  /** The (id, tag) rows `add` writes for an entry. */
  function PairsOf(j: JsonJoke): set<(string, string)>
  {
    set t | t in j.tags :: (j.id, t)
  }

  /**
   * The committed effect of `add`: the row and all its tag pairs, or,
   * when the id or one of the pairs is already stored, nothing at all.
   */
  function Insert(db: Tables, j: JsonJoke): Result<Tables, StoreError>
  {
    if j.id in db.jokes || exists t :: t in j.tags && (j.id, t) in db.tags then Err(UniqueViolation)
    else Ok(Tables(db.jokes[j.id := j.ToJoke().0], db.tags + PairsOf(j)))
  }

  /** A successful insert adds exactly one row and exactly the entry's tag pairs. */
  lemma InsertAdds(db: Tables, j: JsonJoke)
    requires Insert(db, j).Ok?
    ensures Insert(db, j).value.jokes.Keys == db.jokes.Keys + {j.id}
    ensures |Insert(db, j).value.jokes| == |db.jokes| + 1
    ensures Insert(db, j).value.tags - db.tags == PairsOf(j)
  {
    var db' := Insert(db, j).value;
    forall p | p in PairsOf(j) ensures p !in db.tags {
      var t :| t in j.tags && p == (j.id, t);
    }
  }

  /** Inserting keeps every joke under its own id and keeps every tag pair pointing at a joke. */
  lemma InsertPreserves(db: Tables, j: JsonJoke)
    requires Insert(db, j).Ok?
    ensures Keyed(db) ==> Keyed(Insert(db, j).value)
    ensures Consistent(db) ==> Consistent(Insert(db, j).value)
  {
    var db' := Insert(db, j).value;
    if Consistent(db) {
      forall p | p in db'.tags ensures p.0 in db'.jokes {
        if p !in db.tags {
          var t :| t in j.tags && p == (j.id, t);
        }
      }
    }
  }

  /**
   * After a successful insert, looking the entry up gives its row and its
   * tags, together with any tag pairs already stored under its id; in a
   * consistent store there are none of those, so exactly its tags.
   */
  lemma InsertThenLookup(db: Tables, j: JsonJoke)
    requires Insert(db, j).Ok?
    ensures Lookup(Insert(db, j).value, j.id) == Ok((j.ToJoke().0, j.tags + TagsOf(db.tags, j.id)))
    ensures Consistent(db) ==> Lookup(Insert(db, j).value, j.id) == Ok((j.ToJoke().0, j.tags))
  {
    var db' := Insert(db, j).value;
    assert TagsOf(db'.tags, j.id) == j.tags + TagsOf(db.tags, j.id) by {
      forall t | t in j.tags ensures t in TagsOf(db'.tags, j.id) {
        assert (j.id, t) in db'.tags;
      }
      forall t | t in TagsOf(db'.tags, j.id) ensures t in j.tags + TagsOf(db.tags, j.id) {
        var p :| p in db'.tags && p.0 == j.id && p.1 == t;
        if p !in db.tags {
          var u :| u in j.tags && p == (j.id, u);
        }
      }
    }
    if Consistent(db) {
      assert forall p :: p in db.tags ==> p.0 != j.id;
      assert TagsOf(db.tags, j.id) == {};
      assert j.tags + TagsOf(db.tags, j.id) == j.tags;
    }
  }

  /** Inserting one entry leaves what every other id looks up to unchanged. */
  lemma InsertLeavesOthers(db: Tables, j: JsonJoke, id: string)
    requires Insert(db, j).Ok? && id != j.id
    ensures Lookup(Insert(db, j).value, id) == Lookup(db, id)
  {
    var db' := Insert(db, j).value;
    assert TagsOf(db'.tags, id) == TagsOf(db.tags, id) by {
      forall t | t in TagsOf(db'.tags, id) ensures t in TagsOf(db.tags, id) {
        var p :| p in db'.tags && p.0 == id && p.1 == t;
      }
    }
  }

  /** After an insert, the entry is a candidate for every query naming one of its tags, and no candidate is lost. */
  lemma InsertThenCandidates(db: Tables, j: JsonJoke, query: set<string>)
    requires Insert(db, j).Ok?
    ensures Candidates(db.tags, query) <= Candidates(Insert(db, j).value.tags, query)
    ensures (exists t :: t in j.tags && t in query) ==> j.id in Candidates(Insert(db, j).value.tags, query)
  {
    var db' := Insert(db, j).value;
    if exists t :: t in j.tags && t in query {
      var t :| t in j.tags && t in query;
      assert (j.id, t) in db'.tags;
      assert (j.id, t).1 in query;
    }
  }

  /** The database connection pool, seen as the relations it holds. */
  class Store {
    var jokes: map<string, Joke>
    var tags: set<(string, string)>
    /** Whether the database answers at all; when it does not, every query fails with `Backend`. */
    var available: bool

    ghost predicate Valid()
      reads this
    {
      Keyed(Tables(jokes, tags))
    }

    function Snapshot(): Tables
      reads this
    {
      Tables(jokes, tags)
    }

    /** A freshly migrated, empty database. */
    constructor ()
      ensures Valid() && available
      ensures Snapshot() == Tables(map[], {})
    {
      jokes, tags, available := map[], {}, true;
    }

    /** `get`: the row under `id` and the tags paired with it, in whatever order the rows come back. */
    method Get(id: string) returns (r: Result<(Joke, seq<string>), StoreError>)
      ensures r.Ok? <==> available && id in jokes
      ensures r.Err? ==> r.error == if available then RowNotFound else Backend
      ensures r.Ok? ==> Lookup(Snapshot(), id) == Ok((r.value.0, Elements(r.value.1)))
      ensures r.Ok? ==> Distinct(r.value.1)
    {
      if !available {
        return Err(Backend);
      }
      if id !in jokes {
        return Err(RowNotFound);
      }
      var joke := jokes[id];
      var rest := TagsOf(tags, id);
      var rows: seq<string> := [];
      while rest != {}
        invariant rest <= TagsOf(tags, id)
        invariant forall t :: t in rows <==> t in TagsOf(tags, id) && t !in rest
        invariant Distinct(rows)
        decreases |rest|
      {
        var t :| t in rest;
        rows := rows + [t];
        rest := rest - {t};
      }
      assert Elements(rows) == TagsOf(tags, id);
      r := Ok((joke, rows));
    }

    /**
     * `get_tagged`: the query tags go into a scratch relation, which is
     * joined with `tags`; one of the distinct matching ids is drawn at
     * random.  The scratch relation is local to the call, so the stored
     * relations are left as they were.
     */
    method GetTagged(query: seq<string>) returns (r: Result<Option<string>, StoreError>)
      ensures r.Err? <==> !available
      ensures r.Err? ==> r.error == Backend
      ensures r.Ok? ==> (r.value.Some? <==> Candidates(tags, Elements(query)) != {})
      ensures r.Ok? && r.value.Some? ==> r.value.value in Candidates(tags, Elements(query))
      ensures query == [] ==> r.Ok? ==> r.value.None?
    {
      if !available {
        return Err(Backend);
      }
      var qtags: set<string> := {};
      for i := 0 to |query|
        invariant qtags == Elements(query[..i])
      {
        assert query[..i + 1] == query[..i] + [query[i]];
        qtags := qtags + {query[i]};
      }
      assert query[..|query|] == query;
      var hits := Candidates(tags, qtags);
      var rows: seq<string> := [];
      if hits != {} {
        var id :| id in hits;
        rows := [id];
      }
      if |rows| == 1 {
        r := Ok(Some(rows[0]));
      } else {
        r := Ok(None);
      }
    }

    /** `get_random`: the id of some stored joke, or `RowNotFound` when there is none. */
    method GetRandom() returns (r: Result<string, StoreError>)
      ensures r.Ok? <==> available && jokes != map[]
      ensures r.Ok? ==> r.value in jokes
      ensures r.Err? ==> r.error == if available then RowNotFound else Backend
    {
      if !available {
        return Err(Backend);
      }
      if jokes == map[] {
        return Err(RowNotFound);
      }
      assert jokes.Keys != {};
      var id :| id in jokes;
      r := Ok(id);
    }

    /**
     * `add`: inside one transaction, insert the row, then one tag pair per
     * tag; commit only when every insert succeeded.
     */
    method Add(j: JsonJoke) returns (r: Result<(), StoreError>)
      requires Valid()
      modifies this
      ensures Valid() && available == old(available)
      ensures !available ==> r == Err(Backend) && Snapshot() == old(Snapshot())
      ensures available ==> match Insert(old(Snapshot()), j)
                            case Ok(db) => r.Ok? && Snapshot() == db
                            case Err(e) => r == Err(e) && Snapshot() == old(Snapshot())
    {
      if !available {
        return Err(Backend);
      }
      var txJokes, txTags := jokes, tags;
      if j.id in txJokes {
        return Err(UniqueViolation);
      }
      txJokes := txJokes[j.id := j.ToJoke().0];
      var pending := j.tags;
      while pending != {}
        invariant pending <= j.tags
        invariant txTags == tags + (set t | t in j.tags && t !in pending :: (j.id, t))
        invariant forall t :: t in j.tags && t !in pending ==> (j.id, t) !in tags
        decreases |pending|
      {
        var t :| t in pending;
        if (j.id, t) in txTags {
          return Err(UniqueViolation);
        }
        txTags := txTags + {(j.id, t)};
        pending := pending - {t};
      }
      assert txTags == tags + PairsOf(j);
      InsertPreserves(Tables(jokes, tags), j);
      jokes, tags := txJokes, txTags;
      r := Ok(());
    }
  }
}
