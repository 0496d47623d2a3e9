/**
 * The HTML front end (src/web.rs): normalising a tag filter, splitting it
 * into tags, and choosing between the joke asked for by id, a joke matching
 * the tags, and a random joke.
 *
 * Characters are restricted to ASCII: a letter is `a`-`z` or `A`-`Z`, and
 * lower-casing maps `A`-`Z` to `a`-`z`.
 */
module Web {
  import opened Wrappers
  import opened Recipe
  import Server

  /** The query parameters of `/`. */
  datatype GetJokeParams = GetJokeParams(id: Option<string>, tags: Option<string>)

  /**
   * What the handler does: render a joke page with its tags, redirect,
   * answer 404, or panic.
   */
  datatype Outcome = Page(joke: Joke, tags: string) | Redirect(location: string) | NotFound | Panic(message: string)

  predicate IsAlphabetic(c: char)
  {
    'a' <= c <= 'z' || 'A' <= c <= 'Z'
  }

  function ToLower(c: char): char
  {
    if 'A' <= c <= 'Z' then (c as int + 32) as char else c
  }

  /** The characters the tag filter keeps. */
  predicate Kept(c: char)
  {
    IsAlphabetic(c) || c == ','
  }

  /** The tag filter with every other character dropped and letters lower-cased, in order. */
  function Normalised(s: string): string
  {
    if s == [] then []
    else Normalised(s[..|s| - 1]) + (if Kept(s[|s| - 1]) then [ToLower(s[|s| - 1])] else [])
  }

  /** The character loop of `get_joke`, building the normalised string one character at a time. */
  method NormaliseTags(tags: string) returns (r: string)
    ensures r == Normalised(tags)
  {
    r := [];
    for i := 0 to |tags|
      invariant r == Normalised(tags[..i])
    {
      assert tags[..i + 1][..i] == tags[..i];
      if Kept(tags[i]) {
        r := r + [ToLower(tags[i])];
      }
    }
    assert tags[..|tags|] == tags;
  }

  /** Normalising works piecewise. */
  lemma {:induction false} NormalisedAppend(a: string, b: string)
    ensures Normalised(a + b) == Normalised(a) + Normalised(b)
    decreases |b|
  {
    if b == [] {
      assert a + b == a;
    } else {
      var b' := b[..|b| - 1];
      assert (a + b)[..|a + b| - 1] == a + b';
      NormalisedAppend(a, b');
    }
  }

  /** The normalised filter holds only lower-case letters and commas. */
  lemma {:induction false} NormalisedChars(s: string)
    ensures forall c :: c in Normalised(s) ==> 'a' <= c <= 'z' || c == ','
    decreases |s|
  {
    if s != [] {
      NormalisedChars(s[..|s| - 1]);
    }
  }

  /** Every comma of the filter survives. */
  lemma {:induction false} NormalisedCommas(s: string)
    ensures multiset(Normalised(s))[','] == multiset(s)[',']
    decreases |s|
  {
    if s != [] {
      var init := s[..|s| - 1];
      NormalisedCommas(init);
      assert s == init + [s[|s| - 1]];
    }
  }

  /** What one character contributes to the count of a lower-case letter. */
  lemma LetterStep(x: char, c: char)
    requires 'a' <= c <= 'z'
    ensures multiset(if Kept(x) then [ToLower(x)] else [])[c] == multiset{x}[c] + multiset{x}[(c as int - 32) as char]
  {
    var cap := (c as int - 32) as char;
    if x == c {
      assert x != cap;
    } else if x == cap {
      assert ToLower(x) == c;
    } else {
      assert ToLower(x) != c;
    }
  }

  /** Every letter survives, lower-cased: the copies of `c` are the old copies of `c` and of its capital. */
  lemma {:induction false} NormalisedLetters(s: string, c: char)
    requires 'a' <= c <= 'z'
    ensures multiset(Normalised(s))[c] == multiset(s)[c] + multiset(s)[(c as int - 32) as char]
    decreases |s|
  {
    if s != [] {
      var init, last := s[..|s| - 1], s[|s| - 1];
      var tail := if Kept(last) then [ToLower(last)] else [];
      NormalisedLetters(init, c);
      LetterStep(last, c);
      assert s == init + [last];
      assert multiset(s) == multiset(init) + multiset{last};
      assert multiset(Normalised(s)) == multiset(Normalised(init)) + multiset(tail);
    }
  }

  /** A string of lower-case letters and commas is its own normalisation. */
  lemma {:induction false} NormalisedFixed(t: string)
    requires forall c :: c in t ==> 'a' <= c <= 'z' || c == ','
    ensures Normalised(t) == t
    decreases |t|
  {
    if t != [] {
      var init := t[..|t| - 1];
      assert forall c :: c in init ==> c in t;
      NormalisedFixed(init);
      var last := t[|t| - 1];
      assert last in t;
      assert Kept(last) && ToLower(last) == last;
      assert t == init + [last];
    }
  }

  /** Normalising a normalised filter changes nothing. */
  lemma NormalisedIdempotent(s: string)
    ensures Normalised(Normalised(s)) == Normalised(s)
  {
    NormalisedChars(s);
    NormalisedFixed(Normalised(s));
  }

  /** `str::split` on one character: every segment, empty ones included. */
  function Split(s: string, sep: char): (parts: seq<string>)
    ensures |parts| >= 1
    ensures forall k :: 0 <= k < |parts| ==> sep !in parts[k]
    decreases |s|
  {
    if s == [] then [""]
    else
      var rest := Split(s[1..], sep);
      assert s == [s[0]] + s[1..];
      if s[0] == sep then [""] + rest
      else [[s[0]] + rest[0]] + rest[1..]
  }

  /** Splitting gives one more segment than the string has copies of the separator. */
  lemma {:induction false} SplitCount(s: string, sep: char)
    ensures |Split(s, sep)| == multiset(s)[sep] + 1
    decreases |s|
  {
    if s != [] {
      SplitCount(s[1..], sep);
      assert s == [s[0]] + s[1..];
      assert multiset(s) == multiset{s[0]} + multiset(s[1..]);
    }
  }

  /** `slice::join`: the parts with the separator between each two. */
  function Join(parts: seq<string>, sep: string): string
  {
    if |parts| == 0 then ""
    else if |parts| == 1 then parts[0]
    else parts[0] + sep + Join(parts[1..], sep)
  }

  /** Prefixing the first part prefixes the joined string. */
  lemma JoinExtendHead(x: string, parts: seq<string>, sep: string)
    requires |parts| >= 1
    ensures Join([x + parts[0]] + parts[1..], sep) == x + Join(parts, sep)
  {
    var parts' := [x + parts[0]] + parts[1..];
    if |parts| > 1 {
      assert parts'[1..] == parts[1..];
    }
  }

  /** Splitting and joining back on the same character gives the string back. */
  lemma {:induction false} SplitThenJoin(s: string, sep: char)
    ensures Join(Split(s, sep), [sep]) == s
    decreases |s|
  {
    if s != [] {
      var rest := Split(s[1..], sep);
      SplitThenJoin(s[1..], sep);
      if s[0] == sep {
        assert Split(s, sep) == [""] + rest;
        assert ([""] + rest)[1..] == rest;
      } else {
        assert Split(s, sep) == [[s[0]] + rest[0]] + rest[1..];
        JoinExtendHead([s[0]], rest, [sep]);
      }
      assert s == [s[0]] + s[1..];
    }
  }

  /** A segment free of the separator joins onto the first segment of what follows it. */
  lemma {:induction false} SplitPrefix(a: string, t: string, sep: char)
    requires sep !in a
    ensures Split(a + t, sep) == [a + Split(t, sep)[0]] + Split(t, sep)[1..]
    decreases |a|
  {
    if a != [] {
      var rest := Split(t, sep);
      var tail := Split(a[1..] + t, sep);
      SplitPrefix(a[1..], t, sep);
      assert a[0] in a;
      assert (a + t)[0] == a[0] && (a + t)[1..] == a[1..] + t;
      assert Split(a + t, sep) == [[a[0]] + tail[0]] + tail[1..];
      assert tail[0] == a[1..] + rest[0] && tail[1..] == rest[1..];
      assert [a[0]] + (a[1..] + rest[0]) == a + rest[0];
    } else {
      assert a + t == t;
      assert a + Split(t, sep)[0] == Split(t, sep)[0];
      assert Split(t, sep) == [Split(t, sep)[0]] + Split(t, sep)[1..];
    }
  }

  /** Joining separator-free parts and splitting again gives the parts back. */
  lemma {:induction false} JoinThenSplit(parts: seq<string>, sep: char)
    requires |parts| >= 1
    requires forall k :: 0 <= k < |parts| ==> sep !in parts[k]
    ensures Split(Join(parts, [sep]), sep) == parts
    decreases |parts|
  {
    if |parts| == 1 {
      SplitPrefix(parts[0], "", sep);
      assert parts[0] + "" == parts[0];
    } else {
      var rest := Join(parts[1..], [sep]);
      JoinThenSplit(parts[1..], sep);
      SplitPrefix(parts[0], [sep] + rest, sep);
      assert ([sep] + rest)[1..] == rest;
      assert parts[0] + [sep] + rest == parts[0] + ([sep] + rest);
      assert parts[0] + "" == parts[0];
    }
  }

  /** The pieces of the worked example below, one character at a time. */
  lemma ExampleLetters()
    ensures Normalised("Fun") == "fun" && Normalised("  E") == "e"
  {
    assert "Fun"[..2] == "Fu" && "Fu"[..1] == "F";
    assert "  E"[..2] == "  " && "  "[..1] == " ";
  }

  lemma ExampleOthers()
    ensures Normalised("!!,") == "," && Normalised("asy2") == "asy"
  {
    assert "!!,"[..2] == "!!" && "!!"[..1] == "!";
    assert "asy2"[..3] == "asy" && "asy"[..2] == "as" && "as"[..1] == "a";
  }

  lemma ExampleJoin()
    ensures Join(["fun", "easy"], [',']) == "fun,easy"
  {
  }

  /** The worked example: `"Fun!!,  Easy2"` normalises to `"fun,easy"` ... */
  lemma NormalisedExample(s: string)
    requires s == "Fun!!,  Easy2"
    ensures Normalised(s) == "fun,easy"
  {
    ExampleLetters();
    ExampleOthers();
    assert s == "Fun" + "!!," + "  E" + "asy2";
    NormalisedAppend("Fun", "!!,");
    NormalisedAppend("Fun" + "!!,", "  E");
    NormalisedAppend("Fun" + "!!," + "  E", "asy2");
  }

  /** ... and the normalised filter of the worked example splits into those two tags. */
  lemma SplitExample(t: string)
    requires t == "fun,easy"
    ensures Split(t, ',') == ["fun", "easy"]
  {
    ExampleJoin();
    JoinThenSplit(["fun", "easy"], ',');
  }

  /** The redirect target for a chosen joke. */
  function IdUri(id: string): string
  {
    "/?id=" + id
  }

  /** The outcome redirects to one of the given jokes. */
  ghost predicate RedirectsToOneOf(o: Outcome, ids: set<string>)
  {
    o.Redirect? && exists id :: id in ids && o.location == IdUri(id)
  }

  /** The random fallback: a redirect to some stored joke, or a panic when none can be drawn. */
  ghost predicate RandomOutcome(db: Store, o: Outcome)
    reads db
  {
    if db.available && db.jokes != map[] then RedirectsToOneOf(o, db.jokes.Keys)
    else o == Panic("joke selection failed")
  }

  /**
   * `get_joke`: an id wins over tags.  A joke fetched by id is rendered with
   * its tags joined by ", " (`shown` is the order the rows came back in) and
   * becomes the current joke; a failed fetch is a 404.  Tags are normalised
   * and split; a match redirects to it, no match falls back to a random
   * joke, and a database error panics.
   */
  method GetJoke(state: Server.AppState, params: GetJokeParams) returns (o: Outcome, ghost shown: seq<string>)
    modifies state
    ensures params.id.Some? ==>
              var id := params.id.value;
              if state.db.available && id in state.db.jokes then
                && o == Page(state.db.jokes[id], Join(shown, ", "))
                && Elements(shown) == TagsOf(state.db.tags, id) && Distinct(shown)
                && state.currentJoke == state.db.jokes[id]
              else
                o == NotFound && state.currentJoke == old(state.currentJoke)
    ensures params.id.None? ==> state.currentJoke == old(state.currentJoke)
    ensures params.id.None? && params.tags.Some? ==>
              var query := Split(Normalised(params.tags.value), ',');
              var hits := Candidates(state.db.tags, Elements(query));
              if !state.db.available then o == Panic("tagged joke selection database error")
              else if hits != {} then RedirectsToOneOf(o, hits)
              else RandomOutcome(state.db, o)
    ensures params.id.None? && params.tags.None? ==> RandomOutcome(state.db, o)
  {
    shown := [];
    if params.id.Some? {
      var result := state.db.Get(params.id.value);
      match result {
        case Ok((joke, tags)) =>
          var tagString := Join(tags, ", ");
          state.currentJoke := joke;
          shown := tags;
          o := Page(joke, tagString);
        case Err(_) =>
          o := NotFound;
      }
      return;
    }
    if params.tags.Some? {
      var tagsString := NormaliseTags(params.tags.value);
      var tagged := state.db.GetTagged(Split(tagsString, ','));
      match tagged {
        case Ok(Some(id)) =>
          o := Redirect(IdUri(id));
          return;
        case Ok(None) =>
        case Err(_) =>
          o := Panic("tagged joke selection database error");
          return;
      }
    }
    var random := state.db.GetRandom();
    match random {
      case Ok(id) =>
        o := Redirect(IdUri(id));
      case Err(_) =>
        o := Panic("joke selection failed");
    }
  }
}
