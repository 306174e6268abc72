/** The dialogue macros, one function each, threading the session record.
    The tagger's entities, the dataset rows and every random choice are
    parameters; an exception that would escape a macro is an `Err`. */
module Macros {
  import opened Wrappers
  import opened Errors
  import opened Text
  import opened Quote
  import opened Dataset
  import opened Resolver
  import opened Session

  const PersonLabel := "PERSON"
  const NorpLabel := "NORP"

  // ---------------------------------------------------------------------------
  // #NAME and the missed-name responder
  // ---------------------------------------------------------------------------

  /** #NAME: the stored name if there is one; otherwise store the first PERSON span. */
  function Name(vars: Vars, ents: seq<Entity>): (r: (Reply, Vars))
    ensures vars.name.Some? ==> r == (Words(vars.name.value), vars)
    ensures vars.name.None? ==> r.0.Flag?
    ensures vars.name.None? ==>
              (r.0 == Flag(true) <==> exists i :: 0 <= i < |ents| && ents[i].kind == PersonLabel)
    ensures r.0 == Flag(true) ==> r.1.name.Some?
    ensures r.0 == Flag(false) ==> r.1 == vars
    ensures r.1 == vars.(name := r.1.name)
  {
    if vars.name.Some? then (Words(vars.name.value), vars)
    else
      var people := Spans(ents, PersonLabel);
      if |people| == 0 then (Flag(false), vars)
      else (Flag(true), vars.(name := Some(people[0])))
  }

  /** A name the macro stores is the text of the earliest PERSON entity. */
  lemma NameIsFirstPerson(vars: Vars, ents: seq<Entity>)
    requires vars.name.None? && Name(vars, ents).0 == Flag(true)
    ensures exists i :: 0 <= i < |ents| && ents[i].kind == PersonLabel
                        && Name(vars, ents).1.name == Some(ents[i].text)
                        && forall j :: 0 <= j < i ==> ents[j].kind != PersonLabel
  {
    FirstSpanIsEarliest(ents, PersonLabel);
  }

  /** Once a name is stored, every later call returns it and changes nothing, whatever the tagger says. */
  lemma NameIdempotent(vars: Vars, ents: seq<Entity>, later: seq<Entity>)
    requires Name(vars, ents).0 != Flag(false)
    ensures var v := Name(vars, ents).1;
            v.name.Some? && Name(v, later) == (Words(v.name.value), v)
  {
  }

  /** The apology shown when no name was caught; nothing when a name is stored. */
  function RespondName(vars: Vars): (r: Option<string>)
    ensures r.Some? <==> vars.name.None?
    ensures r.Some? ==> r.value == "I missed your name!"
  {
    if vars.name.None? then Some("I missed your name!") else None
  }

  // ---------------------------------------------------------------------------
  // #MOVIE
  // ---------------------------------------------------------------------------

  /** #MOVIE: resolve the quoted title, store what the resolution found, and
      force `nomovie` or `dontknow` when it found nothing usable. */
  function Movie(utterance: string, rows: seq<Row>, vars: Vars): (r: Result<(bool, Vars), Fault>)
    ensures (forall i, j :: !QuotedAt(Normalise(utterance), i, j)) ==>
              r == Ok((false, vars.(forced := Some(NoMovie))))
    ensures r.Ok? ==> r.value.1.name == vars.name && r.value.1.culture == vars.culture
                      && r.value.1.once == vars.once
    ensures r.Ok? && !r.value.0 ==>
              && r.value.1.forced.Some?
              && r.value.1 == vars.(userDescription := r.value.1.userDescription,
                                    forced := r.value.1.forced)
    ensures r.Ok? && r.value.0 ==>
              && r.value.1.forced == vars.forced
              && r.value.1.pickid.Some? && r.value.1.genres.Some? && r.value.1.keywords.Some?
              && r.value.1.pickid.value in r.value.1.genres.value
              && r.value.1.keywords.value.Keys <= r.value.1.genres.value.Keys
    ensures r.Ok? && r.value.1.userDescription != vars.userDescription ==>
              r.value.1.userDescription == FirstQuoted(Normalise(utterance))
  {
    var res := Resolve(utterance, rows);
    match res
    case NoQuote => Ok((false, vars.(forced := Some(NoMovie))))
    case NotFound(d) => Ok((false, vars.(userDescription := Some(d), forced := Some(DontKnow))))
    case TooMany(d, _) => Ok((false, vars.(userDescription := Some(d), forced := Some(NoMovie))))
    case Broken(_, f) => Err(f)
    case Resolved(d, ms, pick, tags, cast) =>
      ResolvedTags(d, rows);
      Ok((true, vars.(userDescription := Some(d), results := Some(ms), pickid := Some(pick),
                      genres := Some(tags.genres), keywords := Some(tags.keywords),
                      characters := Some(cast))))
  }

  /** With a quoted fragment, the match count decides: none forces `dontknow`, more than
      MaxResults forces `nomovie`, both after storing the fragment; otherwise the macro succeeds
      unless a cell raises. */
  lemma MovieCounts(utterance: string, rows: seq<Row>, vars: Vars)
    requires FirstQuoted(Normalise(utterance)).Some?
    ensures var d := FirstQuoted(Normalise(utterance)).value;
            var n := |Matching(rows, Split(d))|;
            && (n == 0 ==>
                  Movie(utterance, rows, vars)
                  == Ok((false, vars.(userDescription := Some(d), forced := Some(DontKnow)))))
            && (n > MaxResults ==>
                  Movie(utterance, rows, vars)
                  == Ok((false, vars.(userDescription := Some(d), forced := Some(NoMovie)))))
            && (1 <= n <= MaxResults ==> Movie(utterance, rows, vars).Err?
                                         || Movie(utterance, rows, vars).value.0)
  {
  }

  /** On success `pickid` is the title of the earliest matching row, and the genre map
      is keyed by exactly the matching titles. */
  lemma MoviePicksFirstMatch(utterance: string, rows: seq<Row>, vars: Vars)
    ensures var r := Movie(utterance, rows, vars);
            r.Ok? && r.value.0 ==>
              var v := r.value.1;
              var f := Split(v.userDescription.value);
              && v.userDescription == FirstQuoted(Normalise(utterance))
              && v.genres.value.Keys == Titles(Matching(rows, f))
              && FirstMatchIndex(rows, f) < |rows|
              && v.pickid.value == rows[FirstMatchIndex(rows, f)].title
  {
    var r := Movie(utterance, rows, vars);
    if r.Ok? && r.value.0 {
      var d := r.value.1.userDescription.value;
      ResolvedTags(d, rows);
      PickIsFirstMatch(d, rows);
    }
  }

  /** On success `results` holds the matching rows, and each matching title's stored
      genres are the names of the last matching row carrying it, while `pickid` and
      `characters` come from the first matching row. */
  lemma MovieGenresLastWins(utterance: string, rows: seq<Row>, vars: Vars, i: nat)
    ensures var r := Movie(utterance, rows, vars);
            r.Ok? && r.value.0 ==>
              var v := r.value.1;
              var ms := Matching(rows, Split(v.userDescription.value));
              && v.results == Some(ms)
              && |ms| > 0
              && v.pickid == Some(ms[0].title)
              && ms[0].cast.Some? && v.characters == Some(ms[0].cast.value)
              && (i < |ms| && LastWithTitle(ms, i) ==>
                    && ms[i].genres.Names?
                    && ms[i].title in v.genres.value
                    && v.genres.value[ms[i].title] == ms[i].genres.names)
  {
    var r := Movie(utterance, rows, vars);
    if r.Ok? && r.value.0 {
      var d := r.value.1.userDescription.value;
      ResolvedTags(d, rows);
      JoinGenresLastWins(Matching(rows, Split(d)), i);
    }
  }

  /** On success each stored keyword list is that of the last matching row with the
      title whose keyword cell parsed. */
  lemma MovieKeywordsLastWins(utterance: string, rows: seq<Row>, vars: Vars, i: nat)
    ensures var r := Movie(utterance, rows, vars);
            r.Ok? && r.value.0 ==>
              var v := r.value.1;
              var ms := Matching(rows, Split(v.userDescription.value));
              i < |ms| && ms[i].keywords.Parsed? && LastParsedWithTitle(ms, i) ==>
                && ms[i].title in v.keywords.value
                && v.keywords.value[ms[i].title] == ms[i].keywords.names
  {
    var r := Movie(utterance, rows, vars);
    if r.Ok? && r.value.0 {
      var d := r.value.1.userDescription.value;
      JoinKeywordsLastWins(Matching(rows, Split(d)), i);
    }
  }

  /** The utterance `"x"` is already normalised. */
  lemma NormaliseQuotedX()
    ensures Normalise("\"x\"") == "\"x\""
  {
    var u := "\"x\"";
    assert Lower(u) == u;
    assert Drop(u, ',') == u;
    assert Drop(u, '.') == u;
  }

  /** The quote search on `"x"` finds the quote pair around `x`. */
  lemma SearchQuotedX()
    ensures SearchFrom("\"x\"", 0) == Some((0, 2))
  {
    var u := "\"x\"";
    assert NextQuote(u, 2) == Some(2);
    assert NextQuote(u, 1) == Some(2);
  }

  /** The quoted run of `"x"` is `x`. */
  lemma FirstQuotedX()
    ensures FirstQuoted("\"x\"") == Some("x")
  {
    SearchQuotedX();
    assert "\"x\""[1..2] == "x";
  }

  /** The utterance `"x"` quotes the one-word description `x`. */
  lemma QuotedX()
    ensures FirstQuoted(Normalise("\"x\"")) == Some("x")
  {
    NormaliseQuotedX();
    FirstQuotedX();
  }

  /** Two rows titled `x`: the first, with genre Drama and a cast, and the second,
      with genre Horror and no cast. */
  function TwoRowsX(cast: seq<CastPair>): seq<Row>
  {
    [Row("x", Names(["Drama"]), Malformed, Some(cast)), Row("x", Names(["Horror"]), Malformed, None)]
  }

  /** The one-word filter `x` keeps both rows. */
  lemma MatchingTwoRowsX(cast: seq<CastPair>)
    ensures Matching(TwoRowsX(cast), ["x"]) == TwoRowsX(cast)
  {
    var rows := TwoRowsX(cast);
    assert Matching(rows[1..], ["x"]) == rows[1..];
    assert rows == [rows[0]] + rows[1..];
  }

  /** Joining the two rows keeps the second row's genres under `x` and no keywords. */
  lemma JoinTwoRowsX(cast: seq<CastPair>)
    ensures JoinTags(TwoRowsX(cast)) == Ok(Tags(map["x" := ["Horror"]], map[]))
  {
    var rows := TwoRowsX(cast);
    JoinTagsOk(rows);
    JoinGenresLastWins(rows, 1);
    assert Titles(rows) == {"x"};
    assert ParsedTitles(rows) == {};
    var t := JoinTags(rows).value;
    assert t.genres == map["x" := ["Horror"]];
    assert t.keywords == map[];
  }

  /** Looking `x` up in those rows picks the first row's title and cast and the second row's genres. */
  lemma LookupTwoRowsX(cast: seq<CastPair>)
    ensures Lookup("x", TwoRowsX(cast)) == Resolved("x", TwoRowsX(cast), "x", Tags(map["x" := ["Horror"]], map[]), cast)
  {
    SplitOneWord("x");
    MatchingTwoRowsX(cast);
    JoinTwoRowsX(cast);
  }

  /** The first matching row supplies `pickid` and `characters`, the last one with the
      same title supplies the genres. */
  lemma PickAndGenresFromDifferentRows(cast: seq<CastPair>)
    ensures var r := Movie("\"x\"", TwoRowsX(cast), Initial);
            && r.Ok? && r.value.0
            && r.value.1.pickid == Some("x")
            && r.value.1.characters == Some(cast)
            && r.value.1.genres == Some(map["x" := ["Horror"]])
  {
    QuotedX();
    LookupTwoRowsX(cast);
  }

  // ---------------------------------------------------------------------------
  // #WATCHED
  // ---------------------------------------------------------------------------

  /** #WATCHED: the stored `user_description`; a KeyError when none was stored. */
  function Watched(vars: Vars): (r: Result<string, Fault>)
    ensures r.Ok? <==> vars.userDescription.Some?
    ensures r.Ok? ==> r.value == vars.userDescription.value
    ensures r.Err? ==> r.error == MissingVar("user_description")
  {
    match vars.userDescription
    case None => Err(MissingVar("user_description"))
    case Some(d) => Ok(d)
  }

  /** After a movie turn that found a quoted fragment, #WATCHED returns that fragment:
      non-empty, lower-case, without quotes or the deleted punctuation. */
  lemma WatchedAfterMovie(utterance: string, rows: seq<Row>, vars: Vars)
    ensures var q := FirstQuoted(Normalise(utterance));
            var r := Movie(utterance, rows, vars);
            q.Some? && r.Ok? ==>
              var w := Watched(r.value.1);
              && w == Ok(q.value)
              && |w.value| > 0
              && '"' !in w.value && ',' !in w.value && '.' !in w.value && ':' !in w.value
              && forall c :: c in w.value ==> !IsUpper(c)
  {
    DescriptionShape(utterance, rows);
  }

  // ---------------------------------------------------------------------------
  // #GETGENRE
  // ---------------------------------------------------------------------------

  /** The four genre remarks, each split around its single `#GENRE` marker. */
  const GenreTemplates: seq<(string, string)> := [
    ("i love ", " movies like that! what's your favorite genre?"),
    ("no way! those ", " movies are my favorite!  what's your favorite genre?"),
    ("seems like you are a big fan of ", " movies, no?  what's your favorite genre?"),
    ("that's a ", " movie, right?  what's your favorite genre?")
  ]

  /** `vars['genres'][vars['pickid']]`, when every lookup succeeds. */
  function PickedGenres(vars: Vars): Option<seq<string>>
  {
    if vars.genres.Some? && vars.pickid.Some? && vars.pickid.value in vars.genres.value
    then Some(vars.genres.value[vars.pickid.value])
    else None
  }

  /** The random genre index is in range whenever there is a genre to choose. */
  predicate GenreChoiceInRange(vars: Vars, g: nat)
  {
    PickedGenres(vars).Some? && |PickedGenres(vars).value| > 0 ==> g < |PickedGenres(vars).value|
  }

  /** #GETGENRE: remark `t` with genre `g` of the picked title, lower-cased. */
  function GetGenre(vars: Vars, t: nat, g: nat): (r: Result<string, Fault>)
    requires t < |GenreTemplates|
    requires GenreChoiceInRange(vars, g)
    ensures r.Ok? <==> PickedGenres(vars).Some? && |PickedGenres(vars).value| > 0
    ensures r.Ok? ==> g < |PickedGenres(vars).value|
                      && r.value == GenreTemplates[t].0 + Lower(PickedGenres(vars).value[g]) + GenreTemplates[t].1
  {
    if vars.genres.None? then Err(MissingVar("genres"))
    else if vars.pickid.None? then Err(MissingVar("pickid"))
    else if vars.pickid.value !in vars.genres.value then Err(UnknownTitle(vars.pickid.value))
    else
      var gs := vars.genres.value[vars.pickid.value];
      if |gs| == 0 then Err(EmptyChoice)
      else Ok(GenreTemplates[t].0 + Lower(gs[g]) + GenreTemplates[t].1)
  }

  /** After a successful movie turn the genre lookups cannot fail; only an empty genre list can. */
  lemma GenreAfterMovie(utterance: string, rows: seq<Row>, vars: Vars, t: nat, g: nat)
    ensures var r := Movie(utterance, rows, vars);
            r.Ok? && r.value.0 && t < |GenreTemplates| && GenreChoiceInRange(r.value.1, g) ==>
              var v := r.value.1;
              && PickedGenres(v).Some?
              && (GetGenre(v, t, g).Ok? <==> |v.genres.value[v.pickid.value]| > 0)
  {
  }

  // ---------------------------------------------------------------------------
  // #DEMONYM and #CULTURE
  // ---------------------------------------------------------------------------

  /** #DEMONYM: store the first NORP span as `culture`. */
  function Demonym(vars: Vars, ents: seq<Entity>): (r: (bool, Vars))
    ensures r.0 <==> exists i :: 0 <= i < |ents| && ents[i].kind == NorpLabel
    ensures !r.0 ==> r.1 == vars
    ensures r.0 ==> r.1.culture.Some? && r.1 == vars.(culture := r.1.culture)
  {
    if |ents| == 0 then (false, vars)
    else
      var groups := Spans(ents, NorpLabel);
      if |groups| == 0 then (false, vars)
      else (true, vars.(culture := Some(groups[0])))
  }

  /** #CULTURE: the stored culture; the explicit raise when there is none. */
  function Culture(vars: Vars): (r: Result<string, Fault>)
    ensures r.Ok? <==> vars.culture.Some?
    ensures r.Ok? ==> r.value == vars.culture.value
    ensures r.Err? ==> r.error == CultureUnset
  {
    match vars.culture
    case None => Err(CultureUnset)
    case Some(c) => Ok(c)
  }

  /** After a successful #DEMONYM, #CULTURE returns the text of the earliest NORP entity. */
  lemma CultureAfterDemonym(vars: Vars, ents: seq<Entity>)
    requires Demonym(vars, ents).0
    ensures exists i :: 0 <= i < |ents| && ents[i].kind == NorpLabel
                        && Culture(Demonym(vars, ents).1) == Ok(ents[i].text)
                        && forall j :: 0 <= j < i ==> ents[j].kind != NorpLabel
  {
    FirstSpanIsEarliest(ents, NorpLabel);
  }

  // ---------------------------------------------------------------------------
  // #A
  // ---------------------------------------------------------------------------

  /** #A: "a" the first time, setting `once`; "another" afterwards. */
  function Article(vars: Vars): (r: (string, Vars))
    ensures r.0 == "a" <==> !vars.once
    ensures r.0 == "a" || r.0 == "another"
    ensures r.1.once
    ensures r.1 == vars.(once := true)
    ensures vars.once ==> r.1 == vars
  {
    if vars.once then ("another", vars) else ("a", vars.(once := true))
  }

  /** The words of `n` successive calls of #A. */
  function Articles(vars: Vars, n: nat): seq<string>
    decreases n
  {
    if n == 0 then [] else var (w, v) := Article(vars); [w] + Articles(v, n - 1)
  }

  /** Over any run of calls, "a" comes out exactly once, first, and only if `once` was unset. */
  lemma {:induction false} ArticleOnce(vars: Vars, n: nat)
    requires n > 0
    ensures |Articles(vars, n)| == n
    ensures Articles(vars, n)[0] == (if vars.once then "another" else "a")
    ensures forall i :: 0 < i < n ==> Articles(vars, n)[i] == "another"
  {
    var v := Article(vars).1;
    assert v.once;
    OnceStaysAnother(v, n - 1);
  }

  /** In a new conversation the first #A says "a" and every later one "another". */
  lemma ArticleFromStart(n: nat)
    requires n > 0
    ensures |Articles(Initial, n)| == n
    ensures Articles(Initial, n)[0] == "a"
    ensures forall i :: 0 < i < n ==> Articles(Initial, n)[i] == "another"
  {
    ArticleOnce(Initial, n);
  }

  lemma {:induction false} OnceStaysAnother(vars: Vars, n: nat)
    requires vars.once
    ensures |Articles(vars, n)| == n
    ensures forall i :: 0 <= i < n ==> Articles(vars, n)[i] == "another"
  {
    if n > 0 {
      OnceStaysAnother(vars, n - 1);
    }
  }

  // ---------------------------------------------------------------------------
  // #ACTOR
  // ---------------------------------------------------------------------------

  /** `characters[0:5]`. */
  function Head5(cs: seq<CastPair>): (r: seq<CastPair>)
    ensures |r| <= 5 && |r| <= |cs|
    ensures r == cs[..|r|]
    ensures |r| == 5 || r == cs
  {
    if |cs| <= 5 then cs else cs[..5]
  }

  /** `random.sample(characters[0:5], 2)` drew positions `first` and `second`: distinct and in
      range whenever two pairs are there to draw. */
  predicate SampleInRange(vars: Vars, first: nat, second: nat)
  {
    vars.characters.Some? && |Head5(vars.characters.value)| >= 2 ==>
      first < |Head5(vars.characters.value)| && second < |Head5(vars.characters.value)| && first != second
  }

  function PerformanceQuestion(actor: string): string
  {
    "Did you like " + Lower(actor) + "'s performance?"
  }

  /** #ACTOR: sample two of the first five cast pairs, let `flip` (`random.randint(0, 1)`)
      pick the "better" one, and ask about its actor. */
  function ActorQuestion(vars: Vars, first: nat, second: nat, flip: nat): (r: Result<string, Fault>)
    requires flip <= 1
    requires SampleInRange(vars, first, second)
    ensures r.Ok? <==> vars.characters.Some? && |vars.characters.value| >= 2
    ensures r.Ok? ==> var k := if flip == 0 then first else second;
                      && k < 5 && k < |vars.characters.value|
                      && r.value == PerformanceQuestion(vars.characters.value[k].actor)
    ensures r.Err? ==> r.error in {MissingVar("characters"), TooFewCast}
  {
    match vars.characters
    case None => Err(MissingVar("characters"))
    case Some(cs) =>
      var pool := Head5(cs);
      if |pool| < 2 then Err(TooFewCast)
      else
        var picks := [pool[first], pool[second]];
        var better := picks[flip];
        Ok(PerformanceQuestion(better.actor))
  }

  /** After a successful movie turn #ACTOR asks about the first matching row's cast, and fails
      only when that cast has fewer than two pairs. */
  lemma ActorAfterMovie(utterance: string, rows: seq<Row>, vars: Vars, first: nat, second: nat, flip: nat)
    ensures var r := Movie(utterance, rows, vars);
            var res := Resolve(utterance, rows);
            r.Ok? && r.value.0 && flip <= 1 && SampleInRange(r.value.1, first, second) ==>
              && res.Resolved?
              && r.value.1.characters == Some(res.matches[0].cast.value)
              && (ActorQuestion(r.value.1, first, second, flip).Ok? <==> |res.matches[0].cast.value| >= 2)
  {
    var q := FirstQuoted(Normalise(utterance));
    if q.Some? {
      ResolvedTags(q.value, rows);
    }
  }
}
