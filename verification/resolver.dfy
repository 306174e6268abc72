/** The decision logic of the movie macro: from the raw utterance and the
    dataset to one of five outcomes. The effect of each outcome on the session
    variables is in the Macros module. */
module Resolver {
  import opened Wrappers
  import opened Errors
  import opened Text
  import opened Quote
  import opened Dataset

  /** More matches than this and the bot asks again instead of guessing. */
  const MaxResults: nat := 50

  datatype Resolution =
    | NoQuote
      // no quoted fragment in the normalised utterance
    | NotFound(description: string)
      // the fragment matched no title
    | TooMany(description: string, count: nat)
      // the fragment matched more than MaxResults titles
    | Resolved(description: string, matches: seq<Row>, pick: string, tags: Tags,
               characters: seq<CastPair>)
      // one to MaxResults matches, joined with their genres, keywords and the first match's cast
    | Broken(description: string, fault: Fault)
      // one to MaxResults matches, but a genre, keyword or cast cell raised

  /** The movie macro from the captured fragment on: match, count, join. */
  function Lookup(d: string, rows: seq<Row>): (r: Resolution)
    ensures !r.NoQuote? && r.description == d
    ensures r.NotFound? <==> |Matching(rows, Split(d))| == 0
    ensures r.TooMany? <==> |Matching(rows, Split(d))| > MaxResults
    ensures r.Resolved? ==> r.matches == Matching(rows, Split(d))
                            && 1 <= |r.matches| <= MaxResults
                            && r.pick == r.matches[0].title
    ensures r.Broken? ==> 1 <= |Matching(rows, Split(d))| <= MaxResults
  {
    var ms := Matching(rows, Split(d));
    if |ms| == 0 then NotFound(d)
    else if |ms| > MaxResults then TooMany(d, |ms|)
    else
      match JoinTags(ms)
      case Err(f) => Broken(d, f)
      case Ok(tags) =>
        match ms[0].cast
        case None => Broken(d, CastParse(ms[0].title))
        case Some(cast) => Resolved(d, ms, ms[0].title, tags, cast)
  }

  /** The movie macro up to the point where it writes session variables. */
  function Resolve(utterance: string, rows: seq<Row>): (r: Resolution)
    ensures r.NoQuote? <==> forall i, j :: !QuotedAt(Normalise(utterance), i, j)
    ensures !r.NoQuote? ==> FirstQuoted(Normalise(utterance)) == Some(r.description)
                            && r == Lookup(r.description, rows)
  {
    match FirstQuoted(Normalise(utterance))
    case None => NoQuote
    case Some(d) => Lookup(d, rows)
  }

  /** The stored description is the leftmost quoted run of the normalised utterance:
      non-empty, lower-case, and free of quotes and of the deleted punctuation. */
  lemma DescriptionShape(utterance: string, rows: seq<Row>)
    ensures var r := Resolve(utterance, rows);
            !r.NoQuote? ==>
              && |r.description| > 0
              && '"' !in r.description && ',' !in r.description
              && '.' !in r.description && ':' !in r.description
              && forall c :: c in r.description ==> !IsUpper(c)
  {
  }

  /** The picked title is that of the earliest matching row of the dataset. */
  lemma PickIsFirstMatch(d: string, rows: seq<Row>)
    ensures var r := Lookup(d, rows);
            r.Resolved? ==>
              var k := FirstMatchIndex(rows, Split(d));
              k < |rows| && r.pick == rows[k].title
  {
    FirstMatchIsEarliest(rows, Split(d));
  }

  /** On success every matching title has genres, only those with a parsed keyword cell
      have keywords, the pick is among them, and the cast is the first match's. */
  lemma ResolvedTags(d: string, rows: seq<Row>)
    ensures var r := Lookup(d, rows);
            r.Resolved? ==>
              && r.tags.genres.Keys == Titles(r.matches)
              && r.tags.keywords.Keys == ParsedTitles(r.matches)
              && r.tags.keywords.Keys <= r.tags.genres.Keys
              && r.pick in r.tags.genres
              && r.characters == r.matches[0].cast.value
  {
    var r := Lookup(d, rows);
    if r.Resolved? {
      assert r.matches[0] in r.matches;
    }
  }

  /** With 1 to MaxResults matches, resolution succeeds exactly when no cell raises: a
      malformed keyword cell is tolerated; an unparsable genre cell anywhere, a nameless
      genre cell on the last match of its title, or an unparsable cast cell is not. */
  lemma MalformedKeywordsTolerated(d: string, rows: seq<Row>)
    ensures var ms := Matching(rows, Split(d));
            1 <= |ms| <= MaxResults ==>
              (Lookup(d, rows).Resolved? <==>
                 && (forall i :: 0 <= i < |ms| ==> !ms[i].genres.Unparsable? && !ms[i].keywords.Unreadable?)
                 && (forall i :: 0 <= i < |ms| && LastWithTitle(ms, i) ==> ms[i].genres.Names?)
                 && ms[0].cast.Some?)
  {
    JoinTagsOk(Matching(rows, Split(d)));
  }

  /** A quoted fragment of whitespace only yields no filter words, so every row matches. */
  lemma BlankFragmentMatchesAll(d: string, rows: seq<Row>)
    requires AllSpace(d)
    ensures Matching(rows, Split(d)) == rows
  {
    NoWordsMatchEverything(rows);
  }
}
