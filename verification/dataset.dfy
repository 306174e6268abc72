/** The film tables as one in-memory sequence of rows, already joined by row
    identity, and the two pure steps of the movie macro that work on them: the
    title mask and the genre/keyword maps built from the matching rows. */
module Dataset {
  import opened Wrappers
  import opened Errors
  import opened Text

  /** One (actor, character) pair of a cast list. */
  datatype CastPair = CastPair(actor: string, character: string)

  /** The keyword cell of a row, as the `try`/`except` around it sees it:
      parsed to its list of names, malformed (the handler swallows it), or
      unreadable even by the handler (missing row, non-string cell), which raises. */
  datatype KeywordCell = Parsed(names: seq<string>) | Malformed | Unreadable

  /** The genre cell of a row, in the two stages the macro handles it: `json.loads`
      inside the loop over the matching rows, which raises when the cell does not
      parse, and `tok['name']` after the loop, on the cell each title ends up with,
      which raises when some element has no name. */
  datatype GenreCell = Unparsable | NoNames | Names(names: seq<string>)

  /** A metadata row: its `title1` cell, its genre cell, the keyword cell of the row
      with the same identity, and the parsed cast list of that identity. */
  datatype Row = Row(title: string, genres: GenreCell, keywords: KeywordCell,
                     cast: Option<seq<CastPair>>)

  // ---------------------------------------------------------------------------
  // Title matching
  // ---------------------------------------------------------------------------

  /** `all(word in title for word in words)`. */
  function AllContained(words: seq<string>, title: string): (b: bool)
    ensures b <==> forall i :: 0 <= i < |words| ==> IsSubstring(words[i], title)
  {
    |words| == 0 || (Contains(title, words[0]) && AllContained(words[1..], title))
  }

  /** The mask of the movie macro: a single filter word must equal the title,
      any other number of words (none included) must each occur in it. */
  predicate TitleMatches(title: string, filter: seq<string>)
    ensures TitleMatches(title, filter) <==>
              if |filter| == 1 then title == filter[0]
              else forall i :: 0 <= i < |filter| ==> IsSubstring(filter[i], title)
  {
    if |filter| == 1 then title == filter[0] else AllContained(filter, title)
  }

  /** `metadata.loc[mask]`: the matching rows, in dataset order. Every matching row
      is kept as often as it occurs, every other row is dropped. */
  function Matching(rows: seq<Row>, filter: seq<string>): (ms: seq<Row>)
    ensures |ms| <= |rows|
    ensures forall r :: r in ms <==> r in rows && TitleMatches(r.title, filter)
    ensures forall r :: multiset(ms)[r] == if TitleMatches(r.title, filter) then multiset(rows)[r] else 0
  {
    if |rows| == 0 then []
    else
      assert rows == [rows[0]] + rows[1..];
      (if TitleMatches(rows[0].title, filter) then [rows[0]] else []) + Matching(rows[1..], filter)
  }

  /** Matching distributes over concatenation, so it keeps the relative order of the rows. */
  lemma {:induction false} MatchingAppend(a: seq<Row>, b: seq<Row>, filter: seq<string>)
    ensures Matching(a + b, filter) == Matching(a, filter) + Matching(b, filter)
  {
    if |a| > 0 {
      assert (a + b)[1..] == a[1..] + b;
      MatchingAppend(a[1..], b, filter);
    } else {
      assert a + b == b;
    }
  }

  /** The positions of the rows the mask keeps. */
  function MatchPositions(rows: seq<Row>, filter: seq<string>): set<int>
  {
    set i | 0 <= i < |rows| && TitleMatches(rows[i].title, filter)
  }

  /** Extending the rows by one adds its position exactly when the mask holds there. */
  lemma MatchPositionsSnoc(rows: seq<Row>, filter: seq<string>)
    requires |rows| > 0
    ensures |rows| - 1 !in MatchPositions(rows[..|rows| - 1], filter)
    ensures MatchPositions(rows, filter)
            == MatchPositions(rows[..|rows| - 1], filter)
               + (if TitleMatches(rows[|rows| - 1].title, filter) then {|rows| - 1} else {})
  {
  }

  /** Extending the rows by one adds one match exactly when the mask holds on the new row. */
  lemma MatchingSnoc(rows: seq<Row>, filter: seq<string>)
    requires |rows| > 0
    ensures |Matching(rows, filter)|
            == |Matching(rows[..|rows| - 1], filter)| + (if TitleMatches(rows[|rows| - 1].title, filter) then 1 else 0)
  {
    var n := |rows| - 1;
    assert rows == rows[..n] + [rows[n]];
    MatchingAppend(rows[..n], [rows[n]], filter);
    assert [rows[n]][1..] == [];
  }

  /** The number of matches, which the macro compares with its thresholds, is the
      number of positions at which the mask holds. */
  lemma {:induction false} MatchingCount(rows: seq<Row>, filter: seq<string>)
    ensures |Matching(rows, filter)| == |MatchPositions(rows, filter)|
    decreases |rows|
  {
    if |rows| > 0 {
      MatchingSnoc(rows, filter);
      MatchingCount(rows[..|rows| - 1], filter);
      MatchPositionsSnoc(rows, filter);
    }
  }

  /** With no filter words at all every row matches. */
  lemma {:induction false} NoWordsMatchEverything(rows: seq<Row>)
    ensures Matching(rows, []) == rows
  {
    if |rows| > 0 {
      NoWordsMatchEverything(rows[1..]);
      assert rows == [rows[0]] + rows[1..];
    }
  }

  /** Away from the one-word case, the order and repetition of the words do not matter. */
  lemma WordOrderIrrelevant(title: string, f: seq<string>, g: seq<string>)
    requires |f| != 1 && |g| != 1
    requires forall w :: w in f <==> w in g
    ensures TitleMatches(title, f) <==> TitleMatches(title, g)
  {
    if TitleMatches(title, f) {
      forall i | 0 <= i < |g| ensures IsSubstring(g[i], title) {
        assert g[i] in g;
        var j :| 0 <= j < |f| && f[j] == g[i];
      }
    }
    if TitleMatches(title, g) {
      forall i | 0 <= i < |f| ensures IsSubstring(f[i], title) {
        assert f[i] in f;
        var j :| 0 <= j < |g| && g[j] == f[i];
      }
    }
  }

  /** Reference definition of "the earliest matching row": its position, or |rows| when none matches. */
  function FirstMatchIndex(rows: seq<Row>, filter: seq<string>): (k: nat)
    ensures k <= |rows|
    ensures k < |rows| ==> TitleMatches(rows[k].title, filter)
    ensures forall j :: 0 <= j < k ==> !TitleMatches(rows[j].title, filter)
  {
    if |rows| == 0 then 0
    else if TitleMatches(rows[0].title, filter) then 0
    else 1 + FirstMatchIndex(rows[1..], filter)
  }

  /** Matching keeps the dataset order: it is non-empty exactly when some row matches,
      and then its first element is the earliest matching row. */
  lemma {:induction false} FirstMatchIsEarliest(rows: seq<Row>, filter: seq<string>)
    ensures |Matching(rows, filter)| > 0 <==> FirstMatchIndex(rows, filter) < |rows|
    ensures |Matching(rows, filter)| > 0 ==> Matching(rows, filter)[0] == rows[FirstMatchIndex(rows, filter)]
  {
    if |rows| > 0 && !TitleMatches(rows[0].title, filter) {
      assert Matching(rows, filter) == Matching(rows[1..], filter);
      FirstMatchIsEarliest(rows[1..], filter);
    }
  }

  // ---------------------------------------------------------------------------
  // The genre and keyword maps
  // ---------------------------------------------------------------------------

  /** The `genres` and `keywords` session maps, both keyed by title. */
  datatype Tags = Tags(genres: map<string, seq<string>>, keywords: map<string, seq<string>>)

  /** The two dictionaries as the loop over the matching rows leaves them: each title's
      genre cell parsed but not yet reduced to names, and its keyword names. */
  datatype Gathered = Gathered(genres: map<string, GenreCell>, keywords: map<string, seq<string>>)

  /** A row the loop gets through without an exception escaping. */
  predicate Sound(row: Row)
  {
    !row.genres.Unparsable? && !row.keywords.Unreadable?
  }

  function Titles(ms: seq<Row>): set<string>
  {
    set r | r in ms :: r.title
  }

  function ParsedTitles(ms: seq<Row>): set<string>
  {
    set r | r in ms && r.keywords.Parsed? :: r.title
  }

  /** One iteration of the loop over the matching rows: the genre cell is parsed
      first, then the keyword cell. */
  function AddRow(g: Gathered, row: Row): Result<Gathered, Fault>
  {
    if row.genres.Unparsable? then Err(GenreParse(row.title))
    else
      match row.keywords
      case Unreadable => Err(KeywordCell(row.title))
      case Malformed => Ok(Gathered(g.genres[row.title := row.genres], g.keywords))
      case Parsed(ks) => Ok(Gathered(g.genres[row.title := row.genres], g.keywords[row.title := ks]))
  }

  /** The loop over the matching rows in order, starting from two empty dictionaries. */
  function Gather(ms: seq<Row>): (r: Result<Gathered, Fault>)
    decreases |ms|
    ensures r.Ok? <==> forall i :: 0 <= i < |ms| ==> Sound(ms[i])
    ensures r.Ok? ==> r.value.genres.Keys == Titles(ms)
    ensures r.Ok? ==> r.value.keywords.Keys == ParsedTitles(ms)
    ensures r.Ok? ==> forall t :: t in r.value.genres ==> !r.value.genres[t].Unparsable?
  {
    if |ms| == 0 then Ok(Gathered(map[], map[]))
    else
      var init := ms[..|ms| - 1];
      assert ms == init + [ms[|ms| - 1]];
      match Gather(init)
      case Err(e) => Err(e)
      case Ok(g) => AddRow(g, ms[|ms| - 1])
  }

  /** The second loop, over the genre dictionary in insertion order, which is the order in
      which the titles first occur among the matching rows: the first title whose final
      genre cell has an element without a name, if any. */
  function FirstUnnamed(ms: seq<Row>, cells: map<string, GenreCell>): (o: Option<string>)
    ensures o.None? <==> forall i :: 0 <= i < |ms| && ms[i].title in cells ==> !cells[ms[i].title].NoNames?
    ensures o.Some? ==> o.value in cells && cells[o.value].NoNames? && o.value in Titles(ms)
  {
    if |ms| == 0 then None
    else if ms[0].title in cells && cells[ms[0].title].NoNames? then Some(ms[0].title)
    else
      var o := FirstUnnamed(ms[1..], cells);
      assert forall r :: r in ms[1..] ==> r in ms;
      o
  }

  /** Both loops of the macro over the matching rows: gather the cells, then reduce every
      title's final genre cell to its names. */
  function JoinTags(ms: seq<Row>): (r: Result<Tags, Fault>)
    ensures r.Ok? ==> forall i :: 0 <= i < |ms| ==> Sound(ms[i])
    ensures r.Ok? ==> r.value.genres.Keys == Titles(ms)
    ensures r.Ok? ==> r.value.keywords.Keys == ParsedTitles(ms)
  {
    match Gather(ms)
    case Err(e) => Err(e)
    case Ok(g) =>
      match FirstUnnamed(ms, g.genres)
      case Some(t) => Err(GenreParse(t))
      case None =>
        assert forall t :: t in g.genres ==> g.genres[t].Names? by {
          forall t | t in g.genres ensures g.genres[t].Names? {
            var r :| r in ms && r.title == t;
            var i :| 0 <= i < |ms| && ms[i] == r;
          }
        }
        Ok(Tags(map t | t in g.genres :: g.genres[t].names, g.keywords))
  }

  /** A title that appears on a later row is overwritten by it. */
  predicate LastWithTitle(ms: seq<Row>, i: int)
    requires 0 <= i < |ms|
  {
    forall j :: i < j < |ms| ==> ms[j].title != ms[i].title
  }

  predicate LastParsedWithTitle(ms: seq<Row>, i: int)
    requires 0 <= i < |ms|
  {
    forall j :: i < j < |ms| && ms[j].keywords.Parsed? ==> ms[j].title != ms[i].title
  }

  /** The last row carrying title `t`, or -1 when there is none. */
  function LastIndex(ms: seq<Row>, t: string): (j: int)
    ensures -1 <= j < |ms|
    ensures j >= 0 ==> ms[j].title == t && LastWithTitle(ms, j)
    ensures j < 0 ==> forall k :: 0 <= k < |ms| ==> ms[k].title != t
  {
    if |ms| == 0 then -1
    else if ms[|ms| - 1].title == t then |ms| - 1
    else
      var j := LastIndex(ms[..|ms| - 1], t);
      assert j >= 0 ==> ms[j] == ms[..|ms| - 1][j];
      j
  }

  /** A successful gathering of a non-empty prefix is that of all but its last row, plus that row. */
  lemma GatherStep(ms: seq<Row>)
    requires |ms| > 0 && Gather(ms).Ok?
    ensures Gather(ms[..|ms| - 1]).Ok?
    ensures Gather(ms).value.genres
            == Gather(ms[..|ms| - 1]).value.genres[ms[|ms| - 1].title := ms[|ms| - 1].genres]
    ensures ms[|ms| - 1].keywords.Parsed? ==>
              Gather(ms).value.keywords
              == Gather(ms[..|ms| - 1]).value.keywords[ms[|ms| - 1].title := ms[|ms| - 1].keywords.names]
    ensures !ms[|ms| - 1].keywords.Parsed? ==>
              Gather(ms).value.keywords == Gather(ms[..|ms| - 1]).value.keywords
  {
  }

  /** After the first loop a title holds the genre cell of the last matching row carrying it. */
  lemma {:induction false} GatherGenresLastWins(ms: seq<Row>, i: nat)
    requires Gather(ms).Ok?
    requires i < |ms| && LastWithTitle(ms, i)
    ensures ms[i].title in Gather(ms).value.genres
    ensures Gather(ms).value.genres[ms[i].title] == ms[i].genres
    decreases |ms|
  {
    var n := |ms| - 1;
    var init := ms[..n];
    GatherStep(ms);
    if i < n {
      assert ms[n].title != ms[i].title;
      assert init[i] == ms[i];
      assert LastWithTitle(init, i);
      GatherGenresLastWins(init, i);
    }
  }

  /** After the first loop a title holds the keywords of the last matching row with that
      title whose keyword cell parsed. */
  lemma {:induction false} GatherKeywordsLastWins(ms: seq<Row>, i: nat)
    requires Gather(ms).Ok?
    requires i < |ms| && ms[i].keywords.Parsed? && LastParsedWithTitle(ms, i)
    ensures ms[i].title in Gather(ms).value.keywords
    ensures Gather(ms).value.keywords[ms[i].title] == ms[i].keywords.names
    decreases |ms|
  {
    var n := |ms| - 1;
    var init := ms[..n];
    GatherStep(ms);
    if i < n {
      assert init[i] == ms[i];
      assert LastParsedWithTitle(init, i);
      if ms[n].keywords.Parsed? {
        assert ms[n].title != ms[i].title;
      }
      GatherKeywordsLastWins(init, i);
    }
  }

  /** The join succeeds exactly when no row has an unparsable genre cell or an unreadable
      keyword cell, and the last row of every title has a genre cell whose elements all
      have names; an earlier row's nameless cell is overwritten and never inspected. */
  lemma JoinTagsOk(ms: seq<Row>)
    ensures JoinTags(ms).Ok? <==>
              && (forall i :: 0 <= i < |ms| ==> Sound(ms[i]))
              && (forall i :: 0 <= i < |ms| && LastWithTitle(ms, i) ==> ms[i].genres.Names?)
  {
    if JoinTags(ms).Ok? {
      var g := Gather(ms).value;
      forall i | 0 <= i < |ms| && LastWithTitle(ms, i) ensures ms[i].genres.Names? {
        GatherGenresLastWins(ms, i);
      }
    }
    if (forall i :: 0 <= i < |ms| ==> Sound(ms[i]))
       && (forall i :: 0 <= i < |ms| && LastWithTitle(ms, i) ==> ms[i].genres.Names?) {
      var g := Gather(ms).value;
      forall i | 0 <= i < |ms| && ms[i].title in g.genres ensures !g.genres[ms[i].title].NoNames? {
        var j := LastIndex(ms, ms[i].title);
        GatherGenresLastWins(ms, j);
      }
    }
  }

  /** A title's genres are the names in the cell of the last matching row carrying it. */
  lemma JoinGenresLastWins(ms: seq<Row>, i: nat)
    ensures JoinTags(ms).Ok? && i < |ms| && LastWithTitle(ms, i) ==>
              && ms[i].genres.Names?
              && ms[i].title in JoinTags(ms).value.genres
              && JoinTags(ms).value.genres[ms[i].title] == ms[i].genres.names
  {
    if JoinTags(ms).Ok? && i < |ms| && LastWithTitle(ms, i) {
      GatherGenresLastWins(ms, i);
    }
  }

  /** A title's keywords are those of the last matching row with that title whose keyword cell parsed. */
  lemma JoinKeywordsLastWins(ms: seq<Row>, i: nat)
    ensures JoinTags(ms).Ok? && i < |ms| && ms[i].keywords.Parsed? && LastParsedWithTitle(ms, i) ==>
              && ms[i].title in JoinTags(ms).value.keywords
              && JoinTags(ms).value.keywords[ms[i].title] == ms[i].keywords.names
  {
    if JoinTags(ms).Ok? && i < |ms| && ms[i].keywords.Parsed? && LastParsedWithTitle(ms, i) {
      GatherKeywordsLastWins(ms, i);
    }
  }

  /** Two matching rows with the same title: a nameless genre cell on the earlier one is
      overwritten before the names are read, so the join succeeds with the later one's names. */
  lemma LaterCellReplacesNameless()
    ensures var ms := [Row("x", NoNames, Malformed, None), Row("x", Names(["Drama"]), Malformed, None)];
            JoinTags(ms) == Ok(Tags(map["x" := ["Drama"]], map[]))
  {
    var ms := [Row("x", NoNames, Malformed, None), Row("x", Names(["Drama"]), Malformed, None)];
    JoinTagsOk(ms);
    JoinGenresLastWins(ms, 1);
    assert Titles(ms) == {"x"};
    assert ParsedTitles(ms) == {};
    var t := JoinTags(ms).value;
    assert t.genres == map["x" := ["Drama"]];
    assert t.keywords == map[];
  }

  /** The same two rows in the other order: the nameless cell is the one that stays, and
      reducing it to names raises. */
  lemma LaterNamelessCellRaises()
    ensures var ms := [Row("x", Names(["Drama"]), Malformed, None), Row("x", NoNames, Malformed, None)];
            JoinTags(ms) == Err(GenreParse("x"))
  {
  }
}
