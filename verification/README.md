# quiz3 movie-chat macros in Dafny

This project models the decision logic of the quiz3 movie chatbot. The bot asks for
the user's name. It then asks for a movie title in double quotes and resolves that
title against a film dataset. After that it makes small talk from the resolved
record: a genre remark, a question about the user's culture, and a question about
an actor.

The model covers the macros the dialogue flow calls. The tagger's entity spans, the
dataset rows and every random choice are passed in as plain values. Each macro is a
pure function from the session variables to a reply and new session variables. An
exception that would escape a macro becomes an `Err` carrying a `Fault`.

Modules:

- `Wrappers`, `Errors`: `Option`, `Result` and the `Fault` of each exception a macro can raise.
- `Text`: ASCII lowercasing, `str.replace(c, "")`, `str.split()` and the substring test `t in s`.
- `Quote`: the leftmost match of the regular expression `"([^"]+)"`.
- `Dataset`: the rows, already joined by row identity. It also holds the title mask and the two loops that build the `genres` and `keywords` maps.
- `Resolver`: the movie macro up to the point where it writes variables. It has five outcomes: `NoQuote`, `NotFound`, `TooMany`, `Resolved` and `Broken`.
- `Session`: the variable store as a typed record (`Vars`) and the tagger's entities.
- `Macros`: #NAME, the missed-name responder, #MOVIE, #WATCHED, #GETGENRE, #DEMONYM, #CULTURE, #A and #ACTOR.

Two details of the movie macro that the model keeps:

- `user_description` holds the quoted run of the normalised utterance, which is lower-cased and has `,` `.` `:` removed (quiz3/quiz3.py:49-55).
- When a quote is present but the match count is 0 or above 50, `user_description` is still written, because the write comes before the count is checked (quiz3/quiz3.py:55, 66-72).

## Model

| member | source | states |
|---|---|---|
| Text.Normalise | quiz3/quiz3.py:49 | The normalised utterance contains no `,`, `.`, `:` and no upper-case ASCII letter. A character survives iff it is in the lower-cased utterance and is not one of the three. |
| Text.ChainedDropIsKeep | quiz3/quiz3.py:49 | The three chained `replace` calls together delete exactly the three punctuation characters and keep every other character in order. |
| Text.NormaliseIsKeep | quiz3/quiz3.py:49 | Normalisation is lower-casing followed by one pass that deletes `,`, `.` and `:`. |
| Text.NormaliseIdempotent | quiz3/quiz3.py:49 | Normalising an already normalised utterance changes nothing. |
| Text.Drop | quiz3/quiz3.py:49 | `replace(c, "")` leaves no `c`, keeps every other character, and is the identity when `c` is absent. |
| Text.Lower | quiz3/quiz3.py:49 | Lower-casing keeps the length, maps each character on its own, leaves no upper-case letter, and changes a character iff it is upper-case. |
| Text.Split | quiz3/quiz3.py:56 | Every filter token is non-empty and has no whitespace. There are no tokens iff the fragment is all whitespace. |
| Text.SplitSkipsSpace | quiz3/quiz3.py:56 | Whitespace in front of the text produces no token. |
| Text.SplitOneWord | quiz3/quiz3.py:56 | A whitespace-free, non-empty text is exactly one token. |
| Text.SplitWordThenSpace | quiz3/quiz3.py:56 | A word followed by whitespace is the first token, and the tokens after it are those of the text after the whitespace. With the two rows above, this makes the tokens the maximal whitespace-free runs, in order. |
| Text.SplitUnwords | quiz3/quiz3.py:56 | Splitting words joined by single spaces gives back exactly those words. |
| Text.Contains | quiz3/quiz3.py:62 | `word in title` holds iff the word occurs at some position of the title. |
| Quote.SearchFrom | quiz3/quiz3.py:50 | The search returns a quote pair enclosing a non-empty, quote-free run, and no such pair starts further left. It returns nothing iff no such pair exists. |
| Quote.FirstQuoted | quiz3/quiz3.py:50-55 | There is no capture iff no quoted non-empty run exists. Otherwise the capture is the leftmost such run: non-empty, free of `"`, and made of characters of the searched text. |
| Dataset.AllContained | quiz3/quiz3.py:62 | `all(word in title ...)` holds iff every filter word is a substring of the title. |
| Dataset.TitleMatches | quiz3/quiz3.py:57-64 | With exactly one filter word, a title matches iff it equals that word. With any other number of words, it matches iff every word is a substring of it. |
| Dataset.WordOrderIrrelevant | quiz3/quiz3.py:62 | Away from the one-word case, two filters with the same words in any order and multiplicity match the same titles. |
| Dataset.NoWordsMatchEverything | quiz3/quiz3.py:62 | An empty filter matches every row (`all([])` is true). |
| Dataset.Matching | quiz3/quiz3.py:65 | The selected rows are exactly the dataset rows whose title matches. Each matching row is kept as many times as it occurs, and every other row is dropped. |
| Dataset.MatchingAppend | quiz3/quiz3.py:65 | Selecting from two concatenated tables gives the two selections concatenated, so the selection keeps dataset order. |
| Dataset.MatchingCount | quiz3/quiz3.py:65-72 | The count compared with 0 and 50 is the number of dataset positions where the mask holds. |
| Dataset.FirstMatchIndex | quiz3/quiz3.py:65-74 | Reference definition of the earliest match: every row before the index fails the mask, and the row at the index, if any, passes it. |
| Dataset.FirstMatchIsEarliest | quiz3/quiz3.py:65-74 | The selection is non-empty iff some row matches. Its first element is then the row at the earliest matching index. |
| Dataset.Gather | quiz3/quiz3.py:75-86 | The first loop raises iff some matching row has an unparsable genre cell or an unreadable keyword cell. Otherwise the genre keys are exactly the matching titles, none holding an unparsable cell, and the keyword keys are exactly the titles of rows whose keyword cell parsed. |
| Dataset.GatherStep | quiz3/quiz3.py:77-86 | One loop iteration writes the row's genre cell under its title, writes its keywords only when the cell parsed, and leaves every other entry alone. |
| Dataset.GatherGenresLastWins | quiz3/quiz3.py:77-81 | After the first loop a title holds the genre cell of the last matching row with that title. |
| Dataset.GatherKeywordsLastWins | quiz3/quiz3.py:77-86 | After the first loop a title holds the keywords of the last matching row with that title whose keyword cell parsed. |
| Dataset.FirstUnnamed | quiz3/quiz3.py:87-89 | The second loop finds nothing iff no matching title's final genre cell lacks names. Otherwise it reports a matching title whose final genre cell lacks names. |
| Dataset.LastIndex | quiz3/quiz3.py:77-81 | Reference definition of the row whose genre cell a title ends up with: the last row carrying it, or none when no row carries it. |
| Dataset.JoinTags | quiz3/quiz3.py:75-91 | On success no matching row raised in the first loop, the genre keys are exactly the matching titles, and the keyword keys are exactly the titles of rows whose keyword cell parsed. |
| Dataset.JoinTagsOk | quiz3/quiz3.py:77-89 | Both loops get through iff no matching row has an unparsable genre cell or an unreadable keyword cell, and the last row of every title has a genre cell whose elements all have names. |
| Dataset.JoinGenresLastWins | quiz3/quiz3.py:77-89 | On success a title's genres are the names in the genre cell of the last matching row with that title. |
| Dataset.JoinKeywordsLastWins | quiz3/quiz3.py:77-86 | On success a title's keywords come from the last matching row with that title whose keyword cell parsed. |
| Dataset.LaterCellReplacesNameless | quiz3/quiz3.py:77-89 | Two rows titled `x`, the first with a nameless genre cell and the second with `Drama`: the join succeeds with `x` mapped to `Drama`. |
| Dataset.LaterNamelessCellRaises | quiz3/quiz3.py:77-89 | The same two rows in the other order: the join raises a genre fault for `x`. |
| Resolver.Resolve | quiz3/quiz3.py:48-55 | `NoQuote` iff the normalised utterance has no quoted run. Otherwise the description is the leftmost such run and the rest is decided by `Lookup` on it. |
| Resolver.Lookup | quiz3/quiz3.py:56-95 | `NotFound` iff nothing matches. `TooMany` iff more than 50 rows match. `Resolved` carries the matching rows (1 to 50 of them) and picks the first one's title. |
| Resolver.DescriptionShape | quiz3/quiz3.py:49-55 | The stored description is non-empty, lower-case, and contains no `"`, `,`, `.` or `:`. |
| Resolver.PickIsFirstMatch | quiz3/quiz3.py:74 | On success `pickid` is the title of the earliest matching row in dataset order. |
| Resolver.ResolvedTags | quiz3/quiz3.py:75-94 | On success the genre keys equal the matching titles. The keyword keys are a subset of them. The pick has genres. The characters are the first match's cast. |
| Resolver.MalformedKeywordsTolerated | quiz3/quiz3.py:77-94 | With 1 to 50 matches, resolution succeeds iff three things hold. Every match has a parsable genre cell and a readable keyword cell. The last match of each title has a genre cell with names. The first match has a cast. A malformed keyword cell does not prevent success. |
| Resolver.BlankFragmentMatchesAll | quiz3/quiz3.py:56-62 | A whitespace-only quoted fragment selects every row. |
| Session.Spans | quiz3/quiz3.py:38 | The spans of a label are exactly the texts of entities carrying it. There are none iff no entity carries it. |
| Session.FirstSpanIsEarliest | quiz3/quiz3.py:38-43 | The first span of a label is the text of the earliest entity with that label. |
| Macros.Name | quiz3/quiz3.py:31-44 | A stored name is returned unchanged. Otherwise the macro succeeds iff some entity is PERSON, and then stores a name. On failure the store is unchanged. Only `name` ever changes. |
| Macros.NameIsFirstPerson | quiz3/quiz3.py:38-43 | The stored name is the text of the earliest PERSON entity. |
| Macros.NameIdempotent | quiz3/quiz3.py:32-33 | After a successful call, every later call returns the stored name and changes nothing, whatever the tagger returns. |
| Macros.RespondName | quiz3/quiz3.py:99-101 | The apology is produced iff no name is stored. |
| Macros.Movie | quiz3/quiz3.py:48-95 | With no quoted run, only `__state__` changes, to `nomovie`, and the macro fails. Every failure forces a state and writes only the description. Success leaves `__state__` alone, stores a pick that has genres, and stores keyword keys within the genre keys. `name`, `culture` and `once` never change. |
| Macros.MovieCounts | quiz3/quiz3.py:65-72 | With a quote present: 0 matches stores the fragment and forces `dontknow`; more than 50 stores it and forces `nomovie`; 1 to 50 succeeds unless a cell raises. |
| Macros.MoviePicksFirstMatch | quiz3/quiz3.py:73-90 | On success the description is the leftmost quoted run and the genre keys are the matching titles. `pickid` is the title of the earliest matching row. |
| Macros.MovieGenresLastWins | quiz3/quiz3.py:73-94 | On success `results` holds the matching rows, and `pickid` and `characters` come from the first of them. Each matching title's stored genres are the names of the last matching row with that title. |
| Macros.MovieKeywordsLastWins | quiz3/quiz3.py:77-91 | On success each stored keyword list is that of the last matching row with the title whose keyword cell parsed. |
| Macros.PickAndGenresFromDifferentRows | quiz3/quiz3.py:74-94 | For `"x"` against two rows titled `x` (Drama with a cast, then Horror without one), the macro succeeds. The pick is `x` and the cast is the first row's, but the stored genres of `x` are `Horror`. |
| Macros.Watched | quiz3/quiz3.py:137-139 | The accessor succeeds iff a description is stored and returns it. Otherwise it raises a missing-key fault. |
| Macros.WatchedAfterMovie | quiz3/quiz3.py:49-55 | After a movie turn that found a quote, #WATCHED returns the normalised quoted run: non-empty, lower-case, and free of quotes and the deleted punctuation. |
| Macros.GetGenre | quiz3/quiz3.py:105-112 | The remark is produced iff the picked title has a non-empty genre list. It is the chosen template with the chosen genre, lower-cased, in place of `#GENRE`. |
| Macros.GenreAfterMovie | quiz3/quiz3.py:110-112 | After a successful movie turn every lookup of #GETGENRE succeeds. The remark fails only when the pick's genre list is empty. |
| Macros.Demonym | quiz3/quiz3.py:116-126 | The macro succeeds iff some entity is NORP. On success only `culture` changes. On failure nothing changes. |
| Macros.Culture | quiz3/quiz3.py:130-134 | The accessor returns the stored culture, and raises iff none is stored. |
| Macros.CultureAfterDemonym | quiz3/quiz3.py:121-134 | After a successful #DEMONYM, #CULTURE returns the text of the earliest NORP entity. |
| Macros.Article | quiz3/quiz3.py:143-148 | The macro returns `a` iff `once` is absent, and `another` otherwise. Afterwards `once` is set and nothing else changes. |
| Macros.ArticleFromStart | quiz3/quiz3.py:143-148 | In a new conversation the first call of #A gives `a` and every later call gives `another`. |
| Macros.ArticleOnce | quiz3/quiz3.py:143-148 | Over any run of calls from a store without `once`, the first word is `a` and every later one is `another`. |
| Macros.Head5 | quiz3/quiz3.py:153 | `characters[0:5]` is the prefix of at most five pairs, and is the whole list when the list is shorter. |
| Macros.ActorQuestion | quiz3/quiz3.py:152-158 | The question is asked iff the cast is stored and has at least two pairs. It names the actor at the drawn position chosen by `flip`, which is one of the first five. |
| Macros.ActorAfterMovie | quiz3/quiz3.py:92-94 | After a successful movie turn the stored cast is the first match's cast. #ACTOR fails iff that cast has fewer than two pairs. |

## Left out

- The spaCy model and entity tagging (quiz3/quiz3.py:27, 37, 117). The tagger's output is an input sequence of (text, label) entities.
- pandas CSV loading and label-based indexing (quiz3/quiz3.py:60-61, 83, 86, 92-94). The three tables are one sequence of rows, already joined by row identity, which replaces the `keywords.loc[index]` and `cast.loc[id]` lookups. For `metadata.loc[mask]` (quiz3/quiz3.py:65) only its DataFrame result is replaced: `results` holds the selected rows, not a DataFrame. Titles are assumed to be strings.
- `json.loads` and `ast.literal_eval` on genre, keyword and cast cells (quiz3/quiz3.py:81-84, 94). Each cell's parse result is a row field: `GenreCell` for genres, `KeywordCell` for keywords, `Option` for the cast.
- Dataset.JoinTags: a keyword cell whose JSON parses but whose items lack `name` leaves the raw parsed list in `keywords` in the source. The model has no value for that raw list and treats such a cell as `Malformed`.
- Macros.Movie: when an exception escapes, the source has already written `user_description`, `results` and `pickid` (quiz3/quiz3.py:55, 73-74). A cast fault comes after `genres` and `keywords` are written too (quiz3/quiz3.py:90-94). The model returns only the `Fault` and discards those writes. How the dialogue library handles an exception that leaves a macro is not part of this model.
- Text.Lower: Python's Unicode `str.lower()` is modelled for ASCII letters only. The same applies to the genre and actor lower-casing.
- `random.choice`, `random.sample` and `random.randint` (quiz3/quiz3.py:112, 153-154). They become index parameters whose preconditions require them to be in range whenever the range is non-empty. The distribution is not modelled.
- The emora_stdm `DialogueFlow`: the transition dictionaries, `#ONT` ontology guards, `#UNX`, `#IF`, the `error` branches, and how a `Reply` or a forced `__state__` is consumed (quiz3/quiz3.py:161-241). Their meaning is defined by a library that is not part of this model. The dict literal at quiz3/quiz3.py:207-214 repeats the key `'state'`, so Python keeps only `'dontknow'`.
- The `print` diagnostics (quiz3/quiz3.py:36, 40, 52, 70) and the `__main__` entry point.
