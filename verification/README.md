# MovieDB in Dafny

A model of the record store behind `MovieDB` (moviedb.py): a movies table
and a directors table, and the operations that read and change them.

- **Directors.** `add_director` normalises a name, splits it at the first
  `", "` into last and given name, and either finds the director with the
  same lower-cased display form `last, given` or appends a new one with the
  next id.
- **Movies.**
  - `add_movie` trims title and genre and resolves the director. It then
    refuses a movie whose duplicate key is already stored; otherwise it
    appends the movie with the next id.
  - `add_movies` imports a list of records. It skips malformed records and
    duplicates, each with a warning.
  - `delete_movie` removes a movie by id.
  - `search_movies` is a conjunctive, case-insensitive filter.
  - `export_data` is the left join with the directors, sorted by movie id.
- **Statistics.** `generate_statistics` (`'movie'`, `'genre'`,
  `'director'`, `'all'`), `token_freq`, and the rule that picks the five
  directors of the director plot.

The tables are immutable sequences and every operation is a pure function.
An operation that changes the store returns a `Step`: the tables after the
call, plus either its value or the exception it raised. Two errors are
kept apart:

- `MovieDbError` is the store's own exception.
- `UnpackError` is the `ValueError` raised when a normalised director name
  has no `", "` to split at.

The `Step` is needed because the source changes the store before it
raises. `add_movie` stores a new director before its duplicate check. A
refused movie therefore leaves that director behind: see
`Catalog.RefusedWithNewDirector` and
`Scenarios.RefusedMovieKeepsNewDirectorExample`. In tables built by these
operations, a director created by the call has an id above every director
id a stored movie refers to. Such a refusal therefore needs a key
collision (next paragraph). The example uses one: title "t" of 2000 with
genre "g" and the new director 11 gives the key of the stored title "t"
of 2000 with genre "g1" and director 1.

The model reproduces two more behaviours of the source as written:

- **The separator check in `add_movies`.** It tests the name as given,
  but the split runs on the normalised name. Normalising `"a, ,b"` gives
  `"a,,b"`, which has no separator. The unpack then raises a `ValueError`
  that the import does not catch, so the whole import stops. See
  `Scenarios.LostSeparator` and `Scenarios.AddMoviesStopsOnLostSeparator`.
- **The duplicate key.** It joins the lower-cased title, the year, the
  lower-cased genre and the director id with no delimiter. Two different
  movies can therefore share a key (`Scenarios.KeyCollision`).

Files, one module each:

- `results.dfy`: `Option`, `Result` and the two errors.
- `text.dfy`: the Python string operations the source relies on.
  - `str.split()`, `' '.join`, `str.strip()` and `str.lower()`.
  - The name normalisation, and the split at `", "`.
  - `str(n)` for integers, and string order.
- `seqs.dfy`: subsequences.
- `sorting.dfy`: sorting by a total preorder.
- `counting.dfy`: grouped counts and their sums.
- `registry.dfy`: the directors table.
- `catalog.dfy`: the movies table, with `add_movie`, `add_movies`,
  `delete_movie`, `search_movies` and `export_data`.
- `statistics.dfy`: `generate_statistics`, `token_freq` and the top five
  directors.
- `scenarios.dfy`: concrete inputs that exhibit the behaviours above.

`Registry.Valid` and `Catalog.Valid` state the invariant of every table the
program builds:

- ids are positive and strictly increasing;
- no two directors share a lower-cased display form;
- no two movies share a duplicate key.

## Model

| member | source | states |
|---|---|---|
| Text.Join | moviedb.py:46 | `' '.join`: the strings with the separator between each two; what splitting it gives back is stated by Text.SplitJoined and Text.JoinSplitCollapsed, and that it adds only the separators by Text.JoinKeepsText |
| Text.DropBlankBeforeComma | moviedb.py:46 | the replacement of each blank-comma pair by the comma, scanning left to right; that it removes only blanks is stated by Text.DropKeepsText, that it changes nothing without such a pair by Text.DropIdentity, and what it makes of blank-joined words by Text.DropGlue |
| Text.Normalize | moviedb.py:46 | the normalised name has no leading or trailing whitespace, only single blanks as whitespace, and no blank before a comma |
| Text.NormalizeFixedPoints | moviedb.py:46 | a string is left unchanged by the normalisation exactly when it already has that form |
| Text.NormalizeIdempotent | moviedb.py:46 | normalising twice is normalising once |
| Text.JoinSplitCollapsed | moviedb.py:46 | a string whose only whitespace is single inner blanks is rebuilt by joining its tokens with blanks |
| Text.SplitName | moviedb.py:48 | the split at the first `", "` fails exactly when there is no separator; otherwise last name, separator and given name rebuild the string, and the last name holds no separator |
| Text.SplitNameInverts | moviedb.py:48 | splitting `last + ", " + given` gives back last and given name when the last name holds no separator |
| Text.Lower | moviedb.py:55 | `str.lower()` for ASCII letters, character by character; its properties are stated by Text.LowerKeepsSep, Text.LowerIdempotent and Text.SplitLower |
| Text.LowerKeepsSep | moviedb.py:55 | lower-casing neither creates nor destroys a `", "` separator |
| Text.LowerIdempotent | moviedb.py:55 | lower-casing twice is lower-casing once |
| Text.Strip | moviedb.py:80 | the stripped string is a slice of the input with only whitespace cut from both ends, and it neither starts nor ends with whitespace |
| Text.Split | moviedb.py:228 | every token is non-empty and free of whitespace (which tokens: the three lemmas below) |
| Text.SplitAroundSpace | moviedb.py:228 | a string cut at any whitespace character splits into the tokens of the part before followed by those of the part after |
| Text.SplitOfToken | moviedb.py:228 | a non-empty whitespace-free string is a single token |
| Text.SplitKeepsText | moviedb.py:228 | the tokens, written one after another, are exactly the non-whitespace characters of the input in order |
| Text.JoinKeepsText | moviedb.py:46 | joining tokens with blanks adds only whitespace |
| Text.DropKeepsText | moviedb.py:46 | replacing each blank-comma pair by the comma removes only blanks |
| Text.NormalizeKeepsText | moviedb.py:46 | the normalised name keeps every non-whitespace character of the input, in order |
| Text.NormalizeKeepsWords | moviedb.py:46 | when no word after the first starts with a comma, the normalised name is the input's words joined by single blanks, and it has exactly the input's words |
| Text.DropIdentity | moviedb.py:46 | a string with no blank before a comma is left unchanged by the replacement |
| Text.DropGlue | moviedb.py:46 | replacing each blank-comma pair in blank-joined words by the comma keeps one blank between two words and none before a word that starts with a comma |
| Text.NormalizeIsGlue | moviedb.py:46 | for every input, the normalised name is its words with one blank between two words and none before a word that starts with a comma |
| Text.SplitJoined | moviedb.py:228 | splitting a blank-joined list of strings gives the tokens of each string in turn |
| Text.SplitLower | moviedb.py:228 | splitting the lower-cased string gives the lower-cased tokens |
| Text.IntToStr | moviedb.py:70-72 | `str(n)`: a minus sign for a negative number, then the decimal digits, which Text.NatToStrRoundTrip reads back to the number |
| Text.NatToStrRoundTrip | moviedb.py:70-72 | reading back the decimal digits of a number gives the number |
| Text.StrLess | moviedb.py:209-210 | Python's `<` on strings, by code point with a proper prefix first; Text.StrLessTrichotomy and Text.StrLessTransitive make it a strict total order |
| Text.StrLessTrichotomy | moviedb.py:209-210 | Python's string order is total |
| Text.StrLessTransitive | moviedb.py:209-210 | Python's string order is transitive |
| Registry.AddDirector | moviedb.py:44-66 | raises the unpack error exactly when the normalised name has no separator; a name whose lower-cased form matches a director returns that director's id with the table unchanged; any other name appends exactly one director with id last id + 1 (1 on an empty table) whose display form is the normalised name; the table invariant is kept |
| Registry.IndexOfKey | moviedb.py:54-57 | the position of the first director whose lower-cased display form is the key, and none exactly when no director has it |
| Registry.AppendKeepsValid | moviedb.py:59-64 | appending a director with the next id and an unused key keeps ids increasing and keys distinct |
| Registry.NewDirector | moviedb.py:48-66 | an unmatched name appends the director split at the first separator, with the next id, and returns that id |
| Registry.ResolveAgain | moviedb.py:54-57 | resolving a name that matches, up to case and normalisation, the name just resolved returns the same id and leaves the table unchanged |
| Registry.AddDirectorIdempotent | moviedb.py:44-66 | resolving the same name twice is resolving it once |
| Registry.ResolvedDirectorMatches | moviedb.py:54-66 | the returned id belongs to a director of the resulting table whose key is the normalised, lower-cased name |
| Catalog.DupKey | moviedb.py:69-73 | lower-cased title, year, lower-cased genre and director id written one after another without delimiters; that equal records share it is stated by Catalog.SameRecordSameKey, that different ones can too by Scenarios.KeyCollision |
| Catalog.IsDup | moviedb.py:68-74 | some stored movie has the key; when `add_movie` raises because of it is stated by Catalog.AddMovie and Catalog.SecondAddIsDuplicate |
| Catalog.SameRecordSameKey | moviedb.py:68-74 | records equal up to the case of title and genre have the same duplicate key |
| Catalog.NextIdAboveAll | moviedb.py:89-90 | in a valid table the next id exceeds every stored id |
| Catalog.AppendKeepsValid | moviedb.py:86-91 | appending a movie with the next id and an unused key keeps the movie invariant |
| Catalog.AddMovie | moviedb.py:78-93 | the unpack error leaves the store unchanged; otherwise the resolved directors table is kept, and the call raises exactly when the trimmed record's key is already stored, leaving the movies unchanged; otherwise it appends exactly one movie with the next id and returns that id; validity is kept and the new id exceeds every stored id |
| Catalog.SecondAddIsDuplicate | moviedb.py:68-93 | adding a movie again, with title and genre equal up to case and surrounding whitespace and the same director name, raises |
| Catalog.RefusedWithNewDirector | moviedb.py:81-87 | when the movie is a duplicate, the call raises but keeps the director table as the lookup left it |
| Catalog.AddMovieAppends | moviedb.py:78-93 | whatever the outcome, the old movies are a prefix of the new table, and at most the one movie whose id is returned is appended |
| Catalog.Absorb | moviedb.py:103-119 | an iteration after the import raised changes nothing; what one iteration does to a running import is stated by Catalog.AbsorbAdvances |
| Catalog.AbsorbAdvances | moviedb.py:103-119 | one record yields one id or one warning, only the unpack error escapes, the ids returned are those of the appended rows, and validity is kept |
| Catalog.RunAdvances | moviedb.py:102-120 | the same holds for the loop over any list of records |
| Catalog.AddMovies | moviedb.py:95-120 | the import loop over the records numbered from 0; its outcome is stated by Catalog.AddMoviesOutcome, Catalog.AddMoviesFreshIds, Catalog.AddMoviesAt and Catalog.AddMoviesConcat |
| Catalog.AddMoviesOutcome | moviedb.py:95-120 | the ids plus the warnings number the records; only the unpack error escapes; movies are only appended and the returned ids are those of the appended rows, in input order; validity is kept |
| Catalog.AddMoviesFreshIds | moviedb.py:95-120 | on a valid store the returned ids increase and exceed every id stored before the import |
| Catalog.AddMoviesSingle | moviedb.py:103-118 | a malformed record changes nothing and is reported by its index; a well-formed one is added as by `add_movie`, and a duplicate is reported by its title |
| Catalog.AddMoviesAt | moviedb.py:102-120 | for the record at position `i` of an import that has not raised so far: a malformed record changes nothing and adds the warning for index `i`; a well-formed one is added as by `add_movie` to the tables the earlier records left, appending its id, or adding the duplicate warning with its title, or ending the import with the unpack error |
| Catalog.AddMoviesConcat | moviedb.py:102-120 | importing `a + b` is importing `a` and then `b` with the record numbers continued; once the import has raised, further records change nothing |
| Catalog.RemoveId | moviedb.py:126 | the kept rows are a subsequence of the table holding exactly the rows with another id |
| Catalog.DeleteMovie | moviedb.py:122-127 | raises exactly when no movie has the id; otherwise keeps the directors and exactly the other movies in order, removing one row from a valid table and keeping it valid |
| Catalog.RemoveKeepsValid | moviedb.py:126 | removing an id keeps the movie invariant, and removes exactly one row when the id is present |
| Catalog.DeleteTwiceFails | moviedb.py:122-126 | deleting an id again after a successful delete raises |
| Catalog.DeleteLastReissues | moviedb.py:89-90 | after the largest id is deleted, the next movie gets the id after the new last row, which is at most the deleted id |
| Catalog.MatchingIds | moviedb.py:143-146 | the result is a subsequence of the stored ids holding exactly the ids of the movies that pass every filter (on a table with distinct ids, such as every valid one, this fixes the list) |
| Catalog.SearchMovies | moviedb.py:129-146 | raises exactly when no filter is given; otherwise returns, in table order, exactly the ids of the movies whose title and genre equal the stripped, lower-cased query and whose year and director id equal the query's (a list fixed by this on a table with distinct ids, such as every valid one) |
| Catalog.NarrowingShrinks | moviedb.py:143-145 | a query with more filters returns a subsequence of the results |
| Catalog.SearchIncreasing | moviedb.py:146 | on a valid table the results come in increasing id order |
| Catalog.DeletedNotFound | moviedb.py:126 | a deleted movie turns up in no search |
| Catalog.LeftJoin | moviedb.py:150-151 | each join row pairs a stored movie with a director of the same id, or with none when no director has that id |
| Catalog.DirectorsWithUniqueId | moviedb.py:150-151 | in a valid directors table each id names at most one director |
| Catalog.LeftJoinOnePerMovie | moviedb.py:150-151 | with a valid directors table the join has exactly one row per movie, in table order |
| Catalog.SortedJoin | moviedb.py:150-154 | the join rows, permuted into increasing movie id order |
| Catalog.SortedJoinOfValid | moviedb.py:154 | on a valid store the join is already in id order, so sorting keeps it |
| Catalog.ExportData | moviedb.py:148-157 | at least as many rows as movies; on a valid store exactly one row per movie, in table order, with the title, year, genre and director names of that movie |
| Catalog.LeftJoinCovers | moviedb.py:150-151 | every movie has at least one join row |
| Catalog.ExportShowsEveryMovie | moviedb.py:148-157 | on any store, every movie's title, year and genre appear in some export row |
| Catalog.ExportShowsOnlyMovies | moviedb.py:148-157 | on any store, every export row shows the title, year and genre of a stored movie |
| Counting.CountByCounts | moviedb.py:229 | each count is the number of occurrences of its value, and is positive |
| Counting.CountBySum | moviedb.py:229 | the counts add up to the number of values counted |
| Statistics.YearCounts | moviedb.py:162 | the years counted are exactly the years of the stored movies |
| Statistics.YearCountsExact | moviedb.py:162 | the count of a year is the number of movies of that year |
| Statistics.YearCountsSum | moviedb.py:162 | the per-year counts add up to the number of movies |
| Statistics.GenreCounts | moviedb.py:164-166 | one entry per distinct stored genre, compared case-sensitively |
| Statistics.GenreCountsSum | moviedb.py:164-166 | a genre's per-year counts add up to the number of movies of that genre, which is positive |
| Statistics.DirectorCounts | moviedb.py:168-172 | one entry per distinct value of the join's director column; the missing director's entry is empty |
| Statistics.DirectorCountsSum | moviedb.py:170-172 | a director's per-year counts add up to the number of join rows naming that director |
| Statistics.GenerateStatistics | moviedb.py:159-177 | raises exactly for a name other than `'movie'`, `'genre'`, `'director'` and `'all'`; each of the first three names yields its own kind of statistic |
| Statistics.AllBundles | moviedb.py:173-175 | `'all'` holds exactly the three single statistics |
| Statistics.MovieStatisticSum | moviedb.py:161-162 | the `'movie'` counts add up to the number of stored movies |
| Statistics.TokenFreq | moviedb.py:226-229 | the keys are exactly the tokens of the lower-cased, blank-joined titles |
| Statistics.TokenFreqSum | moviedb.py:229 | the token counts add up to the number of tokens |
| Statistics.TokensPerTitle | moviedb.py:228 | the tokens are those of each title in turn, lower-cased: joining never merges or splits tokens |
| Statistics.TokenFreqKeys | moviedb.py:228-229 | every key is a whitespace-free, lower-case token |
| Statistics.Groups | moviedb.py:208-209 | one group per distinct (director, director id) pair of the join, each with the number of rows carrying it |
| Statistics.RanksAboveTotal | moviedb.py:209-210 | the plot order (count descending, then name, then id) is a total preorder |
| Statistics.RanksAboveAntisymmetric | moviedb.py:208-210 | two groups that each rank at or above the other agree on count, name and id, so different groups are never tied |
| Statistics.Ranking | moviedb.py:208-210 | the groups, permuted into plot order |
| Statistics.TopDirectors | moviedb.py:211 | min(5, number of groups) names |
| Statistics.TopDirectorsRanked | moviedb.py:208-211 | the names shown are those of the first groups in plot order, every group shown ranks at or above every group left out, and every group shown is a real group |
| Scenarios.KeyCollision | moviedb.py:69-72 | title "a1" of 2000 and title "a" of 12000, same genre and director, share a duplicate key |
| Scenarios.ExampleDirectors | moviedb.py:59-64 | with directors of ids 1 and 10, a new name receives id 11 |
| Scenarios.RefusedMovieKeepsNewDirectorExample | moviedb.py:81-87 | a movie refused as a duplicate still leaves its newly created director in the table |
| Scenarios.GapCollapsed | moviedb.py:46-48 | `"e,\t f"` normalises to `"e, f"`, whose split at the separator gives last name `"e"` and given name `"f"` |
| Scenarios.CommaWordGlued | moviedb.py:46-48 | `"e , f"` normalises to `"e, f"`: the blank before the comma goes and the blank after it stays, so the split gives `"e"` and `"f"` |
| Scenarios.LostSeparator | moviedb.py:46 | `"a, ,b"` contains the separator but its normalised form `"a,,b"` does not |
| Scenarios.AddMoviesStopsOnLostSeparator | moviedb.py:108-116 | a record with director `"a, ,b"` passes the import's checks, and the import then raises the unpack error with the store unchanged |

## Left out

- CSV persistence (`init_dirs`, `read_directors_csv`, `write_directors_csv`, every `read_csv`/`to_csv`): the store is two in-memory sequences, and reloading before each call is the identity. The derived `director` column is recomputed from the two name columns, never stored.
- Plotting: all of `plot_statistics` except the ranking of the director plot, because it is matplotlib output.
- Printing: the warnings of `add_movies` are returned as a list of skipped indices and titles instead of printed. When the import raises, the warnings so far are lost, as the printed lines cannot be taken back.
- Text.Split: its own ensures state only that the tokens are non-empty and whitespace-free; which tokens it returns (the maximal whitespace-free runs) is stated by Text.SplitAroundSpace, Text.SplitOfToken and Text.SplitKeepsText, to keep the function's contract cheap at every use.
- Text.Normalize: its own ensures state only the normal form of the result; which string it returns for every input (the words with one blank between two words and none before a word that starts with a comma) is stated by Text.NormalizeIsGlue, with Text.NormalizeKeepsText and Text.NormalizeKeepsWords, to keep the function's contract cheap at every use.
- Text.LowerChar: lower-cases ASCII letters only; full Unicode case mapping is not modelled.
- Text.IsSpace: is the fixed list of code points Python's `str.isspace()` accepts, without Unicode database lookups.
- pandas typing: dtype coercion (ids read back as floats after appending to an empty frame, years parsed from CSV), the deprecated `DataFrame.append`, and NaN produced by reading an empty name from CSV are not modelled. Ids and years are unbounded integers.
- Records of `add_movies` with keys that are not strings, or values of types outside `str`/`int`, are summarised as one `OtherValue` case. Comparing keys of mixed types in `sorted` (a `TypeError`) is not modelled.
- Statistics.Ranking: sorts by count, name and id. pandas sorts the grouped rows by name and id and then stably by count and name, which gives the same order.
- Catalog.SortedJoin: the order of join rows with equal movie id (one movie with two directors of the same id) is that of an insertion sort, not pandas' unstable quicksort; the directors table of a valid store never has two directors with one id.
- `search_movies` reads the movies back from CSV and lower-cases every text column; the model compares the lower-cased stored values directly.
- The unused `pickle` and `shutil` imports.
