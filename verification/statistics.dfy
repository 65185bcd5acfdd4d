/** `generate_statistics`, `token_freq`, and the rule that picks the five
    directors shown by the director plot. */
module Statistics {
  import opened Results
  import opened Text
  import opened Counting
  import Sorting
  import Seqs
  import Registry
  import opened Catalog

  // ---------------------------------------------------------------------------
  // Per-year counts
  // ---------------------------------------------------------------------------

  function Years(ms: seq<Movie>): (ys: seq<int>)
    ensures |ys| == |ms| && forall i :: 0 <= i < |ms| ==> ys[i] == ms[i].year
  {
    seq(|ms|, i requires 0 <= i < |ms| => ms[i].year)
  }

  /** The `'movie'` statistic: for each year that occurs, the number of
      movies of that year. */
  function YearCounts(ms: seq<Movie>): (m: map<int, nat>)
    ensures forall y :: y in m <==> exists i :: 0 <= i < |ms| && ms[i].year == y
  {
    var ys := Years(ms);
    assert forall y :: y in ys <==> exists i :: 0 <= i < |ms| && ms[i].year == y by {
      forall y
        ensures y in ys <==> exists i :: 0 <= i < |ms| && ms[i].year == y
      {
        if y in ys {
          var i :| 0 <= i < |ys| && ys[i] == y;
          assert ms[i].year == y;
        }
        if exists i :: 0 <= i < |ms| && ms[i].year == y {
          var i :| 0 <= i < |ms| && ms[i].year == y;
          assert ys[i] == y;
        }
      }
    }
    CountBy(ys)
  }

  /** The movies of year `y`, in table order. */
  function OfYear(ms: seq<Movie>, y: int): (r: seq<Movie>)
    ensures forall m :: m in r ==> m in ms && m.year == y
  {
    if |ms| == 0 then []
    else if ms[0].year == y then [ms[0]] + OfYear(ms[1..], y)
    else OfYear(ms[1..], y)
  }

  lemma {:induction false} YearsCount(ms: seq<Movie>, y: int)
    ensures multiset(Years(ms))[y] == |OfYear(ms, y)|
  {
    if |ms| > 0 {
      YearsCount(ms[1..], y);
      assert Years(ms) == [ms[0].year] + Years(ms[1..]);
    }
  }

  /** Each count is the number of movies of its year. */
  lemma YearCountsExact(ms: seq<Movie>, y: int)
    requires y in YearCounts(ms)
    ensures YearCounts(ms)[y] == |OfYear(ms, y)| > 0
  {
    CountByCounts(Years(ms));
    YearsCount(ms, y);
  }

  /** The per-year counts add up to the number of movies: the distinct
      years list each key once, and their counts sum to `|ms|`. */
  lemma YearCountsSum(ms: seq<Movie>)
    ensures ListsKeys(YearCounts(ms), Distinct(Years(ms)))
    ensures SumOver(YearCounts(ms), Distinct(Years(ms))) == |ms|
  {
    CountByKeys(Years(ms));
    CountBySum(Years(ms));
  }

  // ---------------------------------------------------------------------------
  // 'genre' and 'director'
  // ---------------------------------------------------------------------------

  /** The movies whose genre is exactly `g` (case-sensitive), in table
      order. */
  function OfGenre(ms: seq<Movie>, g: string): (r: seq<Movie>)
    ensures forall m :: m in r ==> m in ms && m.genre == g
    ensures (exists i :: 0 <= i < |ms| && ms[i].genre == g) ==> |r| > 0
  {
    if |ms| == 0 then []
    else if ms[0].genre == g then [ms[0]] + OfGenre(ms[1..], g)
    else
      assert forall i :: 1 <= i < |ms| ==> ms[i] == ms[1..][i - 1];
      OfGenre(ms[1..], g)
  }

  /** The `'genre'` statistic: one per-year count for every distinct stored
      genre. */
  function GenreCounts(ms: seq<Movie>): (m: map<string, map<int, nat>>)
    ensures forall g :: g in m <==> exists i :: 0 <= i < |ms| && ms[i].genre == g
  {
    var genres := set i | 0 <= i < |ms| :: ms[i].genre;
    map g | g in genres :: YearCounts(OfGenre(ms, g))
  }

  /** The counts of each genre add up to the number of movies of that
      genre, and no genre is listed without a movie. */
  lemma GenreCountsSum(ms: seq<Movie>, g: string)
    requires g in GenreCounts(ms)
    ensures |OfGenre(ms, g)| > 0
    ensures ListsKeys(GenreCounts(ms)[g], Distinct(Years(OfGenre(ms, g))))
    ensures SumOver(GenreCounts(ms)[g], Distinct(Years(OfGenre(ms, g)))) == |OfGenre(ms, g)|
  {
    YearCountsSum(OfGenre(ms, g));
  }

  /** The `director` column of a join row: the display name of its
      director, or pandas' missing value when the movie has none. */
  function DirectorName(row: Joined): Option<string> {
    match row.director
    case None => None
    case Some(d) => Some(Registry.Display(d))
  }

  /** The movies of the join rows whose director's display name is `name`. */
  function OfDirector(rows: seq<Joined>, name: string): (r: seq<Movie>)
    ensures |r| <= |rows|
  {
    if |rows| == 0 then []
    else if DirectorName(rows[0]) == Some(name) then [rows[0].movie] + OfDirector(rows[1..], name)
    else OfDirector(rows[1..], name)
  }

  /** The `'director'` statistic over the left join: one per-year count for
      every distinct value of the `director` column. The missing value never
      compares equal to itself, so its entry is empty. */
  function DirectorCounts(s: Store): (m: map<Option<string>, map<int, nat>>)
    ensures var rows := LeftJoin(s.movies, s.directors);
            forall n :: n in m <==> exists k :: 0 <= k < |rows| && DirectorName(rows[k]) == n
    ensures None in m ==> m[None] == map[]
  {
    var rows := LeftJoin(s.movies, s.directors);
    var names := set k | 0 <= k < |rows| :: DirectorName(rows[k]);
    map n | n in names ::
      match n
      case None => map[]
      case Some(name) => YearCounts(OfDirector(rows, name))
  }

  /** The counts of a director add up to the number of join rows naming
      that director. */
  lemma DirectorCountsSum(s: Store, name: string)
    requires Some(name) in DirectorCounts(s)
    ensures var rows := LeftJoin(s.movies, s.directors);
            SumOver(DirectorCounts(s)[Some(name)], Distinct(Years(OfDirector(rows, name))))
            == |OfDirector(rows, name)|
  {
    YearCountsSum(OfDirector(LeftJoin(s.movies, s.directors), name));
  }

  // ---------------------------------------------------------------------------
  // generate_statistics
  // ---------------------------------------------------------------------------

  datatype Statistic =
    | ByYear(counts: map<int, nat>)
    | ByGenre(genres: map<string, map<int, nat>>)
    | ByDirector(directors: map<Option<string>, map<int, nat>>)
    | All(movie: map<int, nat>, genre: map<string, map<int, nat>>,
          director: map<Option<string>, map<int, nat>>)

  /** `generate_statistics`: `'movie'`, `'genre'`, `'director'`, or `'all'`
      for the three together; any other name raises. */
  function GenerateStatistics(s: Store, name: string): (r: Result<Statistic>)
    ensures r.Err? <==> name !in {"movie", "genre", "director", "all"}
    ensures r.Err? ==> r.error == MovieDbError
    ensures r.Ok? ==> (r.value.ByYear? <==> name == "movie")
    ensures r.Ok? ==> (r.value.ByGenre? <==> name == "genre")
    ensures r.Ok? ==> (r.value.ByDirector? <==> name == "director")
  {
    if name == "movie" then Ok(ByYear(YearCounts(s.movies)))
    else if name == "genre" then Ok(ByGenre(GenreCounts(s.movies)))
    else if name == "director" then Ok(ByDirector(DirectorCounts(s)))
    else if name == "all" then Ok(All(YearCounts(s.movies), GenreCounts(s.movies), DirectorCounts(s)))
    else Err(MovieDbError)
  }

  /** `'all'` bundles exactly what the three single statistics return. */
  lemma AllBundles(s: Store)
    ensures GenerateStatistics(s, "all").Ok?
    ensures var all := GenerateStatistics(s, "all").value;
            && GenerateStatistics(s, "movie") == Ok(ByYear(all.movie))
            && GenerateStatistics(s, "genre") == Ok(ByGenre(all.genre))
            && GenerateStatistics(s, "director") == Ok(ByDirector(all.director))
  {
  }

  /** The `'movie'` counts add up to the number of stored movies. */
  lemma MovieStatisticSum(s: Store)
    ensures GenerateStatistics(s, "movie").Ok?
    ensures var m := GenerateStatistics(s, "movie").value.counts;
            ListsKeys(m, Distinct(Years(s.movies))) && SumOver(m, Distinct(Years(s.movies))) == |s.movies|
  {
    YearCountsSum(s.movies);
  }

  // ---------------------------------------------------------------------------
  // token_freq
  // ---------------------------------------------------------------------------

  function Titles(ms: seq<Movie>): seq<string> {
    seq(|ms|, i requires 0 <= i < |ms| => ms[i].title)
  }

  /** The whitespace-separated words of all titles joined by blanks and
      lower-cased. */
  function Tokens(ms: seq<Movie>): seq<string> {
    Split(Lower(Join(" ", Titles(ms))))
  }

  /** `token_freq`: how often each token occurs. */
  function TokenFreq(s: Store): (m: map<string, nat>)
    ensures forall k :: k in m <==> k in Tokens(s.movies)
  {
    CountBy(Tokens(s.movies))
  }

  /** The token counts add up to the number of tokens. */
  lemma TokenFreqSum(s: Store)
    ensures ListsKeys(TokenFreq(s), Distinct(Tokens(s.movies)))
    ensures SumOver(TokenFreq(s), Distinct(Tokens(s.movies))) == |Tokens(s.movies)|
  {
    CountByKeys(Tokens(s.movies));
    CountBySum(Tokens(s.movies));
  }

  /** Joining the titles with blanks neither merges nor splits tokens: the
      tokens are those of each title in turn, lower-cased. */
  lemma TokensPerTitle(ms: seq<Movie>)
    ensures Tokens(ms) == MapLower(SplitEach(Titles(ms)))
  {
    SplitLower(Join(" ", Titles(ms)));
    SplitJoined(Titles(ms));
  }

  /** Every key of `token_freq` is a lower-case token. */
  lemma TokenFreqKeys(s: Store, k: string)
    requires k in TokenFreq(s)
    ensures IsToken(k) && Lower(k) == k
  {
    var ws := SplitEach(Titles(s.movies));
    TokensPerTitle(s.movies);
    var i :| 0 <= i < |Tokens(s.movies)| && Tokens(s.movies)[i] == k;
    MapLowerAt(ws, i);
    LowerIdempotent(ws[i]);
  }

  lemma {:induction false} MapLowerAt(ws: seq<string>, i: nat)
    requires i < |ws|
    ensures MapLower(ws)[i] == Lower(ws[i])
  {
    if i > 0 {
      MapLowerAt(ws[1..], i - 1);
    }
  }

  // ---------------------------------------------------------------------------
  // The five directors of the director plot
  // ---------------------------------------------------------------------------

  /** A director group of the plot: a display name and director id, with
      the number of join rows that carry both. */
  datatype Group = Group(name: string, id: int, count: nat)

  /** The display name and director id of each join row that has a
      director; rows without one are dropped by the grouping. */
  function GroupKeys(rows: seq<Joined>): seq<(string, int)> {
    if |rows| == 0 then []
    else
      match rows[0].director
      case None => GroupKeys(rows[1..])
      case Some(d) => [(Registry.Display(d), rows[0].movie.directorId)] + GroupKeys(rows[1..])
  }

  /** One group per distinct key, with the number of rows carrying it. */
  function Groups(s: Store): (gs: seq<Group>)
    ensures forall i :: 0 <= i < |gs| ==> (gs[i].name, gs[i].id) in GroupKeys(LeftJoin(s.movies, s.directors))
    ensures forall i :: 0 <= i < |gs| ==>
              gs[i].count == multiset(GroupKeys(LeftJoin(s.movies, s.directors)))[(gs[i].name, gs[i].id)] > 0
    ensures forall i, j :: 0 <= i < j < |gs| ==> (gs[i].name, gs[i].id) != (gs[j].name, gs[j].id)
    ensures forall key :: key in GroupKeys(LeftJoin(s.movies, s.directors)) ==>
              exists i :: 0 <= i < |gs| && (gs[i].name, gs[i].id) == key
  {
    var keys := GroupKeys(LeftJoin(s.movies, s.directors));
    var ks := Distinct(keys);
    var gs := seq(|ks|, i requires 0 <= i < |ks| => Group(ks[i].0, ks[i].1, multiset(keys)[ks[i]]));
    assert forall key :: key in keys ==> exists i :: 0 <= i < |gs| && (gs[i].name, gs[i].id) == key by {
      forall key | key in keys
        ensures exists i :: 0 <= i < |gs| && (gs[i].name, gs[i].id) == key
      {
        var i :| 0 <= i < |ks| && ks[i] == key;
        assert (gs[i].name, gs[i].id) == key;
      }
    }
    gs
  }

  /** The plot order: the grouping leaves the groups ordered by name and id,
      and the stable sort by descending count and ascending name keeps that
      order among ties, so more movies come first, then the smaller name,
      then the smaller id. */
  predicate RanksAbove(a: Group, b: Group) {
    || a.count > b.count
    || (a.count == b.count && (StrLess(a.name, b.name) || (a.name == b.name && a.id <= b.id)))
  }

  lemma RanksAboveTotal()
    ensures Sorting.TotalPreorder(RanksAbove)
  {
    forall a: Group, b: Group
      ensures RanksAbove(a, b) || RanksAbove(b, a)
    {
      StrLessTrichotomy(a.name, b.name);
    }
    forall a: Group, b: Group, c: Group | RanksAbove(a, b) && RanksAbove(b, c)
      ensures RanksAbove(a, c)
    {
      if a.count == b.count == c.count {
        if StrLess(a.name, b.name) && StrLess(b.name, c.name) {
          StrLessTransitive(a.name, b.name, c.name);
        }
      }
    }
  }

  /** Two groups that rank above each other agree on count, name and id:
      the order leaves no tie between different groups, so which five are
      shown does not depend on the order the sort meets them in. */
  lemma RanksAboveAntisymmetric(a: Group, b: Group)
    requires RanksAbove(a, b) && RanksAbove(b, a)
    ensures a.count == b.count && a.name == b.name && a.id == b.id
  {
    StrLessAsymmetric(a.name, b.name);
    StrLessIrreflexive(a.name);
  }

  /** The groups in plot order. */
  function Ranking(s: Store): (r: seq<Group>)
    ensures Seqs.Pairwise(RanksAbove, r)
    ensures multiset(r) == multiset(Groups(s))
  {
    RanksAboveTotal();
    Sorting.SortIsSorted(RanksAbove, Groups(s));
    Sorting.InsertionSort(RanksAbove, Groups(s))
  }

  function Min(a: int, b: int): int {
    if a <= b then a else b
  }

  /** The names of the first five groups in plot order (all of them when
      there are fewer). */
  function TopDirectors(s: Store): (names: seq<string>)
    ensures |names| == Min(5, |Groups(s)|)
  {
    var r := Ranking(s);
    assert |r| == |Groups(s)| by {
      assert |multiset(r)| == |multiset(Groups(s))|;
    }
    var k := Min(5, |r|);
    seq(k, i requires 0 <= i < k => r[i].name)
  }

  /** Every name shown is that of a director of some movie, and every group
      left out ranks below each group shown. */
  lemma TopDirectorsRanked(s: Store)
    ensures var r := Ranking(s);
            var k := |TopDirectors(s)|;
            && k <= |r|
            && (forall i :: 0 <= i < k ==> TopDirectors(s)[i] == r[i].name)
            && (forall i, j :: 0 <= i < k <= j < |r| ==> RanksAbove(r[i], r[j]))
            && (forall i :: 0 <= i < k ==> r[i] in Groups(s))
  {
    var r := Ranking(s);
    assert |multiset(r)| == |multiset(Groups(s))|;
    forall i | 0 <= i < |r|
      ensures r[i] in Groups(s)
    {
      assert r[i] in multiset(r);
    }
  }
}
