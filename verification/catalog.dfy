/** The movies table and the operations on it: `add_movie`, `add_movies`,
    `delete_movie`, `search_movies` and `export_data`. */
module Catalog {
  import opened Results
  import opened Text
  import opened Seqs
  import Sorting
  import Registry

  /** A row of the movies table. */
  datatype Movie = Movie(id: int, title: string, year: int, genre: string, directorId: int)

  /** Both tables, in file order. */
  datatype Store = Store(movies: seq<Movie>, directors: seq<Registry.Director>)

  /** The tables as an operation leaves them (whether or not it raised),
      and what it returned or raised. */
  datatype Step<T> = Step(store: Store, result: Result<T>)

  function Ids(ms: seq<Movie>): (r: seq<int>)
    ensures |r| == |ms|
    ensures forall i :: 0 <= i < |ms| ==> r[i] == ms[i].id
  {
    if |ms| == 0 then [] else [ms[0].id] + Ids(ms[1..])
  }

  // ---------------------------------------------------------------------------
  // Duplicate key and invariants
  // ---------------------------------------------------------------------------

  /** The duplicate-detection key: lower-cased title, year, lower-cased genre
      and director id, printed and concatenated without any delimiter. */
  function DupKey(title: string, year: int, genre: string, directorId: int): string {
    Lower(title) + IntToStr(year) + Lower(genre) + IntToStr(directorId)
  }

  function KeyOf(m: Movie): string {
    DupKey(m.title, m.year, m.genre, m.directorId)
  }

  /** Some stored movie has duplicate key `key`. */
  predicate IsDup(ms: seq<Movie>, key: string) {
    exists i :: 0 <= i < |ms| && KeyOf(ms[i]) == key
  }

  /** The id a new movie receives: one more than the last row's, or 1 for an
      empty table. */
  function NextId(ms: seq<Movie>): int {
    if |ms| == 0 then 1 else ms[|ms| - 1].id + 1
  }

  /** What every reachable movies table satisfies: positive ids in strictly
      increasing order, and pairwise distinct duplicate keys. */
  predicate ValidMovies(ms: seq<Movie>) {
    && (forall i :: 0 <= i < |ms| ==> ms[i].id >= 1)
    && (forall i, j :: 0 <= i < j < |ms| ==> ms[i].id < ms[j].id)
    && (forall i, j {:trigger KeyOf(ms[i]), KeyOf(ms[j])} :: 0 <= i < j < |ms| ==> KeyOf(ms[i]) != KeyOf(ms[j]))
  }

  predicate Valid(s: Store) {
    ValidMovies(s.movies) && Registry.Valid(s.directors)
  }

  /** On a valid table the next id is positive and above every stored id. */
  lemma NextIdAboveAll(ms: seq<Movie>)
    requires ValidMovies(ms)
    ensures NextId(ms) >= 1
    ensures forall i :: 0 <= i < |ms| ==> ms[i].id < NextId(ms)
  {
    forall i | 0 <= i < |ms| - 1
      ensures ms[i].id < NextId(ms)
    {
      assert ms[i].id < ms[|ms| - 1].id;
    }
  }

  /** Appending a movie with the next id and a new key keeps the table valid. */
  lemma AppendKeepsValid(ms: seq<Movie>, m: Movie)
    requires ValidMovies(ms)
    requires m.id == NextId(ms)
    requires !IsDup(ms, KeyOf(m))
    ensures ValidMovies(ms + [m])
  {
    NextIdAboveAll(ms);
    var ms' := ms + [m];
    forall i, j | 0 <= i < j < |ms'|
      ensures ms'[i].id < ms'[j].id && KeyOf(ms'[i]) != KeyOf(ms'[j])
    {
      if j == |ms| {
        assert ms'[i] == ms[i];
      }
    }
  }

  /** Equal records have equal keys; the key does not, however, tell records
      apart, since the concatenation has no delimiters (see
      `Scenarios.KeyCollision`). */
  lemma SameRecordSameKey(a: Movie, b: Movie)
    requires Lower(a.title) == Lower(b.title) && a.year == b.year
    requires Lower(a.genre) == Lower(b.genre) && a.directorId == b.directorId
    ensures KeyOf(a) == KeyOf(b)
  {
  }

  // ---------------------------------------------------------------------------
  // add_movie
  // ---------------------------------------------------------------------------

  /** `add_movie`: trim title and genre, resolve the director (which is
      stored at once), then refuse the movie if its key is already in the
      table, else append it with the next id and return that id. */
  function AddMovie(s: Store, title: string, year: int, genre: string, director: string): (out: Step<int>)
    ensures !ContainsSep(Normalize(director)) ==> out == Step(s, Err(UnpackError))
    ensures ContainsSep(Normalize(director)) ==>
              var res := Registry.AddDirector(s.directors, director).value;
              var key := DupKey(Strip(title), year, Strip(genre), res.id);
              && out.store.directors == res.directors
              && (out.result.Err? <==> IsDup(s.movies, key))
              && (out.result.Err? ==> out.result.error == MovieDbError && out.store.movies == s.movies)
              && (out.result.Ok? ==>
                    && out.result.value == NextId(s.movies)
                    && out.store.movies == s.movies + [Movie(out.result.value, Strip(title), year, Strip(genre), res.id)])
    ensures Valid(s) ==> Valid(out.store)
    ensures Valid(s) && out.result.Ok? ==>
              out.result.value >= 1 && forall i :: 0 <= i < |s.movies| ==> s.movies[i].id < out.result.value
  {
    match Registry.AddDirector(s.directors, director)
    case Err(e) => Step(s, Err(e))
    case Ok(res) =>
      var s1 := s.(directors := res.directors);
      var m := Movie(NextId(s.movies), Strip(title), year, Strip(genre), res.id);
      if |s.movies| == 0 then
        Step(s1.(movies := [m]), Ok(m.id))
      else if IsDup(s.movies, KeyOf(m)) then
        Step(s1, Err(MovieDbError))
      else
        assert Valid(s) ==> ValidMovies(s.movies + [m]) by {
          if Valid(s) {
            AppendKeepsValid(s.movies, m);
          }
        }
        assert Valid(s) ==> forall i :: 0 <= i < |s.movies| ==> s.movies[i].id < m.id by {
          if Valid(s) {
            NextIdAboveAll(s.movies);
          }
        }
        Step(s1.(movies := s.movies + [m]), Ok(m.id))
  }

  /** Adding a movie a second time, with title and genre equal up to case and
      surrounding whitespace and the same director name, raises. */
  lemma SecondAddIsDuplicate(s: Store, title: string, year: int, genre: string, director: string,
                             title': string, genre': string)
    requires AddMovie(s, title, year, genre, director).result.Ok?
    requires Lower(Strip(title')) == Lower(Strip(title))
    requires Lower(Strip(genre')) == Lower(Strip(genre))
    ensures AddMovie(AddMovie(s, title, year, genre, director).store, title', year, genre', director).result
            == Err(MovieDbError)
  {
    var first := AddMovie(s, title, year, genre, director);
    var s1 := first.store;
    var res := Registry.AddDirector(s.directors, director).value;
    Registry.AddDirectorIdempotent(s.directors, director);
    assert Registry.AddDirector(s1.directors, director).value == res;
    var m := s1.movies[|s1.movies| - 1];
    SameRecordSameKey(m, Movie(m.id, Strip(title'), year, Strip(genre'), res.id));
    assert IsDup(s1.movies, DupKey(Strip(title'), year, Strip(genre'), res.id));
  }

  /** A director created while adding a movie stays in the table even when
      the movie is then refused as a duplicate. */
  lemma RefusedWithNewDirector(s: Store, title: string, year: int, genre: string, director: string,
                               res: Registry.Resolution)
    requires Registry.AddDirector(s.directors, director) == Ok(res)
    requires IsDup(s.movies, DupKey(Strip(title), year, Strip(genre), res.id))
    ensures AddMovie(s, title, year, genre, director) == Step(s.(directors := res.directors), Err(MovieDbError))
  {
  }

  // ---------------------------------------------------------------------------
  // add_movies
  // ---------------------------------------------------------------------------

  /** A Python value held in an input record. `OtherValue` stands for every
      value that is neither exactly a `str` nor exactly an `int` (a `bool`,
      a `float`, `None`, ...). */
  datatype Value = StrValue(s: string) | IntValue(i: int) | OtherValue

  /** An input record of the bulk import: a dictionary keyed by field name. */
  type Record = map<string, Value>

  const Fields: set<string> := {"director", "genre", "title", "year"}

  /** The three checks of the bulk import: exactly the four fields, of types
      `str, str, str, int`, and a director containing `", "` as given. */
  predicate WellFormed(r: Record) {
    && r.Keys == Fields
    && r["title"].StrValue? && r["genre"].StrValue? && r["director"].StrValue?
    && r["year"].IntValue?
    && ContainsSep(r["director"].s)
  }

  /** The warning printed for a skipped record. */
  datatype Warning = Invalid(index: nat) | AlreadyStored(title: string)

  /** What a bulk import returns (the new ids) and prints (the warnings). */
  datatype Report = Report(ids: seq<int>, warnings: seq<Warning>)

  /** The running result of the import: the tables so far and either the
      ids and warnings so far or the exception that ended the loop. */
  function Start(s: Store): Step<Report> {
    Step(s, Ok(Report([], [])))
  }

  /** One iteration of the import loop, for the record numbered `index`: a
      malformed record is skipped with a warning naming its index, a
      duplicate with a warning naming its title; a director whose separator
      the normalisation removed raises the uncaught `ValueError`, which ends
      the loop with the tables as they are. */
  function Absorb(acc: Step<Report>, r: Record, index: nat): (out: Step<Report>)
    ensures acc.result.Err? ==> out == acc
  {
    match acc.result
    case Err(_) => acc
    case Ok(rep) =>
      if !WellFormed(r) then
        Step(acc.store, Ok(Report(rep.ids, rep.warnings + [Invalid(index)])))
      else
        var one := AddMovie(acc.store, r["title"].s, r["year"].i, r["genre"].s, r["director"].s);
        match one.result
        case Err(UnpackError) => Step(one.store, Err(UnpackError))
        case Err(MovieDbError) => Step(one.store, Ok(Report(rep.ids, rep.warnings + [AlreadyStored(r["title"].s)])))
        case Ok(id) => Step(one.store, Ok(Report(rep.ids + [id], rep.warnings)))
  }

  /** What the loop keeps from one iteration to the next: the only exception
      is the `ValueError`; every record yields an id or a warning; movies are
      only appended, and the ids returned are those of the appended rows; the
      tables stay valid. */
  predicate Advances(acc: Step<Report>, out: Step<Report>, count: nat) {
    && (out.result.Err? && acc.result.Ok? ==> out.result.error == UnpackError)
    && (out.result.Ok? ==> acc.result.Ok?)
    && (out.result.Ok? ==>
          |out.result.value.ids| + |out.result.value.warnings|
          == |acc.result.value.ids| + |acc.result.value.warnings| + count)
    && |acc.store.movies| <= |out.store.movies|
    && out.store.movies[..|acc.store.movies|] == acc.store.movies
    && (out.result.Ok? ==>
          out.result.value.ids == acc.result.value.ids + Ids(out.store.movies[|acc.store.movies|..]))
    && (Valid(acc.store) ==> Valid(out.store))
  }

  lemma AbsorbAdvances(acc: Step<Report>, r: Record, index: nat)
    requires acc.result.Ok?
    ensures Advances(acc, Absorb(acc, r, index), 1)
  {
    if WellFormed(r) {
      var s := acc.store;
      var one := AddMovie(s, r["title"].s, r["year"].i, r["genre"].s, r["director"].s);
      AddMovieAppends(s, r["title"].s, r["year"].i, r["genre"].s, r["director"].s);
      if one.result.Ok? {
        assert one.store.movies[|s.movies|..] == [one.store.movies[|s.movies|]];
      } else {
        assert one.store.movies[|s.movies|..] == [];
      }
    } else {
      assert acc.store.movies[|acc.store.movies|..] == [];
    }
  }

  /** Whatever the outcome, `add_movie` only ever appends the one movie
      whose id it returns. */
  lemma AddMovieAppends(s: Store, title: string, year: int, genre: string, director: string)
    ensures var out := AddMovie(s, title, year, genre, director);
            && |s.movies| <= |out.store.movies|
            && out.store.movies[..|s.movies|] == s.movies
            && (out.result.Ok? ==>
                  |out.store.movies| == |s.movies| + 1 && out.store.movies[|s.movies|].id == out.result.value)
            && (out.result.Err? ==> out.store.movies == s.movies)
  {
    var out := AddMovie(s, title, year, genre, director);
    if out.result.Ok? {
      assert ContainsSep(Normalize(director));
      assert (s.movies + [out.store.movies[|s.movies|]])[..|s.movies|] == s.movies;
    } else {
      assert out.store.movies[..|s.movies|] == s.movies[..|s.movies|] == s.movies;
    }
  }

  /** The ids of a run of rows split at `j`. */
  lemma {:induction false} IdsSplit(ms: seq<Movie>, i: nat, j: nat)
    requires i <= j <= |ms|
    ensures Ids(ms[i..]) == Ids(ms[i..j]) + Ids(ms[j..])
  {
    var l, r := Ids(ms[i..j]), Ids(ms[j..]);
    assert forall k :: 0 <= k < |ms| - i ==> Ids(ms[i..])[k] == ms[i + k].id == (l + r)[k];
  }

  lemma Assoc<T>(x: seq<T>, y: seq<T>, z: seq<T>)
    ensures (x + y) + z == x + (y + z)
  {
  }

  /** The ids of rows appended in two stages are the ids of each stage. */
  lemma IdsCompose(ia: seq<int>, ib: seq<int>, ic: seq<int>, ma: seq<Movie>, mb: seq<Movie>, mc: seq<Movie>)
    requires |ma| <= |mb| <= |mc|
    requires mc[..|mb|] == mb && mb[..|ma|] == ma
    requires ib == ia + Ids(mb[|ma|..])
    requires ic == ib + Ids(mc[|mb|..])
    ensures ic == ia + Ids(mc[|ma|..])
  {
    var n0, n1 := |ma|, |mb|;
    IdsSplit(mc, n0, n1);
    assert mc[n0..n1] == mb[n0..];
    Assoc(ia, Ids(mb[n0..]), Ids(mc[n1..]));
  }

  /** Two iterations advance as far as their sum. */
  lemma AdvancesTrans(a: Step<Report>, b: Step<Report>, c: Step<Report>, m: nat, n: nat)
    requires Advances(a, b, m) && Advances(b, c, n)
    requires b.result.Err? ==> c == b
    ensures Advances(a, c, m + n)
  {
    var ma, mb, mc := a.store.movies, b.store.movies, c.store.movies;
    assert mc[..|ma|] == mc[..|mb|][..|ma|] == mb[..|ma|] == ma;
    if c.result.Ok? {
      IdsCompose(a.result.value.ids, b.result.value.ids, c.result.value.ids, ma, mb, mc);
    }
  }

  /** The import loop over `recs`, numbered from `index`. */
  function Run(acc: Step<Report>, recs: seq<Record>, index: nat): (out: Step<Report>)
    ensures acc.result.Err? ==> out == acc
    decreases |recs|
  {
    if |recs| == 0 then acc
    else Run(Absorb(acc, recs[0], index), recs[1..], index + 1)
  }

  lemma {:induction false} RunAdvances(acc: Step<Report>, recs: seq<Record>, index: nat)
    requires acc.result.Ok?
    ensures Advances(acc, Run(acc, recs, index), |recs|)
    decreases |recs|
  {
    if |recs| == 0 {
      assert acc.store.movies[|acc.store.movies|..] == [];
    } else {
      var next := Absorb(acc, recs[0], index);
      AbsorbAdvances(acc, recs[0], index);
      if next.result.Ok? {
        RunAdvances(next, recs[1..], index + 1);
      }
      AdvancesTrans(acc, next, Run(next, recs[1..], index + 1), 1, |recs| - 1);
    }
  }

  /** `add_movies`: the records are numbered from 0. */
  function AddMovies(s: Store, recs: seq<Record>): Step<Report> {
    Run(Start(s), recs, 0)
  }

  /** The outcome of `add_movies`: only the `ValueError` escapes; every
      record yields an id or a warning; movies are only appended, the ids
      returned are those of the appended rows, and the tables stay valid. */
  lemma AddMoviesOutcome(s: Store, recs: seq<Record>)
    ensures var out := AddMovies(s, recs);
            && (out.result.Ok? ==> |out.result.value.ids| + |out.result.value.warnings| == |recs|)
            && (out.result.Err? ==> out.result.error == UnpackError)
            && |s.movies| <= |out.store.movies| && out.store.movies[..|s.movies|] == s.movies
            && (out.result.Ok? ==> out.result.value.ids == Ids(out.store.movies[|s.movies|..]))
            && (Valid(s) ==> Valid(out.store))
  {
    RunAdvances(Start(s), recs, 0);
  }

  /** On a valid store the returned ids are increasing and above every id
      stored before the import. */
  lemma AddMoviesFreshIds(s: Store, recs: seq<Record>)
    requires Valid(s)
    requires AddMovies(s, recs).result.Ok?
    ensures var ids := AddMovies(s, recs).result.value.ids;
            && (forall i, j :: 0 <= i < j < |ids| ==> ids[i] < ids[j])
            && (forall i, k :: 0 <= i < |ids| && 0 <= k < |s.movies| ==> s.movies[k].id < ids[i])
  {
    AddMoviesOutcome(s, recs);
    var out := AddMovies(s, recs);
    AppendedIds(s.movies, out.store.movies, out.result.value.ids);
  }

  /** The ids of the rows appended to a table that stays valid increase and
      lie above the ids of the rows before them. */
  lemma AppendedIds(before: seq<Movie>, ms: seq<Movie>, ids: seq<int>)
    requires ValidMovies(ms)
    requires |before| <= |ms| && ms[..|before|] == before
    requires ids == Ids(ms[|before|..])
    ensures forall i, j :: 0 <= i < j < |ids| ==> ids[i] < ids[j]
    ensures forall i, k :: 0 <= i < |ids| && 0 <= k < |before| ==> before[k].id < ids[i]
  {
    var n := |before|;
    assert forall i :: 0 <= i < |ids| ==> ids[i] == ms[n + i].id;
    assert forall k :: 0 <= k < n ==> ms[k] == before[k];
  }

  /** The loop over a concatenation is the loop over the second part run
      from where the loop over the first part stopped. */
  lemma {:induction false} RunConcat(acc: Step<Report>, a: seq<Record>, b: seq<Record>, index: nat)
    ensures Run(acc, a + b, index) == Run(Run(acc, a, index), b, index + |a|)
    decreases |a|
  {
    if |a| == 0 {
      assert a + b == b;
    } else {
      assert (a + b)[0] == a[0];
      assert (a + b)[1..] == a[1..] + b;
      RunConcat(Absorb(acc, a[0], index), a[1..], b, index + 1);
    }
  }

  /** Importing a list in two calls, the second numbering its records from
      the length of the first, is importing it in one; an import that raised
      stays raised. */
  lemma AddMoviesConcat(s: Store, a: seq<Record>, b: seq<Record>)
    ensures AddMovies(s, a + b) == Run(AddMovies(s, a), b, |a|)
    ensures AddMovies(s, a).result.Err? ==> AddMovies(s, a + b) == AddMovies(s, a)
  {
    RunConcat(Start(s), a, b, 0);
  }

  /** A single record: a malformed one changes nothing and is reported by
      index; a well-formed one is added as by `add_movie`. */
  lemma AddMoviesSingle(s: Store, r: Record)
    ensures !WellFormed(r) ==> AddMovies(s, [r]) == Step(s, Ok(Report([], [Invalid(0)])))
    ensures WellFormed(r) ==>
              var one := AddMovie(s, r["title"].s, r["year"].i, r["genre"].s, r["director"].s);
              var out := AddMovies(s, [r]);
              && out.store == one.store
              && (one.result == Err(UnpackError) ==> out.result == Err(UnpackError))
              && (one.result == Err(MovieDbError) ==> out.result == Ok(Report([], [AlreadyStored(r["title"].s)])))
              && (one.result.Ok? ==> out.result == Ok(Report([one.result.value], [])))
  {
    assert [r][0] == r;
    assert [r][1..] == [];
    assert AddMovies(s, [r]) == Run(Absorb(Start(s), r, 0), [], 1) == Absorb(Start(s), r, 0);
    if WellFormed(r) {
      var one := AddMovie(s, r["title"].s, r["year"].i, r["genre"].s, r["director"].s);
      if one.result.Ok? {
        assert [] + [one.result.value] == [one.result.value];
      } else {
        assert [] + [AlreadyStored(r["title"].s)] == [AlreadyStored(r["title"].s)];
      }
    } else {
      assert [] + [Invalid(0)] == [Invalid(0)];
    }
  }

  /** The record at position `|a|` of an import that has not raised so far:
      a malformed one changes nothing and is reported by that position; a
      well-formed one is added as by `add_movie` to the tables the earlier
      records left, its id appended to theirs or its title reported when it
      is a duplicate, and the unpack error ends the import. */
  lemma AddMoviesAt(s: Store, a: seq<Record>, r: Record)
    requires AddMovies(s, a).result.Ok?
    ensures var before := AddMovies(s, a);
            var rep := before.result.value;
            !WellFormed(r) ==>
              AddMovies(s, a + [r]) == Step(before.store, Ok(Report(rep.ids, rep.warnings + [Invalid(|a|)])))
    ensures var before := AddMovies(s, a);
            var rep := before.result.value;
            WellFormed(r) ==>
              var one := AddMovie(before.store, r["title"].s, r["year"].i, r["genre"].s, r["director"].s);
              var out := AddMovies(s, a + [r]);
              && out.store == one.store
              && (one.result == Err(UnpackError) ==> out.result == Err(UnpackError))
              && (one.result == Err(MovieDbError) ==>
                    out.result == Ok(Report(rep.ids, rep.warnings + [AlreadyStored(r["title"].s)])))
              && (one.result.Ok? ==> out.result == Ok(Report(rep.ids + [one.result.value], rep.warnings)))
  {
    AddMoviesConcat(s, a, [r]);
    assert [r][0] == r;
    assert [r][1..] == [];
  }

  // ---------------------------------------------------------------------------
  // delete_movie
  // ---------------------------------------------------------------------------

  /** The rows whose id is not `id`, in their order. */
  function RemoveId(ms: seq<Movie>, id: int): (r: seq<Movie>)
    ensures IsSubsequence(r, ms)
    ensures forall m :: m in r <==> m in ms && m.id != id
  {
    if |ms| == 0 then []
    else
      assert forall m :: m in ms <==> m == ms[0] || m in ms[1..];
      var rest := RemoveId(ms[1..], id);
      if ms[0].id == id then rest else [ms[0]] + rest
  }

  /** Some stored movie has id `id`. */
  predicate HasId(ms: seq<Movie>, id: int) {
    exists i :: 0 <= i < |ms| && ms[i].id == id
  }

  /** `delete_movie`: raise if no movie has the id, else keep the others. */
  function DeleteMovie(s: Store, id: int): (r: Result<Store>)
    ensures r.Err? <==> !HasId(s.movies, id)
    ensures r.Err? ==> r.error == MovieDbError
    ensures r.Ok? ==> r.value.directors == s.directors && r.value.movies == RemoveId(s.movies, id)
    ensures r.Ok? && Valid(s) ==> Valid(r.value) && |r.value.movies| == |s.movies| - 1
  {
    if !HasId(s.movies, id) then Err(MovieDbError)
    else
      var ms := RemoveId(s.movies, id);
      assert Valid(s) ==> ValidMovies(ms) && |ms| == |s.movies| - 1 by {
        if Valid(s) {
          RemoveKeepsValid(s.movies, id);
        }
      }
      Ok(Store(ms, s.directors))
  }

  ghost predicate InOrder(a: Movie, b: Movie) {
    a.id < b.id && KeyOf(a) != KeyOf(b)
  }

  /** Removing an id from a valid table keeps it valid, and removes exactly
      one row when the id is present. */
  lemma {:induction false} RemoveKeepsValid(ms: seq<Movie>, id: int)
    requires ValidMovies(ms)
    ensures ValidMovies(RemoveId(ms, id))
    ensures |RemoveId(ms, id)| == if HasId(ms, id) then |ms| - 1 else |ms|
  {
    var r := RemoveId(ms, id);
    assert Pairwise(InOrder, ms);
    SubsequenceKeepsPairwise(InOrder, r, ms);
    SubsequenceMembers(r, ms);
    forall i | 0 <= i < |r|
      ensures r[i].id >= 1
    {
      assert r[i] in ms;
    }
    RemoveCount(ms, id);
  }

  lemma {:induction false} RemoveCount(ms: seq<Movie>, id: int)
    requires ValidMovies(ms)
    ensures |RemoveId(ms, id)| == if HasId(ms, id) then |ms| - 1 else |ms|
  {
    if |ms| > 0 {
      var tail := ms[1..];
      assert ValidMovies(tail) by {
        forall i, j | 0 <= i < j < |tail|
          ensures tail[i].id < tail[j].id && KeyOf(tail[i]) != KeyOf(tail[j])
        {
          assert tail[i] == ms[i + 1] && tail[j] == ms[j + 1];
        }
      }
      RemoveCount(tail, id);
      if ms[0].id == id {
        assert !HasId(tail, id) by {
          forall i | 0 <= i < |tail|
            ensures tail[i].id != id
          {
            assert tail[i] == ms[i + 1];
          }
        }
      } else {
        assert HasId(ms, id) <==> HasId(tail, id) by {
          if HasId(ms, id) {
            var i :| 0 <= i < |ms| && ms[i].id == id;
            assert tail[i - 1] == ms[i];
          }
          if HasId(tail, id) {
            var i :| 0 <= i < |tail| && tail[i].id == id;
            assert ms[i + 1] == tail[i];
          }
        }
      }
    }
  }

  /** After a successful delete the id is gone: deleting it again raises. */
  lemma DeleteTwiceFails(s: Store, id: int)
    requires DeleteMovie(s, id).Ok?
    ensures DeleteMovie(DeleteMovie(s, id).value, id) == Err(MovieDbError)
  {
  }

  /** Ids are not reserved: after the last (largest) id is deleted, the next
      movie gets the id after the new last row, which is at most the deleted
      one. */
  lemma DeleteLastReissues(s: Store)
    requires Valid(s) && |s.movies| > 0
    ensures var last := s.movies[|s.movies| - 1].id;
            var after := DeleteMovie(s, last);
            && after.Ok?
            && NextId(after.value.movies) == (if |s.movies| == 1 then 1 else s.movies[|s.movies| - 2].id + 1)
            && NextId(after.value.movies) <= last
  {
    var ms := s.movies;
    var n := |ms|;
    assert HasId(ms, ms[n - 1].id);
    LastIdLargest(ms);
    RemoveLast(ms);
  }

  /** In a valid table the last row has the largest id. */
  lemma LastIdLargest(ms: seq<Movie>)
    requires ValidMovies(ms) && |ms| > 0
    ensures forall i :: 0 <= i < |ms| - 1 ==> ms[i].id < ms[|ms| - 1].id
  {
  }

  /** Removing the id of the last row, held by no other row, drops that row. */
  lemma RemoveLast(ms: seq<Movie>)
    requires |ms| > 0
    requires forall i :: 0 <= i < |ms| - 1 ==> ms[i].id < ms[|ms| - 1].id
    ensures RemoveId(ms, ms[|ms| - 1].id) == ms[..|ms| - 1]
  {
    OthersBelowLast(ms, ms[..|ms| - 1]);
    SplitLast(ms);
    RemoveBefore(ms[..|ms| - 1], ms[|ms| - 1]);
  }

  lemma OthersBelowLast(ms: seq<Movie>, init: seq<Movie>)
    requires |ms| > 0 && init == ms[..|ms| - 1]
    requires forall i :: 0 <= i < |ms| - 1 ==> ms[i].id < ms[|ms| - 1].id
    ensures forall i :: 0 <= i < |init| ==> init[i].id != ms[|ms| - 1].id
  {
  }

  lemma SplitLast(ms: seq<Movie>)
    requires |ms| > 0
    ensures ms == ms[..|ms| - 1] + [ms[|ms| - 1]]
  {
  }

  lemma RemoveBefore(init: seq<Movie>, m: Movie)
    requires forall i :: 0 <= i < |init| ==> init[i].id != m.id
    ensures RemoveId(init + [m], m.id) == init
  {
    RemoveAbsent(init, m.id);
    RemoveAppend(init, m, m.id);
  }

  lemma {:induction false} RemoveAbsent(ms: seq<Movie>, id: int)
    requires forall i :: 0 <= i < |ms| ==> ms[i].id != id
    ensures RemoveId(ms, id) == ms
  {
    if |ms| > 0 {
      RemoveAbsent(ms[1..], id);
      assert ms == [ms[0]] + ms[1..];
    }
  }

  lemma {:induction false} RemoveAppend(ms: seq<Movie>, m: Movie, id: int)
    requires m.id == id
    ensures RemoveId(ms + [m], id) == RemoveId(ms, id)
  {
    if |ms| == 0 {
      assert ([m])[1..] == [];
    } else {
      assert (ms + [m])[1..] == ms[1..] + [m];
      RemoveAppend(ms[1..], m, id);
    }
  }

  // ---------------------------------------------------------------------------
  // search_movies
  // ---------------------------------------------------------------------------

  /** The optional filters of `search_movies`; `None` leaves a column free. */
  datatype Query = Query(title: Option<string>, year: Option<int>,
                         genre: Option<string>, directorId: Option<int>)

  predicate NoFilter(q: Query) {
    q.title.None? && q.year.None? && q.genre.None? && q.directorId.None?
  }

  /** A movie passes every filter given: title and genre compared after
      lower-casing both sides and stripping the query, year and director id
      compared exactly. */
  predicate Matches(q: Query, m: Movie) {
    && (q.title.Some? ==> Lower(m.title) == Strip(Lower(q.title.value)))
    && (q.year.Some? ==> m.year == q.year.value)
    && (q.genre.Some? ==> Lower(m.genre) == Strip(Lower(q.genre.value)))
    && (q.directorId.Some? ==> m.directorId == q.directorId.value)
  }

  /** The ids of the matching movies, in table order. */
  function MatchingIds(ms: seq<Movie>, q: Query): (r: seq<int>)
    ensures IsSubsequence(r, Ids(ms))
    ensures forall id :: id in r <==> exists i :: 0 <= i < |ms| && ms[i].id == id && Matches(q, ms[i])
  {
    if |ms| == 0 then []
    else
      var rest := MatchingIds(ms[1..], q);
      assert Ids(ms) == [ms[0].id] + Ids(ms[1..]);
      assert forall i :: 1 <= i < |ms| ==> ms[i] == ms[1..][i - 1];
      if Matches(q, ms[0]) then [ms[0].id] + rest
      else
        assert Ids(ms)[1..] == Ids(ms[1..]);
        rest
  }

  /** `search_movies`: raise when no filter is given, else the ids of the
      movies that pass every filter given, in table order. */
  function SearchMovies(s: Store, q: Query): (r: Result<seq<int>>)
    ensures r.Err? <==> NoFilter(q)
    ensures r.Err? ==> r.error == MovieDbError
    ensures r.Ok? ==> IsSubsequence(r.value, Ids(s.movies))
    ensures r.Ok? ==> forall id :: id in r.value <==>
              exists i :: 0 <= i < |s.movies| && s.movies[i].id == id && Matches(q, s.movies[i])
  {
    if NoFilter(q) then Err(MovieDbError) else Ok(MatchingIds(s.movies, q))
  }

  /** `q2` keeps every filter of `q1` and may add more. */
  predicate Narrows(q2: Query, q1: Query) {
    && (q1.title.Some? ==> q2.title == q1.title)
    && (q1.year.Some? ==> q2.year == q1.year)
    && (q1.genre.Some? ==> q2.genre == q1.genre)
    && (q1.directorId.Some? ==> q2.directorId == q1.directorId)
  }

  lemma {:induction false} NarrowedMatches(ms: seq<Movie>, q1: Query, q2: Query)
    requires Narrows(q2, q1)
    ensures IsSubsequence(MatchingIds(ms, q2), MatchingIds(ms, q1))
  {
    if |ms| > 0 {
      NarrowedMatches(ms[1..], q1, q2);
      var r1 := MatchingIds(ms, q1);
      var r2 := MatchingIds(ms, q2);
      if Matches(q2, ms[0]) {
        assert r1 == [ms[0].id] + MatchingIds(ms[1..], q1);
        assert r2[1..] == MatchingIds(ms[1..], q2);
        assert r1[1..] == MatchingIds(ms[1..], q1);
      } else if Matches(q1, ms[0]) {
        assert r1[1..] == MatchingIds(ms[1..], q1);
      }
    }
  }

  /** Supplying an extra filter can only drop results. */
  lemma NarrowingShrinks(s: Store, q1: Query, q2: Query)
    requires !NoFilter(q1) && Narrows(q2, q1)
    ensures SearchMovies(s, q2).Ok?
    ensures IsSubsequence(SearchMovies(s, q2).value, SearchMovies(s, q1).value)
  {
    NarrowedMatches(s.movies, q1, q2);
  }

  /** On a valid table the results come out in increasing id order. */
  lemma SearchIncreasing(s: Store, q: Query)
    requires Valid(s) && !NoFilter(q)
    ensures var r := SearchMovies(s, q).value;
            forall i, j :: 0 <= i < j < |r| ==> r[i] < r[j]
  {
    var ids := Ids(s.movies);
    var r := SearchMovies(s, q).value;
    assert Pairwise((a: int, b: int) => a < b, ids);
    SubsequenceKeepsPairwise((a: int, b: int) => a < b, r, ids);
  }

  /** A deleted movie no longer turns up in any search. */
  lemma DeletedNotFound(s: Store, id: int, q: Query)
    requires DeleteMovie(s, id).Ok? && !NoFilter(q)
    ensures id !in SearchMovies(DeleteMovie(s, id).value, q).value
  {
    var ms := DeleteMovie(s, id).value.movies;
    forall i | 0 <= i < |ms|
      ensures ms[i].id != id
    {
      assert ms[i] in ms;
    }
  }

  // ---------------------------------------------------------------------------
  // export_data: left join with the directors, sorted by movie id
  // ---------------------------------------------------------------------------

  /** A row of the left join of movies with directors; `None` is the NaN
      director of a movie whose director id no director has. */
  datatype Joined = Joined(movie: Movie, director: Option<Registry.Director>)

  /** The directors with id `id`, in table order. */
  function DirectorsWithId(ds: seq<Registry.Director>, id: int): (r: seq<Registry.Director>)
    ensures forall d :: d in r <==> d in ds && d.id == id
  {
    if |ds| == 0 then []
    else
      assert forall d :: d in ds <==> d == ds[0] || d in ds[1..];
      var rest := DirectorsWithId(ds[1..], id);
      if ds[0].id == id then [ds[0]] + rest else rest
  }

  /** The join rows of one movie: one per director with its director id, or
      a single row without director when there is none. */
  function JoinMovie(m: Movie, ds: seq<Registry.Director>): seq<Joined> {
    var hits := DirectorsWithId(ds, m.directorId);
    if |hits| == 0 then [Joined(m, None)]
    else seq(|hits|, i requires 0 <= i < |hits| => Joined(m, Some(hits[i])))
  }

  /** The left join of the movies with the directors on the director id:
      each movie once per matching director, in table order. */
  function LeftJoin(ms: seq<Movie>, ds: seq<Registry.Director>): (rows: seq<Joined>)
    ensures |rows| >= |ms|
    ensures forall k :: 0 <= k < |rows| ==> rows[k].movie in ms
    ensures forall k :: 0 <= k < |rows| && rows[k].director.Some? ==>
              rows[k].director.value in ds && rows[k].director.value.id == rows[k].movie.directorId
    ensures forall k :: 0 <= k < |rows| && rows[k].director.None? ==>
              forall d :: d in ds ==> d.id != rows[k].movie.directorId
  {
    if |ms| == 0 then []
    else
      var head := JoinMovie(ms[0], ds);
      var rest := LeftJoin(ms[1..], ds);
      var rows := head + rest;
      assert forall k :: |head| <= k < |rows| ==> rows[k] == rest[k - |head|];
      assert forall m :: m in ms[1..] ==> m in ms;
      rows
  }

  /** The first director with id `id`, if any. */
  function DirectorOf(ds: seq<Registry.Director>, id: int): (r: Option<Registry.Director>)
    ensures r.Some? ==> r.value in ds && r.value.id == id
    ensures r.None? ==> forall d :: d in ds ==> d.id != id
  {
    if |ds| == 0 then None
    else if ds[0].id == id then Some(ds[0])
    else DirectorOf(ds[1..], id)
  }

  /** With unique director ids every movie has exactly one join row, which
      carries its director if there is one. */
  lemma {:induction false} DirectorsWithUniqueId(ds: seq<Registry.Director>, id: int)
    requires Registry.Valid(ds)
    ensures DirectorsWithId(ds, id) == match DirectorOf(ds, id) case Some(d) => [d] case None => []
  {
    if |ds| > 0 {
      var tail := ds[1..];
      assert Registry.Valid(tail) by {
        forall i, j | 0 <= i < j < |tail|
          ensures tail[i].id < tail[j].id && Registry.Key(tail[i]) != Registry.Key(tail[j])
        {
          assert tail[i] == ds[i + 1] && tail[j] == ds[j + 1];
        }
      }
      DirectorsWithUniqueId(tail, id);
      if ds[0].id == id {
        assert forall d :: d in tail ==> d.id > id by {
          forall d | d in tail
            ensures d.id > id
          {
            var k :| 0 <= k < |tail| && tail[k] == d;
            assert ds[k + 1] == d;
          }
        }
      }
    }
  }

  /** One join row per movie, carrying its director if there is one. */
  function PerMovie(ms: seq<Movie>, ds: seq<Registry.Director>): (rows: seq<Joined>)
    ensures |rows| == |ms|
    ensures forall k :: 0 <= k < |ms| ==> rows[k] == Joined(ms[k], DirectorOf(ds, ms[k].directorId))
  {
    if |ms| == 0 then []
    else
      var rest := PerMovie(ms[1..], ds);
      assert forall k :: 1 <= k < |ms| ==> ms[k] == ms[1..][k - 1];
      [Joined(ms[0], DirectorOf(ds, ms[0].directorId))] + rest
  }

  lemma {:induction false} LeftJoinOnePerMovie(ms: seq<Movie>, ds: seq<Registry.Director>)
    requires Registry.Valid(ds)
    ensures LeftJoin(ms, ds) == PerMovie(ms, ds)
  {
    if |ms| > 0 {
      DirectorsWithUniqueId(ds, ms[0].directorId);
      LeftJoinOnePerMovie(ms[1..], ds);
      assert JoinMovie(ms[0], ds) == [Joined(ms[0], DirectorOf(ds, ms[0].directorId))];
    }
  }

  /** Every movie has a join row. */
  lemma {:induction false} LeftJoinCovers(ms: seq<Movie>, ds: seq<Registry.Director>)
    ensures forall k :: 0 <= k < |ms| ==>
              exists j :: 0 <= j < |LeftJoin(ms, ds)| && LeftJoin(ms, ds)[j].movie == ms[k]
  {
    if |ms| > 0 {
      var head := JoinMovie(ms[0], ds);
      var rest := LeftJoin(ms[1..], ds);
      var rows := LeftJoin(ms, ds);
      LeftJoinCovers(ms[1..], ds);
      assert rows == head + rest;
      assert |head| > 0 && head[0].movie == ms[0];
      forall k | 0 <= k < |ms|
        ensures exists j :: 0 <= j < |rows| && rows[j].movie == ms[k]
      {
        if k == 0 {
          assert rows[0].movie == ms[0];
        } else {
          var j :| 0 <= j < |rest| && rest[j].movie == ms[1..][k - 1];
          assert rows[|head| + j].movie == ms[k];
        }
      }
      assert rows == LeftJoin(ms, ds);
    }
  }

  /** A row of `export_data`'s result. */
  datatype ExportRow = ExportRow(title: string, year: int, genre: string,
                                 directorLastName: Option<string>,
                                 directorGivenName: Option<string>)

  function ExportRowOf(m: Movie, d: Option<Registry.Director>): ExportRow {
    match d
    case None => ExportRow(m.title, m.year, m.genre, None, None)
    case Some(dir) => ExportRow(m.title, m.year, m.genre, Some(dir.lastName), Some(dir.givenName))
  }

  predicate ByMovieId(a: Joined, b: Joined) {
    a.movie.id <= b.movie.id
  }

  /** The join rows sorted by movie id. */
  function SortedJoin(s: Store): (rows: seq<Joined>)
    ensures Pairwise(ByMovieId, rows)
    ensures multiset(rows) == multiset(LeftJoin(s.movies, s.directors))
  {
    assert Sorting.TotalPreorder(ByMovieId);
    Sorting.SortIsSorted(ByMovieId, LeftJoin(s.movies, s.directors));
    Sorting.InsertionSort(ByMovieId, LeftJoin(s.movies, s.directors))
  }

  /** `export_data`: title, year, genre and the director's names of every
      movie, by increasing movie id; on a valid store that is table order,
      one row per movie. */
  function ExportData(s: Store): (rows: seq<ExportRow>)
    ensures |rows| >= |s.movies|
    ensures Valid(s) ==> |rows| == |s.movies|
    ensures Valid(s) ==> forall k :: 0 <= k < |rows| ==>
              rows[k] == ExportRowOf(s.movies[k], DirectorOf(s.directors, s.movies[k].directorId))
  {
    var sorted := SortedJoin(s);
    ExportOrder(s);
    seq(|sorted|, i requires 0 <= i < |sorted| => ExportRowOf(sorted[i].movie, sorted[i].director))
  }

  /** The export rows are the sorted join rows, each shown by its movie's
      title, year and genre and its director's names. */
  lemma ExportRows(s: Store)
    ensures |ExportData(s)| == |SortedJoin(s)|
    ensures forall i :: 0 <= i < |SortedJoin(s)| ==>
              ExportData(s)[i] == ExportRowOf(SortedJoin(s)[i].movie, SortedJoin(s)[i].director)
  {
  }

  /** Some row of the export shows the title, year and genre of `m`. */
  predicate ShowsMovie(rows: seq<ExportRow>, m: Movie) {
    exists j :: 0 <= j < |rows| && rows[j].title == m.title && rows[j].year == m.year && rows[j].genre == m.genre
  }

  /** Whether or not the store is valid, the export shows every movie's
      title, year and genre in some row. */
  lemma ExportShowsEveryMovie(s: Store)
    ensures forall k :: 0 <= k < |s.movies| ==> ShowsMovie(ExportData(s), s.movies[k])
  {
    ExportRows(s);
    LeftJoinCovers(s.movies, s.directors);
    PermutedRowsCover(s.movies, LeftJoin(s.movies, s.directors), SortedJoin(s), ExportData(s));
  }

  /** Rows shown from a permutation of join rows that cover every movie
      still cover every movie. */
  lemma PermutedRowsCover(ms: seq<Movie>, joined: seq<Joined>, sorted: seq<Joined>, rows: seq<ExportRow>)
    requires multiset(sorted) == multiset(joined)
    requires |rows| == |sorted|
    requires forall i :: 0 <= i < |sorted| ==> rows[i] == ExportRowOf(sorted[i].movie, sorted[i].director)
    requires forall k :: 0 <= k < |ms| ==> exists j :: 0 <= j < |joined| && joined[j].movie == ms[k]
    ensures forall k :: 0 <= k < |ms| ==> ShowsMovie(rows, ms[k])
  {
    forall k | 0 <= k < |ms|
      ensures ShowsMovie(rows, ms[k])
    {
      var i :| 0 <= i < |joined| && joined[i].movie == ms[k];
      assert joined[i] in multiset(sorted);
      var j :| 0 <= j < |sorted| && sorted[j] == joined[i];
      assert rows[j] == ExportRowOf(ms[k], sorted[j].director);
    }
  }

  /** Every export row shows a stored movie's title, year and genre. */
  lemma ExportShowsOnlyMovies(s: Store)
    ensures forall j :: 0 <= j < |ExportData(s)| ==>
              exists k :: 0 <= k < |s.movies| && ExportData(s)[j].title == s.movies[k].title
                          && ExportData(s)[j].year == s.movies[k].year && ExportData(s)[j].genre == s.movies[k].genre
  {
    var joined := LeftJoin(s.movies, s.directors);
    var sorted := SortedJoin(s);
    var rows := ExportData(s);
    ExportRows(s);
    forall j | 0 <= j < |rows|
      ensures exists k :: 0 <= k < |s.movies| && rows[j].title == s.movies[k].title
                          && rows[j].year == s.movies[k].year && rows[j].genre == s.movies[k].genre
    {
      assert sorted[j] in multiset(joined);
      var i :| 0 <= i < |joined| && joined[i] == sorted[j];
      var k :| 0 <= k < |s.movies| && s.movies[k] == joined[i].movie;
      assert rows[j] == ExportRowOf(s.movies[k], sorted[j].director);
    }
  }

  lemma ExportOrder(s: Store)
    ensures |SortedJoin(s)| >= |s.movies|
    ensures Valid(s) ==> |SortedJoin(s)| == |s.movies|
    ensures Valid(s) ==> forall k :: 0 <= k < |s.movies| ==>
              SortedJoin(s)[k] == Joined(s.movies[k], DirectorOf(s.directors, s.movies[k].directorId))
  {
    SortedJoinLength(s);
    if Valid(s) {
      SortedJoinOfValid(s);
      LeftJoinOnePerMovie(s.movies, s.directors);
    }
  }

  lemma SortedJoinLength(s: Store)
    ensures |SortedJoin(s)| == |LeftJoin(s.movies, s.directors)|
  {
    assert |multiset(SortedJoin(s))| == |multiset(LeftJoin(s.movies, s.directors))|;
  }

  /** On a valid store the join is already in id order, so sorting keeps it. */
  lemma SortedJoinOfValid(s: Store)
    requires Valid(s)
    ensures SortedJoin(s) == LeftJoin(s.movies, s.directors)
  {
    var joined := LeftJoin(s.movies, s.directors);
    LeftJoinOnePerMovie(s.movies, s.directors);
    assert Pairwise(ByMovieId, joined) by {
      forall i, j | 0 <= i < j < |joined|
        ensures ByMovieId(joined[i], joined[j])
      {
        assert joined[i].movie == s.movies[i] && joined[j].movie == s.movies[j];
      }
    }
    Sorting.SortOfSorted(ByMovieId, joined);
  }
}
