/** The directors table and its find-or-create operation `add_director`. */
module Registry {
  import opened Results
  import opened Text

  /** A row of the directors table. */
  datatype Director = Director(id: int, givenName: string, lastName: string)

  /** The display form `last, given`, recomputed from the two name columns
      every time the table is loaded and never stored. */
  function Display(d: Director): string {
    d.lastName + ", " + d.givenName
  }

  /** The form under which directors are compared: the lower-cased display. */
  function Key(d: Director): string {
    Lower(Display(d))
  }

  /** What every reachable directors table satisfies: positive ids in
      strictly increasing order, and no two directors with the same key. */
  predicate Valid(ds: seq<Director>) {
    && (forall i :: 0 <= i < |ds| ==> ds[i].id >= 1)
    && (forall i, j :: 0 <= i < j < |ds| ==> ds[i].id < ds[j].id)
    && (forall i, j {:trigger Key(ds[i]), Key(ds[j])} :: 0 <= i < j < |ds| ==> Key(ds[i]) != Key(ds[j]))
  }

  /** Some director in `ds` has the matching key `key`. */
  predicate HasKey(ds: seq<Director>, key: string) {
    exists i :: 0 <= i < |ds| && Key(ds[i]) == key
  }

  /** The id a new director receives: one more than the last row's, or 1 for
      an empty table. */
  function NextId(ds: seq<Director>): int {
    if |ds| == 0 then 1 else ds[|ds| - 1].id + 1
  }

  /** Python's `list.index` over the keys: the first row with key `key`. */
  function IndexOfKey(ds: seq<Director>, key: string): (r: Option<nat>)
    ensures r.Some? ==> r.value < |ds| && Key(ds[r.value]) == key
    ensures r.Some? ==> forall j :: 0 <= j < r.value ==> Key(ds[j]) != key
    ensures r.None? <==> !HasKey(ds, key)
  {
    if |ds| == 0 then None
    else if Key(ds[0]) == key then Some(0)
    else
      assert forall j :: 1 <= j < |ds| ==> ds[j] == ds[1..][j - 1];
      match IndexOfKey(ds[1..], key)
      case None => None
      case Some(i) => Some(i + 1)
  }

  /** The directors table after a lookup, and the id the name resolved to. */
  datatype Resolution = Resolution(directors: seq<Director>, id: int)

  /** `add_director`: normalise the name, split it at the first `", "` into
      last and given name, and return the id of the director with the same
      key, appending a new director when there is none. */
  function AddDirector(ds: seq<Director>, raw: string): (r: Result<Resolution>)
    ensures r.Err? <==> !ContainsSep(Normalize(raw))
    ensures r.Err? ==> r.error == UnpackError
    ensures r.Ok? && HasKey(ds, Lower(Normalize(raw))) ==>
              && r.value.directors == ds
              && exists i :: 0 <= i < |ds| && Key(ds[i]) == Lower(Normalize(raw)) && r.value.id == ds[i].id
    ensures r.Ok? && !HasKey(ds, Lower(Normalize(raw))) ==>
              && |r.value.directors| == |ds| + 1
              && r.value.directors[..|ds|] == ds
              && r.value.directors[|ds|].id == r.value.id == NextId(ds)
              && Display(r.value.directors[|ds|]) == Normalize(raw)
    ensures r.Ok? && Valid(ds) ==> Valid(r.value.directors)
  {
    var name := Normalize(raw);
    match SplitName(name)
    case None => Err(UnpackError)
    case Some(parts) =>
      var created := Director(NextId(ds), parts.1, parts.0);
      assert Display(created) == name;
      if |ds| == 0 then
        Ok(Resolution([created], created.id))
      else
        match IndexOfKey(ds, Lower(name))
        case Some(i) => Ok(Resolution(ds, ds[i].id))
        case None =>
          var ds' := ds + [created];
          assert Valid(ds) ==> Valid(ds') by {
            if Valid(ds) {
              AppendKeepsValid(ds, created);
            }
          }
          Ok(Resolution(ds', created.id))
  }

  /** Appending a director with the next id and a new key keeps the table
      valid. */
  lemma AppendKeepsValid(ds: seq<Director>, d: Director)
    requires Valid(ds) && |ds| > 0
    requires d.id == NextId(ds) && !HasKey(ds, Key(d))
    ensures Valid(ds + [d])
  {
    var ds' := ds + [d];
    forall i, j | 0 <= i < j < |ds'|
      ensures ds'[i].id < ds'[j].id && Key(ds'[i]) != Key(ds'[j])
    {
      if j == |ds| {
        assert ds'[i] == ds[i];
        if i < |ds| - 1 {
          assert ds[i].id < ds[|ds| - 1].id;
        }
      }
    }
  }

  /** A name no director matches is appended, split at its first separator
      into last and given name, under the next id. */
  lemma NewDirector(ds: seq<Director>, raw: string, last: string, given: string)
    requires SplitName(Normalize(raw)) == Some((last, given))
    requires !HasKey(ds, Lower(Normalize(raw)))
    ensures AddDirector(ds, raw) == Ok(Resolution(ds + [Director(NextId(ds), given, last)], NextId(ds)))
  {
    if |ds| == 0 {
      assert ds + [Director(NextId(ds), given, last)] == [Director(NextId(ds), given, last)];
    }
  }

  /** Resolving a name whose normalised form matches, ignoring case, the name
      just resolved returns the same id and leaves the table as it is: the
      table holds one director per key. */
  lemma ResolveAgain(ds: seq<Director>, first: string, again: string)
    requires AddDirector(ds, first).Ok?
    requires Lower(Normalize(again)) == Lower(Normalize(first))
    ensures AddDirector(AddDirector(ds, first).value.directors, again) == AddDirector(ds, first)
  {
    var res := AddDirector(ds, first).value;
    var key := Lower(Normalize(first));
    LowerKeepsSep(Normalize(first));
    LowerKeepsSep(Normalize(again));
    var ds1 := res.directors;
    if HasKey(ds, key) {
      assert ds1 == ds;
    } else {
      assert Key(ds1[|ds|]) == key;
      assert forall j :: 0 <= j < |ds| ==> ds1[j] == ds[j];
      var i := IndexOfKey(ds1, key).value;
      assert i == |ds|;
    }
  }

  /** `add_director` is idempotent. */
  lemma AddDirectorIdempotent(ds: seq<Director>, raw: string)
    requires AddDirector(ds, raw).Ok?
    ensures AddDirector(AddDirector(ds, raw).value.directors, raw) == AddDirector(ds, raw)
  {
    ResolveAgain(ds, raw, raw);
  }

  /** The resolved id belongs to a director of the resulting table whose key
      is the normalised, lower-cased name. */
  lemma ResolvedDirectorMatches(ds: seq<Director>, raw: string)
    requires AddDirector(ds, raw).Ok?
    ensures var r := AddDirector(ds, raw).value;
            exists i :: 0 <= i < |r.directors| && r.directors[i].id == r.id
                        && Key(r.directors[i]) == Lower(Normalize(raw))
  {
    var r := AddDirector(ds, raw).value;
    if !HasKey(ds, Lower(Normalize(raw))) {
      assert r.directors[|ds|].id == r.id;
    } else {
      var i :| 0 <= i < |ds| && Key(ds[i]) == Lower(Normalize(raw)) && r.id == ds[i].id;
      assert r.directors[i] == ds[i];
    }
  }
}
