/** The match store of data.py: a list of match records with listing (optionally
    sorted on one field), lookup by id, creation, replacement, deletion and min/max/sum
    statistics over the numeric fields. The Python module keeps the list in a global
    variable; here every operation takes the list and returns the new one. */
module Data {
  import opened Wrappers
  import opened Values
  import opened Sorting

  /** A stored match: a record whose "id" holds an integer. Every other key is whatever
      the creating or replacing request body held. */
  type Match = r: Record | "id" in r && r["id"].Int? witness map["id" := Int(1)]

  type Store = seq<Match>

  function IdOf(m: Match): int
  {
    m["id"].i
  }

  /** An exception the Python code raises; the web layer answers it with status 500. */
  datatype Fault = IndexError | KeyError | TypeError | ValueError | OverflowError

  /** No two stored matches share an id. */
  ghost predicate UniqueIds(store: Store)
  {
    forall i, j | 0 <= i < j < |store| :: IdOf(store[i]) != IdOf(store[j])
  }

  predicate HasId(store: Store, id: int)
  {
    exists i | 0 <= i < |store| :: IdOf(store[i]) == id
  }

  /** `i` is the first position of the store whose match has id `id`. */
  predicate IsFirstWithId(store: Store, id: int, i: int)
  {
    && 0 <= i < |store|
    && IdOf(store[i]) == id
    && forall j | 0 <= j < i :: IdOf(store[j]) != id
  }

  /** The bodies of the three matches the store holds when the service starts. */
  const FirstInitialBody: Record :=
    map["home_team" := Str("Спартак"), "away_team" := Str("Зенит"),
        "home_score" := Int(2), "away_score" := Int(1), "date" := Str("2024-05-15"),
        "spectators" := Int(45000), "stadium" := Str("Открытие Арена"),
        "tournament" := Str("Премьер-Лига")]
  const SecondInitialBody: Record :=
    map["home_team" := Str("ЦСКА"), "away_team" := Str("Локомотив"),
        "home_score" := Int(0), "away_score" := Int(0), "date" := Str("2024-05-14"),
        "spectators" := Int(28000), "stadium" := Str("ВЭБ Арена"),
        "tournament" := Str("Премьер-Лига")]
  const ThirdInitialBody: Record :=
    map["home_team" := Str("Краснодар"), "away_team" := Str("Ростов"),
        "home_score" := Int(3), "away_score" := Int(2), "date" := Str("2024-05-13"),
        "spectators" := Int(25000), "stadium" := Str("Стадион Краснодар"),
        "tournament" := Str("Премьер-Лига")]

  /** The three matches the store holds when the service starts. */
  const InitialMatches: Store :=
    [WithId(FirstInitialBody, 1), WithId(SecondInitialBody, 2), WithId(ThirdInitialBody, 3)]

  lemma InitialMatchesHaveUniqueIds()
    ensures UniqueIds(InitialMatches)
    ensures forall i | 0 <= i < |InitialMatches| :: IdOf(InitialMatches[i]) == i + 1
  {
    assert IdOf(InitialMatches[0]) == 1;
    assert IdOf(InitialMatches[1]) == 2;
    assert IdOf(InitialMatches[2]) == 3;
  }

  // ---------------------------------------------------------------------------
  // Aggregates over integer lists (Python's max, min and sum)
  // ---------------------------------------------------------------------------

  function Max(xs: seq<int>): (m: int)
    requires |xs| > 0
    ensures forall i | 0 <= i < |xs| :: xs[i] <= m
    ensures exists i | 0 <= i < |xs| :: xs[i] == m
  {
    if |xs| == 1 then xs[0]
    else
      var rest := Max(xs[1..]);
      assert forall i | 0 <= i < |xs[1..]| :: xs[1..][i] == xs[i + 1];
      if xs[0] >= rest then xs[0] else rest
  }

  function Min(xs: seq<int>): (m: int)
    requires |xs| > 0
    ensures forall i | 0 <= i < |xs| :: m <= xs[i]
    ensures exists i | 0 <= i < |xs| :: xs[i] == m
  {
    if |xs| == 1 then xs[0]
    else
      var rest := Min(xs[1..]);
      assert forall i | 0 <= i < |xs[1..]| :: xs[1..][i] == xs[i + 1];
      if xs[0] <= rest then xs[0] else rest
  }

  /** The total of a list, as Python's `sum` computes it; integer addition is exact, so
      the grouping does not matter. */
  function Sum(xs: seq<int>): int
  {
    if |xs| == 0 then 0 else xs[0] + Sum(xs[1..])
  }

  lemma {:induction false} SumAppend(xs: seq<int>, x: int)
    ensures Sum(xs + [x]) == Sum(xs) + x
  {
    if |xs| > 0 {
      assert (xs + [x])[1..] == xs[1..] + [x];
      SumAppend(xs[1..], x);
    }
  }

  // ---------------------------------------------------------------------------
  // get_all_matches
  // ---------------------------------------------------------------------------

  /** Python's truthiness of the `sort_by` argument: absent and "" are false. */
  predicate SortRequested(sortBy: Option<string>)
  {
    sortBy.Some? && sortBy.value != ""
  }

  predicate AllHaveField(store: Store, field: string)
  {
    forall i | 0 <= i < |store| :: field in store[i]
  }

  /** The field holds values of one kind (all integers or all strings) across the
      store, so that Python can compare any two of them. */
  predicate UniformKind(store: Store, field: string)
    requires AllHaveField(store, field)
  {
    forall i | 0 <= i < |store| :: store[i][field].Int? == store[0][field].Int?
  }

  /** The key `lambda x: x[field]`; the default is never consulted, because the store
      sorts only when every record has the field. */
  function FieldKey(field: string): Match -> Value
  {
    m => if field in m then m[field] else Int(0)
  }

  /** Whether `get_all_matches` sorts: a non-empty sort field that is a key of the
      first stored match. */
  predicate SortApplies(store: Store, sortBy: Option<string>)
  {
    SortRequested(sortBy) && |store| > 0 && sortBy.value in store[0]
  }

  lemma SortedByField(store: Store, field: string)
    requires AllHaveField(store, field)
    ensures var r := StableSort(store, FieldKey(field));
      && multiset(r) == multiset(store)
      && AllHaveField(r, field)
      && (forall i, j | 0 <= i < j < |r| :: ValueLe(r[i][field], r[j][field]))
      && (forall v :: WithKey(r, FieldKey(field), v) == WithKey(store, FieldKey(field), v))
  {
    var r := StableSort(store, FieldKey(field));
    forall i | 0 <= i < |r|
      ensures field in r[i]
    {
      assert r[i] in multiset(store);
    }
  }

  /** `get_all_matches(sort_by)`: the store as it is, or sorted stably on `sort_by` when
      that is a non-empty name of a key of the first match. Python raises IndexError
      for a sort request on an empty store, KeyError when some match lacks the field,
      and TypeError when the field mixes integers and strings. */
  function GetAllMatches(store: Store, sortBy: Option<string>): (r: Result<Store, Fault>)
    ensures !SortRequested(sortBy) ==> r == Ok(store)
    ensures SortRequested(sortBy) && |store| > 0 && sortBy.value !in store[0] ==> r == Ok(store)
    ensures r == Err(IndexError) <==> SortRequested(sortBy) && |store| == 0
    ensures r == Err(KeyError)
        <==> SortApplies(store, sortBy) && !AllHaveField(store, sortBy.value)
    ensures r == Err(TypeError)
        <==> SortApplies(store, sortBy) && AllHaveField(store, sortBy.value)
             && !UniformKind(store, sortBy.value)
    ensures r.Ok? <==>
      || !SortRequested(sortBy)
      || (|store| > 0 && sortBy.value !in store[0])
      || (SortApplies(store, sortBy) && AllHaveField(store, sortBy.value) && UniformKind(store, sortBy.value))
    ensures r.Err? ==> r.error in {IndexError, KeyError, TypeError}
    ensures r.Ok? ==> multiset(r.value) == multiset(store)
    ensures r.Ok? && SortApplies(store, sortBy) ==>
      var field := sortBy.value;
      && AllHaveField(r.value, field)
      && (forall i, j | 0 <= i < j < |r.value| ::
            ValueLe(r.value[i][field], r.value[j][field]))
      && (forall v :: WithKey(r.value, FieldKey(field), v) == WithKey(store, FieldKey(field), v))
  {
    if !SortRequested(sortBy) then Ok(store)
    else if |store| == 0 then Err(IndexError)
    else if sortBy.value !in store[0] then Ok(store)
    else if !AllHaveField(store, sortBy.value) then Err(KeyError)
    else if !UniformKind(store, sortBy.value) then Err(TypeError)
    else
      SortedByField(store, sortBy.value);
      Ok(StableSort(store, FieldKey(sortBy.value)))
  }

  // ---------------------------------------------------------------------------
  // get_match_by_id
  // ---------------------------------------------------------------------------

  /** The position the scan in `get_match_by_id` and `update_match` stops at. */
  function FindIndex(store: Store, id: int): (r: Option<nat>)
    ensures r.Some? ==> IsFirstWithId(store, id, r.value)
    ensures r.None? <==> !HasId(store, id)
  {
    if |store| == 0 then None
    else if IdOf(store[0]) == id then Some(0)
    else
      match FindIndex(store[1..], id)
      case None => None
      case Some(i) => Some(i + 1)
  }

  /** `get_match_by_id(match_id)`: the first stored match with that id, or None. */
  function GetMatchById(store: Store, id: int): (r: Option<Match>)
    ensures r.None? <==> (forall m | m in store :: IdOf(m) != id)
    ensures r.Some? ==> exists i :: IsFirstWithId(store, id, i) && store[i] == r.value
  {
    match FindIndex(store, id)
    case None => None
    case Some(i) => Some(store[i])
  }

  /** With unique ids, the match found is the only one with that id. */
  lemma GetMatchByIdUnique(store: Store, id: int, m: Match)
    requires UniqueIds(store)
    requires m in store && IdOf(m) == id
    ensures GetMatchById(store, id) == Some(m)
  {
    var k :| 0 <= k < |store| && store[k] == m;
    assert HasId(store, id) by {
      assert IdOf(store[k]) == id;
    }
    var i := FindIndex(store, id).value;
    assert IdOf(store[i]) == IdOf(store[k]);
    assert i == k;
  }

  // ---------------------------------------------------------------------------
  // add_match
  // ---------------------------------------------------------------------------

  function Ids(store: Store): (ids: seq<int>)
    ensures |ids| == |store|
    ensures forall i | 0 <= i < |store| :: ids[i] == IdOf(store[i])
  {
    seq(|store|, i requires 0 <= i < |store| => IdOf(store[i]))
  }

  /** `match_data` with its "id" set, as the Python code sets `match_data["id"]`. */
  function WithId(data: Record, id: int): (m: Match)
    ensures IdOf(m) == id
    ensures m.Keys == data.Keys + {"id"}
    ensures forall k | k in data && k != "id" :: m[k] == data[k]
  {
    data["id" := Int(id)]
  }

  /** `add_match(match_data)`: the body stored with the id one above the largest stored
      id, appended at the end. Python's `max` of no ids raises ValueError. */
  function AddMatch(store: Store, data: Record): (r: Result<(Store, Match), Fault>)
    ensures r.Err? <==> |store| == 0
    ensures r.Err? ==> r.error == ValueError
    ensures r.Ok? ==>
      var (after, added) := r.value;
      && after == store + [added]
      && (forall i | 0 <= i < |store| :: IdOf(store[i]) < IdOf(added))
      && (exists i | 0 <= i < |store| :: IdOf(added) == IdOf(store[i]) + 1)
      && added.Keys == data.Keys + {"id"}
      && (forall k | k in data && k != "id" :: added[k] == data[k])
  {
    if |store| == 0 then Err(ValueError)
    else
      var ids := Ids(store);
      var top := Max(ids);
      var added := WithId(data, top + 1);
      Ok((store + [added], added))
  }

  lemma AddMatchKeepsIdsUnique(store: Store, data: Record)
    requires UniqueIds(store)
    requires AddMatch(store, data).Ok?
    ensures UniqueIds(AddMatch(store, data).value.0)
  {
  }

  // ---------------------------------------------------------------------------
  // update_match
  // ---------------------------------------------------------------------------

  /** `update_match(match_id, match_data)`: the body, with "id" forced to `match_id`,
      takes the place of the first match with that id; None when there is none. */
  function UpdateMatch(store: Store, id: int, data: Record): (r: (Store, Option<Match>))
    ensures r.1.None? <==> !HasId(store, id)
    ensures r.1.None? ==> r.0 == store
    ensures r.1.Some? ==>
      && IdOf(r.1.value) == id
      && r.1.value.Keys == data.Keys + {"id"}
      && (forall k | k in data && k != "id" :: r.1.value[k] == data[k])
      && exists i :: IsFirstWithId(store, id, i) && r.0 == store[i := r.1.value]
  {
    match FindIndex(store, id)
    case None => (store, None)
    case Some(i) =>
      var replaced := WithId(data, id);
      (store[i := replaced], Some(replaced))
  }

  lemma UpdateMatchKeepsIdsUnique(store: Store, id: int, data: Record)
    requires UniqueIds(store)
    ensures UniqueIds(UpdateMatch(store, id, data).0)
  {
  }

  lemma FirstWithIdIsUnique(store: Store, id: int, i: int, k: int)
    requires IsFirstWithId(store, id, i) && IsFirstWithId(store, id, k)
    ensures i == k
  {
  }

  /** Replacing twice with the same body leaves the same store as replacing once. */
  lemma UpdateMatchIdempotent(store: Store, id: int, data: Record)
    ensures var (once, r1) := UpdateMatch(store, id, data);
            var (twice, r2) := UpdateMatch(once, id, data);
            twice == once && r2 == r1
  {
    var (once, r1) := UpdateMatch(store, id, data);
    if r1.Some? {
      var i :| IsFirstWithId(store, id, i) && once == store[i := r1.value];
      assert IsFirstWithId(once, id, i);
      var k :| IsFirstWithId(once, id, k) && UpdateMatch(once, id, data).0 == once[k := UpdateMatch(once, id, data).1.value];
      FirstWithIdIsUnique(once, id, i, k);
    }
  }

  // ---------------------------------------------------------------------------
  // delete_match
  // ---------------------------------------------------------------------------

  /** The store without the matches whose id is `id`, the others in their order. */
  function Without(store: Store, id: int): (r: Store)
    ensures |r| <= |store|
  {
    if |store| == 0 then []
    else (if IdOf(store[0]) == id then [] else [store[0]]) + Without(store[1..], id)
  }

  /** The kept list holds exactly the stored matches with another id. */
  lemma {:induction false} WithoutMembers(store: Store, id: int)
    ensures forall m :: m in Without(store, id) <==> m in store && IdOf(m) != id
  {
    if |store| > 0 {
      WithoutMembers(store[1..], id);
      assert store == [store[0]] + store[1..];
    }
  }

  /** `delete_match(match_id)`: rebinds the store to the matches with another id and
      returns True whether or not anything was removed. */
  function DeleteMatch(store: Store, id: int): (r: (Store, bool))
    ensures r.1
    ensures forall m :: m in r.0 <==> m in store && IdOf(m) != id
    ensures !HasId(r.0, id)
  {
    WithoutMembers(store, id);
    var kept := Without(store, id);
    assert !HasId(kept, id) by {
      forall i | 0 <= i < |kept| ensures IdOf(kept[i]) != id {
        assert kept[i] in kept;
      }
    }
    (kept, true)
  }

  lemma {:induction false} WithoutAbsent(store: Store, id: int)
    requires !HasId(store, id)
    ensures Without(store, id) == store
  {
    if |store| > 0 {
      assert !HasId(store[1..], id) by {
        forall i | 0 <= i < |store[1..]| ensures IdOf(store[1..][i]) != id {
          assert store[1..][i] == store[i + 1];
        }
      }
      WithoutAbsent(store[1..], id);
      assert store == [store[0]] + store[1..];
    }
  }

  /** Deleting an id that is not stored changes nothing. */
  lemma DeleteMatchAbsent(store: Store, id: int)
    requires !HasId(store, id)
    ensures DeleteMatch(store, id).0 == store
  {
    WithoutAbsent(store, id);
  }

  /** Deleting the same id twice is the same as deleting it once. */
  lemma DeleteMatchIdempotent(store: Store, id: int)
    ensures DeleteMatch(DeleteMatch(store, id).0, id) == DeleteMatch(store, id)
  {
    var once := DeleteMatch(store, id).0;
    WithoutAbsent(once, id);
  }

  /** Deletion works piecewise: the kept matches of a concatenation are the kept
      matches of each part, in order. */
  lemma {:induction false} WithoutConcat(a: Store, b: Store, id: int)
    ensures Without(a + b, id) == Without(a, id) + Without(b, id)
  {
    if |a| > 0 {
      var head := if IdOf(a[0]) == id then [] else [a[0]];
      assert (a + b)[0] == a[0] && (a + b)[1..] == a[1..] + b;
      assert Without(a + b, id) == head + Without(a[1..] + b, id);
      assert Without(a, id) == head + Without(a[1..], id);
      WithoutConcat(a[1..], b, id);
      assert head + (Without(a[1..], id) + Without(b, id))
          == (head + Without(a[1..], id)) + Without(b, id);
    } else {
      assert a + b == b;
    }
  }

  /** With unique ids, deleting a stored id removes exactly its one position. */
  lemma DeleteMatchUnique(store: Store, id: int, i: int)
    requires UniqueIds(store)
    requires 0 <= i < |store| && IdOf(store[i]) == id
    ensures DeleteMatch(store, id).0 == store[..i] + store[i + 1..]
  {
    var prefix, suffix := store[..i], store[i + 1..];
    forall j | 0 <= j < |prefix| ensures IdOf(prefix[j]) != id {
      assert prefix[j] == store[j];
    }
    forall j | 0 <= j < |suffix| ensures IdOf(suffix[j]) != id {
      assert suffix[j] == store[i + 1 + j];
    }
    WithoutAroundOne(store, id, i);
  }

  /** Deleting the id of position `i`, when no other position holds it, leaves the
      matches before and after it. */
  lemma WithoutAroundOne(store: Store, id: int, i: int)
    requires 0 <= i < |store| && IdOf(store[i]) == id
    requires !HasId(store[..i], id) && !HasId(store[i + 1..], id)
    ensures Without(store, id) == store[..i] + store[i + 1..]
  {
    assert store == (store[..i] + [store[i]]) + store[i + 1..];
    WithoutAround(store[..i], store[i], store[i + 1..], id);
  }

  lemma WithoutAround(prefix: Store, m: Match, suffix: Store, id: int)
    requires IdOf(m) == id && !HasId(prefix, id) && !HasId(suffix, id)
    ensures Without((prefix + [m]) + suffix, id) == prefix + suffix
  {
    WithoutConcat(prefix + [m], suffix, id);
    WithoutConcat(prefix, [m], id);
    assert Without([m], id) == [] by {
      assert [m][1..] == [];
    }
    WithoutAbsent(prefix, id);
    WithoutAbsent(suffix, id);
  }

  lemma {:induction false} WithoutKeepsIdsUnique(store: Store, id: int)
    requires UniqueIds(store)
    ensures UniqueIds(Without(store, id))
  {
    if |store| > 0 {
      var rest := Without(store[1..], id);
      assert UniqueIds(store[1..]) by {
        forall i, j | 0 <= i < j < |store[1..]|
          ensures IdOf(store[1..][i]) != IdOf(store[1..][j])
        {
          assert store[1..][i] == store[i + 1] && store[1..][j] == store[j + 1];
        }
      }
      WithoutKeepsIdsUnique(store[1..], id);
      WithoutMembers(store[1..], id);
      if IdOf(store[0]) != id {
        forall m | m in rest ensures IdOf(m) != IdOf(store[0]) {
          var k :| 0 <= k < |store[1..]| && store[1..][k] == m;
          assert store[k + 1] == m;
        }
        var r := [store[0]] + rest;
        forall i, j | 0 <= i < j < |r| ensures IdOf(r[i]) != IdOf(r[j]) {
          if i == 0 {
            assert r[j] in rest;
          } else {
            assert r[i] == rest[i - 1] && r[j] == rest[j - 1];
          }
        }
      }
    }
  }

  lemma DeleteMatchKeepsIdsUnique(store: Store, id: int)
    requires UniqueIds(store)
    ensures UniqueIds(DeleteMatch(store, id).0)
  {
    WithoutKeepsIdsUnique(store, id);
  }

  // ---------------------------------------------------------------------------
  // get_statistics (min, max and sum; of the rounded average only its failure)
  // ---------------------------------------------------------------------------

  datatype FieldStats = FieldStats(min: int, max: int, sum: int)

  datatype Statistics = Statistics(homeScore: FieldStats, awayScore: FieldStats,
                                   spectators: FieldStats)

  /** Every stored match holds an integer in `field`. */
  predicate IntField(store: Store, field: string)
  {
    forall i | 0 <= i < |store| :: field in store[i] && store[i][field].Int?
  }

  /** The integers of `field` across the store, in store order. */
  function FieldInts(store: Store, field: string): (xs: seq<int>)
    requires IntField(store, field)
    ensures |xs| == |store|
    ensures forall i | 0 <= i < |store| :: store[i][field] == Int(xs[i])
  {
    seq(|store|, i requires 0 <= i < |store| && IntField(store, field) => store[i][field].i)
  }

  /** The least magnitude of a quotient that does not fit a double: 2^1024 - 2^970,
      halfway between the largest double, (2^53 - 1) * 2^971, and 2^1024. Python's
      `int / int` rounds the exact quotient to the nearest double, ties to even, and
      raises OverflowError when that rounds to 2^1024; the tie at this point goes up
      because the largest double has an odd significand. In hex it is
      FFFFFFFFFFFFFC, which is 4 * (2^54 - 1), followed by 242 zeros. */
  const FloatOverflowThreshold: int := 0xFFFFFFFFFFFFFC00_0000000000000000_0000000000000000_0000000000000000_0000000000000000_0000000000000000_0000000000000000_0000000000000000_0000000000000000_0000000000000000_0000000000000000_0000000000000000_0000000000000000_0000000000000000_0000000000000000_0000000000000000

  /** `sum(values) / len(values)` raises OverflowError: the mean is at least the
      threshold in magnitude. */
  predicate MeanOverflows(total: int, count: int)
  {
    count > 0 && (total >= FloatOverflowThreshold * count || -total >= FloatOverflowThreshold * count)
  }

  /** `get_statistics` can build the entry of `field`: the store is not empty, the field
      holds an integer in every match, and the mean of those integers fits a double. */
  predicate FieldSummarisable(store: Store, field: string)
  {
    |store| > 0 && IntField(store, field) && !MeanOverflows(Sum(FieldInts(store, field)), |store|)
  }

  /** `fs` reports the least, the greatest and the total of `field` over the store. */
  ghost predicate Summarises(fs: FieldStats, store: Store, field: string)
    requires IntField(store, field)
  {
    var xs := FieldInts(store, field);
    && (forall i | 0 <= i < |xs| :: fs.min <= xs[i] <= fs.max)
    && (exists i | 0 <= i < |xs| :: xs[i] == fs.min)
    && (exists i | 0 <= i < |xs| :: xs[i] == fs.max)
    && fs.sum == Sum(xs)
  }

  /** The entry `get_statistics` builds for one field: the list comprehension raises
      KeyError when a match lacks the field, `min` raises ValueError on an empty store,
      a value that is not an integer makes `min`, `max` or `sum` raise TypeError, and the
      average's true division raises OverflowError when the mean is too large for a
      double. `sum` is first called inside the average, so the later `"sum"` entry never
      raises on its own. */
  function FieldStatistics(store: Store, field: string): (r: Result<FieldStats, Fault>)
    ensures r.Ok? <==> FieldSummarisable(store, field)
    ensures r == Err(KeyError) <==> !AllHaveField(store, field)
    ensures r == Err(ValueError) <==> |store| == 0
    ensures r == Err(TypeError) <==> |store| > 0 && AllHaveField(store, field) && !IntField(store, field)
    ensures r.Err? ==> r.error in {KeyError, ValueError, TypeError, OverflowError}
    ensures r == Err(OverflowError) <==>
      |store| > 0 && IntField(store, field) && MeanOverflows(Sum(FieldInts(store, field)), |store|)
    ensures r.Ok? ==> Summarises(r.value, store, field)
  {
    if !AllHaveField(store, field) then Err(KeyError)
    else if |store| == 0 then Err(ValueError)
    else if !IntField(store, field) then Err(TypeError)
    else
      IntsStatistics(FieldInts(store, field))
  }

  /** The entry for a non-empty list of integers: min, max and sum, unless the mean is
      too large for a double. */
  function IntsStatistics(xs: seq<int>): Result<FieldStats, Fault>
    requires |xs| > 0
  {
    if MeanOverflows(Sum(xs), |xs|) then Err(OverflowError)
    else Ok(FieldStats(Min(xs), Max(xs), Sum(xs)))
  }

  /** `get_statistics()`: the entries for home_score, away_score and spectators, in
      that order; the first field that raises decides the fault. */
  function GetStatistics(store: Store): (r: Result<Statistics, Fault>)
    ensures r.Ok? <==> FieldSummarisable(store, "home_score")
                       && FieldSummarisable(store, "away_score")
                       && FieldSummarisable(store, "spectators")
    ensures |store| == 0 ==> r == Err(ValueError)
    ensures r.Ok? ==>
      && Summarises(r.value.homeScore, store, "home_score")
      && Summarises(r.value.awayScore, store, "away_score")
      && Summarises(r.value.spectators, store, "spectators")
  {
    match FieldStatistics(store, "home_score")
    case Err(e) => Err(e)
    case Ok(home) =>
      match FieldStatistics(store, "away_score")
      case Err(e) => Err(e)
      case Ok(away) =>
        match FieldStatistics(store, "spectators")
        case Err(e) => Err(e)
        case Ok(crowd) => Ok(Statistics(home, away, crowd))
  }

  lemma MinAppend(xs: seq<int>, v: int)
    requires |xs| > 0
    ensures Min(xs + [v]) == (if v < Min(xs) then v else Min(xs))
  {
    var ys := xs + [v];
    var lo :| 0 <= lo < |ys| && ys[lo] == Min(ys);
    var lo0 :| 0 <= lo0 < |xs| && xs[lo0] == Min(xs);
    assert ys[lo0] == xs[lo0] && ys[|xs|] == v;
    if lo < |xs| {
      assert ys[lo] == xs[lo];
    }
  }

  lemma MaxAppend(xs: seq<int>, v: int)
    requires |xs| > 0
    ensures Max(xs + [v]) == (if v > Max(xs) then v else Max(xs))
  {
    var ys := xs + [v];
    var hi :| 0 <= hi < |ys| && ys[hi] == Max(ys);
    var hi0 :| 0 <= hi0 < |xs| && xs[hi0] == Max(xs);
    assert ys[hi0] == xs[hi0] && ys[|xs|] == v;
    if hi < |xs| {
      assert ys[hi] == xs[hi];
    }
  }

  lemma FieldIntsAppend(store: Store, m: Match, field: string)
    requires IntField(store, field)
    requires field in m && m[field].Int?
    ensures IntField(store + [m], field)
    ensures FieldInts(store + [m], field) == FieldInts(store, field) + [m[field].i]
  {
    var xs := FieldInts(store, field);
    forall i | 0 <= i < |store + [m]|
      ensures field in (store + [m])[i] && (store + [m])[i][field].Int?
    {
      if i < |store| {
        assert (store + [m])[i] == store[i];
      }
    }
    var ys := FieldInts(store + [m], field);
    forall i | 0 <= i < |ys| ensures ys[i] == (xs + [m[field].i])[i] {
      if i < |store| {
        assert (store + [m])[i] == store[i];
      }
    }
  }

  /** `after` is `before` with one more value `v` taken in. */
  predicate TakesIn(before: FieldStats, after: FieldStats, v: int)
  {
    && after.min == (if v < before.min then v else before.min)
    && after.max == (if v > before.max then v else before.max)
    && after.sum == before.sum + v
  }

  /** `after` is what the entry `before` of `n - 1` values becomes when one more value
      `v` joins: a success exactly when the new mean fits a double, and then the minimum
      and maximum take `v` into account and the sum grows by it. */
  predicate FieldAfterAppend(before: FieldStats, after: Result<FieldStats, Fault>, v: int, n: int)
  {
    && (after.Ok? <==> !MeanOverflows(before.sum + v, n))
    && (after.Ok? ==> TakesIn(before, after.value, v))
  }

  lemma IntsStatisticsAppend(xs: seq<int>, v: int)
    requires |xs| > 0 && IntsStatistics(xs).Ok?
    ensures FieldAfterAppend(IntsStatistics(xs).value, IntsStatistics(xs + [v]), v, |xs| + 1)
  {
    var ys := xs + [v];
    MinAppend(xs, v);
    MaxAppend(xs, v);
    SumAppend(xs, v);
    EntryAfterAppend(IntsStatistics(xs).value, IntsStatistics(ys), v, |xs| + 1, Min(ys), Max(ys), Sum(ys));
  }

  /** An entry built from the new minimum, maximum and sum, or OverflowError, took `v` in. */
  lemma EntryAfterAppend(before: FieldStats, after: Result<FieldStats, Fault>, v: int, n: int,
                         lo: int, hi: int, total: int)
    requires lo == (if v < before.min then v else before.min)
    requires hi == (if v > before.max then v else before.max)
    requires total == before.sum + v
    requires after == if MeanOverflows(total, n) then Err(OverflowError) else Ok(FieldStats(lo, hi, total))
    ensures FieldAfterAppend(before, after, v, n)
  {
  }

  /** Adding a match moves the statistics of a field by exactly its value. */
  lemma FieldStatisticsAfterAppend(store: Store, m: Match, field: string)
    requires FieldStatistics(store, field).Ok?
    requires field in m && m[field].Int?
    ensures FieldAfterAppend(FieldStatistics(store, field).value, FieldStatistics(store + [m], field),
                             m[field].i, |store| + 1)
  {
    var xs := FieldInts(store, field);
    FieldIntsAppend(store, m, field);
    assert FieldStatistics(store, field) == IntsStatistics(xs);
    assert FieldStatistics(store + [m], field) == IntsStatistics(xs + [m[field].i]);
    IntsStatisticsAppend(xs, m[field].i);
  }

  /** Each entry of `after` is the matching entry of `before` with the value of `m`. */
  predicate StatisticsTakeIn(before: Statistics, after: Statistics, m: Record)
  {
    && "home_score" in m && m["home_score"].Int?
    && "away_score" in m && m["away_score"].Int?
    && "spectators" in m && m["spectators"].Int?
    && TakesIn(before.homeScore, after.homeScore, m["home_score"].i)
    && TakesIn(before.awayScore, after.awayScore, m["away_score"].i)
    && TakesIn(before.spectators, after.spectators, m["spectators"].i)
  }

  /** `after` is what the statistics `before` become when a match `m` with integer
      scores and crowd joins, making `n` matches: a success exactly when no new mean is
      too large for a double, and then every entry has taken the match's value in. */
  predicate StatisticsAfterAppend(before: Statistics, after: Result<Statistics, Fault>, m: Record, n: int)
  {
    && "home_score" in m && m["home_score"].Int?
    && "away_score" in m && m["away_score"].Int?
    && "spectators" in m && m["spectators"].Int?
    && (after.Ok? <==>
          && !MeanOverflows(before.homeScore.sum + m["home_score"].i, n)
          && !MeanOverflows(before.awayScore.sum + m["away_score"].i, n)
          && !MeanOverflows(before.spectators.sum + m["spectators"].i, n))
    && (after.Ok? ==> StatisticsTakeIn(before, after.value, m))
  }

  /** Appending a match with integer scores and crowd to a store whose statistics
      succeed moves them as `StatisticsAfterAppend` describes. */
  lemma GetStatisticsAfterAppend(store: Store, m: Match)
    requires "home_score" in m && m["home_score"].Int?
    requires "away_score" in m && m["away_score"].Int?
    requires "spectators" in m && m["spectators"].Int?
    ensures GetStatistics(store).Ok? ==>
              StatisticsAfterAppend(GetStatistics(store).value, GetStatistics(store + [m]), m, |store| + 1)
  {
    if GetStatistics(store).Ok? {
      var after := store + [m];
      GetStatisticsByField(store);
      GetStatisticsByField(after);
      FieldStatisticsAfterAppend(store, m, "home_score");
      FieldStatisticsAfterAppend(store, m, "away_score");
      FieldStatisticsAfterAppend(store, m, "spectators");
      CombineAfterAppend(GetStatistics(store).value, FieldStatistics(after, "home_score"),
                         FieldStatistics(after, "away_score"), FieldStatistics(after, "spectators"),
                         GetStatistics(after), m, |store| + 1);
    }
  }

  /** Three entries that each took in the value of `m` make statistics that took in `m`. */
  lemma CombineAfterAppend(before: Statistics, home: Result<FieldStats, Fault>,
                           away: Result<FieldStats, Fault>, crowd: Result<FieldStats, Fault>,
                           after: Result<Statistics, Fault>, m: Record, n: int)
    requires "home_score" in m && m["home_score"].Int?
    requires "away_score" in m && m["away_score"].Int?
    requires "spectators" in m && m["spectators"].Int?
    requires FieldAfterAppend(before.homeScore, home, m["home_score"].i, n)
    requires FieldAfterAppend(before.awayScore, away, m["away_score"].i, n)
    requires FieldAfterAppend(before.spectators, crowd, m["spectators"].i, n)
    requires after.Ok? <==> home.Ok? && away.Ok? && crowd.Ok?
    requires after.Ok? ==> after.value == Statistics(home.value, away.value, crowd.value)
    ensures StatisticsAfterAppend(before, after, m, n)
  {
  }

  /** `get_statistics` succeeds exactly when each of its three entries does, and then
      holds those entries. */
  lemma GetStatisticsByField(store: Store)
    ensures var r := GetStatistics(store);
            && (r.Ok? <==> FieldStatistics(store, "home_score").Ok?
                           && FieldStatistics(store, "away_score").Ok?
                           && FieldStatistics(store, "spectators").Ok?)
            && (r.Ok? ==> r.value == Statistics(FieldStatistics(store, "home_score").value,
                                                FieldStatistics(store, "away_score").value,
                                                FieldStatistics(store, "spectators").value))
  {
  }

  /** The statistics of a field whose values are 2, 0 and 3, as the home scores of the
      initial matches are. */
  lemma HomeScoreStatisticsExample(store: Store)
    requires IntField(store, "home_score")
    requires FieldInts(store, "home_score") == [2, 0, 3]
    ensures FieldStatistics(store, "home_score") == Ok(FieldStats(0, 3, 5))
  {
    var xs := FieldInts(store, "home_score");
    assert xs[1..] == [0, 3] && xs[1..][1..] == [3];
    assert Min([0, 3]) == 0 && Max([0, 3]) == 3 && Sum([0, 3]) == 3 by {
      assert [0, 3][1..] == [3];
    }
  }

  lemma InitialBodyHomeScores()
    ensures FirstInitialBody["home_score"] == Int(2)
    ensures SecondInitialBody["home_score"] == Int(0)
    ensures ThirdInitialBody["home_score"] == Int(3)
  {
  }

  /** The home scores of the matches the service starts with are 2, 0 and 3. */
  lemma InitialHomeScores()
    ensures IntField(InitialMatches, "home_score")
    ensures FieldInts(InitialMatches, "home_score") == [2, 0, 3]
  {
    InitialBodyHomeScores();
    var s := InitialMatches;
    assert s == [s[0], s[1], s[2]];
    assert s[0]["home_score"] == Int(2) && s[1]["home_score"] == Int(0)
        && s[2]["home_score"] == Int(3);
    FieldIntsOfThree(s[0], s[1], s[2], "home_score", 2, 0, 3);
  }

  lemma FieldIntsOfThree(a: Match, b: Match, c: Match, field: string, x: int, y: int, z: int)
    requires field in a && field in b && field in c
    requires a[field] == Int(x) && b[field] == Int(y) && c[field] == Int(z)
    ensures IntField([a, b, c], field)
    ensures FieldInts([a, b, c], field) == [x, y, z]
  {
  }

  /** On the matches the service starts with, home_score has min 0, max 3 and sum 5. */
  lemma InitialHomeScoreStatistics()
    ensures FieldStatistics(InitialMatches, "home_score") == Ok(FieldStats(0, 3, 5))
  {
    InitialHomeScores();
    HomeScoreStatisticsExample(InitialMatches);
  }
}
