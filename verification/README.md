# Football matches service: store and route handlers in Dafny

This project models the core of a small web service that keeps football match
records in memory and exposes them over HTTP:

- the match store of `data.py`: listing with an optional sort on one field, lookup by
  id, creation with id `max + 1`, full replacement, deletion, and min/max/sum
  statistics over `home_score`, `away_score` and `spectators`;
- the decision logic of the route handlers of `api/matches.py`: for a store, a path id
  and a request body, each handler gives a status code, a response payload and the
  store after the request.

Layout:

- `wrappers.dfy` (`Wrappers`): `Option` and `Result`.
- `values.dfy` (`Values`): JSON values (`Int`, `Str`), records as
  `map<string, Value>`, and Python's ordering of values (numeric for integers,
  code-point lexicographic for strings), proved total, transitive and antisymmetric.
- `sorting.dfy` (`Sorting`): the stable sort behind `sorted(matches, key=...)`, with
  its specification (sorted, a permutation, ties in their original order) and the
  proof that this specification determines the result.
- `data.dfy` (`Data`): the store. A stored match is a record whose `"id"` holds an
  integer; every other key is whatever the creating or replacing body held, because
  the service validates nothing but key presence. The Python module keeps the list in
  a global; here each operation takes the list and returns the new one. Where the
  Python code raises (`IndexError`, `KeyError`, `TypeError`, `ValueError`), the
  operation returns that fault.
- `matches.dfy` (`MatchesApi`): the handlers. A fault the store raises becomes status
  500, as the web framework answers an uncaught exception.

Behaviour of the code worth knowing before reading the contracts:

- On an empty store, `add_match` raises ValueError (`max` of no ids), `get_statistics`
  raises ValueError (`min` of no values), and `get_all_matches` with a sort field
  raises IndexError (`matches[0]`). The model returns those faults, and the handlers
  answer them with 500.
- `max + 1` hands out the id of a deleted newest match again
  (`MatchesApi.DeletedIdIsReused`).
- `patch_match` checks the body before the id: an empty body gives 400 even for an
  unknown id.
- `delete_match` always returns True; the 404 of a DELETE comes from the handler's own
  lookup.
- `get_statistics` computes the average with Python's true division of two integers,
  which raises OverflowError when the mean is too large for a double: at least
  2^1024 - 2^970 in magnitude, the point from which the correctly rounded quotient
  becomes 2^1024. The model returns that fault (`Data.MeanOverflows`), so a match
  with a huge crowd makes the statistics answer 500
  (`MatchesApi.HugeCrowdGivesServerError`).

## Model

| member | source | states |
|---|---|---|
| `Values.StrLt` | data.py:46 | Python's `<` on strings: the first differing code point decides, and a proper prefix is smaller; `Values.StrLtTotal` and `Values.StrLtTransitive` make it a strict total order |
| `Values.ValueLe` | data.py:46 | Python's `<=` on the sort keys: integers numerically, strings by `Values.StrLt`; integers and strings never meet because a mixed field is a TypeError first |
| `Values.ValueLeTotal` | data.py:46 | any two values are ordered one way or the other, so `sorted` can place every match |
| `Values.ValueLeTransitive` | data.py:46 | the ordering `sorted` uses on field values is transitive |
| `Values.ValueLeAntisymmetric` | data.py:46 | two values ordered both ways are equal, so a sorted list fixes the position of each key group |
| `Sorting.InsertWithKey` | data.py:46 | inserting an element adds it to the front of its own key group and leaves every other group as it was |
| `Sorting.StableSort` | data.py:46 | `sorted(..., key=...)` returns a permutation of its input, non-decreasing in the key, and for every key value the matches with that value appear in their input order |
| `Sorting.StableSortIsUnique` | data.py:46 | any arrangement that is sorted and keeps each key group in input order is exactly the stable sort's result |
| `Sorting.SortingSortedIsIdentity` | data.py:46 | sorting a list already in key order returns it unchanged |
| `Data.InitialMatchesHaveUniqueIds` | data.py:7-41 | the three initial matches have ids 1, 2, 3, pairwise distinct |
| `Data.GetAllMatches` | data.py:43-47 | no sort field, an empty one, or one that is not a key of the first match: the store unchanged, in order; otherwise IndexError on an empty store, KeyError if some match lacks the field, TypeError if the field mixes integers and strings, and in every other case success, with a permutation sorted on the field and ties in their original order; no other fault |
| `Data.FindIndex` | data.py:51-54 | the scan stops at the first position whose id matches, and finds nothing exactly when no match has that id |
| `Data.GetMatchById` | data.py:49-54 | the result is the first match with that id; None exactly when no match has it |
| `Data.GetMatchByIdUnique` | data.py:49-54 | with distinct ids, looking up the id of a stored match returns that match |
| `Data.Max` | data.py:58 | `max` of a non-empty list is at least every element and is one of them |
| `Data.Min` | data.py:86 | `min` of a non-empty list is at most every element and is one of them |
| `Data.WithId` | data.py:59 | setting `"id"` keeps every other key and value of the body and adds `"id"` with the given integer |
| `Data.AddMatch` | data.py:56-61 | ValueError exactly on an empty store; otherwise the body is appended with an id one above an existing id and above every existing id, and it keeps all other keys and values of the body |
| `Data.AddMatchKeepsIdsUnique` | data.py:56-61 | adding a match keeps the ids distinct |
| `Data.UpdateMatch` | data.py:63-70 | with no match of that id: None and the store unchanged; otherwise the body, with `"id"` forced to the path id, takes the place of the first match with that id and every other position is unchanged |
| `Data.UpdateMatchKeepsIdsUnique` | data.py:63-70 | replacing a match keeps the ids distinct |
| `Data.FirstWithIdIsUnique` | data.py:51-53 | there is only one first position holding an id |
| `Data.UpdateMatchIdempotent` | data.py:63-70 | replacing twice with the same body gives the same store and record as replacing once |
| `Data.Without` | data.py:75 | the list comprehension of `delete_match`: never longer than the store; `Data.WithoutMembers` and `Data.WithoutConcat` state what it keeps and in which order |
| `Data.WithoutMembers` | data.py:75 | the kept list holds exactly the stored matches with another id |
| `Data.DeleteMatch` | data.py:72-76 | always returns True; afterwards no match has the id, and exactly the matches with another id remain |
| `Data.DeleteMatchAbsent` | data.py:72-76 | deleting an id that is not stored leaves the store unchanged |
| `Data.DeleteMatchIdempotent` | data.py:72-76 | deleting twice equals deleting once |
| `Data.WithoutConcat` | data.py:75 | deletion works piecewise over a concatenation, so the kept matches stay in their original order |
| `Data.DeleteMatchUnique` | data.py:72-76 | with distinct ids, deleting the id at position `i` leaves exactly the matches before and after `i` |
| `Data.DeleteMatchKeepsIdsUnique` | data.py:72-76 | deleting keeps the ids distinct |
| `Data.FieldStatistics` | data.py:83-90 | KeyError exactly when some match lacks the field, ValueError exactly on an empty store, TypeError exactly when every match has the field but some value is not an integer, OverflowError exactly when the integers' mean is too large for a double; otherwise min is at most every value, max at least every value, both are attained, and sum is the total of the field over all matches |
| `Data.GetStatistics` | data.py:78-92 | succeeds exactly on a non-empty store whose three numeric fields are integers everywhere with means that fit a double, and then each entry summarises its field as above |
| `Data.GetStatisticsByField` | data.py:83-90 | the statistics succeed exactly when each of the three entries does, and then hold those entries |
| `Data.MinAppend` | data.py:86 | the `min` of a list with one more value is that value if it is smaller, else the old `min` |
| `Data.MaxAppend` | data.py:87 | the `max` of a list with one more value is that value if it is larger, else the old `max` |
| `Data.Sum` | data.py:89 | Python's `sum` of a list of integers; `Data.SumAppend` gives its step |
| `Data.SumAppend` | data.py:89 | the sum of a list with one more value grows by that value |
| `Data.IntsStatisticsAppend` | data.py:86-90 | one more value in a non-empty list of integers: the entry succeeds exactly when the new mean fits a double, and then min and max take the value into account and the sum grows by it |
| `Data.FieldStatisticsAfterAppend` | data.py:83-90 | appending a match with an integer in the field: the entry still succeeds exactly when the new mean fits a double, and then min and max take the new value into account and the sum grows by it |
| `Data.GetStatisticsAfterAppend` | data.py:78-92 | when the statistics of a store succeed, appending a match with integer scores and crowd: they still succeed exactly when no new mean is too large for a double, and then every entry takes the match's value in |
| `Data.InitialHomeScores` | data.py:7-41 | the initial matches have home scores 2, 0 and 3, all integers |
| `Data.InitialHomeScoreStatistics` | data.py:7-41 | on the initial matches, home_score has min 0, max 3 and sum 5 |
| `MatchesApi.GetMatches` | api/matches.py:64-66 | 200 with exactly the list `get_all_matches` gives for the sort argument, or 500 when it raises; the store never changes; without a sort argument the list is the store |
| `MatchesApi.SortOnIntFieldSucceeds` | api/matches.py:64-66 | a non-empty sort field that every match of a non-empty store holds as an integer (such as `spectators`) answers 200 with a permutation of the store, non-decreasing in that field |
| `MatchesApi.GetMatch` | api/matches.py:107-110 | 200 with the first match of that id exactly when the id is stored, otherwise 404; the store never changes |
| `MatchesApi.CreateMatch` | api/matches.py:164-173 | 400 with the store unchanged exactly when the body lacks one of the eight fields; 201 exactly for a complete body on a non-empty store, with the new match appended, an id above every existing id, and the body's other entries kept; every other case is 500 with the store unchanged |
| `MatchesApi.HasAllFields` | api/matches.py:168-170 | the body holds every one of the eight match fields, the test before a POST is stored |
| `MatchesApi.ModifyMatch` | api/matches.py:215-220 | 404 with the store unchanged for an unknown id; for a stored id and a JSON object body, 200 with the first match of that id replaced by the body under the same id and every other position unchanged; a null body on a stored id gives 500 (TypeError) with the store unchanged |
| `MatchesApi.Restrict` | api/matches.py:303-306 | the result holds exactly the body's keys that are in the list, with their values |
| `MatchesApi.PatchFields` | api/matches.py:300-306 | the patch dictionary holds exactly the body's keys that are among the eight match fields, with the body's values, and never `"id"` |
| `MatchesApi.IsEmptyBody` | api/matches.py:293-294 | Python's `not data` on the PATCH body: a null body or an empty object |
| `MatchesApi.Truthy` | api/matches.py:312-315 | Python's truthiness of the updated record that decides between 200 and 500 |
| `MatchesApi.PatchMatch` | api/matches.py:291-315 | an empty or null body gives 400 whatever the store; only a non-empty body reaches 404 for an unknown id; a body without match fields gives 400 with the store unchanged; only then is the partial update called, and its truthy answer gives 200, its falsy answer 500 |
| `MatchesApi.RemoveMatch` | api/matches.py:334-338 | 404 with the store unchanged for an unknown id; otherwise 200 with the confirmation, and exactly the matches with another id remain |
| `MatchesApi.GetMatchesStats` | api/matches.py:386-387 | 200 with the statistics when they can be computed, otherwise 500 with the fault; on an empty store 500 for ValueError |
| `MatchesApi.StatsAfterCreate` | api/matches.py:164-173 | on a non-empty store, a POST of a complete body with integer scores and crowd gives 201; if the statistics succeeded before, they now answer 200 exactly when no mean grows too large for a double, and then every min, max and sum has taken the new values in |
| `MatchesApi.HugeCrowdGivesServerError` | data.py:88 | a store whose one match has a crowd of 2^1024 - 2^970 gets 500 with OverflowError from the statistics |
| `MatchesApi.GetAfterCreate` | api/matches.py:169-173 | a GET of the id a successful POST returned gives 200 with the stored record |
| `MatchesApi.GetAfterModify` | api/matches.py:215-220 | after a successful PUT, a GET of the id gives the record the PUT returned |
| `MatchesApi.ModifyMatchIdempotent` | api/matches.py:215-220 | the same PUT sent twice gives the same reply and store as sending it once |
| `MatchesApi.GetAfterRemove` | api/matches.py:334-338 | after a DELETE of an id, a GET of that id gives 404 |
| `MatchesApi.HandlersKeepIdsUnique` | api/matches.py:64-338 | every handler except PATCH keeps the ids of the store distinct |
| `MatchesApi.DeletedIdIsReused` | data.py:56-76 | on a store with ids 1, 2, 3, deleting match 3 and creating a match gives the new match id 3 again |

## Left out

- The web framework, the API documentation strings and JSON serialisation: request
  bodies are records (or None), responses are a status, a payload and the store.
- `main.py` as a whole: application set-up, documentation configuration, the server
  start and the static `index` and `info` replies.
- The value of the `average` entry of the statistics (`round(sum / len, 2)`): it is
  floating-point arithmetic. Only its failure, OverflowError for a mean too large for
  a double, is modelled; the other three entries are modelled in full.
- `partial_update_match`: `data.py` does not define it, so importing it would fail
  when the module loads. `MatchesApi.PatchMatch` takes it as a function argument and
  assumes nothing about it, so nothing is proved about the store after a successful
  PATCH, and `MatchesApi.HandlersKeepIdsUnique` leaves PATCH out.
- JSON values other than integers and strings (null, booleans, floats, arrays,
  objects) and request bodies that are JSON arrays or scalars. With booleans or floats
  Python could compare or sum values that the model treats as a TypeError.
- `Data.GetAllMatches`: for a field holding both integers and strings the model
  reports TypeError from the kinds alone; Python raises at the first comparison of an
  integer with a string, which every sort of such a list makes.
- Python aliasing: `add_match` and `update_match` store and return the caller's dict,
  and `delete_match` rebinds the global list. The model uses values throughout.
- Parsing of the `<int:match_id>` path segment and concurrent requests: both belong
  to the framework, and the code has no locking to model.
