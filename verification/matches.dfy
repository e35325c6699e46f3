/** The route handlers of api/matches.py with the web framework stripped away: each
    handler takes the store, the path id and the request body, and gives the status
    code, the response payload and the store after the request. */
module MatchesApi {
  import opened Wrappers
  import opened Values
  import opened Data

  /** The reasons the handlers give in an `{"error": ...}` response. */
  datatype ErrorKind = NotFound | MissingFields | NoData | NoValidFields | UpdateFailed

  function ErrorText(e: ErrorKind): string
  {
    match e
    case NotFound => "Матч не найден"
    case MissingFields => "Отсутствуют обязательные поля"
    case NoData => "Нет данных для обновления"
    case NoValidFields => "Нет валидных полей для обновления"
    case UpdateFailed => "Ошибка при обновлении матча"
  }

  /** The text of the `{"message": ...}` confirmation of a deletion. */
  const DeletedText: string := "Матч удален"

  datatype Payload =
    | OneMatch(record: Record)
    | MatchList(matches: Store)
    | StatsReport(stats: Statistics)
    | ErrorMessage(error: string)
    | Confirmation(text: string)
      /** The framework's answer to an exception the handler did not catch. */
    | InternalError(fault: Fault)

  datatype Reply = Reply(status: int, payload: Payload, store: Store)

  /** What `request.get_json()` gave: a JSON object, or None for a `null` body. */
  type Body = Option<Record>

  /** The eight fields of a match besides its id. create_match requires all of them and
      patch_match accepts only these; the source writes the same list out twice. */
  const MatchFields: seq<string> :=
    ["home_team", "away_team", "home_score", "away_score",
     "date", "spectators", "stadium", "tournament"]

  predicate HasAllFields(data: Record)
  {
    forall i | 0 <= i < |MatchFields| :: MatchFields[i] in data
  }

  /** Python's `not data` on a body: true for None and for an empty object. */
  predicate IsEmptyBody(body: Body)
  {
    body.None? || body.value == map[]
  }

  // ---------------------------------------------------------------------------
  // GET /api/matches
  // ---------------------------------------------------------------------------

  /** `get_matches`: the list `get_all_matches` gives for the `sort` query argument. */
  function GetMatches(store: Store, sort: Option<string>): (r: Reply)
    ensures r.store == store
    ensures r.status == 200 <==> GetAllMatches(store, sort).Ok?
    ensures r.status == 200 ==> r.payload == MatchList(GetAllMatches(store, sort).value)
    ensures r.status != 200 ==> r.status == 500
    ensures !SortRequested(sort) ==> r == Reply(200, MatchList(store), store)
  {
    match GetAllMatches(store, sort)
    case Ok(list) => Reply(200, MatchList(list), store)
    case Err(e) => Reply(500, InternalError(e), store)
  }

  /** A sort on a field every match holds as an integer, such as `?sort=spectators`,
      answers 200 with the store sorted on that field. */
  lemma SortOnIntFieldSucceeds(store: Store, field: string)
    requires field != "" && |store| > 0 && IntField(store, field)
    ensures var r := GetMatches(store, Some(field));
      && r.status == 200 && r.payload.MatchList?
      && multiset(r.payload.matches) == multiset(store)
      && (forall i, j | 0 <= i < j < |r.payload.matches| ::
            ValueLe(r.payload.matches[i][field], r.payload.matches[j][field]))
  {
  }

  // ---------------------------------------------------------------------------
  // GET /api/matches/<id>
  // ---------------------------------------------------------------------------

  /** `get_match`: the match with that id, or 404. A stored match always holds "id",
      so the dict found is never falsy. */
  function GetMatch(store: Store, id: int): (r: Reply)
    ensures r.store == store
    ensures r.status == 200 <==> HasId(store, id)
    ensures r.status != 200 ==> r == Reply(404, ErrorMessage(ErrorText(NotFound)), store)
    ensures r.status == 200 ==>
      exists i :: IsFirstWithId(store, id, i) && r.payload == OneMatch(store[i])
  {
    match GetMatchById(store, id)
    case Some(m) => Reply(200, OneMatch(m), store)
    case None => Reply(404, ErrorMessage(ErrorText(NotFound)), store)
  }

  // ---------------------------------------------------------------------------
  // POST /api/matches
  // ---------------------------------------------------------------------------

  /** `create_match`: 400 unless the body holds all eight fields, otherwise the body is
      stored under a fresh id and returned with 201. A `null` body makes the presence
      test raise TypeError, and an empty store makes `add_match` raise ValueError. */
  function CreateMatch(store: Store, body: Body): (r: Reply)
    ensures r.status == 400 <==> body.Some? && !HasAllFields(body.value)
    ensures r.status == 400 ==> r == Reply(400, ErrorMessage(ErrorText(MissingFields)), store)
    ensures r.status == 201 <==> body.Some? && HasAllFields(body.value) && |store| > 0
    ensures r.status != 201 ==> r.store == store
    ensures r.status !in {201, 400} ==> r.status == 500
    ensures r.status == 201 ==> |r.store| == |store| + 1
    ensures r.status == 201 ==>
      var added := r.store[|store|];
      && r.store[..|store|] == store
      && r.payload == OneMatch(added)
      && (forall i | 0 <= i < |store| :: IdOf(store[i]) < IdOf(added))
      && added.Keys == body.value.Keys + {"id"}
      && (forall k | k in body.value && k != "id" :: added[k] == body.value[k])
  {
    match body
    case None => Reply(500, InternalError(TypeError), store)
    case Some(data) =>
      if !HasAllFields(data) then Reply(400, ErrorMessage(ErrorText(MissingFields)), store)
      else
        match AddMatch(store, data)
        case Err(e) => Reply(500, InternalError(e), store)
        case Ok((after, added)) =>
          assert after[|store|] == added && after[..|store|] == store;
          Reply(201, OneMatch(added), after)
  }

  // ---------------------------------------------------------------------------
  // PUT /api/matches/<id>
  // ---------------------------------------------------------------------------

  /** `modify_match`: no validation of the body; the first match with that id is
      replaced by the body with "id" forced back, or 404 when there is none. A `null`
      body reaches `match_data["id"] = ...` only when the id is stored, and raises there. */
  function ModifyMatch(store: Store, id: int, body: Body): (r: Reply)
    ensures !HasId(store, id) ==> r == Reply(404, ErrorMessage(ErrorText(NotFound)), store)
    ensures HasId(store, id) && body.None? ==> r == Reply(500, InternalError(TypeError), store)
    ensures HasId(store, id) && body.Some? ==>
      && r.status == 200
      && exists i :: IsFirstWithId(store, id, i)
           && |r.store| == |store|
           && r.store == store[i := r.store[i]]
           && r.payload == OneMatch(r.store[i])
           && IdOf(r.store[i]) == id
           && r.store[i].Keys == body.value.Keys + {"id"}
           && (forall k | k in body.value && k != "id" :: r.store[i][k] == body.value[k])
  {
    match body
    case None =>
      if HasId(store, id) then Reply(500, InternalError(TypeError), store)
      else Reply(404, ErrorMessage(ErrorText(NotFound)), store)
    case Some(data) =>
      match UpdateMatch(store, id, data)
      case (after, Some(m)) => Reply(200, OneMatch(m), after)
      case (after, None) => Reply(404, ErrorMessage(ErrorText(NotFound)), store)
  }

  // ---------------------------------------------------------------------------
  // PATCH /api/matches/<id>
  // ---------------------------------------------------------------------------

  /** The entries of `data` whose keys are among `fields`. */
  function Restrict(data: Record, fields: seq<string>): (r: Record)
    ensures forall k :: k in r <==> k in data && k in fields
    ensures forall k | k in r :: r[k] == data[k]
  {
    if |fields| == 0 then map[]
    else
      var rest := Restrict(data, fields[1..]);
      if fields[0] in data then rest[fields[0] := data[fields[0]]] else rest
  }

  /** The `update_data` dictionary patch_match builds from the body: the body's entries
      whose key is one of the eight match fields, values untouched. */
  function PatchFields(data: Record): (r: Record)
    ensures forall k :: k in r <==> k in data && k in MatchFields
    ensures forall k | k in r :: r[k] == data[k]
    ensures "id" !in r
  {
    Restrict(data, MatchFields)
  }

  /** The partial update of the store, `partial_update_match` in the source: the new
      store and the dict it returns. data.py does not define it, so the handler takes it
      as an argument and the model assumes nothing about it. */
  type PartialUpdate = (Store, int, Record) -> (Store, Option<Record>)

  /** Python's truthiness of the value `partial_update_match` returns. */
  predicate Truthy(result: Option<Record>)
  {
    result.Some? && result.value != map[]
  }

  /** `patch_match`: first 400 for an empty or `null` body, then 404 for an unknown id,
      then 400 when no key of the body is a match field; otherwise the whitelisted
      fields go to the partial update, whose falsy answer gives 500. */
  function PatchMatch(store: Store, id: int, body: Body, partialUpdate: PartialUpdate)
    : (r: Reply)
    ensures IsEmptyBody(body) ==> r == Reply(400, ErrorMessage(ErrorText(NoData)), store)
    ensures !IsEmptyBody(body) && !HasId(store, id)
        ==> r == Reply(404, ErrorMessage(ErrorText(NotFound)), store)
    ensures !IsEmptyBody(body) && HasId(store, id) && PatchFields(body.value) == map[]
        ==> r == Reply(400, ErrorMessage(ErrorText(NoValidFields)), store)
    ensures r.status in {200, 500} <==>
      !IsEmptyBody(body) && HasId(store, id) && PatchFields(body.value) != map[]
    ensures r.status in {200, 500} ==>
      var (after, result) := partialUpdate(store, id, PatchFields(body.value));
      && r.store == after
      && (r.status == 200 <==> Truthy(result))
      && (r.status == 200 ==> r.payload == OneMatch(result.value))
      && (r.status == 500 ==> r.payload == ErrorMessage(ErrorText(UpdateFailed)))
  {
    if IsEmptyBody(body) then Reply(400, ErrorMessage(ErrorText(NoData)), store)
    else if GetMatchById(store, id).None? then Reply(404, ErrorMessage(ErrorText(NotFound)), store)
    else
      var updates := PatchFields(body.value);
      if updates == map[] then Reply(400, ErrorMessage(ErrorText(NoValidFields)), store)
      else
        var (after, result) := partialUpdate(store, id, updates);
        if Truthy(result) then Reply(200, OneMatch(result.value), after)
        else Reply(500, ErrorMessage(ErrorText(UpdateFailed)), after)
  }

  // ---------------------------------------------------------------------------
  // DELETE /api/matches/<id>
  // ---------------------------------------------------------------------------

  /** `remove_match`: 404 for an unknown id, otherwise every match with that id is
      deleted and a confirmation is returned. */
  function RemoveMatch(store: Store, id: int): (r: Reply)
    ensures !HasId(store, id) ==> r == Reply(404, ErrorMessage(ErrorText(NotFound)), store)
    ensures HasId(store, id) ==>
      && r.status == 200
      && r.payload == Confirmation(DeletedText)
      && !HasId(r.store, id)
      && (forall m :: m in r.store <==> m in store && IdOf(m) != id)
  {
    match GetMatchById(store, id)
    case Some(_) => Reply(200, Confirmation(DeletedText), DeleteMatch(store, id).0)
    case None => Reply(404, ErrorMessage(ErrorText(NotFound)), store)
  }

  // ---------------------------------------------------------------------------
  // GET /api/matches/stats
  // ---------------------------------------------------------------------------

  /** `get_matches_stats`: the statistics, or 500 when `get_statistics` raises. */
  function GetMatchesStats(store: Store): (r: Reply)
    ensures r.store == store
    ensures r.status == 200 <==> GetStatistics(store).Ok?
    ensures r.status == 200 ==> r.payload == StatsReport(GetStatistics(store).value)
    ensures r.status != 200 ==> r.status == 500
    ensures |store| == 0 ==> r == Reply(500, InternalError(ValueError), store)
  {
    match GetStatistics(store)
    case Ok(stats) => Reply(200, StatsReport(stats), store)
    case Err(e) => Reply(500, InternalError(e), store)
  }

  // ---------------------------------------------------------------------------
  // Properties across requests
  // ---------------------------------------------------------------------------

  /** A GET of the id a successful POST returned gives back the stored record. */
  lemma GetAfterCreate(store: Store, body: Body)
    requires CreateMatch(store, body).status == 201
    ensures var created := CreateMatch(store, body);
            var added := created.store[|store|];
            GetMatch(created.store, IdOf(added)) == Reply(200, OneMatch(added), created.store)
  {
    var after := CreateMatch(store, body).store;
    var added := after[|store|];
    assert IsFirstWithId(after, IdOf(added), |store|) by {
      forall j | 0 <= j < |store| ensures IdOf(after[j]) != IdOf(added) {
        assert after[j] == store[j];
      }
    }
    var i :| IsFirstWithId(after, IdOf(added), i)
             && GetMatch(after, IdOf(added)).payload == OneMatch(after[i]);
    FirstWithIdIsUnique(after, IdOf(added), i, |store|);
  }

  /** After a successful PUT, a GET of the same id gives the record the PUT returned. */
  lemma GetAfterModify(store: Store, id: int, body: Body)
    requires ModifyMatch(store, id, body).status == 200
    ensures var modified := ModifyMatch(store, id, body);
            GetMatch(modified.store, id) == Reply(200, modified.payload, modified.store)
  {
    var modified := ModifyMatch(store, id, body);
    var i :| IsFirstWithId(store, id, i) && modified.store == store[i := modified.store[i]]
             && modified.payload == OneMatch(modified.store[i]) && IdOf(modified.store[i]) == id;
    assert IsFirstWithId(modified.store, id, i);
    var k :| IsFirstWithId(modified.store, id, k)
             && GetMatch(modified.store, id).payload == OneMatch(modified.store[k]);
    FirstWithIdIsUnique(modified.store, id, i, k);
  }

  /** Sending the same PUT twice leaves the store as the first one left it, and both
      replies carry the same record. */
  lemma ModifyMatchIdempotent(store: Store, id: int, body: Body)
    ensures var first := ModifyMatch(store, id, body);
            var second := ModifyMatch(first.store, id, body);
            second == first
  {
    if body.Some? {
      UpdateMatchIdempotent(store, id, body.value);
    }
  }

  /** Once a DELETE of an id has been answered, a GET of that id gives 404. */
  lemma GetAfterRemove(store: Store, id: int)
    ensures var removed := RemoveMatch(store, id);
            GetMatch(removed.store, id) == Reply(404, ErrorMessage(ErrorText(NotFound)), removed.store)
  {
  }

  /** Every handler except PATCH, whose store update is not part of this model, keeps
      the ids of the store pairwise distinct. */
  lemma HandlersKeepIdsUnique(store: Store, id: int, body: Body, sort: Option<string>)
    requires UniqueIds(store)
    ensures UniqueIds(GetMatches(store, sort).store)
    ensures UniqueIds(GetMatch(store, id).store)
    ensures UniqueIds(CreateMatch(store, body).store)
    ensures UniqueIds(ModifyMatch(store, id, body).store)
    ensures UniqueIds(RemoveMatch(store, id).store)
    ensures UniqueIds(GetMatchesStats(store).store)
  {
    if body.Some? {
      if HasAllFields(body.value) && |store| > 0 {
        AddMatchKeepsIdsUnique(store, body.value);
      }
      UpdateMatchKeepsIdsUnique(store, id, body.value);
    }
    DeleteMatchKeepsIdsUnique(store, id);
  }

  /** Ids are not reserved: deleting the match with the largest id and creating a new
      one hands the deleted id out again. */
  lemma DeletedIdIsReused(store: Store, body: Record)
    requires Ids(store) == [1, 2, 3]
    requires HasAllFields(body)
    ensures var removed := RemoveMatch(store, 3);
            var created := CreateMatch(removed.store, Some(body));
            && removed.status == 200
            && created.status == 201
            && |created.store| == 3
            && IdOf(created.store[2]) == 3
  {
    assert IdOf(store[0]) == 1 && IdOf(store[1]) == 2 && IdOf(store[2]) == 3;
    var removed := RemoveMatch(store, 3);
    DeleteMatchUnique(store, 3, 2);
    assert removed.store == store[..2];
    assert Ids(removed.store) == [1, 2];
    CreateAfterOneTwo(removed.store, body);
  }

  /** On a store with ids 1 and 2, a complete POST body is stored under id 3. */
  lemma CreateAfterOneTwo(store: Store, body: Record)
    requires Ids(store) == [1, 2]
    requires HasAllFields(body)
    ensures CreateMatch(store, Some(body)).status == 201
    ensures IdOf(CreateMatch(store, Some(body)).store[2]) == 3
  {
    assert IdOf(store[0]) == 1 && IdOf(store[1]) == 2;
    var added := AddMatch(store, body).value.1;
    assert IdOf(added) == 3;
  }

  /** The statistics reply for a store of `n` matches, the last of which has the scores
      and crowd of `body` and the others had the statistics `before`: 200 exactly when
      no mean is too large for a double, and then every minimum, maximum and sum has
      taken the new value in. */
  predicate ReplyTakesIn(before: Statistics, reply: Reply, body: Record, n: int)
  {
    && "home_score" in body && body["home_score"].Int?
    && "away_score" in body && body["away_score"].Int?
    && "spectators" in body && body["spectators"].Int?
    && (reply.status == 200 <==>
          && !MeanOverflows(before.homeScore.sum + body["home_score"].i, n)
          && !MeanOverflows(before.awayScore.sum + body["away_score"].i, n)
          && !MeanOverflows(before.spectators.sum + body["spectators"].i, n))
    && (reply.status == 200 ==>
          reply.payload.StatsReport? && StatisticsTakeIn(before, reply.payload.stats, body))
  }

  /** A successful POST moves each statistic by the new match's value. */
  lemma StatsAfterCreate(store: Store, body: Record)
    requires |store| > 0 && HasAllFields(body)
    requires "home_score" in body && body["home_score"].Int?
    requires "away_score" in body && body["away_score"].Int?
    requires "spectators" in body && body["spectators"].Int?
    ensures CreateMatch(store, Some(body)).status == 201
    ensures GetStatistics(store).Ok? ==>
              ReplyTakesIn(GetStatistics(store).value,
                           GetMatchesStats(CreateMatch(store, Some(body)).store), body, |store| + 1)
  {
    var added := CreateAppends(store, body);
    StatsReplyAfterAppend(store, added, body);
  }

  lemma StatsReplyAfterAppend(store: Store, added: Match, body: Record)
    requires "home_score" in body && body["home_score"].Int?
    requires "away_score" in body && body["away_score"].Int?
    requires "spectators" in body && body["spectators"].Int?
    requires forall k | k in body && k != "id" :: k in added && added[k] == body[k]
    ensures GetStatistics(store).Ok? ==>
              ReplyTakesIn(GetStatistics(store).value, GetMatchesStats(store + [added]), body, |store| + 1)
  {
    if GetStatistics(store).Ok? {
      var before := GetStatistics(store).value;
      var after := GetStatistics(store + [added]);
      assert added["home_score"] == body["home_score"];
      assert added["away_score"] == body["away_score"];
      assert added["spectators"] == body["spectators"];
      GetStatisticsAfterAppend(store, added);
      ReplyFromStatistics(before, after, GetMatchesStats(store + [added]), added, body, |store| + 1);
    }
  }

  /** A complete body on a non-empty store is appended, keeping its scores and crowd. */
  lemma CreateAppends(store: Store, body: Record) returns (added: Match)
    requires |store| > 0 && HasAllFields(body)
    ensures CreateMatch(store, Some(body)) == Reply(201, OneMatch(added), store + [added])
    ensures forall k | k in body && k != "id" :: k in added && added[k] == body[k]
  {
    var created := CreateMatch(store, Some(body));
    added := created.store[|store|];
    assert created.store == store + [added];
  }

  /** The statistics reply built from `after`, where `after` took in a match `m` with
      the scores and crowd of `body`. */
  lemma ReplyFromStatistics(before: Statistics, after: Result<Statistics, Fault>, reply: Reply,
                            m: Record, body: Record, n: int)
    requires "home_score" in body && body["home_score"].Int?
    requires "away_score" in body && body["away_score"].Int?
    requires "spectators" in body && body["spectators"].Int?
    requires "home_score" in m && m["home_score"] == body["home_score"]
    requires "away_score" in m && m["away_score"] == body["away_score"]
    requires "spectators" in m && m["spectators"] == body["spectators"]
    requires reply.status == 200 <==> after.Ok?
    requires after.Ok? ==> reply.payload == StatsReport(after.value)
    requires StatisticsAfterAppend(before, after, m, n)
    ensures ReplyTakesIn(before, reply, body, n)
  {
  }

  /** A store whose one match has a crowd at the overflow threshold: min, max and sum
      exist, but the average's division raises and the framework answers 500. */
  lemma HugeCrowdGivesServerError(m: Match)
    requires "home_score" in m && m["home_score"] == Int(0)
    requires "away_score" in m && m["away_score"] == Int(0)
    requires "spectators" in m && m["spectators"] == Int(FloatOverflowThreshold)
    ensures GetMatchesStats([m]) == Reply(500, InternalError(OverflowError), [m])
  {
    assert FieldInts([m], "home_score") == [0];
    assert FieldInts([m], "away_score") == [0];
    assert FieldInts([m], "spectators") == [FloatOverflowThreshold];
    assert Sum([0]) == 0 && Sum([FloatOverflowThreshold]) == FloatOverflowThreshold;
    assert FloatOverflowThreshold > 0;
    assert FieldStatistics([m], "home_score").Ok?;
    assert FieldStatistics([m], "away_score").Ok?;
    assert FieldStatistics([m], "spectators") == Err(OverflowError);
  }
}
