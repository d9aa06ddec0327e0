/** The write-through mutations of the player routes and the ranked read,
    acting on the two stores: each mutation goes to the player table first
    and, only when that succeeded and a cache client exists, mirrors the
    stored `total_score` into (or removes the id from) the sorted set. */
module PlayerStore {
  import opened Wrappers
  import opened PlayerSchema
  import opened Ranking

  /** Why a mutation is refused: the body or the path id fails validation,
      the table rejects a duplicate (username or id), or the id has no row. */
  datatype Failure = Invalid | Conflict | NotFound

  datatype Stores = Stores(table: Table, mirror: Mirror)

  /** Some row other than `id` already has this username. */
  predicate NameHeldByOther(table: Table, name: string, id: string) {
    exists other :: other in table && other != id && table[other].username == name
  }

  /** The table's uniqueness constraint on usernames. */
  predicate UniqueNames(table: Table) {
    forall a, b :: a in table && b in table && a != b ==> table[a].username != table[b].username
  }

  /** What every reachable state satisfies: rows keyed by their ids, every
      row valid, usernames unique and, when there is a cache client, the
      sorted set in step with the table. */
  predicate Consistent(s: Stores, cacheEnabled: bool) {
    && WellKeyed(s.table)
    && (forall id :: id in s.table ==> WellFormed(s.table[id]))
    && UniqueNames(s.table)
    && (cacheEnabled ==> Synced(s.table, s.mirror))
  }

  /** `POST /api/players`: validate the body, insert the row (the table
      chooses `newId`), then `ZADD leaderboard:global <score> <id>`. */
  function CreateOutcome(s: Stores, cacheEnabled: bool, raw: RawPlayer, isUrl: string -> bool,
                  isDate: string -> bool, newId: string): (r: (Stores, Result<Player, Failure>))
    ensures r.1 == Err(Invalid) <==> Validate(raw, false, isUrl, isDate).None?
    ensures r.1.Err? ==> r.0 == s
    ensures r.1.Ok? ==>
      && r.1.value == NewPlayer(newId, Validate(raw, false, isUrl, isDate).value)
      && r.0.table == s.table[newId := r.1.value]
      && r.0.mirror == (if cacheEnabled then s.mirror[newId := r.1.value.totalScore] else s.mirror)
    ensures r.1 == Err(Conflict) <==>
      && Validate(raw, false, isUrl, isDate).Some?
      && (newId in s.table || NameHeldByOther(s.table, Validate(raw, false, isUrl, isDate).value.username.value, newId))
    ensures r.1.Ok? <==>
      && Validate(raw, false, isUrl, isDate).Some?
      && newId !in s.table && !NameHeldByOther(s.table, Validate(raw, false, isUrl, isDate).value.username.value, newId)
  {
    match Validate(raw, false, isUrl, isDate)
    case None => (s, Err(Invalid))
    case Some(f) =>
      if newId in s.table || NameHeldByOther(s.table, f.username.value, newId) then (s, Err(Conflict))
      else
        var p := NewPlayer(newId, f);
        (Stores(s.table[newId := p], if cacheEnabled then s.mirror[newId := p.totalScore] else s.mirror), Ok(p))
  }

  /** `PUT /api/players/:id`: check the path id, validate the partial body,
      update the row, then `ZADD` the updated row's score under the id,
      whether or not the body carried a score. */
  function UpdateOutcome(s: Stores, cacheEnabled: bool, idParam: string, raw: RawPlayer,
                  isUrl: string -> bool, isDate: string -> bool): (r: (Stores, Result<Player, Failure>))
    ensures r.1 == Err(Invalid) <==> !IsUuid(idParam) || Validate(raw, true, isUrl, isDate).None?
    ensures r.1 == Err(NotFound) <==> IsUuid(idParam) && Validate(raw, true, isUrl, isDate).Some? && idParam !in s.table
    ensures r.1 == Err(Conflict) <==>
      && IsUuid(idParam) && Validate(raw, true, isUrl, isDate).Some? && idParam in s.table
      && var f := Validate(raw, true, isUrl, isDate).value;
         f.username.Some? && NameHeldByOther(s.table, f.username.value, idParam)
    ensures r.1.Ok? <==>
      && IsUuid(idParam) && Validate(raw, true, isUrl, isDate).Some? && idParam in s.table
      && var f := Validate(raw, true, isUrl, isDate).value;
         !(f.username.Some? && NameHeldByOther(s.table, f.username.value, idParam))
    ensures r.1.Err? ==> r.0 == s
    ensures r.1.Ok? ==>
      && idParam in s.table
      && r.1.value == ApplyUpdate(s.table[idParam], Validate(raw, true, isUrl, isDate).value)
      && r.0.table == s.table[idParam := r.1.value]
      && r.0.mirror == (if cacheEnabled then s.mirror[idParam := r.1.value.totalScore] else s.mirror)
  {
    if !IsUuid(idParam) then (s, Err(Invalid))
    else match Validate(raw, true, isUrl, isDate)
    case None => (s, Err(Invalid))
    case Some(f) =>
      if idParam !in s.table then (s, Err(NotFound))
      else if f.username.Some? && NameHeldByOther(s.table, f.username.value, idParam) then (s, Err(Conflict))
      else
        var p := ApplyUpdate(s.table[idParam], f);
        (Stores(s.table[idParam := p], if cacheEnabled then s.mirror[idParam := p.totalScore] else s.mirror), Ok(p))
  }

  /** `DELETE /api/players/:id`: check the path id, delete the row (a
      missing row is the 404 answer), then `ZREM` the id (the 204 answer). */
  function DeleteOutcome(s: Stores, cacheEnabled: bool, idParam: string): (r: (Stores, Result<(), Failure>))
    ensures r.1 == Err(Invalid) <==> !IsUuid(idParam)
    ensures r.1 == Err(NotFound) <==> IsUuid(idParam) && idParam !in s.table
    ensures r.1.Ok? <==> IsUuid(idParam) && idParam in s.table
    ensures r.1.Err? ==> r.0 == s
    ensures r.1.Ok? ==>
      && r.0.table == s.table - {idParam}
      && r.0.mirror == (if cacheEnabled then s.mirror - {idParam} else s.mirror)
  {
    if !IsUuid(idParam) then (s, Err(Invalid))
    else if idParam !in s.table then (s, Err(NotFound))
    else (Stores(s.table - {idParam}, if cacheEnabled then s.mirror - {idParam} else s.mirror), Ok(()))
  }

  /** The HTTP status the delete handler answers with: 204 after a delete,
      404 for a missing row; a rejected id parameter throws instead. */
  function DeleteStatus(r: Result<(), Failure>): (code: Option<int>)
    ensures code == Some(204) <==> r.Ok?
    ensures code == Some(404) <==> r == Err(NotFound)
    ensures code.None? <==> r.Err? && r.error != NotFound
  {
    match r
    case Ok(_) => Some(204)
    case Err(NotFound) => Some(404)
    case Err(_) => None
  }

  // ---- invariants kept by the mutations --------------------------------------

  lemma CreateKeepsConsistent(s: Stores, cacheEnabled: bool, raw: RawPlayer, isUrl: string -> bool,
                              isDate: string -> bool, newId: string)
    requires Consistent(s, cacheEnabled)
    ensures Consistent(CreateOutcome(s, cacheEnabled, raw, isUrl, isDate, newId).0, cacheEnabled)
  {
    var r := CreateOutcome(s, cacheEnabled, raw, isUrl, isDate, newId);
    if r.1.Ok? {
      var t := r.0.table;
      var p := r.1.value;
      forall a, b | a in t && b in t && a != b ensures t[a].username != t[b].username {
        if a == newId {
          assert !(b in s.table && b != newId && s.table[b].username == p.username);
        } else if b == newId {
          assert !(a in s.table && a != newId && s.table[a].username == p.username);
        }
      }
    }
  }

  lemma UpdateKeepsConsistent(s: Stores, cacheEnabled: bool, idParam: string, raw: RawPlayer,
                              isUrl: string -> bool, isDate: string -> bool)
    requires Consistent(s, cacheEnabled)
    ensures Consistent(UpdateOutcome(s, cacheEnabled, idParam, raw, isUrl, isDate).0, cacheEnabled)
  {
    var r := UpdateOutcome(s, cacheEnabled, idParam, raw, isUrl, isDate);
    if r.1.Ok? {
      var t := r.0.table;
      var p := r.1.value;
      var f := Validate(raw, true, isUrl, isDate).value;
      assert f.username.Some? ==> !NameHeldByOther(s.table, f.username.value, idParam);
      forall a, b | a in t && b in t && a != b ensures t[a].username != t[b].username {
        if a == idParam {
          assert !(b in s.table && b != idParam && s.table[b].username == p.username);
        } else if b == idParam {
          assert !(a in s.table && a != idParam && s.table[a].username == p.username);
        }
      }
    }
  }

  lemma DeleteKeepsConsistent(s: Stores, cacheEnabled: bool, idParam: string)
    requires Consistent(s, cacheEnabled)
    ensures Consistent(DeleteOutcome(s, cacheEnabled, idParam).0, cacheEnabled)
  {
  }

  /** Each mutation targets one id: every other id keeps its row and its
      sorted-set entry. */
  lemma MutationsAreLocal(s: Stores, cacheEnabled: bool, raw: RawPlayer, isUrl: string -> bool,
                          isDate: string -> bool, target: string, other: string)
    requires other != target
    ensures var c := CreateOutcome(s, cacheEnabled, raw, isUrl, isDate, target).0;
      Agree(s, c, other)
    ensures var u := UpdateOutcome(s, cacheEnabled, target, raw, isUrl, isDate).0;
      Agree(s, u, other)
    ensures var d := DeleteOutcome(s, cacheEnabled, target).0;
      Agree(s, d, other)
  {
  }

  /** `a` and `b` hold the same row and the same sorted-set entry for `id`. */
  predicate Agree(a: Stores, b: Stores, id: string) {
    && (id in a.table <==> id in b.table)
    && (id in a.table ==> a.table[id] == b.table[id])
    && (id in a.mirror <==> id in b.mirror)
    && (id in a.mirror ==> a.mirror[id] == b.mirror[id])
  }

  /** Deleting an id that has no row answers 404 and changes nothing, however
      often it is repeated; deleting an existing id takes it out of both
      stores, so a second delete answers 404. */
  lemma DeleteTwice(s: Stores, cacheEnabled: bool, id: string)
    requires IsUuid(id)
    ensures var (s1, r1) := DeleteOutcome(s, cacheEnabled, id);
      var (s2, r2) := DeleteOutcome(s1, cacheEnabled, id);
      && r2 == Err(NotFound) && s2 == s1
      && (r1 == Err(NotFound) ==> s1 == s)
      && id !in s1.table && (cacheEnabled && r1.Ok? ==> id !in s1.mirror)
  {
  }

  // ---- the ranked read over a consistent state -------------------------------

  /** Every row either path returns is a row of the table. */
  lemma ReadRowsInTable(table: Table, cacheEnabled: bool, limit: int,
                        ranking: seq<RankEntry>, byScore: seq<Player>)
    requires WellKeyed(table) && IsScoreListing(table, byScore)
    ensures var r := ReadWithLimit(table, cacheEnabled, limit, ranking, byScore);
      forall k :: 0 <= k < |r| ==> r[k].id in table && table[r[k].id] == r[k]
  {
    var r := ReadWithLimit(table, cacheEnabled, limit, ranking, byScore);
    if cacheEnabled && |CachedIds(ranking, limit)| > 0 {
      CachedReadFollowsRanking(table, limit, ranking, byScore);
    } else {
      forall k | 0 <= k < |r| ensures r[k].id in table && table[r[k].id] == r[k] {
        var j := if limit >= 0 then k else |byScore| - Min(-limit, |byScore|) + k;
        assert r[k] == byScore[j];
      }
    }
  }

  /** In a consistent state the ranked read returns the table's top rows,
      with or without a cache client. */
  lemma ConsistentReadIsTop(s: Stores, cacheEnabled: bool, limit: int,
                            ranking: seq<RankEntry>, byScore: seq<Player>)
    requires Consistent(s, cacheEnabled) && limit >= 1
    requires IsMirrorListing(s.mirror, ranking) && IsScoreListing(s.table, byScore)
    ensures IsTopRows(s.table, ReadWithLimit(s.table, cacheEnabled, limit, ranking, byScore), Min(limit, |s.table|))
  {
    if cacheEnabled {
      CachedMatchesFallback(s.table, s.mirror, ranking, byScore, limit);
    } else {
      FallbackReadsTable(s.table, false, limit, ranking, byScore);
    }
  }

  /** A row deleted with success is never returned by a later ranked read. */
  lemma DeletedNeverRead(s: Stores, cacheEnabled: bool, id: string, limit: int,
                         ranking: seq<RankEntry>, byScore: seq<Player>)
    requires Consistent(s, cacheEnabled)
    requires DeleteOutcome(s, cacheEnabled, id).1.Ok?
    requires IsScoreListing(DeleteOutcome(s, cacheEnabled, id).0.table, byScore)
    ensures var t := DeleteOutcome(s, cacheEnabled, id).0.table;
      forall p :: p in ReadWithLimit(t, cacheEnabled, limit, ranking, byScore) ==> p.id != id
  {
    var t := DeleteOutcome(s, cacheEnabled, id).0.table;
    ReadRowsInTable(t, cacheEnabled, limit, ranking, byScore);
  }

  /** Write-through ordering: once an update gives a row a score above every
      other row's, a read of the top entry returns exactly that row. */
  lemma UpdatedLeaderReadFirst(s: Stores, idParam: string, raw: RawPlayer, isUrl: string -> bool,
                               isDate: string -> bool, ranking: seq<RankEntry>, byScore: seq<Player>)
    requires Consistent(s, true)
    requires UpdateOutcome(s, true, idParam, raw, isUrl, isDate).1.Ok?
    requires var (s1, r) := UpdateOutcome(s, true, idParam, raw, isUrl, isDate);
      forall other :: other in s1.table && other != idParam ==> s1.table[other].totalScore < r.value.totalScore
    requires IsMirrorListing(UpdateOutcome(s, true, idParam, raw, isUrl, isDate).0.mirror, ranking)
    ensures var (s1, r) := UpdateOutcome(s, true, idParam, raw, isUrl, isDate);
      ReadWithLimit(s1.table, true, 1, ranking, byScore) == [r.value]
  {
    var (s1, r) := UpdateOutcome(s, true, idParam, raw, isUrl, isDate);
    UpdateKeepsConsistent(s, true, idParam, raw, isUrl, isDate);
    LeaderFirst(s1, idParam, ranking);
    var ids := CachedIds(ranking, 1);
    EvenPositionsOfReply(ranking[..1]);
    assert ids == [idParam];
    var found := Fetch(s1.table, ids);
    assert Reorder(ids, found) == [found[idParam]] + Reorder([], found);
  }

  /** The member with the strictly highest score heads any descending listing. */
  lemma LeaderFirst(s: Stores, id: string, ranking: seq<RankEntry>)
    requires Consistent(s, true) && id in s.table
    requires forall other :: other in s.table && other != id ==> s.table[other].totalScore < s.table[id].totalScore
    requires IsMirrorListing(s.mirror, ranking)
    ensures |ranking| > 0 && ranking[0].member == id
  {
    var ms := Members(ranking);
    assert id in ms;
    var j :| 0 <= j < |ms| && ms[j] == id;
    if j != 0 {
      assert false;
    }
  }

  /** The `/top` id extraction: walk the flat reply two at a time and keep
      each id. */
  method ExtractIds(entries: seq<string>) returns (ids: seq<string>)
    ensures ids == EvenPositions(entries)
  {
    ids := [];
    var i := 0;
    while i < |entries|
      invariant 0 <= i <= |entries| + 1 && i % 2 == 0
      invariant |ids| == i / 2
      invariant forall k :: 0 <= k < |ids| ==> ids[k] == entries[2 * k]
    {
      ids := ids + [entries[i]];
      i := i + 2;
    }
  }

  /** The two stores behind the player routes, and the handlers acting on them. */
  class RankingService {
    var table: Table
    var mirror: Mirror
    /** Whether `REDIS_URL` gave a cache client. */
    const cacheEnabled: bool

    /** The table's own constraints, which hold whatever the cache holds. */
    ghost predicate Valid()
      reads this
    {
      Consistent(Stores(table, mirror), false)
    }

    /** The sorted set is in step with the table (or there is no cache). */
    ghost predicate InStep()
      reads this
    {
      cacheEnabled ==> Synced(table, mirror)
    }

    /** The service over a table filled beforehand (the seed script writes
        rows to the table only) and an empty sorted set: the two are in
        step exactly when there is no cache or nothing was seeded. */
    constructor (cacheEnabled: bool, seeded: Table)
      requires Consistent(Stores(seeded, map[]), false)
      ensures Valid() && this.cacheEnabled == cacheEnabled
      ensures table == seeded && mirror == map[]
      ensures InStep() <==> !cacheEnabled || seeded == map[]
    {
      this.cacheEnabled := cacheEnabled;
      table := seeded;
      mirror := map[];
      if cacheEnabled && seeded != map[] {
        var id :| id in seeded;
        var empty: Mirror := map[];
        assert id in seeded.Keys && id !in empty.Keys;
      }
    }

    method Create(raw: RawPlayer, isUrl: string -> bool, isDate: string -> bool, newId: string)
      returns (r: Result<Player, Failure>)
      requires Valid()
      modifies this
      ensures Valid() && (old(InStep()) ==> InStep())
      ensures (Stores(table, mirror), r) == CreateOutcome(old(Stores(table, mirror)), cacheEnabled, raw, isUrl, isDate, newId)
    {
      CreateKeepsConsistent(Stores(table, mirror), false, raw, isUrl, isDate, newId);
      if InStep() {
        CreateKeepsConsistent(Stores(table, mirror), cacheEnabled, raw, isUrl, isDate, newId);
      }
      var parsed := Validate(raw, false, isUrl, isDate);
      if parsed.None? {
        return Err(Invalid);
      }
      var f := parsed.value;
      if newId in table || NameHeldByOther(table, f.username.value, newId) {
        return Err(Conflict);
      }
      var player := NewPlayer(newId, f);
      table := table[newId := player];
      if cacheEnabled {
        mirror := mirror[newId := player.totalScore];
      }
      r := Ok(player);
    }

    method Update(idParam: string, raw: RawPlayer, isUrl: string -> bool, isDate: string -> bool)
      returns (r: Result<Player, Failure>)
      requires Valid()
      modifies this
      ensures Valid() && (old(InStep()) ==> InStep())
      ensures (Stores(table, mirror), r) == UpdateOutcome(old(Stores(table, mirror)), cacheEnabled, idParam, raw, isUrl, isDate)
    {
      UpdateKeepsConsistent(Stores(table, mirror), false, idParam, raw, isUrl, isDate);
      if InStep() {
        UpdateKeepsConsistent(Stores(table, mirror), cacheEnabled, idParam, raw, isUrl, isDate);
      }
      if !IsUuid(idParam) {
        return Err(Invalid);
      }
      var parsed := Validate(raw, true, isUrl, isDate);
      if parsed.None? {
        return Err(Invalid);
      }
      var f := parsed.value;
      if idParam !in table {
        return Err(NotFound);
      }
      if f.username.Some? && NameHeldByOther(table, f.username.value, idParam) {
        return Err(Conflict);
      }
      var updated := ApplyUpdate(table[idParam], f);
      table := table[idParam := updated];
      if cacheEnabled {
        mirror := mirror[idParam := updated.totalScore];
      }
      r := Ok(updated);
    }

    method Delete(idParam: string) returns (r: Result<(), Failure>)
      requires Valid()
      modifies this
      ensures Valid() && (old(InStep()) ==> InStep())
      ensures (Stores(table, mirror), r) == DeleteOutcome(old(Stores(table, mirror)), cacheEnabled, idParam)
    {
      DeleteKeepsConsistent(Stores(table, mirror), false, idParam);
      if InStep() {
        DeleteKeepsConsistent(Stores(table, mirror), cacheEnabled, idParam);
      }
      if !IsUuid(idParam) {
        return Err(Invalid);
      }
      if idParam !in table {
        return Err(NotFound);
      }
      table := table - {idParam};
      if cacheEnabled {
        mirror := mirror - {idParam};
      }
      r := Ok(());
    }

    /** `GET /api/leaderboard/top`, with the limit kept at least 1 (see
        `Ranking.ClampedLimit`). The sorted set's descending order is
        `ranking` and the table's score order is `byScore`. */
    method TopRanked(query: Option<string>, ranking: seq<RankEntry>, byScore: seq<Player>)
      returns (r: Result<seq<Player>, ReadError>)
      ensures r == CorrectedRankedRead(table, cacheEnabled, query, ranking, byScore)
      ensures r.Err? <==> EffectiveLimit(query).None?
      ensures r.Ok? ==> |r.value| <= MaxLimit
      ensures
        (&& Valid() && InStep() && IsMirrorListing(mirror, ranking) && IsScoreListing(table, byScore)
         && ClampedLimit(query).Some?)
        ==> r.Ok? && IsTopRows(table, r.value, Min(ClampedLimit(query).value, |table|))
    {
      var parsed := ClampedLimit(query);
      if parsed.None? {
        return Err(InvalidLimit);
      }
      var limit := parsed.value;
      ReadWithLimitBounded(table, cacheEnabled, limit, ranking, byScore);
      if Valid() && InStep() && IsMirrorListing(mirror, ranking) && IsScoreListing(table, byScore) {
        ConsistentReadIsTop(Stores(table, mirror), cacheEnabled, limit, ranking, byScore);
      }
      if cacheEnabled {
        var entries := RangeReply(ranking, limit);
        var ids := ExtractIds(entries);
        if |ids| > 0 {
          var found := Fetch(table, ids);
          return Ok(Reorder(ids, found));
        }
      }
      r := Ok(Take(byScore, limit));
    }
  }
}
