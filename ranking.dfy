/** The ranked read of `GET /api/leaderboard/top`: the limit parameter, the
    reply of the sorted set's descending range query, the ids taken from it,
    their hydration from the player table in ranking order, and the fallback
    to the table's own score ordering. */
module Ranking {
  import opened Wrappers
  import opened Text
  import opened PlayerSchema

  /** The durable player table, by id. */
  type Table = map<string, Player>
  /** The `leaderboard:global` sorted set: member id to score. */
  type Mirror = map<string, int>

  const MaxLimit := 500
  /** The default `limit` text, `"100"`. */
  const DefaultLimit: string := NatToString(100)

  function Min(a: int, b: int): int { if a <= b then a else b }

  /** `Math.min(parseInt(query || '100', 10), 500)`; `None` is `NaN`. */
  function EffectiveLimit(query: Option<string>): (r: Option<int>)
    ensures query.None? || query == Some("") ==> r == Some(100)
    ensures r.Some? ==> r.value <= MaxLimit
    ensures query.Some? && query.value != "" ==>
      r == (if ParseInt(query.value).Some? then Some(Min(ParseInt(query.value).value, MaxLimit)) else None)
  {
    var text := if query.None? || query.value == "" then DefaultLimit else query.value;
    ParseIntOfNatToString(100);
    match ParseInt(text)
    case None => None
    case Some(n) => Some(Min(n, MaxLimit))
  }

  // ---- sequences of rows and entries ---------------------------------------

  predicate Distinct<T(==)>(s: seq<T>) {
    forall i, j :: 0 <= i < j < |s| ==> s[i] != s[j]
  }

  predicate NonIncreasing(s: seq<int>) {
    forall i, j :: 0 <= i < j < |s| ==> s[i] >= s[j]
  }

  function Ids(rows: seq<Player>): (r: seq<string>)
    ensures |r| == |rows| && forall k :: 0 <= k < |rows| ==> r[k] == rows[k].id
  {
    if rows == [] then [] else [rows[0].id] + Ids(rows[1..])
  }

  function Scores(rows: seq<Player>): (r: seq<int>)
    ensures |r| == |rows| && forall k :: 0 <= k < |rows| ==> r[k] == rows[k].totalScore
  {
    if rows == [] then [] else [rows[0].totalScore] + Scores(rows[1..])
  }

  /** Every row of the table is stored under its own id. */
  predicate WellKeyed(table: Table) {
    forall id :: id in table ==> table[id].id == id
  }

  /** The mirror holds exactly the table's ids, each with the row's score. */
  predicate Synced(table: Table, mirror: Mirror) {
    && mirror.Keys == table.Keys
    && forall id :: id in mirror ==> mirror[id] == table[id].totalScore
  }

  // ---- the sorted set and its range reply -----------------------------------

  datatype RankEntry = RankEntry(member: string, score: int)

  function Members(es: seq<RankEntry>): (r: seq<string>)
    ensures |r| == |es| && forall k :: 0 <= k < |es| ==> r[k] == es[k].member
  {
    if es == [] then [] else [es[0].member] + Members(es[1..])
  }

  function EntryScores(es: seq<RankEntry>): (r: seq<int>)
    ensures |r| == |es| && forall k :: 0 <= k < |es| ==> r[k] == es[k].score
  {
    if es == [] then [] else [es[0].score] + EntryScores(es[1..])
  }

  /** All entries of the sorted set in its descending order: each member
      once, with its score, scores non-increasing (ties in any order). */
  predicate IsMirrorListing(mirror: Mirror, ranking: seq<RankEntry>) {
    && Distinct(Members(ranking))
    && NonIncreasing(EntryScores(ranking))
    && (forall k :: 0 <= k < |ranking| ==> ranking[k].member in mirror && mirror[ranking[k].member] == ranking[k].score)
    && (forall id :: id in mirror ==> id in Members(ranking))
  }

  /** All rows of the table ordered by `total_score` descending (ties in any order). */
  predicate IsScoreListing(table: Table, rows: seq<Player>) {
    && Distinct(Ids(rows))
    && NonIncreasing(Scores(rows))
    && (forall k :: 0 <= k < |rows| ==> rows[k].id in table && table[rows[k].id] == rows[k])
    && (forall id :: id in table ==> id in Ids(rows))
  }

  /** How many entries `ZREVRANGE key 0 stop` returns from a set of `size`
      entries: a negative `stop` counts from the end. */
  function RangeCount(size: nat, stop: int): (n: nat)
    ensures n <= size
    ensures stop >= 0 ==> n == Min(size, stop + 1)
    ensures stop < 0 ==> n == (if size + stop + 1 < 0 then 0 else size + stop + 1)
  {
    var last := if stop < 0 then size + stop else stop;
    if last < 0 then 0 else if last >= size then size else last + 1
  }

  /** A score as the sorted set writes it in a reply. */
  function ScoreText(score: int): string {
    if score < 0 then "-" + NatToString(-score) else NatToString(score)
  }

  /** The `WITHSCORES` reply: `[id, score, id, score, ...]`. */
  function Flatten(es: seq<RankEntry>): (r: seq<string>)
    ensures |r| == 2 * |es|
    ensures forall k :: 0 <= k < |es| ==> r[2 * k] == es[k].member && r[2 * k + 1] == ScoreText(es[k].score)
  {
    if es == [] then []
    else
      var head := [es[0].member, ScoreText(es[0].score)];
      var rest := Flatten(es[1..]);
      FlattenStep(es, head, rest);
      head + rest
  }

  lemma FlattenStep(es: seq<RankEntry>, head: seq<string>, rest: seq<string>)
    requires es != [] && head == [es[0].member, ScoreText(es[0].score)]
    requires |rest| == 2 * (|es| - 1)
    requires forall k :: 0 <= k < |es| - 1 ==> rest[2 * k] == es[1..][k].member && rest[2 * k + 1] == ScoreText(es[1..][k].score)
    ensures forall k :: 0 <= k < |es| ==> (head + rest)[2 * k] == es[k].member && (head + rest)[2 * k + 1] == ScoreText(es[k].score)
  {
    forall k | 0 <= k < |es|
      ensures (head + rest)[2 * k] == es[k].member && (head + rest)[2 * k + 1] == ScoreText(es[k].score)
    {
      if k > 0 {
        var i := k - 1;
        assert es[k] == es[1..][i];
        assert (head + rest)[2 * k] == rest[2 * i];
        assert (head + rest)[2 * k + 1] == rest[2 * i + 1];
      }
    }
  }

  /** The reply to `ZREVRANGE leaderboard:global 0 (limit - 1) WITHSCORES`. */
  function RangeReply(ranking: seq<RankEntry>, limit: int): seq<string> {
    Flatten(ranking[..RangeCount(|ranking|, limit - 1)])
  }

  /** The elements at even positions, in order. */
  function EvenPositions<T>(s: seq<T>): (r: seq<T>)
    ensures |r| == (|s| + 1) / 2
    ensures forall k :: 0 <= k < |r| ==> r[k] == s[2 * k]
  {
    if |s| <= 1 then s else [s[0]] + EvenPositions(s[2..])
  }

  /** The ids read from a range reply are exactly the members of the range, in order. */
  lemma EvenPositionsOfReply(es: seq<RankEntry>)
    ensures EvenPositions(Flatten(es)) == Members(es)
  {
  }

  // ---- hydration --------------------------------------------------------------

  /** `findMany({ where: { id: { in: ids } } })` turned into a Map: the rows of
      the table whose id is among `ids`. */
  function Fetch(table: Table, ids: seq<string>): (found: map<string, Player>)
    ensures forall id :: id in ids ==> (id in found <==> id in table)
    ensures forall id :: id in found ==> id in table && found[id] == table[id]
  {
    map id | id in table && id in ids :: table[id]
  }

  /** `ids.map(id => found.get(id)).filter(Boolean)`. */
  function Reorder(ids: seq<string>, found: map<string, Player>): (r: seq<Player>)
    ensures |r| <= |ids|
  {
    if ids == [] then []
    else (if ids[0] in found then [found[ids[0]]] else []) + Reorder(ids[1..], found)
  }

  /** The ids of `ids` that `found` has, in their order. */
  function Present(ids: seq<string>, found: map<string, Player>): (r: seq<string>)
    ensures |r| <= |ids|
    ensures forall id :: id in r <==> id in ids && id in found
  {
    if ids == [] then []
    else (if ids[0] in found then [ids[0]] else []) + Present(ids[1..], found)
  }

  /** `a` is `b` with some elements left out, the rest in order. */
  predicate IsSubsequence<T(==)>(a: seq<T>, b: seq<T>) {
    if a == [] then true
    else if b == [] then false
    else if a[0] == b[0] then IsSubsequence(a[1..], b[1..])
    else IsSubsequence(a, b[1..])
  }

  lemma {:induction false} PresentIsSubsequence(ids: seq<string>, found: map<string, Player>)
    ensures IsSubsequence(Present(ids, found), ids)
  {
    if ids != [] {
      PresentIsSubsequence(ids[1..], found);
      var rest := Present(ids[1..], found);
      if ids[0] in found {
        assert Present(ids, found) == [ids[0]] + rest;
        assert ([ids[0]] + rest)[1..] == rest;
      } else {
        assert Present(ids, found) == rest;
        assert rest == [] || rest[0] != ids[0];
      }
    }
  }

  /** Hydration keeps the ranking's order and drops ids the table lacks: the
      result's ids are the present ids of the ranking in ranking order, and each
      row is the table's row for its id. */
  lemma {:induction false} ReorderDropsMissing(ids: seq<string>, found: map<string, Player>)
    requires forall id :: id in found ==> found[id].id == id
    ensures Ids(Reorder(ids, found)) == Present(ids, found)
    ensures forall k :: 0 <= k < |Reorder(ids, found)| ==>
      Reorder(ids, found)[k].id in found && found[Reorder(ids, found)[k].id] == Reorder(ids, found)[k]
  {
    if ids != [] {
      ReorderDropsMissing(ids[1..], found);
      var rest := Reorder(ids[1..], found);
      if ids[0] in found {
        assert Reorder(ids, found) == [found[ids[0]]] + rest;
        assert Ids([found[ids[0]]] + rest) == [ids[0]] + Ids(rest);
      } else {
        assert Reorder(ids, found) == rest;
      }
    }
  }

  /** `findMany({ orderBy: { total_score: 'desc' }, take })`: a non-negative
      `take` keeps the first rows, a negative one keeps the last `-take` rows. */
  function Take(rows: seq<Player>, take: int): (r: seq<Player>)
    ensures |r| == Min(if take >= 0 then take else -take, |rows|)
    ensures take >= 0 ==> r == rows[..|r|]
    ensures take < 0 ==> r == rows[|rows| - |r|..]
  {
    if take >= 0 then rows[..Min(take, |rows|)] else rows[|rows| - Min(-take, |rows|)..]
  }

  datatype ReadError = InvalidLimit

  /** The ids the cached path reads from the sorted set. */
  function CachedIds(ranking: seq<RankEntry>, limit: int): seq<string> {
    EvenPositions(RangeReply(ranking, limit))
  }

  /** The whole `/top` handler on given store answers: `ranking` is the sorted
      set's descending order, `byScore` the table's `total_score` descending
      order. */
  function RankedRead(table: Table, cacheEnabled: bool, query: Option<string>,
                      ranking: seq<RankEntry>, byScore: seq<Player>): Result<seq<Player>, ReadError>
  {
    match EffectiveLimit(query)
    case None => Err(InvalidLimit)
    case Some(limit) => Ok(ReadWithLimit(table, cacheEnabled, limit, ranking, byScore))
  }

  /** The handler once the limit is a number: the cached path when there is a
      cache and the range is not empty, else the table's ordered query. */
  function ReadWithLimit(table: Table, cacheEnabled: bool, limit: int,
                         ranking: seq<RankEntry>, byScore: seq<Player>): seq<Player>
  {
    var ids := CachedIds(ranking, limit);
    if cacheEnabled && |ids| > 0 then Reorder(ids, Fetch(table, ids))
    else Take(byScore, limit)
  }

  // ---- properties of the ranked read ---------------------------------------

  /** With a limit of at least one, no more than `min(limit, 500)` rows come back. */
  lemma RankedReadBounded(table: Table, cacheEnabled: bool, query: Option<string>,
                          ranking: seq<RankEntry>, byScore: seq<Player>, limit: int)
    requires EffectiveLimit(query) == Some(limit) && limit >= 1
    ensures RankedRead(table, cacheEnabled, query, ranking, byScore).Ok?
    ensures |RankedRead(table, cacheEnabled, query, ranking, byScore).value| <= Min(limit, MaxLimit)
  {
    ReadWithLimitBounded(table, cacheEnabled, limit, ranking, byScore);
  }

  lemma ReadWithLimitBounded(table: Table, cacheEnabled: bool, limit: int,
                             ranking: seq<RankEntry>, byScore: seq<Player>)
    requires limit >= 1
    ensures |ReadWithLimit(table, cacheEnabled, limit, ranking, byScore)| <= limit
  {
    var ids := CachedIds(ranking, limit);
    assert |ids| <= limit;
  }

  /** On the cached path every row is a table row, ids the table lacks are
      omitted, and the rows follow the sorted set's order. */
  lemma CachedReadFollowsRanking(table: Table, limit: int, ranking: seq<RankEntry>, byScore: seq<Player>)
    requires WellKeyed(table)
    requires |CachedIds(ranking, limit)| > 0
    ensures var r := ReadWithLimit(table, true, limit, ranking, byScore);
      var ids := CachedIds(ranking, limit);
      && |r| <= |ids|
      && Ids(r) == Present(ids, table)
      && IsSubsequence(Ids(r), ids)
      && (forall k :: 0 <= k < |r| ==> r[k].id in table && table[r[k].id] == r[k])
  {
    var ids := CachedIds(ranking, limit);
    var found := Fetch(table, ids);
    ReorderDropsMissing(ids, found);
    PresentFetch(ids, table);
    PresentIsSubsequence(ids, table);
  }

  lemma {:induction false} PresentFetch(ids: seq<string>, table: Table)
    ensures Present(ids, Fetch(table, ids)) == Present(ids, table)
  {
    PresentAgree(ids, Fetch(table, ids), table);
  }

  lemma {:induction false} PresentAgree(ids: seq<string>, f: map<string, Player>, g: map<string, Player>)
    requires forall id :: id in ids ==> (id in f <==> id in g)
    ensures Present(ids, f) == Present(ids, g)
  {
    if ids != [] {
      PresentAgree(ids[1..], f, g);
    }
  }

  /** Without a cache, or when the range is empty, the result is the table's
      first `limit` rows by descending score. */
  lemma FallbackReadsTable(table: Table, cacheEnabled: bool, limit: int,
                           ranking: seq<RankEntry>, byScore: seq<Player>)
    requires IsScoreListing(table, byScore)
    requires limit >= 0
    requires !cacheEnabled || |CachedIds(ranking, limit)| == 0
    ensures var r := ReadWithLimit(table, cacheEnabled, limit, ranking, byScore);
      && r == byScore[..Min(limit, |byScore|)]
      && IsTopRows(table, r, Min(limit, |table|))
  {
    ListingSize(table, byScore);
    ListingPrefixIsTop(table, byScore, Min(limit, |byScore|));
  }

  /** `rows` are `n` distinct table rows in non-increasing score order, and no
      table row left out scores higher than any row kept. */
  predicate IsTopRows(table: Table, rows: seq<Player>, n: int) {
    && |rows| == n
    && Distinct(Ids(rows))
    && NonIncreasing(Scores(rows))
    && (forall k :: 0 <= k < |rows| ==> rows[k].id in table && table[rows[k].id] == rows[k])
    && (forall id :: id in table && id !in Ids(rows) ==>
          forall k :: 0 <= k < |rows| ==> table[id].totalScore <= rows[k].totalScore)
  }

  lemma ListingPrefixIsTop(table: Table, rows: seq<Player>, m: nat)
    requires IsScoreListing(table, rows) && m <= |rows|
    ensures IsTopRows(table, rows[..m], m)
  {
    var r := rows[..m];
    PrefixKeepsOrder(rows, m);
    forall id | id in table && id !in Ids(r)
      ensures forall k :: 0 <= k < |r| ==> table[id].totalScore <= r[k].totalScore
    {
      LeftOutScoresLower(table, rows, m, id);
    }
  }

  /** A prefix of rows keeps their distinct ids and their score order. */
  lemma PrefixKeepsOrder(rows: seq<Player>, m: nat)
    requires Distinct(Ids(rows)) && NonIncreasing(Scores(rows)) && m <= |rows|
    ensures Distinct(Ids(rows[..m])) && NonIncreasing(Scores(rows[..m]))
  {
    IdsPrefix(rows, m);
    ScoresPrefix(rows, m);
    DistinctPrefix(Ids(rows), m);
    NonIncreasingPrefix(Scores(rows), m);
  }

  lemma DistinctPrefix<T>(s: seq<T>, m: nat)
    requires Distinct(s) && m <= |s|
    ensures Distinct(s[..m])
  {
  }

  lemma NonIncreasingPrefix(s: seq<int>, m: nat)
    requires NonIncreasing(s) && m <= |s|
    ensures NonIncreasing(s[..m])
  {
  }

  lemma IdsPrefix(rows: seq<Player>, n: nat)
    requires n <= |rows|
    ensures Ids(rows[..n]) == Ids(rows)[..n]
  {
  }

  /** A table row outside a listing's first `m` rows scores no higher than any of them. */
  lemma LeftOutScoresLower(table: Table, rows: seq<Player>, m: nat, id: string)
    requires IsScoreListing(table, rows) && m <= |rows|
    requires id in table && id !in Ids(rows[..m])
    ensures forall k :: 0 <= k < m ==> table[id].totalScore <= rows[k].totalScore
  {
    var ids := Ids(rows);
    var j := IndexIn(ids, id);
    IdsPrefix(rows, m);
    PastPrefix(ids, m, j);
    assert rows[j] == table[id];
    BelowPrefix(Scores(rows), m, j);
  }

  lemma PastPrefix(s: seq<string>, m: nat, j: nat)
    requires m <= |s| && j < |s| && s[j] !in s[..m]
    ensures j >= m
  {
  }

  lemma BelowPrefix(scores: seq<int>, m: nat, j: nat)
    requires NonIncreasing(scores) && m <= j < |scores|
    ensures forall k :: 0 <= k < m ==> scores[k] >= scores[j]
  {
  }

  function IndexIn(s: seq<string>, x: string): (j: nat)
    requires x in s
    ensures j < |s| && s[j] == x
  {
    if s[0] == x then 0 else 1 + IndexIn(s[1..], x)
  }

  /** A listing of the table has one row per table entry. */
  lemma ListingSize(table: Table, rows: seq<Player>)
    requires IsScoreListing(table, rows)
    ensures |rows| == |table|
  {
    DistinctSize(Ids(rows));
    assert SeqSet(Ids(rows)) == table.Keys;
  }

  function SeqSet<T(==)>(s: seq<T>): set<T> { set x | x in s }

  lemma {:induction false} DistinctSize<T>(s: seq<T>)
    requires Distinct(s)
    ensures |SeqSet(s)| == |s|
  {
    if s != [] {
      DistinctSize(s[1..]);
      assert SeqSet(s) == SeqSet(s[1..]) + {s[0]};
      assert s[0] !in SeqSet(s[1..]);
    }
  }

  // ---- the cached path agrees with the table ----------------------------------

  /** The rows of `ids`, looked up in `rows`. */
  function RowsOf(rows: map<string, Player>, ids: seq<string>): (r: seq<Player>)
    requires forall id :: id in ids ==> id in rows
    ensures |r| == |ids| && forall k :: 0 <= k < |ids| ==> r[k] == rows[ids[k]]
  {
    if ids == [] then [] else [rows[ids[0]]] + RowsOf(rows, ids[1..])
  }

  lemma {:induction false} ReorderAllPresent(ids: seq<string>, found: map<string, Player>)
    requires forall id :: id in ids ==> id in found
    ensures Reorder(ids, found) == RowsOf(found, ids)
  {
    if ids != [] {
      ReorderAllPresent(ids[1..], found);
    }
  }

  /** When the mirror is in step with the table, its order, read back through
      the table, is a score listing of the table. */
  lemma SyncedRankingIsListing(table: Table, mirror: Mirror, ranking: seq<RankEntry>)
    requires WellKeyed(table) && Synced(table, mirror) && IsMirrorListing(mirror, ranking)
    ensures forall id :: id in Members(ranking) ==> id in table
    ensures IsScoreListing(table, RowsOf(table, Members(ranking)))
  {
    MembersInTable(table, mirror, ranking);
    var ms := Members(ranking);
    var rows := RowsOf(table, ms);
    IdsOfRows(table, ms);
    ScoresOfRows(table, mirror, ranking);
    assert forall id :: id in table ==> id in Ids(rows) by {
      forall id | id in table ensures id in Ids(rows) {
        assert id in mirror;
      }
    }
  }

  lemma MembersInTable(table: Table, mirror: Mirror, ranking: seq<RankEntry>)
    requires Synced(table, mirror) && IsMirrorListing(mirror, ranking)
    ensures forall id :: id in Members(ranking) ==> id in table
  {
    var ms := Members(ranking);
    forall id | id in ms ensures id in table {
      var k :| 0 <= k < |ms| && ms[k] == id;
      assert ranking[k].member in mirror;
    }
  }

  /** Reading ids back through a well-keyed table gives rows with those ids. */
  lemma IdsOfRows(table: Table, ids: seq<string>)
    requires WellKeyed(table) && forall id :: id in ids ==> id in table
    ensures Ids(RowsOf(table, ids)) == ids
    ensures forall k :: 0 <= k < |ids| ==> RowsOf(table, ids)[k].id in table && table[RowsOf(table, ids)[k].id] == RowsOf(table, ids)[k]
  {
    var rows := RowsOf(table, ids);
    forall k | 0 <= k < |rows| ensures Ids(rows)[k] == ids[k] {
      assert rows[k] == table[ids[k]];
    }
  }

  lemma ScoresOfRows(table: Table, mirror: Mirror, ranking: seq<RankEntry>)
    requires Synced(table, mirror) && IsMirrorListing(mirror, ranking)
    requires forall id :: id in Members(ranking) ==> id in table
    ensures Scores(RowsOf(table, Members(ranking))) == EntryScores(ranking)
  {
    var rows := RowsOf(table, Members(ranking));
    forall k | 0 <= k < |rows| ensures Scores(rows)[k] == EntryScores(ranking)[k] {
      assert rows[k] == table[ranking[k].member];
      assert mirror[ranking[k].member] == ranking[k].score;
    }
  }

  lemma {:induction false} DistinctCount<T>(s: seq<T>, x: T)
    requires Distinct(s)
    ensures multiset(s)[x] == if x in s then 1 else 0
  {
    if s != [] {
      assert Distinct(s[1..]);
      DistinctCount(s[1..], x);
      assert s == [s[0]] + s[1..];
    }
  }

  /** Two duplicate-free sequences with the same elements are permutations. */
  lemma SamePermutation<T>(a: seq<T>, b: seq<T>)
    requires Distinct(a) && Distinct(b)
    requires forall x :: x in a <==> x in b
    ensures multiset(a) == multiset(b)
  {
    forall x ensures multiset(a)[x] == multiset(b)[x] {
      DistinctCount(a, x);
      DistinctCount(b, x);
    }
  }

  /** Permuting rows permutes their scores. */
  lemma {:induction false} PermutedScores(a: seq<Player>, b: seq<Player>)
    requires multiset(a) == multiset(b)
    ensures multiset(Scores(a)) == multiset(Scores(b))
    decreases |a|
  {
    if a == [] {
      assert |b| == |multiset(b)| == 0;
    } else {
      assert a[0] in multiset(b);
      var k :| 0 <= k < |b| && b[k] == a[0];
      var rest := b[..k] + b[k + 1..];
      RemoveOne(a, b, k);
      PermutedScores(a[1..], rest);
      ScoresRemoveOne(b, k);
      assert Scores(a) == [a[0].totalScore] + Scores(a[1..]);
    }
  }

  lemma RemoveOne<T>(a: seq<T>, b: seq<T>, k: nat)
    requires a != [] && k < |b| && b[k] == a[0] && multiset(a) == multiset(b)
    ensures multiset(b[..k] + b[k + 1..]) == multiset(a[1..])
  {
    var rest := b[..k] + b[k + 1..];
    assert b == b[..k] + [b[k]] + b[k + 1..];
    assert a == [a[0]] + a[1..];
    forall x ensures multiset(rest)[x] == multiset(a[1..])[x] {
      assert multiset(a)[x] == multiset{a[0]}[x] + multiset(a[1..])[x];
      assert multiset(b)[x] == multiset(b[..k])[x] + multiset{b[k]}[x] + multiset(b[k + 1..])[x];
      assert multiset(rest)[x] == multiset(b[..k])[x] + multiset(b[k + 1..])[x];
    }
  }

  lemma ScoresRemoveOne(b: seq<Player>, k: nat)
    requires k < |b|
    ensures multiset(Scores(b)) == multiset(Scores(b[..k] + b[k + 1..])) + multiset{b[k].totalScore}
  {
    ScoresAround(b, k);
    ScoresWithout(b, k);
    MultisetSplit(Scores(b[..k]), Scores(b[k + 1..]), b[k].totalScore, Scores(b), Scores(b[..k] + b[k + 1..]));
  }

  lemma ScoresAround(b: seq<Player>, k: nat)
    requires k < |b|
    ensures Scores(b) == Scores(b[..k]) + [b[k].totalScore] + Scores(b[k + 1..])
  {
    var x, y := Scores(b[..k]), Scores(b[k + 1..]);
    var whole := x + [b[k].totalScore] + y;
    assert |whole| == |b|;
    forall i | 0 <= i < |b| ensures Scores(b)[i] == whole[i] {
      if i < k {
        assert whole[i] == x[i] == b[..k][i].totalScore;
      } else if i > k {
        assert whole[i] == y[i - k - 1] == b[k + 1..][i - k - 1].totalScore;
      }
    }
  }

  lemma ScoresWithout(b: seq<Player>, k: nat)
    requires k < |b|
    ensures Scores(b[..k] + b[k + 1..]) == Scores(b[..k]) + Scores(b[k + 1..])
  {
    var x, y := Scores(b[..k]), Scores(b[k + 1..]);
    var rest := x + y;
    var c := b[..k] + b[k + 1..];
    assert |rest| == |c|;
    forall i | 0 <= i < |c| ensures Scores(c)[i] == rest[i] {
      if i < k {
        assert rest[i] == x[i] == b[..k][i].totalScore == c[i].totalScore;
      } else {
        assert rest[i] == y[i - k] == b[k + 1..][i - k].totalScore == c[i].totalScore;
      }
    }
  }

  lemma MultisetSplit(x: seq<int>, y: seq<int>, s: int, whole: seq<int>, rest: seq<int>)
    requires whole == x + [s] + y && rest == x + y
    ensures multiset(whole) == multiset(rest) + multiset{s}
  {
    assert multiset(whole) == multiset(x) + multiset([s]) + multiset(y);
    assert multiset(rest) == multiset(x) + multiset(y);
  }

  lemma ScoresAppend(x: seq<Player>, y: seq<Player>)
    ensures Scores(x + y) == Scores(x) + Scores(y)
  {
  }

  /** A multiset of numbers has only one non-increasing arrangement. */
  lemma {:induction false} SortedPermutationUnique(a: seq<int>, b: seq<int>)
    requires NonIncreasing(a) && NonIncreasing(b) && multiset(a) == multiset(b)
    ensures a == b
    decreases |a|
  {
    assert |a| == |multiset(a)| == |multiset(b)| == |b|;
    if a != [] {
      assert a[0] in multiset(b) && b[0] in multiset(a);
      assert a[0] == b[0];
      assert a == [a[0]] + a[1..] && b == [b[0]] + b[1..];
      assert multiset(a) == multiset{a[0]} + multiset(a[1..]);
      assert multiset(b) == multiset{b[0]} + multiset(b[1..]);
      forall x ensures multiset(a[1..])[x] == multiset(b[1..])[x] {
        assert multiset(a)[x] == multiset{a[0]}[x] + multiset(a[1..])[x];
        assert multiset(b)[x] == multiset{b[0]}[x] + multiset(b[1..])[x];
      }
      assert multiset(a[1..]) == multiset(b[1..]);
      SortedPermutationUnique(a[1..], b[1..]);
    }
  }

  /** Any two score listings of the same table have the same score sequence:
      they differ at most in the order of tied rows. */
  lemma ListingsAgreeOnScores(table: Table, a: seq<Player>, b: seq<Player>)
    requires IsScoreListing(table, a) && IsScoreListing(table, b)
    ensures Scores(a) == Scores(b)
  {
    forall p ensures p in a <==> p in b {
      if p in a { ListingHolds(table, a, b, p); }
      if p in b { ListingHolds(table, b, a, p); }
    }
    DistinctRows(a);
    DistinctRows(b);
    SamePermutation(a, b);
    PermutedScores(a, b);
    SortedPermutationUnique(Scores(a), Scores(b));
  }

  /** A row of one listing of the table is a row of every other. */
  lemma ListingHolds(table: Table, a: seq<Player>, b: seq<Player>, p: Player)
    requires IsScoreListing(table, a) && IsScoreListing(table, b) && p in a
    ensures p in b
  {
    var k :| 0 <= k < |a| && a[k] == p;
    assert p.id in table && table[p.id] == p;
    assert p.id in Ids(b);
    var j := IndexIn(Ids(b), p.id);
    assert b[j] == p;
  }

  lemma DistinctRows(rows: seq<Player>)
    requires Distinct(Ids(rows))
    ensures Distinct(rows)
  {
    forall i, j | 0 <= i < j < |rows| ensures rows[i] != rows[j] {
      assert Ids(rows)[i] != Ids(rows)[j];
    }
  }

  /** If the sorted set mirrors the table exactly, the cached path and the
      fallback both return the table's top rows, with the same scores in the
      same positions: the same ranking up to the order of tied rows. */
  lemma CachedMatchesFallback(table: Table, mirror: Mirror, ranking: seq<RankEntry>,
                              byScore: seq<Player>, limit: int)
    requires WellKeyed(table) && Synced(table, mirror)
    requires IsMirrorListing(mirror, ranking) && IsScoreListing(table, byScore)
    requires limit >= 1
    ensures var cached := ReadWithLimit(table, true, limit, ranking, byScore);
      var direct := ReadWithLimit(table, false, limit, ranking, byScore);
      && IsTopRows(table, cached, Min(limit, |table|))
      && IsTopRows(table, direct, Min(limit, |table|))
      && Scores(cached) == Scores(direct)
  {
    SyncedRankingIsListing(table, mirror, ranking);
    var listing := RowsOf(table, Members(ranking));
    ListingSize(table, listing);
    ListingSize(table, byScore);
    ListingsAgreeOnScores(table, listing, byScore);
    var n := Min(limit, |table|);
    FallbackReadsTable(table, false, limit, ranking, byScore);
    CachedReadIsPrefix(table, ranking, byScore, limit);
    ListingPrefixIsTop(table, listing, n);
    ScoresPrefix(listing, n);
    ScoresPrefix(byScore, n);
  }

  /** Under the same conditions the cached path returns the first rows of the
      sorted set's order read back through the table. */
  lemma CachedReadIsPrefix(table: Table, ranking: seq<RankEntry>, byScore: seq<Player>, limit: int)
    requires limit >= 1 && |ranking| == |table| && |byScore| == |table|
    requires forall id :: id in Members(ranking) ==> id in table
    ensures ReadWithLimit(table, true, limit, ranking, byScore)
         == RowsOf(table, Members(ranking))[..Min(limit, |table|)]
  {
    var n := Min(limit, |table|);
    var ids := CachedIds(ranking, limit);
    EvenPositionsOfReply(ranking[..n]);
    assert ids == Members(ranking)[..n];
    if n > 0 {
      var found := Fetch(table, ids);
      ReorderAllPresent(ids, found);
      RowsOfPrefix(table, found, Members(ranking), n);
    }
  }

  lemma ScoresPrefix(rows: seq<Player>, n: nat)
    requires n <= |rows|
    ensures Scores(rows[..n]) == Scores(rows)[..n]
  {
  }

  /** Reading the first `n` ids through a map that agrees with the table on
      them gives the first `n` rows of the whole read. */
  lemma RowsOfPrefix(table: Table, found: map<string, Player>, ids: seq<string>, n: nat)
    requires n <= |ids| && forall id :: id in ids ==> id in table
    requires forall id :: id in ids[..n] ==> id in found && found[id] == table[id]
    ensures RowsOf(found, ids[..n]) == RowsOf(table, ids)[..n]
  {
    var a, b := RowsOf(found, ids[..n]), RowsOf(table, ids)[..n];
    forall k | 0 <= k < n ensures a[k] == b[k] {
      assert ids[..n][k] == ids[k];
    }
  }

  // ---- the lower end of the limit --------------------------------------------

  /** As written, `?limit=0` passes the clamp and asks the sorted set for the
      range `0 .. -1`, which is the whole set: the cached path returns every
      ranked row, so a set of more than 500 members breaks the 500-row bound. */
  lemma ZeroLimitReadsWholeRanking(table: Table, ranking: seq<RankEntry>, byScore: seq<Player>)
    requires |ranking| > 0
    requires forall id :: id in Members(ranking) ==> id in table
    ensures EffectiveLimit(Some("0")) == Some(0)
    ensures RankedRead(table, true, Some("0"), ranking, byScore) == Ok(RowsOf(table, Members(ranking)))
    ensures |RankedRead(table, true, Some("0"), ranking, byScore).value| == |ranking|
  {
    ZeroLimit();
    var rows := ReadWithLimit(table, true, 0, ranking, byScore);
    WholeRangeRead(table, ranking, byScore);
    assert RankedRead(table, true, Some("0"), ranking, byScore) == Ok(rows);
  }

  lemma ZeroLimit()
    ensures EffectiveLimit(Some("0")) == Some(0)
  {
    ParseIntOfNatToString(0);
    assert NatToString(0) == "0";
  }

  lemma WholeRangeRead(table: Table, ranking: seq<RankEntry>, byScore: seq<Player>)
    requires |ranking| > 0
    requires forall id :: id in Members(ranking) ==> id in table
    ensures ReadWithLimit(table, true, 0, ranking, byScore) == RowsOf(table, Members(ranking))
  {
    WholeRangeIds(ranking);
    FetchAllPresent(table, Members(ranking));
  }

  /** A stop of -1 asks for the whole sorted set. */
  lemma WholeRangeIds(ranking: seq<RankEntry>)
    ensures CachedIds(ranking, 0) == Members(ranking)
  {
    assert ranking[..|ranking|] == ranking;
    EvenPositionsOfReply(ranking);
  }

  /** When every id is in the table, the fetch-and-reorder reads exactly their rows. */
  lemma FetchAllPresent(table: Table, ids: seq<string>)
    requires forall id :: id in ids ==> id in table
    ensures Reorder(ids, Fetch(table, ids)) == RowsOf(table, ids)
  {
    var found := Fetch(table, ids);
    ReorderAllPresent(ids, found);
    RowsOfPrefix(table, found, ids, |ids|);
    assert ids[..|ids|] == ids;
  }

  /** The limit with the evident lower bound as well: at least one row is
      asked for, so the range stop is never negative. */
  function ClampedLimit(query: Option<string>): (r: Option<int>)
    ensures r.Some? <==> EffectiveLimit(query).Some?
    ensures r.Some? ==> 1 <= r.value <= MaxLimit
    ensures r.Some? && EffectiveLimit(query).value >= 1 ==> r.value == EffectiveLimit(query).value
  {
    match EffectiveLimit(query)
    case None => None
    case Some(n) => Some(if n < 1 then 1 else n)
  }

  /** The ranked read with the clamped limit. */
  function CorrectedRankedRead(table: Table, cacheEnabled: bool, query: Option<string>,
                               ranking: seq<RankEntry>, byScore: seq<Player>): (r: Result<seq<Player>, ReadError>)
    ensures r.Ok? <==> RankedRead(table, cacheEnabled, query, ranking, byScore).Ok?
    ensures r.Ok? ==> |r.value| <= MaxLimit
  {
    match ClampedLimit(query)
    case None => Err(InvalidLimit)
    case Some(limit) =>
      ReadWithLimitBounded(table, cacheEnabled, limit, ranking, byScore);
      Ok(ReadWithLimit(table, cacheEnabled, limit, ranking, byScore))
  }

  /** For every query the corrected read returns at most 500 rows, and it
      agrees with the read as written whenever the parsed limit is positive. */
  lemma CorrectedReadAgrees(table: Table, cacheEnabled: bool, query: Option<string>,
                            ranking: seq<RankEntry>, byScore: seq<Player>)
    requires EffectiveLimit(query).Some? && EffectiveLimit(query).value >= 1
    ensures CorrectedRankedRead(table, cacheEnabled, query, ranking, byScore)
         == RankedRead(table, cacheEnabled, query, ranking, byScore)
  {
  }
}
