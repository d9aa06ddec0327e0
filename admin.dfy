/** The admin page's pure parts: the statistics over the loaded players and
    the requests its create, update and delete handlers send. */
module Admin {
  import opened Wrappers
  import opened PlayerSchema
  import PlayerList

  // ---- statistics -------------------------------------------------------------

  datatype Stats = Stats(totalPlayers: nat, activePlayers: nat, totalGames: int, totalScore: int)

  /** `p.games_played || 0` and `p.total_score || 0`. */
  function Games(p: PlayerList.UiPlayer): int { p.gamesPlayed.GetOr(0) }
  function Points(p: PlayerList.UiPlayer): int { p.totalScore.GetOr(0) }

  /** `reduce((sum, p) => sum + f(p), 0)`: a left fold. */
  function SumLeft(ps: seq<PlayerList.UiPlayer>, f: PlayerList.UiPlayer -> int): int {
    if ps == [] then 0 else SumLeft(ps[..|ps| - 1], f) + f(ps[|ps| - 1])
  }

  /** The sum taken from the front, as a reference. */
  function Sum(ps: seq<PlayerList.UiPlayer>, f: PlayerList.UiPlayer -> int): int {
    if ps == [] then 0 else f(ps[0]) + Sum(ps[1..], f)
  }

  lemma {:induction false} SumAppend(ps: seq<PlayerList.UiPlayer>, qs: seq<PlayerList.UiPlayer>, f: PlayerList.UiPlayer -> int)
    ensures Sum(ps + qs, f) == Sum(ps, f) + Sum(qs, f)
  {
    if ps != [] {
      assert (ps + qs)[0] == ps[0] && (ps + qs)[1..] == ps[1..] + qs;
      SumAppend(ps[1..], qs, f);
    } else {
      assert ps + qs == qs;
    }
  }

  /** The fold adds up the same values as the reference sum. */
  lemma {:induction false} SumLeftIsSum(ps: seq<PlayerList.UiPlayer>, f: PlayerList.UiPlayer -> int)
    ensures SumLeft(ps, f) == Sum(ps, f)
    decreases |ps|
  {
    if ps != [] {
      var init := ps[..|ps| - 1];
      SumLeftIsSum(init, f);
      SumAppend(init, [ps[|ps| - 1]], f);
      assert init + [ps[|ps| - 1]] == ps;
    }
  }

  predicate IsActive(p: PlayerList.UiPlayer) { p.status == Active }

  /** How many players are active, counted one by one from the front. */
  function CountActive(ps: seq<PlayerList.UiPlayer>): (n: nat)
    ensures n <= |ps|
    ensures n == |ps| <==> forall k :: 0 <= k < |ps| ==> ps[k].status == Active
    ensures n == 0 <==> forall k :: 0 <= k < |ps| ==> ps[k].status != Active
  {
    if ps == [] then 0
    else
      var rest := CountActive(ps[1..]);
      assert forall k :: 1 <= k < |ps| ==> ps[k] == ps[1..][k - 1];
      (if ps[0].status == Active then 1 else 0) + rest
  }

  /** The active count of two lists joined is the sum of their counts. */
  lemma {:induction false} CountActiveAppend(ps: seq<PlayerList.UiPlayer>, qs: seq<PlayerList.UiPlayer>)
    ensures CountActive(ps + qs) == CountActive(ps) + CountActive(qs)
  {
    if ps != [] {
      assert (ps + qs)[0] == ps[0] && (ps + qs)[1..] == ps[1..] + qs;
      CountActiveAppend(ps[1..], qs);
    } else {
      assert ps + qs == qs;
    }
  }

  /** `players.filter(p => p.status === "active").length` is that count. */
  lemma {:induction false} FilterCountsActive(ps: seq<PlayerList.UiPlayer>)
    ensures |PlayerList.Keep(ps, IsActive)| == CountActive(ps)
  {
    if ps != [] {
      FilterCountsActive(ps[1..]);
    }
  }

  /** `getStats`. */
  function GetStats(ps: seq<PlayerList.UiPlayer>): (s: Stats)
    ensures s.totalPlayers == |ps| && s.activePlayers <= s.totalPlayers
    ensures s.activePlayers == CountActive(ps)
    ensures s.totalGames == Sum(ps, Games) && s.totalScore == Sum(ps, Points)
  {
    SumLeftIsSum(ps, Games);
    SumLeftIsSum(ps, Points);
    FilterCountsActive(ps);
    Stats(|ps|, |PlayerList.Keep(ps, IsActive)|, SumLeft(ps, Games), SumLeft(ps, Points))
  }

  /** Counts with no negative entries give non-negative totals. */
  lemma {:induction false} SumNonNegative(ps: seq<PlayerList.UiPlayer>, f: PlayerList.UiPlayer -> int)
    requires forall k :: 0 <= k < |ps| ==> f(ps[k]) >= 0
    ensures Sum(ps, f) >= 0
  {
    if ps != [] {
      assert forall k :: 0 <= k < |ps| - 1 ==> ps[1..][k] == ps[k + 1];
      SumNonNegative(ps[1..], f);
    }
  }

  /** The statistics of two lists joined are the two lists' statistics added. */
  lemma StatsOfConcat(ps: seq<PlayerList.UiPlayer>, qs: seq<PlayerList.UiPlayer>)
    ensures GetStats(ps + qs).totalPlayers == GetStats(ps).totalPlayers + GetStats(qs).totalPlayers
    ensures GetStats(ps + qs).activePlayers == GetStats(ps).activePlayers + GetStats(qs).activePlayers
    ensures GetStats(ps + qs).totalGames == GetStats(ps).totalGames + GetStats(qs).totalGames
    ensures GetStats(ps + qs).totalScore == GetStats(ps).totalScore + GetStats(qs).totalScore
  {
    CountActiveAppend(ps, qs);
    SumAppend(ps, qs, Games);
    SumAppend(ps, qs, Points);
  }

  // ---- payloads ---------------------------------------------------------------

  /** What the form hands to the page: the API fields, the display-only
      extras and, when editing, the id. */
  datatype FormPayload = FormPayload(
    username: string,
    totalScore: Option<int>,
    level: Option<int>,
    gamesPlayed: Option<int>,
    gamesWon: Option<int>,
    status: Option<Status>,
    avatarUrl: Option<string>,
    country: Option<string>,
    lastPlayed: Option<string>,
    achievements: Option<seq<string>>,
    currentStreak: Option<int>,
    bestStreak: Option<int>,
    id: Option<string>)

  /** The body the player API accepts. */
  datatype PlayerCreate = PlayerCreate(
    username: string,
    totalScore: Option<int>,
    level: Option<int>,
    gamesPlayed: Option<int>,
    gamesWon: Option<int>,
    status: Option<Status>,
    avatarUrl: Option<string>,
    country: Option<string>,
    lastPlayed: Option<string>)

  /** `toPlayerCreate`: the nine API fields, copied. */
  function ToPlayerCreate(d: FormPayload): PlayerCreate {
    PlayerCreate(d.username, d.totalScore, d.level, d.gamesPlayed, d.gamesWon,
                 d.status, d.avatarUrl, d.country, d.lastPlayed)
  }

  /** A body seen as a form payload without extras or id. */
  function FromPlayerCreate(c: PlayerCreate): FormPayload {
    FormPayload(c.username, c.totalScore, c.level, c.gamesPlayed, c.gamesWon,
                c.status, c.avatarUrl, c.country, c.lastPlayed, None, None, None, None)
  }

  /** Nothing is lost from the nine fields... */
  lemma ToPlayerCreateKeepsFields(c: PlayerCreate)
    ensures ToPlayerCreate(FromPlayerCreate(c)) == c
  {
  }

  /** ...and the id, achievements and streaks never reach the body. */
  lemma ToPlayerCreateDropsExtras(d: FormPayload, achievements: Option<seq<string>>,
                                  currentStreak: Option<int>, bestStreak: Option<int>, id: Option<string>)
    ensures ToPlayerCreate(d.(achievements := achievements, currentStreak := currentStreak,
                              bestStreak := bestStreak, id := id)) == ToPlayerCreate(d)
  {
  }

  datatype Request =
    | CreateRequest(body: PlayerCreate)
    | UpdateRequest(id: string, body: PlayerCreate)
    | DeleteRequest(id: string)

  /** `handleCreatePlayer`: the body with `last_played` set to the time of
      the click. */
  function CreateFor(d: FormPayload, now: string): (r: Request)
    ensures r.CreateRequest? && r.body.lastPlayed == Some(now)
    ensures r.body.(lastPlayed := d.lastPlayed) == ToPlayerCreate(d)
  {
    CreateRequest(ToPlayerCreate(d).(lastPlayed := Some(now)))
  }

  /** `handleUpdatePlayer`: nothing is sent without a target id. */
  function UpdateFor(editingId: Option<string>, d: FormPayload): (r: Option<Request>)
    ensures r.None? <==> editingId.None? || editingId.value == ""
    ensures r.Some? ==> r.value == UpdateRequest(editingId.value, ToPlayerCreate(d))
  {
    if editingId.None? || editingId.value == "" then None
    else Some(UpdateRequest(editingId.value, ToPlayerCreate(d)))
  }

  /** `handleDeletePlayer`: nothing is sent without a target id. */
  function DeleteFor(deletingId: Option<string>): (r: Option<Request>)
    ensures r.None? <==> deletingId.None? || deletingId.value == ""
    ensures r.Some? ==> r.value == DeleteRequest(deletingId.value)
  {
    if deletingId.None? || deletingId.value == "" then None else Some(DeleteRequest(deletingId.value))
  }
}
