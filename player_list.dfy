/** The players page's client-side view of the player list: a search over
    username and country, a status filter, a sort on one key, and
    the rank badge taken from the unfiltered list. */
module PlayerList {
  import opened Wrappers
  import opened Text
  import opened PlayerSchema

  /** A player as the page receives it; numeric fields may be missing. */
  datatype UiPlayer = UiPlayer(
    id: string,
    username: string,
    country: Option<string>,
    status: Status,
    totalScore: Option<int>,
    level: Option<int>,
    gamesPlayed: Option<int>)

  datatype ListSort = ByScore | ByUsername | ByLevel | ByGamesPlayed

  datatype StatusFilter = AllStatuses | OnlyStatus(status: Status)

  // ---- filtering --------------------------------------------------------------

  /** `array.filter(keep)`: the kept elements, in order. */
  function Keep(ps: seq<UiPlayer>, keep: UiPlayer -> bool): (r: seq<UiPlayer>)
    ensures |r| <= |ps|
  {
    if ps == [] then []
    else (if keep(ps[0]) then [ps[0]] else []) + Keep(ps[1..], keep)
  }

  /** The filter keeps exactly the matching players, each as often as before. */
  lemma {:induction false} KeepKeeps(ps: seq<UiPlayer>, keep: UiPlayer -> bool)
    ensures forall p :: p in Keep(ps, keep) <==> p in ps && keep(p)
    ensures multiset(Keep(ps, keep)) <= multiset(ps)
    ensures forall p :: keep(p) ==> multiset(Keep(ps, keep))[p] == multiset(ps)[p]
  {
    if ps != [] {
      KeepKeeps(ps[1..], keep);
      assert ps == [ps[0]] + ps[1..];
    }
  }

  /** Filtering distributes over concatenation, so the kept players stay in
      their order. */
  lemma {:induction false} KeepAppend(a: seq<UiPlayer>, b: seq<UiPlayer>, keep: UiPlayer -> bool)
    ensures Keep(a + b, keep) == Keep(a, keep) + Keep(b, keep)
  {
    if a != [] {
      var x, rest := a[0], a[1..];
      var h := if keep(x) then [x] else [];
      assert a == [x] + rest;
      assert a + b == [x] + (rest + b);
      KeepCons(x, rest + b, keep);
      KeepCons(x, rest, keep);
      KeepAppend(rest, b, keep);
      assert h + (Keep(rest, keep) + Keep(b, keep)) == (h + Keep(rest, keep)) + Keep(b, keep);
    } else {
      assert a + b == b;
    }
  }

  lemma KeepCons(x: UiPlayer, rest: seq<UiPlayer>, keep: UiPlayer -> bool)
    ensures Keep([x] + rest, keep) == (if keep(x) then [x] else []) + Keep(rest, keep)
  {
    assert ([x] + rest)[1..] == rest;
  }

  /** A present, non-empty field containing the lower-cased term. */
  predicate FieldMatches(field: string, needle: string) {
    field != "" && Contains(ToLower(field), needle)
  }

  predicate MatchesSearch(p: UiPlayer, needle: string) {
    FieldMatches(p.username, needle) || (p.country.Some? && FieldMatches(p.country.value, needle))
  }

  /** The search step: a blank term keeps everyone; otherwise the term is
      lower-cased and trimmed, and a player is kept when its username or
      country contains it. */
  function SearchFilter(ps: seq<UiPlayer>, term: string): (r: seq<UiPlayer>)
    ensures IsBlank(term) ==> r == ps
    ensures !IsBlank(term) ==> forall p :: p in r <==> p in ps && MatchesSearch(p, Trim(ToLower(term)))
    ensures multiset(r) <= multiset(ps)
  {
    TrimEmptyIffBlank(term);
    if Trim(term) == "" then ps
    else
      var keep := (p: UiPlayer) => MatchesSearch(p, Trim(ToLower(term)));
      KeepKeeps(ps, keep);
      Keep(ps, keep)
  }

  /** The status step: `all` keeps everyone, otherwise exactly that status. */
  function ApplyStatusFilter(ps: seq<UiPlayer>, filter: StatusFilter): (r: seq<UiPlayer>)
    ensures filter.AllStatuses? ==> r == ps
    ensures filter.OnlyStatus? ==> forall p :: p in r <==> p in ps && p.status == filter.status
    ensures multiset(r) <= multiset(ps)
  {
    if filter.AllStatuses? then ps
    else
      var keep := (p: UiPlayer) => p.status == filter.status;
      KeepKeeps(ps, keep);
      Keep(ps, keep)
  }

  /** The search is blind to the letter case of the term. */
  lemma SearchIgnoresTermCase(ps: seq<UiPlayer>, term: string)
    ensures SearchFilter(ps, ToLower(term)) == SearchFilter(ps, term)
  {
    TrimLower(term);
    LowerIdempotent(Trim(term));
    TrimEmptyIffBlank(term);
    TrimEmptyIffBlank(ToLower(term));
    LowerIdempotent(term);
  }

  // ---- ordering ---------------------------------------------------------------

  /** Code-unit lexicographic order on strings. */
  predicate LexLeq(a: string, b: string)
    decreases |a|
  {
    a == [] || (b != [] && (a[0] < b[0] || (a[0] == b[0] && LexLeq(a[1..], b[1..]))))
  }

  lemma {:induction false} LexTotal(a: string, b: string)
    ensures LexLeq(a, b) || LexLeq(b, a)
    decreases |a|
  {
    if a != [] && b != [] && a[0] == b[0] {
      LexTotal(a[1..], b[1..]);
    }
  }

  lemma {:induction false} LexTrans(a: string, b: string, c: string)
    requires LexLeq(a, b) && LexLeq(b, c)
    ensures LexLeq(a, c)
    decreases |a|
  {
    if a != [] && a[0] == b[0] && b[0] == c[0] {
      LexTrans(a[1..], b[1..], c[1..]);
    }
  }

  function Score(x: Option<int>): int { x.GetOr(0) }

  /** The comparison handed to `sort`: negative when `a` goes first. Numeric
      keys sort descending with a missing value counting as 0. */
  function Compare(key: ListSort, a: UiPlayer, b: UiPlayer): (r: int)
    ensures key.ByScore? ==>
      (r < 0 <==> Score(a.totalScore) > Score(b.totalScore)) && (r == 0 <==> Score(a.totalScore) == Score(b.totalScore))
    ensures key.ByLevel? ==>
      (r < 0 <==> Score(a.level) > Score(b.level)) && (r == 0 <==> Score(a.level) == Score(b.level))
    ensures key.ByGamesPlayed? ==>
      (r < 0 <==> Score(a.gamesPlayed) > Score(b.gamesPlayed)) && (r == 0 <==> Score(a.gamesPlayed) == Score(b.gamesPlayed))
    ensures key.ByUsername? ==>
      (r == 0 <==> a.username == b.username) && (r < 0 <==> a.username != b.username && LexLeq(a.username, b.username))
  {
    match key
    case ByScore => Score(b.totalScore) - Score(a.totalScore)
    case ByLevel => Score(b.level) - Score(a.level)
    case ByGamesPlayed => Score(b.gamesPlayed) - Score(a.gamesPlayed)
    case ByUsername =>
      if a.username == b.username then 0 else if LexLeq(a.username, b.username) then -1 else 1
  }

  lemma {:induction false} LexAntisymmetric(a: string, b: string)
    requires LexLeq(a, b) && LexLeq(b, a)
    ensures a == b
    decreases |a|
  {
    if a != [] {
      LexAntisymmetric(a[1..], b[1..]);
      assert a == [a[0]] + a[1..] && b == [b[0]] + b[1..];
    }
  }

  /** Swapping the two players flips the sign of the comparison. */
  lemma CompareAntisymmetric(key: ListSort, a: UiPlayer, b: UiPlayer)
    ensures Compare(key, a, b) < 0 <==> Compare(key, b, a) > 0
    ensures Compare(key, a, b) == 0 <==> Compare(key, b, a) == 0
  {
    if key.ByUsername? && a.username != b.username {
      LexTotal(a.username, b.username);
      if LexLeq(a.username, b.username) && LexLeq(b.username, a.username) {
        LexAntisymmetric(a.username, b.username);
      }
    }
  }

  /** `a` may stand before `b` in a sorted list. */
  predicate InOrder(key: ListSort, a: UiPlayer, b: UiPlayer) {
    Compare(key, a, b) <= 0
  }

  predicate Sorted(key: ListSort, s: seq<UiPlayer>) {
    forall i, j :: 0 <= i < j < |s| ==> InOrder(key, s[i], s[j])
  }

  /** The comparison is total: when `a` is not strictly before `b`, then
      `b` may stand before `a`. */
  lemma CompareFlip(key: ListSort, a: UiPlayer, b: UiPlayer)
    ensures Compare(key, a, b) >= 0 ==> InOrder(key, b, a)
  {
    if key.ByUsername? && a.username != b.username {
      LexTotal(a.username, b.username);
    }
  }

  lemma InOrderTrans(key: ListSort, a: UiPlayer, b: UiPlayer, c: UiPlayer)
    requires InOrder(key, a, b) && InOrder(key, b, c)
    ensures InOrder(key, a, c)
  {
    if key.ByUsername? && a.username != c.username {
      if a.username != b.username && b.username != c.username {
        LexTrans(a.username, b.username, c.username);
      }
    }
  }

  /** Numeric keys: a sorted list never rises. */
  lemma SortedNonIncreasing(key: ListSort, s: seq<UiPlayer>)
    requires Sorted(key, s)
    ensures key.ByScore? ==> forall i, j :: 0 <= i < j < |s| ==> Score(s[i].totalScore) >= Score(s[j].totalScore)
    ensures key.ByLevel? ==> forall i, j :: 0 <= i < j < |s| ==> Score(s[i].level) >= Score(s[j].level)
    ensures key.ByGamesPlayed? ==> forall i, j :: 0 <= i < j < |s| ==> Score(s[i].gamesPlayed) >= Score(s[j].gamesPlayed)
    ensures key.ByUsername? ==> forall i, j :: 0 <= i < j < |s| ==>
      s[i].username == s[j].username || LexLeq(s[i].username, s[j].username)
  {
    forall i, j | 0 <= i < j < |s| ensures InOrder(key, s[i], s[j]) {
    }
  }

  /** Places `x` after the leading elements it does not go strictly before. */
  function Insert(key: ListSort, x: UiPlayer, s: seq<UiPlayer>): (r: seq<UiPlayer>)
    ensures multiset(r) == multiset(s) + multiset{x}
    ensures Sorted(key, s) ==> Sorted(key, r)
  {
    if s == [] then [x]
    else if Compare(key, x, s[0]) < 0 then
      InsertFront(key, x, s);
      [x] + s
    else
      var rest := Insert(key, x, s[1..]);
      assert s == [s[0]] + s[1..];
      InsertLater(key, x, s, rest);
      [s[0]] + rest
  }

  /** An element strictly before the head of a sorted list may go in front. */
  lemma InsertFront(key: ListSort, x: UiPlayer, s: seq<UiPlayer>)
    requires s != [] && Compare(key, x, s[0]) < 0
    ensures Sorted(key, s) ==> Sorted(key, [x] + s)
  {
    if Sorted(key, s) {
      forall j | 0 <= j < |s| ensures InOrder(key, x, s[j]) {
        if j > 0 { InOrderTrans(key, x, s[0], s[j]); }
      }
    }
  }

  /** The head stays in front of the tail with `x` inserted when `x` is not
      strictly before it. */
  lemma InsertLater(key: ListSort, x: UiPlayer, s: seq<UiPlayer>, rest: seq<UiPlayer>)
    requires s != [] && Compare(key, x, s[0]) >= 0
    requires multiset(rest) == multiset(s[1..]) + multiset{x}
    requires Sorted(key, s[1..]) ==> Sorted(key, rest)
    ensures Sorted(key, s) ==> Sorted(key, [s[0]] + rest)
  {
    CompareFlip(key, x, s[0]);
    if Sorted(key, s) {
      assert Sorted(key, s[1..]);
      forall y | y in rest ensures InOrder(key, s[0], y) {
        assert y in multiset(rest);
        if y != x {
          assert y in s[1..];
        }
      }
      var r := [s[0]] + rest;
      forall i, j | 0 <= i < j < |r| ensures InOrder(key, r[i], r[j]) {
        if i == 0 { assert r[j] in rest; } else { assert r[i] == rest[i - 1] && r[j] == rest[j - 1]; }
      }
    }
  }

  /** An insertion sort: what `filtered.sort(compare)` leaves. */
  function SortBy(key: ListSort, s: seq<UiPlayer>): (r: seq<UiPlayer>)
    ensures multiset(r) == multiset(s)
    ensures Sorted(key, r)
  {
    if s == [] then []
    else
      assert s == s[..|s| - 1] + [s[|s| - 1]];
      Insert(key, s[|s| - 1], SortBy(key, s[..|s| - 1]))
  }

  // ---- the page's list --------------------------------------------------------

  /** `filterAndSortPlayers`: search, then status, then sort a copy; the
      loaded list itself is a value and stays as it was. */
  method FilterAndSort(players: seq<UiPlayer>, term: string, filter: StatusFilter, key: ListSort)
    returns (shown: seq<UiPlayer>)
    ensures Sorted(key, shown)
    ensures multiset(shown) == multiset(ApplyStatusFilter(SearchFilter(players, term), filter))
    ensures multiset(shown) <= multiset(players)
    ensures forall p :: p in shown ==>
      && p in players
      && (IsBlank(term) || MatchesSearch(p, Trim(ToLower(term))))
      && (filter.AllStatuses? || p.status == filter.status)
  {
    var filtered := players;
    filtered := SearchFilter(filtered, term);
    filtered := ApplyStatusFilter(filtered, filter);
    shown := SortBy(key, filtered);
    forall p | p in shown ensures p in filtered {
      assert p in multiset(shown);
    }
  }

  /** `findIndex(p => p.id === id)`: the first index with that id, or -1. */
  function FindIndex(ps: seq<UiPlayer>, id: string): (r: int)
    ensures -1 <= r < |ps|
    ensures r >= 0 ==> ps[r].id == id && forall k :: 0 <= k < r ==> ps[k].id != id
    ensures r == -1 <==> forall k :: 0 <= k < |ps| ==> ps[k].id != id
  {
    if ps == [] then -1
    else if ps[0].id == id then 0
    else
      var r := FindIndex(ps[1..], id);
      if r == -1 then -1 else r + 1
  }

  /** The rank badge: one more than the player's index in the loaded list. */
  function DisplayedRank(players: seq<UiPlayer>, p: UiPlayer): (r: int)
    ensures 0 <= r <= |players|
    ensures r >= 1 ==> players[r - 1].id == p.id && forall k :: 0 <= k < r - 1 ==> players[k].id != p.id
    ensures r == 0 <==> forall k :: 0 <= k < |players| ==> players[k].id != p.id
  {
    FindIndex(players, p.id) + 1
  }

  /** A shown player's badge is its place in the loaded list, not in the
      filtered one. */
  lemma ShownRankFromLoadedList(players: seq<UiPlayer>, shown: seq<UiPlayer>, p: UiPlayer)
    requires multiset(shown) <= multiset(players) && p in shown
    ensures 1 <= DisplayedRank(players, p) <= |players|
    ensures players[DisplayedRank(players, p) - 1].id == p.id
    ensures forall k :: 0 <= k < DisplayedRank(players, p) - 1 ==> players[k].id != p.id
  {
    assert p in multiset(shown);
    assert p in players;
    var i :| 0 <= i < |players| && players[i] == p;
  }
}
