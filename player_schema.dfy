/** The server's player record and the pure request-parsing rules of the
    player routes: body validation, the path-id check, the sort-parameter
    policy, and how a validated body becomes (part of) a stored row. */
module PlayerSchema {
  import opened Wrappers
  import opened Text

  datatype Status = Active | Inactive | Banned

  function StatusName(s: Status): string {
    match s
    case Active => "active"
    case Inactive => "inactive"
    case Banned => "banned"
  }

  /** The status enum: exactly the three names are accepted. */
  function ParseStatus(s: string): (r: Option<Status>)
    ensures r.Some? ==> StatusName(r.value) == s
    ensures r.None? <==> (forall st: Status :: StatusName(st) != s)
  {
    if s == "active" then Some(Active)
    else if s == "inactive" then Some(Inactive)
    else if s == "banned" then Some(Banned)
    else None
  }

  /** A row of the player table. Creation and update timestamps are not modelled. */
  datatype Player = Player(
    id: string,
    username: string,
    totalScore: int,
    level: int,
    gamesPlayed: int,
    gamesWon: int,
    status: Status,
    avatarUrl: Option<string>,
    country: Option<string>,
    lastPlayed: Option<string>)

  /** What validation guarantees of every value written to the table. */
  predicate WellFormed(p: Player) {
    && p.username != []
    && p.totalScore >= 0
    && p.level >= 1
    && p.gamesPlayed >= 0
    && p.gamesWon >= 0
    && p.avatarUrl != Some("")
  }

  /** Column defaults for fields a create request leaves out (the table's
      schema is not part of this model; these are the values the model takes). */
  const DefaultScore := 0
  const DefaultLevel := 1
  const DefaultGames := 0

  /** A request body after number coercion: numbers are reals so that the
      integrality test of the schema can be stated. */
  datatype RawPlayer = RawPlayer(
    username: Option<string>,
    totalScore: Option<real>,
    level: Option<real>,
    gamesPlayed: Option<real>,
    gamesWon: Option<real>,
    status: Option<string>,
    avatarUrl: Option<string>,
    country: Option<string>,
    lastPlayed: Option<string>)

  /** A body that passed validation: each field present or absent. */
  datatype PlayerFields = PlayerFields(
    username: Option<string>,
    totalScore: Option<int>,
    level: Option<int>,
    gamesPlayed: Option<int>,
    gamesWon: Option<int>,
    status: Option<Status>,
    avatarUrl: Option<string>,
    country: Option<string>,
    lastPlayed: Option<string>)

  predicate IsInteger(x: real) { x.Floor as real == x }

  /** An optional integer field with a lower bound (`int().nonnegative()` is
      bound 0, `int().positive()` is bound 1). The outer `None` is a rejection. */
  function CheckInt(x: Option<real>, lowest: int): (r: Option<Option<int>>)
    ensures r.Some? <==> (x.None? || (IsInteger(x.value) && x.value >= lowest as real))
    ensures r.Some? && x.None? ==> r.value.None?
    ensures r.Some? && x.Some? ==> r.value.Some? && r.value.value as real == x.value
    ensures r.Some? ==> Carries(x, r.value) && (r.value.Some? ==> r.value.value >= lowest)
  {
    match x
    case None => Some(None)
    case Some(v) => if IsInteger(v) && v >= lowest as real then Some(Some(v.Floor)) else None
  }

  /** The avatar: a URL or the empty string, and the empty string becomes absent. */
  function CheckAvatar(x: Option<string>, isUrl: string -> bool): (r: Option<Option<string>>)
    ensures r.Some? <==> (x.None? || x.value == "" || isUrl(x.value))
    ensures r.Some? ==> r.value == (if x == Some("") then None else x)
  {
    match x
    case None => Some(None)
    case Some(v) => if v == "" then Some(None) else if isUrl(v) then Some(Some(v)) else None
  }

  /** `PlayerCreate.parse` (partial = false) and `PlayerCreate.partial().parse`
      (partial = true). The URL test of the schema is the parameter `isUrl`,
      the date-parsing test of `last_played` the parameter `isDate`. */
  function Validate(raw: RawPlayer, partial: bool, isUrl: string -> bool, isDate: string -> bool): (r: Option<PlayerFields>)
    ensures r.Some? <==>
      && (if partial then raw.username.None? || raw.username.value != [] else raw.username.Some? && raw.username.value != [])
      && CheckInt(raw.totalScore, 0).Some?
      && CheckInt(raw.level, 1).Some?
      && CheckInt(raw.gamesPlayed, 0).Some?
      && CheckInt(raw.gamesWon, 0).Some?
      && (raw.status.None? || ParseStatus(raw.status.value).Some?)
      && CheckAvatar(raw.avatarUrl, isUrl).Some?
      && (raw.lastPlayed.None? || raw.lastPlayed.value == "" || isDate(raw.lastPlayed.value))
    ensures r.Some? ==> FieldsValid(r.value) && (!partial ==> r.value.username.Some? && r.value.status.Some?)
    ensures r.Some? && !partial && raw.status.None? ==> r.value.status == Some(Active)
    ensures r.Some? && partial ==> (r.value.status.Some? <==> raw.status.Some?)
    ensures r.Some? ==> r.value.username == raw.username && r.value.country == raw.country
    ensures r.Some? ==>
      && Carries(raw.totalScore, r.value.totalScore)
      && Carries(raw.level, r.value.level)
      && Carries(raw.gamesPlayed, r.value.gamesPlayed)
      && Carries(raw.gamesWon, r.value.gamesWon)
    ensures r.Some? && raw.status.Some? ==> r.value.status.Some? && StatusName(r.value.status.value) == raw.status.value
    ensures r.Some? ==> r.value.avatarUrl == (if raw.avatarUrl == Some("") then None else raw.avatarUrl)
    ensures r.Some? ==> r.value.lastPlayed == raw.lastPlayed
  {
    var usernameOk := match raw.username
      case None => partial
      case Some(u) => u != [];
    var score := CheckInt(raw.totalScore, 0);
    var level := CheckInt(raw.level, 1);
    var played := CheckInt(raw.gamesPlayed, 0);
    var won := CheckInt(raw.gamesWon, 0);
    var status := CheckStatus(raw.status, partial);
    var avatar := CheckAvatar(raw.avatarUrl, isUrl);
    var dateOk := raw.lastPlayed.None? || raw.lastPlayed.value == "" || isDate(raw.lastPlayed.value);
    if usernameOk && score.Some? && level.Some? && played.Some? && won.Some? && status.Some? && avatar.Some? && dateOk then
      Some(PlayerFields(raw.username, score.value, level.value, played.value, won.value,
                        status.value, avatar.value, raw.country, raw.lastPlayed))
    else None
  }

  /** The status: a known name, or when absent `active` for a full body and
      nothing for a partial one. The outer `None` is a rejection. */
  function CheckStatus(x: Option<string>, partial: bool): (r: Option<Option<Status>>)
    ensures r.Some? <==> x.None? || ParseStatus(x.value).Some?
    ensures x.None? ==> r == if partial then Some(None) else Some(Some(Active))
    ensures x.Some? && r.Some? ==> r.value.Some? && StatusName(r.value.value) == x.value
  {
    match x
    case None => if partial then Some(None) else Some(Some(Active))
    case Some(s) => if ParseStatus(s).Some? then Some(ParseStatus(s)) else None
  }

  /** A validated number field is present exactly when the body's is, with
      the same value. */
  predicate Carries(x: Option<real>, y: Option<int>) {
    && (x.Some? <==> y.Some?)
    && (x.Some? ==> y.value as real == x.value)
  }

  /** Every present field of a validated body satisfies its rule. */
  predicate FieldsValid(f: PlayerFields) {
    && (f.username.Some? ==> f.username.value != [])
    && (f.totalScore.Some? ==> f.totalScore.value >= 0)
    && (f.level.Some? ==> f.level.value >= 1)
    && (f.gamesPlayed.Some? ==> f.gamesPlayed.value >= 0)
    && (f.gamesWon.Some? ==> f.gamesWon.value >= 0)
    && f.avatarUrl != Some("")
  }

  /** `last_played` is written only when it is a non-empty string. */
  function NonEmpty(x: Option<string>): Option<string> {
    if x == Some("") then None else x
  }

  /** The row a create request stores: the body's fields over the column defaults. */
  function NewPlayer(id: string, f: PlayerFields): (p: Player)
    requires FieldsValid(f) && f.username.Some? && f.status.Some?
    ensures WellFormed(p) && p.id == id
    ensures p.username == f.username.value && p.status == f.status.value
    ensures p.totalScore == f.totalScore.GetOr(DefaultScore) && p.level == f.level.GetOr(DefaultLevel)
    ensures p.gamesPlayed == f.gamesPlayed.GetOr(DefaultGames) && p.gamesWon == f.gamesWon.GetOr(DefaultGames)
    ensures p.avatarUrl == f.avatarUrl && p.country == f.country
    ensures p.lastPlayed == (if f.lastPlayed == Some("") then None else f.lastPlayed)
  {
    Player(id, f.username.value, f.totalScore.GetOr(DefaultScore), f.level.GetOr(DefaultLevel),
           f.gamesPlayed.GetOr(DefaultGames), f.gamesWon.GetOr(DefaultGames), f.status.value,
           f.avatarUrl, f.country, NonEmpty(f.lastPlayed))
  }

  /** The row after an update: each field present in the body replaces the stored one. */
  function ApplyUpdate(p: Player, f: PlayerFields): (q: Player)
    requires FieldsValid(f)
    ensures WellFormed(p) ==> WellFormed(q)
    ensures q.id == p.id
    ensures q.username == f.username.GetOr(p.username) && q.status == f.status.GetOr(p.status)
    ensures q.totalScore == f.totalScore.GetOr(p.totalScore) && q.level == f.level.GetOr(p.level)
    ensures q.gamesPlayed == f.gamesPlayed.GetOr(p.gamesPlayed) && q.gamesWon == f.gamesWon.GetOr(p.gamesWon)
    ensures q.avatarUrl == (if f.avatarUrl.Some? then f.avatarUrl else p.avatarUrl)
    ensures q.country == (if f.country.Some? then f.country else p.country)
    ensures q.lastPlayed == (if f.lastPlayed.Some? && f.lastPlayed != Some("") then f.lastPlayed else p.lastPlayed)
  {
    Player(p.id, f.username.GetOr(p.username), f.totalScore.GetOr(p.totalScore), f.level.GetOr(p.level),
           f.gamesPlayed.GetOr(p.gamesPlayed), f.gamesWon.GetOr(p.gamesWon), f.status.GetOr(p.status),
           if f.avatarUrl.Some? then f.avatarUrl else p.avatarUrl,
           if f.country.Some? then f.country else p.country,
           if NonEmpty(f.lastPlayed).Some? then f.lastPlayed else p.lastPlayed)
  }

  const NoChange := PlayerFields(None, None, None, None, None, None, None, None, None)

  /** An empty body changes nothing, and applying the same body twice is
      the same as applying it once. */
  lemma ApplyUpdateLaws(p: Player, f: PlayerFields)
    requires FieldsValid(f)
    ensures ApplyUpdate(p, NoChange) == p
    ensures ApplyUpdate(ApplyUpdate(p, f), f) == ApplyUpdate(p, f)
  {
  }

  /** A body carrying every field (and a non-empty `last_played`) turns any
      row into exactly the row a create with that body stores under its id. */
  lemma FullUpdateIsCreate(p: Player, f: PlayerFields)
    requires FieldsValid(f)
    requires f.username.Some? && f.totalScore.Some? && f.level.Some? && f.gamesPlayed.Some?
    requires f.gamesWon.Some? && f.status.Some? && f.avatarUrl.Some? && f.country.Some?
    requires f.lastPlayed.Some? && f.lastPlayed != Some("")
    ensures ApplyUpdate(p, f) == NewPlayer(p.id, f)
  {
  }

  /** The row a create stores carries the posted values, and the column
      defaults 0, 1, 0, 0 for the numbers the body leaves out. */
  lemma CreatedRowCarriesBody(raw: RawPlayer, isUrl: string -> bool, isDate: string -> bool, id: string)
    requires Validate(raw, false, isUrl, isDate).Some?
    ensures var p := NewPlayer(id, Validate(raw, false, isUrl, isDate).value);
      && Some(p.username) == raw.username
      && (raw.totalScore.Some? ==> p.totalScore as real == raw.totalScore.value)
      && (raw.totalScore.None? ==> p.totalScore == 0)
      && (raw.level.Some? ==> p.level as real == raw.level.value)
      && (raw.level.None? ==> p.level == 1)
      && (raw.gamesPlayed.Some? ==> p.gamesPlayed as real == raw.gamesPlayed.value)
      && (raw.gamesPlayed.None? ==> p.gamesPlayed == 0)
      && (raw.gamesWon.Some? ==> p.gamesWon as real == raw.gamesWon.value)
      && (raw.gamesWon.None? ==> p.gamesWon == 0)
      && (raw.status.Some? ==> StatusName(p.status) == raw.status.value)
      && (raw.status.None? ==> p.status == Active)
      && p.country == raw.country
      && (raw.lastPlayed.Some? && raw.lastPlayed != Some("") ==> p.lastPlayed == raw.lastPlayed)
      && (raw.lastPlayed.None? || raw.lastPlayed == Some("") ==> p.lastPlayed.None?)
  {
  }

  /** An update stores the validated values of exactly the fields the body
      carries, and keeps every other field of the row. */
  lemma UpdatedRowCarriesBody(p: Player, raw: RawPlayer, isUrl: string -> bool, isDate: string -> bool)
    requires Validate(raw, true, isUrl, isDate).Some?
    ensures var q := ApplyUpdate(p, Validate(raw, true, isUrl, isDate).value);
      && q.username == raw.username.GetOr(p.username)
      && (raw.totalScore.Some? ==> q.totalScore as real == raw.totalScore.value)
      && (raw.totalScore.None? ==> q.totalScore == p.totalScore)
      && (raw.level.Some? ==> q.level as real == raw.level.value)
      && (raw.level.None? ==> q.level == p.level)
      && (raw.status.Some? ==> StatusName(q.status) == raw.status.value)
      && (raw.status.None? ==> q.status == p.status)
      && q.avatarUrl == (if raw.avatarUrl.Some? && raw.avatarUrl != Some("") then raw.avatarUrl else p.avatarUrl)
      && q.country == (if raw.country.Some? then raw.country else p.country)
      && q.lastPlayed == (if raw.lastPlayed.Some? && raw.lastPlayed != Some("") then raw.lastPlayed else p.lastPlayed)
  {
  }

  // ---- path parameter --------------------------------------------------------

  predicate IsHex(c: char) {
    ('0' <= c <= '9') || ('a' <= c <= 'f') || ('A' <= c <= 'F')
  }

  predicate IsHyphenPosition(i: int) { i == 8 || i == 13 || i == 18 || i == 23 }

  /** The UUID shape the id parameter must have: 8-4-4-4-12 hexadecimal digits. */
  predicate IsUuid(s: string) {
    |s| == 36 && forall i :: 0 <= i < 36 ==> if IsHyphenPosition(i) then s[i] == '-' else IsHex(s[i])
  }

  /** The id check ignores letter case: a UUID written in capitals passes
      exactly when its lower-case form does. */
  lemma UuidIgnoresCase(s: string)
    ensures IsUuid(ToLower(s)) <==> IsUuid(s)
  {
    var l := ToLower(s);
    if |s| == 36 {
      forall i | 0 <= i < 36 ensures IsHex(l[i]) <==> IsHex(s[i]) {
      }
    }
  }

  // ---- sort parameter of the listing -----------------------------------------

  datatype SortKey = CreatedAt | TotalScore | LastPlayed | Level | Username

  /** `SORTABLE_KEYS`, by name. */
  function SortKeyName(k: SortKey): string {
    match k
    case CreatedAt => "created_at"
    case TotalScore => "total_score"
    case LastPlayed => "last_played"
    case Level => "level"
    case Username => "username"
  }

  function LookupSortKey(name: string): (r: Option<SortKey>)
    ensures r.Some? ==> SortKeyName(r.value) == name
    ensures r.None? <==> (forall k: SortKey :: SortKeyName(k) != name)
  {
    if name == "created_at" then Some(CreatedAt)
    else if name == "total_score" then Some(TotalScore)
    else if name == "last_played" then Some(LastPlayed)
    else if name == "level" then Some(Level)
    else if name == "username" then Some(Username)
    else None
  }

  datatype SortSpec = SortSpec(key: SortKey, descending: bool)

  const DefaultSort := "-created_at"

  /** The `sort` query parameter of the listing: absent or empty means
      `-created_at`; one leading `-` selects descending order; a name outside
      the allow-list becomes `created_at` in the direction already parsed. */
  function ParseSort(param: Option<string>): (r: SortSpec)
    ensures param.None? || param == Some("") ==> r == SortSpec(CreatedAt, true)
    ensures param.Some? && param.value != "" ==> (r.descending <==> param.value[0] == '-')
    ensures param.Some? && param.value != "" && LookupSortKey(param.value).Some? ==>
      r == SortSpec(LookupSortKey(param.value).value, false)
  {
    var s := if param.None? || param.value == "" then DefaultSort else param.value;
    var desc := StartsWith(s, "-");
    var rawKey := if desc then s[1..] else s;
    SortSpec(LookupSortKey(rawKey).GetOr(CreatedAt), desc)
  }

  /** The parameter that asks for a given order. */
  function SortParam(spec: SortSpec): string {
    (if spec.descending then "-" else "") + SortKeyName(spec.key)
  }

  /** Every allowed order is reached by its own parameter, and a missing
      parameter means newest first. */
  lemma ParseSortRoundTrip(spec: SortSpec)
    ensures ParseSort(Some(SortParam(spec))) == spec
    ensures ParseSort(None) == ParseSort(Some("")) == SortSpec(CreatedAt, true)
  {
    var s := SortParam(spec);
    if spec.descending {
      assert s[1..] == SortKeyName(spec.key);
    } else {
      assert s == SortKeyName(spec.key);
      assert s[0] != '-' by { match spec.key { case _ => } }
    }
  }

  /** For any non-empty parameter: the order is descending exactly when it
      starts with `-`, only that one character is removed, and an unknown
      name falls back to `created_at` in the parsed direction. */
  lemma ParseSortPolicy(s: string)
    requires s != []
    ensures ParseSort(Some(s)).descending <==> s[0] == '-'
    ensures var rawKey := if s[0] == '-' then s[1..] else s;
      && (forall k: SortKey :: SortKeyName(k) == rawKey ==> ParseSort(Some(s)).key == k)
      && ((forall k: SortKey :: SortKeyName(k) != rawKey) ==> ParseSort(Some(s)).key == CreatedAt)
  {
  }
}
