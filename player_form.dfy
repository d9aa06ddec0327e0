/** The admin's player form: its starting values, the achievement list it
    edits and the clamp on the level field. */
module PlayerForm {
  import opened Wrappers
  import opened Text
  import opened PlayerSchema

  /** The values the form holds and submits. */
  datatype FormValues = FormValues(
    username: string,
    avatarUrl: string,
    totalScore: int,
    gamesPlayed: int,
    gamesWon: int,
    level: int,
    achievements: seq<string>,
    currentStreak: int,
    bestStreak: int,
    country: string,
    status: Status)

  /** The player being edited, as received: any field but the status may be missing. */
  datatype EditedPlayer = EditedPlayer(
    username: Option<string>,
    avatarUrl: Option<string>,
    totalScore: Option<int>,
    gamesPlayed: Option<int>,
    gamesWon: Option<int>,
    level: Option<int>,
    achievements: Option<seq<string>>,
    currentStreak: Option<int>,
    bestStreak: Option<int>,
    country: Option<string>,
    status: Status)

  const Defaults := FormValues("", "", 0, 0, 0, 1, [], 0, 0, "", Active)

  /** `initial`: the defaults, overlaid field by field with the player's
      values where it has them. */
  function Initial(player: Option<EditedPlayer>): (v: FormValues)
    ensures player.None? ==> v == Defaults
    ensures player.Some? ==> var p := player.value;
      && v.username == p.username.GetOr(Defaults.username)
      && v.avatarUrl == p.avatarUrl.GetOr(Defaults.avatarUrl)
      && v.totalScore == p.totalScore.GetOr(Defaults.totalScore)
      && v.gamesPlayed == p.gamesPlayed.GetOr(Defaults.gamesPlayed)
      && v.gamesWon == p.gamesWon.GetOr(Defaults.gamesWon)
      && v.level == p.level.GetOr(Defaults.level)
      && v.achievements == p.achievements.GetOr(Defaults.achievements)
      && v.currentStreak == p.currentStreak.GetOr(Defaults.currentStreak)
      && v.bestStreak == p.bestStreak.GetOr(Defaults.bestStreak)
      && v.country == p.country.GetOr(Defaults.country)
      && v.status == p.status
  {
    match player
    case None => Defaults
    case Some(p) =>
      FormValues(
        p.username.GetOr(Defaults.username),
        p.avatarUrl.GetOr(Defaults.avatarUrl),
        p.totalScore.GetOr(Defaults.totalScore),
        p.gamesPlayed.GetOr(Defaults.gamesPlayed),
        p.gamesWon.GetOr(Defaults.gamesWon),
        p.level.GetOr(Defaults.level),
        p.achievements.GetOr(Defaults.achievements),
        p.currentStreak.GetOr(Defaults.currentStreak),
        p.bestStreak.GetOr(Defaults.bestStreak),
        p.country.GetOr(Defaults.country),
        p.status)
  }

  /** A player with every field present, as a submitted form would give. */
  function AsPlayer(v: FormValues): EditedPlayer {
    EditedPlayer(Some(v.username), Some(v.avatarUrl), Some(v.totalScore), Some(v.gamesPlayed),
                 Some(v.gamesWon), Some(v.level), Some(v.achievements), Some(v.currentStreak),
                 Some(v.bestStreak), Some(v.country), v.status)
  }

  /** Editing a player whose fields are all present shows exactly its values. */
  lemma InitialShowsPlayer(v: FormValues)
    ensures Initial(Some(AsPlayer(v))) == v
  {
  }

  /** A player with nothing but a status starts from the defaults. */
  lemma InitialFallsBackToDefaults(s: Status)
    ensures Initial(Some(EditedPlayer(None, None, None, None, None, None, None, None, None, None, s))) == Defaults.(status := s)
  {
  }

  // ---- achievements -----------------------------------------------------------

  predicate NoDuplicates(s: seq<string>) {
    forall i, j :: 0 <= i < j < |s| ==> s[i] != s[j]
  }

  /** `addAchievement` on values: the list and the input box afterwards. */
  function AddAchievement(list: seq<string>, input: string): (r: (seq<string>, string))
    ensures var value := Trim(input);
      if value != "" && value !in list then r == (list + [value], "") else r == (list, input)
    ensures NoDuplicates(list) ==> NoDuplicates(r.0)
    ensures forall a :: a in r.0 ==> a in list || a == Trim(input)
  {
    var value := Trim(input);
    if value != "" && value !in list then (list + [value], "") else (list, input)
  }

  /** `filter((a) => a !== achievement)`. */
  function RemoveAchievement(list: seq<string>, achievement: string): (r: seq<string>)
    ensures achievement !in r
    ensures forall a :: a != achievement ==> (a in r <==> a in list)
    ensures forall a :: a != achievement ==> multiset(r)[a] == multiset(list)[a]
    ensures |r| <= |list|
  {
    if list == [] then []
    else
      assert list == [list[0]] + list[1..];
      (if list[0] != achievement then [list[0]] else []) + RemoveAchievement(list[1..], achievement)
  }

  /** Removing an element the list does not hold changes nothing. */
  lemma {:induction false} RemoveAbsent(list: seq<string>, achievement: string)
    requires achievement !in list
    ensures RemoveAchievement(list, achievement) == list
  {
    if list != [] {
      RemoveAbsent(list[1..], achievement);
    }
  }

  /** Removing distributes over concatenation. */
  lemma {:induction false} RemoveAppend(a: seq<string>, b: seq<string>, achievement: string)
    ensures RemoveAchievement(a + b, achievement) == RemoveAchievement(a, achievement) + RemoveAchievement(b, achievement)
  {
    if a != [] {
      assert (a + b)[0] == a[0] && (a + b)[1..] == a[1..] + b;
      RemoveAppend(a[1..], b, achievement);
    } else {
      assert a + b == b;
    }
  }

  /** Removing what was just added restores the list. */
  lemma AddThenRemove(list: seq<string>, input: string)
    requires Trim(input) != "" && Trim(input) !in list
    ensures RemoveAchievement(AddAchievement(list, input).0, Trim(input)) == list
  {
    var value := Trim(input);
    RemoveAppend(list, [value], value);
    RemoveAbsent(list, value);
    assert RemoveAchievement([value], value) == [];
  }

  /** The level field never goes below 1; an unreadable entry counts as 1. */
  function ClampLevel(entered: Option<int>): (level: int)
    ensures level >= 1
    ensures entered.Some? && entered.value >= 1 ==> level == entered.value
    ensures entered.None? || entered.value <= 1 ==> level == 1
  {
    var n := entered.GetOr(1);
    if n >= 1 then n else 1
  }

  /** The form's state: its values and the pending achievement text. */
  class FormState {
    var formData: FormValues
    var newAchievement: string

    constructor (player: Option<EditedPlayer>)
      ensures formData == Initial(player) && newAchievement == ""
    {
      formData := Initial(player);
      newAchievement := "";
    }

    method AddAchievementClicked()
      modifies this
      ensures (formData.achievements, newAchievement) == AddAchievement(old(formData.achievements), old(newAchievement))
      ensures formData == old(formData).(achievements := formData.achievements)
    {
      var value := Trim(newAchievement);
      if value != "" && value !in formData.achievements {
        formData := formData.(achievements := formData.achievements + [value]);
        newAchievement := "";
      }
    }

    method RemoveAchievementClicked(achievement: string)
      modifies this
      ensures formData == old(formData).(achievements := RemoveAchievement(old(formData.achievements), achievement))
      ensures newAchievement == old(newAchievement)
    {
      formData := formData.(achievements := RemoveAchievement(formData.achievements, achievement));
    }

    /** The level input's change handler; `None` is an entry that is not a finite number. */
    method LevelChanged(entered: Option<int>)
      modifies this
      ensures formData == old(formData).(level := ClampLevel(entered)) && formData.level >= 1
      ensures newAchievement == old(newAchievement)
    {
      formData := formData.(level := ClampLevel(entered));
    }
  }
}
