/** Rows of the current schema (internal/models) and the storage constraints
    the GORM tags declare: the answer unique index, the shift-group unique
    index, the unique GEWIS id and organ name, and the delete cascades. */
module Models {
  import opened Common

  /** A `time.Time`: an instant in seconds since the Unix epoch, and the
      UTC offset in seconds of the location it carries. */
  datatype Time = Time(instant: int, offset: int)

  /** The calendar day of `t` in its own location, counted from the epoch. */
  function LocalDay(t: Time): int
  {
    (t.instant + t.offset) / SecondsPerDay
  }

  /** A dated roster of one organ. */
  datatype Roster = Roster(
    name: string,
    values: seq<string>,
    organId: nat,
    date: Time,
    saved: bool,
    templateId: Option<nat>)

  datatype RosterShift = RosterShift(
    name: string,
    rosterId: nat,
    order: nat,
    shiftGroupId: Option<nat>)

  datatype RosterAnswer = RosterAnswer(
    userId: nat,
    rosterId: nat,
    rosterShiftId: nat,
    value: string)

  /** A finalised shift; `users` is its `user_shift_saved` association. */
  datatype SavedShift = SavedShift(
    rosterId: nat,
    rosterShiftId: nat,
    users: set<nat>)

  /** One ranked candidate list, correlated with saved shifts by name. */
  datatype SavedShiftOrdering = SavedShiftOrdering(
    shiftName: string,
    users: seq<nat>)

  datatype RosterTemplate = RosterTemplate(organId: nat, name: string)

  datatype RosterTemplateShift = RosterTemplateShift(
    templateId: nat,
    shiftName: string,
    shiftGroupId: Option<nat>)

  datatype Preference = Preference(
    rosterTemplateShiftId: nat,
    userId: nat,
    preference: string)

  datatype ShiftGroup = ShiftGroup(organId: nat, name: string)

  datatype User = User(name: string, gewisId: nat)

  datatype Organ = Organ(name: string)

  /** A `user_organs` row; its primary key is (user id, organ id). */
  datatype UserOrgan = UserOrgan(username: string)

  /** The columns of the `user_answer_idx` unique index. */
  function AnswerKey(a: RosterAnswer): (nat, nat, nat)
  {
    (a.userId, a.rosterId, a.rosterShiftId)
  }

  /** At most one answer per (user, roster, shift). */
  predicate AnswerKeysUnique(answers: map<nat, RosterAnswer>)
  {
    forall i, j :: i in answers && j in answers && i != j ==>
      AnswerKey(answers[i]) != AnswerKey(answers[j])
  }

  /** (OrganID, Name) is unique among shift groups. */
  predicate ShiftGroupsUnique(groups: map<nat, ShiftGroup>)
  {
    forall i, j :: i in groups && j in groups && i != j ==> groups[i] != groups[j]
  }

  /** The `GEWISID` unique index of the users table. */
  predicate GewisIdsUnique(users: map<nat, User>)
  {
    forall i, j :: i in users && j in users && i != j ==> users[i].gewisId != users[j].gewisId
  }

  /** The unique index on organ names. */
  predicate OrganNamesUnique(organs: map<nat, Organ>)
  {
    forall i, j :: i in organs && j in organs && i != j ==> organs[i].name != organs[j].name
  }

  /** Whether an answer with the key of `a` is already stored. */
  predicate AnswerKeyTaken(answers: map<nat, RosterAnswer>, a: RosterAnswer)
  {
    exists id :: id in answers && AnswerKey(answers[id]) == AnswerKey(a)
  }

  /** Inserting under a fresh id keeps the answer index unique exactly when
      the key is not taken yet. */
  lemma InsertAnswerKeepsUnique(answers: map<nat, RosterAnswer>, id: nat, a: RosterAnswer)
    requires AnswerKeysUnique(answers) && id !in answers
    ensures AnswerKeysUnique(answers[id := a]) <==> !AnswerKeyTaken(answers, a)
  {
    if AnswerKeyTaken(answers, a) {
      var other :| other in answers && AnswerKey(answers[other]) == AnswerKey(a);
      var m := answers[id := a];
      assert other in m && id in m && other != id;
      assert AnswerKey(m[other]) == AnswerKey(m[id]);
    }
  }

  /** Why an answer `a` cannot be stored, checked in the order both service
      generations check: the roster (`values` is None when it does not
      exist), the shift (of any roster), the value against the roster's
      values, and last the answer index. */
  function AnswerRefusal(values: Option<seq<string>>, shiftExists: bool, answers: map<nat, RosterAnswer>, a: RosterAnswer): (e: Option<Error>)
    ensures e.None? <==> values.Some? && shiftExists && a.value in values.value && !AnswerKeyTaken(answers, a)
    ensures values.None? ==> e == Some(NotFound("roster"))
    ensures values.Some? && !shiftExists ==> e == Some(NotFound("roster shift"))
    ensures values.Some? && shiftExists && a.value !in values.value ==> e == Some(InvalidValue(a.value))
    ensures values.Some? && shiftExists && a.value in values.value && AnswerKeyTaken(answers, a) ==> e == Some(Conflict)
  {
    if values.None? then Some(NotFound("roster"))
    else if !shiftExists then Some(NotFound("roster shift"))
    else if a.value !in values.value then Some(InvalidValue(a.value))
    else if AnswerKeyTaken(answers, a) then Some(Conflict)
    else None
  }

  // ----- delete cascades ------------------------------------------------

  /** Shifts of a deleted roster go with it (fk_rosters_roster_shift). */
  function ShiftsOfRoster(shifts: map<nat, RosterShift>, rosterId: nat): (ids: set<nat>)
    ensures forall id :: id in ids <==> id in shifts && shifts[id].rosterId == rosterId
  {
    set id | id in shifts && shifts[id].rosterId == rosterId
  }

  /** Answers cascade from their roster (fk_roster_answers_roster) and from
      their shift. */
  function AnswersCascaded(answers: map<nat, RosterAnswer>, rosterIds: set<nat>, shiftIds: set<nat>): (r: map<nat, RosterAnswer>)
    ensures forall id :: id in r <==>
      id in answers && answers[id].rosterId !in rosterIds && answers[id].rosterShiftId !in shiftIds
    ensures forall id :: id in r ==> r[id] == answers[id]
  {
    map id | id in answers && answers[id].rosterId !in rosterIds && answers[id].rosterShiftId !in shiftIds :: answers[id]
  }

  /** Saved shifts cascade from their roster shift. */
  function SavedCascaded(saved: map<nat, SavedShift>, shiftIds: set<nat>): (r: map<nat, SavedShift>)
    ensures forall id :: id in r <==> id in saved && saved[id].rosterShiftId !in shiftIds
    ensures forall id :: id in r ==> r[id] == saved[id]
  {
    map id | id in saved && saved[id].rosterShiftId !in shiftIds :: saved[id]
  }

  /** Template shifts cascade from their template. */
  function TemplateShiftsOf(tshifts: map<nat, RosterTemplateShift>, templateId: nat): set<nat>
  {
    set id | id in tshifts && tshifts[id].templateId == templateId
  }

  /** Preferences cascade from their template shift and from their user. */
  function PreferencesCascaded(prefs: map<nat, Preference>, tshiftIds: set<nat>, userIds: set<nat>): (r: map<nat, Preference>)
    ensures forall id :: id in r <==>
      id in prefs && prefs[id].rosterTemplateShiftId !in tshiftIds && prefs[id].userId !in userIds
    ensures forall id :: id in r ==> r[id] == prefs[id]
  {
    map id | id in prefs && prefs[id].rosterTemplateShiftId !in tshiftIds && prefs[id].userId !in userIds :: prefs[id]
  }

  /** Dropping rows keeps the answer index unique. */
  lemma CascadeKeepsAnswersUnique(answers: map<nat, RosterAnswer>, rosterIds: set<nat>, shiftIds: set<nat>)
    requires AnswerKeysUnique(answers)
    ensures AnswerKeysUnique(AnswersCascaded(answers, rosterIds, shiftIds))
  {
  }
}
