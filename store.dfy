/** The database behind the current services (internal/), held in memory:
    one map from id to row per table. */
module Store {
  import opened Common
  import opened Models

  /** The roster tables, each with the last id its auto-increment sequence
      handed out. */
  datatype RosterRows = RosterRows(
    rosters: map<nat, Roster>,
    shifts: map<nat, RosterShift>,
    answers: map<nat, RosterAnswer>,
    savedShifts: map<nat, SavedShift>,
    lastRosterId: nat,
    lastShiftId: nat,
    lastAnswerId: nat,
    lastSavedShiftId: nat)
  {
    /** Ids are positive and at most the last id handed out (0 is never an
        id), and the references between the tables hold. */
    ghost predicate Valid()
    {
      && IdsUpTo(rosters, lastRosterId) && IdsUpTo(shifts, lastShiftId)
      && IdsUpTo(answers, lastAnswerId) && IdsUpTo(savedShifts, lastSavedShiftId)
      && RosterTables(rosters, shifts, answers, savedShifts)
    }
  }

  /** The template tables: templates, their shifts, and the members' standing
      preferences on template shifts. */
  datatype TemplateRows = TemplateRows(
    templates: map<nat, RosterTemplate>,
    templateShifts: map<nat, RosterTemplateShift>,
    preferences: map<nat, Preference>,
    lastTemplateId: nat,
    lastTemplateShiftId: nat,
    lastPreferenceId: nat)
  {
    /** Fresh ids, every template shift belongs to a template and every
        preference to a template shift. */
    ghost predicate Valid()
    {
      && IdsUpTo(templates, lastTemplateId) && IdsUpTo(templateShifts, lastTemplateShiftId)
      && IdsUpTo(preferences, lastPreferenceId)
      && (forall t :: t in templateShifts ==> templateShifts[t].templateId in templates)
      && (forall p :: p in preferences ==> preferences[p].rosterTemplateShiftId in templateShifts)
    }
  }

  /** Users, organs, the `user_organs` join table keyed by (user id, organ
      id), and shift groups. */
  datatype PeopleRows = PeopleRows(
    users: map<nat, User>,
    organs: map<nat, Organ>,
    memberships: map<(nat, nat), UserOrgan>,
    shiftGroups: map<nat, ShiftGroup>,
    lastUserId: nat,
    lastOrganId: nat,
    lastShiftGroupId: nat)
  {
    /** Fresh ids, unique indexes, and join rows only for user ids handed
        out already. */
    ghost predicate Valid()
    {
      && IdsUpTo(users, lastUserId) && IdsUpTo(organs, lastOrganId) && IdsUpTo(shiftGroups, lastShiftGroupId)
      && GewisIdsUnique(users) && OrganNamesUnique(organs) && ShiftGroupsUnique(shiftGroups)
      && (forall k :: k in memberships ==> k.0 <= lastUserId)
    }
  }

  datatype Tables = Tables(roster: RosterRows, template: TemplateRows, people: PeopleRows)
  {
    ghost predicate Valid()
    {
      roster.Valid() && template.Valid() && people.Valid()
    }
  }

  /** The empty database. */
  const Empty := Tables(RosterRows(map[], map[], map[], map[], 0, 0, 0, 0),
                        TemplateRows(map[], map[], map[], 0, 0, 0),
                        PeopleRows(map[], map[], map[], map[], 0, 0, 0))

  /** The database the current services work on. */
  class Db {
    var t: Tables

    ghost predicate Valid()
      reads this
    {
      t.Valid()
    }

    constructor ()
      ensures Valid() && t == Empty
    {
      t := Empty;
    }
  }

  // ----- consistency of the tables ------------------------------------------

  /** The roster part of the data model: every shift belongs to a roster,
      every answer to a roster and a shift and is unique per key, and every
      saved shift to an existing shift of its own roster, at most one per
      shift (the code creates saved shifts only where none exists, and the
      declared cascades remove them with their shift). */
  ghost predicate RosterTables(rosters: map<nat, Roster>, shifts: map<nat, RosterShift>,
                               answers: map<nat, RosterAnswer>, savedShifts: map<nat, SavedShift>)
  {
    && (forall s :: s in shifts ==> shifts[s].rosterId in rosters)
    && (forall a :: a in answers ==>
          answers[a].rosterId in rosters && answers[a].rosterShiftId in shifts)
    && AnswerKeysUnique(answers)
    && (forall ss :: ss in savedShifts ==>
          savedShifts[ss].rosterShiftId in shifts &&
          shifts[savedShifts[ss].rosterShiftId].rosterId == savedShifts[ss].rosterId)
    && (forall i, j :: i in savedShifts && j in savedShifts && i != j ==>
          savedShifts[i].rosterShiftId != savedShifts[j].rosterShiftId)
  }

  /** A new roster keeps the roster tables consistent. */
  lemma RosterAdded(rosters: map<nat, Roster>, shifts: map<nat, RosterShift>,
                    answers: map<nat, RosterAnswer>, savedShifts: map<nat, SavedShift>, id: nat, r: Roster)
    requires RosterTables(rosters, shifts, answers, savedShifts)
    ensures RosterTables(rosters[id := r], shifts, answers, savedShifts)
  {
  }

  /** A new shift of an existing roster keeps the roster tables consistent. */
  lemma ShiftAdded(rosters: map<nat, Roster>, shifts: map<nat, RosterShift>,
                   answers: map<nat, RosterAnswer>, savedShifts: map<nat, SavedShift>, id: nat, s: RosterShift)
    requires RosterTables(rosters, shifts, answers, savedShifts)
    requires id !in shifts && s.rosterId in rosters
    ensures RosterTables(rosters, shifts[id := s], answers, savedShifts)
  {
  }

  /** A new answer to an existing roster and shift keeps the roster tables
      consistent exactly when its key is free. */
  lemma AnswerAdded(rosters: map<nat, Roster>, shifts: map<nat, RosterShift>,
                    answers: map<nat, RosterAnswer>, savedShifts: map<nat, SavedShift>, id: nat, a: RosterAnswer)
    requires RosterTables(rosters, shifts, answers, savedShifts)
    requires id !in answers && a.rosterId in rosters && a.rosterShiftId in shifts
    requires !AnswerKeyTaken(answers, a)
    ensures RosterTables(rosters, shifts, answers[id := a], savedShifts)
  {
    InsertAnswerKeepsUnique(answers, id, a);
  }

  /** Dropping rows keeps the roster tables consistent as long as no row
      left refers to a dropped one. */
  lemma RowsDropped(rosters: map<nat, Roster>, shifts: map<nat, RosterShift>,
                    answers: map<nat, RosterAnswer>, savedShifts: map<nat, SavedShift>,
                    rosters': map<nat, Roster>, shifts': map<nat, RosterShift>,
                    answers': map<nat, RosterAnswer>, savedShifts': map<nat, SavedShift>)
    requires RosterTables(rosters, shifts, answers, savedShifts)
    requires forall k :: k in shifts' ==> k in shifts && shifts'[k] == shifts[k]
    requires forall k :: k in answers' ==> k in answers && answers'[k] == answers[k]
    requires forall k :: k in savedShifts' ==> k in savedShifts && savedShifts'[k] == savedShifts[k]
    requires forall s :: s in shifts' ==> shifts'[s].rosterId in rosters'
    requires forall a :: a in answers' ==> answers'[a].rosterId in rosters' && answers'[a].rosterShiftId in shifts'
    requires forall ss :: ss in savedShifts' ==> savedShifts'[ss].rosterShiftId in shifts'
    ensures RosterTables(rosters', shifts', answers', savedShifts')
  {
    forall i, j | i in answers' && j in answers' && i != j
      ensures AnswerKey(answers'[i]) != AnswerKey(answers'[j])
    {
      assert answers'[i] == answers[i] && answers'[j] == answers[j];
    }
    forall i, j | i in savedShifts' && j in savedShifts' && i != j
      ensures savedShifts'[i].rosterShiftId != savedShifts'[j].rosterShiftId
    {
      assert savedShifts'[i] == savedShifts[i] && savedShifts'[j] == savedShifts[j];
    }
  }

  // ----- queries over the tables, in primary-key order --------------------

  /** The users of organ `organId`: `JOIN user_organs ... WHERE organ_id = ?`. */
  function MembersOf(users: map<nat, User>, memberships: map<(nat, nat), UserOrgan>, organId: nat, last: nat): (ids: seq<nat>)
    ensures Increasing(ids)
    ensures forall u :: u in ids <==> 0 < u <= last && u in users && (u, organId) in memberships
  {
    Select(users, last, (u: nat, _: User) => (u, organId) in memberships)
  }

  /** The shifts of roster `rosterId` (`Preload("RosterShift")`). */
  function ShiftIdsOf(shifts: map<nat, RosterShift>, rosterId: nat, last: nat): (ids: seq<nat>)
    ensures Increasing(ids)
    ensures forall s :: s in ids <==> 0 < s <= last && s in shifts && shifts[s].rosterId == rosterId
  {
    Select(shifts, last, (_: nat, s: RosterShift) => s.rosterId == rosterId)
  }

  /** The saved shifts of roster `rosterId` (`WHERE roster_id = ?`). */
  function SavedIdsOf(saved: map<nat, SavedShift>, rosterId: nat, last: nat): (ids: seq<nat>)
    ensures Increasing(ids)
    ensures forall s :: s in ids <==> 0 < s <= last && s in saved && saved[s].rosterId == rosterId
  {
    Select(saved, last, (_: nat, s: SavedShift) => s.rosterId == rosterId)
  }

  /** Whether shift `shiftId` of roster `rosterId` already has a saved shift
      (`WHERE roster_id = ? AND roster_shift_id = ?`). */
  predicate HasSavedShift(saved: map<nat, SavedShift>, rosterId: nat, shiftId: nat)
  {
    exists ss :: ss in saved && saved[ss].rosterId == rosterId && saved[ss].rosterShiftId == shiftId
  }
}
