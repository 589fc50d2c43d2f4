/** The database behind the legacy services (cmd/src/pkg), held in memory.
    Every legacy table deletes softly, which removes a row from every later
    query without touching the rows that refer to it; such a row is modelled
    as gone, and nothing cascades. */
module LegacyStore {
  import opened Common
  import opened Models

  /** A legacy roster: its date is an instant, in seconds since the Unix
      epoch; it records no template. */
  datatype LegacyRoster = LegacyRoster(
    name: string,
    values: seq<string>,
    organId: nat,
    date: int,
    saved: bool)

  /** A legacy roster shift has no order and no shift group. */
  datatype LegacyShift = LegacyShift(name: string, rosterId: nat)

  /** A legacy template keeps its shift names in a JSON column. */
  datatype LegacyTemplate = LegacyTemplate(organId: nat, name: string, shifts: seq<string>)

  datatype LegacyTables = LegacyTables(
    rosters: map<nat, LegacyRoster>,
    shifts: map<nat, LegacyShift>,
    answers: map<nat, RosterAnswer>,
    savedShifts: map<nat, SavedShift>,
    templates: map<nat, LegacyTemplate>,
    users: map<nat, User>,
    organs: map<nat, Organ>,
    memberships: map<(nat, nat), UserOrgan>,
    lastRosterId: nat,
    lastShiftId: nat,
    lastAnswerId: nat,
    lastSavedShiftId: nat,
    lastTemplateId: nat,
    lastUserId: nat,
    lastOrganId: nat)
  {
    /** Fresh ids, the unique indexes (answer key, GEWIS id, organ name), and
        shifts and join rows only for roster and user ids handed out already
        (a soft delete leaves them pointing at a gone row). */
    ghost predicate Valid()
    {
      && IdsUpTo(rosters, lastRosterId) && IdsUpTo(shifts, lastShiftId)
      && IdsUpTo(answers, lastAnswerId) && IdsUpTo(savedShifts, lastSavedShiftId)
      && IdsUpTo(templates, lastTemplateId) && IdsUpTo(users, lastUserId) && IdsUpTo(organs, lastOrganId)
      && AnswerKeysUnique(answers) && GewisIdsUnique(users) && OrganNamesUnique(organs)
      && (forall s :: s in shifts ==> shifts[s].rosterId <= lastRosterId)
      && (forall k :: k in memberships ==> k.0 <= lastUserId)
    }
  }

  const LegacyEmpty := LegacyTables(map[], map[], map[], map[], map[], map[], map[], map[], 0, 0, 0, 0, 0, 0, 0)

  /** The database the legacy services work on. */
  class LegacyDb {
    var t: LegacyTables

    ghost predicate Valid()
      reads this
    {
      t.Valid()
    }

    constructor ()
      ensures Valid() && t == LegacyEmpty
    {
      t := LegacyEmpty;
    }
  }

  /** The ids of the shifts of roster `rosterId`, ascending (`Preload("RosterShift")`). */
  function LegacyShiftIdsOf(shifts: map<nat, LegacyShift>, rosterId: nat, last: nat): (ids: seq<nat>)
    ensures Increasing(ids)
    ensures forall s :: s in ids <==> 0 < s <= last && s in shifts && shifts[s].rosterId == rosterId
  {
    Select(shifts, last, (_: nat, s: LegacyShift) => s.rosterId == rosterId)
  }
}
