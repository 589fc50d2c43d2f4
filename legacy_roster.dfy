/** The legacy roster service (cmd/src/pkg/services/roster_service.go):
    rosters, their shifts and answers, and templates, without the saved
    roster (see LegacySavedRoster). */
module LegacyRosterService {
  import opened Common
  import opened Models
  import opened LegacyStore
  import RosterCrud

  /** The value set every legacy roster gets. */
  const LegacyValues: seq<string> := ["Ja", "X", "L", "Nee"]

  // ----- dates ------------------------------------------------------------------

  /** The UTC day of an instant, counted from the Unix epoch.
      `Truncate(24 * time.Hour)` rounds down to whole days since Go's zero
      time; that lies 719162 whole days before the epoch, so its day
      boundaries are the epoch's. */
  function Day(instant: int): int
  {
    instant / SecondsPerDay
  }

  /** `isAfterToday`: the date falls on a strictly later UTC day than `now`.
      Such a date is later than `now`, and a date a whole day or more after
      `now` is after today. */
  predicate IsAfterToday(date: int, now: int)
    ensures IsAfterToday(date, now) ==> now < date
    ensures now + SecondsPerDay <= date ==> IsAfterToday(date, now)
  {
    Day(date) > Day(now)
  }

  /** A date is after today exactly when it is at or past the first instant
      of tomorrow (UTC); any instant of today, `now` included, is refused. */
  lemma AfterTodayIffTomorrow(date: int, now: int)
    ensures IsAfterToday(date, now) <==> date >= (Day(now) + 1) * SecondsPerDay
    ensures Day(date) == Day(now) ==> !IsAfterToday(date, now)
  {
    var d := Day(date);
    var n := Day(now);
    assert d * SecondsPerDay <= date < d * SecondsPerDay + SecondsPerDay;
    if d > n {
      assert (n + 1) * SecondsPerDay <= d * SecondsPerDay;
    } else {
      assert d * SecondsPerDay + SecondsPerDay <= (n + 1) * SecondsPerDay;
    }
  }

  // ----- creating a roster ------------------------------------------------------

  datatype LegacyCreateRequest = LegacyCreateRequest(name: string, date: int, organId: nat, shifts: seq<string>)

  /** `shifts` with one shift of roster `rosterId` per name, the k-th under
      the k-th id after `base`. */
  function WithLegacyShifts(shifts: map<nat, LegacyShift>, names: seq<string>, rosterId: nat, base: nat)
    : map<nat, LegacyShift>
  {
    if names == [] then shifts
    else
      var n := |names|;
      WithLegacyShifts(shifts, names[..n - 1], rosterId, base)[base + n := LegacyShift(names[n - 1], rosterId)]
  }

  /** The new shifts take the ids after `base`, one per name in order, and
      the shifts already there stay as they were. */
  lemma {:induction false} WithLegacyShiftsContents(shifts: map<nat, LegacyShift>, names: seq<string>, rosterId: nat, base: nat)
    requires IdsUpTo(shifts, base)
    ensures forall id :: id in WithLegacyShifts(shifts, names, rosterId, base) <==> id in shifts || base < id <= base + |names|
    ensures forall id :: id in shifts ==> WithLegacyShifts(shifts, names, rosterId, base)[id] == shifts[id]
    ensures forall k :: 0 <= k < |names| ==>
      WithLegacyShifts(shifts, names, rosterId, base)[base + k + 1] == LegacyShift(names[k], rosterId)
  {
    if names != [] {
      var n := |names|;
      WithLegacyShiftsContents(shifts, names[..n - 1], rosterId, base);
      assert forall k :: 0 <= k < n - 1 ==> names[..n - 1][k] == names[k];
    }
  }

  /** The tables after storing roster `req` and then, one by one, its shifts. */
  function LegacyRosterCreated(t: LegacyTables, req: LegacyCreateRequest): LegacyTables
  {
    var id := t.lastRosterId + 1;
    t.(rosters := t.rosters[id := LegacyRoster(req.name, LegacyValues, req.organId, req.date, false)],
       shifts := WithLegacyShifts(t.shifts, req.shifts, id, t.lastShiftId),
       lastRosterId := id,
       lastShiftId := t.lastShiftId + |req.shifts|)
  }

  /** Creating a roster keeps the legacy tables consistent. */
  lemma LegacyRosterCreatedValid(t: LegacyTables, req: LegacyCreateRequest)
    requires t.Valid()
    ensures LegacyRosterCreated(t, req).Valid()
  {
    var id := t.lastRosterId + 1;
    WithLegacyShiftsContents(t.shifts, req.shifts, id, t.lastShiftId);
    var w := WithLegacyShifts(t.shifts, req.shifts, id, t.lastShiftId);
    forall s | s in w
      ensures w[s].rosterId <= id
    {
      if s !in t.shifts {
        var k := s - t.lastShiftId - 1;
        assert w[t.lastShiftId + k + 1] == LegacyShift(req.shifts[k], id);
      }
    }
  }

  /** The new roster holds the given name, date and organ, the fixed value
      set and `saved` = false, and owns exactly the new shifts, named after
      the request in order. */
  lemma LegacyRosterCreatedContents(t: LegacyTables, req: LegacyCreateRequest)
    requires t.Valid()
    ensures var t' := LegacyRosterCreated(t, req);
      && t'.rosters[t'.lastRosterId] == LegacyRoster(req.name, ["Ja", "X", "L", "Nee"], req.organId, req.date, false)
      && (forall s :: (s in t'.shifts && t'.shifts[s].rosterId == t'.lastRosterId) <==> t.lastShiftId < s <= t'.lastShiftId)
      && (forall k :: 0 <= k < |req.shifts| ==>
            t.lastShiftId + k + 1 in t'.shifts && t'.shifts[t.lastShiftId + k + 1].name == req.shifts[k])
  {
    var id := t.lastRosterId + 1;
    var base := t.lastShiftId;
    WithLegacyShiftsContents(t.shifts, req.shifts, id, base);
    var w := WithLegacyShifts(t.shifts, req.shifts, id, base);
    forall s | base < s <= base + |req.shifts|
      ensures s in w && w[s].rosterId == id
    {
      var k := s - base - 1;
      assert w[base + k + 1] == LegacyShift(req.shifts[k], id);
    }
  }

  /** Creates a roster with the fixed value set and one shift per name. The
      date must fall on a later UTC day than `now` and the name must not be
      empty, checked in that order. The organ is looked up with `Find`,
      which never fails; an organ that does not exist is refused afterwards
      by the foreign key on `organ_id` when the roster row is inserted. */
  method CreateRoster(db: LegacyDb, req: LegacyCreateRequest, now: int) returns (r: Result<nat>)
    requires db.Valid()
    modifies db
    ensures db.Valid()
    ensures !IsAfterToday(req.date, now) ==> r == Err(InvalidDate)
    ensures IsAfterToday(req.date, now) && req.name == "" ==> r == Err(NameRequired)
    ensures IsAfterToday(req.date, now) && req.name != "" && req.organId !in old(db.t.organs) ==> r == Err(NotFound("organ"))
    ensures r.Ok? <==> IsAfterToday(req.date, now) && req.name != "" && req.organId in old(db.t.organs)
    ensures r.Err? ==> db.t == old(db.t)
    ensures r.Ok? ==> r.value == old(db.t.lastRosterId) + 1 && db.t == LegacyRosterCreated(old(db.t), req)
  {
    if !IsAfterToday(req.date, now) {
      return Err(InvalidDate);
    }
    if |req.name| == 0 {
      return Err(NameRequired);
    }
    if req.organId !in db.t.organs {
      return Err(NotFound("organ"));
    }
    var t := db.t;
    var id := t.lastRosterId + 1;
    var shifts := t.shifts;
    for i := 0 to |req.shifts|
      invariant shifts == WithLegacyShifts(t.shifts, req.shifts[..i], id, t.lastShiftId)
    {
      shifts := shifts[t.lastShiftId + i + 1 := LegacyShift(req.shifts[i], id)];
      assert req.shifts[..i + 1][..i] == req.shifts[..i];
    }
    assert req.shifts[..|req.shifts|] == req.shifts;
    LegacyRosterCreatedValid(t, req);
    db.t := t.(rosters := t.rosters[id := LegacyRoster(req.name, LegacyValues, req.organId, req.date, false)],
               shifts := shifts, lastRosterId := id, lastShiftId := t.lastShiftId + |req.shifts|);
    r := Ok(id);
  }

  // ----- listing rosters ----------------------------------------------------------

  datatype LegacyFilterParams = LegacyFilterParams(id: Option<nat>, date: Option<int>, organId: Option<nat>)

  /** The filters are conjunctive; the date filter compares instants. */
  predicate LegacyMatches(f: LegacyFilterParams, id: nat, roster: LegacyRoster)
  {
    && (f.id.None? || id == f.id.value)
    && (f.date.None? || roster.date == f.date.value)
    && (f.organId.None? || roster.organId == f.organId.value)
  }

  /** The rosters matching every given filter, in id order. */
  function GetRosters(db: LegacyDb, f: LegacyFilterParams): (rows: seq<(nat, LegacyRoster)>)
    reads db
    requires db.Valid()
    ensures forall k :: 0 <= k < |rows| ==>
      rows[k].0 in db.t.rosters && rows[k].1 == db.t.rosters[rows[k].0] && LegacyMatches(f, rows[k].0, rows[k].1)
    ensures forall k, l :: 0 <= k < l < |rows| ==> rows[k].0 < rows[l].0
    ensures forall id :: (id in db.t.rosters && LegacyMatches(f, id, db.t.rosters[id])) ==>
      exists k :: 0 <= k < |rows| && rows[k].0 == id
  {
    RowsOf(db.t.rosters, Select(db.t.rosters, db.t.lastRosterId, (id: nat, r: LegacyRoster) => LegacyMatches(f, id, r)))
  }

  // ----- updating and deleting rosters --------------------------------------------

  datatype LegacyUpdateRequest = LegacyUpdateRequest(name: Option<string>, date: Option<int>)

  /** The roster with the given name and date; the rest stays. */
  function LegacyUpdated(roster: LegacyRoster, req: LegacyUpdateRequest): (r: LegacyRoster)
    ensures r.values == roster.values && r.organId == roster.organId && r.saved == roster.saved
    ensures r.name == (if req.name.Some? then req.name.value else roster.name)
    ensures r.date == (if req.date.Some? then req.date.value else roster.date)
  {
    var r1 := if req.date.Some? then roster.(date := req.date.value) else roster;
    if req.name.Some? then r1.(name := req.name.value) else r1
  }

  /** Changes the name and date of roster `id`. An unknown roster is not
      found, and a date not on a later UTC day than `now` is refused. */
  method UpdateRoster(db: LegacyDb, id: nat, req: LegacyUpdateRequest, now: int) returns (r: Result<LegacyRoster>)
    requires db.Valid()
    modifies db
    ensures db.Valid()
    ensures id !in old(db.t.rosters) ==> r == Err(NotFound("roster"))
    ensures id in old(db.t.rosters) && req.date.Some? && !IsAfterToday(req.date.value, now) ==> r == Err(InvalidDate)
    ensures r.Ok? <==> id in old(db.t.rosters) && (req.date.None? || IsAfterToday(req.date.value, now))
    ensures r.Err? ==> db.t == old(db.t)
    ensures r.Ok? ==>
      && r.value == LegacyUpdated(old(db.t.rosters[id]), req)
      && db.t == old(db.t).(rosters := old(db.t.rosters)[id := r.value])
  {
    if id !in db.t.rosters {
      return Err(NotFound("roster"));
    }
    if req.date.Some? && !IsAfterToday(req.date.value, now) {
      return Err(InvalidDate);
    }
    var roster := LegacyUpdated(db.t.rosters[id], req);
    db.t := db.t.(rosters := db.t.rosters[id := roster]);
    r := Ok(roster);
  }

  /** Deletes roster `id` softly: only the roster row goes, and an unknown id
      is no error. */
  method DeleteRoster(db: LegacyDb, id: nat) returns (r: Outcome)
    requires db.Valid()
    modifies db
    ensures db.Valid()
    ensures r == Pass
    ensures db.t == old(db.t).(rosters := old(db.t.rosters) - {id})
  {
    db.t := db.t.(rosters := db.t.rosters - {id});
    r := Pass;
  }

  // ----- shifts -----------------------------------------------------------------------

  datatype LegacyShiftCreateRequest = LegacyShiftCreateRequest(name: string, rosterId: nat)

  /** Adds a shift to an existing roster. */
  method CreateRosterShift(db: LegacyDb, req: LegacyShiftCreateRequest) returns (r: Result<nat>)
    requires db.Valid()
    modifies db
    ensures db.Valid()
    ensures r.Ok? <==> req.rosterId in old(db.t.rosters)
    ensures r.Err? ==> r.error == NotFound("roster") && db.t == old(db.t)
    ensures r.Ok? ==>
      && r.value == old(db.t.lastShiftId) + 1
      && db.t == old(db.t).(shifts := old(db.t.shifts)[r.value := LegacyShift(req.name, req.rosterId)], lastShiftId := r.value)
  {
    if req.rosterId !in db.t.rosters {
      return Err(NotFound("roster"));
    }
    var id := db.t.lastShiftId + 1;
    db.t := db.t.(shifts := db.t.shifts[id := LegacyShift(req.name, req.rosterId)], lastShiftId := id);
    r := Ok(id);
  }

  /** Deletes shift `id` softly; an unknown id is no error. */
  method DeleteRosterShift(db: LegacyDb, id: nat) returns (r: Outcome)
    requires db.Valid()
    modifies db
    ensures db.Valid()
    ensures r == Pass
    ensures db.t == old(db.t).(shifts := old(db.t.shifts) - {id})
  {
    db.t := db.t.(shifts := db.t.shifts - {id});
    r := Pass;
  }

  // ----- answers ------------------------------------------------------------------------

  datatype LegacyAnswerRequest = LegacyAnswerRequest(userId: nat, rosterId: nat, rosterShiftId: nat, value: string)

  /** Why an answer cannot be stored, checked in the code's order: the
      roster, the shift (of any roster), the value against the roster's value
      set, and last the unique index. */
  function LegacyAnswerRefusal(t: LegacyTables, req: LegacyAnswerRequest): Option<Error>
  {
    Models.AnswerRefusal(if req.rosterId in t.rosters then Some(t.rosters[req.rosterId].values) else None,
                         req.rosterShiftId in t.shifts, t.answers,
                         RosterAnswer(req.userId, req.rosterId, req.rosterShiftId, req.value))
  }

  /** Stores an answer unless `LegacyAnswerRefusal` names an error. */
  method CreateRosterAnswer(db: LegacyDb, req: LegacyAnswerRequest) returns (r: Result<nat>)
    requires db.Valid()
    modifies db
    ensures db.Valid()
    ensures LegacyAnswerRefusal(old(db.t), req).Some? ==>
      r == Err(LegacyAnswerRefusal(old(db.t), req).value) && db.t == old(db.t)
    ensures LegacyAnswerRefusal(old(db.t), req).None? ==>
      && r == Ok(old(db.t.lastAnswerId) + 1)
      && db.t == old(db.t).(answers := old(db.t.answers)[r.value := RosterAnswer(req.userId, req.rosterId, req.rosterShiftId, req.value)],
                            lastAnswerId := r.value)
  {
    var refusal := LegacyAnswerRefusal(db.t, req);
    if refusal.Some? {
      return Err(refusal.value);
    }
    var id := db.t.lastAnswerId + 1;
    var answer := RosterAnswer(req.userId, req.rosterId, req.rosterShiftId, req.value);
    InsertAnswerKeepsUnique(db.t.answers, id, answer);
    db.t := db.t.(answers := db.t.answers[id := answer], lastAnswerId := id);
    r := Ok(id);
  }

  /** Sets the value of answer `id` as `RosterCrud.AnswerUpdated` does (an
      empty value is skipped, no value-set check) and returns the row read
      back. */
  method UpdateRosterAnswer(db: LegacyDb, id: nat, value: string) returns (r: Result<RosterAnswer>)
    requires db.Valid()
    modifies db
    ensures db.Valid()
    ensures id !in old(db.t.answers) ==> r == Err(NotFound("roster answer")) && db.t == old(db.t)
    ensures id in old(db.t.answers) ==>
      && r == Ok(RosterCrud.AnswerUpdated(old(db.t.answers[id]), value))
      && db.t == old(db.t).(answers := old(db.t.answers)[id := r.value])
  {
    if id !in db.t.answers {
      return Err(NotFound("roster answer"));
    }
    var a := RosterCrud.AnswerUpdated(db.t.answers[id], value);
    var answers := db.t.answers[id := a];
    assert AnswerKeysUnique(answers) by {
      forall i, j | i in answers && j in answers && i != j
        ensures AnswerKey(answers[i]) != AnswerKey(answers[j])
      {
        assert AnswerKey(answers[i]) == AnswerKey(db.t.answers[i]);
        assert AnswerKey(answers[j]) == AnswerKey(db.t.answers[j]);
      }
    }
    db.t := db.t.(answers := answers);
    r := Ok(a);
  }

  // ----- templates ------------------------------------------------------------------------

  datatype LegacyTemplateRequest = LegacyTemplateRequest(organId: nat, name: string, shifts: seq<string>)

  /** Stores a template of an existing organ with a non-empty list of shift
      names. */
  method CreateRosterTemplate(db: LegacyDb, req: LegacyTemplateRequest) returns (r: Result<nat>)
    requires db.Valid()
    modifies db
    ensures db.Valid()
    ensures req.organId !in old(db.t.organs) ==> r == Err(NotFound("organ"))
    ensures req.organId in old(db.t.organs) && req.shifts == [] ==> r == Err(NoShifts)
    ensures r.Ok? <==> req.organId in old(db.t.organs) && req.shifts != []
    ensures r.Err? ==> db.t == old(db.t)
    ensures r.Ok? ==>
      && r.value == old(db.t.lastTemplateId) + 1
      && db.t == old(db.t).(templates := old(db.t.templates)[r.value := LegacyTemplate(req.organId, req.name, req.shifts)],
                            lastTemplateId := r.value)
  {
    if req.organId !in db.t.organs {
      return Err(NotFound("organ"));
    }
    if |req.shifts| == 0 {
      return Err(NoShifts);
    }
    var id := db.t.lastTemplateId + 1;
    db.t := db.t.(templates := db.t.templates[id := LegacyTemplate(req.organId, req.name, req.shifts)], lastTemplateId := id);
    r := Ok(id);
  }

  /** Template `id`, or not found. */
  function GetRosterTemplate(db: LegacyDb, id: nat): (r: Result<LegacyTemplate>)
    reads db
    ensures r.Ok? <==> id in db.t.templates
    ensures r.Ok? ==> r.value == db.t.templates[id]
    ensures r.Err? ==> r.error == NotFound("roster template")
  {
    if id in db.t.templates then Ok(db.t.templates[id]) else Err(NotFound("roster template"))
  }

  /** The templates, of one organ when `organId` is given, in id order. */
  function GetRosterTemplates(db: LegacyDb, organId: Option<nat>): (rows: seq<(nat, LegacyTemplate)>)
    reads db
    requires db.Valid()
    ensures forall k :: 0 <= k < |rows| ==>
      rows[k].0 in db.t.templates && rows[k].1 == db.t.templates[rows[k].0] &&
      (organId.None? || rows[k].1.organId == organId.value)
    ensures forall k, l :: 0 <= k < l < |rows| ==> rows[k].0 < rows[l].0
    ensures forall id :: (id in db.t.templates && (organId.None? || db.t.templates[id].organId == organId.value)) ==>
      exists k :: 0 <= k < |rows| && rows[k].0 == id
  {
    RowsOf(db.t.templates, Select(db.t.templates, db.t.lastTemplateId,
                                  (_: nat, tm: LegacyTemplate) => organId.None? || tm.organId == organId.value))
  }

  /** Overwrites the name and the shift list of template `id`; an update by
      map writes empty values too. */
  method UpdateRosterTemplate(db: LegacyDb, id: nat, name: string, shifts: seq<string>) returns (r: Result<LegacyTemplate>)
    requires db.Valid()
    modifies db
    ensures db.Valid()
    ensures id !in old(db.t.templates) ==> r == Err(NotFound("roster template")) && db.t == old(db.t)
    ensures id in old(db.t.templates) ==>
      && r == Ok(old(db.t.templates[id]).(name := name, shifts := shifts))
      && db.t == old(db.t).(templates := old(db.t.templates)[id := r.value])
  {
    if id !in db.t.templates {
      return Err(NotFound("roster template"));
    }
    var tm := db.t.templates[id].(name := name, shifts := shifts);
    db.t := db.t.(templates := db.t.templates[id := tm]);
    r := Ok(tm);
  }

  /** Deletes template `id` softly; deleting no row is an error. */
  method DeleteRosterTemplate(db: LegacyDb, id: nat) returns (r: Outcome)
    requires db.Valid()
    modifies db
    ensures db.Valid()
    ensures id !in old(db.t.templates) ==> r == Fail(NotFound("roster template")) && db.t == old(db.t)
    ensures id in old(db.t.templates) ==> r == Pass && db.t == old(db.t).(templates := old(db.t.templates) - {id})
  {
    if id !in db.t.templates {
      return Fail(NotFound("roster template"));
    }
    db.t := db.t.(templates := db.t.templates - {id});
    r := Pass;
  }
}
