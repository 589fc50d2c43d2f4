/** The row-level operations of the current roster service
    (internal/roster/service.go) on rosters, roster shifts and answers:
    listing with filters, partial updates, creation with validation, and
    deletion along the declared cascades. */
module RosterCrud {
  import opened Common
  import opened Models
  import opened Store
  import opened RosterService

  datatype ShiftCreateRequest = ShiftCreateRequest(name: string, rosterId: nat)

  // ----- listing rosters ------------------------------------------------------

  /** Every filter that is given holds of roster `id`; absent filters hold
      of every roster. `date = ?` compares instants, whatever the locations. */
  predicate Matches(params: FilterParams, id: nat, roster: Roster)
  {
    && (params.id.None? || params.id.value == id)
    && (params.date.None? || params.date.value.instant == roster.date.instant)
    && (params.organId.None? || params.organId.value == roster.organId)
  }

  /** The rosters matching all given filters, in id order, each once. A
      filter nothing matches gives the empty list, not an error. */
  function GetRosters(db: Db, params: FilterParams): (rows: seq<(nat, Roster)>)
    reads db
    requires db.Valid()
    ensures forall k :: 0 <= k < |rows| ==>
      rows[k].0 in db.t.roster.rosters && rows[k].1 == db.t.roster.rosters[rows[k].0] &&
      Matches(params, rows[k].0, rows[k].1)
    ensures forall k, l :: 0 <= k < l < |rows| ==> rows[k].0 < rows[l].0
    ensures forall id :: id in db.t.roster.rosters && Matches(params, id, db.t.roster.rosters[id]) ==>
      exists k :: 0 <= k < |rows| && rows[k].0 == id
  {
    var r := db.t.roster;
    var ids := Select(r.rosters, r.lastRosterId, (id: nat, roster: Roster) => Matches(params, id, roster));
    RowsOf(r.rosters, ids)
  }

  /** Without filters every roster is listed. */
  lemma NoFilterListsAll(db: Db, id: nat)
    requires db.Valid() && id in db.t.roster.rosters
    ensures exists k :: (0 <= k < |GetRosters(db, FilterParams(None, None, None))| &&
      GetRosters(db, FilterParams(None, None, None))[k] == (id, db.t.roster.rosters[id]))
  {
    var rows := GetRosters(db, FilterParams(None, None, None));
    var k :| 0 <= k < |rows| && rows[k].0 == id;
  }

  // ----- updating a roster ----------------------------------------------------

  /** `roster` with the fields the request carries overwritten; the value
      set, the organ and the template stay. */
  function Updated(roster: Roster, req: UpdateRequest): (r: Roster)
    ensures r.values == roster.values && r.organId == roster.organId && r.templateId == roster.templateId
    ensures r.name == (if req.name.Some? then req.name.value else roster.name)
    ensures r.date == (if req.date.Some? then req.date.value else roster.date)
    ensures r.saved == (if req.saved.Some? then req.saved.value else roster.saved)
  {
    var r := if req.date.Some? then roster.(date := req.date.value) else roster;
    var r := if req.name.Some? then r.(name := req.name.value) else r;
    if req.saved.Some? then r.(saved := req.saved.value) else r
  }

  /** An empty request changes nothing, and applying a request twice is
      applying it once. */
  lemma UpdatedIdempotent(roster: Roster, req: UpdateRequest)
    ensures Updated(roster, UpdateRequest(None, None, None)) == roster
    ensures Updated(Updated(roster, req), req) == Updated(roster, req)
  {
  }

  /** Replacing the row of an existing roster keeps the tables consistent. */
  lemma RosterReplaced(r: RosterRows, id: nat, roster: Roster)
    requires r.Valid() && id in r.rosters
    ensures r.(rosters := r.rosters[id := roster]).Valid()
  {
  }

  /** Looks roster `id` up, rejects a given date before today, and stores the
      roster with the given fields overwritten. */
  method UpdateRoster(db: Db, id: nat, req: UpdateRequest, now: int) returns (r: Result<Roster>)
    requires db.Valid()
    modifies db
    ensures db.Valid()
    ensures id !in old(db.t.roster.rosters) ==> r == Err(NotFound("roster")) && db.t == old(db.t)
    ensures id in old(db.t.roster.rosters) && req.date.Some? && !IsTodayOrLater(req.date.value, now) ==>
      r == Err(InvalidDate) && db.t == old(db.t)
    ensures r.Ok? <==> id in old(db.t.roster.rosters) && (req.date.None? || IsTodayOrLater(req.date.value, now))
    ensures r.Ok? ==>
      && r.value == Updated(old(db.t.roster.rosters[id]), req)
      && db.t == old(db.t).(roster := old(db.t.roster).(rosters := old(db.t.roster.rosters)[id := r.value]))
  {
    var t := db.t;
    if id !in t.roster.rosters {
      return Err(NotFound("roster"));
    }
    if req.date.Some? && !IsTodayOrLater(req.date.value, now) {
      return Err(InvalidDate);
    }
    var roster := Updated(t.roster.rosters[id], req);
    RosterReplaced(t.roster, id, roster);
    db.t := t.(roster := t.roster.(rosters := t.roster.rosters[id := roster]));
    r := Ok(roster);
  }

  // ----- deleting a roster ----------------------------------------------------

  /** The rows left after deleting roster `id`: the roster, its shifts
      (fk_rosters_roster_shift), the answers to the roster or on one of those
      shifts, and the saved shifts of those shifts. Nothing else changes. */
  function WithoutRoster(r: RosterRows, id: nat): (r': RosterRows)
    requires r.Valid()
    ensures forall k :: k in r'.rosters <==> k in r.rosters && k != id
    ensures forall s :: s in r'.shifts <==> s in r.shifts && r.shifts[s].rosterId != id
    ensures forall a :: a in r'.answers <==>
      a in r.answers && r.answers[a].rosterId != id && r.shifts[r.answers[a].rosterShiftId].rosterId != id
    ensures forall ss :: ss in r'.savedShifts <==> ss in r.savedShifts && r.savedShifts[ss].rosterId != id
    ensures forall k :: k in r'.rosters ==> r'.rosters[k] == r.rosters[k]
    ensures forall s :: s in r'.shifts ==> r'.shifts[s] == r.shifts[s]
    ensures forall a :: a in r'.answers ==> r'.answers[a] == r.answers[a]
    ensures forall ss :: ss in r'.savedShifts ==> r'.savedShifts[ss] == r.savedShifts[ss]
    ensures r'.lastRosterId == r.lastRosterId && r'.lastShiftId == r.lastShiftId
    ensures r'.lastAnswerId == r.lastAnswerId && r'.lastSavedShiftId == r.lastSavedShiftId
  {
    var gone := ShiftsOfRoster(r.shifts, id);
    r.(rosters := r.rosters - {id},
       shifts := map s | s in r.shifts && s !in gone :: r.shifts[s],
       answers := AnswersCascaded(r.answers, {id}, gone),
       savedShifts := SavedCascaded(r.savedShifts, gone))
  }

  /** Deleting a roster leaves consistent tables: nothing left refers to a
      deleted row. */
  lemma WithoutRosterValid(r: RosterRows, id: nat)
    requires r.Valid()
    ensures WithoutRoster(r, id).Valid()
  {
    var r' := WithoutRoster(r, id);
    forall ss | ss in r'.savedShifts
      ensures r'.savedShifts[ss].rosterShiftId in r'.shifts
    {
      assert r.shifts[r.savedShifts[ss].rosterShiftId].rosterId == r.savedShifts[ss].rosterId;
    }
    RowsDropped(r.rosters, r.shifts, r.answers, r.savedShifts, r'.rosters, r'.shifts, r'.answers, r'.savedShifts);
  }

  /** Deletes roster `id` and what cascades from it. A missing roster is not
      an error. */
  method DeleteRoster(db: Db, id: nat) returns (r: Outcome)
    requires db.Valid()
    modifies db
    ensures db.Valid() && r == Pass
    ensures db.t == old(db.t).(roster := WithoutRoster(old(db.t.roster), id))
  {
    WithoutRosterValid(db.t.roster, id);
    db.t := db.t.(roster := WithoutRoster(db.t.roster, id));
    r := Pass;
  }

  // ----- roster shifts --------------------------------------------------------

  /** The order a new shift of roster `rosterId` gets: one more than the
      largest order among the roster's shifts with ids up to `last`
      (`COALESCE(MAX(order), -1) + 1`). */
  function NextOrder(shifts: map<nat, RosterShift>, rosterId: nat, last: nat): (o: nat)
    ensures forall s :: s in shifts && 0 < s <= last && shifts[s].rosterId == rosterId ==> shifts[s].order < o
    ensures o > 0 ==> exists s :: s in shifts && 0 < s <= last && shifts[s].rosterId == rosterId && shifts[s].order == o - 1
  {
    if last == 0 then 0
    else
      var rest := NextOrder(shifts, rosterId, last - 1);
      if last in shifts && shifts[last].rosterId == rosterId && rest <= shifts[last].order then shifts[last].order + 1
      else rest
  }

  /** A roster without shifts starts at order 0. */
  lemma {:induction false} FirstOrderIsZero(shifts: map<nat, RosterShift>, rosterId: nat, last: nat)
    requires forall s :: s in shifts ==> shifts[s].rosterId != rosterId
    ensures NextOrder(shifts, rosterId, last) == 0
  {
    if last > 0 {
      FirstOrderIsZero(shifts, rosterId, last - 1);
    }
  }

  /** Adds a shift called `req.name` to roster `req.rosterId`, after all its
      shifts in order. */
  method CreateRosterShift(db: Db, req: ShiftCreateRequest) returns (r: Result<nat>)
    requires db.Valid()
    modifies db
    ensures db.Valid()
    ensures req.rosterId !in old(db.t.roster.rosters) ==> r == Err(NotFound("roster")) && db.t == old(db.t)
    ensures req.rosterId in old(db.t.roster.rosters) ==>
      var rows := old(db.t.roster);
      var shift := RosterShift(req.name, req.rosterId, NextOrder(rows.shifts, req.rosterId, rows.lastShiftId), None);
      && r == Ok(rows.lastShiftId + 1)
      && db.t == old(db.t).(roster := rows.(shifts := rows.shifts[rows.lastShiftId + 1 := shift],
                                          lastShiftId := rows.lastShiftId + 1))
  {
    var t := db.t;
    if req.rosterId !in t.roster.rosters {
      return Err(NotFound("roster"));
    }
    var rows := t.roster;
    var order := NextOrder(rows.shifts, req.rosterId, rows.lastShiftId);
    var id := rows.lastShiftId + 1;
    var shift := RosterShift(req.name, req.rosterId, order, None);
    ShiftAdded(rows.rosters, rows.shifts, rows.answers, rows.savedShifts, id, shift);
    db.t := t.(roster := rows.(shifts := rows.shifts[id := shift], lastShiftId := id));
    r := Ok(id);
  }

  /** Sets the order of shift `id` when one is given; nothing else of the
      shift changes (a shift group in the request is ignored). */
  method UpdateRosterShift(db: Db, id: nat, order: Option<nat>) returns (r: Result<RosterShift>)
    requires db.Valid()
    modifies db
    ensures db.Valid()
    ensures id !in old(db.t.roster.shifts) ==> r == Err(NotFound("roster shift")) && db.t == old(db.t)
    ensures id in old(db.t.roster.shifts) ==>
      var shift := old(db.t.roster.shifts[id]);
      && r == Ok(if order.Some? then shift.(order := order.value) else shift)
      && db.t == old(db.t).(roster := old(db.t.roster).(shifts := old(db.t.roster.shifts)[id := r.value]))
  {
    var t := db.t;
    if id !in t.roster.shifts {
      return Err(NotFound("roster shift"));
    }
    var shift := t.roster.shifts[id];
    if order.Some? {
      shift := shift.(order := order.value);
    }
    db.t := t.(roster := t.roster.(shifts := t.roster.shifts[id := shift]));
    r := Ok(shift);
  }

  /** The rows left after deleting shift `id`: the answers on it and its
      saved shift go with it. Nothing else changes. */
  function WithoutShift(r: RosterRows, id: nat): (r': RosterRows)
    requires r.Valid()
    ensures r'.rosters == r.rosters
    ensures forall s :: s in r'.shifts <==> s in r.shifts && s != id
    ensures forall a :: a in r'.answers <==> a in r.answers && r.answers[a].rosterShiftId != id
    ensures forall ss :: ss in r'.savedShifts <==> ss in r.savedShifts && r.savedShifts[ss].rosterShiftId != id
    ensures forall s :: s in r'.shifts ==> r'.shifts[s] == r.shifts[s]
    ensures forall a :: a in r'.answers ==> r'.answers[a] == r.answers[a]
    ensures forall ss :: ss in r'.savedShifts ==> r'.savedShifts[ss] == r.savedShifts[ss]
    ensures r'.lastRosterId == r.lastRosterId && r'.lastShiftId == r.lastShiftId
    ensures r'.lastAnswerId == r.lastAnswerId && r'.lastSavedShiftId == r.lastSavedShiftId
  {
    r.(shifts := r.shifts - {id},
       answers := AnswersCascaded(r.answers, {}, {id}),
       savedShifts := SavedCascaded(r.savedShifts, {id}))
  }

  /** Deleting a shift leaves consistent tables. */
  lemma WithoutShiftValid(r: RosterRows, id: nat)
    requires r.Valid()
    ensures WithoutShift(r, id).Valid()
  {
    var r' := WithoutShift(r, id);
    RowsDropped(r.rosters, r.shifts, r.answers, r.savedShifts, r'.rosters, r'.shifts, r'.answers, r'.savedShifts);
  }

  /** Deletes shift `id` and what cascades from it. A missing shift is not an
      error. */
  method DeleteRosterShift(db: Db, id: nat) returns (r: Outcome)
    requires db.Valid()
    modifies db
    ensures db.Valid() && r == Pass
    ensures db.t == old(db.t).(roster := WithoutShift(old(db.t.roster), id))
  {
    WithoutShiftValid(db.t.roster, id);
    db.t := db.t.(roster := WithoutShift(db.t.roster, id));
    r := Pass;
  }

  // ----- answers ----------------------------------------------------------------

  /** Why `CreateRosterAnswer` refuses a request, checked in this order: the
      roster, the shift, the value, and last the answer index. The shift is
      not required to belong to the roster. */
  function AnswerRefusal(r: RosterRows, req: AnswerCreateRequest): Option<Error>
  {
    Models.AnswerRefusal(if req.rosterId in r.rosters then Some(r.rosters[req.rosterId].values) else None,
                         req.rosterShiftId in r.shifts, r.answers,
                         RosterAnswer(req.userId, req.rosterId, req.rosterShiftId, req.value))
  }

  /** Stores an answer after validating its roster, shift and value; a second
      answer for the same member, roster and shift is refused by the unique
      index. */
  method CreateRosterAnswer(db: Db, req: AnswerCreateRequest) returns (r: Result<nat>)
    requires db.Valid()
    modifies db
    ensures db.Valid()
    ensures AnswerRefusal(old(db.t.roster), req).Some? ==>
      r == Err(AnswerRefusal(old(db.t.roster), req).value) && db.t == old(db.t)
    ensures AnswerRefusal(old(db.t.roster), req).None? ==>
      var rows := old(db.t.roster);
      var answer := RosterAnswer(req.userId, req.rosterId, req.rosterShiftId, req.value);
      && r == Ok(rows.lastAnswerId + 1)
      && db.t == old(db.t).(roster := rows.(answers := rows.answers[rows.lastAnswerId + 1 := answer],
                                          lastAnswerId := rows.lastAnswerId + 1))
  {
    var t := db.t;
    var refusal := AnswerRefusal(t.roster, req);
    if refusal.Some? {
      return Err(refusal.value);
    }
    var rows := t.roster;
    var id := rows.lastAnswerId + 1;
    var answer := RosterAnswer(req.userId, req.rosterId, req.rosterShiftId, req.value);
    AnswerAdded(rows.rosters, rows.shifts, rows.answers, rows.savedShifts, id, answer);
    db.t := t.(roster := rows.(answers := rows.answers[id := answer], lastAnswerId := id));
    r := Ok(id);
  }

  /** The answer after `UpdateRosterAnswer`: the new value, unless it is the
      empty string, which an update by struct skips. The value is not checked
      against the roster's value set. */
  function AnswerUpdated(a: RosterAnswer, value: string): (a': RosterAnswer)
    ensures AnswerKey(a') == AnswerKey(a)
    ensures value != "" ==> a'.value == value
    ensures value == "" ==> a' == a
  {
    if value == "" then a else a.(value := value)
  }

  /** Replacing an answer by one with the same key keeps the tables
      consistent. */
  lemma AnswerReplaced(r: RosterRows, id: nat, a: RosterAnswer)
    requires r.Valid() && id in r.answers && AnswerKey(a) == AnswerKey(r.answers[id])
    ensures r.(answers := r.answers[id := a]).Valid()
  {
    var answers := r.answers[id := a];
    forall i, j | i in answers && j in answers && i != j
      ensures AnswerKey(answers[i]) != AnswerKey(answers[j])
    {
      assert AnswerKey(answers[i]) == AnswerKey(r.answers[i]);
      assert AnswerKey(answers[j]) == AnswerKey(r.answers[j]);
    }
  }

  /** Sets the value of answer `id` and returns the row as stored. */
  method UpdateRosterAnswer(db: Db, id: nat, value: string) returns (r: Result<RosterAnswer>)
    requires db.Valid()
    modifies db
    ensures db.Valid()
    ensures id !in old(db.t.roster.answers) ==> r == Err(NotFound("roster answer")) && db.t == old(db.t)
    ensures id in old(db.t.roster.answers) ==>
      && r == Ok(AnswerUpdated(old(db.t.roster.answers[id]), value))
      && db.t == old(db.t).(roster := old(db.t.roster).(answers := old(db.t.roster.answers)[id := r.value]))
  {
    var t := db.t;
    if id !in t.roster.answers {
      return Err(NotFound("roster answer"));
    }
    var answer := AnswerUpdated(t.roster.answers[id], value);
    AnswerReplaced(t.roster, id, answer);
    db.t := t.(roster := t.roster.(answers := t.roster.answers[id := answer]));
    r := Ok(answer);
  }
}
