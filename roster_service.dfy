/** The current roster service (internal/roster/service.go): rosters, their
    shifts and answers, template carry-over, finalisation into saved shifts,
    the fairness ordering, and templates with their standing preferences. */
module RosterService {
  import opened Common
  import opened Models
  import opened Store
  import opened Fairness

  /** The value set every new roster gets. */
  const DefaultValues: seq<string> := ["J", "X", "L", "N"]

  datatype CreateRequest = CreateRequest(
    name: string,
    date: Time,
    organId: nat,
    shifts: seq<string>,
    templateId: Option<nat>)

  /** What `CreateRoster` hands back: the roster and, in input order, its shifts. */
  datatype Created = Created(rosterId: nat, shiftIds: seq<nat>)

  datatype FilterParams = FilterParams(id: Option<nat>, date: Option<Time>, organId: Option<nat>)

  datatype UpdateRequest = UpdateRequest(name: Option<string>, date: Option<Time>, saved: Option<bool>)

  datatype AnswerCreateRequest = AnswerCreateRequest(
    userId: nat,
    rosterId: nat,
    rosterShiftId: nat,
    value: string)

  /** A standing preference turned into an answer: the member, the name of
      the template shift, and the preference value. */
  datatype Carry = Carry(userId: nat, shiftName: string, value: string)

  // ----- dates ------------------------------------------------------------

  /** `isTodayOrLater`: the calendar day of `date` is not before the day of
      the instant `now`, both days counted in the location `date` carries.
      A date at or after `now` passes, and one that passes lies less than a
      day before `now`. */
  predicate IsTodayOrLater(date: Time, now: int)
    ensures now <= date.instant ==> IsTodayOrLater(date, now)
    ensures IsTodayOrLater(date, now) ==> now - SecondsPerDay < date.instant
  {
    LocalDay(Time(now, date.offset)) <= LocalDay(date)
  }

  /** A date passes exactly when it is at or after the midnight that starts
      today in its own location; `now` itself, and every later instant in
      that location, passes. */
  lemma TodayOrLaterIffFromMidnight(date: Time, now: int)
    ensures IsTodayOrLater(date, now) <==>
      date.instant >= LocalDay(Time(now, date.offset)) * SecondsPerDay - date.offset
    ensures IsTodayOrLater(Time(now, date.offset), now)
    ensures now <= date.instant ==> IsTodayOrLater(date, now)
  {
    var d := LocalDay(date);
    var n := LocalDay(Time(now, date.offset));
    assert d * SecondsPerDay <= date.instant + date.offset < d * SecondsPerDay + SecondsPerDay;
    assert n * SecondsPerDay <= now + date.offset < n * SecondsPerDay + SecondsPerDay;
    if d >= n {
      assert n * SecondsPerDay <= d * SecondsPerDay;
    } else {
      assert d * SecondsPerDay + SecondsPerDay <= n * SecondsPerDay;
    }
  }

  // ----- queries ----------------------------------------------------------

  /** The members of an organ, in id order. */
  function Members(p: PeopleRows, organId: nat): (ids: seq<nat>)
    ensures Increasing(ids)
    ensures forall u :: u in ids <==> 0 < u <= p.lastUserId && u in p.users && (u, organId) in p.memberships
  {
    MembersOf(p.users, p.memberships, organId, p.lastUserId)
  }

  /** The preferences of `members` on shifts of template `templateId`. */
  function TemplatePreferenceIds(prefs: map<nat, Preference>, tshifts: map<nat, RosterTemplateShift>,
                                 members: seq<nat>, templateId: nat, last: nat): (ids: seq<nat>)
    ensures Increasing(ids)
    ensures forall id :: id in ids <==>
      0 < id <= last && id in prefs && prefs[id].userId in members &&
      prefs[id].rosterTemplateShiftId in tshifts &&
      tshifts[prefs[id].rosterTemplateShiftId].templateId == templateId
  {
    Select(prefs, last, (_: nat, p: Preference) =>
      p.userId in members && p.rosterTemplateShiftId in tshifts &&
      tshifts[p.rosterTemplateShiftId].templateId == templateId)
  }

  /** Preference `id` as a carried answer. */
  function CarryOf(prefs: map<nat, Preference>, tshifts: map<nat, RosterTemplateShift>, id: nat): Carry
    requires id in prefs && prefs[id].rosterTemplateShiftId in tshifts
  {
    Carry(prefs[id].userId, tshifts[prefs[id].rosterTemplateShiftId].shiftName, prefs[id].preference)
  }

  /** The preferences among `ids` whose template-shift name is one of the new
      shift names, in order, as answers to be created. */
  function Carried(prefs: map<nat, Preference>, tshifts: map<nat, RosterTemplateShift>,
                   ids: seq<nat>, names: seq<string>): (cs: seq<Carry>)
    requires forall id :: id in ids ==> id in prefs && prefs[id].rosterTemplateShiftId in tshifts
    ensures forall c :: c in cs ==> c.shiftName in names
  {
    if ids == [] then []
    else
      var init := ids[..|ids| - 1];
      assert forall id :: id in init ==> id in ids;
      var earlier := Carried(prefs, tshifts, init, names);
      var c := CarryOf(prefs, tshifts, ids[|ids| - 1]);
      if c.shiftName in names then earlier + [c] else earlier
  }

  /** Every carried answer comes from one of the preferences, and every
      preference on a template shift whose name is a new shift name is
      carried. */
  lemma {:induction false} CarriedExactly(prefs: map<nat, Preference>, tshifts: map<nat, RosterTemplateShift>,
                                          ids: seq<nat>, names: seq<string>)
    requires forall id :: id in ids ==> id in prefs && prefs[id].rosterTemplateShiftId in tshifts
    ensures forall c :: c in Carried(prefs, tshifts, ids, names) ==>
      exists id :: id in ids && c == CarryOf(prefs, tshifts, id)
    ensures forall id :: id in ids ==>
      (CarryOf(prefs, tshifts, id) in Carried(prefs, tshifts, ids, names) <==> CarryOf(prefs, tshifts, id).shiftName in names)
  {
    if ids != [] {
      var init := ids[..|ids| - 1];
      assert forall id :: id in init ==> id in ids;
      assert forall id :: id in ids ==> id in init || id == ids[|ids| - 1];
      CarriedExactly(prefs, tshifts, init, names);
    }
  }

  /** Carrying over a prefix of the preferences yields a prefix of the answers. */
  lemma {:induction false} CarriedPrefix(prefs: map<nat, Preference>, tshifts: map<nat, RosterTemplateShift>,
                                         ids: seq<nat>, k: nat, names: seq<string>)
    requires k <= |ids|
    requires forall id :: id in ids ==> id in prefs && prefs[id].rosterTemplateShiftId in tshifts
    ensures Carried(prefs, tshifts, ids[..k], names) <= Carried(prefs, tshifts, ids, names)
  {
    if k < |ids| {
      var init := ids[..|ids| - 1];
      assert init[..k] == ids[..k];
      CarriedPrefix(prefs, tshifts, init, k, names);
    } else {
      assert ids[..k] == ids;
    }
  }

  /** Two carried answers land in the same answer slot: same member, same
      shift name. */
  predicate SameSlot(a: Carry, b: Carry)
  {
    a.userId == b.userId && a.shiftName == b.shiftName
  }

  /** The answer slot a carried answer lands in: its member and shift name. */
  function Slot(c: Carry): (nat, string)
  {
    (c.userId, c.shiftName)
  }

  /** The slots of `cs`, in order. */
  function Slots(cs: seq<Carry>): (slots: seq<(nat, string)>)
    ensures |slots| == |cs|
  {
    seq(|cs|, k requires 0 <= k < |cs| => Slot(cs[k]))
  }

  /** No two carried answers are for the same member and shift name. */
  predicate ConflictFree(cs: seq<Carry>)
  {
    forall i, j :: 0 <= i < j < |cs| ==> !SameSlot(cs[i], cs[j])
  }

  /** Appending keeps a list conflict-free exactly when the new answer's slot
      is not used yet. */
  lemma ConflictFreeAppend(cs: seq<Carry>, c: Carry)
    requires ConflictFree(cs)
    ensures ConflictFree(cs + [c]) <==> forall j :: 0 <= j < |cs| ==> !SameSlot(cs[j], c)
  {
    if !ConflictFree(cs + [c]) {
      var i, j :| 0 <= i < j < |cs| + 1 && SameSlot((cs + [c])[i], (cs + [c])[j]);
      assert j == |cs|;
      assert SameSlot(cs[i], c);
    }
    if exists j :: 0 <= j < |cs| && SameSlot(cs[j], c) {
      var j :| 0 <= j < |cs| && SameSlot(cs[j], c);
      assert (cs + [c])[j] == cs[j] && (cs + [c])[|cs|] == c;
    }
  }

  /** The answers `CreateRoster` carries over from a template. */
  function CarryOver(t: Tables, req: CreateRequest): (cs: seq<Carry>)
    ensures forall c :: c in cs ==> c.shiftName in req.shifts
  {
    match req.templateId
    case None => []
    case Some(template) =>
      Carried(t.template.preferences, t.template.templateShifts,
              TemplatePreferenceIds(t.template.preferences, t.template.templateShifts, Members(t.people, req.organId),
                                    template, t.template.lastPreferenceId),
              req.shifts)
  }

  /** The position of the last shift called `name`: the one the name-to-shift
      map of `CreateRoster` ends up pointing at. */
  function LastIndexOf(names: seq<string>, name: string): (i: nat)
    requires name in names
    ensures i < |names| && names[i] == name
  {
    if names[|names| - 1] == name then |names| - 1
    else
      assert name in names[..|names| - 1] by {
        var k :| 0 <= k < |names| && names[k] == name;
        assert names[..|names| - 1][k] == name;
      }
      LastIndexOf(names[..|names| - 1], name)
  }

  /** No shift after position `LastIndexOf(names, name)` is called `name`. */
  lemma {:induction false} LastIndexOfIsLast(names: seq<string>, name: string, j: nat)
    requires name in names && LastIndexOf(names, name) < j < |names|
    ensures names[j] != name
  {
    if names[|names| - 1] != name {
      var init := names[..|names| - 1];
      assert name in init by {
        var k :| 0 <= k < |names| && names[k] == name;
        assert init[k] == name;
      }
      if j < |names| - 1 {
        LastIndexOfIsLast(init, name, j);
        assert init[j] == names[j];
      }
    }
  }

  /** The map from shift name to shift id that `CreateRoster` fills while
      creating the shifts, the one at position k under id `base + k + 1`:
      each name maps to the last shift created with it. */
  function NameIndex(names: seq<string>, base: nat): map<string, nat>
  {
    if names == [] then map[]
    else NameIndex(names[..|names| - 1], base)[names[|names| - 1] := base + |names|]
  }

  /** The names of the map are the shift names, and each points at the last
      shift with that name. */
  lemma {:induction false} NameIndexContents(names: seq<string>, base: nat)
    ensures forall name :: name in NameIndex(names, base) <==> name in names
    ensures forall name :: name in NameIndex(names, base) ==>
      NameIndex(names, base)[name] == base + LastIndexOf(names, name) + 1
  {
    if names != [] {
      var n := |names|;
      var init := names[..n - 1];
      NameIndexContents(init, base);
      assert names == init + [names[n - 1]];
    }
  }

  /** Every name in `index` points at a shift with that name; so different
      names point at different shifts. */
  ghost predicate PointsAtNamed(index: map<string, nat>, shifts: map<nat, RosterShift>)
  {
    forall name :: name in index ==> index[name] in shifts && shifts[index[name]].name == name
  }

  /** The answer row created for a carried preference. */
  function CarriedAnswer(c: Carry, rosterId: nat, index: map<string, nat>): RosterAnswer
    requires c.shiftName in index
  {
    RosterAnswer(c.userId, rosterId, index[c.shiftName], c.value)
  }

  /** `shifts` with one new row per name, the k-th under the k-th id after
      `base`, ordered by position. */
  function WithShifts(shifts: map<nat, RosterShift>, names: seq<string>, rosterId: nat, base: nat): map<nat, RosterShift>
  {
    if names == [] then shifts
    else
      var n := |names|;
      WithShifts(shifts, names[..n - 1], rosterId, base)[base + n := RosterShift(names[n - 1], rosterId, n - 1, None)]
  }

  /** The new shifts take the ids after `base`, one per name, and the rows
      already there stay as they were. */
  lemma {:induction false} WithShiftsContents(shifts: map<nat, RosterShift>, names: seq<string>, rosterId: nat, base: nat)
    requires IdsUpTo(shifts, base)
    ensures forall id :: id in WithShifts(shifts, names, rosterId, base) <==> id in shifts || base < id <= base + |names|
    ensures forall id :: id in shifts ==> WithShifts(shifts, names, rosterId, base)[id] == shifts[id]
    ensures forall k :: 0 <= k < |names| ==>
      WithShifts(shifts, names, rosterId, base)[base + k + 1] == RosterShift(names[k], rosterId, k, None)
  {
    if names != [] {
      var n := |names|;
      WithShiftsContents(shifts, names[..n - 1], rosterId, base);
      assert forall k :: 0 <= k < n - 1 ==> names[..n - 1][k] == names[k];
    }
  }

  /** `answers` with one new row per carried answer, the j-th under the j-th
      id after `base`. */
  function WithAnswers(answers: map<nat, RosterAnswer>, cs: seq<Carry>, rosterId: nat,
                       index: map<string, nat>, base: nat): map<nat, RosterAnswer>
    requires forall c :: c in cs ==> c.shiftName in index
  {
    if cs == [] then answers
    else
      var n := |cs|;
      assert forall c :: c in cs[..n - 1] ==> c in cs;
      WithAnswers(answers, cs[..n - 1], rosterId, index, base)[base + n := CarriedAnswer(cs[n - 1], rosterId, index)]
  }

  /** The carried answers take the ids after `base`, in order, and the rows
      already there stay as they were. */
  lemma {:induction false} WithAnswersContents(answers: map<nat, RosterAnswer>, cs: seq<Carry>, rosterId: nat,
                                               index: map<string, nat>, base: nat)
    requires IdsUpTo(answers, base)
    requires forall c :: c in cs ==> c.shiftName in index
    ensures forall id :: id in WithAnswers(answers, cs, rosterId, index, base) <==> id in answers || base < id <= base + |cs|
    ensures forall id :: id in answers ==> WithAnswers(answers, cs, rosterId, index, base)[id] == answers[id]
    ensures forall j :: 0 <= j < |cs| ==>
      WithAnswers(answers, cs, rosterId, index, base)[base + j + 1] == CarriedAnswer(cs[j], rosterId, index)
  {
    if cs != [] {
      var n := |cs|;
      assert forall c :: c in cs[..n - 1] ==> c in cs;
      WithAnswersContents(answers, cs[..n - 1], rosterId, index, base);
      assert forall j :: 0 <= j < n - 1 ==> cs[..n - 1][j] == cs[j];
    }
  }

  // ----- rosters ------------------------------------------------------------

  /** The ids `n` consecutive inserts take after `base`. */
  function NextIds(base: nat, n: nat): (ids: seq<nat>)
    ensures |ids| == n
    ensures forall k :: 0 <= k < n ==> ids[k] == base + k + 1
  {
    seq(n, k => base + k + 1)
  }

  /** Creates a roster with the default values, one shift per name in input
      order, and, for a template, the members' standing preferences as
      answers. The foreign key on `organ_id` refuses an organ that does not
      exist when the roster row is inserted. A clash between two carried
      answers fails with the rows created up to it left in place. */
  method CreateRoster(db: Db, req: CreateRequest, now: int) returns (r: Result<Created>)
    requires db.Valid()
    modifies db
    ensures db.Valid()
    ensures !IsTodayOrLater(req.date, now) ==> r == Err(InvalidDate) && db.t == old(db.t)
    ensures IsTodayOrLater(req.date, now) && req.name == "" ==> r == Err(NameRequired) && db.t == old(db.t)
    ensures IsTodayOrLater(req.date, now) && req.name != "" && req.organId !in old(db.t.people.organs) ==>
      r == Err(NotFound("organ")) && db.t == old(db.t)
    ensures (IsTodayOrLater(req.date, now) && req.name != "" && req.organId in old(db.t.people.organs) &&
             !ConflictFree(CarryOver(old(db.t), req))) ==> r == Err(Conflict)
    ensures r.Ok? <==>
      && IsTodayOrLater(req.date, now) && req.name != "" && req.organId in old(db.t.people.organs)
      && ConflictFree(CarryOver(old(db.t), req))
    ensures r.Ok? || r == Err(Conflict) ==>
      && Inserted(old(db.t).roster, db.t.roster, NewRoster(req), req.shifts, CarryOver(old(db.t), req))
      && db.t.template == old(db.t).template && db.t.people == old(db.t).people
    ensures r.Ok? ==>
      r.value == Created(db.t.roster.lastRosterId, NextIds(old(db.t).roster.lastShiftId, |req.shifts|)) &&
      db.t.roster.lastAnswerId == old(db.t).roster.lastAnswerId + |CarryOver(old(db.t), req)|
    ensures r == Err(Conflict) ==>
      Stopped(CarryOver(old(db.t), req), db.t.roster.lastAnswerId - old(db.t).roster.lastAnswerId, false)
  {
    var t := db.t;
    var members := Members(t.people, req.organId);
    if !IsTodayOrLater(req.date, now) {
      return Err(InvalidDate);
    }
    if req.name == "" {
      return Err(NameRequired);
    }
    if req.organId !in t.people.organs {
      return Err(NotFound("organ"));
    }
    var prefs, tshifts := t.template.preferences, t.template.templateShifts;
    var prefIds := [];
    if req.templateId.Some? {
      prefIds := TemplatePreferenceIds(prefs, tshifts, members, req.templateId.value, t.template.lastPreferenceId);
    }
    assert CarryOver(t, req) == Carried(prefs, tshifts, prefIds, req.shifts);
    var ok, rows, shiftIds := InsertRoster(t.roster, prefs, tshifts, NewRoster(req), req.shifts, prefIds);
    db.t := t.(roster := rows);
    r := if ok then Ok(Created(rows.lastRosterId, shiftIds)) else Err(Conflict);
  }

  /** The roster row `CreateRoster` inserts: not saved, and with no template
      recorded. */
  function NewRoster(req: CreateRequest): (roster: Roster)
    ensures roster.values == DefaultValues && !roster.saved && roster.templateId.None?
    ensures roster.name == req.name && roster.date == req.date && roster.organId == req.organId
  {
    Roster(req.name, DefaultValues, req.organId, req.date, false, None)
  }

  /** `r'` is what `CreateRoster` leaves behind once it got past its checks:
      the roster under the next roster id, its shifts under the next shift
      ids, and the first `r'.lastAnswerId - r.lastAnswerId` carried answers of
      `cs` under the next answer ids, on the shifts their names map to; saved
      shifts do not change. */
  ghost predicate Inserted(r: RosterRows, r': RosterRows, roster: Roster, names: seq<string>, cs: seq<Carry>)
  {
    && r.lastAnswerId <= r'.lastAnswerId <= r.lastAnswerId + |cs|
    && (forall c :: c in cs ==> c.shiftName in NameIndex(names, r.lastShiftId))
    && r'.lastRosterId == r.lastRosterId + 1
    && r'.rosters == r.rosters[r'.lastRosterId := roster]
    && r'.lastShiftId == r.lastShiftId + |names|
    && r'.shifts == WithShifts(r.shifts, names, r'.lastRosterId, r.lastShiftId)
    && r'.answers == WithAnswers(r.answers, cs[..r'.lastAnswerId - r.lastAnswerId], r'.lastRosterId,
                                 NameIndex(names, r.lastShiftId), r.lastAnswerId)
    && r'.savedShifts == r.savedShifts && r'.lastSavedShiftId == r.lastSavedShiftId
  }

  /** The inserting part of `CreateRoster`: the roster under the next roster
      id, then its shifts, then the answers carried over from preferences
      `prefIds`. */
  method InsertRoster(r: RosterRows, prefs: map<nat, Preference>, tshifts: map<nat, RosterTemplateShift>,
                      roster: Roster, names: seq<string>, prefIds: seq<nat>)
    returns (ok: bool, r': RosterRows, shiftIds: seq<nat>)
    requires r.Valid()
    requires forall id :: id in prefIds ==> id in prefs && prefs[id].rosterTemplateShiftId in tshifts
    ensures r'.Valid()
    ensures ok <==> ConflictFree(Carried(prefs, tshifts, prefIds, names))
    ensures Inserted(r, r', roster, names, Carried(prefs, tshifts, prefIds, names))
    ensures shiftIds == NextIds(r.lastShiftId, |names|)
    ensures ok ==> r'.lastAnswerId == r.lastAnswerId + |Carried(prefs, tshifts, prefIds, names)|
    ensures Stopped(Carried(prefs, tshifts, prefIds, names), r'.lastAnswerId - r.lastAnswerId, ok)
  {
    var rosterId := r.lastRosterId + 1;
    var rosters := r.rosters[rosterId := roster];
    RosterInserted(r, roster);
    var shifts, lastShift, index;
    shifts, lastShift, shiftIds, index := InsertShifts(rosters, r.shifts, r.answers, r.savedShifts, r.lastShiftId, rosterId, names);
    NameIndexShifts(r.shifts, names, rosterId, r.lastShiftId);
    var answers, lastAnswer;
    ok, answers, lastAnswer := InsertAnswers(rosters, shifts, r.savedShifts, r.answers, r.lastAnswerId, prefs, tshifts, prefIds,
                                             rosterId, names, index);
    r' := RosterRows(rosters, shifts, answers, r.savedShifts, rosterId, lastShift, lastAnswer, r.lastSavedShiftId);
    InsertedValid(r, r', roster, names, Carried(prefs, tshifts, prefIds, names), shifts, lastShift, index, answers, lastAnswer, ok);
  }

  /** The rows `InsertRoster` ends up with are consistent and are the rows
      `Inserted` describes. */
  lemma InsertedValid(r: RosterRows, r': RosterRows, roster: Roster, names: seq<string>, cs: seq<Carry>,
                      shifts: map<nat, RosterShift>, lastShift: nat, index: map<string, nat>,
                      answers: map<nat, RosterAnswer>, lastAnswer: nat, ok: bool)
    requires r.Valid()
    requires IdsUpTo(r.rosters[r.lastRosterId + 1 := roster], r.lastRosterId + 1)
    requires lastShift == r.lastShiftId + |names|
    requires shifts == WithShifts(r.shifts, names, r.lastRosterId + 1, r.lastShiftId)
    requires IdsUpTo(shifts, lastShift)
    requires index == NameIndex(names, r.lastShiftId)
    requires RosterTables(r.rosters[r.lastRosterId + 1 := roster], shifts, answers, r.savedShifts)
    requires IdsUpTo(answers, lastAnswer)
    requires forall c :: c in cs ==> c.shiftName in index
    requires r.lastAnswerId <= lastAnswer <= r.lastAnswerId + |cs|
    requires answers == WithAnswers(r.answers, cs[..lastAnswer - r.lastAnswerId], r.lastRosterId + 1, index, r.lastAnswerId)
    requires Stopped(cs, lastAnswer - r.lastAnswerId, ok)
    requires r' == RosterRows(r.rosters[r.lastRosterId + 1 := roster], shifts, answers, r.savedShifts,
                              r.lastRosterId + 1, lastShift, lastAnswer, r.lastSavedShiftId)
    ensures r'.Valid()
    ensures Inserted(r, r', roster, names, cs)
    ensures Stopped(cs, r'.lastAnswerId - r.lastAnswerId, ok)
  {
  }

  /** The answer-creating part of `CreateRoster`: carries the preferences
      over onto the new shifts, keeping the roster tables consistent. */
  method InsertAnswers(rosters: map<nat, Roster>, shifts: map<nat, RosterShift>, savedShifts: map<nat, SavedShift>,
                       answers: map<nat, RosterAnswer>, last: nat, prefs: map<nat, Preference>,
                       tshifts: map<nat, RosterTemplateShift>, prefIds: seq<nat>, rosterId: nat,
                       names: seq<string>, index: map<string, nat>)
    returns (ok: bool, answers': map<nat, RosterAnswer>, last': nat)
    requires RosterTables(rosters, shifts, answers, savedShifts) && IdsUpTo(answers, last)
    requires rosterId in rosters && forall a :: a in answers ==> answers[a].rosterId != rosterId
    requires forall name :: name in index <==> name in names
    requires PointsAtNamed(index, shifts)
    requires forall id :: id in prefIds ==> id in prefs && prefs[id].rosterTemplateShiftId in tshifts
    ensures RosterTables(rosters, shifts, answers', savedShifts) && IdsUpTo(answers', last')
    ensures forall c :: c in Carried(prefs, tshifts, prefIds, names) ==> c.shiftName in index
    ensures last <= last' <= last + |Carried(prefs, tshifts, prefIds, names)|
    ensures ok <==> ConflictFree(Carried(prefs, tshifts, prefIds, names))
    ensures ok ==> last' == last + |Carried(prefs, tshifts, prefIds, names)|
    ensures answers' == WithAnswers(answers, Carried(prefs, tshifts, prefIds, names)[..last' - last], rosterId, index, last)
    ensures Stopped(Carried(prefs, tshifts, prefIds, names), last' - last, ok)
  {
    ok, answers', last' := CarryInto(answers, last, prefs, tshifts, prefIds, rosterId, names, index, shifts);
    ghost var carried := Carried(prefs, tshifts, prefIds, names)[..last' - last];
    WithAnswersConsistent(rosters, shifts, answers, savedShifts, carried, rosterId, index, last);
  }

  /** A roster under the next id keeps the roster tables consistent, and no
      answer belongs to it yet. */
  lemma RosterInserted(r: RosterRows, roster: Roster)
    requires r.Valid()
    ensures RosterTables(r.rosters[r.lastRosterId + 1 := roster], r.shifts, r.answers, r.savedShifts)
    ensures IdsUpTo(r.rosters[r.lastRosterId + 1 := roster], r.lastRosterId + 1)
    ensures forall a :: a in r.answers ==> r.answers[a].rosterId != r.lastRosterId + 1
  {
    RosterAdded(r.rosters, r.shifts, r.answers, r.savedShifts, r.lastRosterId + 1, roster);
  }

  /** The name-to-shift map of `CreateRoster` knows exactly the new shift
      names and sends each to a new shift of that name. */
  lemma NameIndexShifts(shifts: map<nat, RosterShift>, names: seq<string>, rosterId: nat, base: nat)
    requires IdsUpTo(shifts, base)
    ensures forall name :: name in NameIndex(names, base) <==> name in names
    ensures PointsAtNamed(NameIndex(names, base), WithShifts(shifts, names, rosterId, base))
  {
    NameIndexContents(names, base);
    WithShiftsContents(shifts, names, rosterId, base);
  }

  /** The shift-creating loop of `CreateRoster`, on the shifts table: one
      shift per name, ordered by position, under the ids after `last`, each
      name recorded in the name-to-shift map. Each shift belongs to an
      existing roster, so the tables stay consistent. */
  method InsertShifts(rosters: map<nat, Roster>, shifts: map<nat, RosterShift>, answers: map<nat, RosterAnswer>,
                      savedShifts: map<nat, SavedShift>, last: nat, rosterId: nat, names: seq<string>)
    returns (shifts': map<nat, RosterShift>, last': nat, shiftIds: seq<nat>, nameToShiftId: map<string, nat>)
    requires RosterTables(rosters, shifts, answers, savedShifts) && IdsUpTo(shifts, last) && rosterId in rosters
    ensures last' == last + |names|
    ensures shiftIds == NextIds(last, |names|)
    ensures shifts' == WithShifts(shifts, names, rosterId, last)
    ensures nameToShiftId == NameIndex(names, last)
    ensures RosterTables(rosters, shifts', answers, savedShifts) && IdsUpTo(shifts', last')
  {
    shifts', last', shiftIds, nameToShiftId := shifts, last, [], map[];
    for i := 0 to |names|
      invariant last' == last + i
      invariant shiftIds == NextIds(last, i)
      invariant shifts' == WithShifts(shifts, names[..i], rosterId, last)
      invariant nameToShiftId == NameIndex(names[..i], last)
      invariant RosterTables(rosters, shifts', answers, savedShifts) && IdsUpTo(shifts', last')
    {
      var shift := RosterShift(names[i], rosterId, i, None);
      ShiftAdded(rosters, shifts', answers, savedShifts, last' + 1, shift);
      last' := last' + 1;
      shifts' := shifts'[last' := shift];
      shiftIds := shiftIds + [last'];
      nameToShiftId := nameToShiftId[shift.name := last'];
      assert names[..i + 1][..i] == names[..i];
    }
    assert names[..|names|] == names;
  }

  /** Answer `n` of `cs` takes a slot an answer before it took exactly when
      one of those is for the same member and shift. */
  lemma SlotTaken(cs: seq<Carry>, n: int)
    requires 0 <= n < |cs|
    ensures Slot(cs[n]) in Slots(cs[..n]) <==> exists j :: 0 <= j < n && SameSlot(cs[j], cs[n])
  {
    if exists j :: 0 <= j < n && SameSlot(cs[j], cs[n]) {
      var j :| 0 <= j < n && SameSlot(cs[j], cs[n]);
      assert Slots(cs[..n])[j] == Slot(cs[n]);
    }
    if Slot(cs[n]) in Slots(cs[..n]) {
      var j :| 0 <= j < n && Slots(cs[..n])[j] == Slot(cs[n]);
      assert SameSlot(cs[j], cs[n]);
    }
  }

  /** How many of the answers `cs`, inserted in order, go in before the
      first one whose slot is already taken: all of them when there is none. */
  function FirstClash(cs: seq<Carry>): (n: nat)
    ensures n <= |cs|
  {
    if cs == [] then 0
    else
      var k := FirstClash(cs[..|cs| - 1]);
      if k < |cs| - 1 then k
      else if Slot(cs[|cs| - 1]) in Slots(cs[..|cs| - 1]) then |cs| - 1
      else |cs|
  }

  /** `FirstClash` is the `n` whose first `n` answers are clash-free and
      whose answer `n`, if any, takes a slot one of them took. */
  lemma {:induction false} FirstClashIff(cs: seq<Carry>, n: int)
    requires 0 <= n <= |cs|
    ensures FirstClash(cs) == n <==> ConflictFree(cs[..n]) && (n < |cs| ==> Slot(cs[n]) in Slots(cs[..n]))
  {
    if cs != [] {
      var m := |cs| - 1;
      var init := cs[..m];
      var k := FirstClash(init);
      FirstClashIff(init, k);
      assert forall j :: 0 <= j < m ==> init[j] == cs[j];
      if k < m {
        SlotTaken(init, k);
        var j :| 0 <= j < k && SameSlot(init[j], init[k]);
        if n < m {
          FirstClashIff(init, n);
          assert init[..n] == cs[..n];
        } else {
          assert cs[..n][j] == cs[j] && cs[..n][k] == cs[k];
        }
      } else {
        assert init[..m] == init;
        if n < m {
          SlotTaken(cs, n);
          assert forall j :: 0 <= j < n ==> !SameSlot(init[j], init[n]);
        } else if n == m {
          assert cs[..m] == init;
        } else {
          assert cs[..n] == init + [cs[m]];
          ConflictFreeAppend(init, cs[m]);
          SlotTaken(cs, m);
          assert cs[..m] == init;
        }
      }
    }
  }

  /** Inserting the carried answers `cs` in order stopped after the first
      `n`: exactly those before the first clash, all of `cs` when `ok`. */
  predicate Stopped(cs: seq<Carry>, n: int, ok: bool)
  {
    n == FirstClash(cs) && (ok <==> n == |cs|)
  }

  /** Stopping short after `n` clash-free answers means exactly that answer
      `n` is for the same member and shift as one before it. */
  lemma StoppedAtClash(cs: seq<Carry>, n: int)
    requires 0 <= n < |cs| && ConflictFree(cs[..n])
    ensures Stopped(cs, n, false) <==> exists j :: 0 <= j < n && SameSlot(cs[j], cs[n])
  {
    FirstClashIff(cs, n);
    SlotTaken(cs, n);
  }

  /** The insertion stops short exactly when the carried answers clash, and
      what it inserted is clash-free. */
  lemma StoppedIffConflict(cs: seq<Carry>, n: int, ok: bool)
    requires Stopped(cs, n, ok)
    ensures 0 <= n <= |cs| && ConflictFree(cs[..n])
    ensures ok <==> ConflictFree(cs)
  {
    FirstClashIff(cs, n);
    if ok {
      assert cs[..n] == cs;
    } else {
      SlotTaken(cs, n);
      var j :| 0 <= j < n && SameSlot(cs[j], cs[n]);
      assert !ConflictFree(cs);
    }
  }

  /** The carry-over loop of `CreateRoster`, on the answers table: each
      preference in `prefIds` whose template-shift name is a new shift name
      becomes an answer on the shift `index` gives for that name. A second
      answer for the same member and shift violates the answer index and stops
      the loop; the answers inserted before it stay. */
  method CarryInto(answers: map<nat, RosterAnswer>, last: nat, prefs: map<nat, Preference>,
                   tshifts: map<nat, RosterTemplateShift>, prefIds: seq<nat>, rosterId: nat,
                   names: seq<string>, index: map<string, nat>, ghost shifts: map<nat, RosterShift>)
    returns (ok: bool, answers': map<nat, RosterAnswer>, last': nat)
    requires IdsUpTo(answers, last) && forall a :: a in answers ==> answers[a].rosterId != rosterId
    requires forall name :: name in index <==> name in names
    requires PointsAtNamed(index, shifts)
    requires forall id :: id in prefIds ==> id in prefs && prefs[id].rosterTemplateShiftId in tshifts
    ensures last <= last' <= last + |Carried(prefs, tshifts, prefIds, names)|
    ensures ConflictFree(Carried(prefs, tshifts, prefIds, names)[..last' - last])
    ensures forall c :: c in Carried(prefs, tshifts, prefIds, names)[..last' - last] ==> c.shiftName in index
    ensures ok <==> ConflictFree(Carried(prefs, tshifts, prefIds, names))
    ensures ok ==> last' == last + |Carried(prefs, tshifts, prefIds, names)|
    ensures answers' == WithAnswers(answers, Carried(prefs, tshifts, prefIds, names)[..last' - last], rosterId, index, last)
    ensures Stopped(Carried(prefs, tshifts, prefIds, names), last' - last, ok)
  {
    answers', last', ok := answers, last, true;
    ghost var done: seq<Carry> := [];
    for k := 0 to |prefIds|
      invariant done == Carried(prefs, tshifts, prefIds[..k], names)
      invariant ConflictFree(done)
      invariant last' == last + |done|
      invariant answers' == WithAnswers(answers, done, rosterId, index, last)
    {
      var clash, cur, top;
      ghost var carried;
      clash, cur, top, carried := CarryOne(answers, last, prefs, tshifts, prefIds, k, rosterId, names, index, shifts,
                                           answers', last', done);
      if clash {
        ok := false;
        break;
      }
      answers', last', done := cur, top, carried;
    }
    if ok {
      assert prefIds[..|prefIds|] == prefIds;
      assert done[..|done|] == done;
    }
    CarryEnds(Carried(prefs, tshifts, prefIds, names), done, last' - last, ok, index);
  }

  /** One round of the carry-over loop, for preference `prefIds[k]`, after
      the answers `done` were carried into `cur` under the ids up to `top`:
      either the answer it carries, if any, is added under the next id, or
      its key is taken and the loop stops after `done`. */
  method CarryOne(answers: map<nat, RosterAnswer>, last: nat, prefs: map<nat, Preference>,
                  tshifts: map<nat, RosterTemplateShift>, prefIds: seq<nat>, k: nat, rosterId: nat,
                  names: seq<string>, index: map<string, nat>, ghost shifts: map<nat, RosterShift>,
                  cur: map<nat, RosterAnswer>, top: nat, ghost done: seq<Carry>)
    returns (clash: bool, cur': map<nat, RosterAnswer>, top': nat, ghost done': seq<Carry>)
    requires k < |prefIds|
    requires IdsUpTo(answers, last) && forall a :: a in answers ==> answers[a].rosterId != rosterId
    requires forall name :: name in index <==> name in names
    requires PointsAtNamed(index, shifts)
    requires forall id :: id in prefIds ==> id in prefs && prefs[id].rosterTemplateShiftId in tshifts
    requires done == Carried(prefs, tshifts, prefIds[..k], names) && ConflictFree(done)
    requires top == last + |done| && cur == WithAnswers(answers, done, rosterId, index, last)
    ensures !clash ==> done' == Carried(prefs, tshifts, prefIds[..k + 1], names) && ConflictFree(done')
    ensures !clash ==> top' == last + |done'| && cur' == WithAnswers(answers, done', rosterId, index, last)
    ensures clash ==> |done| < |Carried(prefs, tshifts, prefIds, names)| && Carried(prefs, tshifts, prefIds, names)[..|done|] == done
    ensures clash ==> Stopped(Carried(prefs, tshifts, prefIds, names), |done|, false)
  {
    var pref := prefs[prefIds[k]];
    var name := tshifts[pref.rosterTemplateShiftId].shiftName;
    CarriedStep(prefs, tshifts, prefIds, k, names);
    clash, cur', top', done' := false, cur, top, done;
    if name in index {
      var answer := RosterAnswer(pref.userId, rosterId, index[name], pref.preference);
      ghost var c := CarryOf(prefs, tshifts, prefIds[k]);
      if AnswerKeyTaken(cur, answer) {
        CarryClashes(answers, last, prefs, tshifts, prefIds, k, rosterId, names, index, shifts, done);
        clash := true;
      } else {
        CarryAdded(answers, last, done, cur, c, rosterId, index, shifts);
        top' := top + 1;
        cur' := cur[top' := answer];
        done' := done + [c];
      }
    }
  }

  /** Where the carry-over loop ends after carrying `done`: either all of
      `cs`, which is then clash-free, or a clash-free proper prefix of a `cs`
      that clashes. */
  lemma CarryEnds(cs: seq<Carry>, done: seq<Carry>, n: int, ok: bool, index: map<string, nat>)
    requires n == |done| <= |cs| && cs[..n] == done && ConflictFree(done)
    requires forall c :: c in cs ==> c.shiftName in index
    requires ok ==> done == cs
    requires !ok ==> Stopped(cs, n, false)
    ensures ConflictFree(cs[..n])
    ensures forall c :: c in cs[..n] ==> c.shiftName in index
    ensures ok <==> ConflictFree(cs)
    ensures ok ==> n == |cs|
    ensures Stopped(cs, n, ok)
  {
    assert forall c :: c in cs[..n] ==> c in cs;
    if ok {
      assert cs[..n] == cs;
      FirstClashIff(cs, n);
    } else {
      StoppedIffConflict(cs, n, false);
    }
  }

  /** A carried answer whose key is free extends the conflict-free carried
      prefix by one answer under the next id. */
  lemma CarryAdded(answers: map<nat, RosterAnswer>, last: nat, done: seq<Carry>,
                   answers': map<nat, RosterAnswer>, c: Carry, rosterId: nat, index: map<string, nat>,
                   shifts: map<nat, RosterShift>)
    requires IdsUpTo(answers, last) && forall a :: a in answers ==> answers[a].rosterId != rosterId
    requires PointsAtNamed(index, shifts) && c.shiftName in index && forall d :: d in done ==> d.shiftName in index
    requires ConflictFree(done)
    requires answers' == WithAnswers(answers, done, rosterId, index, last)
    requires !AnswerKeyTaken(answers', CarriedAnswer(c, rosterId, index))
    ensures ConflictFree(done + [c])
    ensures answers'[last + |done| + 1 := CarriedAnswer(c, rosterId, index)] == WithAnswers(answers, done + [c], rosterId, index, last)
  {
    CarriedKeyTaken(answers, done, c, rosterId, index, shifts, last);
    ConflictFreeAppend(done, c);
    WithAnswersAppend(answers, done, c, rosterId, index, last);
  }

  /** A carried answer whose key is taken ends the carry-over: the answers
      carried so far are a proper prefix of all carried answers, and those
      clash. */
  lemma CarryClashes(answers: map<nat, RosterAnswer>, last: nat, prefs: map<nat, Preference>,
                     tshifts: map<nat, RosterTemplateShift>, ids: seq<nat>, k: nat, rosterId: nat,
                     names: seq<string>, index: map<string, nat>, shifts: map<nat, RosterShift>, done: seq<Carry>)
    requires k < |ids|
    requires forall id :: id in ids ==> id in prefs && prefs[id].rosterTemplateShiftId in tshifts
    requires IdsUpTo(answers, last) && forall a :: a in answers ==> answers[a].rosterId != rosterId
    requires PointsAtNamed(index, shifts) && forall name :: name in index <==> name in names
    requires done == Carried(prefs, tshifts, ids[..k], names) && ConflictFree(done)
    requires CarryOf(prefs, tshifts, ids[k]).shiftName in names
    requires AnswerKeyTaken(WithAnswers(answers, done, rosterId, index, last),
                            CarriedAnswer(CarryOf(prefs, tshifts, ids[k]), rosterId, index))
    ensures |done| < |Carried(prefs, tshifts, ids, names)| && Carried(prefs, tshifts, ids, names)[..|done|] == done
    ensures !ConflictFree(Carried(prefs, tshifts, ids, names))
    ensures Stopped(Carried(prefs, tshifts, ids, names), |done|, false)
  {
    CarriedKeyTaken(answers, done, CarryOf(prefs, tshifts, ids[k]), rosterId, index, shifts, last);
    ClashStops(prefs, tshifts, ids, k, names, done);
    StoppedIffConflict(Carried(prefs, tshifts, ids, names), |done|, false);
  }

  /** One more preference adds its carried answer when its shift name is a
      new shift name, and nothing otherwise. */
  lemma CarriedStep(prefs: map<nat, Preference>, tshifts: map<nat, RosterTemplateShift>,
                    ids: seq<nat>, k: nat, names: seq<string>)
    requires k < |ids|
    requires forall id :: id in ids ==> id in prefs && prefs[id].rosterTemplateShiftId in tshifts
    ensures CarryOf(prefs, tshifts, ids[k]).shiftName in names ==>
      Carried(prefs, tshifts, ids[..k + 1], names) == Carried(prefs, tshifts, ids[..k], names) + [CarryOf(prefs, tshifts, ids[k])]
    ensures CarryOf(prefs, tshifts, ids[k]).shiftName !in names ==>
      Carried(prefs, tshifts, ids[..k + 1], names) == Carried(prefs, tshifts, ids[..k], names)
  {
    assert ids[..k + 1][..k] == ids[..k];
  }

  /** When preference `k` clashes with an answer carried before it, carrying
      stops after the answers carried so far. */
  lemma ClashStops(prefs: map<nat, Preference>, tshifts: map<nat, RosterTemplateShift>,
                   ids: seq<nat>, k: nat, names: seq<string>, done: seq<Carry>)
    requires k < |ids|
    requires forall id :: id in ids ==> id in prefs && prefs[id].rosterTemplateShiftId in tshifts
    requires done == Carried(prefs, tshifts, ids[..k], names) && ConflictFree(done)
    requires CarryOf(prefs, tshifts, ids[k]).shiftName in names
    requires exists j :: 0 <= j < |done| && SameSlot(done[j], CarryOf(prefs, tshifts, ids[k]))
    ensures Stopped(Carried(prefs, tshifts, ids, names), |done|, false)
    ensures Carried(prefs, tshifts, ids, names)[..|done|] == done
  {
    var c := CarryOf(prefs, tshifts, ids[k]);
    CarriedStep(prefs, tshifts, ids, k, names);
    CarriedPrefix(prefs, tshifts, ids, k + 1, names);
    var cs := Carried(prefs, tshifts, ids, names);
    var j :| 0 <= j < |done| && SameSlot(done[j], c);
    assert cs[..|done|] == done && cs[j] == done[j] && cs[|done|] == c;
    StoppedAtClash(cs, |done|);
  }

  /** Appending one carried answer adds its row under the next id. */
  lemma WithAnswersAppend(answers: map<nat, RosterAnswer>, done: seq<Carry>, c: Carry, rosterId: nat,
                          index: map<string, nat>, base: nat)
    requires c.shiftName in index && forall d :: d in done ==> d.shiftName in index
    ensures WithAnswers(answers, done + [c], rosterId, index, base) ==
      WithAnswers(answers, done, rosterId, index, base)[base + |done| + 1 := CarriedAnswer(c, rosterId, index)]
  {
    assert (done + [c])[..|done|] == done;
  }

  /** Conflict-free carried answers on an existing roster that had no answers
      keep the roster tables consistent. */
  lemma WithAnswersConsistent(rosters: map<nat, Roster>, shifts: map<nat, RosterShift>,
                              answers: map<nat, RosterAnswer>, savedShifts: map<nat, SavedShift>,
                              cs: seq<Carry>, rosterId: nat, index: map<string, nat>, base: nat)
    requires RosterTables(rosters, shifts, answers, savedShifts) && IdsUpTo(answers, base)
    requires rosterId in rosters && forall a :: a in answers ==> answers[a].rosterId != rosterId
    requires PointsAtNamed(index, shifts)
    requires forall c :: c in cs ==> c.shiftName in index
    requires ConflictFree(cs)
    ensures RosterTables(rosters, shifts, WithAnswers(answers, cs, rosterId, index, base), savedShifts)
    ensures IdsUpTo(WithAnswers(answers, cs, rosterId, index, base), base + |cs|)
  {
    var all := WithAnswers(answers, cs, rosterId, index, base);
    WithAnswersContents(answers, cs, rosterId, index, base);
    forall a | a in all && a !in answers
      ensures all[a] == CarriedAnswer(cs[a - base - 1], rosterId, index)
    {
    }
    WithAnswersUnique(answers, cs, rosterId, index, base, shifts);
  }

  /** Clash-free carried answers for a new roster keep the answer index
      unique. */
  lemma WithAnswersUnique(answers: map<nat, RosterAnswer>, cs: seq<Carry>, rosterId: nat,
                          index: map<string, nat>, base: nat, shifts: map<nat, RosterShift>)
    requires AnswerKeysUnique(answers) && IdsUpTo(answers, base)
    requires forall a :: a in answers ==> answers[a].rosterId != rosterId
    requires PointsAtNamed(index, shifts)
    requires forall c :: c in cs ==> c.shiftName in index
    requires ConflictFree(cs)
    ensures AnswerKeysUnique(WithAnswers(answers, cs, rosterId, index, base))
  {
    var all := WithAnswers(answers, cs, rosterId, index, base);
    WithAnswersContents(answers, cs, rosterId, index, base);
    forall a | a in all && a !in answers
      ensures all[a] == CarriedAnswer(cs[a - base - 1], rosterId, index)
    {
    }
    forall i, j | i in all && j in all && i < j
      ensures AnswerKey(all[i]) != AnswerKey(all[j])
    {
      if i !in answers && j !in answers {
        CarriedKeysDiffer(cs, i - base - 1, j - base - 1, rosterId, index, shifts);
      }
    }
  }

  /** Two different conflict-free carried answers get different keys. */
  lemma CarriedKeysDiffer(cs: seq<Carry>, i: nat, j: nat, rosterId: nat, index: map<string, nat>,
                          shifts: map<nat, RosterShift>)
    requires i < j < |cs| && ConflictFree(cs)
    requires PointsAtNamed(index, shifts) && cs[i].shiftName in index && cs[j].shiftName in index
    ensures AnswerKey(CarriedAnswer(cs[i], rosterId, index)) != AnswerKey(CarriedAnswer(cs[j], rosterId, index))
  {
    assert !SameSlot(cs[i], cs[j]);
  }

  /** While carrying over, a new answer's key is taken exactly when an
      earlier carried answer is for the same member and shift name. */
  lemma CarriedKeyTaken(answers: map<nat, RosterAnswer>, done: seq<Carry>, c: Carry, rosterId: nat,
                        index: map<string, nat>, shifts: map<nat, RosterShift>, base: nat)
    requires IdsUpTo(answers, base)
    requires forall a :: a in answers ==> answers[a].rosterId != rosterId
    requires PointsAtNamed(index, shifts)
    requires c.shiftName in index && forall d :: d in done ==> d.shiftName in index
    ensures AnswerKeyTaken(WithAnswers(answers, done, rosterId, index, base), CarriedAnswer(c, rosterId, index)) <==>
      exists j :: 0 <= j < |done| && SameSlot(done[j], c)
  {
    var all := WithAnswers(answers, done, rosterId, index, base);
    WithAnswersContents(answers, done, rosterId, index, base);
    var answer := CarriedAnswer(c, rosterId, index);
    if AnswerKeyTaken(all, answer) {
      var a :| a in all && AnswerKey(all[a]) == AnswerKey(answer);
      var j := a - base - 1;
      assert 0 <= j < |done| && a == base + j + 1;
      assert all[a] == CarriedAnswer(done[j], rosterId, index);
      assert SameSlot(done[j], c);
    }
    if exists j :: 0 <= j < |done| && SameSlot(done[j], c) {
      var j :| 0 <= j < |done| && SameSlot(done[j], c);
      assert AnswerKey(all[base + j + 1]) == AnswerKey(answer);
    }
  }


}
