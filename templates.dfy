/** Roster templates and the members' standing preferences on template
    shifts, as the current roster service (internal/roster/service.go)
    handles them. */
module RosterTemplates {
  import opened Common
  import opened Models
  import opened Store

  datatype TemplateCreateRequest = TemplateCreateRequest(organId: nat, name: string, shifts: seq<string>)

  datatype PreferenceCreateRequest = PreferenceCreateRequest(userId: nat, rosterTemplateShiftId: nat, preference: string)

  // ----- creating a template ------------------------------------------------

  /** `tshifts` with one template shift of template `templateId` per name,
      the k-th under the k-th id after `base`. */
  function WithTemplateShifts(tshifts: map<nat, RosterTemplateShift>, names: seq<string>, templateId: nat, base: nat)
    : map<nat, RosterTemplateShift>
  {
    if names == [] then tshifts
    else
      var n := |names|;
      WithTemplateShifts(tshifts, names[..n - 1], templateId, base)[base + n := RosterTemplateShift(templateId, names[n - 1], None)]
  }

  /** The new template shifts take the ids after `base`, one per name in
      order, and the rows already there stay as they were. */
  lemma {:induction false} WithTemplateShiftsContents(tshifts: map<nat, RosterTemplateShift>, names: seq<string>,
                                                      templateId: nat, base: nat)
    requires IdsUpTo(tshifts, base)
    ensures forall id :: id in WithTemplateShifts(tshifts, names, templateId, base) <==> id in tshifts || base < id <= base + |names|
    ensures forall id :: id in tshifts ==> WithTemplateShifts(tshifts, names, templateId, base)[id] == tshifts[id]
    ensures forall k :: 0 <= k < |names| ==>
      WithTemplateShifts(tshifts, names, templateId, base)[base + k + 1] == RosterTemplateShift(templateId, names[k], None)
  {
    if names != [] {
      var n := |names|;
      WithTemplateShiftsContents(tshifts, names[..n - 1], templateId, base);
      assert forall k :: 0 <= k < n - 1 ==> names[..n - 1][k] == names[k];
    }
  }

  /** The template rows after creating template `name` of organ `organId`
      with one shift per name. */
  function TemplateCreated(t: TemplateRows, organId: nat, name: string, names: seq<string>): (t': TemplateRows)
  {
    var id := t.lastTemplateId + 1;
    t.(templates := t.templates[id := RosterTemplate(organId, name)],
       templateShifts := WithTemplateShifts(t.templateShifts, names, id, t.lastTemplateShiftId),
       lastTemplateId := id,
       lastTemplateShiftId := t.lastTemplateShiftId + |names|)
  }

  /** Creating a template keeps the template tables consistent. */
  lemma TemplateCreatedValid(t: TemplateRows, organId: nat, name: string, names: seq<string>)
    requires t.Valid()
    ensures TemplateCreated(t, organId, name, names).Valid()
  {
    var id := t.lastTemplateId + 1;
    var base := t.lastTemplateShiftId;
    WithTemplateShiftsContents(t.templateShifts, names, id, base);
    var t' := TemplateCreated(t, organId, name, names);
    forall s | s in t'.templateShifts
      ensures t'.templateShifts[s].templateId in t'.templates
    {
      if s !in t.templateShifts {
        var w := WithTemplateShifts(t.templateShifts, names, id, base);
        assert t'.templateShifts == w;
        var k := s - base - 1;
        assert 0 <= k < |names|;
        assert w[base + k + 1] == RosterTemplateShift(id, names[k], None);
      }
    }
  }

  /** The new template owns exactly the new template shifts, one per name in
      order; the other templates keep theirs. */
  lemma TemplateCreatedShifts(t: TemplateRows, organId: nat, name: string, names: seq<string>)
    requires t.Valid()
    ensures var t' := TemplateCreated(t, organId, name, names);
      && t'.templates[t'.lastTemplateId] == RosterTemplate(organId, name)
      && (forall s :: (s in t'.templateShifts && t'.templateShifts[s].templateId == t'.lastTemplateId) <==>
            t.lastTemplateShiftId < s <= t'.lastTemplateShiftId)
      && (forall k :: 0 <= k < |names| ==>
            t.lastTemplateShiftId + k + 1 in t'.templateShifts &&
            t'.templateShifts[t.lastTemplateShiftId + k + 1].shiftName == names[k])
      && (forall s :: s in t.templateShifts ==> s in t'.templateShifts && t'.templateShifts[s] == t.templateShifts[s])
  {
    var id := t.lastTemplateId + 1;
    var base := t.lastTemplateShiftId;
    WithTemplateShiftsContents(t.templateShifts, names, id, base);
    var w := WithTemplateShifts(t.templateShifts, names, id, base);
    forall s | base < s <= base + |names|
      ensures s in w && w[s].templateId == id
    {
      var k := s - base - 1;
      assert w[base + k + 1] == RosterTemplateShift(id, names[k], None);
    }
  }

  /** Creates a template of an existing organ with one shift per given name,
      in order. A missing organ and an empty shift list are refused. */
  method CreateRosterTemplate(db: Db, req: TemplateCreateRequest) returns (r: Result<nat>)
    requires db.Valid()
    modifies db
    ensures db.Valid()
    ensures req.organId !in old(db.t.people.organs) ==> r == Err(NotFound("organ")) && db.t == old(db.t)
    ensures req.organId in old(db.t.people.organs) && req.shifts == [] ==> r == Err(NoShifts) && db.t == old(db.t)
    ensures r.Ok? <==> req.organId in old(db.t.people.organs) && req.shifts != []
    ensures r.Ok? ==>
      && r.value == old(db.t.template.lastTemplateId) + 1
      && db.t == old(db.t).(template := TemplateCreated(old(db.t.template), req.organId, req.name, req.shifts))
  {
    var t := db.t;
    if req.organId !in t.people.organs {
      return Err(NotFound("organ"));
    }
    if |req.shifts| == 0 {
      return Err(NoShifts);
    }
    var id := t.template.lastTemplateId + 1;
    var tshifts := t.template.templateShifts;
    for i := 0 to |req.shifts|
      invariant tshifts == WithTemplateShifts(t.template.templateShifts, req.shifts[..i], id, t.template.lastTemplateShiftId)
    {
      tshifts := tshifts[t.template.lastTemplateShiftId + i + 1 := RosterTemplateShift(id, req.shifts[i], None)];
      assert req.shifts[..i + 1][..i] == req.shifts[..i];
    }
    assert req.shifts[..|req.shifts|] == req.shifts;
    TemplateCreatedValid(t.template, req.organId, req.name, req.shifts);
    db.t := t.(template := t.template.(templates := t.template.templates[id := RosterTemplate(req.organId, req.name)],
                                       templateShifts := tshifts,
                                       lastTemplateId := id,
                                       lastTemplateShiftId := t.template.lastTemplateShiftId + |req.shifts|));
    r := Ok(id);
  }

  // ----- reading templates ------------------------------------------------------

  /** Template `id` with its shifts in id order (`Preload("Shifts")`). */
  function GetRosterTemplate(db: Db, id: nat): (r: Result<(RosterTemplate, seq<nat>)>)
    reads db
    ensures id !in db.t.template.templates <==> r == Err(NotFound("roster template"))
    ensures r.Ok? ==>
      && r.value.0 == db.t.template.templates[id]
      && Increasing(r.value.1)
      && forall s :: s in r.value.1 <==>
           0 < s <= db.t.template.lastTemplateShiftId && s in db.t.template.templateShifts &&
           db.t.template.templateShifts[s].templateId == id
  {
    var t := db.t.template;
    if id !in t.templates then Err(NotFound("roster template"))
    else
      Ok((t.templates[id],
          Select(t.templateShifts, t.lastTemplateShiftId, (_: nat, s: RosterTemplateShift) => s.templateId == id)))
  }

  /** The templates, of one organ when `organId` is given, in id order. */
  function GetRosterTemplates(db: Db, organId: Option<nat>): (rows: seq<(nat, RosterTemplate)>)
    reads db
    requires db.Valid()
    ensures forall k :: 0 <= k < |rows| ==>
      rows[k].0 in db.t.template.templates && rows[k].1 == db.t.template.templates[rows[k].0] &&
      (organId.None? || rows[k].1.organId == organId.value)
    ensures forall k, l :: 0 <= k < l < |rows| ==> rows[k].0 < rows[l].0
    ensures forall id :: (id in db.t.template.templates &&
        (organId.None? || db.t.template.templates[id].organId == organId.value)) ==>
      exists k :: 0 <= k < |rows| && rows[k].0 == id
  {
    var t := db.t.template;
    RowsOf(t.templates, Select(t.templates, t.lastTemplateId,
                               (_: nat, tm: RosterTemplate) => organId.None? || tm.organId == organId.value))
  }

  // ----- deleting a template ------------------------------------------------------

  /** The template rows after deleting template `id`: its shifts go with it,
      and the preferences on those shifts with them. */
  function WithoutTemplate(t: TemplateRows, id: nat): (t': TemplateRows)
    ensures forall k :: k in t'.templates <==> k in t.templates && k != id
    ensures forall s :: s in t'.templateShifts <==> s in t.templateShifts && t.templateShifts[s].templateId != id
    ensures forall p :: p in t'.preferences <==>
      p in t.preferences && !(t.preferences[p].rosterTemplateShiftId in t.templateShifts &&
                              t.templateShifts[t.preferences[p].rosterTemplateShiftId].templateId == id)
    ensures forall s :: s in t'.templateShifts ==> t'.templateShifts[s] == t.templateShifts[s]
    ensures forall p :: p in t'.preferences ==> t'.preferences[p] == t.preferences[p]
  {
    var gone := TemplateShiftsOf(t.templateShifts, id);
    t.(templates := t.templates - {id},
       templateShifts := map s | s in t.templateShifts && s !in gone :: t.templateShifts[s],
       preferences := PreferencesCascaded(t.preferences, gone, {}))
  }

  /** Deleting a template keeps the template tables consistent. */
  lemma WithoutTemplateValid(t: TemplateRows, id: nat)
    requires t.Valid()
    ensures WithoutTemplate(t, id).Valid()
  {
  }

  /** Deletes template `id` with what cascades from it; deleting no row is
      an error. */
  method DeleteRosterTemplate(db: Db, id: nat) returns (r: Outcome)
    requires db.Valid()
    modifies db
    ensures db.Valid()
    ensures id !in old(db.t.template.templates) ==> r == Fail(NotFound("roster template")) && db.t == old(db.t)
    ensures id in old(db.t.template.templates) ==>
      r == Pass && db.t == old(db.t).(template := WithoutTemplate(old(db.t.template), id))
  {
    if id !in db.t.template.templates {
      return Fail(NotFound("roster template"));
    }
    WithoutTemplateValid(db.t.template, id);
    db.t := db.t.(template := WithoutTemplate(db.t.template, id));
    r := Pass;
  }

  // ----- preferences ------------------------------------------------------------

  /** Stores a standing preference. The foreign keys refuse a missing
      template shift or user; the value is not checked. */
  method CreateRosterTemplateShiftPreference(db: Db, req: PreferenceCreateRequest) returns (r: Result<nat>)
    requires db.Valid()
    modifies db
    ensures db.Valid()
    ensures req.rosterTemplateShiftId !in old(db.t.template.templateShifts) ==>
      r == Err(NotFound("roster template shift")) && db.t == old(db.t)
    ensures req.rosterTemplateShiftId in old(db.t.template.templateShifts) && req.userId !in old(db.t.people.users) ==>
      r == Err(NotFound("user")) && db.t == old(db.t)
    ensures r.Ok? <==> req.rosterTemplateShiftId in old(db.t.template.templateShifts) && req.userId in old(db.t.people.users)
    ensures r.Ok? ==>
      var t := old(db.t.template);
      && r.value == t.lastPreferenceId + 1
      && db.t == old(db.t).(template := t.(preferences := t.preferences[r.value := Preference(req.rosterTemplateShiftId, req.userId, req.preference)],
                                           lastPreferenceId := r.value))
  {
    var t := db.t;
    if req.rosterTemplateShiftId !in t.template.templateShifts {
      return Err(NotFound("roster template shift"));
    }
    if req.userId !in t.people.users {
      return Err(NotFound("user"));
    }
    var id := t.template.lastPreferenceId + 1;
    var pref := Preference(req.rosterTemplateShiftId, req.userId, req.preference);
    db.t := t.(template := t.template.(preferences := t.template.preferences[id := pref], lastPreferenceId := id));
    r := Ok(id);
  }

  /** The preferences of user `userId` on shifts of template `templateId`,
      in id order. */
  function GetRosterTemplateShiftPreferences(db: Db, userId: nat, templateId: nat): (rows: seq<(nat, Preference)>)
    reads db
    requires db.Valid()
    ensures forall k :: 0 <= k < |rows| ==>
      var p := rows[k].1;
      && rows[k].0 in db.t.template.preferences && p == db.t.template.preferences[rows[k].0]
      && p.userId == userId && db.t.template.templateShifts[p.rosterTemplateShiftId].templateId == templateId
    ensures forall k, l :: 0 <= k < l < |rows| ==> rows[k].0 < rows[l].0
    ensures forall id :: (id in db.t.template.preferences && db.t.template.preferences[id].userId == userId &&
        db.t.template.templateShifts[db.t.template.preferences[id].rosterTemplateShiftId].templateId == templateId) ==>
      exists k :: 0 <= k < |rows| && rows[k].0 == id
  {
    var t := db.t.template;
    RowsOf(t.preferences, Select(t.preferences, t.lastPreferenceId, (_: nat, p: Preference) =>
      p.userId == userId && p.rosterTemplateShiftId in t.templateShifts &&
      t.templateShifts[p.rosterTemplateShiftId].templateId == templateId))
  }

  /** Sets the value of preference `id`; an update by map writes the empty
      string too. */
  method UpdateRosterTemplateShiftPreference(db: Db, id: nat, preference: string) returns (r: Result<Preference>)
    requires db.Valid()
    modifies db
    ensures db.Valid()
    ensures id !in old(db.t.template.preferences) ==> r == Err(NotFound("preference")) && db.t == old(db.t)
    ensures id in old(db.t.template.preferences) ==>
      && r == Ok(old(db.t.template.preferences[id]).(preference := preference))
      && db.t == old(db.t).(template := old(db.t.template).(preferences := old(db.t.template.preferences)[id := r.value]))
  {
    var t := db.t;
    if id !in t.template.preferences {
      return Err(NotFound("preference"));
    }
    var pref := t.template.preferences[id].(preference := preference);
    db.t := t.(template := t.template.(preferences := t.template.preferences[id := pref]));
    r := Ok(pref);
  }
}
