/** Finalisation in the legacy roster service
    (cmd/src/pkg/services/roster_service.go): `SaveRoster` adds a saved
    shift for every shift on every call, `UpdateSavedShift` replaces the
    members of one, and `GetSavedRoster` ranks the organ's members per saved
    shift with the same fairness query as the current service. */
module LegacySavedRoster {
  import opened Common
  import opened Models
  import opened LegacyStore
  import opened Fairness
  import Store
  import SavedRoster

  // ----- saving a roster ----------------------------------------------------

  /** The saved shifts after the loop of `SaveRoster` went over `shiftIds`:
      every shift gets a new, empty saved shift of roster `rosterId`, the
      k-th under the k-th id after `last`, whether it had one or not. */
  function AddEvery(saved: map<nat, SavedShift>, last: nat, rosterId: nat, shiftIds: seq<nat>): map<nat, SavedShift>
  {
    if shiftIds == [] then saved
    else
      var n := |shiftIds|;
      AddEvery(saved, last, rosterId, shiftIds[..n - 1])[last + n := SavedShift(rosterId, shiftIds[n - 1], {})]
  }

  /** The new saved shifts take the ids after `last`, one per shift in
      order, and those there before stay as they were. */
  lemma {:induction false} AddEveryContents(saved: map<nat, SavedShift>, last: nat, rosterId: nat, shiftIds: seq<nat>)
    requires IdsUpTo(saved, last)
    ensures forall ss :: ss in AddEvery(saved, last, rosterId, shiftIds) <==> ss in saved || last < ss <= last + |shiftIds|
    ensures forall ss :: ss in saved ==> AddEvery(saved, last, rosterId, shiftIds)[ss] == saved[ss]
    ensures forall k :: 0 <= k < |shiftIds| ==>
      AddEvery(saved, last, rosterId, shiftIds)[last + k + 1] == SavedShift(rosterId, shiftIds[k], {})
  {
    if shiftIds != [] {
      var n := |shiftIds|;
      AddEveryContents(saved, last, rosterId, shiftIds[..n - 1]);
      assert forall k :: 0 <= k < n - 1 ==> shiftIds[..n - 1][k] == shiftIds[k];
    }
  }

  /** The tables after `SaveRoster(id)`: a new saved shift per shift of the
      roster, and the roster marked saved. */
  function LegacySaved(t: LegacyTables, id: nat): LegacyTables
    requires id in t.rosters
  {
    var shiftIds := LegacyShiftIdsOf(t.shifts, id, t.lastShiftId);
    t.(rosters := t.rosters[id := t.rosters[id].(saved := true)],
       savedShifts := AddEvery(t.savedShifts, t.lastSavedShiftId, id, shiftIds),
       lastSavedShiftId := t.lastSavedShiftId + |shiftIds|)
  }

  /** Saving keeps the legacy tables consistent. */
  lemma LegacySavedValid(t: LegacyTables, id: nat)
    requires t.Valid() && id in t.rosters
    ensures LegacySaved(t, id).Valid()
  {
    AddEveryContents(t.savedShifts, t.lastSavedShiftId, id, LegacyShiftIdsOf(t.shifts, id, t.lastShiftId));
  }

  /** Running the loop twice over the same shifts gives the k-th shift two
      saved shifts, k places apart from each other by the number of shifts. */
  lemma AddEveryTwice(saved: map<nat, SavedShift>, last: nat, rosterId: nat, shiftIds: seq<nat>, k: nat)
    requires IdsUpTo(saved, last) && k < |shiftIds|
    ensures var s2 := AddEvery(AddEvery(saved, last, rosterId, shiftIds), last + |shiftIds|, rosterId, shiftIds);
      && last + k + 1 in s2 && s2[last + k + 1] == SavedShift(rosterId, shiftIds[k], {})
      && last + |shiftIds| + k + 1 in s2 && s2[last + |shiftIds| + k + 1] == SavedShift(rosterId, shiftIds[k], {})
  {
    var s1 := AddEvery(saved, last, rosterId, shiftIds);
    AddEveryContents(saved, last, rosterId, shiftIds);
    assert IdsUpTo(s1, last + |shiftIds|);
    AddEveryContents(s1, last + |shiftIds|, rosterId, shiftIds);
  }

  /** What saving changes besides the roster's flag: only the saved shifts
      and their counter. */
  lemma LegacySavedParts(t: LegacyTables, id: nat)
    requires id in t.rosters
    ensures var t' := LegacySaved(t, id);
      && t'.shifts == t.shifts && t'.lastShiftId == t.lastShiftId && id in t'.rosters
      && t'.savedShifts == AddEvery(t.savedShifts, t.lastSavedShiftId, id, LegacyShiftIdsOf(t.shifts, id, t.lastShiftId))
      && t'.lastSavedShiftId == t.lastSavedShiftId + |LegacyShiftIdsOf(t.shifts, id, t.lastShiftId)|
  {
  }

  /** Saving twice gives the k-th shift of the roster two saved shifts,
      both empty, one from each call: unlike the current service, the legacy
      one is not idempotent. */
  lemma SaveTwiceDuplicates(t: LegacyTables, id: nat, k: nat)
    requires IdsUpTo(t.savedShifts, t.lastSavedShiftId)
    requires id in t.rosters && k < |LegacyShiftIdsOf(t.shifts, id, t.lastShiftId)|
    ensures var ids := LegacyShiftIdsOf(t.shifts, id, t.lastShiftId);
      var t2 := LegacySaved(LegacySaved(t, id), id);
      var first := t.lastSavedShiftId + k + 1;
      var second := t.lastSavedShiftId + |ids| + k + 1;
      && first in t2.savedShifts && second in t2.savedShifts
      && t2.savedShifts[first] == SavedShift(id, ids[k], {})
      && t2.savedShifts[second] == SavedShift(id, ids[k], {})
  {
    LegacySavedParts(t, id);
    LegacySavedParts(LegacySaved(t, id), id);
    AddEveryTwice(t.savedShifts, t.lastSavedShiftId, id, LegacyShiftIdsOf(t.shifts, id, t.lastShiftId), k);
  }

  /** Adds an empty saved shift for every shift of roster `id`, in shift id
      order, and marks the roster saved; an unknown roster is not found. */
  method SaveRoster(db: LegacyDb, id: nat) returns (r: Outcome)
    requires db.Valid()
    modifies db
    ensures db.Valid()
    ensures id !in old(db.t.rosters) ==> r == Fail(NotFound("roster")) && db.t == old(db.t)
    ensures id in old(db.t.rosters) ==> r == Pass && db.t == LegacySaved(old(db.t), id)
  {
    var t := db.t;
    if id !in t.rosters {
      return Fail(NotFound("roster"));
    }
    var shiftIds := LegacyShiftIdsOf(t.shifts, id, t.lastShiftId);
    var saved := t.savedShifts;
    for i := 0 to |shiftIds|
      invariant saved == AddEvery(t.savedShifts, t.lastSavedShiftId, id, shiftIds[..i])
    {
      saved := saved[t.lastSavedShiftId + i + 1 := SavedShift(id, shiftIds[i], {})];
      assert shiftIds[..i + 1][..i] == shiftIds[..i];
    }
    assert shiftIds[..|shiftIds|] == shiftIds;
    LegacySavedValid(t, id);
    db.t := t.(rosters := t.rosters[id := t.rosters[id].(saved := true)],
               savedShifts := saved, lastSavedShiftId := t.lastSavedShiftId + |shiftIds|);
    r := Pass;
  }

  // ----- assigning members --------------------------------------------------------

  /** Replaces the members of saved shift `id` by the existing users among
      `userIds` (`SavedRoster.KnownUsers`); without a list nothing changes. */
  method UpdateSavedShift(db: LegacyDb, id: nat, userIds: Option<seq<nat>>) returns (r: Result<SavedShift>)
    requires db.Valid()
    modifies db
    ensures db.Valid()
    ensures id !in old(db.t.savedShifts) ==> r == Err(NotFound("saved shift")) && db.t == old(db.t)
    ensures id in old(db.t.savedShifts) && userIds.None? ==> r == Ok(old(db.t.savedShifts[id])) && db.t == old(db.t)
    ensures id in old(db.t.savedShifts) && userIds.Some? ==>
      && r == Ok(old(db.t.savedShifts[id]).(users := SavedRoster.KnownUsers(old(db.t.users), userIds.value)))
      && db.t == old(db.t).(savedShifts := old(db.t.savedShifts)[id := r.value])
  {
    if id !in db.t.savedShifts {
      return Err(NotFound("saved shift"));
    }
    var ss := db.t.savedShifts[id];
    if userIds.Some? {
      ss := ss.(users := SavedRoster.KnownUsers(db.t.users, userIds.value));
      db.t := db.t.(savedShifts := db.t.savedShifts[id := ss]);
    }
    r := Ok(ss);
  }

  // ----- the saved roster and its orderings ------------------------------------------

  function LegacyShiftName(s: LegacyShift): string { s.name }

  function LegacyRosterDate(r: LegacyRoster): int { r.date }

  /** The fairness history of the legacy schema: the same join as the
      current one, over the legacy tables. */
  function LegacyHistory(t: LegacyTables): seq<Past>
  {
    SavedRoster.HistoryOf(t.savedShifts, t.shifts, t.rosters, LegacyShiftName, LegacyRosterDate, t.lastSavedShiftId)
  }

  /** The ordering entry of saved shift `ss`: its shift's name and the
      members of its roster's organ (organ 0 once the roster is gone) ranked
      by the fairness query, or an empty list when the query fails. */
  function LegacyOrderingOf(t: LegacyTables, ss: nat, failing: set<nat>): (o: SavedShiftOrdering)
    requires ss in t.savedShifts && t.savedShifts[ss].rosterShiftId in t.shifts
    ensures o.shiftName == t.shifts[t.savedShifts[ss].rosterShiftId].name
    ensures ss in failing ==> o.users == []
    ensures ss !in failing ==>
      var organ := if t.savedShifts[ss].rosterId in t.rosters then t.rosters[t.savedShifts[ss].rosterId].organId else 0;
      && multiset(o.users) == multiset(Store.MembersOf(t.users, t.memberships, organ, t.lastUserId))
      && Ranked(o.users, LegacyHistory(t), o.shiftName)
  {
    var s := t.savedShifts[ss];
    var name := t.shifts[s.rosterShiftId].name;
    var organ := if s.rosterId in t.rosters then t.rosters[s.rosterId].organId else 0;
    var members := Store.MembersOf(t.users, t.memberships, organ, t.lastUserId);
    SavedShiftOrdering(name, if ss in failing then [] else Rank(LegacyHistory(t), members, name))
  }

  /** Whether one of the saved shifts `savedIds` lost its shift row. */
  predicate SomeShiftGone(t: LegacyTables, savedIds: seq<nat>)
    requires forall ss :: ss in savedIds ==> ss in t.savedShifts
  {
    exists k :: 0 <= k < |savedIds| && t.savedShifts[savedIds[k]].rosterShiftId !in t.shifts
  }

  /** The ordering loop: one entry per saved shift in the order given. A
      saved shift whose shift was deleted has no preloaded shift, and reading
      its name fails. */
  method LegacyGetSavedShiftOrdering(db: LegacyDb, savedIds: seq<nat>, failing: set<nat>)
    returns (r: Result<seq<SavedShiftOrdering>>)
    requires db.Valid()
    requires forall ss :: ss in savedIds ==> ss in db.t.savedShifts
    ensures r.Err? <==> SomeShiftGone(db.t, savedIds)
    ensures r.Err? ==> r.error == NilShift
    ensures r.Ok? ==> |r.value| == |savedIds| && forall k :: 0 <= k < |savedIds| ==>
      db.t.savedShifts[savedIds[k]].rosterShiftId in db.t.shifts &&
      r.value[k] == LegacyOrderingOf(db.t, savedIds[k], failing)
  {
    var orderings := [];
    for i := 0 to |savedIds|
      invariant |orderings| == i
      invariant forall k :: 0 <= k < i ==>
        db.t.savedShifts[savedIds[k]].rosterShiftId in db.t.shifts &&
        orderings[k] == LegacyOrderingOf(db.t, savedIds[k], failing)
    {
      assert savedIds[i] in savedIds;
      if db.t.savedShifts[savedIds[i]].rosterShiftId !in db.t.shifts {
        return Err(NilShift);
      }
      orderings := orderings + [LegacyOrderingOf(db.t, savedIds[i], failing)];
    }
    r := Ok(orderings);
  }

  /** The saved shifts of roster `id` in id order, and one ordering entry for
      each; fails when one of them lost its shift. */
  method GetSavedRoster(db: LegacyDb, id: nat, failing: set<nat>)
    returns (r: Result<(seq<(nat, SavedShift)>, seq<SavedShiftOrdering>)>)
    requires db.Valid()
    ensures r.Err? ==> (
      && r.error == NilShift
      && exists ss :: ss in db.t.savedShifts && db.t.savedShifts[ss].rosterId == id &&
           db.t.savedShifts[ss].rosterShiftId !in db.t.shifts)
    ensures r.Ok? ==>
      var (saved, orderings) := r.value;
      && |saved| == |orderings|
      && (forall k :: 0 <= k < |saved| ==>
            saved[k].0 in db.t.savedShifts && saved[k].1 == db.t.savedShifts[saved[k].0] && saved[k].1.rosterId == id)
      && (forall k, l :: 0 <= k < l < |saved| ==> saved[k].0 < saved[l].0)
      && (forall ss :: ss in db.t.savedShifts && db.t.savedShifts[ss].rosterId == id ==>
            exists k :: 0 <= k < |saved| && saved[k].0 == ss)
      && (forall k :: 0 <= k < |saved| ==>
            saved[k].1.rosterShiftId in db.t.shifts && orderings[k] == LegacyOrderingOf(db.t, saved[k].0, failing))
  {
    var ids := Store.SavedIdsOf(db.t.savedShifts, id, db.t.lastSavedShiftId);
    var saved := RowsOf(db.t.savedShifts, ids);
    var orderings := LegacyGetSavedShiftOrdering(db, ids, failing);
    if orderings.Err? {
      var k :| 0 <= k < |ids| && db.t.savedShifts[ids[k]].rosterShiftId !in db.t.shifts;
      assert ids[k] in ids;
      return Err(NilShift);
    }
    r := Ok((saved, orderings.value));
  }
}
