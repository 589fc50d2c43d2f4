/** Finalisation of the current roster service (internal/roster/service.go):
    `SaveRoster` creates the missing saved shifts, `UpdateSavedShift`
    replaces the members assigned to one, and `GetSavedRoster` lists a
    roster's saved shifts with, for each, the organ's members ranked by the
    fairness query. */
module SavedRoster {
  import opened Common
  import opened Models
  import opened Store
  import opened Fairness

  // ----- saving a roster ----------------------------------------------------

  /** The saved shifts after the loop of `SaveRoster` went over `shiftIds`:
      each shift without a saved shift of roster `rosterId` gets an empty one
      under the next id. Paired with the last id handed out. */
  function AddMissing(saved: map<nat, SavedShift>, last: nat, rosterId: nat, shiftIds: seq<nat>): (map<nat, SavedShift>, nat)
  {
    if shiftIds == [] then (saved, last)
    else
      var (s, l) := AddMissing(saved, last, rosterId, shiftIds[..|shiftIds| - 1]);
      var shiftId := shiftIds[|shiftIds| - 1];
      if HasSavedShift(s, rosterId, shiftId) then (s, l)
      else (s[l + 1 := SavedShift(rosterId, shiftId, {})], l + 1)
  }

  /** The saved shifts there before are kept as they were, users included;
      every new one is an empty saved shift of the roster for one of the
      shifts, under an id after `last`. */
  lemma {:induction false} AddMissingKeeps(saved: map<nat, SavedShift>, last: nat, rosterId: nat, shiftIds: seq<nat>)
    requires IdsUpTo(saved, last)
    ensures last <= AddMissing(saved, last, rosterId, shiftIds).1
    ensures IdsUpTo(AddMissing(saved, last, rosterId, shiftIds).0, AddMissing(saved, last, rosterId, shiftIds).1)
    ensures forall ss :: ss in saved ==>
      ss in AddMissing(saved, last, rosterId, shiftIds).0 && AddMissing(saved, last, rosterId, shiftIds).0[ss] == saved[ss]
    ensures forall ss :: ss in AddMissing(saved, last, rosterId, shiftIds).0 && ss !in saved ==>
      last < ss &&
      AddMissing(saved, last, rosterId, shiftIds).0[ss].rosterId == rosterId &&
      AddMissing(saved, last, rosterId, shiftIds).0[ss].users == {} &&
      AddMissing(saved, last, rosterId, shiftIds).0[ss].rosterShiftId in shiftIds
  {
    if shiftIds != [] {
      var init := shiftIds[..|shiftIds| - 1];
      AddMissingKeeps(saved, last, rosterId, init);
      assert forall id :: id in init ==> id in shiftIds;
    }
  }

  /** Afterwards every one of the shifts has a saved shift of the roster. */
  lemma {:induction false} AddMissingCovers(saved: map<nat, SavedShift>, last: nat, rosterId: nat, shiftIds: seq<nat>)
    requires IdsUpTo(saved, last)
    ensures forall id :: id in shiftIds ==> HasSavedShift(AddMissing(saved, last, rosterId, shiftIds).0, rosterId, id)
  {
    if shiftIds != [] {
      var init := shiftIds[..|shiftIds| - 1];
      AddMissingCovers(saved, last, rosterId, init);
      AddMissingKeeps(saved, last, rosterId, init);
      var p := AddMissing(saved, last, rosterId, init);
      var shiftId := shiftIds[|shiftIds| - 1];
      if !HasSavedShift(p.0, rosterId, shiftId) {
        var v := SavedShift(rosterId, shiftId, {});
        forall id | id in shiftIds
          ensures HasSavedShift(p.0[p.1 + 1 := v], rosterId, id)
        {
          if id == shiftId {
            assert p.0[p.1 + 1 := v][p.1 + 1] == v;
          } else {
            assert id in init;
            HasSavedShiftKept(p.0, p.1 + 1, v, rosterId, id);
          }
        }
      } else {
        assert forall id :: id in shiftIds ==> id in init || id == shiftId;
      }
    }
  }

  /** A new row does not take a saved shift away. */
  lemma HasSavedShiftKept(saved: map<nat, SavedShift>, k: nat, v: SavedShift, rosterId: nat, shiftId: nat)
    requires k !in saved && HasSavedShift(saved, rosterId, shiftId)
    ensures HasSavedShift(saved[k := v], rosterId, shiftId)
  {
    var ss :| ss in saved && saved[ss].rosterId == rosterId && saved[ss].rosterShiftId == shiftId;
    assert saved[k := v][ss] == saved[ss];
  }

  /** When every shift already has a saved shift, nothing is added: the
      second `SaveRoster` of a roster creates no rows. */
  lemma {:induction false} AddMissingNothing(saved: map<nat, SavedShift>, last: nat, rosterId: nat, shiftIds: seq<nat>)
    requires forall id :: id in shiftIds ==> HasSavedShift(saved, rosterId, id)
    ensures AddMissing(saved, last, rosterId, shiftIds) == (saved, last)
  {
    if shiftIds != [] {
      var init := shiftIds[..|shiftIds| - 1];
      assert forall id :: id in init ==> id in shiftIds;
      AddMissingNothing(saved, last, rosterId, init);
    }
  }

  /** Adding saved shifts only where the shift has none, for shifts of the
      roster, keeps the roster tables consistent: still one saved shift per
      shift at most. */
  lemma {:induction false} AddMissingConsistent(rows: RosterRows, rosterId: nat, shiftIds: seq<nat>,
                                                saved: map<nat, SavedShift>, last: nat)
    requires RosterTables(rows.rosters, rows.shifts, rows.answers, saved) && IdsUpTo(saved, last)
    requires forall id :: id in shiftIds ==> id in rows.shifts && rows.shifts[id].rosterId == rosterId
    ensures RosterTables(rows.rosters, rows.shifts, rows.answers, AddMissing(saved, last, rosterId, shiftIds).0)
  {
    if shiftIds != [] {
      var init := shiftIds[..|shiftIds| - 1];
      assert forall id :: id in init ==> id in shiftIds;
      AddMissingConsistent(rows, rosterId, init, saved, last);
      AddMissingKeeps(saved, last, rosterId, init);
      var p := AddMissing(saved, last, rosterId, init);
      var shiftId := shiftIds[|shiftIds| - 1];
      if !HasSavedShift(p.0, rosterId, shiftId) {
        SavedShiftAdded(rows.rosters, rows.shifts, rows.answers, p.0, p.1 + 1, SavedShift(rosterId, shiftId, {}));
      }
    }
  }

  /** An empty saved shift for a shift of its roster that has none yet keeps
      the roster tables consistent. */
  lemma SavedShiftAdded(rosters: map<nat, Roster>, shifts: map<nat, RosterShift>, answers: map<nat, RosterAnswer>,
                        saved: map<nat, SavedShift>, id: nat, ss: SavedShift)
    requires RosterTables(rosters, shifts, answers, saved) && id !in saved
    requires ss.rosterShiftId in shifts && shifts[ss.rosterShiftId].rosterId == ss.rosterId
    requires !HasSavedShift(saved, ss.rosterId, ss.rosterShiftId)
    ensures RosterTables(rosters, shifts, answers, saved[id := ss])
  {
    var saved' := saved[id := ss];
    forall i, j | i in saved' && j in saved' && i != j
      ensures saved'[i].rosterShiftId != saved'[j].rosterShiftId
    {
      if i == id {
        assert saved[j].rosterId == shifts[saved[j].rosterShiftId].rosterId;
      } else if j == id {
        assert saved[i].rosterId == shifts[saved[i].rosterShiftId].rosterId;
      }
    }
  }

  /** The roster rows after `SaveRoster(id)`: the missing saved shifts of the
      roster's shifts added, and the roster marked saved. */
  function SavedRows(r: RosterRows, id: nat): (r': RosterRows)
    requires id in r.rosters
  {
    var (saved, last) := AddMissing(r.savedShifts, r.lastSavedShiftId, id, ShiftIdsOf(r.shifts, id, r.lastShiftId));
    r.(rosters := r.rosters[id := r.rosters[id].(saved := true)], savedShifts := saved, lastSavedShiftId := last)
  }

  /** Saving keeps the tables consistent, leaves every shift of the roster
      with a saved shift and every earlier saved shift as it was. */
  lemma SavedRowsValid(r: RosterRows, id: nat)
    requires r.Valid() && id in r.rosters
    ensures SavedRows(r, id).Valid()
    ensures SavedRows(r, id).rosters[id].saved
    ensures forall s :: s in r.shifts && r.shifts[s].rosterId == id ==> HasSavedShift(SavedRows(r, id).savedShifts, id, s)
    ensures forall ss :: ss in r.savedShifts ==> ss in SavedRows(r, id).savedShifts && SavedRows(r, id).savedShifts[ss] == r.savedShifts[ss]
  {
    var shiftIds := ShiftIdsOf(r.shifts, id, r.lastShiftId);
    AddMissingKeeps(r.savedShifts, r.lastSavedShiftId, id, shiftIds);
    AddMissingCovers(r.savedShifts, r.lastSavedShiftId, id, shiftIds);
    AddMissingConsistent(r, id, shiftIds, r.savedShifts, r.lastSavedShiftId);
    var r' := SavedRows(r, id);
    RosterAdded(r.rosters, r.shifts, r.answers, r'.savedShifts, id, r'.rosters[id]);
  }

  /** Saving twice is saving once. */
  lemma SaveIdempotent(r: RosterRows, id: nat)
    requires r.Valid() && id in r.rosters
    ensures SavedRows(SavedRows(r, id), id) == SavedRows(r, id)
  {
    SavedRowsValid(r, id);
    var r' := SavedRows(r, id);
    var shiftIds := ShiftIdsOf(r'.shifts, id, r'.lastShiftId);
    AddMissingNothing(r'.savedShifts, r'.lastSavedShiftId, id, shiftIds);
    assert r'.rosters[id := r'.rosters[id].(saved := true)] == r'.rosters;
  }

  /** Finalises roster `id`: every shift of it that has no saved shift gets
      an empty one, in shift order, and the roster is marked saved. */
  method SaveRoster(db: Db, id: nat) returns (r: Outcome)
    requires db.Valid()
    modifies db
    ensures db.Valid()
    ensures id !in old(db.t.roster.rosters) ==> r == Fail(NotFound("roster")) && db.t == old(db.t)
    ensures id in old(db.t.roster.rosters) ==> r == Pass && db.t == old(db.t).(roster := SavedRows(old(db.t.roster), id))
  {
    var t := db.t;
    if id !in t.roster.rosters {
      return Fail(NotFound("roster"));
    }
    var rows := t.roster;
    var shiftIds := ShiftIdsOf(rows.shifts, id, rows.lastShiftId);
    var saved, last := rows.savedShifts, rows.lastSavedShiftId;
    for i := 0 to |shiftIds|
      invariant (saved, last) == AddMissing(rows.savedShifts, rows.lastSavedShiftId, id, shiftIds[..i])
    {
      assert shiftIds[..i + 1][..i] == shiftIds[..i];
      if !HasSavedShift(saved, id, shiftIds[i]) {
        saved := saved[last + 1 := SavedShift(id, shiftIds[i], {})];
        last := last + 1;
      }
    }
    assert shiftIds[..|shiftIds|] == shiftIds;
    SavedRowsValid(rows, id);
    db.t := t.(roster := rows.(rosters := rows.rosters[id := rows.rosters[id].(saved := true)],
                               savedShifts := saved, lastSavedShiftId := last));
    r := Pass;
  }

  // ----- assigning members to a saved shift ----------------------------------

  /** The users among `ids` that exist; unknown ids are dropped. */
  function KnownUsers(users: map<nat, User>, ids: seq<nat>): (known: set<nat>)
    ensures forall u :: u in known <==> u in ids && u in users
  {
    set u | u in ids && u in users
  }

  /** Replaces the members of saved shift `id` by the existing users among
      `userIds`; without a list nothing changes. */
  method UpdateSavedShift(db: Db, id: nat, userIds: Option<seq<nat>>) returns (r: Result<SavedShift>)
    requires db.Valid()
    modifies db
    ensures db.Valid()
    ensures id !in old(db.t.roster.savedShifts) ==> r == Err(NotFound("saved shift")) && db.t == old(db.t)
    ensures id in old(db.t.roster.savedShifts) && userIds.None? ==>
      r == Ok(old(db.t.roster.savedShifts[id])) && db.t == old(db.t)
    ensures id in old(db.t.roster.savedShifts) && userIds.Some? ==>
      && r == Ok(old(db.t.roster.savedShifts[id]).(users := KnownUsers(old(db.t.people.users), userIds.value)))
      && db.t == old(db.t).(roster := old(db.t.roster).(savedShifts := old(db.t.roster.savedShifts)[id := r.value]))
  {
    var t := db.t;
    if id !in t.roster.savedShifts {
      return Err(NotFound("saved shift"));
    }
    var ss := t.roster.savedShifts[id];
    if userIds.Some? {
      ss := ss.(users := KnownUsers(t.people.users, userIds.value));
      var saved := t.roster.savedShifts[id := ss];
      assert RosterTables(t.roster.rosters, t.roster.shifts, t.roster.answers, saved) by {
        forall i, j | i in saved && j in saved && i != j
          ensures saved[i].rosterShiftId != saved[j].rosterShiftId
        {
          assert saved[i].rosterShiftId == t.roster.savedShifts[i].rosterShiftId;
          assert saved[j].rosterShiftId == t.roster.savedShifts[j].rosterShiftId;
        }
      }
      db.t := t.(roster := t.roster.(savedShifts := saved));
    }
    r := Ok(ss);
  }

  // ----- the fairness ordering -----------------------------------------------

  /** The saved shifts the fairness query can join to a shift row, in id
      order. Both schemas share this join; `shifts` is the schema's shift
      table. */
  function JoinableSaved<S>(saved: map<nat, SavedShift>, shifts: map<nat, S>, last: nat): (ids: seq<nat>)
    ensures forall ss :: ss in ids <==> 0 < ss <= last && ss in saved && saved[ss].rosterShiftId in shifts
  {
    Select(saved, last, (_: nat, s: SavedShift) => s.rosterShiftId in shifts)
  }

  /** Saved shift `ss` as the query sees it: its shift's name, its roster's
      date (none when the roster row is missing) and its members. */
  function PastOf<S, R>(saved: map<nat, SavedShift>, shifts: map<nat, S>, rosters: map<nat, R>,
                        nameOf: S -> string, dateOf: R -> int, ss: nat): (p: Past)
    requires ss in saved && saved[ss].rosterShiftId in shifts
    ensures p.shiftName == nameOf(shifts[saved[ss].rosterShiftId]) && p.users == saved[ss].users
    ensures p.date.Some? <==> saved[ss].rosterId in rosters
    ensures p.date.Some? ==> p.date.value == dateOf(rosters[saved[ss].rosterId])
  {
    var s := saved[ss];
    Past(nameOf(shifts[s.rosterShiftId]), if s.rosterId in rosters then Some(dateOf(rosters[s.rosterId])) else None, s.users)
  }

  /** Every saved shift of every roster, as the query joins them. */
  function HistoryOf<S, R>(saved: map<nat, SavedShift>, shifts: map<nat, S>, rosters: map<nat, R>,
                           nameOf: S -> string, dateOf: R -> int, last: nat): (h: seq<Past>)
    ensures |h| == |JoinableSaved(saved, shifts, last)|
    ensures forall k :: 0 <= k < |h| ==>
      h[k] == PastOf(saved, shifts, rosters, nameOf, dateOf, JoinableSaved(saved, shifts, last)[k])
  {
    var ids := JoinableSaved(saved, shifts, last);
    seq(|ids|, k requires 0 <= k < |ids| => PastOf(saved, shifts, rosters, nameOf, dateOf, ids[k]))
  }

  function ShiftName(s: RosterShift): string { s.name }

  function RosterDate(r: Roster): int { r.date.instant }

  /** The fairness history of the current schema. */
  function History(r: RosterRows): seq<Past>
  {
    HistoryOf(r.savedShifts, r.shifts, r.rosters, ShiftName, RosterDate, r.lastSavedShiftId)
  }

  /** The key the query sorts member `u` by is the date of the latest
      roster with a saved shift called `name` that includes `u`, in any
      roster, and there is none exactly when no such saved shift exists. */
  lemma LastAssignedIsLatestSaved(r: RosterRows, u: nat, name: string)
    requires r.Valid()
    ensures LastAssigned(History(r), u, name).None? <==>
      forall ss :: (ss in r.savedShifts && u in r.savedShifts[ss].users &&
                    r.shifts[r.savedShifts[ss].rosterShiftId].name == name) ==> r.savedShifts[ss].rosterId !in r.rosters
    ensures forall ss :: (ss in r.savedShifts && u in r.savedShifts[ss].users &&
                          r.shifts[r.savedShifts[ss].rosterShiftId].name == name && r.savedShifts[ss].rosterId in r.rosters) ==>
      LastAssigned(History(r), u, name).Some? &&
      r.rosters[r.savedShifts[ss].rosterId].date.instant <= LastAssigned(History(r), u, name).value
  {
    var h := History(r);
    var ids := JoinableSaved(r.savedShifts, r.shifts, r.lastSavedShiftId);
    forall ss | ss in r.savedShifts && u in r.savedShifts[ss].users &&
        r.shifts[r.savedShifts[ss].rosterShiftId].name == name && r.savedShifts[ss].rosterId in r.rosters
      ensures LastAssigned(h, u, name).Some? && r.rosters[r.savedShifts[ss].rosterId].date.instant <= LastAssigned(h, u, name).value
    {
      assert ss in ids;
      var k :| 0 <= k < |ids| && ids[k] == ss;
      assert Held(h[k], u, name);
    }
    if LastAssigned(h, u, name).Some? {
      var k :| 0 <= k < |h| && Held(h[k], u, name);
      assert ids[k] in ids;
    }
  }

  /** The ordering entry of saved shift `ss`: its shift name, and the members
      of its roster's organ ranked by the fairness query; empty when that
      query fails (`failing`), as the error is only logged. A missing roster
      reads as organ 0. */
  function OrderingOf(t: Tables, ss: nat, failing: set<nat>): (o: SavedShiftOrdering)
    requires ss in t.roster.savedShifts && t.roster.savedShifts[ss].rosterShiftId in t.roster.shifts
    ensures o.shiftName == t.roster.shifts[t.roster.savedShifts[ss].rosterShiftId].name
    ensures ss in failing ==> o.users == []
  {
    var s := t.roster.savedShifts[ss];
    var name := t.roster.shifts[s.rosterShiftId].name;
    var members := MembersOf(t.people.users, t.people.memberships, OrganOf(t.roster, ss), t.people.lastUserId);
    SavedShiftOrdering(name, if ss in failing then [] else Rank(History(t.roster), members, name))
  }

  /** The organ whose members are ranked for saved shift `ss`: its roster's
      organ, or 0 when the roster row is missing. */
  function OrganOf(r: RosterRows, ss: nat): nat
    requires ss in r.savedShifts
  {
    if r.savedShifts[ss].rosterId in r.rosters then r.rosters[r.savedShifts[ss].rosterId].organId else 0
  }

  /** Unless its query fails, an ordering entry lists the roster organ's
      members, each as often as the join returns them, ranked by the
      fairness key. */
  lemma OrderingRanked(t: Tables, ss: nat, failing: set<nat>)
    requires ss in t.roster.savedShifts && t.roster.savedShifts[ss].rosterShiftId in t.roster.shifts && ss !in failing
    ensures var o := OrderingOf(t, ss, failing);
      && multiset(o.users) == multiset(MembersOf(t.people.users, t.people.memberships, OrganOf(t.roster, ss), t.people.lastUserId))
      && Ranked(o.users, History(t.roster), o.shiftName)
  {
  }

  /** Each member of the organ is listed exactly once in a ranking. */
  lemma RankedOnce(t: Tables, ss: nat, failing: set<nat>, u: nat)
    requires ss in t.roster.savedShifts && t.roster.savedShifts[ss].rosterShiftId in t.roster.shifts && ss !in failing
    requires t.roster.savedShifts[ss].rosterId in t.roster.rosters
    requires u in t.people.users && (u, t.roster.rosters[t.roster.savedShifts[ss].rosterId].organId) in t.people.memberships
    requires t.people.Valid()
    ensures multiset(OrderingOf(t, ss, failing).users)[u] == 1
  {
    var organ := t.roster.rosters[t.roster.savedShifts[ss].rosterId].organId;
    var members := MembersOf(t.people.users, t.people.memberships, organ, t.people.lastUserId);
    assert u in members;
    OrderingRanked(t, ss, failing);
    MultiplicityOfIncreasing(members, u);
  }

  /** An id occurs once in a strictly increasing list that holds it. */
  lemma {:induction false} MultiplicityOfIncreasing(ids: seq<nat>, u: nat)
    requires Increasing(ids) && u in ids
    ensures multiset(ids)[u] == 1
  {
    var n := |ids|;
    var init := ids[..n - 1];
    assert ids == init + [ids[n - 1]];
    assert Increasing(init);
    if ids[n - 1] == u {
      assert u !in init;
    } else {
      assert u in init;
      MultiplicityOfIncreasing(init, u);
    }
  }

  /** The ordering loop of `GetSavedRoster`: one entry per saved shift, in
      the order given. */
  method GetSavedShiftOrdering(t: Tables, savedIds: seq<nat>, failing: set<nat>) returns (orderings: seq<SavedShiftOrdering>)
    requires forall ss :: ss in savedIds ==> ss in t.roster.savedShifts && t.roster.savedShifts[ss].rosterShiftId in t.roster.shifts
    ensures |orderings| == |savedIds|
    ensures forall k :: 0 <= k < |savedIds| ==> EntryOf(t, savedIds[k], failing, orderings[k])
  {
    orderings := [];
    for i := 0 to |savedIds|
      invariant |orderings| == i
      invariant forall k :: 0 <= k < i ==> EntryOf(t, savedIds[k], failing, orderings[k])
    {
      assert savedIds[i] in savedIds;
      var o := OrderingEntry(t, savedIds[i], failing);
      orderings := orderings + [o];
    }
  }

  /** `getSavedShiftOrdering` for one saved shift. */
  method OrderingEntry(t: Tables, ss: nat, failing: set<nat>) returns (o: SavedShiftOrdering)
    requires ss in t.roster.savedShifts && t.roster.savedShifts[ss].rosterShiftId in t.roster.shifts
    ensures EntryOf(t, ss, failing, o)
  {
    o := OrderingOf(t, ss, failing);
  }

  /** Entry `o` is the ordering of saved shift `ss`, whose shift exists. */
  predicate EntryOf(t: Tables, ss: nat, failing: set<nat>, o: SavedShiftOrdering)
  {
    && ss in t.roster.savedShifts
    && t.roster.savedShifts[ss].rosterShiftId in t.roster.shifts
    && o == OrderingOf(t, ss, failing)
  }

  /** The saved shifts of roster `id` in id order, and one ordering entry for
      each. An unknown roster has no saved shifts and gives two empty
      lists. */
  method GetSavedRoster(db: Db, id: nat, failing: set<nat>)
    returns (saved: seq<(nat, SavedShift)>, orderings: seq<SavedShiftOrdering>)
    requires db.Valid()
    ensures |saved| == |orderings|
    ensures forall k :: 0 <= k < |saved| ==>
      saved[k].0 in db.t.roster.savedShifts && saved[k].1 == db.t.roster.savedShifts[saved[k].0] &&
      saved[k].1.rosterId == id
    ensures forall k, l :: 0 <= k < l < |saved| ==> saved[k].0 < saved[l].0
    ensures forall ss :: ss in db.t.roster.savedShifts && db.t.roster.savedShifts[ss].rosterId == id ==>
      exists k :: 0 <= k < |saved| && saved[k].0 == ss
    ensures forall k :: 0 <= k < |saved| ==>
      saved[k].1.rosterShiftId in db.t.roster.shifts &&
      orderings[k] == OrderingOf(db.t, saved[k].0, failing)
  {
    var ids := SavedIdsOf(db.t.roster.savedShifts, id, db.t.roster.lastSavedShiftId);
    saved := RowsOf(db.t.roster.savedShifts, ids);
    orderings := GetSavedShiftOrdering(db.t, ids, failing);
  }
}
