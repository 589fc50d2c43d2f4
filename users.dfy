/** The current user service (internal/user/service.go): creating users with
    their organ memberships, listing them by filters, and deleting them. */
module UserService {
  import opened Common
  import opened Models
  import opened Store

  datatype CreateRequest = CreateRequest(name: string, gewisId: nat, organIds: seq<nat>)

  datatype FilterParams = FilterParams(id: Option<nat>, gewisId: Option<nat>, organId: Option<nat>)

  // ----- creating a user ----------------------------------------------------

  /** `memberships` with user `userId` joined to each organ of `organIds`
      under an empty username; joining an organ twice adds nothing. */
  function Joined(memberships: map<(nat, nat), UserOrgan>, userId: nat, organIds: seq<nat>): map<(nat, nat), UserOrgan>
  {
    if organIds == [] then memberships
    else
      var n := |organIds|;
      Joined(memberships, userId, organIds[..n - 1])[(userId, organIds[n - 1]) := UserOrgan("")]
  }

  /** The join rows of the new user are exactly one per listed organ, each
      with an empty username; other users' rows stay. */
  lemma {:induction false} JoinedContents(memberships: map<(nat, nat), UserOrgan>, userId: nat, organIds: seq<nat>)
    requires forall k :: k in memberships ==> k.0 != userId
    ensures forall k :: k in Joined(memberships, userId, organIds) <==>
      k in memberships || (k.0 == userId && k.1 in organIds)
    ensures forall k :: k in memberships ==> Joined(memberships, userId, organIds)[k] == memberships[k]
    ensures forall o :: o in organIds ==> Joined(memberships, userId, organIds)[(userId, o)] == UserOrgan("")
  {
    if organIds != [] {
      var n := |organIds|;
      JoinedContents(memberships, userId, organIds[..n - 1]);
      assert organIds == organIds[..n - 1] + [organIds[n - 1]];
    }
  }

  /** Whether a user already holds `gewisId` (the `GEWISID` unique index). */
  predicate GewisIdTaken(users: map<nat, User>, gewisId: nat)
  {
    exists u :: u in users && users[u].gewisId == gewisId
  }

  /** The people tables after creating user `req.name` under the next id. */
  function UserCreated(p: PeopleRows, req: CreateRequest): PeopleRows
  {
    var id := p.lastUserId + 1;
    p.(users := p.users[id := User(req.name, req.gewisId)],
       memberships := Joined(p.memberships, id, req.organIds),
       lastUserId := id)
  }

  /** A new user with a free GEWIS id keeps the people tables consistent. */
  lemma UserCreatedValid(p: PeopleRows, req: CreateRequest)
    requires p.Valid() && !GewisIdTaken(p.users, req.gewisId)
    ensures UserCreated(p, req).Valid()
  {
    JoinedContents(p.memberships, p.lastUserId + 1, req.organIds);
  }

  /** After creating a user, the members of each organ are the members before
      plus the new user for exactly the listed organs. */
  lemma UserCreatedMembers(p: PeopleRows, req: CreateRequest, organId: nat)
    requires p.Valid()
    ensures var p' := UserCreated(p, req);
      forall u :: u in MembersOf(p'.users, p'.memberships, organId, p'.lastUserId) <==>
        u in MembersOf(p.users, p.memberships, organId, p.lastUserId) ||
        (u == p'.lastUserId && organId in req.organIds)
  {
    JoinedContents(p.memberships, p.lastUserId + 1, req.organIds);
  }

  /** The organ list of a new user (the loop building `userOrgans`): the
      join rows for each listed organ, or nothing when one of them names no
      organ. */
  method JoinOrgans(p: PeopleRows, userId: nat, organIds: seq<nat>) returns (joined: Option<map<(nat, nat), UserOrgan>>)
    ensures joined.Some? <==> forall o :: o in organIds ==> o in p.organs
    ensures joined.Some? ==> joined.value == Joined(p.memberships, userId, organIds)
  {
    var m := p.memberships;
    for i := 0 to |organIds|
      invariant m == Joined(p.memberships, userId, organIds[..i])
      invariant forall k :: 0 <= k < i ==> organIds[k] in p.organs
    {
      if organIds[i] !in p.organs {
        return None;
      }
      m := m[(userId, organIds[i]) := UserOrgan("")];
      assert organIds[..i + 1][..i] == organIds[..i];
    }
    assert organIds[..|organIds|] == organIds;
    joined := Some(m);
  }

  /** Creates a user joined to the given organs. An empty name is refused, a
      GEWIS id already in use violates the unique index, and an organ id that
      names no organ is refused; on error nothing is stored. */
  method Create(db: Db, req: CreateRequest) returns (r: Result<nat>)
    requires db.Valid()
    modifies db
    ensures db.Valid()
    ensures req.name == "" ==> r == Err(NameRequired)
    ensures req.name != "" && GewisIdTaken(old(db.t.people.users), req.gewisId) ==> r == Err(Conflict)
    ensures r.Ok? <==>
      req.name != "" && !GewisIdTaken(old(db.t.people.users), req.gewisId) &&
      forall o :: o in req.organIds ==> o in old(db.t.people.organs)
    ensures r.Err? ==> db.t == old(db.t)
    ensures r.Ok? ==>
      && r.value == old(db.t.people.lastUserId) + 1
      && db.t == old(db.t).(people := UserCreated(old(db.t.people), req))
  {
    if |req.name| == 0 {
      return Err(NameRequired);
    }
    var p := db.t.people;
    if exists u :: u in p.users && p.users[u].gewisId == req.gewisId {
      return Err(Conflict);
    }
    var id := p.lastUserId + 1;
    var joined := JoinOrgans(p, id, req.organIds);
    if joined.None? {
      return Err(NotFound("organ"));
    }
    UserCreatedValid(p, req);
    db.t := db.t.(people := p.(users := p.users[id := User(req.name, req.gewisId)], memberships := joined.value, lastUserId := id));
    r := Ok(id);
  }

  // ----- listing users --------------------------------------------------------

  /** The filters are conjunctive; the organ filter joins `user_organs`. */
  predicate Matches(p: PeopleRows, f: FilterParams, id: nat, u: User)
  {
    && (f.id.None? || id == f.id.value)
    && (f.gewisId.None? || u.gewisId == f.gewisId.value)
    && (f.organId.None? || (id, f.organId.value) in p.memberships)
  }

  /** The users matching every given filter, in id order. */
  function Get(db: Db, f: FilterParams): (rows: seq<(nat, User)>)
    reads db
    requires db.Valid()
    ensures forall k :: 0 <= k < |rows| ==>
      rows[k].0 in db.t.people.users && rows[k].1 == db.t.people.users[rows[k].0] &&
      Matches(db.t.people, f, rows[k].0, rows[k].1)
    ensures forall k, l :: 0 <= k < l < |rows| ==> rows[k].0 < rows[l].0
    ensures forall id :: (id in db.t.people.users && Matches(db.t.people, f, id, db.t.people.users[id])) ==>
      exists k :: 0 <= k < |rows| && rows[k].0 == id
  {
    var p := db.t.people;
    RowsOf(p.users, Select(p.users, p.lastUserId, (id: nat, u: User) => Matches(p, f, id, u)))
  }

  // ----- deleting a user --------------------------------------------------------

  /** The tables after deleting user `id` for good: the user leaves every
      saved shift (`user_shift_saved` cascades) and their preferences go. */
  function WithoutUser(t: Tables, id: nat): (t': Tables)
    ensures forall u :: u in t'.people.users <==> u in t.people.users && u != id
    ensures forall ss :: ss in t'.roster.savedShifts <==> ss in t.roster.savedShifts
    ensures forall ss :: ss in t'.roster.savedShifts ==>
      t'.roster.savedShifts[ss] == t.roster.savedShifts[ss].(users := t.roster.savedShifts[ss].users - {id})
    ensures forall p :: p in t'.template.preferences <==>
      p in t.template.preferences && t.template.preferences[p].userId != id
  {
    var saved := map ss | ss in t.roster.savedShifts ::
      t.roster.savedShifts[ss].(users := t.roster.savedShifts[ss].users - {id});
    t.(roster := t.roster.(savedShifts := saved),
       template := t.template.(preferences := PreferencesCascaded(t.template.preferences, {}, {id})),
       people := t.people.(users := t.people.users - {id}))
  }

  /** Deleting a user keeps the tables consistent. */
  lemma WithoutUserValid(t: Tables, id: nat)
    requires t.Valid()
    ensures WithoutUser(t, id).Valid()
  {
    var t' := WithoutUser(t, id);
    var s := t'.roster.savedShifts;
    forall i, j | i in s && j in s && i != j
      ensures s[i].rosterShiftId != s[j].rosterShiftId
    {
      assert s[i].rosterShiftId == t.roster.savedShifts[i].rosterShiftId;
      assert s[j].rosterShiftId == t.roster.savedShifts[j].rosterShiftId;
    }
  }

  /** Whether user `id` still has a row in `user_organs`. */
  predicate HasMemberships(people: PeopleRows, id: nat)
  {
    exists k :: k in people.memberships && k.0 == id
  }

  /** Deletes user `id` for good (`Unscoped`); deleting no row is an error.
      The `user_organs` join table refers to users without a delete action,
      so its foreign key refuses to delete a user who is still a member. */
  method Delete(db: Db, id: nat) returns (r: Outcome)
    requires db.Valid()
    modifies db
    ensures db.Valid()
    ensures id !in old(db.t.people.users) ==> r == Fail(NotFound("user")) && db.t == old(db.t)
    ensures id in old(db.t.people.users) && HasMemberships(old(db.t.people), id) ==>
      r == Fail(Referenced("user_organs")) && db.t == old(db.t)
    ensures r == Pass <==> id in old(db.t.people.users) && !HasMemberships(old(db.t.people), id)
    ensures r == Pass ==> db.t == WithoutUser(old(db.t), id)
  {
    if id !in db.t.people.users {
      return Fail(NotFound("user"));
    }
    if exists k :: k in db.t.people.memberships && k.0 == id {
      return Fail(Referenced("user_organs"));
    }
    WithoutUserValid(db.t, id);
    db.t := WithoutUser(db.t, id);
    r := Pass;
  }
}
