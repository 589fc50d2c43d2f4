/** The legacy user and organ services (cmd/src/pkg/services/user_service.go
    and organ_service.go): creating, listing and softly deleting users, and a
    member's settings within an organ. */
module LegacyPeopleService {
  import opened Common
  import opened Models
  import opened LegacyStore
  import UserService

  // ----- creating a user ----------------------------------------------------

  /** The tables after inserting user `req.name` under the next id, joined to
      the listed organs under an empty username. */
  function LegacyUserCreated(t: LegacyTables, req: UserService.CreateRequest): LegacyTables
  {
    var id := t.lastUserId + 1;
    t.(users := t.users[id := User(req.name, req.gewisId)],
       memberships := UserService.Joined(t.memberships, id, req.organIds),
       lastUserId := id)
  }

  /** A new user with a free GEWIS id keeps the tables consistent, and the
      new user is a member of exactly the listed organs. */
  lemma LegacyUserCreatedValid(t: LegacyTables, req: UserService.CreateRequest)
    requires t.Valid() && !UserService.GewisIdTaken(t.users, req.gewisId)
    ensures LegacyUserCreated(t, req).Valid()
    ensures var t' := LegacyUserCreated(t, req);
      forall o :: (t'.lastUserId, o) in t'.memberships <==> o in req.organIds
  {
    UserService.JoinedContents(t.memberships, t.lastUserId + 1, req.organIds);
  }

  /** Creates a user with the given name, GEWIS id and organs. An empty name
      is refused, a GEWIS id in use violates the unique index, and an organ
      that does not exist is refused; on error nothing is stored. */
  method Create(db: LegacyDb, req: UserService.CreateRequest) returns (r: Result<nat>)
    requires db.Valid()
    modifies db
    ensures db.Valid()
    ensures req.name == "" ==> r == Err(NameRequired)
    ensures req.name != "" && UserService.GewisIdTaken(old(db.t.users), req.gewisId) ==> r == Err(Conflict)
    ensures r.Ok? <==>
      req.name != "" && !UserService.GewisIdTaken(old(db.t.users), req.gewisId) &&
      forall o :: o in req.organIds ==> o in old(db.t.organs)
    ensures r.Err? ==> db.t == old(db.t)
    ensures r.Ok? ==> r.value == old(db.t.lastUserId) + 1 && db.t == LegacyUserCreated(old(db.t), req)
  {
    if req.name == "" {
      return Err(NameRequired);
    }
    if exists u :: u in db.t.users && db.t.users[u].gewisId == req.gewisId {
      return Err(Conflict);
    }
    if exists o :: o in req.organIds && o !in db.t.organs {
      return Err(NotFound("organ"));
    }
    LegacyUserCreatedValid(db.t, req);
    db.t := LegacyUserCreated(db.t, req);
    r := Ok(db.t.lastUserId);
  }

  // ----- listing users --------------------------------------------------------

  /** The filters are conjunctive; the organ filter joins `user_organs`. */
  predicate LegacyUserMatches(t: LegacyTables, f: UserService.FilterParams, id: nat, u: User)
  {
    && (f.id.None? || id == f.id.value)
    && (f.gewisId.None? || u.gewisId == f.gewisId.value)
    && (f.organId.None? || (id, f.organId.value) in t.memberships)
  }

  /** The ids of the users matching every given filter, ascending. */
  function UsersMatching(t: LegacyTables, f: UserService.FilterParams): (ids: seq<nat>)
    ensures Increasing(ids)
    ensures forall id :: id in ids <==> 0 < id <= t.lastUserId && id in t.users && LegacyUserMatches(t, f, id, t.users[id])
  {
    Select(t.users, t.lastUserId, (id: nat, u: User) => LegacyUserMatches(t, f, id, u))
  }

  /** The users matching every given filter, in id order. */
  function GetUsers(db: LegacyDb, f: UserService.FilterParams): (rows: seq<(nat, User)>)
    reads db
    requires db.Valid()
    ensures forall k :: 0 <= k < |rows| ==>
      rows[k].0 in db.t.users && rows[k].1 == db.t.users[rows[k].0] &&
      LegacyUserMatches(db.t, f, rows[k].0, rows[k].1)
    ensures forall k, l :: 0 <= k < l < |rows| ==> rows[k].0 < rows[l].0
    ensures forall id :: (id in db.t.users && LegacyUserMatches(db.t, f, id, db.t.users[id])) ==>
      exists k :: 0 <= k < |rows| && rows[k].0 == id
  {
    var ids := UsersMatching(db.t, f);
    Heads(ids);
    RowsOf(db.t.users, ids)
  }

  /** The filter that looks a user up by id. */
  function ById(id: nat): UserService.FilterParams
  {
    UserService.FilterParams(Some(id), None, None)
  }

  /** A created user is found by its id, and it is the only match. */
  lemma CreatedUserFound(t: LegacyTables, req: UserService.CreateRequest)
    requires t.Valid() && !UserService.GewisIdTaken(t.users, req.gewisId)
    ensures var t' := LegacyUserCreated(t, req);
      && UsersMatching(t', ById(t'.lastUserId)) == [t'.lastUserId]
      && t'.users[t'.lastUserId] == User(req.name, req.gewisId)
  {
    var t' := LegacyUserCreated(t, req);
    OnlyId(UsersMatching(t', ById(t'.lastUserId)), t'.lastUserId);
  }

  // ----- deleting a user --------------------------------------------------------

  /** Deletes user `id` softly: the user row leaves every later query, its
      organ rows stay. Deleting no row is an error. */
  method Delete(db: LegacyDb, id: nat) returns (r: Outcome)
    requires db.Valid()
    modifies db
    ensures db.Valid()
    ensures id !in old(db.t.users) ==> r == Fail(NotFound("user")) && db.t == old(db.t)
    ensures id in old(db.t.users) ==> r == Pass && db.t == old(db.t).(users := old(db.t.users) - {id})
  {
    if id !in db.t.users {
      return Fail(NotFound("user"));
    }
    db.t := db.t.(users := db.t.users - {id});
    r := Pass;
  }

  /** After a delete, looking the user up by id finds nothing. */
  lemma DeletedUserNotFound(t: LegacyTables, id: nat)
    ensures UsersMatching(t.(users := t.users - {id}), ById(id)) == []
  {
    var ids := UsersMatching(t.(users := t.users - {id}), ById(id));
    Heads(ids);
  }

  // ----- member settings --------------------------------------------------------

  /** The `user_organs` row of user `userId` in organ `organId`, or not found. */
  function Membership(t: LegacyTables, organId: nat, userId: nat): (r: Result<UserOrgan>)
    ensures r.Ok? <==> (userId, organId) in t.memberships
    ensures r.Ok? ==> r.value == t.memberships[(userId, organId)]
    ensures r.Err? ==> r.error == NotFound("user organ")
  {
    var key := (userId, organId);
    if key in t.memberships then Ok(t.memberships[key]) else Err(NotFound("user organ"))
  }

  /** Sets the member's username when one is given (an empty one included)
      and returns the row read back afterwards; without a username it only
      reads the row. A missing row is not found either way. */
  method UpdateMemberSettings(db: LegacyDb, organId: nat, userId: nat, username: Option<string>) returns (r: Result<UserOrgan>)
    requires db.Valid()
    modifies db
    ensures db.Valid()
    ensures r == Membership(db.t, organId, userId)
    ensures r.Ok? <==> (userId, organId) in old(db.t.memberships)
    ensures username.None? || r.Err? ==> db.t == old(db.t)
    ensures username.Some? && r.Ok? ==>
      && r.value == UserOrgan(username.value)
      && db.t == old(db.t).(memberships := old(db.t.memberships)[(userId, organId) := r.value])
  {
    if username.None? {
      r := Membership(db.t, organId, userId);
      return;
    }
    var key := (userId, organId);
    if key in db.t.memberships {
      db.t := db.t.(memberships := db.t.memberships[key := UserOrgan(username.value)]);
    }
    r := Membership(db.t, organId, userId);
  }
}
