/** The current organ service (internal/organ/service.go): a member's
    settings within an organ, i.e. their `user_organs` row. */
module OrganService {
  import opened Common
  import opened Models
  import opened Store

  /** The settings of user `userId` in organ `organId`, or not found when the
      user is no member. */
  function GetMemberSettings(db: Db, organId: nat, userId: nat): (r: Result<UserOrgan>)
    reads db
    ensures r.Ok? <==> (userId, organId) in db.t.people.memberships
    ensures r.Ok? ==> r.value == db.t.people.memberships[(userId, organId)]
    ensures r.Err? ==> r.error == NotFound("user organ")
  {
    var key := (userId, organId);
    if key in db.t.people.memberships then Ok(db.t.people.memberships[key]) else Err(NotFound("user organ"))
  }

  /** Renaming a member keeps the people tables consistent: neither a user
      nor an organ is touched and the key set stays. */
  lemma RenamedValid(p: PeopleRows, key: (nat, nat), username: string)
    requires p.Valid() && key in p.memberships
    ensures p.(memberships := p.memberships[key := UserOrgan(username)]).Valid()
  {
  }

  /** Sets the member's username when one is given and returns the row read
      back afterwards; without a username it only reads the row. A missing
      membership is not found either way, and changes nothing. */
  method UpdateMemberSettings(db: Db, organId: nat, userId: nat, username: Option<string>) returns (r: Result<UserOrgan>)
    requires db.Valid()
    modifies db
    ensures db.Valid()
    ensures r == GetMemberSettings(db, organId, userId)
    ensures r.Ok? <==> (userId, organId) in old(db.t.people.memberships)
    ensures username.None? || r.Err? ==> db.t == old(db.t)
    ensures username.Some? && r.Ok? ==>
      && r.value == UserOrgan(username.value)
      && db.t == old(db.t).(people := old(db.t.people).(memberships := old(db.t.people.memberships)[(userId, organId) := r.value]))
  {
    var key := (userId, organId);
    if username.None? {
      r := GetMemberSettings(db, organId, userId);
      return;
    }
    var p := db.t.people;
    if key in p.memberships {
      RenamedValid(p, key, username.value);
      db.t := db.t.(people := p.(memberships := p.memberships[key := UserOrgan(username.value)]));
    }
    r := GetMemberSettings(db, organId, userId);
  }
}
