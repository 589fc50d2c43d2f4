/** The two pure pieces of the legacy authentication service
    (cmd/src/pkg/services/auth_service.go): the numeric id hidden in the
    `preferred_username` claim, and the organs named by the client roles of
    the token, found or created by name. */
module Auth {
  import opened Common
  import opened Models
  import opened LegacyStore

  const Int64Min: int := -0x8000_0000_0000_0000
  const Int64Max: int := 0x7FFF_FFFF_FFFF_FFFF

  /** Go's `uint` is 64 bits wide: converting a negative `int` adds 2^64. */
  const UintModulus: int := 0x1_0000_0000_0000_0000

  // ----- the user id in preferred_username ------------------------------------

  /** The index of the first `c` in `s`. */
  function IndexOf(s: string, c: char): (r: Option<nat>)
    ensures r.None? <==> c !in s
    ensures r.Some? ==> r.value < |s| && s[r.value] == c && c !in s[..r.value]
  {
    if s == [] then None
    else if s[0] == c then Some(0)
    else
      match IndexOf(s[1..], c)
      case None => None
      case Some(i) =>
        assert s[..i + 1] == [s[0]] + s[1..][..i];
        Some(i + 1)
  }

  /** The second field of `strings.Split(s, "m")`: the text after the first
      'm' up to the next one or the end; none when `s` has no 'm', so that
      the split yields a single field. */
  function SecondField(s: string): (r: Option<string>)
    ensures r.None? <==> 'm' !in s
    ensures r.Some? ==> 'm' !in r.value
  {
    match IndexOf(s, 'm')
    case None => None
    case Some(i) =>
      var rest := s[i + 1..];
      match IndexOf(rest, 'm')
      case None => Some(rest)
      case Some(j) => Some(rest[..j])
  }

  /** An element before position `n` is in the prefix of length `n`. */
  lemma InPrefix(s: string, k: nat, n: nat)
    ensures k < n <= |s| ==> s[k] in s[..n]
  {
    assert k < n <= |s| ==> s[..n][k] == s[k];
  }

  /** The first `c` of `s` is at `i` when `s[i]` is one and none comes before. */
  lemma IndexOfIs(s: string, c: char, i: nat)
    requires i < |s| && s[i] == c && c !in s[..i]
    ensures IndexOf(s, c) == Some(i)
  {
    var j := IndexOf(s, c).value;
    InPrefix(s, j, i);
    InPrefix(s, i, j);
  }

  /** The text between the first and second 'm' is the second field,
      whatever comes before the first 'm' and after the second. */
  lemma SecondFieldOf(prefix: string, field: string, tail: string)
    requires 'm' !in prefix && 'm' !in field
    requires tail == [] || tail[0] == 'm'
    ensures SecondField(prefix + "m" + field + tail) == Some(field)
  {
    var s := prefix + "m" + field + tail;
    assert s[..|prefix|] == prefix;
    IndexOfIs(s, 'm', |prefix|);
    var rest := s[|prefix| + 1..];
    assert rest == field + tail;
    assert rest[..|field|] == field;
    if tail != [] {
      IndexOfIs(rest, 'm', |field|);
    } else {
      assert rest == field;
    }
  }

  predicate IsDigit(c: char)
  {
    '0' <= c <= '9'
  }

  predicate AllDigits(s: string)
  {
    forall i :: 0 <= i < |s| ==> IsDigit(s[i])
  }

  /** The value of a string of decimal digits, most significant first. */
  function DigitsValue(s: string): nat
    requires AllDigits(s)
  {
    if s == [] then 0 else DigitsValue(s[..|s| - 1]) * 10 + ((s[|s| - 1] as int) - ('0' as int))
  }

  /** `strconv.Atoi`: an optional sign and at least one decimal digit, whose
      value must fit in 64 bits; anything else is not a number. */
  function Atoi(s: string): (r: Result<int>)
    ensures r.Ok? ==> Int64Min <= r.value <= Int64Max
    ensures r.Err? ==> r.error == NotANumber
    ensures r.Ok? ==> s != [] && (IsDigit(s[0]) || s[0] == '+' || s[0] == '-')
  {
    var signed := |s| > 0 && (s[0] == '+' || s[0] == '-');
    var body := if signed then s[1..] else s;
    if body == [] || !AllDigits(body) then Err(NotANumber)
    else
      var n: int := if signed && s[0] == '-' then -(DigitsValue(body) as int) else DigitsValue(body);
      if Int64Min <= n <= Int64Max then Ok(n) else Err(NotANumber)
  }

  /** The decimal digits of `n`, without leading zeros. */
  function DecimalString(n: nat): (s: string)
    ensures |s| > 0 && AllDigits(s)
  {
    var d := (('0' as int) + n % 10) as char;
    if n < 10 then [d] else DecimalString(n / 10) + [d]
  }

  /** Reading back the digits of `n` gives `n`, and they hold no 'm'. */
  lemma {:induction false} DecimalStringValue(n: nat)
    ensures DigitsValue(DecimalString(n)) == n
    ensures 'm' !in DecimalString(n)
  {
    var s := DecimalString(n);
    if n >= 10 {
      DecimalStringValue(n / 10);
      assert s[..|s| - 1] == DecimalString(n / 10);
    } else {
      assert s[..|s| - 1] == [];
    }
    assert !IsDigit('m');
  }

  /** `Atoi` reads back what `DecimalString` writes, with either sign,
      exactly within the 64-bit range. */
  lemma AtoiDecimal(n: nat)
    ensures Atoi(DecimalString(n)) == (if n <= Int64Max then Ok(n) else Err(NotANumber))
    ensures Atoi("-" + DecimalString(n)).Ok? <==> n <= -Int64Min
    ensures Atoi("-" + DecimalString(n)).Ok? ==> Atoi("-" + DecimalString(n)).value == -(n as int)
  {
    DecimalStringValue(n);
    var s := DecimalString(n);
    assert IsDigit(s[0]);
    assert ("-" + s)[1..] == s;
  }

  /** The id of `preferred_username`: the second field of its split on 'm',
      read as a 64-bit integer and converted to an unsigned one. A username
      without 'm' has an invalid format. */
  function ParseUserId(username: string): (r: Result<nat>)
    ensures r == Err(InvalidUsername) <==> 'm' !in username
    ensures r.Err? ==> r.error == InvalidUsername || r.error == NotANumber
    ensures r.Ok? ==> r.value < UintModulus
  {
    match SecondField(username)
    case None => Err(InvalidUsername)
    case Some(field) =>
      match Atoi(field)
      case Err(e) => Err(e)
      case Ok(n) => Ok(if n < 0 then n + UintModulus else n)
  }

  /** A username `<prefix>m<digits of n>` (possibly followed by another 'm'
      and anything) yields `n` for every `n` that fits in 64 signed bits. */
  lemma ParseUserIdRoundTrip(prefix: string, n: nat, tail: string)
    requires 'm' !in prefix
    requires tail == [] || tail[0] == 'm'
    requires n <= Int64Max
    ensures ParseUserId(prefix + "m" + DecimalString(n) + tail) == Ok(n)
  {
    DecimalStringValue(n);
    SecondFieldOf(prefix, DecimalString(n), tail);
    AtoiDecimal(n);
  }

  /** A negative number after the 'm' wraps around to a huge unsigned id. */
  lemma ParseUserIdWraps(prefix: string, n: nat)
    requires 'm' !in prefix
    requires 0 < n <= -Int64Min
    ensures ParseUserId(prefix + "m" + ("-" + DecimalString(n))) == Ok(UintModulus - n)
  {
    DecimalStringValue(n);
    assert 'm' !in "-" + DecimalString(n);
    SecondFieldOf(prefix, "-" + DecimalString(n), []);
    assert prefix + "m" + ("-" + DecimalString(n)) + [] == prefix + "m" + ("-" + DecimalString(n));
    AtoiDecimal(n);
  }

  // ----- organs from the token's roles -----------------------------------------

  /** The decoded JSON values the claims are made of. */
  datatype Json =
    | JString(text: string)
    | JArray(items: seq<Json>)
    | JObject(fields: map<string, Json>)
    | JOther

  /** The client entry of `resource_access` for the environment `env`. */
  function ClientKey(env: string): string
  {
    "grooster-" + env
  }

  /** The roles list of the claims: `resource_access` must be an object,
      its `grooster-<env>` entry an object, and that entry's `roles` a list. */
  function RolesOf(claims: map<string, Json>, env: string): (r: Result<seq<Json>>)
    ensures r.Err? ==> r.error in {ClaimMissing("resource_access"), ClaimMissing(ClientKey(env)), ClaimMissing("roles")}
    ensures r == Err(ClaimMissing("resource_access")) <==>
      !("resource_access" in claims && claims["resource_access"].JObject?)
  {
    if "resource_access" !in claims || !claims["resource_access"].JObject? then Err(ClaimMissing("resource_access"))
    else
      var access := claims["resource_access"].fields;
      var key := ClientKey(env);
      assert key[0] != "resource_access"[0];
      if key !in access || !access[key].JObject? then Err(ClaimMissing(key))
      else
        var client := access[key].fields;
        if "roles" !in client || !client["roles"].JArray? then Err(ClaimMissing("roles"))
        else Ok(client["roles"].items)
  }

  /** Whether `sep` occurs in `s` at position `j`. */
  predicate OccursAt(s: string, sep: string, j: nat)
  {
    j + |sep| <= |s| && s[j..j + |sep|] == sep
  }

  /** The first position at or after `i` where `sep` occurs in `s`. */
  function FindFrom(s: string, sep: string, i: nat): (r: Option<nat>)
    requires i <= |s|
    ensures r.Some? ==> i <= r.value && OccursAt(s, sep, r.value)
    ensures r.Some? ==> forall j: nat :: i <= j < r.value ==> !OccursAt(s, sep, j)
    ensures r.None? ==> forall j: nat :: i <= j ==> !OccursAt(s, sep, j)
    decreases |s| - i
  {
    if i + |sep| > |s| then None
    else if s[i..i + |sep|] == sep then Some(i)
    else FindFrom(s, sep, i + 1)
  }

  /** The organ a role names: a string role holding `<env> ` yields the
      non-empty text after the first occurrence; other roles yield none. */
  function OrganNameOf(role: Json, env: string): (r: Option<string>)
    ensures r.Some? ==> role.JString? && r.value != ""
    ensures r.Some? ==>
      var sep := env + " ";
      |sep| + |r.value| <= |role.text| && role.text[|role.text| - |r.value| - |sep|..] == sep + r.value
  {
    if !role.JString? then None
    else
      var sep := env + " ";
      match FindFrom(role.text, sep, 0)
      case None => None
      case Some(k) =>
        var name := role.text[k + |sep|..];
        assert role.text[k..k + |sep|] == sep;
        assert role.text[k..] == sep + name;
        if name == "" then None else Some(name)
  }

  /** The role `<env> <name>` names organ `name`, for any non-empty name. */
  lemma OrganNameOfRole(env: string, name: string)
    requires name != ""
    ensures OrganNameOf(JString(env + " " + name), env) == Some(name)
  {
    var s := env + " " + name;
    assert OccursAt(s, env + " ", 0);
    assert s[|env + " "|..] == name;
  }

  /** A string role whose first separator sits at `k` names the text after
      that separator, later separators included, and no organ when that text
      is empty: the second part of `SplitN(role, sep, 2)`. */
  lemma OrganNameOfFirst(role: Json, env: string, k: nat)
    requires role.JString? && OccursAt(role.text, env + " ", k)
    requires forall j: nat :: j < k ==> !OccursAt(role.text, env + " ", j)
    ensures OrganNameOf(role, env) == (if k + |env| + 1 < |role.text| then Some(role.text[k + |env| + 1..]) else None)
  {
  }

  /** The name is everything after the first separator, later separators
      included: `test a test b` names organ `a test b` for environment `test`. */
  lemma OrganNameAfterFirstSeparator()
    ensures OrganNameOf(JString("test a test b"), "test") == Some("a test b")
  {
    OrganNameOfFirst(JString("test a test b"), "test", 0);
  }

  /** A role without the separator, or one that is not a string, names no organ. */
  lemma NoSeparatorNoOrgan(role: Json, env: string)
    requires role.JString? ==> forall j: nat :: !OccursAt(role.text, env + " ", j)
    ensures OrganNameOf(role, env) == None
  {
  }

  /** The organ names of the roles, in role order. */
  function OrganNames(roles: seq<Json>, env: string): (names: seq<string>)
    ensures |names| <= |roles|
  {
    if roles == [] then []
    else
      var n := |roles|;
      var rest := OrganNames(roles[..n - 1], env);
      match OrganNameOf(roles[n - 1], env)
      case None => rest
      case Some(name) => rest + [name]
  }

  /** One more role adds its organ name, if any, at the end. */
  lemma OrganNamesStep(roles: seq<Json>, i: nat, env: string)
    requires i < |roles|
    ensures OrganNames(roles[..i + 1], env) ==
      OrganNames(roles[..i], env) + (if OrganNameOf(roles[i], env).Some? then [OrganNameOf(roles[i], env).value] else [])
  {
    assert roles[..i + 1][..i] == roles[..i];
  }

  /** A name is listed for the first `i` roles exactly when one of them
      names it. */
  lemma {:induction false} OrganNamesPrefix(roles: seq<Json>, i: nat, env: string)
    requires i <= |roles|
    ensures forall name :: name in OrganNames(roles[..i], env) <==>
      exists j :: 0 <= j < i && OrganNameOf(roles[j], env) == Some(name)
  {
    if i > 0 {
      OrganNamesPrefix(roles, i - 1, env);
      OrganNamesStep(roles, i - 1, env);
    } else {
      assert roles[..i] == [];
    }
  }

  /** A name is listed exactly when some role names it. */
  lemma OrganNamesContents(roles: seq<Json>, env: string)
    ensures forall name :: name in OrganNames(roles, env) <==>
      exists j :: 0 <= j < |roles| && OrganNameOf(roles[j], env) == Some(name)
  {
    OrganNamesPrefix(roles, |roles|, env);
    assert roles[..|roles|] == roles;
  }

  /** `FirstOrCreate` by organ name: the organ with that name, or a new one
      under the next id when there is none. */
  function FirstOrCreate(t: LegacyTables, name: string): (r: (LegacyTables, nat))
    requires t.Valid()
    ensures r.0.Valid()
    ensures r.1 in r.0.organs && r.0.organs[r.1] == Organ(name)
    ensures forall o :: o in t.organs ==> o in r.0.organs && r.0.organs[o] == t.organs[o]
    ensures r.0 == t.(organs := r.0.organs, lastOrganId := r.0.lastOrganId)
    ensures r.0 == t <==> exists o :: o in t.organs && t.organs[o].name == name
  {
    var ids := Select(t.organs, t.lastOrganId, (_: nat, o: Organ) => o.name == name);
    if ids != [] then
      assert ids[0] in ids;
      (t, ids[0])
    else
      var id := t.lastOrganId + 1;
      assert id !in t.organs;
      (t.(organs := t.organs[id := Organ(name)], lastOrganId := id), id)
  }

  /** Finding or creating the same name again finds what the first call
      returned and changes nothing. */
  lemma FirstOrCreateIdempotent(t: LegacyTables, name: string)
    requires t.Valid()
    ensures var (t1, id) := FirstOrCreate(t, name); FirstOrCreate(t1, name) == (t1, id)
  {
    var (t1, id) := FirstOrCreate(t, name);
    var ids := Select(t1.organs, t1.lastOrganId, (_: nat, o: Organ) => o.name == name);
    forall x
      ensures x in ids <==> x == id
    {
      if x in ids {
        assert t1.organs[x].name == t1.organs[id].name;
      }
    }
    OnlyId(ids, id);
  }

  /** The tables after finding or creating each name in turn, and the ids
      found or created, one per name. */
  function EnsureOrgans(t: LegacyTables, names: seq<string>): (r: (LegacyTables, seq<nat>))
    requires t.Valid()
    ensures r.0.Valid()
    ensures |r.1| == |names|
    ensures forall k :: 0 <= k < |names| ==> r.1[k] in r.0.organs && r.0.organs[r.1[k]] == Organ(names[k])
    ensures forall o :: o in t.organs ==> o in r.0.organs && r.0.organs[o] == t.organs[o]
    ensures r.0 == t.(organs := r.0.organs, lastOrganId := r.0.lastOrganId)
  {
    if names == [] then (t, [])
    else
      var n := |names|;
      var (t1, ids) := EnsureOrgans(t, names[..n - 1]);
      var (t2, id) := FirstOrCreate(t1, names[n - 1]);
      (t2, ids + [id])
  }

  /** One more name is found or created after the earlier ones. */
  lemma EnsureOrgansStep(t: LegacyTables, names: seq<string>, name: string)
    requires t.Valid()
    ensures EnsureOrgans(t, names + [name]) ==
      var (t1, ids) := EnsureOrgans(t, names);
      var (t2, id) := FirstOrCreate(t1, name);
      (t2, ids + [id])
  {
    assert (names + [name])[..|names|] == names;
  }

  /** The organs named `names` under the ids `ids`, pairwise. */
  function Paired(ids: seq<nat>, names: seq<string>): (r: seq<(nat, Organ)>)
    requires |ids| == |names|
    ensures |r| == |names|
    ensures forall k :: 0 <= k < |names| ==> r[k] == (ids[k], Organ(names[k]))
  {
    seq(|ids|, k requires 0 <= k < |ids| => (ids[k], Organ(names[k])))
  }

  lemma PairedSnoc(ids: seq<nat>, names: seq<string>, id: nat, name: string)
    requires |ids| == |names|
    ensures Paired(ids + [id], names + [name]) == Paired(ids, names) + [(id, Organ(name))]
  {
  }

  /** The organs of the roles in the claims, each found or created by name,
      in role order. A missing or mistyped claim is an error and changes
      nothing. */
  method GetOrgans(db: LegacyDb, claims: map<string, Json>, env: string) returns (r: Result<seq<(nat, Organ)>>)
    requires db.Valid()
    modifies db
    ensures db.Valid()
    ensures r.Err? <==> RolesOf(claims, env).Err?
    ensures r.Err? ==> r.error == RolesOf(claims, env).error && db.t == old(db.t)
    ensures r.Ok? ==>
      var names := OrganNames(RolesOf(claims, env).value, env);
      var (t', ids) := EnsureOrgans(old(db.t), names);
      && db.t == t'
      && r.value == Paired(ids, names)
  {
    var roles := RolesOf(claims, env);
    if roles.Err? {
      return Err(roles.error);
    }
    var organs := [];
    ghost var t0 := db.t;
    ghost var names := [];
    ghost var ids := [];
    for i := 0 to |roles.value|
      invariant names == OrganNames(roles.value[..i], env)
      invariant (db.t, ids) == EnsureOrgans(t0, names)
      invariant |ids| == |names| && organs == Paired(ids, names)
      invariant db.Valid()
    {
      OrganNamesStep(roles.value, i, env);
      match OrganNameOf(roles.value[i], env) {
        case None =>
        case Some(name) =>
          EnsureOrgansStep(t0, names, name);
          var (t1, id) := FirstOrCreate(db.t, name);
          PairedSnoc(ids, names, id, name);
          db.t := t1;
          organs := organs + [(id, Organ(name))];
          names := names + [name];
          ids := ids + [id];
      }
    }
    assert roles.value[..|roles.value|] == roles.value;
    r := Ok(organs);
  }
}
