/** The fairness ranking behind `GetSavedRoster`: the SQL query of
    `getSavedShiftOrdering`, stated by its meaning. For a shift name and the
    members of an organ, each member's key is the latest roster date of a
    saved shift with that name that includes the member (`MAX(r.date)`), or
    nothing when there is none; members are listed ascending by that key,
    members without a date first. The order among equal keys is not promised. */
module Fairness {
  import opened Common

  /** One saved shift as the query joins it: the name of its roster shift,
      the date of its roster as an instant in seconds (absent when the roster
      row is missing, as the LEFT JOIN then yields NULL) and the users
      assigned to it. Two rosters on one day are ordered by time of day. */
  datatype Past = Past(shiftName: string, date: Option<int>, users: set<nat>)

  /** Whether `p` is an assignment of `user` to a shift called `name` that
      carries a date. */
  predicate Held(p: Past, user: nat, name: string)
  {
    p.shiftName == name && user in p.users && p.date.Some?
  }

  /** The latest date on which `user` held a saved shift called `name`. */
  function LastAssigned(history: seq<Past>, user: nat, name: string): (last: Option<int>)
    ensures last.None? <==> forall i :: 0 <= i < |history| ==> !Held(history[i], user, name)
    ensures last.Some? ==>
      exists i :: 0 <= i < |history| && Held(history[i], user, name) && history[i].date.value == last.value
    ensures forall i :: 0 <= i < |history| && Held(history[i], user, name) ==>
      last.Some? && history[i].date.value <= last.value
  {
    if history == [] then None
    else
      var earlier := LastAssigned(history[..|history| - 1], user, name);
      var p := history[|history| - 1];
      assert forall i :: 0 <= i < |history| - 1 ==> history[..|history| - 1][i] == history[i];
      if !Held(p, user, name) then earlier
      else if earlier.None? || earlier.value < p.date.value then p.date
      else earlier
  }

  /** `ORDER BY last_date ASC` with NULL first. */
  predicate KeyLe(a: Option<int>, b: Option<int>)
  {
    a.None? || (b.Some? && a.value <= b.value)
  }

  /** `xs` is ascending by `key`. */
  ghost predicate SortedBy(xs: seq<nat>, key: nat -> Option<int>)
  {
    forall i, j :: 0 <= i < j < |xs| ==> KeyLe(key(xs[i]), key(xs[j]))
  }

  /** Puts `x` into the sorted list `xs`, before the first element whose key
      is not smaller. */
  function InsertBy(x: nat, xs: seq<nat>, key: nat -> Option<int>): (r: seq<nat>)
    requires SortedBy(xs, key)
    ensures multiset(r) == multiset(xs) + multiset{x}
    ensures SortedBy(r, key)
  {
    if xs == [] then [x]
    else if KeyLe(key(x), key(xs[0])) then [x] + xs
    else
      var rest := InsertBy(x, xs[1..], key);
      assert xs == [xs[0]] + xs[1..];
      forall k | 0 <= k < |rest|
        ensures KeyLe(key(xs[0]), key(rest[k]))
      {
        assert rest[k] in multiset(rest);
        if rest[k] != x {
          assert rest[k] in multiset(xs[1..]);
          var m :| 0 <= m < |xs[1..]| && xs[1..][m] == rest[k];
          assert xs[1 + m] == rest[k];
        }
      }
      [xs[0]] + rest
  }

  /** Insertion sort by `key`. */
  function SortBy(xs: seq<nat>, key: nat -> Option<int>): (r: seq<nat>)
    ensures multiset(r) == multiset(xs)
    ensures SortedBy(r, key)
  {
    if xs == [] then []
    else
      assert xs == [xs[0]] + xs[1..];
      InsertBy(xs[0], SortBy(xs[1..], key), key)
  }

  /** `ranked` is ascending by each member's last assignment date. */
  ghost predicate Ranked(ranked: seq<nat>, history: seq<Past>, name: string)
  {
    forall i, j :: 0 <= i < j < |ranked| ==>
      KeyLe(LastAssigned(history, ranked[i], name), LastAssigned(history, ranked[j], name))
  }

  /** The candidate list for shift name `name`: every one of `members`, each
      as often as it occurs there, ascending by last assignment date. */
  function Rank(history: seq<Past>, members: seq<nat>, name: string): (ranked: seq<nat>)
    ensures multiset(ranked) == multiset(members)
    ensures Ranked(ranked, history, name)
  {
    var key := (u: nat) => LastAssigned(history, u, name);
    var r := SortBy(members, key);
    assert forall i, j :: 0 <= i < j < |r| ==> KeyLe(key(r[i]), key(r[j]));
    r
  }

  /** A member who never held a shift of that name comes before every member
      who did. */
  lemma NeverAssignedFirst(history: seq<Past>, members: seq<nat>, name: string)
    ensures var r := Rank(history, members, name);
      forall i, j :: (0 <= i < |r| && 0 <= j < |r| &&
                      LastAssigned(history, r[i], name).None? && LastAssigned(history, r[j], name).Some?) ==> i < j
  {
  }

  /** Of two members, the one assigned longer ago comes first. */
  lemma LongerAgoFirst(history: seq<Past>, members: seq<nat>, name: string)
    ensures var r := Rank(history, members, name);
      forall i, j :: (0 <= i < |r| && 0 <= j < |r| &&
                      LastAssigned(history, r[i], name).Some? && LastAssigned(history, r[j], name).Some? &&
                      LastAssigned(history, r[i], name).value < LastAssigned(history, r[j], name).value) ==> i < j
  {
  }
}
