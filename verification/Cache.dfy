/** src/cache.rs: the cache object. Its tables are always the replay of the statements executed on it. */
module CacheStore {
  import opened Prelude
  import opened Mapping
  import opened Probing
  import opened CacheModel
  import opened CacheHistory
  import opened Allocation

  /** `uid_owner` / `gid_owner`: free, ours, or somebody else's, whatever the age of the row. */
  function Owner(t: Table, candidate: int, id: string): Option<bool> {
    if candidate in HeldByOthers(t, id) then Some(false)
    else if id in t && t[id] == candidate then Some(true)
    else None
  }

  /** The probe loop over the owners in one table. */
  method ResolveIn(r: Range, t: Table, id: string) returns (result: Result<u32, Failure>)
    ensures result.Ok? <==> Resolve(r, t, id).Some?
    ensures result.Ok? ==> Resolve(r, t, id) == Some(result.value) && r.Contains(result.value)
    ensures result.Err? ==> result.error == RangeExhausted
  {
    var isTaken: u32 -> Result<Option<bool>, Failure> := c => Ok(Owner(t, c, id));
    result := ResolveId(r, id, isTaken);
    CandidateBase(r, id);
    var d := FirstFree(r, r.Home(id), HeldByOthers(t, id), 0);
    forall k: u32 | k < r.size && k <= d
      ensures Candidate(r, id, k) == Probe(r, r.Home(id), k)
      ensures Stops(isTaken(Candidate(r, id, k))) <==> k == d
    {
      CandidateIsProbe(r, id, k);
    }
    if d < r.size {
      CandidateIsProbe(r, id, d);
      assert Stops(isTaken(Candidate(r, id, d)));
    }
  }

  predicate NoRepeats(names: seq<string>) {
    forall i, j :: 0 <= i < j < |names| ==> names[i] != names[j]
  }

  ghost function ViewsOf(groups: seq<Group>): set<GroupView> {
    set g | g in groups :: ViewOf(g)
  }

  ghost predicate DistinctViews(groups: seq<Group>) {
    forall i, j :: 0 <= i < j < |groups| ==> ViewOf(groups[i]) != ViewOf(groups[j])
  }

  lemma ViewsOfMore(groups: seq<Group>, group: Group)
    ensures ViewsOf(groups + [group]) == ViewsOf(groups) + {ViewOf(group)}
    ensures DistinctViews(groups) && ViewOf(group) !in ViewsOf(groups) ==> DistinctViews(groups + [group])
  {
    assert forall i :: 0 <= i < |groups| ==> ViewOf(groups[i]) in ViewsOf(groups);
    assert group in groups + [group];
    forall g | g in groups ensures ViewOf(g) in ViewsOf(groups + [group]) {
      assert g in groups + [group];
    }
  }

  class Cache {
    const ttl: nat
    const cascade: bool
    var users: map<string, UserRow>
    var groups: map<string, GroupRow>
    var members: set<(string, string)>
    ghost var history: seq<Event>

    function Contents(): Tables
      reads this
    {
      Tables(users, groups, members)
    }

    ghost predicate Valid()
      reads this
    {
      Contents() == Replay(history, cascade)
    }

    constructor (ttl: nat, cascade: bool)
      ensures Valid() && history == [] && this.ttl == ttl && this.cascade == cascade
    {
      this.ttl, this.cascade := ttl, cascade;
      users, groups, members, history := map[], map[], {}, [];
    }

    method ResolveUid(id: string, r: Range) returns (result: Result<u32, Failure>)
      ensures result.Ok? <==> Resolve(r, TableOf(Uids, Contents()), id).Some?
      ensures result.Ok? ==> Resolve(r, TableOf(Uids, Contents()), id) == Some(result.value) && r.Contains(result.value)
      ensures result.Err? ==> result.error == RangeExhausted
    {
      result := ResolveIn(r, TableOf(Uids, Contents()), id);
    }

    method ResolveGid(id: string, r: Range) returns (result: Result<u32, Failure>)
      ensures result.Ok? <==> Resolve(r, TableOf(Gids, Contents()), id).Some?
      ensures result.Ok? ==> Resolve(r, TableOf(Gids, Contents()), id) == Some(result.value) && r.Contains(result.value)
      ensures result.Err? ==> result.error == RangeExhausted
    {
      result := ResolveIn(r, TableOf(Gids, Contents()), id);
    }

    method StoreUser(user: User, now: int)
      requires Valid()
      modifies this
      ensures Valid() && history == old(history) + [UserStored(user, now)]
    {
      users := map e | e in users && e != user.externalId && users[e].user.uid != user.uid :: users[e];
      users := users[user.externalId := UserRow(user, now)];
      history := history + [UserStored(user, now)];
      assert history[..|history| - 1] == old(history);
    }

    /** The member loop of `store_group`: one INSERT per name, until the primary key rejects one. */
    method InsertMembers(externalId: string, names: seq<string>) returns (result: Result<(), Failure>)
      requires MembersWithout(members, {externalId}) == members
      modifies this`members
      ensures members == old(members) + MemberRows(externalId, names[..Accepted(names)])
      ensures result == if NoRepeats(names) then Ok(()) else Err(ConstraintViolation)
    {
      ghost var kept := members;
      for i := 0 to |names|
        invariant members == kept + MemberRows(externalId, names[..i])
        invariant NoRepeats(names[..i])
      {
        var row := (externalId, names[i]);
        assert row in members <==> names[i] in names[..i] by {
          assert row !in kept;
        }
        if row in members {
          AcceptedIs(names, i);
          return Err(ConstraintViolation);
        }
        members := members + {row};
        assert names[..i + 1] == names[..i] + [names[i]];
      }
      AcceptedIs(names, |names|);
      return Ok(());
    }

    /** Fails on a repeated member name, with the row and the members before the repetition stored. */
    method StoreGroup(group: Group, now: int) returns (result: Result<(), Failure>)
      requires Valid()
      modifies this
      ensures Valid() && history == old(history) + [GroupStored(group, now)]
      ensures result == if NoRepeats(group.members) then Ok(()) else Err(ConstraintViolation)
    {
      ghost var s := Contents();
      var gone := Replaced(Contents(), group);
      groups := (groups - gone)[group.externalId := GroupRow(group.name, group.gid, now)];
      if cascade {
        members := MembersWithout(members, gone);
      }
      members := MembersWithout(members, {group.externalId});
      assert members == MembersWithout(s.members, if cascade then gone + {group.externalId} else {group.externalId});
      result := InsertMembers(group.externalId, group.members);
      assert Contents() == CacheModel.StoreGroup(s, group, now, cascade);
      history := history + [GroupStored(group, now)];
      assert history[..|history| - 1] == old(history);
    }

    /** Three statements, each with its own reading of the clock. */
    method PurgeExpired(age: nat, t1: int, t2: int, t3: int)
      requires Valid()
      modifies this
      ensures Valid() && history == old(history) + [Purged(age, t1, t2, t3)]
    {
      members := MembersWithout(members, StaleGroups(Contents(), age, t1));
      if cascade {
        members := MembersWithout(members, StaleGroups(Contents(), age, t2));
      }
      groups := groups - StaleGroups(Contents(), age, t2);
      users := users - StaleUsers(Contents(), age, t3);
      history := history + [Purged(age, t1, t2, t3)];
      assert history[..|history| - 1] == old(history);
    }

    method GetUserByUid(uid: u32, now: int) returns (found: Option<User>)
      requires Valid()
      ensures UsersByUid(Contents(), ttl, now, uid) == if found.Some? then {found.value} else {}
    {
      ReplayHasUniqueKeys(history, cascade);
      var rows := UsersByUid(Contents(), ttl, now, uid);
      if rows == {} {
        return None;
      }
      var user :| user in rows;
      return Some(user);
    }

    /** Logins are not unique: any one live row of that login may come first. */
    method GetUserByName(name: string, now: int) returns (found: Option<User>)
      ensures found == None <==> UsersByName(Contents(), ttl, now, name) == {}
      ensures found.Some? ==> found.value in UsersByName(Contents(), ttl, now, name)
    {
      var rows := UsersByName(Contents(), ttl, now, name);
      if rows == {} {
        return None;
      }
      var user :| user in rows;
      return Some(user);
    }

    method GetGroupMembers(externalId: string) returns (names: seq<string>)
      ensures (set m | m in names) == MembersOf(Contents(), externalId)
      ensures NoRepeats(names)
    {
      names := [];
      var rows := MembersOf(Contents(), externalId);
      ghost var all := rows;
      while rows != {}
        invariant rows <= all && (forall m :: m in names <==> m in all - rows)
        invariant NoRepeats(names)
        decreases |rows|
      {
        var name :| name in rows;
        assert name !in names;
        assert forall m :: m in names + [name] <==> m in names || m == name;
        names, rows := names + [name], rows - {name};
      }
    }

    method LoadGroup(view: GroupView) returns (group: Group)
      requires view.members == MembersOf(Contents(), view.externalId)
      ensures ViewOf(group) == view
      ensures NoRepeats(group.members)
    {
      var names := GetGroupMembers(view.externalId);
      return Group(view.externalId, view.name, view.gid, names);
    }

    method GetGroupByGid(gid: u32, now: int) returns (found: Option<Group>)
      requires Valid()
      ensures GroupsByGid(Contents(), ttl, now, gid) == if found.Some? then {ViewOf(found.value)} else {}
    {
      ReplayHasUniqueKeys(history, cascade);
      var rows := GroupsByGid(Contents(), ttl, now, gid);
      if rows == {} {
        return None;
      }
      var view :| view in rows;
      var group := LoadGroup(view);
      return Some(group);
    }

    method GetGroupByName(name: string, now: int) returns (found: Option<Group>)
      ensures found == None <==> GroupsByName(Contents(), ttl, now, name) == {}
      ensures found.Some? ==> ViewOf(found.value) in GroupsByName(Contents(), ttl, now, name)
    {
      var rows := GroupsByName(Contents(), ttl, now, name);
      if rows == {} {
        return None;
      }
      var view :| view in rows;
      var group := LoadGroup(view);
      return Some(group);
    }

    /** Every live group that lists the member, each once, in any order. */
    method GetGroupsForMember(member: string, now: int) returns (found: seq<Group>)
      ensures ViewsOf(found) == GroupsOfMember(Contents(), ttl, now, member)
      ensures DistinctViews(found)
    {
      found := [];
      var rows := GroupsOfMember(Contents(), ttl, now, member);
      ghost var all := rows;
      while rows != {}
        invariant rows <= all && ViewsOf(found) == all - rows
        invariant DistinctViews(found)
        decreases |rows|
      {
        var view :| view in rows;
        GroupsOfMemberLoad(Contents(), ttl, now, member, view);
        var group := LoadGroup(view);
        ViewsOfMore(found, group);
        found, rows := found + [group], rows - {view};
      }
    }
  }

  lemma GroupsOfMemberLoad(s: Tables, ttl: nat, now: int, member: string, view: GroupView)
    requires view in GroupsOfMember(s, ttl, now, member)
    ensures view.members == MembersOf(s, view.externalId)
  {
  }

  /** The accepted members are the longest prefix without a repetition. */
  lemma {:induction false} AcceptedIs(members: seq<string>, n: nat)
    requires n <= |members|
    requires NoRepeats(members[..n])
    requires n < |members| ==> members[n] in members[..n]
    ensures Accepted(members) == n
    ensures NoRepeats(members) <==> n == |members|
  {
    assert n == |members| ==> members[..n] == members;
    var k := Accepted(members);
    assert k < |members| ==> exists a :: 0 <= a < k && members[a] == members[k];
    assert n < |members| ==> exists a :: 0 <= a < n && members[a] == members[n];
  }
}
