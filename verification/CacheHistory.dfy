/** What holds of the cache tables after every history of stores and purges. */
module CacheHistory {
  import opened Prelude
  import opened CacheModel

  // ---- Unique keys ----

  ghost predicate UniqueKeys(s: Tables) {
    && (forall e :: e in s.users ==> s.users[e].user.externalId == e)
    && (forall d, e :: d in s.users && e in s.users && s.users[d].user.uid == s.users[e].user.uid ==> d == e)
    && (forall d, e :: d in s.groups && e in s.groups && s.groups[d].gid == s.groups[e].gid ==> d == e)
  }

  lemma {:induction false} ReplayHasUniqueKeys(h: seq<Event>, cascade: bool)
    ensures UniqueKeys(Replay(h, cascade))
  {
    if h != [] {
      ReplayHasUniqueKeys(h[..|h| - 1], cascade);
    }
  }

  // ---- Rows and the stores that wrote them ----

  /** Two stores that write the same row; the members of a group are rows of their own. */
  predicate SameRow(a: Event, b: Event) {
    match (a, b)
    case (UserStored(u, s), UserStored(v, t)) => u == v && s == t
    case (GroupStored(g, s), GroupStored(h, t)) => g.(members := []) == h.(members := []) && s == t
    case _ => false
  }

  /** The row written by a store is in its table. */
  predicate HasRow(s: Tables, row: Event) {
    match row
    case UserStored(u, at) => u.externalId in s.users && s.users[u.externalId] == UserRow(u, at)
    case GroupStored(g, at) => g.externalId in s.groups && s.groups[g.externalId] == GroupRow(g.name, g.gid, at)
    case Purged(_, _, _, _) => false
  }

  /**
   * What deletes the row written by an earlier store: a store of the same kind with the same external id
   * or the same number, or a purge that finds it stale at the clock reading of its statement.
   */
  predicate Removes(event: Event, row: Event) {
    match (event, row)
    case (UserStored(u, _), UserStored(v, _)) => u.externalId == v.externalId || u.uid == v.uid
    case (GroupStored(g, _), GroupStored(h, _)) => g.externalId == h.externalId || g.gid == h.gid
    case (Purged(age, _, _, t3), UserStored(_, at)) => at <= t3 - age
    case (Purged(age, _, t2, _), GroupStored(_, at)) => at <= t2 - age
    case _ => false
  }

  /** Nothing after position `i` has removed the row written there. */
  ghost predicate Survives(h: seq<Event>, i: nat)
    requires i < |h|
  {
    forall j :: i < j < |h| ==> !Removes(h[j], h[i])
  }

  /** The store at position `i` wrote this row and nothing since has removed it. */
  ghost predicate WroteAt(h: seq<Event>, i: nat, row: Event) {
    i < |h| && SameRow(h[i], row) && Survives(h, i)
  }

  lemma WroteEarlier(h: seq<Event>, i: nat, row: Event)
    requires h != [] && i < |h| - 1
    ensures WroteAt(h, i, row) <==> WroteAt(h[..|h| - 1], i, row) && !Removes(h[|h| - 1], row)
  {
    var init := h[..|h| - 1];
    assert init[i] == h[i];
    if WroteAt(h, i, row) {
      forall j | i < j < |init| ensures !Removes(init[j], init[i]) {
        assert init[j] == h[j];
      }
    }
    if WroteAt(init, i, row) && !Removes(h[|h| - 1], row) {
      forall j | i < j < |h| ensures !Removes(h[j], h[i]) {
        if j < |init| {
          assert h[j] == init[j];
        }
      }
    }
  }

  lemma RowAfter(s: Tables, event: Event, cascade: bool, row: Event)
    requires UniqueKeys(s)
    ensures HasRow(Effect(s, event, cascade), row) <==> SameRow(event, row) || (HasRow(s, row) && !Removes(event, row))
  {
  }

  /**
   * A user or group row is in the cache exactly when a store wrote it and no later event removed it: no
   * later store of the same external id or number, and no purge that found it stale.
   */
  lemma {:induction false} RowIffSurvivingStore(h: seq<Event>, cascade: bool, row: Event)
    ensures HasRow(Replay(h, cascade), row) <==> exists i: nat :: WroteAt(h, i, row)
  {
    if h != [] {
      var init, last := h[..|h| - 1], h[|h| - 1];
      ReplayHasUniqueKeys(init, cascade);
      RowAfter(Replay(init, cascade), last, cascade, row);
      RowIffSurvivingStore(init, cascade, row);
      if i: nat :| WroteAt(h, i, row) && i < |h| - 1 {
        WroteEarlier(h, i, row);
      }
      if i: nat :| WroteAt(init, i, row) {
        WroteEarlier(h, i, row);
      }
      assert WroteAt(h, |h| - 1, row) <==> SameRow(last, row);
    }
  }

  /** The last store for an external id, if any. */
  function LastStore(h: seq<Event>, e: string): Option<UserRow> {
    if h == [] then None
    else
      var last := h[|h| - 1];
      if last.UserStored? && last.user.externalId == e then Some(UserRow(last.user, last.at))
      else LastStore(h[..|h| - 1], e)
  }

  /** A row always is the last one stored for its external id. */
  lemma {:induction false} RowIsLastStore(h: seq<Event>, cascade: bool, e: string)
    requires e in Replay(h, cascade).users
    ensures LastStore(h, e) == Some(Replay(h, cascade).users[e])
  {
    var init, last := h[..|h| - 1], h[|h| - 1];
    if !(last.UserStored? && last.user.externalId == e) {
      RowIsLastStore(init, cascade, e);
    }
  }

  /**
   * Freshness of the offline decision: a login found in the cache at `now` was stored less than the
   * ttl ago, by the last store for its external id, with the very status returned.
   */
  lemma OfflineUserIsFresh(h: seq<Event>, cascade: bool, ttl: nat, now: int, name: string, user: User)
    requires user in UsersByName(Replay(h, cascade), ttl, now, name)
    ensures exists at :: LastStore(h, user.externalId) == Some(UserRow(user, at)) && now - at < ttl && user.name == name
  {
    var s := Replay(h, cascade);
    var live := LiveUsers(s, ttl, now);
    var e :| e in live && live[e].user.name == name && live[e].user == user;
    ReplayHasUniqueKeys(h, cascade);
    RowIsLastStore(h, cascade, e);
    assert LastStore(h, user.externalId) == Some(UserRow(user, live[e].cachedAt));
  }

  // ---- What a store writes is what the lookups return ----

  /** The members a store of this group leaves: the names before the first repetition. */
  function Kept(group: Group): Group {
    group.(members := group.members[..Accepted(group.members)])
  }

  /** From a store on, until an event removes its row, its uid leads to that user and after the ttl to nobody. */
  lemma StoredUserReadsBack(h: seq<Event>, cascade: bool, i: nat, ttl: nat, now: int)
    requires i < |h| && h[i].UserStored? && Survives(h, i)
    ensures UsersByUid(Replay(h, cascade), ttl, now, h[i].user.uid) == if now - h[i].at < ttl then {h[i].user} else {}
    ensures h[i].user in UsersByName(Replay(h, cascade), ttl, now, h[i].user.name) <==> now - h[i].at < ttl
  {
    var s, user := Replay(h, cascade), h[i].user;
    assert WroteAt(h, i, h[i]);
    RowIffSurvivingStore(h, cascade, h[i]);
    ReplayHasUniqueKeys(h, cascade);
    assert HasRow(s, h[i]);
    if now - h[i].at < ttl {
      assert LiveUsers(s, ttl, now)[user.externalId].user == user;
    }
  }

  /** Right after a store the group's member rows are the names before the first repetition, whatever they were. */
  lemma GroupAfterStore(s: Tables, group: Group, at: int, cascade: bool)
    ensures ViewAt(StoreGroup(s, group, at, cascade), group.externalId) == ViewOf(Kept(group))
  {
    var s', e := StoreGroup(s, group, at, cascade), group.externalId;
    forall m ensures m in MembersOf(s', e) <==> m in Kept(group).members {
      assert (e, m) in s'.members <==> (e, m) in MemberRows(e, Kept(group).members);
      assert m in MembersOf(s', e) <==> exists p :: p in s'.members && p.0 == e && p.1 == m;
    }
    assert MembersOf(s', e) == set m | m in Kept(group).members;
  }

  /**
   * From a store of a group on, until an event removes its row, the group is in the cache with exactly
   * the members stored: group and member rows are written and deleted by different statements, but never
   * come apart.
   */
  lemma {:induction false} StoredGroupIntact(h: seq<Event>, cascade: bool, i: nat, clock: int)
    requires i < |h| && h[i].GroupStored? && Survives(h, i) && Timed(h, clock)
    ensures HasRow(Replay(h, cascade), h[i])
    ensures ViewAt(Replay(h, cascade), h[i].group.externalId) == ViewOf(Kept(h[i].group))
    decreases |h|
  {
    var init, last := h[..|h| - 1], h[|h| - 1];
    var s, e := Replay(init, cascade), h[i].group.externalId;
    if i == |h| - 1 {
      GroupAfterStore(s, last.group, last.at, cascade);
    } else {
      assert WroteAt(h, i, h[i]);
      WroteEarlier(h, i, h[i]);
      assert init[i] == h[i];
      StoredGroupIntact(init, cascade, i, last.Start());
      ReplayHasUniqueKeys(init, cascade);
      RowAfter(s, last, cascade, h[i]);
      match last
      case UserStored(_, _) =>
      case GroupStored(group, at) => StoreGroupKeepsOthers(s, group, at, cascade, e);
      case Purged(age, t1, t2, t3) => PurgeRemovesStale(s, age, t1, t2, t3, cascade, e);
    }
  }

  /** So its gid leads to that group, with those members, until an event removes its row or the ttl has passed. */
  lemma StoredGroupReadsBack(h: seq<Event>, cascade: bool, i: nat, ttl: nat, now: int)
    requires i < |h| && h[i].GroupStored? && Survives(h, i) && Timed(h, now)
    ensures GroupsByGid(Replay(h, cascade), ttl, now, h[i].group.gid)
         == if now - h[i].at < ttl then {ViewOf(Kept(h[i].group))} else {}
  {
    var s, e := Replay(h, cascade), h[i].group.externalId;
    StoredGroupIntact(h, cascade, i, now);
    ReplayHasUniqueKeys(h, cascade);
    if now - h[i].at < ttl {
      assert LiveGroups(s, ttl, now)[e].gid == h[i].group.gid;
      assert ViewAt(s, e) in GroupsByGid(s, ttl, now, h[i].group.gid);
    }
  }

  /** And so does its name, though not to that group alone: names are not unique. */
  lemma StoredGroupFoundByName(h: seq<Event>, cascade: bool, i: nat, ttl: nat, now: int)
    requires i < |h| && h[i].GroupStored? && Survives(h, i) && Timed(h, now)
    ensures ViewOf(Kept(h[i].group)) in GroupsByName(Replay(h, cascade), ttl, now, h[i].group.name)
            <==> now - h[i].at < ttl
  {
    var s, e := Replay(h, cascade), h[i].group.externalId;
    StoredGroupIntact(h, cascade, i, now);
    if now - h[i].at < ttl {
      assert LiveGroups(s, ttl, now)[e].name == h[i].group.name;
    }
  }

  /** Whatever is found by name has that name, and is the one group that its gid leads to. */
  lemma FoundByNameIsNamed(h: seq<Event>, cascade: bool, ttl: nat, now: int, name: string, v: GroupView)
    ensures v in GroupsByName(Replay(h, cascade), ttl, now, name)
            <==> v.name == name && GroupsByGid(Replay(h, cascade), ttl, now, v.gid) == {v}
  {
    var s := Replay(h, cascade);
    var live := LiveGroups(s, ttl, now);
    ReplayHasUniqueKeys(h, cascade);
    if v in GroupsByName(s, ttl, now, name) {
      assert v.externalId in live && v == ViewAt(s, v.externalId);
      assert v in GroupsByGid(s, ttl, now, v.gid);
      forall w | w in GroupsByGid(s, ttl, now, v.gid) ensures w == v {
        GidIdentifiesGroup(s, ttl, now, v.gid, v, w);
      }
    } else if GroupsByGid(s, ttl, now, v.gid) == {v} {
      assert v in GroupsByGid(s, ttl, now, v.gid);
    }
  }

  /** The same for users: found by name exactly when named so and the one user that its uid leads to. */
  lemma UserFoundByName(h: seq<Event>, cascade: bool, ttl: nat, now: int, name: string, user: User)
    ensures user in UsersByName(Replay(h, cascade), ttl, now, name)
            <==> user.name == name && UsersByUid(Replay(h, cascade), ttl, now, user.uid) == {user}
  {
    var s := Replay(h, cascade);
    var live := LiveUsers(s, ttl, now);
    ReplayHasUniqueKeys(h, cascade);
    if user in UsersByName(s, ttl, now, name) {
      assert live[user.externalId].user == user;
      assert user in UsersByUid(s, ttl, now, user.uid);
      assert forall w :: w in UsersByUid(s, ttl, now, user.uid) ==> w == user;
    } else if UsersByUid(s, ttl, now, user.uid) == {user} {
      assert user in UsersByUid(s, ttl, now, user.uid);
    }
  }

  /**
   * Freshness of offline membership: a group found for a login at `now` was stored less than the ttl
   * ago, no later store or purge has touched it, and that very store listed the login.
   */
  lemma OfflineGroupIsFresh(h: seq<Event>, cascade: bool, ttl: nat, now: int, member: string, v: GroupView)
    requires Timed(h, now) && v in GroupsOfMember(Replay(h, cascade), ttl, now, member)
    ensures exists i: nat :: i < |h| && h[i].GroupStored? && Survives(h, i) && now - h[i].at < ttl
                             && v == ViewOf(Kept(h[i].group)) && member in Kept(h[i].group).members
  {
    var s := Replay(h, cascade);
    var e := v.externalId;
    var row := GroupStored(Group(e, s.groups[e].name, s.groups[e].gid, []), s.groups[e].cachedAt);
    assert HasRow(s, row);
    RowIffSurvivingStore(h, cascade, row);
    var i: nat :| WroteAt(h, i, row);
    StoredGroupIntact(h, cascade, i, now);
    assert (e, member).1 in MembersOf(s, e);
    assert v == ViewOf(Kept(h[i].group));
  }

  /** Every other group that the store does not replace keeps its row and its members. */
  lemma StoreGroupKeepsOthers(s: Tables, group: Group, at: int, cascade: bool, e: string)
    requires e in s.groups && e !in Replaced(s, group)
    ensures e in StoreGroup(s, group, at, cascade).groups
    ensures StoreGroup(s, group, at, cascade).groups[e] == s.groups[e]
    ensures ViewAt(StoreGroup(s, group, at, cascade), e) == ViewAt(s, e)
  {
    var s' := StoreGroup(s, group, at, cascade);
    assert MembersOf(s', e) == MembersOf(s, e) by {
      forall p: (string, string) | p.0 == e ensures p in s'.members <==> p in s.members {
      }
    }
  }

  // ---- What a purge removes ----

  ghost predicate NoOrphans(s: Tables) {
    forall p :: p in s.members ==> p.0 in s.groups
  }

  /** A purge removes exactly the rows that the clock reading of their own statement finds stale. */
  lemma PurgeRemovesStale(s: Tables, age: nat, t1: int, t2: int, t3: int, cascade: bool, e: string)
    ensures var s' := Purge(s, age, t1, t2, t3, cascade);
            && (e in s'.users <==> e in s.users && t3 - s.users[e].cachedAt < age)
            && (e in s'.groups <==> e in s.groups && t2 - s.groups[e].cachedAt < age)
            && (e in s'.users ==> s'.users[e] == s.users[e]) && (e in s'.groups ==> s'.groups[e] == s.groups[e])
            && (e in s'.groups && t1 <= t2 ==> MembersOf(s', e) == MembersOf(s, e))
  {
    var s' := Purge(s, age, t1, t2, t3, cascade);
    if e in s'.groups && t1 <= t2 {
      forall p: (string, string) | p.0 == e ensures p in s'.members <==> p in s.members {
      }
    }
  }

  /**
   * Member rows outlive their group exactly when the cascade is off and a group with members turned
   * stale between the clock readings of the first two statements.
   */
  lemma PurgeOrphansIff(s: Tables, age: nat, t1: int, t2: int, t3: int, cascade: bool)
    requires NoOrphans(s) && t1 <= t2
    ensures NoOrphans(Purge(s, age, t1, t2, t3, cascade))
            <==> cascade || forall e ::
                              e in StaleGroups(s, age, t2) && e !in StaleGroups(s, age, t1) ==> MembersOf(s, e) == {}
  {
    var s' := Purge(s, age, t1, t2, t3, cascade);
    if !cascade {
      if NoOrphans(s') {
        forall e | e in StaleGroups(s, age, t2) && e !in StaleGroups(s, age, t1) ensures MembersOf(s, e) == {} {
          assert e !in s'.groups;
          assert forall p :: p in s.members && p.0 == e ==> p in s'.members;
        }
      } else {
        var p :| p in s'.members && p.0 !in s'.groups;
        assert p.1 in MembersOf(s, p.0);
        assert p.0 in StaleGroups(s, age, t2) && p.0 !in StaleGroups(s, age, t1);
      }
    }
  }

  /** A store leaves orphaned member rows exactly when the cascade is off and it replaces another group with members. */
  lemma StoreOrphansIff(s: Tables, group: Group, at: int, cascade: bool)
    requires NoOrphans(s)
    ensures NoOrphans(StoreGroup(s, group, at, cascade))
            <==> cascade || forall e :: e in Replaced(s, group) && e != group.externalId ==> MembersOf(s, e) == {}
  {
    var s' := StoreGroup(s, group, at, cascade);
    if !cascade {
      if NoOrphans(s') {
        forall e | e in Replaced(s, group) && e != group.externalId ensures MembersOf(s, e) == {} {
          assert e !in s'.groups;
          assert forall p :: p in s.members && p.0 == e ==> p in s'.members;
        }
      } else {
        var p :| p in s'.members && p.0 !in s'.groups;
        assert p.1 in MembersOf(s, p.0);
        assert p.0 in Replaced(s, group) && p.0 != group.externalId;
      }
    }
  }

  /** With the cascade enforced no history, whatever its clock, ever leaves a member row without its group. */
  lemma {:induction false} CascadeLeavesNoOrphans(h: seq<Event>)
    ensures NoOrphans(Replay(h, true))
  {
    if h != [] {
      var init, last := h[..|h| - 1], h[|h| - 1];
      CascadeLeavesNoOrphans(init);
      match last
      case UserStored(_, _) =>
      case GroupStored(group, at) => StoreOrphansIff(Replay(init, true), group, at, true);
      case Purged(_, _, _, _) =>
    }
  }

  // ---- Membership ----

  /** At most one live group has a given gid. */
  lemma GidIdentifiesGroup(s: Tables, ttl: nat, now: int, gid: u32, v: GroupView, w: GroupView)
    requires UniqueKeys(s)
    requires v in GroupsByGid(s, ttl, now, gid) && w in GroupsByGid(s, ttl, now, gid)
    ensures v == w
  {
  }

  /**
   * The membership index agrees with the forward lookup: a group is among the groups of a login exactly
   * when looking its gid up returns it with that login among its members.
   */
  lemma MembershipAgrees(h: seq<Event>, cascade: bool, ttl: nat, now: int, member: string, v: GroupView)
    ensures v in GroupsOfMember(Replay(h, cascade), ttl, now, member)
            <==> GroupsByGid(Replay(h, cascade), ttl, now, v.gid) == {v} && member in v.members
  {
    var s := Replay(h, cascade);
    ReplayHasUniqueKeys(h, cascade);
    var live := LiveGroups(s, ttl, now);
    if v in GroupsOfMember(s, ttl, now, member) {
      assert v.externalId in live && v == ViewAt(s, v.externalId);
      assert (v.externalId, member).1 in MembersOf(s, v.externalId);
      assert v in GroupsByGid(s, ttl, now, v.gid);
      forall w | w in GroupsByGid(s, ttl, now, v.gid) ensures w == v {
        GidIdentifiesGroup(s, ttl, now, v.gid, v, w);
      }
    } else if GroupsByGid(s, ttl, now, v.gid) == {v} {
      assert v in GroupsByGid(s, ttl, now, v.gid);
      var e :| e in live && live[e].gid == v.gid && v == ViewAt(s, e);
      assert (e, member) !in s.members;
      assert forall p :: p in s.members && p.0 == e && p.1 == member ==> p == (e, member);
    }
  }

  // ---- Purges are unobservable ----

  /** What the queries can see at `now`: live rows, and the member rows of live groups. */
  ghost function Visible(s: Tables, ttl: nat, now: int): Tables {
    Tables(LiveUsers(s, ttl, now), LiveGroups(s, ttl, now),
           set p | p in s.members && p.0 in LiveGroups(s, ttl, now))
  }

  function WithoutPurges(h: seq<Event>): seq<Event> {
    if h == [] then []
    else
      var init, last := WithoutPurges(h[..|h| - 1]), h[|h| - 1];
      if last.Purged? then init else init + [last]
  }

  /** Leaving the purges out keeps every store as often as it is there, and the order of what is kept. */
  lemma {:induction false} WithoutPurgesKeepsStores(h: seq<Event>, event: Event)
    ensures multiset(WithoutPurges(h))[event] == if event.Purged? then 0 else multiset(h)[event]
  {
    if h != [] {
      var init, last := h[..|h| - 1], h[|h| - 1];
      WithoutPurgesKeepsStores(init, event);
      assert h == init + [last];
    }
  }

  lemma {:induction false} WithoutPurgesConcat(g: seq<Event>, h: seq<Event>)
    ensures WithoutPurges(g + h) == WithoutPurges(g) + WithoutPurges(h)
  {
    if h == [] {
      assert g + h == g;
    } else {
      WithoutPurgesConcat(g, h[..|h| - 1]);
      assert (g + h)[..|g + h| - 1] == g + h[..|h| - 1];
    }
  }

  ghost predicate PurgesAtLeast(h: seq<Event>, ttl: nat) {
    forall i :: 0 <= i < |h| && h[i].Purged? ==> h[i].ttl >= ttl
  }

  lemma PurgeInvisible(s: Tables, ttl: nat, now: int, T: nat, t1: int, t2: int, t3: int, cascade: bool)
    requires T >= ttl && t1 <= now && t2 <= now && t3 <= now
    ensures Visible(Purge(s, T, t1, t2, t3, cascade), ttl, now) == Visible(s, ttl, now)
  {
    var s' := Purge(s, T, t1, t2, t3, cascade);
    assert LiveUsers(s', ttl, now) == LiveUsers(s, ttl, now);
    assert LiveGroups(s', ttl, now) == LiveGroups(s, ttl, now);
  }

  lemma StoreUserSeesVisible(s: Tables, ttl: nat, now: int, user: User, at: int)
    ensures Visible(StoreUser(s, user, at), ttl, now) == Visible(StoreUser(Visible(s, ttl, now), user, at), ttl, now)
  {
    assert LiveUsers(StoreUser(s, user, at), ttl, now)
        == LiveUsers(StoreUser(Visible(s, ttl, now), user, at), ttl, now);
  }

  /** Nor does it matter to what is visible whether the member rows of replaced groups are cascaded away. */
  lemma StoreGroupSeesVisible(s: Tables, ttl: nat, now: int, group: Group, at: int, c: bool, c': bool)
    ensures Visible(StoreGroup(s, group, at, c), ttl, now)
         == Visible(StoreGroup(Visible(s, ttl, now), group, at, c'), ttl, now)
  {
    var a, b := StoreGroup(s, group, at, c), StoreGroup(Visible(s, ttl, now), group, at, c');
    LiveAfterStore(s, ttl, now, group, at, c, c');
    forall p: (string, string) | p.0 in LiveGroups(a, ttl, now)
      ensures p in a.members <==> p in b.members
    {
      MemberAfterStore(s, ttl, now, group, at, c, c', p);
    }
  }

  lemma LiveAfterStore(s: Tables, ttl: nat, now: int, group: Group, at: int, c: bool, c': bool)
    ensures LiveGroups(StoreGroup(s, group, at, c), ttl, now)
         == LiveGroups(StoreGroup(Visible(s, ttl, now), group, at, c'), ttl, now)
    ensures LiveUsers(StoreGroup(s, group, at, c), ttl, now)
         == LiveUsers(StoreGroup(Visible(s, ttl, now), group, at, c'), ttl, now)
  {
  }

  lemma MemberAfterStore(s: Tables, ttl: nat, now: int, group: Group, at: int, c: bool, c': bool, p: (string, string))
    requires p.0 in LiveGroups(StoreGroup(s, group, at, c), ttl, now)
    ensures p in StoreGroup(s, group, at, c).members
            <==> p in StoreGroup(Visible(s, ttl, now), group, at, c').members
  {
    if p.0 != group.externalId {
      assert p.0 !in Replaced(s, group) && p.0 in LiveGroups(s, ttl, now);
    }
  }

  lemma {:induction false} PurgesInvisible(h: seq<Event>, c: bool, c': bool, ttl: nat, now: int)
    requires Timed(h, now) && PurgesAtLeast(h, ttl)
    ensures Visible(Replay(h, c), ttl, now) == Visible(Replay(WithoutPurges(h), c'), ttl, now)
  {
    if h != [] {
      var init, last := h[..|h| - 1], h[|h| - 1];
      TimedLater(init, last.Start(), now);
      PurgesInvisible(init, c, c', ttl, now);
      var s, s' := Replay(init, c), Replay(WithoutPurges(init), c');
      match last
      case UserStored(user, at) =>
        StoreUserSeesVisible(s, ttl, now, user, at);
        StoreUserSeesVisible(s', ttl, now, user, at);
        assert (WithoutPurges(init) + [last])[..|WithoutPurges(init)|] == WithoutPurges(init);
      case GroupStored(group, at) =>
        StoreGroupSeesVisible(s, ttl, now, group, at, c, c);
        StoreGroupSeesVisible(s', ttl, now, group, at, c', c);
        assert (WithoutPurges(init) + [last])[..|WithoutPurges(init)|] == WithoutPurges(init);
      case Purged(T, t1, t2, t3) =>
        assert last == h[|h| - 1];
        PurgeInvisible(s, ttl, now, T, t1, t2, t3, c);
    }
  }

  lemma QueriesSeeVisible(s: Tables, ttl: nat, now: int, id: u32, name: string)
    ensures UsersByUid(s, ttl, now, id) == UsersByUid(Visible(s, ttl, now), ttl, now, id)
    ensures UsersByName(s, ttl, now, name) == UsersByName(Visible(s, ttl, now), ttl, now, name)
    ensures GroupsByGid(s, ttl, now, id) == GroupsByGid(Visible(s, ttl, now), ttl, now, id)
    ensures GroupsByName(s, ttl, now, name) == GroupsByName(Visible(s, ttl, now), ttl, now, name)
    ensures GroupsOfMember(s, ttl, now, name) == GroupsOfMember(Visible(s, ttl, now), ttl, now, name)
  {
    var v := Visible(s, ttl, now);
    assert LiveUsers(v, ttl, now) == LiveUsers(s, ttl, now);
    assert LiveGroups(v, ttl, now) == LiveGroups(s, ttl, now);
    forall e | e in LiveGroups(s, ttl, now) ensures ViewAt(s, e) == ViewAt(v, e) {
      assert MembersOf(s, e) == MembersOf(v, e);
    }
  }

  /**
   * Purges are unobservable. Take any history of stores and purges, each purge with an age of at least
   * the cache's ttl and its own three clock readings, and leave all its purges out: at any later time
   * every ttl-respecting lookup has the same answers, whether or not the declared cascade is enforced.
   */
  lemma PurgesAreUnobservable(h: seq<Event>, c: bool, c': bool, ttl: nat, now: int, id: u32, name: string)
    requires Timed(h, now) && PurgesAtLeast(h, ttl)
    ensures var s, s' := Replay(h, c), Replay(WithoutPurges(h), c');
            && UsersByUid(s, ttl, now, id) == UsersByUid(s', ttl, now, id)
            && UsersByName(s, ttl, now, name) == UsersByName(s', ttl, now, name)
            && GroupsByGid(s, ttl, now, id) == GroupsByGid(s', ttl, now, id)
            && GroupsByName(s, ttl, now, name) == GroupsByName(s', ttl, now, name)
            && GroupsOfMember(s, ttl, now, name) == GroupsOfMember(s', ttl, now, name)
  {
    PurgesInvisible(h, c, c', ttl, now);
    QueriesSeeVisible(Replay(h, c), ttl, now, id, name);
    QueriesSeeVisible(Replay(WithoutPurges(h), c'), ttl, now, id, name);
  }
}
