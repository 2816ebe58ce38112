/** src/service.rs: SCIM first, cache second. SCIM replies and clock readings are inputs. */
module ServiceFacade {
  import opened Prelude
  import opened Mapping
  import opened Probing
  import opened CacheModel
  import opened CacheHistory
  import opened Allocation
  import opened CacheStore

  const MAX_NAME_LEN := 256

  datatype OfflineAuthPolicy = CachedStatus | Deny

  /** `homeOf` applies the home template to a login. */
  datatype Config = Config(ranges: Ranges, ttlSeconds: nat, policy: OfflineAuthPolicy,
                           homeOf: string -> string, shell: string)

  /** `groups` holds the `value` of each group reference, in order. */
  datatype ScimUser = ScimUser(id: string, userName: string, displayName: Option<string>,
                               active: Option<bool>, groups: seq<string>)

  /** `members` holds the optional `display` of each member reference, in order. */
  datatype ScimGroup = ScimGroup(id: string, displayName: string, members: seq<Option<string>>)

  datatype Reply<+T> = Found(value: T) | Absent | Unreachable

  function GetOr<T>(o: Option<T>, default: T): T {
    if o.Some? then o.value else default
  }

  /** The external id whose gid becomes the user's primary gid. */
  function PrimaryGroup(su: ScimUser): string {
    if su.groups == [] then su.id else su.groups[0]
  }

  /** `filter_map(|m| m.display.clone())`. */
  function Displays(members: seq<Option<string>>): seq<string> {
    if members == [] then []
    else (if members[0].Some? then [members[0].value] else []) + Displays(members[1..])
  }

  ghost function PresentBefore(members: seq<Option<string>>, n: nat): set<nat>
    requires n <= |members|
  {
    set j: nat | j < n && members[j].Some?
  }

  /** As many names as members have one, and each member's name preceded by those of the members before it. */
  lemma DisplaysInOrder(members: seq<Option<string>>, i: nat)
    requires i < |members| && members[i].Some?
    ensures |Displays(members)| == |PresentBefore(members, |members|)|
    ensures |PresentBefore(members, i)| < |Displays(members)|
    ensures Displays(members)[|PresentBefore(members, i)|] == members[i].value
  {
    DisplaysCount(members, i);
    DisplaysCount(members, |members|);
    assert members[..|members|] == members == members[..i] + members[i..];
    DisplaysConcat(members[..i], members[i..]);
  }

  lemma {:induction false} DisplaysCount(members: seq<Option<string>>, n: nat)
    requires n <= |members|
    ensures |Displays(members[..n])| == |PresentBefore(members, n)|
  {
    if n == 0 {
      assert PresentBefore(members, n) == {};
    } else {
      var m := n - 1;
      DisplaysCount(members, m);
      assert members[..n] == members[..m] + [members[m]];
      DisplaysConcat(members[..m], [members[m]]);
      assert PresentBefore(members, n) == PresentBefore(members, m) + if members[m].Some? then {m} else {};
    }
  }

  lemma {:induction false} DisplaysConcat(a: seq<Option<string>>, b: seq<Option<string>>)
    ensures Displays(a + b) == Displays(a) + Displays(b)
  {
    if a == [] {
      assert a + b == b;
    } else {
      DisplaysConcat(a[1..], b);
      assert (a + b)[1..] == a[1..] + b;
    }
  }

  /** What a user model built on these tables must satisfy: a missing status is active, a missing display name empty. */
  ghost predicate ModelsUser(c: Config, s: Tables, su: ScimUser, user: User) {
    && user.externalId == su.id && user.name == su.userName
    && Resolve(c.ranges.uids, TableOf(Uids, s), su.id) == Some(user.uid)
    && Resolve(c.ranges.gids, TableOf(Gids, s), if |su.groups| > 0 then su.groups[0] else su.id) == Some(user.gid)
    && user.gecos == (match su.displayName case Some(display) => display case None => "")
    && user.home == c.homeOf(su.userName) && user.shell == c.shell
    && (user.active <==> su.active != Some(false))
  }

  ghost predicate UserResolvable(c: Config, s: Tables, su: ScimUser) {
    && Resolve(c.ranges.uids, TableOf(Uids, s), su.id).Some?
    && Resolve(c.ranges.gids, TableOf(Gids, s), if |su.groups| > 0 then su.groups[0] else su.id).Some?
  }

  ghost predicate ModelsGroup(c: Config, s: Tables, sg: ScimGroup, group: Group) {
    && group.externalId == sg.id && group.name == sg.displayName && group.members == Displays(sg.members)
    && Resolve(c.ranges.gids, TableOf(Gids, s), sg.id) == Some(group.gid)
  }

  /** The group is stored in any case; a repeated member display makes the call fail after that. */
  ghost predicate GroupLookedUp(c: Config, s: Tables, sg: ScimGroup, group: Group,
                                result: Result<Option<Group>, Failure>)
  {
    ModelsGroup(c, s, sg, group)
    && result == if NoRepeats(group.members) then Ok(Some(group)) else Err(ConstraintViolation)
  }

  /** A found user is stored exactly when both its ids resolve, and nothing else is. */
  ghost predicate FoundStored(c: Config, s: Tables, su: ScimUser, now: int, before: seq<Event>, after: seq<Event>) {
    if UserResolvable(c, s, su)
    then exists user :: ModelsUser(c, s, su, user) && after == before + [UserStored(user, now)]
    else after == before
  }

  /** The offline evidence for an active login: its last stored status, younger than the ttl. */
  ghost predicate RecentlyStoredActive(h: seq<Event>, ttl: nat, now: int, name: string) {
    exists user: User, at: int ::
      LastStore(h, user.externalId) == Some(UserRow(user, at)) && now - at < ttl && user.name == name && user.active
  }

  /** The gids answered while SCIM is reachable: each reported group's resolution, in order. */
  ghost predicate OnlineAnswer(r: Ranges, s: Tables, reported: seq<string>, gids: seq<u32>) {
    |gids| == |reported|
    && forall i :: 0 <= i < |gids| ==> Resolve(r.gids, TableOf(Gids, s), reported[i]) == Some(gids[i])
  }

  ghost predicate AllResolve(r: Ranges, s: Tables, reported: seq<string>) {
    forall i :: 0 <= i < |reported| ==> Resolve(r.gids, TableOf(Gids, s), reported[i]).Some?
  }

  /** The gids answered from the cache: those of the live groups that list the login. */
  ghost predicate OfflineAnswer(s: Tables, ttl: nat, now: int, name: string, gids: seq<u32>) {
    forall gid :: gid in gids <==> exists v :: v in GroupsOfMember(s, ttl, now, name) && v.gid == gid
  }

  ghost function Listing(s: Tables, ttl: nat, now: int, name: string): set<string> {
    set e | e in LiveGroups(s, ttl, now) && (e, name) in s.members
  }

  class Service {
    const config: Config
    const cache: Cache

    /** Every stored id was resolved on the tables it was stored into. */
    ghost predicate Valid()
      reads this, cache
    {
      cache.Valid() && Allocated(cache.history, cache.cascade, config.ranges)
    }

    /** Opening the service purges what is older than the configured ttl. */
    constructor (config: Config, cache: Cache, t1: int, t2: int, t3: int)
      requires cache.Valid() && Allocated(cache.history, cache.cascade, config.ranges)
      modifies cache
      ensures Valid() && this.config == config && this.cache == cache
      ensures cache.history == old(cache.history) + [Purged(config.ttlSeconds, t1, t2, t3)]
    {
      this.config, this.cache := config, cache;
      new;
      cache.PurgeExpired(config.ttlSeconds, t1, t2, t3);
      AllocatedMore(old(cache.history), cache.history[|cache.history| - 1], cache.cascade, config.ranges);
    }

    method ScimUserToModel(su: ScimUser) returns (result: Result<User, Failure>)
      requires Valid()
      ensures result.Ok? <==> UserResolvable(config, cache.Contents(), su)
      ensures result.Ok? ==> ModelsUser(config, cache.Contents(), su, result.value)
      ensures result.Ok? ==> (result.value.active == false <==> su.active == Some(false))
      ensures result.Ok? ==> result.value.gecos == if su.displayName.Some? then su.displayName.value else ""
      ensures result.Err? ==> result.error == RangeExhausted
    {
      var uid := cache.ResolveUid(su.id, config.ranges.uids);
      if uid.Err? {
        return Err(uid.error);
      }
      var gid := cache.ResolveGid(PrimaryGroup(su), config.ranges.gids);
      if gid.Err? {
        return Err(gid.error);
      }
      return Ok(User(su.id, su.userName, uid.value, gid.value, GetOr(su.displayName, ""),
                     config.homeOf(su.userName), config.shell, GetOr(su.active, true)));
    }

    method ScimGroupToModel(sg: ScimGroup) returns (result: Result<Group, Failure>)
      requires Valid()
      ensures result.Ok? <==> Resolve(config.ranges.gids, TableOf(Gids, cache.Contents()), sg.id).Some?
      ensures result.Ok? ==> ModelsGroup(config, cache.Contents(), sg, result.value)
      ensures result.Err? ==> result.error == RangeExhausted
    {
      var gid := cache.ResolveGid(sg.id, config.ranges.gids);
      if gid.Err? {
        return Err(gid.error);
      }
      return Ok(Group(sg.id, sg.displayName, gid.value, Displays(sg.members)));
    }

    /** Resolve and store one SCIM user, as every user-returning path does under the mutex. */
    method ConvertAndStore(su: ScimUser, now: int) returns (result: Result<User, Failure>)
      requires Valid()
      modifies cache
      ensures Valid()
      ensures result.Ok? <==> UserResolvable(config, old(cache.Contents()), su)
      ensures result.Ok? ==> ModelsUser(config, old(cache.Contents()), su, result.value)
      ensures result.Err? ==> result.error == RangeExhausted
      ensures cache.history == old(cache.history) + if result.Ok? then [UserStored(result.value, now)] else []
    {
      result := ScimUserToModel(su);
      if result.Ok? {
        cache.StoreUser(result.value, now);
        AllocatedMore(old(cache.history), UserStored(result.value, now), cache.cascade, config.ranges);
      }
    }

    /** Resolve and store one SCIM group: the converted group, and how the store of it went. */
    method ConvertAndStoreGroup(sg: ScimGroup, now: int)
      returns (model: Result<Group, Failure>, stored: Result<(), Failure>)
      requires Valid()
      modifies cache
      ensures Valid()
      ensures model.Ok? <==> Resolve(config.ranges.gids, TableOf(Gids, old(cache.Contents())), sg.id).Some?
      ensures model.Ok? ==>
                && ModelsGroup(config, old(cache.Contents()), sg, model.value)
                && stored == if NoRepeats(model.value.members) then Ok(()) else Err(ConstraintViolation)
      ensures model.Err? ==> model.error == RangeExhausted
      ensures cache.history == old(cache.history) + if model.Ok? then [GroupStored(model.value, now)] else []
    {
      model := ScimGroupToModel(sg);
      stored := Ok(());
      if model.Ok? {
        stored := cache.StoreGroup(model.value, now);
        AllocatedMore(old(cache.history), GroupStored(model.value, now), cache.cascade, config.ranges);
      }
    }

    method LookupUserByName(name: string, reply: Reply<ScimUser>, now: int)
      returns (result: Result<Option<User>, Failure>)
      requires Valid()
      modifies cache
      ensures Valid()
      ensures |name| > 256 ==> result == Ok(None) && cache.history == old(cache.history)
      ensures |name| <= 256 && reply.Found? ==>
                if UserResolvable(config, old(cache.Contents()), reply.value)
                then && result.Ok? && result.value.Some?
                     && ModelsUser(config, old(cache.Contents()), reply.value, result.value.value)
                     && cache.history == old(cache.history) + [UserStored(result.value.value, now)]
                else result == Err(RangeExhausted) && cache.history == old(cache.history)
      ensures |name| <= 256 && !reply.Found? ==>
                && cache.history == old(cache.history) && result.Ok?
                && (result.value == None <==> UsersByName(cache.Contents(), cache.ttl, now, name) == {})
                && (result.value.Some? ==> result.value.value in UsersByName(cache.Contents(), cache.ttl, now, name))
    {
      if |name| > MAX_NAME_LEN {
        return Ok(None);
      }
      match reply
      case Found(su) =>
        var stored := ConvertAndStore(su, now);
        return if stored.Ok? then Ok(Some(stored.value)) else Err(stored.error);
      case _ =>
        var cached := cache.GetUserByName(name, now);
        return Ok(cached);
    }

    method LookupGroupByName(name: string, reply: Reply<ScimGroup>, now: int)
      returns (result: Result<Option<Group>, Failure>)
      requires Valid()
      modifies cache
      ensures Valid()
      ensures |name| > 256 ==> result == Ok(None) && cache.history == old(cache.history)
      ensures |name| <= 256 && reply.Found? ==>
                if Resolve(config.ranges.gids, TableOf(Gids, old(cache.Contents())), reply.value.id).None?
                then result == Err(RangeExhausted) && cache.history == old(cache.history)
                else exists group :: GroupLookedUp(config, old(cache.Contents()), reply.value, group, result)
                                     && cache.history == old(cache.history) + [GroupStored(group, now)]
      ensures |name| <= 256 && !reply.Found? ==>
                && cache.history == old(cache.history) && result.Ok?
                && (result.value == None <==> GroupsByName(cache.Contents(), cache.ttl, now, name) == {})
                && (result.value.Some? ==>
                     ViewOf(result.value.value) in GroupsByName(cache.Contents(), cache.ttl, now, name))
    {
      if |name| > MAX_NAME_LEN {
        return Ok(None);
      }
      match reply
      case Found(sg) =>
        var model, stored := ConvertAndStoreGroup(sg, now);
        if model.Err? {
          return Err(model.error);
        }
        result := if stored.Ok? then Ok(Some(model.value)) else Err(stored.error);
        assert GroupLookedUp(config, old(cache.Contents()), sg, model.value, result);
        return result;
      case _ =>
        var cached := cache.GetGroupByName(name, now);
        return Ok(cached);
    }

    /** `true` needs this call's own reply, or a recent enough stored status and a policy that accepts it. */
    method CheckUserActive(name: string, reply: Reply<ScimUser>, now: int) returns (result: Result<bool, Failure>)
      requires Valid()
      modifies cache
      ensures Valid()
      ensures result == Ok(true) ==>
                && |name| <= 256
                && ((reply.Found? && reply.value.active != Some(false))
                    || (reply.Unreachable? && config.policy.CachedStatus?
                        && RecentlyStoredActive(old(cache.history), cache.ttl, now, name)))
      ensures result.Err? <==>
                |name| <= 256 && reply.Found? && !UserResolvable(config, old(cache.Contents()), reply.value)
      ensures |name| <= 256 && reply.Found? ==>
                (result == Ok(true) <==>
                   UserResolvable(config, old(cache.Contents()), reply.value) && reply.value.active != Some(false))
      ensures (|name| <= 256 && reply.Unreachable? && config.policy.CachedStatus?
               && (forall u :: u in UsersByName(old(cache.Contents()), cache.ttl, now, name) ==> u.active)
               && UsersByName(old(cache.Contents()), cache.ttl, now, name) != {}) ==> result == Ok(true)
      ensures |name| <= 256 && reply.Found? ==>
                FoundStored(config, old(cache.Contents()), reply.value, now, old(cache.history), cache.history)
      ensures |name| <= 256 && reply.Found? && UserResolvable(config, old(cache.Contents()), reply.value) ==>
                && cache.history != [] && var last := cache.history[|cache.history| - 1];
                && last.UserStored? && (last.user.active == false <==> reply.value.active == Some(false))
                && last.user.gecos == if reply.value.displayName.Some? then reply.value.displayName.value else ""
      ensures |name| > 256 || !reply.Found? ==> cache.history == old(cache.history)
    {
      if |name| > MAX_NAME_LEN {
        return Ok(false);
      }
      match reply
      case Found(su) =>
        var stored := ConvertAndStore(su, now);
        return if stored.Ok? then Ok(stored.value.active) else Err(stored.error);
      case Absent => return Ok(false);
      case Unreachable =>
        match config.policy
        case CachedStatus =>
          var cached := cache.GetUserByName(name, now);
          if cached == None {
            return Ok(false);
          }
          OfflineUserIsFresh(cache.history, cache.cascade, cache.ttl, now, name, cached.value);
          return Ok(cached.value.active);
        case Deny => return Ok(false);
    }

    /** The user is stored even when a later group fails to resolve; groups are resolved, never stored. */
    method LookupGroupsForUser(name: string, reply: Reply<ScimUser>, now: int)
      returns (result: Result<seq<u32>, Failure>)
      requires Valid()
      modifies cache
      ensures Valid()
      ensures |name| > 256 || reply.Absent? ==> result == Ok([])
      ensures |name| <= 256 && reply.Found? ==>
                && (result.Ok? ==> OnlineAnswer(config.ranges, old(cache.Contents()), reply.value.groups, result.value))
                && (result.Err? <==> !(UserResolvable(config, old(cache.Contents()), reply.value)
                                       && AllResolve(config.ranges, old(cache.Contents()), reply.value.groups)))
      ensures |name| <= 256 && reply.Unreachable? ==>
                && result.Ok? && OfflineAnswer(old(cache.Contents()), cache.ttl, now, name, result.value)
      ensures |name| <= 256 && reply.Found? ==>
                FoundStored(config, old(cache.Contents()), reply.value, now, old(cache.history), cache.history)
      ensures |name| > 256 || !reply.Found? ==> cache.history == old(cache.history)
    {
      if |name| > MAX_NAME_LEN {
        return Ok([]);
      }
      match reply
      case Found(su) =>
        var stored := ConvertAndStore(su, now);
        if stored.Err? {
          return Err(stored.error);
        }
        StoreUserKeepsGids(old(cache.history), UserStored(stored.value, now), cache.cascade);
        result := ResolveGroups(su.groups);
      case Absent => return Ok([]);
      case Unreachable =>
        var gids := CachedGroupIds(name, now);
        return Ok(gids);
    }

    method ResolveGroups(groups: seq<string>) returns (result: Result<seq<u32>, Failure>)
      requires Valid()
      ensures result.Ok? <==> AllResolve(config.ranges, cache.Contents(), groups)
      ensures result.Ok? ==> OnlineAnswer(config.ranges, cache.Contents(), groups, result.value)
    {
      var gids: seq<u32> := [];
      for i := 0 to |groups|
        invariant |gids| == i
        invariant forall j :: 0 <= j < i ==>
                    Resolve(config.ranges.gids, TableOf(Gids, cache.Contents()), groups[j]) == Some(gids[j])
      {
        var gid := cache.ResolveGid(groups[i], config.ranges.gids);
        if gid.Err? {
          return Err(gid.error);
        }
        gids := gids + [gid.value];
      }
      return Ok(gids);
    }

    method CachedGroupIds(name: string, now: int) returns (gids: seq<u32>)
      requires Valid()
      ensures OfflineAnswer(cache.Contents(), cache.ttl, now, name, gids)
    {
      var cached := cache.GetGroupsForMember(name, now);
      gids := [];
      for i := 0 to |cached|
        invariant |gids| == i && forall j :: 0 <= j < i ==> gids[j] == cached[j].gid
      {
        gids := gids + [cached[i].gid];
      }
      CachedGids(cached, gids, GroupsOfMember(cache.Contents(), cache.ttl, now, name));
    }

    /**
     * Enumeration through the service: one clock reading per store. Each user is converted on the tables
     * that the ones before it left. The first user that does not resolve fails the call, with the users
     * before it stored. When the listed external ids are distinct, every user returned is in the cache
     * exactly as returned, so no two share a uid.
     */
    method ListAllUsers(listed: Result<seq<ScimUser>, Failure>, clock: nat -> int)
      returns (result: Result<seq<User>, Failure>)
      requires Valid()
      modifies cache
      ensures Valid()
      ensures listed.Err? ==> result == Err(listed.error) && cache.history == old(cache.history)
      ensures result.Ok? ==>
                && listed.Ok? && |result.value| == |listed.value|
                && Lists(config, cache.cascade, old(cache.history), listed.value, result.value, clock)
                && cache.history == old(cache.history) + Stores(result.value, clock)
      ensures result.Ok? && DistinctIds(listed.value) ==>
                AllInCache(cache.users, result.value) && DistinctUids(result.value)
      ensures listed.Ok? && result.Err? ==>
                && result.error == RangeExhausted
                && exists users :: StoppedAfter(config, cache.Contents(), listed.value, users)
                                   && Lists(config, cache.cascade, old(cache.history), listed.value, users, clock)
                                   && cache.history == old(cache.history) + Stores(users, clock)
    {
      if listed.Err? {
        return Err(listed.error);
      }
      var users, complete := StoreListed(listed.value, clock);
      if !complete {
        return Err(RangeExhausted);
      }
      if DistinctIds(listed.value) {
        ListsDiffer(config, cache.cascade, old(cache.history), listed.value, users, clock);
        StoredUsersStay(old(cache.history), users, clock, cache.cascade, config.ranges);
      }
      return Ok(users);
    }

    /** The loop of `list_all_users`, which ends early at the first user that does not resolve. */
    method StoreListed(listed: seq<ScimUser>, clock: nat -> int) returns (users: seq<User>, complete: bool)
      requires Valid()
      modifies cache
      ensures Valid()
      ensures Lists(config, cache.cascade, old(cache.history), listed, users, clock)
      ensures cache.history == old(cache.history) + Stores(users, clock)
      ensures complete <==> |users| == |listed|
      ensures !complete ==> StoppedAfter(config, cache.Contents(), listed, users)
    {
      ghost var h := cache.history;
      users := [];
      for i := 0 to |listed|
        invariant Valid() && |users| == i && Lists(config, cache.cascade, h, listed, users, clock)
        invariant cache.history == h + Stores(users, clock)
      {
        ghost var s := cache.Contents();
        var stored := ConvertAndStore(listed[i], clock(i));
        if stored.Err? {
          return users, false;
        }
        ListsMore(config, cache.cascade, h, listed, users, clock, s, stored.value);
        users := users + [stored.value];
      }
      return users, true;
    }
  }

  /** The state at start-up: an empty database is opened and purged once (`OpenedEmpty`). */
  method OpenService(config: Config, cascade: bool, t1: int, t2: int, t3: int) returns (service: Service)
    ensures service.Valid() && fresh(service) && fresh(service.cache)
    ensures service.config == config && service.cache.ttl == config.ttlSeconds && service.cache.cascade == cascade
    ensures service.cache.history == [Purged(config.ttlSeconds, t1, t2, t3)]
    ensures IdlePurges(Uids, service.cache.history, 0, cascade) && IdlePurges(Gids, service.cache.history, 0, cascade)
  {
    var cache := new Cache(config.ttlSeconds, cascade);
    service := new Service(config, cache, t1, t2, t3);
    OpenedEmpty(Uids, cache.history, cascade);
    OpenedEmpty(Gids, cache.history, cascade);
  }

  /**
   * A service whose cache was opened empty, whatever it has looked up since: every uid or gid it ever
   * stored is still in the cache, and resolving the external id again returns it.
   */
  lemma OpenServiceIsStable(service: Service, k: Kind, i: nat)
    requires service.Valid() && i <= |service.cache.history|
    requires service.cache.history != [] && service.cache.history[0].Purged?
    requires forall j :: 0 < j < |service.cache.history| ==> !service.cache.history[j].Purged?
    ensures var t := TableOf(k, Replay(service.cache.history[..i], service.cache.cascade));
            var t' := TableOf(k, service.cache.Contents());
            forall e :: e in t ==>
              e in t' && t'[e] == t[e] && Resolve(RangeOf(k, service.config.ranges), t', e) == Some(t[e])
  {
    var h, c, r := service.cache.history, service.cache.cascade, service.config.ranges;
    OpenedEmpty(k, h, c);
    IdlePurgesPrefix(k, h, i, c);
    AllocatedPrefix(h, i, c, r);
    ChainsIntact(k, h[..i], c, r);
    StoredIdsAreStable(k, h, i, c, r);
  }

  predicate InCache(rows: map<string, UserRow>, user: User) {
    user.externalId in rows && rows[user.externalId].user == user
  }

  predicate AllInCache(rows: map<string, UserRow>, users: seq<User>) {
    forall u :: u in users ==> InCache(rows, u)
  }

  predicate DistinctUids(users: seq<User>) {
    forall i, j :: 0 <= i < j < |users| ==> users[i].uid != users[j].uid
  }

  predicate DistinctUsers(users: seq<User>) {
    forall i, j :: 0 <= i < j < |users| ==> users[i].externalId != users[j].externalId
  }

  predicate DistinctIds(listed: seq<ScimUser>) {
    forall i, j :: 0 <= i < j < |listed| ==> listed[i].id != listed[j].id
  }

  /** The `i`-th user models the `i`-th listed one on the tables that the users before it left. */
  ghost predicate TurnModels(c: Config, cascade: bool, h: seq<Event>, listed: seq<ScimUser>, users: seq<User>,
                             clock: nat -> int, i: nat)
    requires i < |users| <= |listed|
  {
    ModelsUser(c, Replay(h + Stores(users[..i], clock), cascade), listed[i], users[i])
  }

  /** These users are the models of the first of the listed ones, each built and stored in its turn. */
  ghost predicate Lists(c: Config, cascade: bool, h: seq<Event>, listed: seq<ScimUser>, users: seq<User>,
                        clock: nat -> int)
  {
    |users| <= |listed| && forall i: nat :: i < |users| ==> TurnModels(c, cascade, h, listed, users, clock, i)
  }

  /** The user listed after these does not resolve on the tables they left. */
  ghost predicate StoppedAfter(c: Config, s: Tables, listed: seq<ScimUser>, users: seq<User>) {
    |users| < |listed| && !UserResolvable(c, s, listed[|users|])
  }

  function Stores(users: seq<User>, clock: nat -> int): seq<Event> {
    seq(|users|, i requires 0 <= i < |users| => UserStored(users[i], clock(i)))
  }

  lemma StoresMore(users: seq<User>, user: User, clock: nat -> int)
    ensures Stores(users + [user], clock) == Stores(users, clock) + [UserStored(user, clock(|users|))]
    ensures (users + [user])[..|users|] == users
  {
  }

  lemma ListsMore(c: Config, cascade: bool, h: seq<Event>, listed: seq<ScimUser>, users: seq<User>,
                  clock: nat -> int, s: Tables, user: User)
    requires |users| < |listed| && Lists(c, cascade, h, listed, users, clock)
    requires s == Replay(h + Stores(users, clock), cascade) && ModelsUser(c, s, listed[|users|], user)
    ensures Lists(c, cascade, h, listed, users + [user], clock)
    ensures h + Stores(users + [user], clock) == h + Stores(users, clock) + [UserStored(user, clock(|users|))]
  {
    StoresMore(users, user, clock);
    var longer := users + [user];
    forall i: nat | i < |longer| ensures TurnModels(c, cascade, h, listed, longer, clock, i) {
      if i < |users| {
        assert longer[..i] == users[..i];
        assert TurnModels(c, cascade, h, listed, users, clock, i);
      }
    }
  }

  lemma ListsDiffer(c: Config, cascade: bool, h: seq<Event>, listed: seq<ScimUser>, users: seq<User>,
                    clock: nat -> int)
    requires Lists(c, cascade, h, listed, users, clock) && DistinctIds(listed)
    ensures DistinctUsers(users)
  {
    forall i: nat | i < |users| ensures users[i].externalId == listed[i].id {
      assert TurnModels(c, cascade, h, listed, users, clock, i);
    }
  }

  // ---- Primary gids ----

  lemma {:induction false} StoresKeepGids(h: seq<Event>, users: seq<User>, clock: nat -> int, cascade: bool)
    ensures TableOf(Gids, Replay(h + Stores(users, clock), cascade)) == TableOf(Gids, Replay(h, cascade))
  {
    if users == [] {
      assert h + Stores(users, clock) == h;
    } else {
      var init, last := users[..|users| - 1], users[|users| - 1];
      StoresKeepGids(h, init, clock, cascade);
      StoresLast(h, users, clock);
      StoreUserKeepsGids(h + Stores(init, clock), UserStored(last, clock(|init|)), cascade);
    }
  }

  lemma StoresLast(h: seq<Event>, users: seq<User>, clock: nat -> int)
    requires users != []
    ensures var init := users[..|users| - 1];
            h + Stores(users, clock) == h + Stores(init, clock) + [UserStored(users[|users| - 1], clock(|init|))]
  {
  }

  /**
   * The primary gid is resolved but not reserved. With chains intact, two users of one listing get the
   * same primary gid exactly when they have the same primary group, or neither group is cached and every
   * slot from the home of one up to the home of the other is held.
   */
  lemma SharedPrimaryGidIff(c: Config, cascade: bool, h: seq<Event>, listed: seq<ScimUser>, users: seq<User>,
                            clock: nat -> int, i: nat, j: nat)
    requires Allocated(h, cascade, c.ranges) && AllChained(c.ranges.gids, TableOf(Gids, Replay(h, cascade)))
    requires Lists(c, cascade, h, listed, users, clock) && i < |users| && j < |users|
    ensures users[i].gid == users[j].gid
            <==> || PrimaryGroup(listed[i]) == PrimaryGroup(listed[j])
                 || SameVacancy(c.ranges.gids, TableOf(Gids, Replay(h, cascade)),
                                PrimaryGroup(listed[i]), PrimaryGroup(listed[j]))
  {
    ReachableTableValid(Gids, h, cascade, c.ranges);
    PrimaryGid(c, cascade, h, listed, users, clock, i);
    PrimaryGid(c, cascade, h, listed, users, clock, j);
    SameResolutionIff(c.ranges.gids, TableOf(Gids, Replay(h, cascade)), PrimaryGroup(listed[i]),
                      PrimaryGroup(listed[j]), users[i].gid, users[j].gid);
  }

  lemma PrimaryGid(c: Config, cascade: bool, h: seq<Event>, listed: seq<ScimUser>, users: seq<User>,
                   clock: nat -> int, i: nat)
    requires Lists(c, cascade, h, listed, users, clock) && i < |users|
    ensures Resolve(c.ranges.gids, TableOf(Gids, Replay(h, cascade)), PrimaryGroup(listed[i])) == Some(users[i].gid)
  {
    assert TurnModels(c, cascade, h, listed, users, clock, i);
    StoresKeepGids(h, users[..i], clock, cascade);
  }

  /** A real input: on an empty cache two users without groups whose ids share a home slot share their gid. */
  lemma TwoUsersShareAGid(c: Config, cascade: bool, users: seq<User>, clock: nat -> int)
    requires c.ranges.gids == IdRange(_ => 0, 100, 10) && |users| == 2
    requires Lists(c, cascade, [], TwoLoners(), users, clock)
    ensures users[0].gid == users[1].gid == 100
  {
    EmptyTable(Gids);
    PrimaryGid(c, cascade, [], TwoLoners(), users, clock, 0);
    PrimaryGid(c, cascade, [], TwoLoners(), users, clock, 1);
    assert HeldByOthers(map[], "a") == {} && HeldByOthers(map[], "b") == {};
  }

  function TwoLoners(): seq<ScimUser> {
    [ScimUser("a", "alice", None, None, []), ScimUser("b", "bob", None, None, [])]
  }

  /** Users of distinct external ids stored one after the other all stay, as stored, under distinct uids. */
  lemma {:induction false} StoredUsersStay(h: seq<Event>, users: seq<User>, clock: nat -> int, cascade: bool, r: Ranges)
    requires Allocated(h + Stores(users, clock), cascade, r) && DistinctUsers(users)
    ensures AllInCache(Replay(h + Stores(users, clock), cascade).users, users) && DistinctUids(users)
  {
    if users != [] {
      var init, last := users[..|users| - 1], users[|users| - 1];
      StoresLast(h, users, clock);
      AllocatedBefore(h + Stores(init, clock), UserStored(last, clock(|init|)), cascade, r);
      StoredUsersStay(h, init, clock, cascade, r);
      assert users == init + [last];
      StoreKeepsOthers(h + Stores(init, clock), init, last, clock(|init|), cascade, r);
      ReplayHasUniqueKeys(h + Stores(users, clock), cascade);
      DistinctByKeys(Replay(h + Stores(users, clock), cascade), users);
    }
  }

  lemma AllocatedBefore(h: seq<Event>, event: Event, cascade: bool, r: Ranges)
    requires Allocated(h + [event], cascade, r)
    ensures Allocated(h, cascade, r)
  {
    assert (h + [event])[..|h + [event]| - 1] == h;
  }

  lemma StoreKeepsOthers(h: seq<Event>, users: seq<User>, user: User, at: int, cascade: bool, r: Ranges)
    requires Allocated(h + [UserStored(user, at)], cascade, r)
    requires AllInCache(Replay(h, cascade).users, users) && DistinctUsers(users + [user])
    ensures AllInCache(Replay(h + [UserStored(user, at)], cascade).users, users + [user])
  {
    var h' := h + [UserStored(user, at)];
    assert h'[..|h'| - 1] == h;
    forall u | u in users + [user] ensures InCache(Replay(h', cascade).users, u) {
      if u != user {
        var i :| 0 <= i < |users| && (users + [user])[i] == u;
        assert u.externalId != (users + [user])[|users|].externalId;
        StoresEvictNobody(h', cascade, r, Uids, u.externalId);
      }
    }
  }

  lemma DistinctByKeys(s: Tables, users: seq<User>)
    requires UniqueKeys(s) && AllInCache(s.users, users) && DistinctUsers(users)
    ensures DistinctUids(users)
  {
    forall i, j | 0 <= i < j < |users| ensures users[i].uid != users[j].uid {
      assert users[i] in users && users[j] in users;
    }
  }

  /** A deactivated account stays out: once a store said inactive, no later offline lookup returns it as active. */
  lemma DeactivationSticks(h: seq<Event>, i: nat, cascade: bool, ttl: nat, now: int, name: string)
    requires i < |h| && h[i].UserStored? && !h[i].user.active
    requires forall j :: i < j < |h| && h[j].UserStored? ==> h[j].user.externalId != h[i].user.externalId
    ensures forall u :: u in UsersByName(Replay(h, cascade), ttl, now, name) && u.active ==>
              u.externalId != h[i].user.externalId
  {
    LastStoreAt(h, i);
    forall u | u in UsersByName(Replay(h, cascade), ttl, now, name) && u.active
      ensures u.externalId != h[i].user.externalId
    {
      OfflineUserIsFresh(h, cascade, ttl, now, name, u);
    }
  }

  lemma {:induction false} LastStoreAt(h: seq<Event>, i: nat)
    requires i < |h| && h[i].UserStored?
    requires forall j :: i < j < |h| && h[j].UserStored? ==> h[j].user.externalId != h[i].user.externalId
    ensures LastStore(h, h[i].user.externalId) == Some(UserRow(h[i].user, h[i].at))
  {
    if i < |h| - 1 {
      LastStoreAt(h[..|h| - 1], i);
    }
  }

  lemma AllocatedMore(h: seq<Event>, event: Event, cascade: bool, r: Ranges)
    requires Allocated(h, cascade, r) && ResolvedOn(Replay(h, cascade), event, r)
    ensures Allocated(h + [event], cascade, r)
  {
    assert (h + [event])[..|h + [event]| - 1] == h;
  }

  lemma StoreUserKeepsGids(h: seq<Event>, event: Event, cascade: bool)
    requires event.UserStored?
    ensures TableOf(Gids, Replay(h + [event], cascade)) == TableOf(Gids, Replay(h, cascade))
  {
    assert (h + [event])[..|h + [event]| - 1] == h;
  }

  lemma CachedGids(cached: seq<Group>, gids: seq<u32>, views: set<GroupView>)
    requires |gids| == |cached| && forall i :: 0 <= i < |gids| ==> gids[i] == cached[i].gid
    requires ViewsOf(cached) == views
    ensures forall gid :: gid in gids <==> exists v :: v in views && v.gid == gid
  {
    forall gid | gid in gids ensures exists v :: v in views && v.gid == gid {
      var i :| 0 <= i < |gids| && gids[i] == gid;
      assert ViewOf(cached[i]) in ViewsOf(cached);
    }
    forall v | v in views ensures v.gid in gids {
      var g :| g in cached && ViewOf(g) == v;
      var i :| 0 <= i < |cached| && cached[i] == g;
      assert gids[i] == v.gid;
    }
  }

  /**
   * Online and offline group membership. When every group SCIM reports is live in the cache with its
   * probe chain intact, the answer with SCIM reachable and the answer from the cache are the same set
   * of gids exactly when the live cached groups listing the login are the reported ones.
   */
  lemma GroupsAgreeOfflineIff(h: seq<Event>, cascade: bool, r: Ranges, ttl: nat, now: int, name: string,
                              reported: seq<string>, online: seq<u32>, offline: seq<u32>)
    requires Allocated(h, cascade, r)
    requires forall g :: g in reported ==>
               g in LiveGroups(Replay(h, cascade), ttl, now) && Chained(r.gids, TableOf(Gids, Replay(h, cascade)), g)
    requires OnlineAnswer(r, Replay(h, cascade), reported, online)
    requires OfflineAnswer(Replay(h, cascade), ttl, now, name, offline)
    ensures (forall gid :: gid in online <==> gid in offline)
            <==> Listing(Replay(h, cascade), ttl, now, name) == set g | g in reported
  {
    var s := Replay(h, cascade);
    var t := TableOf(Gids, s);
    ReachableTableValid(Gids, h, cascade, r);
    ReplayHasUniqueKeys(h, cascade);
    forall gid
      ensures gid in online <==> exists e :: e in reported && s.groups[e].gid == gid
    {
      OnlineGid(r, s, reported, online, gid);
    }
    forall gid
      ensures gid in offline <==> exists e :: e in Listing(s, ttl, now, name) && s.groups[e].gid == gid
    {
      OfflineGid(s, ttl, now, name, gid);
    }
    if forall gid :: gid in online <==> gid in offline {
      forall e ensures e in Listing(s, ttl, now, name) <==> e in reported {
        if e in Listing(s, ttl, now, name) {
          assert s.groups[e].gid in offline;
        }
        if e in reported {
          assert s.groups[e].gid in online;
        }
      }
    }
  }

  lemma OnlineGid(r: Ranges, s: Tables, reported: seq<string>, online: seq<u32>, gid: u32)
    requires Valid(r.gids, TableOf(Gids, s))
    requires forall g :: g in reported ==> g in s.groups && Chained(r.gids, TableOf(Gids, s), g)
    requires OnlineAnswer(r, s, reported, online)
    ensures gid in online <==> exists e :: e in reported && s.groups[e].gid == gid
  {
    var t := TableOf(Gids, s);
    forall i | 0 <= i < |reported| ensures online[i] == s.groups[reported[i]].gid {
      assert reported[i] in reported;
      StableIff(r.gids, t, reported[i]);
    }
    if gid in online {
      var i :| 0 <= i < |online| && online[i] == gid;
      assert reported[i] in reported && s.groups[reported[i]].gid == gid;
    }
    if e :| e in reported && s.groups[e].gid == gid {
      var i :| 0 <= i < |reported| && reported[i] == e;
      assert online[i] == gid;
    }
  }

  lemma OfflineGid(s: Tables, ttl: nat, now: int, name: string, gid: u32)
    ensures (exists v :: v in GroupsOfMember(s, ttl, now, name) && v.gid == gid)
            <==> exists e :: e in Listing(s, ttl, now, name) && s.groups[e].gid == gid
  {
    if e :| e in Listing(s, ttl, now, name) && s.groups[e].gid == gid {
      assert ViewAt(s, e) in GroupsOfMember(s, ttl, now, name);
    }
  }
}
