/** crates/nss_oidc/src/ffi.rs: the set/get/end cursors of user and group enumeration. */
module NssEnum {
  import opened Prelude
  import opened Probing
  import opened CacheModel
  import opened CacheHistory
  import opened Allocation
  import opened CacheStore
  import opened ServiceFacade
  import opened NssMemory
  import opened NssFill

  datatype Cursor<T> = Closed | Open(entries: seq<T>, idx: nat)

  // ---- A cursor driven by a caller with buffers of given sizes ----

  datatype Answer<T> = Answer(cursor: Cursor<T>, status: NssStatus, entry: Option<T>)

  /** One get call, for entries that need `size` bytes. */
  function Next<T>(c: Cursor<T>, size: T -> nat, buflen: nat): Answer<T> {
    match c
    case Closed => Answer(c, Unavail, None)
    case Open(entries, idx) =>
      if idx >= |entries| then Answer(c, NotFound, None)
      else if size(entries[idx]) > buflen then Answer(c, TryAgain, None)
      else Answer(Open(entries, idx + 1), Success, Some(entries[idx]))
  }

  datatype Session<T> = Session(cursor: Cursor<T>, delivered: seq<T>)

  /** A session of get calls with these buffer sizes: the cursor at the end and the successes on the way. */
  function Calls<T>(c: Cursor<T>, size: T -> nat, buflens: seq<nat>): Session<T> {
    if buflens == [] then Session(c, [])
    else
      var before := Calls(c, size, buflens[..|buflens| - 1]);
      var answer := Next(before.cursor, size, buflens[|buflens| - 1]);
      Session(answer.cursor, before.delivered + if answer.entry.Some? then [answer.entry.value] else [])
  }

  /** Whatever the buffer sizes, the successes are the first entries of the snapshot, in order, each once. */
  lemma {:induction false} EnumerationIsLossless<T>(entries: seq<T>, size: T -> nat, buflens: seq<nat>)
    ensures var s := Calls(Open(entries, 0), size, buflens);
            && |s.delivered| <= |entries|
            && s.cursor == Open(entries, |s.delivered|) && s.delivered == entries[..|s.delivered|]
  {
    if buflens != [] {
      EnumerationIsLossless(entries, size, buflens[..|buflens| - 1]);
    }
  }

  /** How much the buffer lacks for the entry at the cursor. */
  function Shortfall<T>(c: Cursor<T>, size: T -> nat, buflen: nat): nat {
    if c.Open? && c.idx < |c.entries| && size(c.entries[c.idx]) > buflen then size(c.entries[c.idx]) - buflen else 0
  }

  function Remaining<T>(c: Cursor<T>): nat {
    if c.Open? && c.idx < |c.entries| then |c.entries| - c.idx else 0
  }

  /** A caller that enlarges its buffer on every TryAgain and stops at any other failure. */
  function Drain<T>(c: Cursor<T>, size: T -> nat, buflen: nat, grow: nat -> nat): Session<T>
    requires forall b :: grow(b) > b
    decreases Remaining(c), Shortfall(c, size, buflen)
  {
    var answer := Next(c, size, buflen);
    match answer.status
    case TryAgain => Drain(answer.cursor, size, grow(buflen), grow)
    case Success =>
      var rest := Drain(answer.cursor, size, buflen, grow);
      Session(rest.cursor, [answer.entry.value] + rest.delivered)
    case _ => Session(c, [])
  }

  /** That caller gets every entry and ends at NotFound. */
  lemma {:induction false} DrainDeliversAll<T>(entries: seq<T>, idx: nat, size: T -> nat, buflen: nat, grow: nat -> nat)
    requires idx <= |entries| && forall b :: grow(b) > b
    ensures var s := Drain(Open(entries, idx), size, buflen, grow);
            && s.delivered == entries[idx..] && s.cursor == Open(entries, |entries|)
            && Next(s.cursor, size, buflen).status == NotFound
    decreases |entries| - idx, Shortfall(Open(entries, idx), size, buflen)
  {
    if idx < |entries| {
      if size(entries[idx]) > buflen {
        DrainDeliversAll(entries, idx, size, grow(buflen), grow);
      } else {
        DrainDeliversAll(entries, idx + 1, size, buflen, grow);
      }
    }
  }

  // ---- The snapshots ----

  /** The stores of the converted groups, one clock reading each. */
  function GroupStores(groups: seq<Group>, clock: nat -> int): seq<Event> {
    seq(|groups|, i requires 0 <= i < |groups| => GroupStored(groups[i], clock(i)))
  }

  /**
   * The users converted from a listing after history `h`: each listed user, in order, is converted on the
   * tables that the ones before it left, or left out because it does not resolve on them.
   */
  ghost predicate PickedUsers(c: Config, cascade: bool, h: seq<Event>, listed: seq<ScimUser>, users: seq<User>,
                              clock: nat -> int)
  {
    if listed == [] then users == []
    else
      var rest, su := listed[..|listed| - 1], listed[|listed| - 1];
      || (users != [] && PickedUsers(c, cascade, h, rest, users[..|users| - 1], clock)
          && ModelsUser(c, Replay(h + Stores(users[..|users| - 1], clock), cascade), su, users[|users| - 1]))
      || (PickedUsers(c, cascade, h, rest, users, clock)
          && !UserResolvable(c, Replay(h + Stores(users, clock), cascade), su))
  }

  lemma GroupStoresMore(groups: seq<Group>, group: Group, clock: nat -> int)
    ensures GroupStores(groups + [group], clock) == GroupStores(groups, clock) + [GroupStored(group, clock(|groups|))]
    ensures (groups + [group])[..|groups|] == groups
  {
  }

  /** Likewise for groups; a group with a repeated member is kept although its store fails half-way. */
  ghost predicate PickedGroups(c: Config, cascade: bool, h: seq<Event>, listed: seq<ScimGroup>, groups: seq<Group>,
                               clock: nat -> int)
  {
    if listed == [] then groups == []
    else
      var rest, sg := listed[..|listed| - 1], listed[|listed| - 1];
      || (groups != [] && PickedGroups(c, cascade, h, rest, groups[..|groups| - 1], clock)
          && ModelsGroup(c, Replay(h + GroupStores(groups[..|groups| - 1], clock), cascade), sg, groups[|groups| - 1]))
      || (PickedGroups(c, cascade, h, rest, groups, clock)
          && Resolve(c.ranges.gids, TableOf(Gids, Replay(h + GroupStores(groups, clock), cascade)), sg.id) == None)
  }

  /** One more listed user, converted on the tables the others left. */
  lemma UserTaken(c: Config, cascade: bool, h: seq<Event>, listed: seq<ScimUser>, i: nat, users: seq<User>,
                  clock: nat -> int, s: Tables, user: User)
    requires i < |listed| && PickedUsers(c, cascade, h, listed[..i], users, clock)
    requires s == Replay(h + Stores(users, clock), cascade) && ModelsUser(c, s, listed[i], user)
    ensures PickedUsers(c, cascade, h, listed[..i + 1], users + [user], clock)
    ensures h + Stores(users + [user], clock) == h + Stores(users, clock) + [UserStored(user, clock(|users|))]
  {
    StoresMore(users, user, clock);
    assert listed[..i + 1][..i] == listed[..i];
  }

  lemma UserSkipped(c: Config, cascade: bool, h: seq<Event>, listed: seq<ScimUser>, i: nat, users: seq<User>,
                    clock: nat -> int, s: Tables)
    requires i < |listed| && PickedUsers(c, cascade, h, listed[..i], users, clock)
    requires s == Replay(h + Stores(users, clock), cascade) && !UserResolvable(c, s, listed[i])
    ensures PickedUsers(c, cascade, h, listed[..i + 1], users, clock)
  {
    assert listed[..i + 1][..i] == listed[..i];
  }

  lemma GroupTaken(c: Config, cascade: bool, h: seq<Event>, listed: seq<ScimGroup>, i: nat, groups: seq<Group>,
                   clock: nat -> int, s: Tables, group: Group)
    requires i < |listed| && PickedGroups(c, cascade, h, listed[..i], groups, clock)
    requires s == Replay(h + GroupStores(groups, clock), cascade) && ModelsGroup(c, s, listed[i], group)
    ensures PickedGroups(c, cascade, h, listed[..i + 1], groups + [group], clock)
    ensures h + GroupStores(groups + [group], clock)
         == h + GroupStores(groups, clock) + [GroupStored(group, clock(|groups|))]
  {
    GroupStoresMore(groups, group, clock);
    assert listed[..i + 1][..i] == listed[..i];
  }

  lemma GroupSkipped(c: Config, cascade: bool, h: seq<Event>, listed: seq<ScimGroup>, i: nat, groups: seq<Group>,
                     clock: nat -> int, s: Tables)
    requires i < |listed| && PickedGroups(c, cascade, h, listed[..i], groups, clock)
    requires s == Replay(h + GroupStores(groups, clock), cascade)
    requires Resolve(c.ranges.gids, TableOf(Gids, s), listed[i].id) == None
    ensures PickedGroups(c, cascade, h, listed[..i + 1], groups, clock)
  {
    assert listed[..i + 1][..i] == listed[..i];
  }

  /** A snapshot of a listing without repeated external ids has no repeated external id and no repeated uid. */
  lemma SnapshotUidsDiffer(c: Config, cascade: bool, h: seq<Event>, listed: seq<ScimUser>, users: seq<User>,
                           clock: nat -> int)
    requires Allocated(h + Stores(users, clock), cascade, c.ranges)
    requires PickedUsers(c, cascade, h, listed, users, clock) && DistinctIds(listed)
    ensures DistinctUsers(users) && DistinctUids(users)
    ensures AllInCache(Replay(h + Stores(users, clock), cascade).users, users)
  {
    PickedAreDrawn(c, cascade, h, listed, users, clock);
    DrawnDiffer(listed, users);
    StoredUsersStay(h, users, clock, cascade, c.ranges);
  }

  /** Users with the external ids of some of the listed ones, in order. */
  ghost predicate DrawnFrom(listed: seq<ScimUser>, users: seq<User>) {
    if listed == [] then users == []
    else
      var rest := listed[..|listed| - 1];
      || DrawnFrom(rest, users)
      || (users != [] && DrawnFrom(rest, users[..|users| - 1])
          && users[|users| - 1].externalId == listed[|listed| - 1].id)
  }

  lemma {:induction false} PickedAreDrawn(c: Config, cascade: bool, h: seq<Event>, listed: seq<ScimUser>,
                                          users: seq<User>, clock: nat -> int)
    requires PickedUsers(c, cascade, h, listed, users, clock)
    ensures DrawnFrom(listed, users)
    decreases |listed|
  {
    if listed != [] {
      var rest := listed[..|listed| - 1];
      if PickedUsers(c, cascade, h, rest, users, clock) {
        PickedAreDrawn(c, cascade, h, rest, users, clock);
      } else {
        PickedAreDrawn(c, cascade, h, rest, users[..|users| - 1], clock);
      }
    }
  }

  lemma {:induction false} DrawnDiffer(listed: seq<ScimUser>, users: seq<User>)
    requires DrawnFrom(listed, users) && DistinctIds(listed)
    ensures forall u :: u in users ==> u.externalId in IdsOf(listed)
    ensures DistinctUsers(users)
    decreases |listed|
  {
    if listed != [] {
      var rest := listed[..|listed| - 1];
      IdsOfMore(listed);
      if DrawnFrom(rest, users) {
        DrawnDiffer(rest, users);
      } else {
        var init, last := users[..|users| - 1], users[|users| - 1];
        DrawnDiffer(rest, init);
        DrawnMore(users, init, last, IdsOf(rest));
      }
    }
  }

  lemma DrawnMore(users: seq<User>, init: seq<User>, last: User, ids: set<string>)
    requires users == init + [last] && DistinctUsers(init) && last.externalId !in ids
    requires forall u :: u in init ==> u.externalId in ids
    ensures forall u :: u in users ==> u.externalId in ids + {last.externalId}
    ensures DistinctUsers(users)
  {
    assert forall i :: 0 <= i < |init| ==> init[i] in init;
  }

  ghost function IdsOf(listed: seq<ScimUser>): set<string> {
    set su | su in listed :: su.id
  }

  lemma IdsOfMore(listed: seq<ScimUser>)
    requires listed != [] && DistinctIds(listed)
    ensures IdsOf(listed) == IdsOf(listed[..|listed| - 1]) + {listed[|listed| - 1].id}
    ensures listed[|listed| - 1].id !in IdsOf(listed[..|listed| - 1]) && DistinctIds(listed[..|listed| - 1])
  {
    assert listed == listed[..|listed| - 1] + [listed[|listed| - 1]];
  }

  /** The loop of `setpwent` under the service mutex: users that do not resolve are skipped. */
  method SnapshotUsers(svc: Service, listed: seq<ScimUser>, clock: nat -> int) returns (users: seq<User>)
    requires svc.Valid()
    modifies svc.cache
    ensures svc.Valid() && svc.cache.history == old(svc.cache.history) + Stores(users, clock)
    ensures PickedUsers(svc.config, svc.cache.cascade, old(svc.cache.history), listed, users, clock)
  {
    ghost var h := svc.cache.history;
    users := [];
    assert listed[..0] == [] && h + Stores(users, clock) == h;
    for i := 0 to |listed|
      invariant svc.Valid() && svc.cache.history == h + Stores(users, clock)
      invariant PickedUsers(svc.config, svc.cache.cascade, h, listed[..i], users, clock)
    {
      ghost var s := svc.cache.Contents();
      var stored := svc.ConvertAndStore(listed[i], clock(|users|));
      if stored.Ok? {
        UserTaken(svc.config, svc.cache.cascade, h, listed, i, users, clock, s, stored.value);
        users := users + [stored.value];
      } else {
        UserSkipped(svc.config, svc.cache.cascade, h, listed, i, users, clock, s);
      }
    }
    assert listed[..|listed|] == listed;
  }

  /** The loop of `setgrent`: groups that do not resolve are skipped, failed stores are ignored. */
  method SnapshotGroups(svc: Service, listed: seq<ScimGroup>, clock: nat -> int) returns (groups: seq<Group>)
    requires svc.Valid()
    modifies svc.cache
    ensures svc.Valid() && svc.cache.history == old(svc.cache.history) + GroupStores(groups, clock)
    ensures PickedGroups(svc.config, svc.cache.cascade, old(svc.cache.history), listed, groups, clock)
  {
    ghost var h := svc.cache.history;
    groups := [];
    assert listed[..0] == [] && h + GroupStores(groups, clock) == h;
    for i := 0 to |listed|
      invariant svc.Valid() && svc.cache.history == h + GroupStores(groups, clock)
      invariant PickedGroups(svc.config, svc.cache.cascade, h, listed[..i], groups, clock)
    {
      ghost var s := svc.cache.Contents();
      var model, ignored := svc.ConvertAndStoreGroup(listed[i], clock(|groups|));
      if model.Ok? {
        GroupTaken(svc.config, svc.cache.cascade, h, listed, i, groups, clock, s, model.value);
        groups := groups + [model.value];
      } else {
        GroupSkipped(svc.config, svc.cache.cascade, h, listed, i, groups, clock, s);
      }
    }
    assert listed[..|listed|] == listed;
  }

  function UserEntryOf(user: User, utf8: string -> bytes): UserEntry {
    UserEntry(utf8(user.name), user.uid, user.gid, utf8(user.gecos), utf8(user.home), utf8(user.shell))
  }

  function UserEntries(users: seq<User>, utf8: string -> bytes): seq<UserEntry> {
    seq(|users|, i requires 0 <= i < |users| => UserEntryOf(users[i], utf8))
  }

  function GroupEntryOf(group: Group, utf8: string -> bytes): GroupEntry {
    GroupEntry(utf8(group.name), group.gid,
               seq(|group.members|, i requires 0 <= i < |group.members| => utf8(group.members[i])))
  }

  function GroupEntries(groups: seq<Group>, utf8: string -> bytes): seq<GroupEntry> {
    seq(|groups|, i requires 0 <= i < |groups| => GroupEntryOf(groups[i], utf8))
  }

  /** What an entry of an enumeration takes from its user. */
  predicate ShowsUser(entry: UserEntry, user: User, utf8: string -> bytes) {
    && entry.name == utf8(user.name) && entry.uid == user.uid && entry.gid == user.gid
    && entry.gecos == utf8(user.gecos) && entry.home == utf8(user.home) && entry.shell == utf8(user.shell)
  }

  predicate ShowsGroup(entry: GroupEntry, group: Group, utf8: string -> bytes) {
    && entry.name == utf8(group.name) && entry.gid == group.gid && |entry.members| == |group.members|
    && forall j :: 0 <= j < |entry.members| ==> entry.members[j] == utf8(group.members[j])
  }

  predicate ShowsUsers(entries: seq<UserEntry>, users: seq<User>, utf8: string -> bytes) {
    |entries| == |users| && forall i :: 0 <= i < |entries| ==> ShowsUser(entries[i], users[i], utf8)
  }

  predicate ShowsGroups(entries: seq<GroupEntry>, groups: seq<Group>, utf8: string -> bytes) {
    |entries| == |groups| && forall i :: 0 <= i < |entries| ==> ShowsGroup(entries[i], groups[i], utf8)
  }

  lemma EntriesShow(users: seq<User>, groups: seq<Group>, utf8: string -> bytes)
    ensures ShowsUsers(UserEntries(users, utf8), users, utf8)
    ensures ShowsGroups(GroupEntries(groups, utf8), groups, utf8)
  {
  }

  // ---- The two cursors of the module ----

  class GroupEnum {
    var state: Cursor<GroupEntry>

    constructor ()
      ensures state == Closed
    {
      state := Closed;
    }

    /** `setgrent`: a failed listing leaves an earlier enumeration as it was. */
    method SetGrent(svc: Service, listed: Option<seq<ScimGroup>>, clock: nat -> int, utf8: string -> bytes)
      returns (status: NssStatus)
      requires svc.Valid()
      modifies this, svc.cache
      ensures svc.Valid()
      ensures listed.None? ==> status == Unavail && state == old(state) && svc.cache.history == old(svc.cache.history)
      ensures listed.Some? ==>
                status == Success
                && exists groups ::
                     PickedGroups(svc.config, svc.cache.cascade, old(svc.cache.history), listed.value, groups, clock)
                     && svc.cache.history == old(svc.cache.history) + GroupStores(groups, clock)
                     && state.Open? && state.idx == 0 && ShowsGroups(state.entries, groups, utf8)
    {
      if listed == None {
        return Unavail;
      }
      var groups := SnapshotGroups(svc, listed.value, clock);
      state := Open(GroupEntries(groups, utf8), 0);
      EntriesShow([], groups, utf8);
      return Success;
    }

    method GetGrentR(result: GroupRecord, buf: array<byte>, base: nat, buflen: nat)
      returns (status: NssStatus, errno: nat)
      requires buflen <= buf.Length && 0 < base && base + buf.Length <= ADDRESS_LIMIT
      modifies this, result, buf
      ensures old(state) == Closed ==> status == Unavail && state == Closed
      ensures old(state).Open? && old(state).idx >= |old(state).entries| ==> status == NotFound && state == old(state)
      ensures var answer := Next(old(state), GroupSize, buflen);
              && state == answer.cursor && status == answer.status
              && errno == (if status == TryAgain then 34 else 0)
              && (status != Success ==> unchanged(result))
              && (status == Success ==>
                   && result.gid == answer.entry.value.gid
                   && ReadGroup(buf[..], base, result.name, result.passwd, result.mem)
                      == Some(GroupAsRead(answer.entry.value)))
    {
      match state
      case Closed => return Unavail, 0;
      case Open(groups, idx) =>
        if idx >= |groups| {
          return NotFound, 0;
        }
        status, errno := FillGroupBuf(groups[idx], result, buf, base, buflen);
        if status == Success {
          ghost var memory := buf[..];
          state := Open(groups, idx + 1);
          assert buf[..] == memory;
        }
    }

    method EndGrent() returns (status: NssStatus)
      modifies this
      ensures status == Success && state == Closed
    {
      state := Closed;
      return Success;
    }
  }

  class UserEnum {
    var state: Cursor<UserEntry>

    constructor ()
      ensures state == Closed
    {
      state := Closed;
    }

    /** `setpwent`, likewise. */
    method SetPwent(svc: Service, listed: Option<seq<ScimUser>>, clock: nat -> int, utf8: string -> bytes)
      returns (status: NssStatus)
      requires svc.Valid()
      modifies this, svc.cache
      ensures svc.Valid()
      ensures listed.None? ==> status == Unavail && state == old(state) && svc.cache.history == old(svc.cache.history)
      ensures listed.Some? ==>
                status == Success
                && exists users ::
                     PickedUsers(svc.config, svc.cache.cascade, old(svc.cache.history), listed.value, users, clock)
                     && svc.cache.history == old(svc.cache.history) + Stores(users, clock)
                     && state.Open? && state.idx == 0 && ShowsUsers(state.entries, users, utf8)
    {
      if listed == None {
        return Unavail;
      }
      var users := SnapshotUsers(svc, listed.value, clock);
      state := Open(UserEntries(users, utf8), 0);
      EntriesShow(users, [], utf8);
      return Success;
    }

    method GetPwentR(result: PasswdRecord, buf: array<byte>, base: nat, buflen: nat)
      returns (status: NssStatus, errno: nat)
      requires buflen <= buf.Length
      modifies this, result, buf
      ensures old(state) == Closed ==> status == Unavail && state == Closed
      ensures old(state).Open? && old(state).idx >= |old(state).entries| ==> status == NotFound && state == old(state)
      ensures var answer := Next(old(state), UserSize, buflen);
              && state == answer.cursor && status == answer.status
              && errno == (if status == TryAgain then 34 else 0)
              && (status != Success ==> unchanged(result))
              && (status == Success ==>
                   && result.uid == answer.entry.value.uid && result.gid == answer.entry.value.gid
                   && ReadUser(buf[..], base, result.name, result.passwd, result.gecos, result.dir, result.shell)
                      == Some(UserAsRead(answer.entry.value)))
    {
      match state
      case Closed => return Unavail, 0;
      case Open(users, idx) =>
        if idx >= |users| {
          return NotFound, 0;
        }
        status, errno := FillPasswdBuf(users[idx], result, buf, base, buflen);
        if status == Success {
          ghost var memory := buf[..];
          state := Open(users, idx + 1);
          assert buf[..] == memory;
        }
    }

    method EndPwent() returns (status: NssStatus)
      modifies this
      ensures status == Success && state == Closed
    {
      state := Closed;
      return Success;
    }
  }

  // ---- Callers ----

  /** The `i`-th user of a snapshot is, until the ttl has passed, the one user that its uid leads to. */
  lemma EnumeratedUserIsFound(c: Config, cascade: bool, h: seq<Event>, listed: seq<ScimUser>, users: seq<User>,
                              clock: nat -> int, i: nat, ttl: nat, now: int)
    requires Allocated(h + Stores(users, clock), cascade, c.ranges)
    requires PickedUsers(c, cascade, h, listed, users, clock) && DistinctIds(listed)
    requires i < |users| && now - clock(i) < ttl
    ensures UsersByUid(Replay(h + Stores(users, clock), cascade), ttl, now, users[i].uid) == {users[i]}
  {
    SnapshotUidsDiffer(c, cascade, h, listed, users, clock);
    StoreSurvives(h, users, clock, i);
    StoredUserReadsBack(h + Stores(users, clock), cascade, |h| + i, ttl, now);
  }

  lemma StoreSurvives(h: seq<Event>, users: seq<User>, clock: nat -> int, i: nat)
    requires DistinctUsers(users) && DistinctUids(users) && i < |users|
    ensures (h + Stores(users, clock))[|h| + i] == UserStored(users[i], clock(i))
    ensures Survives(h + Stores(users, clock), |h| + i)
  {
    var h' := h + Stores(users, clock);
    forall j | |h| + i < j < |h'| ensures !Removes(h'[j], h'[|h| + i]) {
      assert h'[j] == UserStored(users[j - |h|], clock(j - |h|));
    }
  }

  /** What a C program reads of a user, each string up to its first NUL. */
  predicate ReadAs(read: Option<UserRead>, user: User, utf8: string -> bytes) {
    read == Some(UserRead(UpToNul(utf8(user.name)), [120], UpToNul(utf8(user.gecos)),
                          UpToNul(utf8(user.home)), UpToNul(utf8(user.shell))))
  }

  method GetAndLookUp(cache: Cache, e: UserEnum, result: PasswdRecord, buf: array<byte>, base: nat, buflen: nat,
                      now: int, ghost user: User, utf8: string -> bytes)
    returns (status: NssStatus, known: Option<User>)
    requires cache.Valid() && UsersByUid(cache.Contents(), cache.ttl, now, user.uid) == {user}
    requires e.state.Open? && e.state.idx < |e.state.entries| && buflen <= buf.Length
    requires ShowsUser(e.state.entries[e.state.idx], user, utf8)
    modifies e, result, buf
    ensures status == Success || status == TryAgain
    ensures status == Success ==>
              && known == Some(user) && result.uid == user.uid && result.gid == user.gid
              && ReadAs(ReadUser(buf[..], base, result.name, result.passwd, result.gecos, result.dir, result.shell),
                        user, utf8)
  {
    var errno;
    status, errno := e.GetPwentR(result, buf, base, buflen);
    known := None;
    if status == Success {
      known := cache.GetUserByUid(result.uid, now);
      assert known.value in {user};
    }
  }

  /**
   * `getpwent` and `getpwuid` agree. What the next get call delivers from an enumeration of distinct
   * external ids is, while its row is fresh, the user that looking up the delivered uid returns: the same
   * ids, and through the pointers the strings of that user, each up to its first NUL.
   */
  method NextUserIsKnown(svc: Service, e: UserEnum, result: PasswdRecord, buf: array<byte>, base: nat, buflen: nat,
                         now: int, utf8: string -> bytes, ghost h: seq<Event>, ghost listed: seq<ScimUser>,
                         ghost users: seq<User>, ghost clock: nat -> int)
    returns (status: NssStatus, known: Option<User>)
    requires svc.Valid() && svc.cache.history == h + Stores(users, clock)
    requires PickedUsers(svc.config, svc.cache.cascade, h, listed, users, clock) && DistinctIds(listed)
    requires e.state.Open? && e.state.idx < |users| && ShowsUsers(e.state.entries, users, utf8)
    requires now - clock(e.state.idx) < svc.cache.ttl && buflen <= buf.Length
    modifies e, result, buf
    ensures status == Success || status == TryAgain
    ensures status == Success ==>
              && known == Some(users[old(e.state).idx])
              && result.uid == known.value.uid && result.gid == known.value.gid
              && ReadAs(ReadUser(buf[..], base, result.name, result.passwd, result.gecos, result.dir, result.shell),
                        known.value, utf8)
  {
    ghost var i := e.state.idx;
    EnumeratedUserIsFound(svc.config, svc.cache.cascade, h, listed, users, clock, i, svc.cache.ttl, now);
    status, known := GetAndLookUp(svc.cache, e, result, buf, base, buflen, now, users[i], utf8);
  }

  /**
   * A C program that enumerates all groups, starting with a buffer of `initial` bytes and doubling it on
   * every TryAgain, reads exactly the snapshot, in order, and leaves the cursor at its end.
   */
  method ReadAllGroups(e: GroupEnum, base: nat, initial: nat) returns (read: seq<GroupRead>, gids: seq<u32>)
    requires e.state.Open? && e.state.idx == 0
    requires 0 < base && 0 < initial && base + initial <= ADDRESS_LIMIT
    requires forall g :: g in e.state.entries ==> base + 2 * GroupSize(g) <= ADDRESS_LIMIT
    modifies e
    ensures var groups := old(e.state).entries;
            && e.state == Open(groups, |groups|) && |read| == |groups| && |gids| == |groups|
            && forall i :: 0 <= i < |groups| ==> read[i] == GroupAsRead(groups[i]) && gids[i] == groups[i].gid
  {
    ghost var groups := e.state.entries;
    var record := new GroupRecord();
    var buflen := initial;
    read, gids := [], [];
    while true
      invariant |read| == |gids| <= |groups| && e.state == Open(groups, |read|)
      invariant forall i :: 0 <= i < |read| ==> read[i] == GroupAsRead(groups[i]) && gids[i] == groups[i].gid
      invariant 0 < buflen && base + buflen <= ADDRESS_LIMIT
      decreases Remaining(e.state), Shortfall(e.state, GroupSize, buflen)
    {
      var buf := new byte[buflen];
      var status, errno := e.GetGrentR(record, buf, base, buflen);
      match status
      case Success =>
        var fields := ReadGroup(buf[..], base, record.name, record.passwd, record.mem);
        read, gids := read + [fields.value], gids + [record.gid];
      case TryAgain =>
        assert groups[|read|] in groups;
        buflen := 2 * buflen;
      case _ => return;
    }
  }
}
