/** src/cache.rs and src/model.rs as values: the tables, what each statement does to them, what each query sees. */
module CacheModel {
  import opened Prelude

  datatype User = User(externalId: string, name: string, uid: u32, gid: u32,
                       gecos: string, home: string, shell: string, active: bool)

  datatype Group = Group(externalId: string, name: string, gid: u32, members: seq<string>)

  datatype UserRow = UserRow(user: User, cachedAt: int)

  datatype GroupRow = GroupRow(name: string, gid: u32, cachedAt: int)

  /** `uid_cache`, `gid_cache` (by external id) and `group_members`. */
  datatype Tables = Tables(users: map<string, UserRow>, groups: map<string, GroupRow>, members: set<(string, string)>)

  const EmptyTables := Tables(map[], map[], {})

  // ---- Statements ----

  /** `INSERT OR REPLACE INTO uid_cache`: rows with the same external id or the same uid go. */
  function StoreUser(s: Tables, user: User, now: int): Tables {
    s.(users := (map e | e in s.users && e != user.externalId && s.users[e].user.uid != user.uid :: s.users[e])
                [user.externalId := UserRow(user, now)])
  }

  /** The rows of `gid_cache` that a store of this group replaces. */
  function Replaced(s: Tables, group: Group): set<string> {
    set e | e in s.groups && (e == group.externalId || s.groups[e].gid == group.gid)
  }

  function MembersWithout(members: set<(string, string)>, gone: set<string>): set<(string, string)> {
    set p | p in members && p.0 !in gone
  }

  /** The members inserted before the primary key of `group_members` rejects a repetition. */
  function Accepted(members: seq<string>): (n: nat)
    ensures n <= |members|
    ensures forall i, j :: 0 <= i < j < n ==> members[i] != members[j]
    ensures n < |members| ==> members[n] in members[..n]
  {
    if members == [] then 0
    else
      var m := |members| - 1;
      var n := Accepted(members[..m]);
      assert forall i :: 0 <= i < n ==> members[..m][i] == members[i];
      assert members[..m][..n] == members[..n];
      if n == m && members[m] !in members[..m] then m + 1 else n
  }

  function MemberRows(externalId: string, names: seq<string>): set<(string, string)> {
    set m | m in names :: (externalId, m)
  }

  /** `store_group`; `cascade` says whether the declared ON DELETE CASCADE is enforced. */
  function StoreGroup(s: Tables, group: Group, now: int, cascade: bool): Tables {
    var gone := if cascade then Replaced(s, group) + {group.externalId} else {group.externalId};
    Tables(s.users,
           (s.groups - Replaced(s, group))[group.externalId := GroupRow(group.name, group.gid, now)],
           MembersWithout(s.members, gone)
           + MemberRows(group.externalId, group.members[..Accepted(group.members)]))
  }

  function StaleGroups(s: Tables, ttl: nat, now: int): set<string> {
    set e | e in s.groups && s.groups[e].cachedAt <= now - ttl
  }

  function StaleUsers(s: Tables, ttl: nat, now: int): set<string> {
    set e | e in s.users && s.users[e].cachedAt <= now - ttl
  }

  /** `purge_expired`: three statements, each with its own reading of the clock. */
  function Purge(s: Tables, ttl: nat, t1: int, t2: int, t3: int, cascade: bool): Tables {
    var gone := if cascade then StaleGroups(s, ttl, t1) + StaleGroups(s, ttl, t2) else StaleGroups(s, ttl, t1);
    Tables(s.users - StaleUsers(s, ttl, t3), s.groups - StaleGroups(s, ttl, t2), MembersWithout(s.members, gone))
  }

  // ---- Queries ----

  /** `cached_at > now - ttl`. */
  predicate Live(cachedAt: int, ttl: nat, now: int) {
    cachedAt > now - ttl
  }

  function LiveUsers(s: Tables, ttl: nat, now: int): map<string, UserRow> {
    map e | e in s.users && Live(s.users[e].cachedAt, ttl, now) :: s.users[e]
  }

  function LiveGroups(s: Tables, ttl: nat, now: int): map<string, GroupRow> {
    map e | e in s.groups && Live(s.groups[e].cachedAt, ttl, now) :: s.groups[e]
  }

  function MembersOf(s: Tables, e: string): set<string> {
    set p | p in s.members && p.0 == e :: p.1
  }

  /** A group read back: SQLite promises no order for the member rows. */
  datatype GroupView = GroupView(externalId: string, name: string, gid: u32, members: set<string>)

  function ViewOf(group: Group): GroupView {
    GroupView(group.externalId, group.name, group.gid, set m | m in group.members)
  }

  function ViewAt(s: Tables, e: string): GroupView
    requires e in s.groups
  {
    GroupView(e, s.groups[e].name, s.groups[e].gid, MembersOf(s, e))
  }

  /** What each query may answer: any one row of these sets, and no row only when the set is empty. */
  function UsersByUid(s: Tables, ttl: nat, now: int, uid: u32): set<User> {
    var live := LiveUsers(s, ttl, now);
    set e | e in live && live[e].user.uid == uid :: live[e].user
  }

  function UsersByName(s: Tables, ttl: nat, now: int, name: string): set<User> {
    var live := LiveUsers(s, ttl, now);
    set e | e in live && live[e].user.name == name :: live[e].user
  }

  function GroupsByGid(s: Tables, ttl: nat, now: int, gid: u32): set<GroupView> {
    var live := LiveGroups(s, ttl, now);
    set e | e in live && live[e].gid == gid :: ViewAt(s, e)
  }

  function GroupsByName(s: Tables, ttl: nat, now: int, name: string): set<GroupView> {
    var live := LiveGroups(s, ttl, now);
    set e | e in live && live[e].name == name :: ViewAt(s, e)
  }

  /** `get_groups_for_member`: the join of live groups with the member rows of one login. */
  function GroupsOfMember(s: Tables, ttl: nat, now: int, member: string): set<GroupView> {
    var live := LiveGroups(s, ttl, now);
    set e | e in live && (e, member) in s.members :: ViewAt(s, e)
  }

  // ---- Histories ----

  datatype Event =
    | UserStored(user: User, at: int)
    | GroupStored(group: Group, at: int)
    | Purged(ttl: nat, t1: int, t2: int, t3: int)
  {
    function Start(): int {
      match this
      case UserStored(_, at) => at
      case GroupStored(_, at) => at
      case Purged(_, t1, _, _) => t1
    }

    function End(): int {
      match this
      case UserStored(_, at) => at
      case GroupStored(_, at) => at
      case Purged(_, _, _, t3) => t3
    }

    predicate ClockForward() {
      Purged? ==> t1 <= t2 <= t3
    }
  }

  function Effect(s: Tables, event: Event, cascade: bool): Tables {
    match event
    case UserStored(user, at) => StoreUser(s, user, at)
    case GroupStored(group, at) => StoreGroup(s, group, at, cascade)
    case Purged(ttl, t1, t2, t3) => Purge(s, ttl, t1, t2, t3, cascade)
  }

  /** The tables after a history, from an empty database. */
  function Replay(h: seq<Event>, cascade: bool): Tables {
    if h == [] then EmptyTables else Effect(Replay(h[..|h| - 1], cascade), h[|h| - 1], cascade)
  }

  /** Clock readings never run backwards, and the last one is at most `now`. */
  ghost predicate Timed(h: seq<Event>, now: int) {
    h != [] ==>
      var last := h[|h| - 1];
      last.ClockForward() && last.End() <= now && Timed(h[..|h| - 1], last.Start())
  }

  lemma TimedLater(h: seq<Event>, now: int, later: int)
    requires Timed(h, now) && now <= later
    ensures Timed(h, later)
  {
  }
}
