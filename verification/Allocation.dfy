/**
 * The two tables together: the uids and gids of the cached rows form linear-probing tables, so what
 * holds over every run of Probing holds over every history of the cache whose stores resolved their
 * id in the same critical section.
 */
module Allocation {
  import opened Prelude
  import opened Mapping
  import opened Probing
  import opened CacheModel
  import opened CacheHistory

  /** The configured uid and gid ranges. */
  datatype Ranges = Ranges(uids: Range, gids: Range)

  datatype Kind = Uids | Gids

  function RangeOf(k: Kind, r: Ranges): Range {
    if k.Uids? then r.uids else r.gids
  }

  function TableOf(k: Kind, s: Tables): Table {
    if k.Uids? then map e | e in s.users :: s.users[e].user.uid
    else map e | e in s.groups :: s.groups[e].gid
  }

  /** The rows of one kind that a purge deletes, each kind at its own clock reading. */
  function StaleOf(k: Kind, s: Tables, event: Event): set<string>
    requires event.Purged?
  {
    if k.Uids? then StaleUsers(s, event.ttl, event.t3) else StaleGroups(s, event.ttl, event.t2)
  }

  /** What an event does to the table of one kind, if anything. */
  function OpsOf(k: Kind, s: Tables, event: Event): seq<Op> {
    match event
    case UserStored(user, _) => if k.Uids? then [Assign(user.externalId)] else []
    case GroupStored(group, _) => if k.Gids? then [Assign(group.externalId)] else []
    case Purged(_, _, _, _) => [Drop(StaleOf(k, s, event))]
  }

  /** The stored id is the one resolved on the tables the store found. */
  predicate ResolvedOn(s: Tables, event: Event, r: Ranges) {
    match event
    case UserStored(user, _) => Resolve(r.uids, TableOf(Uids, s), user.externalId) == Some(user.uid)
    case GroupStored(group, _) => Resolve(r.gids, TableOf(Gids, s), group.externalId) == Some(group.gid)
    case Purged(_, _, _, _) => true
  }

  ghost predicate Allocated(h: seq<Event>, cascade: bool, r: Ranges) {
    h != [] ==>
      && Allocated(h[..|h| - 1], cascade, r)
      && ResolvedOn(Replay(h[..|h| - 1], cascade), h[|h| - 1], r)
  }

  /** The steps of one table from position `i` of a history on. */
  function OpsSince(k: Kind, h: seq<Event>, i: nat, cascade: bool): seq<Op>
    requires i <= |h|
  {
    if |h| == i then []
    else OpsSince(k, h[..|h| - 1], i, cascade) + OpsOf(k, Replay(h[..|h| - 1], cascade), h[|h| - 1])
  }

  lemma RunOne(r: Range, t: Table, op: Op)
    ensures Run(r, t, [op]) == Apply(r, t, op)
  {
    assert [op][..0] == [];
  }

  lemma EffectOnTable(k: Kind, s: Tables, event: Event, cascade: bool)
    ensures TableOf(k, Effect(s, event, cascade)) ==
            match event
            case UserStored(user, _) =>
              if k.Uids? then Put(TableOf(k, s), user.externalId, user.uid) else TableOf(k, s)
            case GroupStored(group, _) =>
              if k.Gids? then Put(TableOf(k, s), group.externalId, group.gid) else TableOf(k, s)
            case Purged(_, _, _, _) => TableOf(k, s) - StaleOf(k, s, event)
  {
    match event
    case UserStored(user, at) => UserOnTable(s, user, at);
    case GroupStored(group, at) => GroupOnTable(s, group, at, cascade);
    case Purged(age, t1, t2, t3) => PurgeOnTable(s, age, t1, t2, t3, cascade);
  }

  lemma UserOnTable(s: Tables, user: User, at: int)
    ensures TableOf(Uids, StoreUser(s, user, at)) == Put(TableOf(Uids, s), user.externalId, user.uid)
    ensures TableOf(Gids, StoreUser(s, user, at)) == TableOf(Gids, s)
  {
  }

  lemma GroupOnTable(s: Tables, group: Group, at: int, cascade: bool)
    ensures TableOf(Gids, StoreGroup(s, group, at, cascade)) == Put(TableOf(Gids, s), group.externalId, group.gid)
    ensures TableOf(Uids, StoreGroup(s, group, at, cascade)) == TableOf(Uids, s)
  {
  }

  lemma PurgeOnTable(s: Tables, age: nat, t1: int, t2: int, t3: int, cascade: bool)
    ensures TableOf(Uids, Purge(s, age, t1, t2, t3, cascade)) == TableOf(Uids, s) - StaleUsers(s, age, t3)
    ensures TableOf(Gids, Purge(s, age, t1, t2, t3, cascade)) == TableOf(Gids, s) - StaleGroups(s, age, t2)
  {
  }

  lemma EffectIsStep(k: Kind, s: Tables, event: Event, cascade: bool, r: Ranges)
    requires ResolvedOn(s, event, r)
    ensures TableOf(k, Effect(s, event, cascade)) == Run(RangeOf(k, r), TableOf(k, s), OpsOf(k, s, event))
  {
    EffectOnTable(k, s, event, cascade);
    var g, t := RangeOf(k, r), TableOf(k, s);
    match event
    case UserStored(user, _) => RunOne(g, t, Assign(user.externalId));
    case GroupStored(group, _) => RunOne(g, t, Assign(group.externalId));
    case Purged(_, _, _, _) => RunOne(g, t, Drop(StaleOf(k, s, event)));
  }

  lemma {:induction false} RunConcat(r: Range, t: Table, a: seq<Op>, b: seq<Op>)
    ensures Run(r, t, a + b) == Run(r, Run(r, t, a), b)
  {
    if b == [] {
      assert a + b == a;
    } else {
      RunConcat(r, t, a, b[..|b| - 1]);
      assert (a + b)[..|a + b| - 1] == a + b[..|b| - 1];
    }
  }

  /** A cache history is a run of the probing table, from any point of it on. */
  lemma {:induction false} TableIsRun(k: Kind, h: seq<Event>, i: nat, cascade: bool, r: Ranges)
    requires i <= |h| && Allocated(h, cascade, r)
    ensures TableOf(k, Replay(h, cascade))
         == Run(RangeOf(k, r), TableOf(k, Replay(h[..i], cascade)), OpsSince(k, h, i, cascade))
  {
    if |h| == i {
      assert h[..i] == h;
    } else {
      var init, last := h[..|h| - 1], h[|h| - 1];
      TableIsRun(k, init, i, cascade, r);
      assert init[..i] == h[..i];
      EffectIsStep(k, Replay(init, cascade), last, cascade, r);
      RunConcat(RangeOf(k, r), TableOf(k, Replay(h[..i], cascade)), OpsSince(k, init, i, cascade),
                OpsOf(k, Replay(init, cascade), last));
    }
  }

  lemma EmptyTable(k: Kind)
    ensures TableOf(k, EmptyTables) == map[]
  {
  }

  /** In every reachable state the uids, and the gids, are unique and inside their range. */
  lemma ReachableTableValid(k: Kind, h: seq<Event>, cascade: bool, r: Ranges)
    requires Allocated(h, cascade, r)
    ensures Valid(RangeOf(k, r), TableOf(k, Replay(h, cascade)))
  {
    TableIsRun(k, h, 0, cascade, r);
    EmptyTable(k);
    RunKeepsValid(RangeOf(k, r), map[], OpsSince(k, h, 0, cascade));
  }

  /** No store removes or changes the row of another user, and none the gid of another group. */
  lemma StoresEvictNobody(h: seq<Event>, cascade: bool, r: Ranges, k: Kind, e: string)
    requires h != [] && Allocated(h, cascade, r)
    requires var last := h[|h| - 1];
             match last
             case UserStored(user, _) => user.externalId != e
             case GroupStored(group, _) => group.externalId != e
             case Purged(_, _, _, _) => false
    ensures var t, t' := TableOf(k, Replay(h[..|h| - 1], cascade)), TableOf(k, Replay(h, cascade));
            e in t ==> e in t' && t'[e] == t[e]
    ensures var u, u' := Replay(h[..|h| - 1], cascade).users, Replay(h, cascade).users;
            e in u ==> e in u' && u'[e] == u[e]
  {
    var init, last := h[..|h| - 1], h[|h| - 1];
    var s := Replay(init, cascade);
    ReachableTableValid(Uids, init, cascade, r);
    ReachableTableValid(Gids, init, cascade, r);
    match last
    case UserStored(user, _) =>
      AssignKeeps(r.uids, TableOf(Uids, s), user.externalId);
      assert e in s.users ==> TableOf(Uids, s)[e] != user.uid by {
        ResolveIsFirstFree(r.uids, TableOf(Uids, s), user.externalId, user.uid);
        assert e in s.users ==> TableOf(Uids, s)[e] in HeldByOthers(TableOf(Uids, s), user.externalId);
      }
    case GroupStored(group, _) =>
      ResolveIsFirstFree(r.gids, TableOf(Gids, s), group.externalId, group.gid);
      assert e in s.groups ==> TableOf(Gids, s)[e] in HeldByOthers(TableOf(Gids, s), group.externalId);
  }

  /** From position `i` on, no purge finds a stale row of this kind: the first purge of a new cache, for one. */
  ghost predicate IdlePurges(k: Kind, h: seq<Event>, i: nat, cascade: bool) {
    forall j :: i <= j < |h| && h[j].Purged? ==> StaleOf(k, Replay(h[..j], cascade), h[j]) == {}
  }

  lemma IdlePurgesInit(k: Kind, h: seq<Event>, i: nat, cascade: bool)
    requires i < |h| && IdlePurges(k, h, i, cascade)
    ensures IdlePurges(k, h[..|h| - 1], i, cascade)
  {
    var init := h[..|h| - 1];
    forall j | i <= j < |init| && init[j].Purged? ensures StaleOf(k, Replay(init[..j], cascade), init[j]) == {} {
      assert init[j] == h[j] && init[..j] == h[..j];
    }
  }

  lemma IdlePurgesPrefix(k: Kind, h: seq<Event>, n: nat, cascade: bool)
    requires n <= |h| && IdlePurges(k, h, 0, cascade)
    ensures IdlePurges(k, h[..n], 0, cascade) && IdlePurges(k, h, n, cascade)
  {
    forall j | 0 <= j < n && h[..n][j].Purged? ensures StaleOf(k, Replay(h[..n][..j], cascade), h[..n][j]) == {} {
      assert h[..n][j] == h[j] && h[..n][..j] == h[..j];
    }
  }

  lemma {:induction false} IdlePurgesDropNothing(k: Kind, h: seq<Event>, i: nat, cascade: bool)
    requires i <= |h| && IdlePurges(k, h, i, cascade)
    ensures DropsNothing(OpsSince(k, h, i, cascade))
  {
    if |h| > i {
      IdlePurgesInit(k, h, i, cascade);
      IdlePurgesDropNothing(k, h[..|h| - 1], i, cascade);
    }
  }

  /**
   * Stability over every history: from a cache with intact chains on, for as long as no purge deletes a
   * row of the kind, a uid or gid once stored is the one in the cache ever after, the one that resolving
   * its external id again returns, and all chains stay intact.
   */
  lemma StoredIdsAreStable(k: Kind, h: seq<Event>, i: nat, cascade: bool, r: Ranges)
    requires i <= |h| && Allocated(h, cascade, r) && IdlePurges(k, h, i, cascade)
    requires AllChained(RangeOf(k, r), TableOf(k, Replay(h[..i], cascade)))
    ensures AllChained(RangeOf(k, r), TableOf(k, Replay(h, cascade)))
    ensures var t, t' := TableOf(k, Replay(h[..i], cascade)), TableOf(k, Replay(h, cascade));
            forall e :: e in t ==> e in t' && t'[e] == t[e] && Resolve(RangeOf(k, r), t', e) == Some(t[e])
  {
    AllocatedPrefix(h, i, cascade, r);
    ReachableTableValid(k, h[..i], cascade, r);
    TableIsRun(k, h, i, cascade, r);
    IdlePurgesDropNothing(k, h, i, cascade);
    RunIsStable(RangeOf(k, r), TableOf(k, Replay(h[..i], cascade)), OpsSince(k, h, i, cascade));
  }

  /** A history none of whose purges deleted a row of the kind keeps every probe chain intact. */
  lemma ChainsIntact(k: Kind, h: seq<Event>, cascade: bool, r: Ranges)
    requires Allocated(h, cascade, r) && IdlePurges(k, h, 0, cascade)
    ensures AllChained(RangeOf(k, r), TableOf(k, Replay(h, cascade)))
  {
    assert h[..0] == [];
    EmptyTable(k);
    StoredIdsAreStable(k, h, 0, cascade, r);
  }

  /** A cache opened empty, purged on opening and not purged again, has had idle purges only. */
  lemma OpenedEmpty(k: Kind, h: seq<Event>, cascade: bool)
    requires h != [] && h[0].Purged? && forall j :: 0 < j < |h| ==> !h[j].Purged?
    ensures IdlePurges(k, h, 0, cascade)
  {
    assert h[..0] == [];
  }

  lemma {:induction false} AllocatedPrefix(h: seq<Event>, i: nat, cascade: bool, r: Ranges)
    requires i <= |h| && Allocated(h, cascade, r)
    ensures Allocated(h[..i], cascade, r)
  {
    if i < |h| {
      AllocatedPrefix(h[..|h| - 1], i, cascade, r);
      assert h[..|h| - 1][..i] == h[..i];
    } else {
      assert h[..i] == h;
    }
  }

  lemma {:induction false} KeptNeverDropped(k: Kind, h: seq<Event>, i: nat, cascade: bool, e: string)
    requires i <= |h|
    requires forall j :: i <= j <= |h| ==> e in TableOf(k, Replay(h[..j], cascade))
    ensures NeverDropped(OpsSince(k, h, i, cascade), e)
  {
    if |h| > i {
      var init, last := h[..|h| - 1], h[|h| - 1];
      forall j | i <= j <= |init| ensures e in TableOf(k, Replay(init[..j], cascade)) {
        assert init[..j] == h[..j];
      }
      KeptNeverDropped(k, init, i, cascade, e);
      assert e in TableOf(k, Replay(h, cascade)) by { assert h[..|h|] == h; }
      KeptIsSpared(k, Replay(init, cascade), last, cascade, e);
      NeitherDrops(OpsSince(k, init, i, cascade), OpsOf(k, Replay(init, cascade), last), e);
    }
  }

  lemma KeptIsSpared(k: Kind, s: Tables, event: Event, cascade: bool, e: string)
    requires e in TableOf(k, Effect(s, event, cascade))
    ensures NeverDropped(OpsOf(k, s, event), e)
  {
    EffectOnTable(k, s, event, cascade);
  }

  lemma NeitherDrops(a: seq<Op>, b: seq<Op>, e: string)
    requires NeverDropped(a, e) && NeverDropped(b, e)
    ensures NeverDropped(a + b, e)
  {
  }

  /**
   * With purges anywhere, as long as the row of `e` is never purged: each time it is stored again,
   * its id is at most as far from its home slot as it was at position `i`.
   */
  lemma StoredIdsDriftHome(k: Kind, h: seq<Event>, i: nat, cascade: bool, r: Ranges, e: string)
    requires i <= |h| && Allocated(h, cascade, r)
    requires forall j :: i <= j <= |h| ==> e in TableOf(k, Replay(h[..j], cascade))
    ensures var g, t, t' := RangeOf(k, r), TableOf(k, Replay(h[..i], cascade)), TableOf(k, Replay(h, cascade));
            e in t' && Distance(g, g.Home(e), t'[e]) <= Distance(g, g.Home(e), t[e])
  {
    AllocatedPrefix(h, i, cascade, r);
    ReachableTableValid(k, h[..i], cascade, r);
    TableIsRun(k, h, i, cascade, r);
    KeptNeverDropped(k, h, i, cascade, e);
    DistanceNeverGrows(RangeOf(k, r), TableOf(k, Replay(h[..i], cascade)), OpsSince(k, h, i, cascade), e);
  }
}
