/** Order independence and agreement between hosts, for whole histories of the cache. */
module AllocationOrder {
  import opened Prelude
  import opened Mapping
  import opened Probing
  import opened OrderIndependence
  import opened CacheModel
  import opened Allocation

  /** The external id that an event stores in one table, if any. */
  function StoredBy(k: Kind, event: Event): seq<string> {
    match event
    case UserStored(user, _) => if k.Uids? then [user.externalId] else []
    case GroupStored(group, _) => if k.Gids? then [group.externalId] else []
    case Purged(_, _, _, _) => []
  }

  /** The external ids stored in one table by a history, in order. */
  function StoredIds(k: Kind, h: seq<Event>): seq<string> {
    if h == [] then [] else StoredIds(k, h[..|h| - 1]) + StoredBy(k, h[|h| - 1])
  }

  /** What one event that deletes nothing does to a table: a resolve-then-store step, or nothing. */
  lemma StepOnTable(k: Kind, s: Tables, event: Event, cascade: bool, r: Ranges)
    requires ResolvedOn(s, event, r) && Valid(RangeOf(k, r), TableOf(k, s))
    requires event.Purged? ==> StaleOf(k, s, event) == {}
    ensures var t, t' := TableOf(k, s), TableOf(k, Effect(s, event, cascade));
            if StoredBy(k, event) == [] then t' == t
            else
              && t' == Apply(RangeOf(k, r), t, Assign(StoredBy(k, event)[0]))
              && t'.Keys == t.Keys + {StoredBy(k, event)[0]}
  {
    EffectOnTable(k, s, event, cascade);
    if StoredBy(k, event) != [] {
      AssignKeeps(RangeOf(k, r), TableOf(k, s), StoredBy(k, event)[0]);
    } else if event.Purged? {
      assert TableOf(k, s) - {} == TableOf(k, s);
    }
  }

  lemma StoredMore(r: Range, ids: seq<string>, id: string)
    ensures Stored(r, ids + [id]) == Apply(r, Stored(r, ids), Assign(id))
    ensures Elements(ids + [id]) == Elements(ids) + {id}
  {
    assert (ids + [id])[..|ids|] == ids;
    StoredLast(r, ids + [id]);
  }

  /** As long as purges delete nothing, the table is the one that storing the ids in order leaves, all of them. */
  lemma {:induction false} HistoryIsStored(k: Kind, h: seq<Event>, cascade: bool, r: Ranges)
    requires Allocated(h, cascade, r) && IdlePurges(k, h, 0, cascade)
    ensures TableOf(k, Replay(h, cascade)) == Stored(RangeOf(k, r), StoredIds(k, h))
    ensures TableOf(k, Replay(h, cascade)).Keys == Elements(StoredIds(k, h))
  {
    if h == [] {
      EmptyTable(k);
      assert Stored(RangeOf(k, r), []) == map[] && Elements([]) == {};
    } else {
      var init, last := h[..|h| - 1], h[|h| - 1];
      IdlePurgesInit(k, h, 0, cascade);
      HistoryIsStored(k, init, cascade, r);
      ReachableTableValid(k, init, cascade, r);
      assert last.Purged? ==> StaleOf(k, Replay(h[..|h| - 1], cascade), h[|h| - 1]) == {};
      StepOnTable(k, Replay(init, cascade), last, cascade, r);
      if StoredBy(k, last) == [] {
        assert StoredIds(k, h) == StoredIds(k, init);
      } else {
        assert StoredBy(k, last) == [StoredBy(k, last)[0]];
        StoredMore(RangeOf(k, r), StoredIds(k, init), StoredBy(k, last)[0]);
      }
    }
  }

  /**
   * Two caches that stored the same external ids, whatever the order, whatever else they stored and as
   * long as purges deleted none of them, hold the same uids (or gids) at the same total distance.
   */
  lemma HistoriesAreOrderIndependent(k: Kind, g: seq<Event>, h: seq<Event>, c: bool, d: bool, r: Ranges)
    requires Allocated(g, c, r) && IdlePurges(k, g, 0, c)
    requires Allocated(h, d, r) && IdlePurges(k, h, 0, d)
    requires Elements(StoredIds(k, g)) == Elements(StoredIds(k, h))
    ensures TableOf(k, Replay(g, c)).Keys == TableOf(k, Replay(h, d)).Keys
    ensures TableOf(k, Replay(g, c)).Values == TableOf(k, Replay(h, d)).Values
    ensures TotalDistance(RangeOf(k, r), TableOf(k, Replay(g, c)))
         == TotalDistance(RangeOf(k, r), TableOf(k, Replay(h, d)))
  {
    HistoryIsStored(k, g, c, r);
    HistoryIsStored(k, h, d, r);
    StoredIdsFit(k, g, c, r);
    StoresAreOrderIndependent(RangeOf(k, r), StoredIds(k, g), StoredIds(k, h));
  }

  /** Every store of a history found a slot, so the ids stored never outnumber the slots. */
  lemma StoredIdsFit(k: Kind, h: seq<Event>, cascade: bool, r: Ranges)
    requires Allocated(h, cascade, r) && IdlePurges(k, h, 0, cascade)
    ensures |Elements(StoredIds(k, h))| <= RangeOf(k, r).size
  {
    var g, t := RangeOf(k, r), TableOf(k, Replay(h, cascade));
    ReachableTableValid(k, h, cascade, r);
    ValuesSize(t);
    SubsetSize(t.Values, Interval(g.min, g.size));
    HistoryIsStored(k, h, cascade, r);
  }

  lemma {:induction false} OpsMentionStored(k: Kind, h: seq<Event>, cascade: bool)
    ensures Mentions(OpsSince(k, h, 0, cascade), Elements(StoredIds(k, h)))
  {
    if h != [] {
      OpsMentionStored(k, h[..|h| - 1], cascade);
      assert forall e :: e in StoredIds(k, h[..|h| - 1]) ==> e in StoredIds(k, h);
      assert forall e :: e in StoredBy(k, h[|h| - 1]) ==> e in StoredIds(k, h);
    }
  }

  /**
   * When no two external ids ever stored share a home slot, every row of every history, purges included,
   * has exactly the id its hash gives it, so two hosts with the same ranges agree on every id both hold.
   */
  lemma CollisionFreeHistories(k: Kind, h: seq<Event>, cascade: bool, r: Ranges)
    requires Allocated(h, cascade, r) && DistinctHomes(RangeOf(k, r), Elements(StoredIds(k, h)))
    ensures forall e :: e in TableOf(k, Replay(h, cascade)) ==>
              TableOf(k, Replay(h, cascade))[e] == IdToUid(RangeOf(k, r), e)
  {
    TableIsRun(k, h, 0, cascade, r);
    EmptyTable(k);
    assert h[..0] == [];
    OpsMentionStored(k, h, cascade);
    CollisionFree(RangeOf(k, r), Elements(StoredIds(k, h)), OpsSince(k, h, 0, cascade));
  }
}
