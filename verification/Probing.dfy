/**
 * The id table as linear-probing open addressing: what a resolve followed by a store does to the
 * assignment of uids to external ids, and what holds over every run of such steps and purges.
 */
module Probing {
  import opened Prelude
  import opened Mapping

  /** External ids with a row, and the uid (or gid) of the row. */
  type Table = map<string, int>

  ghost predicate Injective(t: Table) {
    forall a, b :: a in t && b in t && t[a] == t[b] ==> a == b
  }

  /** The table invariant: both keys unique and every id inside the range. */
  ghost predicate Valid(r: Range, t: Table) {
    Injective(t) && forall e :: e in t ==> r.Contains(t[e])
  }

  /** The uids whose owner is someone other than `id`. */
  function HeldByOthers(t: Table, id: string): set<int> {
    set e | e in t && e != id :: t[e]
  }

  /** The number of leading probe offsets, from `k` on, that fall on held uids. */
  function FirstFree(r: Range, h: nat, held: set<int>, k: nat): (d: nat)
    requires h < r.size && k <= r.size
    ensures k <= d <= r.size
    ensures forall j: nat :: k <= j < d ==> Probe(r, h, j) in held
    ensures d < r.size ==> Probe(r, h, d) !in held
    decreases r.size - k
  {
    if k == r.size || Probe(r, h, k) !in held then k else FirstFree(r, h, held, k + 1)
  }

  /** `resolve_uid` / `resolve_gid`: the first probed slot not held by another id. */
  function Resolve(r: Range, t: Table, id: string): Option<int> {
    var d := FirstFree(r, r.Home(id), HeldByOthers(t, id), 0);
    if d < r.size then Some(Probe(r, r.Home(id), d)) else None
  }

  /** `INSERT OR REPLACE` on a table with two unique keys: both conflicting rows go. */
  function Put(t: Table, id: string, uid: int): Table {
    (map e | e in t && e != id && t[e] != uid :: t[e])[id := uid]
  }

  datatype Op = Assign(id: string) | Drop(ids: set<string>)

  function Apply(r: Range, t: Table, op: Op): Table {
    match op
    case Assign(id) => (match Resolve(r, t, id)
                        case Some(uid) => Put(t, id, uid)
                        case None => t)
    case Drop(ids) => t - ids
  }

  function Run(r: Range, t: Table, ops: seq<Op>): Table {
    if ops == [] then t else Apply(r, Run(r, t, ops[..|ops| - 1]), ops[|ops| - 1])
  }

  // ---- The probe sequence ----

  lemma ProbeAtDistance(r: Range, h: nat, uid: int)
    requires h < r.size && r.Contains(uid)
    ensures 0 <= Distance(r, h, uid) < r.size
    ensures Probe(r, h, Distance(r, h, uid)) == uid
  {
  }

  lemma DistanceOfProbe(r: Range, h: nat, k: nat)
    requires h < r.size && k < r.size
    ensures r.Contains(Probe(r, h, k))
    ensures Distance(r, h, Probe(r, h, k)) == k
  {
  }

  /** The offset found is the only one with a free slot behind nothing but held ones. */
  lemma FirstFreeUnique(r: Range, h: nat, held: set<int>, d: nat)
    requires h < r.size && d < r.size
    requires Probe(r, h, d) !in held
    requires forall j: nat :: j < d ==> Probe(r, h, j) in held
    ensures FirstFree(r, h, held, 0) == d
  {
  }

  // ---- One resolution ----

  /**
   * The resolved uid is in range, not held by anybody else, and every slot before it in probe order
   * is held by somebody else; no other uid has these three properties.
   */
  lemma ResolveIsFirstFree(r: Range, t: Table, id: string, uid: int)
    ensures Resolve(r, t, id) == Some(uid) <==>
            && r.Contains(uid) && uid !in HeldByOthers(t, id)
            && forall j: nat :: j < Distance(r, r.Home(id), uid) ==> Probe(r, r.Home(id), j) in HeldByOthers(t, id)
  {
    var h, held := r.Home(id), HeldByOthers(t, id);
    CandidateBase(r, id);
    var d := FirstFree(r, h, held, 0);
    if d < r.size {
      DistanceOfProbe(r, h, d);
    }
    if r.Contains(uid) {
      ProbeAtDistance(r, h, uid);
      if uid !in held && forall j: nat :: j < Distance(r, h, uid) ==> Probe(r, h, j) in held {
        FirstFreeUnique(r, h, held, Distance(r, h, uid));
      }
    }
  }

  /** A row of another id holds this uid. */
  ghost predicate Taken(t: Table, id: string, uid: int) {
    exists e :: e in t && e != id && t[e] == uid
  }

  /** The id a number of slots past the hash. */
  function SlotAfterHash(r: Range, id: string, k: nat): int {
    r.min + (r.hash(id) + k) % r.size
  }

  /** Offset `d` is the first whose slot, counted from the hash itself, no other id holds. */
  ghost predicate FirstVacant(r: Range, t: Table, id: string, d: nat) {
    d < r.size && !Taken(t, id, SlotAfterHash(r, id, d))
    && forall j: nat :: j < d ==> Taken(t, id, SlotAfterHash(r, id, j))
  }

  /** Resolution from the hash itself: the first slot from hash modulo size on, cyclically, that no other id holds. */
  lemma ResolveFromHash(r: Range, t: Table, id: string, uid: int)
    ensures Resolve(r, t, id) == Some(uid)
            <==> exists d: nat :: FirstVacant(r, t, id, d) && uid == SlotAfterHash(r, id, d)
  {
    CandidateBase(r, id);
    var h, held := r.Home(id), HeldByOthers(t, id);
    forall k: nat | k < r.size
      ensures Probe(r, h, k) == SlotAfterHash(r, id, k)
      ensures Probe(r, h, k) in held <==> Taken(t, id, SlotAfterHash(r, id, k))
    {
      ProbeFromHash(r, id, k);
    }
    if d: nat :| FirstVacant(r, t, id, d) {
      FirstFreeUnique(r, h, held, d);
      assert forall d': nat :: FirstVacant(r, t, id, d') ==> d' == d;
    }
    var d := FirstFree(r, h, held, 0);
    assert d < r.size ==> FirstVacant(r, t, id, d);
  }

  /** The hash slot: on an empty table the resolved id lies in the range, congruent to the hash modulo its size. */
  lemma EmptyTableSlot(r: Range, id: string)
    ensures Resolve(r, map[], id) == Some(r.min + r.hash(id) % r.size) && IdToUid(r, id) == r.min + r.hash(id) % r.size
    ensures r.Contains(r.min + r.hash(id) % r.size)
  {
    CandidateBase(r, id);
    ProbeFromHash(r, id, 0);
    assert HeldByOthers(map[], id) == {};
    HomeIsHashSlot(r, id);
  }

  /** Two ids, each alone in a table, get the same number exactly when their hashes differ by a multiple of the size. */
  lemma SameSlotIff(r: Range, a: string, b: string)
    ensures Resolve(r, map[], a) == Resolve(r, map[], b) <==> (r.hash(a) - r.hash(b)) % r.size == 0
  {
    EmptyTableSlot(r, a);
    EmptyTableSlot(r, b);
    CongruentIff(r.hash(a), r.hash(b), r.size);
  }

  /** Other ids with a row inside the range. */
  function OthersInRange(r: Range, t: Table, id: string): Table {
    map e | e in t && e != id && r.Contains(t[e]) :: t[e]
  }

  /** Resolution fails exactly when as many other rows lie in the range as it has slots. */
  lemma ExhaustedIff(r: Range, t: Table, id: string)
    requires Injective(t)
    ensures Resolve(r, t, id) == None <==> |OthersInRange(r, t, id)| == r.size
    ensures |OthersInRange(r, t, id)| <= r.size
  {
    var others, all := OthersInRange(r, t, id), Interval(r.min, r.size);
    ValuesSize(others);
    SubsetSize(others.Values, all);
    if Resolve(r, t, id) == None {
      CandidateBase(r, id);
      forall uid | uid in all ensures uid in others.Values {
        ProbeAtDistance(r, r.Home(id), uid);
        assert uid in HeldByOthers(t, id);
        var e :| e in t && e != id && t[e] == uid;
        assert e in others && others[e] == uid;
      }
      assert others.Values == all;
    } else {
      var uid := Resolve(r, t, id).value;
      ResolveIsFirstFree(r, t, id, uid);
      assert uid in all && uid !in others.Values;
    }
  }

  /** An id that already has a row always resolves. */
  lemma PresentResolves(r: Range, t: Table, id: string)
    requires Valid(r, t) && id in t
    ensures Resolve(r, t, id).Some?
    ensures Distance(r, r.Home(id), Resolve(r, t, id).value) <= Distance(r, r.Home(id), t[id])
  {
    CandidateBase(r, id);
    ProbeAtDistance(r, r.Home(id), t[id]);
    assert t[id] !in HeldByOthers(t, id);
    DistanceOfProbe(r, r.Home(id), FirstFree(r, r.Home(id), HeldByOthers(t, id), 0));
  }

  // ---- Chains ----

  /** Every slot from the home of `id` up to its own is held (by other ids, as uids are unique). */
  ghost predicate Chained(r: Range, t: Table, id: string)
    requires id in t
  {
    forall j: nat :: j < Distance(r, r.Home(id), t[id]) ==> Probe(r, r.Home(id), j) in t.Values
  }

  ghost predicate AllChained(r: Range, t: Table) {
    forall e :: e in t ==> Chained(r, t, e)
  }

  /** Re-resolving a stored id returns its stored uid exactly when its probe chain is unbroken. */
  lemma StableIff(r: Range, t: Table, id: string)
    requires Valid(r, t) && id in t
    ensures Resolve(r, t, id) == Some(t[id]) <==> Chained(r, t, id)
  {
    CandidateBase(r, id);
    var h := r.Home(id);
    ResolveIsFirstFree(r, t, id, t[id]);
    ProbeAtDistance(r, h, t[id]);
    forall j: nat | j < Distance(r, h, t[id])
      ensures Probe(r, h, j) in t.Values <==> Probe(r, h, j) in HeldByOthers(t, id)
    {
      DistanceOfProbe(r, h, j);
      assert Probe(r, h, j) != t[id];
      if Probe(r, h, j) in t.Values {
        var e :| e in t && t[e] == Probe(r, h, j);
      }
    }
  }

  /** A store under a uid leaves all other rows alone exactly when no other id holds that uid. */
  lemma PutKeepsOthersIff(t: Table, id: string, uid: int)
    ensures (forall e :: e in t && e != id ==> e in Put(t, id, uid) && Put(t, id, uid)[e] == t[e])
            <==> uid !in HeldByOthers(t, id)
  {
    if uid in HeldByOthers(t, id) {
      var e :| e in t && e != id && t[e] == uid;
      assert e !in Put(t, id, uid);
    }
  }

  // ---- One step ----

  /** Resolve-then-store evicts nobody and keeps the table a partial injection into the range. */
  lemma AssignKeeps(r: Range, t: Table, id: string)
    requires Valid(r, t)
    ensures Valid(r, Apply(r, t, Assign(id)))
    ensures forall e :: e in t && e != id ==> e in Apply(r, t, Assign(id)) && Apply(r, t, Assign(id))[e] == t[e]
    ensures id in t ==> id in Apply(r, t, Assign(id))
    ensures Resolve(r, t, id).Some? ==>
              id in Apply(r, t, Assign(id)) && Apply(r, t, Assign(id))[id] == Resolve(r, t, id).value
    ensures Apply(r, t, Assign(id)).Keys == if Resolve(r, t, id).Some? then t.Keys + {id} else t.Keys
  {
    match Resolve(r, t, id)
    case Some(uid) =>
      ResolveIsFirstFree(r, t, id, uid);
      PutKeepsOthersIff(t, id, uid);
    case None =>
  }

  /** A new row behind nothing but held slots leaves every chain unbroken. */
  lemma InsertKeepsChains(r: Range, t: Table, id: string, uid: int)
    requires AllChained(r, t) && id !in t
    requires forall j: nat :: j < Distance(r, r.Home(id), uid) ==> Probe(r, r.Home(id), j) in t.Values
    ensures AllChained(r, t[id := uid])
  {
    var t' := t[id := uid];
    forall u | u in t.Values ensures u in t'.Values {
      var e :| e in t && t[e] == u;
      assert t'[e] == u;
    }
    forall e | e in t' ensures Chained(r, t', e) {
      if e != id {
        assert Chained(r, t, e);
      }
    }
  }

  /** With every chain intact, a step only ever adds a row, and that row's chain is intact too. */
  lemma AssignKeepsChains(r: Range, t: Table, id: string)
    requires Valid(r, t) && AllChained(r, t)
    ensures AllChained(r, Apply(r, t, Assign(id)))
    ensures forall e :: e in t ==> e in Apply(r, t, Assign(id)) && Apply(r, t, Assign(id))[e] == t[e]
    ensures id in t ==> Apply(r, t, Assign(id)) == t
  {
    AssignKeeps(r, t, id);
    if id in t {
      assert Chained(r, t, id);
      StableIff(r, t, id);
      assert Apply(r, t, Assign(id)) == t;
    } else if Resolve(r, t, id).Some? {
      var uid := Resolve(r, t, id).value;
      ResolveIsFirstFree(r, t, id, uid);
      assert HeldByOthers(t, id) == t.Values;
      InsertKeepsChains(r, t, id, uid);
      assert Apply(r, t, Assign(id)) == t[id := uid];
    }
  }

  // ---- Whole runs ----

  /** Whatever is assigned and purged, in whatever order, the table stays a partial injection into the range. */
  lemma {:induction false} RunKeepsValid(r: Range, t: Table, ops: seq<Op>)
    requires Valid(r, t)
    ensures Valid(r, Run(r, t, ops))
  {
    if ops != [] {
      var before := Run(r, t, ops[..|ops| - 1]);
      RunKeepsValid(r, t, ops[..|ops| - 1]);
      match ops[|ops| - 1]
      case Assign(id) => AssignKeeps(r, before, id);
      case Drop(ids) =>
    }
  }

  /** Every purge of the run finds nothing to delete. */
  ghost predicate DropsNothing(ops: seq<Op>) {
    forall i :: 0 <= i < |ops| && ops[i].Drop? ==> ops[i].ids == {}
  }

  /**
   * Stability: over every run whose purges delete nothing each stored uid stays, and re-resolving any
   * stored id at the end returns exactly the uid stored at the start.
   */
  lemma {:induction false} RunIsStable(r: Range, t: Table, ops: seq<Op>)
    requires Valid(r, t) && AllChained(r, t) && DropsNothing(ops)
    ensures Valid(r, Run(r, t, ops)) && AllChained(r, Run(r, t, ops))
    ensures forall e :: e in t ==>
              && e in Run(r, t, ops) && Run(r, t, ops)[e] == t[e]
              && Resolve(r, Run(r, t, ops), e) == Some(t[e])
  {
    if ops != [] {
      var last := ops[|ops| - 1];
      RunIsStable(r, t, ops[..|ops| - 1]);
      var before := Run(r, t, ops[..|ops| - 1]);
      match last
      case Assign(id) =>
        AssignKeeps(r, before, id);
        AssignKeepsChains(r, before, id);
      case Drop(ids) =>
        assert ids == {} by { assert ops[|ops| - 1].Drop?; }
        assert before - ids == before;
    }
    var end := Run(r, t, ops);
    forall e | e in t ensures Resolve(r, end, e) == Some(t[e]) {
      assert Chained(r, end, e);
      StableIff(r, end, e);
    }
  }

  ghost predicate NeverDropped(ops: seq<Op>, id: string) {
    forall i :: 0 <= i < |ops| && ops[i].Drop? ==> id !in ops[i].ids
  }

  /**
   * With purges of other rows interleaved anywhere, a row that survives never moves further from its
   * home slot, not even when it is resolved and stored again.
   */
  lemma {:induction false} DistanceNeverGrows(r: Range, t: Table, ops: seq<Op>, id: string)
    requires Valid(r, t) && id in t && NeverDropped(ops, id)
    ensures id in Run(r, t, ops)
    ensures Distance(r, r.Home(id), Run(r, t, ops)[id]) <= Distance(r, r.Home(id), t[id])
  {
    if ops != [] {
      var init, last := ops[..|ops| - 1], ops[|ops| - 1];
      DistanceNeverGrows(r, t, init, id);
      RunKeepsValid(r, t, init);
      match last
      case Assign(other) =>
        AssignKeeps(r, Run(r, t, init), other);
        if other == id {
          PresentResolves(r, Run(r, t, init), id);
        }
      case Drop(ids) => assert last == ops[|ops| - 1];
    }
  }

  // ---- Purges and shared databases: where the documented guarantees stop ----

  /**
   * A purge leaves a row that it keeps resolving to its stored id exactly when every row it deletes lies
   * further from the home slot of that row than the row itself.
   */
  lemma PurgeKeepsStableIff(r: Range, t: Table, ids: set<string>, e: string)
    requires Valid(r, t) && e in t && e !in ids && Chained(r, t, e)
    ensures Resolve(r, t - ids, e) == Some(t[e])
            <==> forall d :: d in t && d in ids ==> Distance(r, r.Home(e), t[d]) > Distance(r, r.Home(e), t[e])
  {
    CandidateBase(r, e);
    StableIff(r, t - ids, e);
    SurvivorsHold(t, ids);
    ProbeAtDistance(r, r.Home(e), t[e]);
    if Chained(r, t - ids, e) {
      forall d | d in t && d in ids ensures Distance(r, r.Home(e), t[d]) > Distance(r, r.Home(e), t[e]) {
        DeletedHoldsNothing(t, ids, d);
        ProbeAtDistance(r, r.Home(e), t[d]);
      }
    } else {
      var j: nat :| j < Distance(r, r.Home(e), t[e]) && Probe(r, r.Home(e), j) !in (t - ids).Values;
      var d :| d in t && t[d] == Probe(r, r.Home(e), j);
      DistanceOfProbe(r, r.Home(e), j);
    }
  }

  lemma SurvivorsHold(t: Table, ids: set<string>)
    ensures forall d :: d in t && d !in ids ==> t[d] in (t - ids).Values
  {
    forall d | d in t && d !in ids ensures t[d] in (t - ids).Values {
      assert (t - ids)[d] == t[d];
    }
  }

  lemma DeletedHoldsNothing(t: Table, ids: set<string>, d: string)
    requires Injective(t) && d in t && d in ids
    ensures t[d] !in (t - ids).Values
  {
  }

  lemma RunThree(r: Range, t: Table, ops: seq<Op>)
    requires |ops| == 3
    ensures Run(r, t, ops) == Apply(r, Apply(r, Apply(r, t, ops[0]), ops[1]), ops[2])
  {
    RunTwo(r, t, ops[..2]);
  }

  lemma RunTwo(r: Range, t: Table, ops: seq<Op>)
    requires |ops| == 2
    ensures Run(r, t, ops) == Apply(r, Apply(r, t, ops[0]), ops[1])
  {
    assert Run(r, t, ops[..1]) == Apply(r, Run(r, t, ops[..1][..0]), ops[0]);
  }

  /**
   * "Already cached means same id" fails once a purge has broken a chain: `a` and `b` share a home,
   * `a` is purged, and `b`, still cached, resolves to a different uid than the one stored for it.
   */
  lemma PurgeMoves(r: Range, a: string, b: string, ops: seq<Op>)
    requires a != b && r.Home(a) == r.Home(b) && r.size >= 2
    requires ops == [Assign(a), Assign(b), Drop({a})]
    ensures var t := Run(r, map[], ops);
            b in t && t[b] == Probe(r, r.Home(b), 1) && Resolve(r, t, b) == Some(Probe(r, r.Home(b), 0))
  {
    RunThree(r, map[], ops);
    FirstGoesHome(r, a);
    SecondGoesNext(r, a, b);
    AloneGoesHome(r, b, Probe(r, r.Home(b), 1));
  }

  lemma FirstGoesHome(r: Range, id: string)
    ensures Apply(r, map[], Assign(id)) == map[id := Probe(r, r.Home(id), 0)]
  {
    AloneGoesHome(r, id, 0);
    CandidateBase(r, id);
    assert HeldByOthers(map[], id) == {};
  }

  lemma AloneGoesHome(r: Range, id: string, uid: int)
    ensures Resolve(r, map[id := uid], id) == Some(Probe(r, r.Home(id), 0))
  {
    CandidateBase(r, id);
    assert HeldByOthers(map[id := uid], id) == {};
  }

  lemma SecondGoesNext(r: Range, a: string, b: string)
    requires a != b && r.Home(a) == r.Home(b) && r.size >= 2
    ensures var t := map[a := Probe(r, r.Home(a), 0)];
            Apply(r, t, Assign(b)) == t[b := Probe(r, r.Home(b), 1)]
  {
    CandidateBase(r, b);
    var x := Probe(r, r.Home(a), 0);
    assert HeldByOthers(map[a := x], b) == {x} by { assert map[a := x][a] == x; }
    FirstFreeUnique(r, r.Home(b), {x}, 1);
  }

  /** A real input. */
  lemma PurgeMovesACachedId(r: Range, ops: seq<Op>)
    requires r == IdRange(_ => 0, 100, 10) && ops == [Assign("a"), Assign("b"), Drop({"a"})]
    ensures var t := Run(r, map[], ops);
            "b" in t && t["b"] == 101 && Resolve(r, t, "b") == Some(100)
  {
    PurgeMoves(r, "a", "b", ops);
  }

  /**
   * The mutex is needed: two ids resolved against the same table and then both stored. The second
   * store evicts the first row exactly when both resolutions found the same slot.
   */
  lemma UnsynchronisedStores(r: Range, t: Table, a: string, b: string, x: int, y: int)
    requires Valid(r, t) && a != b
    requires Resolve(r, t, a) == Some(x) && Resolve(r, t, b) == Some(y)
    ensures a in Put(Put(t, a, x), b, y) <==> x != y
    ensures x != y ==> Put(Put(t, a, x), b, y) == Put(Put(t, b, y), a, x)
  {
    ResolvedIsFree(r, t, a, x);
    ResolvedIsFree(r, t, b, y);
    if x == y {
      PutEvicts(Put(t, a, x), a, b);
    } else {
      BothStored(t, a, b, x, y);
      BothStored(t, b, a, y, x);
      UpdatesCommute(t, a, b, x, y);
    }
  }

  lemma UpdatesCommute(t: Table, a: string, b: string, x: int, y: int)
    requires a != b
    ensures t[a := x][b := y] == t[b := y][a := x]
  {
  }

  lemma ResolvedIsFree(r: Range, t: Table, id: string, uid: int)
    requires Resolve(r, t, id) == Some(uid)
    ensures uid !in HeldByOthers(t, id)
  {
  }

  lemma PutEvicts(t: Table, a: string, b: string)
    requires a in t && a != b
    ensures a !in Put(t, b, t[a])
  {
  }

  lemma BothStored(t: Table, a: string, b: string, x: int, y: int)
    requires a != b && x != y
    requires x !in HeldByOthers(t, a) && y !in HeldByOthers(t, b)
    ensures Put(Put(t, a, x), b, y) == t[a := x][b := y]
  {
    forall e | e in t && e != a && e != b
      ensures t[e] != x && t[e] != y
    {
      assert t[e] in HeldByOthers(t, a) && t[e] in HeldByOthers(t, b);
    }
  }

  // ---- Agreement between hosts ----

  ghost predicate DistinctHomes(r: Range, ids: set<string>) {
    forall a, b :: a in ids && b in ids && r.Home(a) == r.Home(b) ==> a == b
  }

  ghost predicate Mentions(ops: seq<Op>, ids: set<string>) {
    forall i :: 0 <= i < |ops| && ops[i].Assign? ==> ops[i].id in ids
  }

  ghost predicate AtHome(r: Range, ids: set<string>, t: Table) {
    forall e :: e in t ==> e in ids && t[e] == Probe(r, r.Home(e), 0)
  }

  lemma HomeIsFree(r: Range, ids: set<string>, t: Table, id: string)
    requires DistinctHomes(r, ids) && AtHome(r, ids, t) && id in ids
    ensures Resolve(r, t, id) == Some(Probe(r, r.Home(id), 0))
    ensures Put(t, id, Probe(r, r.Home(id), 0)) == t[id := Probe(r, r.Home(id), 0)]
  {
    CandidateBase(r, id);
    forall e | e in t && e != id ensures t[e] != Probe(r, r.Home(id), 0) {
      CandidateBase(r, e);
      assert r.Home(e) != r.Home(id);
    }
    FirstFreeUnique(r, r.Home(id), HeldByOthers(t, id), 0);
  }

  lemma {:induction false} RunStaysAtHome(r: Range, ids: set<string>, ops: seq<Op>)
    requires DistinctHomes(r, ids) && Mentions(ops, ids)
    ensures AtHome(r, ids, Run(r, map[], ops))
    ensures DropsNothing(ops) ==> forall i :: 0 <= i < |ops| && ops[i].Assign? ==> ops[i].id in Run(r, map[], ops)
  {
    if ops != [] {
      var init, last := ops[..|ops| - 1], ops[|ops| - 1];
      RunStaysAtHome(r, ids, init);
      if last.Assign? {
        HomeIsFree(r, ids, Run(r, map[], init), last.id);
      }
      forall i | 0 <= i < |ops| && ops[i].Assign? && DropsNothing(ops) ensures ops[i].id in Run(r, map[], ops) {
        if i < |init| {
          assert init[i] == ops[i];
        }
      }
    }
  }

  /** When no two ids ever stored share a home slot, every run with any purges gives each id its hash slot. */
  lemma CollisionFree(r: Range, ids: set<string>, ops: seq<Op>)
    requires DistinctHomes(r, ids) && Mentions(ops, ids)
    ensures forall e :: e in Run(r, map[], ops) ==> e in ids && Run(r, map[], ops)[e] == IdToUid(r, e)
  {
    RunStaysAtHome(r, ids, ops);
    forall e | e in Run(r, map[], ops) ensures Run(r, map[], ops)[e] == IdToUid(r, e) {
      HomeIsHashSlot(r, e);
    }
  }

  lemma HomeIsHashSlot(r: Range, id: string)
    ensures Probe(r, r.Home(id), 0) == IdToUid(r, id)
  {
    CandidateBase(r, id);
  }

  // ---- Resolved without being stored ----

  /** Every slot from `g` up to, but not including, `h` is held, cyclically. */
  ghost predicate HeldBetween(r: Range, held: set<int>, g: nat, h: nat) {
    forall j: nat :: j < Distance(r, g, r.min + h) ==> Probe(r, g, j) in held
  }

  /** Two ids that are both new, with nothing but held slots from one home slot to the other. */
  ghost predicate SameVacancy(r: Range, t: Table, p: string, q: string) {
    && p !in t && q !in t
    && (HeldBetween(r, t.Values, r.Home(p), r.Home(q)) || HeldBetween(r, t.Values, r.Home(q), r.Home(p)))
  }

  /**
   * On one table with intact chains two ids resolve to the same number exactly when they are the same,
   * or neither has a row and every slot from the home of one up to the home of the other is held.
   */
  lemma SameResolutionIff(r: Range, t: Table, p: string, q: string, x: int, y: int)
    requires Valid(r, t) && AllChained(r, t)
    requires Resolve(r, t, p) == Some(x) && Resolve(r, t, q) == Some(y)
    ensures x == y <==> p == q || SameVacancy(r, t, p, q)
  {
    Resolution(r, t, p, x);
    Resolution(r, t, q, y);
    CandidateBase(r, p);
    CandidateBase(r, q);
    if p !in t && q !in t {
      VacancyAt(r, t, r.Home(p), r.Home(q), x, y);
    }
  }

  /** What resolving an id returns: its own number, or the first slot that nobody holds. */
  lemma Resolution(r: Range, t: Table, id: string, uid: int)
    requires Valid(r, t) && AllChained(r, t) && Resolve(r, t, id) == Some(uid)
    ensures id in t ==> uid == t[id] && uid in t.Values
    ensures id !in t ==> r.Home(id) < r.size && VacantAt(r, t.Values, r.Home(id), uid)
  {
    CandidateBase(r, id);
    if id in t {
      assert Chained(r, t, id);
      StableIff(r, t, id);
    } else {
      assert HeldByOthers(t, id) == t.Values;
      ResolveIsFirstFree(r, t, id, uid);
    }
  }

  /** The first slot from `h` on that is not held. */
  ghost predicate VacantAt(r: Range, held: set<int>, h: nat, uid: int) {
    && r.Contains(uid) && uid !in held
    && forall j: nat :: j < Distance(r, h, uid) ==> Probe(r, h, j) in held
  }

  lemma VacancyAt(r: Range, t: Table, g: nat, h: nat, x: int, y: int)
    requires g < r.size && h < r.size && VacantAt(r, t.Values, g, x) && VacantAt(r, t.Values, h, y)
    ensures x == y <==> HeldBetween(r, t.Values, g, h) || HeldBetween(r, t.Values, h, g)
  {
    ProbeAtDistance(r, g, x);
    ProbeAtDistance(r, h, y);
    if HeldBetween(r, t.Values, g, h) {
      VacancyShared(r, t.Values, g, h, x, y);
    } else if HeldBetween(r, t.Values, h, g) {
      VacancyShared(r, t.Values, h, g, y, x);
    }
  }

  lemma VacancyShared(r: Range, held: set<int>, g: nat, h: nat, x: int, y: int)
    requires g < r.size && h < r.size && VacantAt(r, held, g, x) && VacantAt(r, held, h, y)
    requires HeldBetween(r, held, g, h)
    ensures x == y
  {
    ProbeAtDistance(r, g, x);
    ProbeAtDistance(r, h, x);
    ProbeAtDistance(r, h, y);
    assert Distance(r, g, x) >= Distance(r, g, r.min + h);
    ProbesMeet(r, g, h, Distance(r, g, r.min + h), 0, Distance(r, h, y));
  }

  /** Two probe sequences that meet go on together. */
  lemma ProbesMeet(r: Range, g: nat, h: nat, i: nat, j: nat, d: nat)
    requires g < r.size && h < r.size && i + d < r.size && j + d < r.size
    requires Probe(r, g, i) == Probe(r, h, j)
    ensures Probe(r, g, i + d) == Probe(r, h, j + d)
  {
  }
}
