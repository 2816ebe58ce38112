/** What a run of resolve-then-store steps leaves behind, whatever the order of the ids. */
module OrderIndependence {
  import opened Prelude
  import opened Mapping
  import opened Probing

  function Assigns(ids: seq<string>): (ops: seq<Op>)
    ensures |ops| == |ids|
    ensures forall i :: 0 <= i < |ops| ==> ops[i].Assign?
  {
    seq(|ids|, i requires 0 <= i < |ids| => Assign(ids[i]))
  }

  /** The table after storing `ids` in this order on an empty cache. */
  function Stored(r: Range, ids: seq<string>): Table {
    Run(r, map[], Assigns(ids))
  }

  lemma StoredLast(r: Range, ids: seq<string>)
    requires ids != []
    ensures Stored(r, ids) == Apply(r, Stored(r, ids[..|ids| - 1]), Assign(ids[|ids| - 1]))
  {
    assert Assigns(ids)[..|ids| - 1] == Assigns(ids[..|ids| - 1]);
  }

  ghost function Elements(ids: seq<string>): set<string> {
    set e | e in ids
  }

  // ---- The part of a table that does not depend on the order ----

  datatype Summary = Summary(keys: set<string>, held: set<int>, total: int)

  ghost function TotalDistance(r: Range, t: Table): int
    decreases |t|
  {
    if t == map[] then 0
    else
      var e :| e in t;
      Distance(r, r.Home(e), t[e]) + TotalDistance(r, t - {e})
  }

  lemma {:induction false} TotalWithout(r: Range, t: Table, e: string)
    requires e in t
    ensures TotalDistance(r, t) == Distance(r, r.Home(e), t[e]) + TotalDistance(r, t - {e})
    decreases |t|
  {
    var x :| x in t && TotalDistance(r, t) == Distance(r, r.Home(x), t[x]) + TotalDistance(r, t - {x});
    if x != e {
      TotalWithout(r, t - {x}, e);
      TotalWithout(r, t - {e}, x);
      assert t - {x} - {e} == t - {e} - {x};
    }
  }

  ghost function SummaryOf(r: Range, t: Table): Summary {
    Summary(t.Keys, t.Values, TotalDistance(r, t))
  }

  ghost function SumStep(r: Range, s: Summary, id: string): Summary {
    var d := FirstFree(r, r.Home(id), s.held, 0);
    if id in s.keys || d == r.size then s
    else Summary(s.keys + {id}, s.held + {Probe(r, r.Home(id), d)}, s.total + d)
  }

  ghost function SumRun(r: Range, s: Summary, ids: seq<string>): Summary {
    if ids == [] then s else SumStep(r, SumRun(r, s, ids[..|ids| - 1]), ids[|ids| - 1])
  }

  lemma StepSummary(r: Range, t: Table, id: string)
    requires Valid(r, t) && AllChained(r, t)
    ensures SummaryOf(r, Apply(r, t, Assign(id))) == SumStep(r, SummaryOf(r, t), id)
  {
    var t' := Apply(r, t, Assign(id));
    AssignKeeps(r, t, id);
    AssignKeepsChains(r, t, id);
    if id !in t {
      assert HeldByOthers(t, id) == t.Values;
      if Resolve(r, t, id).Some? {
        var h := r.Home(id);
        DistanceOfProbe(r, h, FirstFree(r, h, t.Values, 0));
        assert t' == t[id := t'[id]];
        InsertSummary(r, t, id, t'[id]);
      }
    }
  }

  lemma InsertSummary(r: Range, t: Table, id: string, uid: int)
    requires id !in t
    ensures SummaryOf(r, t[id := uid])
         == Summary(t.Keys + {id}, t.Values + {uid}, TotalDistance(r, t) + Distance(r, r.Home(id), uid))
  {
    ValuesAfterInsert(t, id, uid);
    TotalWithout(r, t[id := uid], id);
    assert t[id := uid] - {id} == t;
  }

  lemma ValuesAfterInsert(t: Table, id: string, uid: int)
    requires id !in t
    ensures t[id := uid].Values == t.Values + {uid}
  {
    var t' := t[id := uid];
    assert t'[id] == uid;
    forall u | u in t.Values ensures u in t'.Values {
      var e :| e in t && t[e] == u;
      assert t'[e] == u;
    }
  }

  lemma {:induction false} RunSummary(r: Range, ids: seq<string>)
    ensures Valid(r, Stored(r, ids)) && AllChained(r, Stored(r, ids))
    ensures SummaryOf(r, Stored(r, ids)) == SumRun(r, Summary({}, {}, 0), ids)
  {
    if ids == [] {
      assert SummaryOf(r, map[]) == Summary({}, {}, 0);
    } else {
      var init, last := ids[..|ids| - 1], ids[|ids| - 1];
      RunSummary(r, init);
      StoredLast(r, ids);
      StepSummary(r, Stored(r, init), last);
      AssignKeeps(r, Stored(r, init), last);
      AssignKeepsChains(r, Stored(r, init), last);
    }
  }

  // ---- Two adjacent ids commute ----

  /** Held slots lie in the range, one for each key, and `all` still has room for every key to come. */
  ghost predicate Roomy(r: Range, s: Summary, all: set<string>) {
    && s.keys <= all && |all| <= r.size
    && s.held <= Interval(r.min, r.size) && |s.held| == |s.keys|
  }

  lemma StepKeepsRoom(r: Range, s: Summary, id: string, all: set<string>)
    requires Roomy(r, s, all) && id in all
    ensures Roomy(r, SumStep(r, s, id), all)
    ensures id in SumStep(r, s, id).keys
  {
    if id !in s.keys {
      SubsetSize(s.keys + {id}, all);
      RoomIsFound(r, s.held, id);
    }
  }

  lemma RoomIsFound(r: Range, held: set<int>, id: string)
    requires held <= Interval(r.min, r.size) && |held| < r.size
    ensures FirstFree(r, r.Home(id), held, 0) < r.size
    ensures r.Contains(Probe(r, r.Home(id), FirstFree(r, r.Home(id), held, 0)))
  {
    CandidateBase(r, id);
    if forall uid :: uid in Interval(r.min, r.size) ==> uid in held {
      SubsetSize(Interval(r.min, r.size), held);
      assert false;
    }
    var uid :| uid in Interval(r.min, r.size) && uid !in held;
    ProbeAtDistance(r, r.Home(id), uid);
    DistanceOfProbe(r, r.Home(id), FirstFree(r, r.Home(id), held, 0));
  }

  /** Offset `d` is the first free one from the slot `h`. */
  ghost predicate FreeAt(r: Range, h: nat, held: set<int>, d: nat)
    requires h < r.size
  {
    d < r.size && Probe(r, h, d) !in held && forall j: nat :: j < d ==> Probe(r, h, j) in held
  }

  /** The next free slot after a shared first one is no further along one probe sequence than the other. */
  lemma NextFreeNoFurther(r: Range, g: nat, h: nat, held: set<int>, i: nat, j: nat, di: nat, dj: nat)
    requires g < r.size && h < r.size && i < r.size && j < r.size
    requires Probe(r, g, i) == Probe(r, h, j)
    requires i < di && j < dj && FreeAt(r, g, held, di) && FreeAt(r, h, held, dj)
    ensures di - i <= dj - j
  {
    if di - i > dj - j {
      ProbesMeet(r, g, h, i, j, dj - j);
      assert false;
    }
  }

  /** Two new ids take the same two slots, at the same distance in all, whichever comes first. */
  lemma SlotsCommute(r: Range, g: nat, h: nat, held: set<int>, i: nat, j: nat, i': nat, j': nat)
    requires g < r.size && h < r.size
    requires FreeAt(r, g, held, i) && FreeAt(r, h, held, j)
    requires FreeAt(r, g, held + {Probe(r, h, j)}, i') && FreeAt(r, h, held + {Probe(r, g, i)}, j')
    ensures held + {Probe(r, g, i)} + {Probe(r, h, j')} == held + {Probe(r, h, j)} + {Probe(r, g, i')}
    ensures i + j' == j + i'
  {
    var x, y := Probe(r, g, i), Probe(r, h, j);
    if x != y {
      FreeAtUnique(r, g, held, held + {y}, i, i');
      FreeAtUnique(r, h, held, held + {x}, j, j');
    } else {
      assert i' > i by { assert Probe(r, g, i') != x; }
      assert j' > j by { assert Probe(r, h, j') != x; }
      NextFreeNoFurther(r, g, h, held + {x}, i, j, i', j');
      NextFreeNoFurther(r, h, g, held + {x}, j, i, j', i');
      ProbesMeet(r, g, h, i, j, i' - i);
    }
  }

  /** Holding another slot than the first free one leaves it the first free one. */
  lemma FreeAtUnique(r: Range, h: nat, held: set<int>, held': set<int>, d: nat, d': nat)
    requires h < r.size && held <= held'
    requires FreeAt(r, h, held, d) && FreeAt(r, h, held', d') && Probe(r, h, d) !in held'
    ensures d == d'
  {
  }

  /** Storing two new ids in either order fills the same slots at the same total distance. */
  lemma NewIdsCommute(r: Range, s: Summary, a: string, b: string)
    requires a != b && a !in s.keys && b !in s.keys
    requires s.held <= Interval(r.min, r.size) && |s.held| + 2 <= r.size
    ensures SumStep(r, SumStep(r, s, a), b) == SumStep(r, SumStep(r, s, b), a)
  {
    var i, j' := StepsTake(r, s, a, b);
    var j, i' := StepsTake(r, s, b, a);
    SlotsCommute(r, r.Home(a), r.Home(b), s.held, i, j, i', j');
    TwoMore(s.keys, a, b);
  }

  lemma TwoMore(keys: set<string>, a: string, b: string)
    requires a != b && a !in keys && b !in keys
    ensures |keys + {a, b}| == |keys| + 2
    ensures keys + {a} + {b} == keys + {b} + {a}
  {
    assert keys + {a, b} == keys + {a} + {b};
  }

  /** The slots held after two new ids took theirs. */
  ghost function TwoHeld(r: Range, held: set<int>, g: nat, i: nat, h: nat, j: nat): set<int> {
    held + {Probe(r, g, i)} + {Probe(r, h, j)}
  }

  lemma StepsTake(r: Range, s: Summary, a: string, b: string) returns (i: nat, j: nat)
    requires a != b && a !in s.keys && b !in s.keys
    requires s.held <= Interval(r.min, r.size) && |s.held| + 2 <= r.size
    ensures r.Home(a) < r.size && FreeAt(r, r.Home(a), s.held, i)
    ensures r.Home(b) < r.size && FreeAt(r, r.Home(b), s.held + {Probe(r, r.Home(a), i)}, j)
    ensures SumStep(r, SumStep(r, s, a), b)
         == Summary(s.keys + {a} + {b}, TwoHeld(r, s.held, r.Home(a), i, r.Home(b), j), s.total + i + j)
  {
    var s', s'';
    i, s' := StepTakes(r, s, a);
    j, s'' := StepTakes(r, s', b);
  }

  /** What one step of a new id does while there is room. */
  lemma StepTakes(r: Range, s: Summary, id: string) returns (d: nat, s': Summary)
    requires id !in s.keys && s.held <= Interval(r.min, r.size) && |s.held| < r.size
    ensures r.Home(id) < r.size && FreeAt(r, r.Home(id), s.held, d)
    ensures s' == SumStep(r, s, id)
    ensures s' == Summary(s.keys + {id}, s.held + {Probe(r, r.Home(id), d)}, s.total + d)
    ensures s'.held <= Interval(r.min, r.size) && |s'.held| == |s.held| + 1
  {
    s' := SumStep(r, s, id);
    CandidateBase(r, id);
    RoomIsFound(r, s.held, id);
    d := FirstFree(r, r.Home(id), s.held, 0);
  }

  lemma StepsCommute(r: Range, s: Summary, a: string, b: string, all: set<string>)
    requires Roomy(r, s, all) && a in all && b in all
    ensures SumStep(r, SumStep(r, s, a), b) == SumStep(r, SumStep(r, s, b), a)
  {
    if a != b && a !in s.keys && b !in s.keys {
      SubsetSize(s.keys + {a, b}, all);
      TwoMore(s.keys, a, b);
      NewIdsCommute(r, s, a, b);
    } else {
      StepKeepsRoom(r, s, a, all);
      StepKeepsRoom(r, s, b, all);
    }
  }

  // ---- From adjacent swaps to arbitrary orders ----

  lemma {:induction false} SumRunKeepsRoom(r: Range, s: Summary, ids: seq<string>, all: set<string>)
    requires Roomy(r, s, all) && Elements(ids) <= all
    ensures Roomy(r, SumRun(r, s, ids), all)
    ensures SumRun(r, s, ids).keys == s.keys + Elements(ids)
  {
    if ids != [] {
      var init, last := ids[..|ids| - 1], ids[|ids| - 1];
      assert Elements(ids) == Elements(init) + {last};
      SumRunKeepsRoom(r, s, init, all);
      StepKeepsRoom(r, SumRun(r, s, init), last, all);
    }
  }

  function Without(ids: seq<string>, a: string): (rest: seq<string>)
    ensures forall e :: e in rest <==> e in ids && e != a
    ensures |rest| <= |ids|
  {
    if ids == [] then []
    else
      var init, last := Without(ids[..|ids| - 1], a), ids[|ids| - 1];
      if last == a then init else init + [last]
  }

  /** An id may be moved to the end of a run. */
  lemma {:induction false} MoveToEnd(r: Range, s: Summary, ids: seq<string>, a: string, all: set<string>)
    requires Roomy(r, s, all) && Elements(ids) <= all && a in ids
    ensures SumRun(r, s, ids) == SumStep(r, SumRun(r, s, Without(ids, a)), a)
  {
    var init, last := ids[..|ids| - 1], ids[|ids| - 1];
    assert ids == init + [last];
    assert Elements(init) <= all && last in all;
    assert Elements(Without(init, a)) <= all;
    SumRunKeepsRoom(r, s, Without(init, a), all);
    var rest := SumRun(r, s, Without(init, a));
    StepKeepsRoom(r, rest, a, all);
    if a in init {
      MoveToEnd(r, s, init, a, all);
      StepsCommute(r, rest, a, last, all);
    } else {
      WithoutAbsent(init, a);
    }
    if last != a {
      assert (Without(init, a) + [last])[..|Without(init, a)|] == Without(init, a);
    }
  }

  lemma {:induction false} WithoutAbsent(ids: seq<string>, a: string)
    requires a !in ids
    ensures Without(ids, a) == ids
  {
    if ids != [] {
      WithoutAbsent(ids[..|ids| - 1], a);
      assert ids == ids[..|ids| - 1] + [ids[|ids| - 1]];
    }
  }

  /** The elements before the last are those of all, or those of all without the last. */
  lemma LastMayRepeat(p: seq<string>, q: seq<string>)
    requires p != [] && Elements(p) == Elements(q)
    ensures var init, a := p[..|p| - 1], p[|p| - 1];
            a in q && Elements(init) == if a in init then Elements(q) else Elements(Without(q, a))
  {
    ElementsLast(p);
    assert p[|p| - 1] in Elements(p);
  }

  lemma {:induction false} SumRunsAgree(r: Range, s: Summary, p: seq<string>, q: seq<string>, all: set<string>)
    requires Roomy(r, s, all) && Elements(p) <= all && Elements(p) == Elements(q)
    ensures SumRun(r, s, p) == SumRun(r, s, q)
    decreases |p|
  {
    if p == [] {
      assert forall i :: 0 <= i < |q| ==> q[i] in Elements(q);
    } else {
      var init, a := p[..|p| - 1], p[|p| - 1];
      LastMayRepeat(p, q);
      if a in init {
        SumRunsAgree(r, s, init, q, all);
        SumRunKeepsRoom(r, s, init, all);
      } else {
        SumRunsAgree(r, s, init, Without(q, a), all);
        MoveToEnd(r, s, q, a, all);
      }
    }
  }

  /** A new id finds no slot exactly when the whole range is held. */
  lemma NewIdFailsIff(r: Range, t: Table, id: string)
    requires Valid(r, t) && id !in t
    ensures Resolve(r, t, id) == None <==> t.Values == Interval(r.min, r.size)
  {
    ExhaustedIff(r, t, id);
    assert OthersInRange(r, t, id) == t;
    ValuesSize(t);
    SubsetSize(t.Values, Interval(r.min, r.size));
  }

  lemma StepFills(r: Range, t: Table, id: string, seen: set<string>)
    requires Valid(r, t) && AllChained(r, t)
    requires t.Keys == seen || t.Values == Interval(r.min, r.size)
    ensures Apply(r, t, Assign(id)).Keys == seen + {id} || Apply(r, t, Assign(id)).Values == Interval(r.min, r.size)
  {
    AssignKeeps(r, t, id);
    AssignKeepsChains(r, t, id);
    if id in t {
      assert t.Keys == seen ==> seen + {id} == seen;
    } else {
      NewIdFailsIff(r, t, id);
    }
  }

  lemma ElementsLast(ids: seq<string>)
    requires ids != []
    ensures Elements(ids) == Elements(ids[..|ids| - 1]) + {ids[|ids| - 1]}
  {
    assert ids == ids[..|ids| - 1] + [ids[|ids| - 1]];
  }

  /** Every run stores all its ids or ends with the whole range held. */
  lemma {:induction false} RunFills(r: Range, ids: seq<string>)
    ensures Stored(r, ids).Keys == Elements(ids) || Stored(r, ids).Values == Interval(r.min, r.size)
  {
    if ids == [] {
      assert Elements(ids) == {};
    } else {
      var init, last := ids[..|ids| - 1], ids[|ids| - 1];
      RunFills(r, init);
      RunSummary(r, init);
      StoredLast(r, ids);
      ElementsLast(ids);
      StepFills(r, Stored(r, init), last, Elements(init));
    }
  }

  /**
   * Order independence. Storing the same external ids in any two orders, with any repetitions, ends
   * with the same uids held; and unless the range runs out, with the same ids stored at the same
   * total cyclic distance from their home slots, although colliding ids may have swapped places.
   */
  lemma StoresAreOrderIndependent(r: Range, p: seq<string>, q: seq<string>)
    requires Elements(p) == Elements(q)
    ensures Stored(r, p).Values == Stored(r, q).Values
    ensures |Elements(p)| <= r.size ==>
              && Stored(r, p).Keys == Elements(p) == Stored(r, q).Keys
              && TotalDistance(r, Stored(r, p)) == TotalDistance(r, Stored(r, q))
  {
    RunSummary(r, p);
    RunSummary(r, q);
    if |Elements(p)| <= r.size {
      SumRunsAgree(r, Summary({}, {}, 0), p, q, Elements(p));
      SumRunKeepsRoom(r, Summary({}, {}, 0), p, Elements(p));
    } else {
      MoreIdsThanSlots(r, p);
      MoreIdsThanSlots(r, q);
    }
  }

  lemma MoreIdsThanSlots(r: Range, ids: seq<string>)
    requires |Elements(ids)| > r.size
    ensures Stored(r, ids).Values == Interval(r.min, r.size)
  {
    var t := Stored(r, ids);
    RunFills(r, ids);
    RunSummary(r, ids);
    ValuesSize(t);
    SubsetSize(t.Values, Interval(r.min, r.size));
  }

  // ---- Hosts ----

  /** Hosts that store the same external ids, each in its own order, give every id the same uid. */
  ghost predicate HostsAgree(r: Range, ids: set<string>) {
    forall p, q :: Elements(p) == ids && Elements(q) == ids ==> Stored(r, p) == Stored(r, q)
  }

  ghost function Enumerate(ids: set<string>): (s: seq<string>)
    ensures Elements(s) == ids
  {
    if ids == {} then []
    else
      var e :| e in ids;
      var rest := Enumerate(ids - {e});
      assert Elements(rest + [e]) == Elements(rest) + {e};
      rest + [e]
  }

  /** The first id stored on an empty cache keeps its home slot for the rest of the run. */
  lemma {:induction false} FirstComesHome(r: Range, ids: seq<string>)
    requires ids != []
    ensures ids[0] in Stored(r, ids) && Stored(r, ids)[ids[0]] == Probe(r, r.Home(ids[0]), 0)
  {
    var init, last := ids[..|ids| - 1], ids[|ids| - 1];
    StoredLast(r, ids);
    if init == [] {
      CandidateBase(r, last);
      assert HeldByOthers(map[], last) == {};
      assert Stored(r, init) == map[];
    } else {
      FirstComesHome(r, init);
      RunSummary(r, init);
      AssignKeeps(r, Stored(r, init), last);
      AssignKeepsChains(r, Stored(r, init), last);
    }
  }

  /**
   * Every host with the same range gives the same uids to a set of external ids exactly when no two
   * of them share a home slot; one collision is enough for two orders to disagree.
   */
  lemma HostsAgreeIff(r: Range, ids: set<string>)
    ensures HostsAgree(r, ids) <==> DistinctHomes(r, ids)
  {
    if DistinctHomes(r, ids) {
      forall p, q | Elements(p) == ids && Elements(q) == ids
        ensures Stored(r, p) == Stored(r, q)
      {
        AllAtHome(r, p);
        AllAtHome(r, q);
      }
    } else {
      var a, b :| a in ids && b in ids && r.Home(a) == r.Home(b) && a != b;
      CollisionDisagrees(r, Enumerate(ids), a, b);
    }
  }

  /** Two colliding ids: whichever comes first gets their shared home slot. */
  lemma CollisionDisagrees(r: Range, rest: seq<string>, a: string, b: string)
    requires a in rest && b in rest && a != b && r.Home(a) == r.Home(b)
    ensures Elements([a] + rest) == Elements(rest) == Elements([b] + rest)
    ensures Stored(r, [a] + rest) != Stored(r, [b] + rest)
  {
    FirstComesHome(r, [a] + rest);
    FirstComesHome(r, [b] + rest);
    RunSummary(r, [a] + rest);
  }

  lemma AllAtHome(r: Range, ids: seq<string>)
    requires DistinctHomes(r, Elements(ids))
    ensures Stored(r, ids) == map e | e in Elements(ids) :: Probe(r, r.Home(e), 0)
  {
    RunStaysAtHome(r, Elements(ids), Assigns(ids));
    forall e | e in Elements(ids) ensures e in Stored(r, ids) {
      var i :| 0 <= i < |ids| && ids[i] == e;
      assert Assigns(ids)[i].id == e;
    }
  }
}
