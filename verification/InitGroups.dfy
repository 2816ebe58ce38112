/** crates/nss_oidc/src/ffi.rs: the append loop of `_nss_oidc_initgroups_dyn`. */
module InitGroups {
  import opened Prelude
  import opened NssFill

  /** What one call leaves in the array, and whether it took every gid. */
  datatype Appended = Appended(groups: seq<u32>, all: bool)

  /** The gids in order: skipped when primary or present, appended while there is room, else stop. */
  function Append(groups: seq<u32>, size: nat, primary: u32, gids: seq<u32>): Appended
    decreases |gids|
  {
    if gids == [] then Appended(groups, true)
    else if gids[0] == primary || gids[0] in groups then Append(groups, size, primary, gids[1..])
    else if |groups| >= size then Appended(groups, false)
    else Append(groups + [gids[0]], size, primary, gids[1..])
  }

  /**
   * The loop itself: `groups[..start]` is what earlier modules and calls put there. The rest of the
   * array is not touched beyond the entries counted by the returned `start`.
   */
  method InitgroupsDyn(gids: seq<u32>, primary: u32, start: nat, size: nat, groups: array<u32>)
    returns (status: NssStatus, next: nat, errno: nat)
    requires start <= groups.Length && size <= groups.Length
    modifies groups
    ensures start <= next <= groups.Length
    ensures Appended(groups[..next], status == Success) == Append(old(groups[..start]), size, primary, gids)
    ensures status == Success || status == TryAgain
    ensures errno == if status == Success then 0 else 34
    ensures groups[next..] == old(groups[..])[next..]
  {
    next := start;
    ghost var before := groups[..];
    assert gids[0..] == gids;
    for k := 0 to |gids|
      invariant start <= next <= groups.Length
      invariant Append(groups[..next], size, primary, gids[k..]) == Append(before[..start], size, primary, gids)
      invariant groups[next..] == before[next..]
    {
      var gid := gids[k];
      assert gids[k..][0] == gid && gids[k..][1..] == gids[k + 1..];
      if gid == primary {
        continue;
      }
      var alreadyPresent := false;
      for i := 0 to next
        invariant !alreadyPresent && gid !in groups[..i]
      {
        if groups[i] == gid {
          alreadyPresent := true;
          assert groups[..next][i] == gid;
          break;
        }
        assert groups[..i + 1] == groups[..i] + [groups[i]];
      }
      if alreadyPresent {
        continue;
      }
      if next >= size {
        return TryAgain, next, ERANGE;
      }
      ghost var present := groups[..next];
      groups[next] := gid;
      assert groups[..next + 1] == present + [gid];
      assert groups[next + 1..] == before[next..][1..];
      next := next + 1;
    }
    return Success, next, 0;
  }

  /**
   * Resumption: a call that stopped for lack of room, repeated with more room and the same gids, ends
   * with the array a single call with that room would have left.
   */
  lemma {:induction false} CallsResume(groups: seq<u32>, small: nat, large: nat, primary: u32, gids: seq<u32>)
    requires small <= large
    ensures Append(Append(groups, small, primary, gids).groups, large, primary, gids)
         == Append(groups, large, primary, gids)
    decreases |gids|
  {
    if gids != [] {
      var g, rest := gids[0], gids[1..];
      if g == primary || g in groups {
        AppendKeeps(groups, small, primary, rest);
        CallsResume(groups, small, large, primary, rest);
      } else if |groups| < small {
        AppendKeeps(groups + [g], small, primary, rest);
        assert g in Append(groups + [g], small, primary, rest).groups by { assert (groups + [g])[|groups|] == g; }
        CallsResume(groups + [g], small, large, primary, rest);
      }
    }
  }

  lemma {:induction false} AppendKeeps(groups: seq<u32>, size: nat, primary: u32, gids: seq<u32>)
    ensures groups <= Append(groups, size, primary, gids).groups
    ensures forall g :: g in groups ==> g in Append(groups, size, primary, gids).groups
    decreases |gids|
  {
    if gids != [] {
      AppendKeeps(groups, size, primary, gids[1..]);
      AppendKeeps(groups + [gids[0]], size, primary, gids[1..]);
      assert forall g :: g in groups ==> g in groups + [gids[0]];
    }
  }

  /** The gids to be added: neither primary nor present, each at its first occurrence. */
  function FirstOccurrences(groups: seq<u32>, primary: u32, gids: seq<u32>): (added: seq<u32>) {
    if gids == [] then []
    else
      var before := FirstOccurrences(groups, primary, gids[..|gids| - 1]);
      var g := gids[|gids| - 1];
      if g == primary || g in groups || g in gids[..|gids| - 1] then before else before + [g]
  }

  /** A call adds the first occurrences, as many of them as there is room for, and succeeds if all fit. */
  lemma {:induction false} AppendsFirstOccurrences(groups: seq<u32>, size: nat, primary: u32, gids: seq<u32>)
    ensures var added := FirstOccurrences(groups, primary, gids);
            Append(groups, size, primary, gids) ==
            if |groups| + |added| <= size || added == [] then Appended(groups + added, true)
            else Appended(groups + added[..if size < |groups| then 0 else size - |groups|], false)
    decreases |gids|
  {
    if gids != [] {
      var g, rest := gids[0], gids[1..];
      FreshOfFirst(groups, primary, gids);
      if g == primary || g in groups {
        AppendsFirstOccurrences(groups, size, primary, rest);
      } else if |groups| < size {
        AppendsFirstOccurrences(groups + [g], size, primary, rest);
      }
    }
  }

  lemma {:induction false} FreshOfFirst(groups: seq<u32>, primary: u32, gids: seq<u32>)
    requires gids != []
    ensures FirstOccurrences(groups, primary, gids) ==
            if gids[0] == primary || gids[0] in groups then FirstOccurrences(groups, primary, gids[1..])
            else [gids[0]] + FirstOccurrences(groups + [gids[0]], primary, gids[1..])
    decreases |gids|
  {
    var init, last := gids[..|gids| - 1], gids[|gids| - 1];
    if init != [] {
      FreshOfFirst(groups, primary, init);
      assert init[1..] == gids[1..][..|gids| - 2];
      assert last in init <==> last == gids[0] || last in init[1..];
    }
  }

  /** The first occurrences are exactly the eligible gids, none twice. */
  lemma {:induction false} FirstOccurrencesExact(groups: seq<u32>, primary: u32, gids: seq<u32>)
    ensures var added := FirstOccurrences(groups, primary, gids);
            && (forall g :: g in added <==> g in gids && g != primary && g !in groups)
            && (forall i, j :: 0 <= i < j < |added| ==> added[i] != added[j])
  {
    if gids != [] {
      FirstOccurrencesExact(groups, primary, gids[..|gids| - 1]);
      assert gids == gids[..|gids| - 1] + [gids[|gids| - 1]];
    }
  }

  /** And they come in the order of their first occurrence: every prefix of the gids accounts for a prefix of them. */
  lemma {:induction false} FirstOccurrencesInOrder(groups: seq<u32>, primary: u32, gids: seq<u32>, n: nat)
    requires n <= |gids|
    ensures FirstOccurrences(groups, primary, gids[..n]) <= FirstOccurrences(groups, primary, gids)
  {
    if n < |gids| {
      FirstOccurrencesInOrder(groups, primary, gids[..|gids| - 1], n);
      assert gids[..|gids| - 1][..n] == gids[..n];
    } else {
      assert gids[..n] == gids;
    }
  }
}
