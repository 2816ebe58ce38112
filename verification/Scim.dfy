/** src/scim.rs: paginated listing (section 3.4.2.4 of RFC 7644) and filter strings (section 3.4.2.2). */
module ScimClient {
  import opened Prelude

  const MAX_PAGINATION_PAGES := 1000

  datatype Page<T> = Page(totalResults: nat, resources: seq<T>)

  /** A server answers request number `k` for a start index; `None` is a failed request. */
  type Server<!T> = (nat, nat) -> Option<Page<T>>

  datatype Progress<T> = Going(all: seq<T>) | Complete(all: seq<T>) | Failed

  /** What one answer makes of the entries collected so far. */
  function Add<T>(all: seq<T>, answer: Option<Page<T>>): Progress<T> {
    match answer
    case None => Failed
    case Some(page) =>
      var more := all + page.resources;
      if |more| >= page.totalResults || |page.resources| == 0 then Complete(more) else Going(more)
  }

  /** Where the listing stands after at most `n` requests; every request starts right after what it has. */
  function After<T>(server: Server<T>, n: nat): Progress<T> {
    if n == 0 then Going([])
    else match After(server, n - 1)
      case Going(all) => Add(all, server(n - 1, |all| + 1))
      case stopped => stopped
  }

  lemma {:induction false} StoppedStays<T>(server: Server<T>, m: nat, n: nat)
    requires m <= n && !After(server, m).Going?
    ensures After(server, n) == After(server, m)
  {
    if m < n {
      StoppedStays(server, m, n - 1);
    }
  }

  /** What the listing returns: reaching the limit of requests is not an error. */
  function ResultOf<T>(p: Progress<T>): Result<seq<T>, Failure> {
    match p
    case Going(all) => Ok(all)
    case Complete(all) => Ok(all)
    case Failed => Err(Scim)
  }

  /**
   * A server of a fixed list with the right total, for its first `m` requests: from any start index inside
   * the list it returns a nonempty slice of whatever length it likes, and past the end an empty one.
   */
  ghost predicate Serves<T(!new)>(server: Server<T>, list: seq<T>, m: nat) {
    forall k: nat, start: nat | k < m && start > 0 ::
      && server(k, start).Some? && server(k, start).value.totalResults == |list|
      && var slice := server(k, start).value.resources;
         if start > |list| then slice == []
         else slice != [] && start - 1 + |slice| <= |list| && slice == list[start - 1..start - 1 + |slice|]
  }

  lemma {:induction false} PagesOfList<T(!new)>(server: Server<T>, list: seq<T>, n: nat, m: nat)
    requires Serves(server, list, m) && n <= m
    ensures !After(server, n).Failed? && After(server, n).all <= list
    ensures n > 0 ==> (After(server, n).Complete? <==> After(server, n).all == list)
    ensures After(server, n).Going? ==> n <= |After(server, n).all|
  {
    if n > 0 {
      PagesOfList(server, list, n - 1, m);
      var p := After(server, n - 1);
      if p.Going? {
        PageAdds(server, list, p.all, n - 1, m);
      }
    }
  }

  /** What one answer of such a server makes of a prefix of the list. */
  lemma PageAdds<T(!new)>(server: Server<T>, list: seq<T>, all: seq<T>, k: nat, m: nat)
    requires Serves(server, list, m) && k < m && all <= list
    ensures var p := Add(all, server(k, |all| + 1));
            && !p.Failed? && p.all <= list && (p.Complete? <==> p.all == list)
            && (p.Going? ==> |p.all| > |all|)
  {
    PageExtends(server, list, all, k, m);
    PrefixWhole(all + server(k, |all| + 1).value.resources, list);
  }

  lemma PrefixWhole<T>(a: seq<T>, b: seq<T>)
    requires a <= b
    ensures a == b <==> |a| >= |b|
  {
  }

  /** One page from such a server extends a prefix of the list, by something unless the list is used up. */
  lemma PageExtends<T(!new)>(server: Server<T>, list: seq<T>, all: seq<T>, k: nat, m: nat)
    requires Serves(server, list, m) && k < m && all <= list
    ensures server(k, |all| + 1).Some? && server(k, |all| + 1).value.totalResults == |list|
    ensures all + server(k, |all| + 1).value.resources <= list
    ensures server(k, |all| + 1).value.resources == [] <==> all == list
  {
    var start := |all| + 1;
    var slice := server(k, start).value.resources;
    if start <= |list| {
      assert all + slice == list[..start - 1 + |slice|];
    }
  }

  /**
   * Completeness: against such a server the listing succeeds with a prefix of the list, of as many entries
   * at least as there are requests unless the list is shorter; it is whole exactly when the loop saw the end.
   */
  lemma ListingIsPrefix<T(!new)>(server: Server<T>, list: seq<T>, limit: nat)
    requires Serves(server, list, limit) && limit > 0
    ensures var result := ResultOf(After(server, limit));
            && result.Ok? && result.value <= list
            && (result.value == list <==> After(server, limit).Complete?)
            && (|result.value| >= limit || result.value == list)
  {
    PagesOfList(server, list, limit, limit);
  }

  /** The server fills its first `m` pages up to `cap` entries: the requested count, or a smaller limit of its own. */
  ghost predicate FillsPages<T(!new)>(server: Server<T>, list: seq<T>, cap: nat, m: nat) {
    forall k: nat, start: nat | k < m && 0 < start <= |list| ::
      && server(k, start).Some?
      && |server(k, start).value.resources| == Least(cap, |list| - start + 1)
  }

  lemma {:induction false} FullPages<T(!new)>(server: Server<T>, list: seq<T>, cap: nat, n: nat, m: nat)
    requires Serves(server, list, m) && FillsPages(server, list, cap, m) && n <= m
    ensures !After(server, n).Failed?
    ensures |After(server, n).all| == Quota(cap, n, |list|)
  {
    if n > 0 {
      FullPages(server, list, cap, n - 1, m);
      PagesOfList(server, list, n - 1, m);
      var p := After(server, n - 1);
      if p.Going? {
        FullPage(server, list, cap, p.all, n - 1, m);
      }
    }
  }

  function Least(x: nat, y: nat): nat {
    if x < y then x else y
  }

  /** How much of `total` is fetched by `n` pages of at most `cap`. */
  function Quota(cap: nat, n: nat, total: nat): (q: nat)
    ensures q <= total
  {
    if n == 0 then 0 else Quota(cap, n - 1, total) + Least(cap, total - Quota(cap, n - 1, total))
  }

  lemma {:induction false} QuotaIs(cap: nat, n: nat, total: nat)
    ensures Quota(cap, n, total) == Least(cap * n, total)
  {
    if n > 0 {
      QuotaIs(cap, n - 1, total);
      assert cap * n == cap * (n - 1) + cap;
    }
  }

  lemma FullPage<T(!new)>(server: Server<T>, list: seq<T>, cap: nat, all: seq<T>, k: nat, m: nat)
    requires Serves(server, list, m) && FillsPages(server, list, cap, m) && k < m && all <= list
    ensures var p := Add(all, server(k, |all| + 1));
            !p.Failed? && |p.all| == |all| + Least(cap, |list| - |all|)
  {
    if all == list {
      PageExtends(server, list, all, k, m);
    }
  }

  /**
   * The whole list is returned exactly when as many pages of the server's size as requests are made hold
   * it: with a thousand requests a hundred thousand entries when every page has the requested count, fewer
   * when the server caps its pages lower.
   */
  lemma FullPagesCompleteIff<T(!new)>(server: Server<T>, list: seq<T>, cap: nat, limit: nat)
    requires cap > 0 && limit > 0 && Serves(server, list, limit) && FillsPages(server, list, cap, limit)
    ensures ResultOf(After(server, limit)) == Ok(list) <==> |list| <= cap * limit
  {
    PagesOfList(server, list, limit, limit);
    FullPages(server, list, cap, limit, limit);
    QuotaIs(cap, limit, |list|);
    assert After(server, limit).all == list <==> |After(server, limit).all| == |list|;
  }

  /** A server that fills its first `n` pages and fails at the next request. */
  ghost predicate FailsAfter<T(!new)>(server: Server<T>, list: seq<T>, cap: nat, n: nat) {
    && cap > 0 && Serves(server, list, n) && FillsPages(server, list, cap, n)
    && forall start: nat :: server(n, start) == None
  }

  /** A failed request fails the listing, whatever was collected, exactly when the listing gets that far. */
  lemma FailureFailsIff<T(!new)>(server: Server<T>, list: seq<T>, cap: nat, n: nat, limit: nat)
    requires FailsAfter(server, list, cap, n) && n < limit
    ensures ResultOf(After(server, limit)) == if n == 0 || |list| > cap * n then Err(Scim) else Ok(list)
  {
    PagesOfList(server, list, n, n);
    FullPages(server, list, cap, n, n);
    QuotaIs(cap, n, |list|);
    var all := After(server, n).all;
    assert all == list <==> |all| == |list|;
    if After(server, n).Going? {
      assert server(n, |all| + 1) == None;
      StoppedStays(server, n + 1, limit);
    } else {
      StoppedStays(server, n, limit);
    }
  }

  /** `paginate_list`. */
  method PaginateList<T(!new)>(server: Server<T>) returns (result: Result<seq<T>, Failure>)
    ensures result == ResultOf(After(server, 1000))
    ensures forall list :: Serves(server, list, 1000) ==>
              result.Ok? && result.value <= list && (|result.value| >= 1000 || result.value == list)
    ensures forall list, cap: nat :: Serves(server, list, 1000) && FillsPages(server, list, cap, 1000) && cap > 0 ==>
              (result == Ok(list) <==> |list| <= cap * 1000)
    ensures forall list, cap: nat, n: nat :: FailsAfter(server, list, cap, n) && n < 1000 ==>
              result == if n == 0 || |list| > cap * n then Err(Scim) else Ok(list)
  {
    result := PaginateUpTo(server, MAX_PAGINATION_PAGES);
  }

  /** Its loop, of at most `limit` requests. */
  method PaginateUpTo<T(!new)>(server: Server<T>, limit: nat) returns (result: Result<seq<T>, Failure>)
    requires limit > 0
    ensures result == ResultOf(After(server, limit))
    ensures forall list :: Serves(server, list, limit) ==>
              result.Ok? && result.value <= list && (|result.value| >= limit || result.value == list)
    ensures forall list, cap: nat :: Serves(server, list, limit) && FillsPages(server, list, cap, limit) && cap > 0 ==>
              (result == Ok(list) <==> |list| <= cap * limit)
    ensures forall list, cap: nat, n: nat :: FailsAfter(server, list, cap, n) && n < limit ==>
              result == if n == 0 || |list| > cap * n then Err(Scim) else Ok(list)
  {
    result := Collect(server, limit);
    forall list | Serves(server, list, limit)
      ensures result.Ok? && result.value <= list && (|result.value| >= limit || result.value == list)
    {
      ListingIsPrefix(server, list, limit);
    }
    forall list, cap: nat | Serves(server, list, limit) && FillsPages(server, list, cap, limit) && cap > 0
      ensures result == Ok(list) <==> |list| <= cap * limit
    {
      FullPagesCompleteIff(server, list, cap, limit);
    }
    forall list, cap: nat, n: nat | FailsAfter(server, list, cap, n) && n < limit
      ensures result == if n == 0 || |list| > cap * n then Err(Scim) else Ok(list)
    {
      FailureFailsIff(server, list, cap, n, limit);
    }
  }

  method Collect<T>(server: Server<T>, limit: nat) returns (result: Result<seq<T>, Failure>)
    ensures result == ResultOf(After(server, limit))
  {
    var startIndex := 1;
    var all: seq<T> := [];
    for page := 0 to limit
      invariant startIndex == |all| + 1
      invariant After(server, page) == Going(all)
    {
      match server(page, startIndex)
      case None =>
        StoppedStays(server, page + 1, limit);
        return Err(Scim);
      case Some(resp) =>
        var fetched := |resp.resources|;
        all := all + resp.resources;
        if |all| >= resp.totalResults || fetched == 0 {
          StoppedStays(server, page + 1, limit);
          return Ok(all);
        }
        startIndex := startIndex + fetched;
    }
    return Ok(all);
  }

  // ---- Filter values ----

  function EscapedChar(c: char): string {
    match c
    case '\\' => "\\\\"
    case '"' => "\\\""
    case _ => [c]
  }

  function Escaped(value: string): string {
    if value == [] then [] else Escaped(value[..|value| - 1]) + EscapedChar(value[|value| - 1])
  }

  /** Every quote and every backslash gets one backslash, and nothing else is added. */
  lemma {:induction false} EscapedLength(value: string)
    ensures |Escaped(value)| == |value| + multiset(value)['"'] + multiset(value)['\\']
  {
    if value != [] {
      var init, c := value[..|value| - 1], value[|value| - 1];
      EscapedLength(init);
      CountLast(value, '"');
      CountLast(value, '\\');
    }
  }

  lemma CountLast(value: string, c: char)
    requires value != []
    ensures multiset(value)[c] == multiset(value[..|value| - 1])[c] + if value[|value| - 1] == c then 1 else 0
  {
    assert value == value[..|value| - 1] + [value[|value| - 1]];
  }

  /** So a value is its own escaped form exactly when it has neither. */
  lemma EscapedUnchangedIff(value: string)
    ensures Escaped(value) == value <==> '"' !in value && '\\' !in value
  {
    if Escaped(value) == value {
      EscapedLength(value);
      NotCounted(value, '"');
      NotCounted(value, '\\');
    } else {
      PlainUnchanged(value);
    }
  }

  lemma NotCounted(value: string, c: char)
    ensures c in value <==> multiset(value)[c] > 0
  {
  }

  lemma {:induction false} PlainUnchanged(value: string)
    ensures '"' !in value && '\\' !in value ==> Escaped(value) == value
  {
    if value != [] {
      PlainUnchanged(value[..|value| - 1]);
      assert value == value[..|value| - 1] + [value[|value| - 1]];
    }
  }

  method EscapeFilterValue(value: string) returns (escaped: string)
    ensures escaped == Escaped(value)
  {
    escaped := "";
    for i := 0 to |value|
      invariant escaped == Escaped(value[..i])
    {
      assert value[..i + 1][..i] == value[..i];
      match value[i]
      case '\\' => escaped := escaped + "\\\\";
      case '"' => escaped := escaped + "\\\"";
      case c => escaped := escaped + [c];
    }
    assert value[..|value|] == value;
  }

  datatype Quoted = Quoted(value: string, rest: string)

  /** A filter parser inside a quoted string: up to the first quote that no backslash precedes. */
  function ReadQuoted(s: string): Option<Quoted> {
    if s == [] then None
    else if s[0] == '"' then Some(Quoted("", s[1..]))
    else
      var skip := if s[0] == '\\' then 1 else 0;
      if |s| <= skip then None
      else match ReadQuoted(s[skip + 1..])
        case Some(q) => Some(Quoted([s[skip]] + q.value, q.rest))
        case None => None
  }

  lemma ReadsEscapedChar(c: char, tail: string, q: Quoted)
    requires ReadQuoted(tail) == Some(q)
    ensures ReadQuoted(EscapedChar(c) + tail) == Some(Quoted([c] + q.value, q.rest))
  {
    var s := EscapedChar(c) + tail;
    assert s[|EscapedChar(c)|..] == tail;
  }

  lemma {:induction false} ReadsEscaped(value: string, tail: string, q: Quoted)
    requires ReadQuoted(tail) == Some(q)
    ensures ReadQuoted(Escaped(value) + tail) == Some(Quoted(value + q.value, q.rest))
  {
    if value == [] {
      assert Escaped(value) + tail == tail && value + q.value == q.value;
    } else {
      var init, c := value[..|value| - 1], value[|value| - 1];
      ReadsEscapedChar(c, tail, q);
      ReadsEscaped(init, EscapedChar(c) + tail, Quoted([c] + q.value, q.rest));
      Regroup(Escaped(init), EscapedChar(c), tail);
      Regroup(init, [c], q.value);
      assert init + [c] == value;
    }
  }

  lemma Regroup(a: string, b: string, c: string)
    ensures (a + b) + c == a + (b + c)
  {
  }

  lemma ReadsQuote(rest: string)
    ensures ReadQuoted(['"'] + rest) == Some(Quoted("", rest))
  {
    assert (['"'] + rest)[1..] == rest;
  }

  /** An escaped value reads back as itself, and the string ends at the closing quote and nowhere before. */
  lemma EscapingRoundTrip(value: string, rest: string)
    ensures ReadQuoted(Escaped(value) + (['"'] + rest)) == Some(Quoted(value, rest))
  {
    ReadsQuote(rest);
    ReadsEscaped(value, ['"'] + rest, Quoted("", rest));
    assert value + "" == value;
  }

  /** So different values never produce the same filter. */
  lemma EscapingInjective(v: string, w: string)
    requires Escaped(v) == Escaped(w)
    ensures v == w
  {
    EscapingRoundTrip(v, "");
    EscapingRoundTrip(w, "");
  }
}
