/** crates/nss_oidc/src/passwd.rs and group.rs: packing one entry into the caller's buffer. */
module NssFill {
  import opened Prelude
  import opened NssMemory

  /** "Result too large" on Linux. */
  const ERANGE := 34

  datatype NssStatus = TryAgain | Unavail | NotFound | Success

  /** Names are their UTF-8 bytes. */
  datatype UserEntry = UserEntry(name: bytes, uid: u32, gid: u32, gecos: bytes, home: bytes, shell: bytes)

  datatype GroupEntry = GroupEntry(name: bytes, gid: u32, members: seq<bytes>)

  /** The password field: "x". */
  const X: bytes := [120]

  /** The strings of an entry in the order they are packed. */
  function UserStrings(user: UserEntry): seq<bytes> {
    [user.name, X, user.gecos, user.home, user.shell]
  }

  function GroupStrings(group: GroupEntry): seq<bytes> {
    [group.name, X] + group.members
  }

  function TotalLength(strs: seq<bytes>): nat {
    if strs == [] then 0 else TotalLength(strs[..|strs| - 1]) + |strs[|strs| - 1]| + 1
  }

  lemma {:induction false} PackLength(strs: seq<bytes>)
    ensures |Pack(strs)| == TotalLength(strs)
  {
    if strs != [] {
      PackLength(strs[..|strs| - 1]);
    }
  }

  /** The sum of the lengths is that of a prefix at least, so an earlier string that overflows decides. */
  lemma {:induction false} TotalLengthMonotone(strs: seq<bytes>, n: nat)
    requires n <= |strs|
    ensures TotalLength(strs[..n]) <= TotalLength(strs)
  {
    if n < |strs| {
      TotalLengthMonotone(strs[..|strs| - 1], n);
      assert strs[..|strs| - 1][..n] == strs[..n];
    } else {
      assert strs[..n] == strs;
    }
  }

  /** Exact buffer sizes. */
  function UserSize(user: UserEntry): nat {
    TotalLength(UserStrings(user))
  }

  function GroupSize(group: GroupEntry): nat {
    ImageSize(GroupStrings(group), |group.members| + 1)
  }

  /** Strings, padding and pointers. */
  function ImageSize(strs: seq<bytes>, pointers: nat): nat {
    Aligned(TotalLength(strs)) + 8 * pointers
  }

  class PasswdRecord {
    var name: nat
    var passwd: nat
    var uid: u32
    var gid: u32
    var gecos: nat
    var dir: nat
    var shell: nat

    constructor () {
    }
  }

  class GroupRecord {
    var name: nat
    var passwd: nat
    var gid: u32
    var mem: nat

    constructor () {
    }
  }

  function Splice(memory: bytes, at: nat, b: bytes): (m: bytes)
    requires at + |b| <= |memory|
    ensures |m| == |memory|
  {
    memory[..at] + b + memory[at + |b|..]
  }

  lemma OverlayMore(front: bytes, memory: bytes, b: bytes)
    requires |front| + |b| <= |memory|
    ensures Splice(Overlay(front, memory), |front|, b) == Overlay(front + b, memory)
  {
  }

  method WriteBytes(buf: array<byte>, at: nat, b: bytes)
    requires at + |b| <= buf.Length
    modifies buf
    ensures buf[..] == Splice(old(buf[..]), at, b)
  {
    forall i | 0 <= i < |b| {
      buf[at + i] := b[i];
    }
  }

  /** `write_str`: all of the string and its NUL, or nothing at all. */
  method WriteStr(buf: array<byte>, base: nat, buflen: nat, offset: nat, s: bytes)
    returns (pointer: Option<nat>, next: nat)
    requires buflen <= buf.Length
    modifies buf
    ensures offset + |s| + 1 > buflen ==> pointer == None && next == offset && buf[..] == old(buf[..])
    ensures offset + |s| + 1 <= buflen ==>
              && pointer == Some(base + offset) && next == offset + |s| + 1
              && buf[..] == Splice(old(buf[..]), offset, s + [0])
  {
    if offset + |s| + 1 > buflen {
      return None, offset;
    }
    WriteBytes(buf, offset, s + [0]);
    return Some(base + offset), offset + |s| + 1;
  }

  /** What is in the buffer once the first `n` strings are packed, for each `n`. */
  ghost predicate Images(images: seq<bytes>, strs: seq<bytes>) {
    |images| == |strs| + 1 && forall n: nat :: n <= |strs| ==> ImageAt(images, strs, n)
  }

  predicate ImageAt(images: seq<bytes>, strs: seq<bytes>, n: nat)
    requires |images| == |strs| + 1 && n <= |strs|
  {
    images[n] == Pack(strs[..n])
  }

  ghost function ImagesOf(strs: seq<bytes>): (images: seq<bytes>)
    ensures Images(images, strs)
  {
    seq(|strs| + 1, n requires 0 <= n < |strs| + 1 => Pack(strs[..n]))
  }

  lemma LastImage(images: seq<bytes>, strs: seq<bytes>)
    requires Images(images, strs)
    ensures images[|strs|] == Pack(strs) && |images[|strs|]| == TotalLength(strs)
  {
    assert ImageAt(images, strs, |strs|);
    assert strs[..|strs|] == strs;
    PackLength(strs);
  }

  lemma FirstImage(images: seq<bytes>, strs: seq<bytes>)
    requires Images(images, strs)
    ensures images[0] == []
  {
    assert ImageAt(images, strs, 0);
  }

  /** Append the next string to the packed ones, or learn that the strings do not fit. */
  method PackNext(buf: array<byte>, base: nat, buflen: nat, offset: nat, s: bytes,
                  ghost strs: seq<bytes>, ghost images: seq<bytes>, ghost n: nat, ghost before: bytes)
    returns (pointer: Option<nat>, next: nat)
    requires Images(images, strs) && n < |strs| && s == strs[n]
    requires buflen <= buf.Length && |before| == buf.Length
    requires offset == |images[n]| <= buflen && buf[..] == Overlay(images[n], before)
    modifies buf
    ensures pointer.None? ==> |images[|strs|]| > buflen && buf[..] == old(buf[..])
    ensures pointer.Some? ==>
              && pointer.value == base + |images[n]| && next == |images[n + 1]| <= buflen
              && buf[..] == Overlay(images[n + 1], before)
  {
    NextPacked(images, strs, n);
    pointer, next := WriteStr(buf, base, buflen, offset, s);
    if pointer.Some? {
      OverlayMore(images[n], before, s + [0]);
    }
  }

  lemma NextPacked(images: seq<bytes>, strs: seq<bytes>, n: nat)
    requires Images(images, strs) && n < |strs|
    ensures images[n + 1] == images[n] + (strs[n] + [0])
    ensures |images[n + 1]| <= |images[|strs|]|
  {
    assert ImageAt(images, strs, n) && ImageAt(images, strs, n + 1);
    assert strs[..n + 1] == strs[..n] + [strs[n]];
    PackMore(strs[..n], strs[n]);
    PackLength(strs[..n + 1]);
    LastImage(images, strs);
    TotalLengthMonotone(strs, n + 1);
  }

  /** What was packed ends within the first `buflen` bytes, so the others are as they were. */
  lemma TailKept(buf: array<byte>, front: bytes, before: bytes, buflen: nat)
    requires |front| <= buflen <= buf.Length == |before| && buf[..] == Overlay(front, before)
    ensures buf[buflen..] == before[buflen..]
  {
    assert buf[buflen..] == buf[..][buflen..];
  }

  /** Two writes one after the other, unless one of them does not fit; `n` strings are packed then. */
  method PackTwo(first: bytes, second: bytes, buf: array<byte>, base: nat, buflen: nat, start: nat,
                 ghost strs: seq<bytes>, ghost images: seq<bytes>, ghost k: nat, ghost before: bytes)
    returns (fits: bool, p: nat, q: nat, offset: nat, ghost n: nat)
    requires Images(images, strs) && k + 2 <= |strs| && first == strs[k] && second == strs[k + 1]
    requires buflen <= buf.Length && |before| == buf.Length
    requires start == |images[k]| <= buflen && buf[..] == Overlay(images[k], before)
    modifies buf
    ensures k <= n <= k + 2 && |images[n]| <= buflen && buf[..] == Overlay(images[n], before)
    ensures !fits ==> |images[|strs|]| > buflen
    ensures fits ==>
              && n == k + 2 && offset == |images[n]|
              && p == base + |images[k]| && q == base + |images[k + 1]|
  {
    var pointer, next := PackNext(buf, base, buflen, start, first, strs, images, k, before);
    if pointer == None {
      return false, 0, 0, 0, k;
    }
    var pointer', next' := PackNext(buf, base, buflen, next, second, strs, images, k + 1, before);
    if pointer' == None {
      return false, 0, 0, 0, k + 1;
    }
    return true, pointer.value, pointer'.value, next', k + 2;
  }

  ghost predicate FiveStrings(strs: seq<bytes>, user: UserEntry) {
    |strs| == 5 && strs[0] == user.name && strs[1] == X && strs[2] == user.gecos
    && strs[3] == user.home && strs[4] == user.shell
  }

  /** The pointers of a `struct passwd`: to the starts of the packed strings. */
  datatype PasswdPointers = PasswdPointers(name: nat, passwd: nat, gecos: nat, dir: nat, shell: nat)

  ghost predicate PointsToFive(p: PasswdPointers, base: nat, images: seq<bytes>)
    requires |images| == 6
  {
    && p.name == base + |images[0]| && p.passwd == base + |images[1]| && p.gecos == base + |images[2]|
    && p.dir == base + |images[3]| && p.shell == base + |images[4]|
  }

  /** The five writes of `fill_passwd_buf`, unless one of them does not fit; `n` strings are packed then. */
  method PackUser(user: UserEntry, buf: array<byte>, base: nat, buflen: nat,
                  ghost strs: seq<bytes>, ghost images: seq<bytes>)
    returns (pointers: Option<PasswdPointers>, ghost n: nat)
    requires buflen <= buf.Length && FiveStrings(strs, user) && Images(images, strs) && images[0] == []
    modifies buf
    ensures n <= 5 && |images[n]| <= buflen && buf[..] == Overlay(images[n], old(buf[..]))
    ensures pointers.None? ==> |images[5]| > buflen
    ensures pointers.Some? ==> n == 5 && PointsToFive(pointers.value, base, images)
  {
    ghost var before := buf[..];
    var fits, name, passwd, at2;
    fits, name, passwd, at2, n := PackTwo(user.name, X, buf, base, buflen, 0, strs, images, 0, before);
    if !fits {
      return None, n;
    }
    var gecos, dir, at4;
    fits, gecos, dir, at4, n := PackTwo(user.gecos, user.home, buf, base, buflen, at2, strs, images, 2, before);
    if !fits {
      return None, n;
    }
    var shell, at5 := PackNext(buf, base, buflen, at4, user.shell, strs, images, 4, before);
    if shell == None {
      return None, 4;
    }
    return Some(PasswdPointers(name, passwd, gecos, dir, shell.value)), 5;
  }

  /** What a C program reads through the string fields of a `struct passwd`. */
  datatype UserRead = UserRead(name: bytes, passwd: bytes, gecos: bytes, dir: bytes, shell: bytes)

  function ReadUser(memory: bytes, base: nat, name: nat, passwd: nat, gecos: nat, dir: nat, shell: nat)
    : Option<UserRead>
  {
    match (CString(memory, base, name), CString(memory, base, passwd), CString(memory, base, gecos),
           CString(memory, base, dir), CString(memory, base, shell))
    case (Some(n), Some(p), Some(g), Some(d), Some(s)) => Some(UserRead(n, p, g, d, s))
    case _ => None
  }

  /** The strings of a user up to their first NUL: all of them, when there is none. */
  function UserAsRead(user: UserEntry): UserRead {
    UserRead(UpToNul(user.name), [120], UpToNul(user.gecos), UpToNul(user.home), UpToNul(user.shell))
  }

  /** The whole buffer after a successful call. */
  function UserImage(user: UserEntry, before: bytes): bytes
    requires UserSize(user) <= |before|
  {
    PackLength(UserStrings(user));
    Overlay(Pack(UserStrings(user)), before)
  }

  lemma UserReadsBack(memory: bytes, before: bytes, base: nat, user: UserEntry, strs: seq<bytes>,
                      images: seq<bytes>, p: PasswdPointers)
    requires FiveStrings(strs, user) && Images(images, strs) && PointsToFive(p, base, images)
    requires |Pack(strs)| <= |before| && memory == Overlay(Pack(strs), before)
    ensures ReadUser(memory, base, p.name, p.passwd, p.gecos, p.dir, p.shell) == Some(UserAsRead(user))
  {
    StringReadsBack(memory, before, base, strs, images, 0, p.name);
    StringReadsBack(memory, before, base, strs, images, 1, p.passwd);
    StringReadsBack(memory, before, base, strs, images, 2, p.gecos);
    StringReadsBack(memory, before, base, strs, images, 3, p.dir);
    StringReadsBack(memory, before, base, strs, images, 4, p.shell);
    assert 0 !in X;
  }

  lemma StringReadsBack(memory: bytes, before: bytes, base: nat, strs: seq<bytes>, images: seq<bytes>, i: nat, p: nat)
    requires Images(images, strs) && i < |strs| && p == base + |images[i]|
    requires |Pack(strs)| <= |before| && memory == Overlay(Pack(strs), before)
    ensures CString(memory, base, p) == Some(UpToNul(strs[i]))
  {
    assert ImageAt(images, strs, i);
    assert HoldsAt(memory, 0, Pack(strs));
    PackedStringReadsBack(memory, base, strs, i, p);
  }

  /** The writes of `fill_passwd_buf`, and what a C program reads through the pointers they return. */
  method PackUserImage(user: UserEntry, buf: array<byte>, base: nat, buflen: nat, ghost strs: seq<bytes>)
    returns (pointers: Option<PasswdPointers>)
    requires buflen <= buf.Length && FiveStrings(strs, user)
    modifies buf
    ensures pointers.Some? <==> TotalLength(strs) <= buflen
    ensures pointers.Some? ==>
              && |Pack(strs)| <= buflen && buf[..] == Overlay(Pack(strs), old(buf[..]))
              && var p := pointers.value;
                 ReadUser(buf[..], base, p.name, p.passwd, p.gecos, p.dir, p.shell) == Some(UserAsRead(user))
    ensures buf[buflen..] == old(buf[buflen..])
  {
    ghost var before, images := buf[..], ImagesOf(strs);
    LastImage(images, strs);
    FirstImage(images, strs);
    ghost var n;
    pointers, n := PackUser(user, buf, base, buflen, strs, images);
    TailKept(buf, images[n], before, buflen);
    if pointers.Some? {
      UserReadsBack(buf[..], before, base, user, strs, images, pointers.value);
    }
  }

  /** `fill_passwd_buf`: all five strings fit and read back, or ERANGE and the record untouched. */
  method FillPasswdBuf(user: UserEntry, result: PasswdRecord, buf: array<byte>, base: nat, buflen: nat)
    returns (status: NssStatus, errno: nat)
    requires buflen <= buf.Length
    modifies result, buf
    ensures status == if UserSize(user) <= buflen then Success else TryAgain
    ensures status == TryAgain ==> errno == 34 && unchanged(result)
    ensures status == Success ==>
              && errno == 0 && result.uid == user.uid && result.gid == user.gid
              && ReadUser(buf[..], base, result.name, result.passwd, result.gecos, result.dir, result.shell)
                 == Some(UserAsRead(user))
              && buf[..] == UserImage(user, old(buf[..]))
    ensures buf[buflen..] == old(buf[buflen..])
  {
    var pointers := PackUserImage(user, buf, base, buflen, UserStrings(user));
    if pointers == None {
      return TryAgain, ERANGE;
    }
    ghost var memory := buf[..];
    var p := pointers.value;
    result.name, result.passwd, result.uid, result.gid := p.name, p.passwd, user.uid, user.gid;
    result.gecos, result.dir, result.shell := p.gecos, p.dir, p.shell;
    assert buf[..] == memory;
    return Success, 0;
  }

  /** A user is read back exactly as it is if and only if none of its strings contains a NUL. */
  lemma UserLosslessIff(user: UserEntry)
    ensures UserAsRead(user) == UserRead(user.name, [120], user.gecos, user.home, user.shell)
            <==> forall s :: s in UserStrings(user) ==> 0 !in s
  {
    assert 0 !in X && [user.name, user.gecos, user.home, user.shell] == UserStrings(user)[..1] + UserStrings(user)[2..];
    assert forall i :: 0 <= i < 5 ==> UserStrings(user)[i] in UserStrings(user);
  }

  // ---- Groups ----

  /** What a C program reads through the fields of a `struct group`. */
  datatype GroupRead = GroupRead(name: bytes, passwd: bytes, members: seq<bytes>)

  function ReadGroup(memory: bytes, base: nat, name: nat, passwd: nat, mem: nat): Option<GroupRead> {
    match (CString(memory, base, name), CString(memory, base, passwd), StringArray(memory, base, mem))
    case (Some(n), Some(p), Some(m)) => Some(GroupRead(n, p, m))
    case _ => None
  }

  /** A group's strings up to their first NUL: all of them, when there is none. */
  function GroupAsRead(group: GroupEntry): GroupRead {
    GroupRead(UpToNul(group.name), [120], AllUpToNul(group.members))
  }

  /** Everything a successful call writes, in order: strings, padding left as it was, pointers, NULL. */
  function Image(strs: seq<bytes>, addresses: seq<nat>, before: bytes): (memory: bytes)
    requires ImageSize(strs, |addresses|) <= |before|
    ensures |memory| == |before|
  {
    PackLength(strs);
    AlignedIsLeast(|Pack(strs)|);
    Overlay(Pack(strs) + before[|Pack(strs)|..Aligned(|Pack(strs)|)] + Pointers(addresses), before)
  }

  lemma PartsHeld(a: bytes, pad: bytes, b: bytes, before: bytes)
    requires |a + pad + b| <= |before|
    ensures HoldsAt(Overlay(a + pad + b, before), 0, a)
    ensures HoldsAt(Overlay(a + pad + b, before), |a + pad|, b)
  {
    var m := Overlay(a + pad + b, before);
    assert m[..|a|] == a;
    assert m[|a + pad|..|a + pad| + |b|] == b;
  }

  lemma StringsReadBack(memory: bytes, base: nat, name: nat, passwd: nat, mem: nat, strs: seq<bytes>,
                        addresses: seq<nat>)
    requires |strs| >= 2 && 0 < base <= mem && base + |memory| <= ADDRESS_LIMIT
    requires name == base + StartOf(strs, 0) && passwd == base + StartOf(strs, 1)
    requires PointsTo(addresses, base, strs, 2)
    requires HoldsAt(memory, 0, Pack(strs)) && HoldsAt(memory, mem - base, Pointers(addresses))
    ensures CString(memory, base, name) == Some(UpToNul(strs[0]))
    ensures CString(memory, base, passwd) == Some(UpToNul(strs[1]))
    ensures StringArray(memory, base, mem) == Some(AllUpToNul(strs[2..]))
  {
    PackedStringReadsBack(memory, base, strs, 0, name);
    PackedStringReadsBack(memory, base, strs, 1, passwd);
    WholeArrayReadsBack(memory, base, strs, 2, addresses, mem);
  }

  lemma ImageHolds(before: bytes, strs: seq<bytes>, addresses: seq<nat>)
    requires ImageSize(strs, |addresses|) <= |before|
    ensures HoldsAt(Image(strs, addresses, before), 0, Pack(strs))
    ensures HoldsAt(Image(strs, addresses, before), Aligned(|Pack(strs)|), Pointers(addresses))
  {
    PackLength(strs);
    AlignedIsLeast(|Pack(strs)|);
    PartsHeld(Pack(strs), before[|Pack(strs)|..Aligned(|Pack(strs)|)], Pointers(addresses), before);
  }

  lemma GroupReadsBack(memory: bytes, base: nat, name: nat, passwd: nat, mem: nat, strs: seq<bytes>, group: GroupEntry)
    requires strs == GroupStrings(group)
    requires CString(memory, base, name) == Some(UpToNul(strs[0]))
    requires CString(memory, base, passwd) == Some(UpToNul(strs[1]))
    requires StringArray(memory, base, mem) == Some(AllUpToNul(strs[2..]))
    ensures ReadGroup(memory, base, name, passwd, mem) == Some(GroupAsRead(group))
  {
    assert strs[2..] == group.members;
    assert 0 !in X;
  }

  /** The member loop: strings appended after the two already packed, and where each of them starts. */
  method PackMembers(members: seq<bytes>, buf: array<byte>, base: nat, buflen: nat, start: nat,
                     ghost strs: seq<bytes>, ghost images: seq<bytes>, ghost before: bytes)
    returns (fits: bool, pointers: seq<nat>, offset: nat, ghost n: nat)
    requires Images(images, strs) && |strs| == 2 + |members|
    requires forall i :: 0 <= i < |members| ==> members[i] == strs[2 + i]
    requires buflen <= buf.Length && |before| == buf.Length
    requires start == |images[2]| <= buflen && buf[..] == Overlay(images[2], before)
    modifies buf
    ensures n <= |strs| && |images[n]| <= buflen && buf[..] == Overlay(images[n], before)
    ensures !fits ==> |images[|strs|]| > buflen
    ensures fits ==>
              && n == |strs| && offset == |images[n]| && |pointers| == |members|
              && forall i :: 0 <= i < |pointers| ==> pointers[i] == base + |images[2 + i]|
  {
    pointers, offset := [], start;
    for i := 0 to |members|
      invariant |pointers| == i && offset == |images[2 + i]| <= buflen
      invariant buf[..] == Overlay(images[2 + i], before)
      invariant forall j :: 0 <= j < i ==> pointers[j] == base + |images[2 + j]|
    {
      var pointer, next := PackNext(buf, base, buflen, offset, members[i], strs, images, 2 + i, before);
      if pointer == None {
        return false, [], 0, 2 + i;
      }
      pointers, offset := pointers + [pointer.value], next;
    }
    return true, pointers, offset, |strs|;
  }

  /** The string writes of `fill_group_buf`, `n` of them done: name, "x" and each member. */
  method PackGroup(group: GroupEntry, buf: array<byte>, base: nat, buflen: nat,
                   ghost strs: seq<bytes>, ghost images: seq<bytes>)
    returns (fits: bool, name: nat, passwd: nat, pointers: seq<nat>, offset: nat, ghost n: nat)
    requires buflen <= buf.Length && strs == GroupStrings(group) && Images(images, strs) && images[0] == []
    modifies buf
    ensures n <= |strs| && |images[n]| <= buflen && buf[..] == Overlay(images[n], old(buf[..]))
    ensures !fits ==> |images[|strs|]| > buflen
    ensures fits ==>
              && name == base + |images[0]| && passwd == base + |images[1]|
              && n == |strs| && offset == |images[n]| && |pointers| == |group.members|
              && forall i :: 0 <= i < |pointers| ==> pointers[i] == base + |images[2 + i]|
  {
    ghost var before := buf[..];
    fits, name, passwd, offset, n := PackTwo(group.name, X, buf, base, buflen, 0, strs, images, 0, before);
    pointers := [];
    if !fits {
      return;
    }
    fits, pointers, offset, n := PackMembers(group.members, buf, base, buflen, offset, strs, images, before);
  }

  lemma StartsOfMembers(images: seq<bytes>, strs: seq<bytes>, pointers: seq<nat>, base: nat)
    requires Images(images, strs) && |strs| == 2 + |pointers|
    requires forall i :: 0 <= i < |pointers| ==> pointers[i] == base + |images[2 + i]|
    ensures PointsTo(pointers + [0], base, strs, 2)
    ensures |images[0]| == StartOf(strs, 0) && |images[1]| == StartOf(strs, 1)
  {
    assert ImageAt(images, strs, 0) && ImageAt(images, strs, 1);
    forall i | 0 <= i < |pointers| ensures pointers[i] == base + StartOf(strs, 2 + i) {
      assert ImageAt(images, strs, 2 + i);
    }
  }

  /** The pointer writes of `fill_group_buf`, one unaligned store after the other. */
  method WritePointers(buf: array<byte>, at: nat, addresses: seq<nat>)
    requires at + 8 * |addresses| <= buf.Length
    modifies buf
    ensures buf[..] == Splice(old(buf[..]), at, Pointers(addresses))
  {
    ghost var before := buf[..];
    assert addresses[..0] == [] && buf[..] == Splice(before, at, []);
    var offset := at;
    for i := 0 to |addresses|
      invariant offset == at + |Pointers(addresses[..i])|
      invariant buf[..] == Splice(before, at, Pointers(addresses[..i]))
    {
      NextPointer(before, at, addresses, i);
      WriteBytes(buf, offset, PointerBytes(addresses[i]));
      offset := offset + 8;
    }
    assert addresses[..|addresses|] == addresses;
  }

  lemma NextPointer(memory: bytes, at: nat, addresses: seq<nat>, i: nat)
    requires i < |addresses| && at + 8 * |addresses| <= |memory|
    ensures |Pointers(addresses[..i + 1])| == |Pointers(addresses[..i])| + 8
    ensures var p := Pointers(addresses[..i]);
            Splice(Splice(memory, at, p), at + |p|, PointerBytes(addresses[i]))
            == Splice(memory, at, Pointers(addresses[..i + 1]))
  {
    PointersMore(addresses[..i], addresses[i]);
    assert addresses[..i + 1] == addresses[..i] + [addresses[i]];
    SpliceMore(memory, at, Pointers(addresses[..i]), PointerBytes(addresses[i]));
  }

  lemma SpliceMore(memory: bytes, at: nat, a: bytes, b: bytes)
    requires at + |a| + |b| <= |memory|
    ensures Splice(Splice(memory, at, a), at + |a|, b) == Splice(memory, at, a + b)
  {
  }

  lemma SpliceBeyond(front: bytes, memory: bytes, at: nat, b: bytes)
    requires |front| <= at && at + |b| <= |memory|
    ensures Splice(Overlay(front, memory), at, b) == Overlay(front + memory[|front|..at] + b, memory)
  {
    assert Overlay(front, memory)[..at] == front + memory[|front|..at];
    assert Overlay(front, memory)[at + |b|..] == memory[at + |b|..];
  }

  lemma ImageIsSplice(strs: seq<bytes>, addresses: seq<nat>, before: bytes)
    requires ImageSize(strs, |addresses|) <= |before|
    ensures |Pack(strs)| <= |before| && Aligned(|Pack(strs)|) + |Pointers(addresses)| <= |before|
    ensures Splice(Overlay(Pack(strs), before), Aligned(|Pack(strs)|), Pointers(addresses))
         == Image(strs, addresses, before)
  {
    PackLength(strs);
    AlignedIsLeast(|Pack(strs)|);
    SpliceBeyond(Pack(strs), before, Aligned(|Pack(strs)|), Pointers(addresses));
  }

  function AddressAt(strs: seq<bytes>, base: nat, i: nat): nat
    requires i <= |strs|
  {
    base + StartOf(strs, i)
  }

  /** The pointer array over the members: where each of them starts, and NULL. */
  function ArrayOf(strs: seq<bytes>, base: nat, from: nat): (addresses: seq<nat>)
    requires from <= |strs|
    ensures PointsTo(addresses, base, strs, from)
  {
    var count := |strs| - from;
    var starts: seq<nat> := seq<nat>(count, i requires 0 <= i < count => AddressAt(strs, base, from + i));
    assert forall i :: 0 <= i < |starts| ==> starts[i] == AddressAt(strs, base, from + i);
    starts + [0]
  }

  lemma PointsToIsArray(addresses: seq<nat>, base: nat, strs: seq<bytes>, from: nat)
    requires PointsTo(addresses, base, strs, from)
    ensures addresses == ArrayOf(strs, base, from)
  {
    var a := ArrayOf(strs, base, from);
    forall i | 0 <= i < |a| ensures a[i] == addresses[i] {
      if i < |strs| - from {
        assert a[i] == base + StartOf(strs, from + i);
      }
    }
  }

  /** The whole buffer after a successful call. */
  function GroupImage(group: GroupEntry, base: nat, before: bytes): bytes
    requires GroupSize(group) <= |before|
  {
    Image(GroupStrings(group), ArrayOf(GroupStrings(group), base, 2), before)
  }

  /** A pointer array is aligned for a C compiler exactly when the caller's buffer is: only the offset is aligned. */
  lemma ArrayAlignedIff(base: nat, offset: nat)
    ensures (base + Aligned(offset)) % 8 == 0 <==> base % 8 == 0
  {
    AlignedIsLeast(offset);
    AddMultiple(base, Aligned(offset) / 8);
  }

  lemma AddMultiple(n: nat, k: nat)
    ensures (n + 8 * k) % 8 == n % 8
  {
  }

  /** The writes of `fill_group_buf`: strings, alignment of the offset, room check, pointer array and NULL. */
  method PackImage(group: GroupEntry, buf: array<byte>, base: nat, buflen: nat, ghost strs: seq<bytes>)
    returns (fits: bool, name: nat, passwd: nat, mem: nat, ghost addresses: seq<nat>)
    requires buflen <= buf.Length && strs == GroupStrings(group)
    modifies buf
    ensures fits <==> ImageSize(strs, |group.members| + 1) <= buflen
    ensures fits ==>
              && name == base + StartOf(strs, 0) && passwd == base + StartOf(strs, 1)
              && mem == base + Aligned(|Pack(strs)|) && (mem % 8 == 0 <==> base % 8 == 0)
              && PointsTo(addresses, base, strs, 2)
              && buf[..] == Image(strs, addresses, old(buf[..]))
    ensures buf[buflen..] == old(buf[buflen..])
  {
    ghost var before := buf[..];
    PackLength(strs);
    AlignedIsLeast(|Pack(strs)|);
    ghost var images := ImagesOf(strs);
    LastImage(images, strs);
    FirstImage(images, strs);
    var pointers, offset;
    ghost var n;
    fits, name, passwd, pointers, offset, n := PackGroup(group, buf, base, buflen, strs, images);
    TailKept(buf, images[n], before, buflen);
    addresses, mem := pointers + [0], 0;
    if !fits {
      return;
    }
    StartsOfMembers(images, strs, pointers, base);
    ArrayAlignedIff(base, |Pack(strs)|);
    var misalign := offset % 8;
    if misalign != 0 {
      offset := offset + (8 - misalign);
    }
    assert offset == Aligned(|Pack(strs)|);
    var pointersNeeded := (|pointers| + 1) * 8;
    assert offset + pointersNeeded == ImageSize(strs, |addresses|);
    mem := base + offset;
    if offset + pointersNeeded > buflen {
      fits := false;
      return;
    }
    ImageIsSplice(strs, addresses, before);
    WritePointers(buf, offset, pointers + [0]);
    assert buf[buflen..] == buf[..][buflen..];
  }

  /**
   * `fill_group_buf`: succeeds exactly when strings, padding and pointers fit, and then a C reader gets
   * back the name, "x" and every member in order (each up to its first NUL); otherwise ERANGE and the
   * record untouched. Nothing outside the first `buflen` bytes is written. The pointer array is aligned
   * for a C compiler exactly when the caller's buffer is.
   */
  method FillGroupBuf(group: GroupEntry, result: GroupRecord, buf: array<byte>, base: nat, buflen: nat)
    returns (status: NssStatus, errno: nat)
    requires buflen <= buf.Length && 0 < base && base + buf.Length <= ADDRESS_LIMIT
    modifies result, buf
    ensures status == if GroupSize(group) <= buflen then Success else TryAgain
    ensures status == TryAgain ==> errno == 34 && unchanged(result)
    ensures status == Success ==>
              && errno == 0 && result.gid == group.gid
              && ReadGroup(buf[..], base, result.name, result.passwd, result.mem) == Some(GroupAsRead(group))
              && result.mem == base + Aligned(TotalLength(GroupStrings(group)))
              && (result.mem % 8 == 0 <==> base % 8 == 0)
              && buf[..] == GroupImage(group, base, old(buf[..]))
    ensures buf[buflen..] == old(buf[buflen..])
  {
    ghost var before := buf[..];
    ghost var strs := GroupStrings(group);
    var fits, name, passwd, mem, addresses := PackImage(group, buf, base, buflen, strs);
    if !fits {
      return TryAgain, ERANGE;
    }
    ghost var memory := buf[..];
    PackLength(strs);
    PointsToIsArray(addresses, base, strs, 2);
    ImageReadsBack(memory, before, base, name, passwd, mem, strs, addresses, group);
    result.name, result.passwd, result.gid, result.mem := name, passwd, group.gid, mem;
    assert buf[..] == memory;
    return Success, 0;
  }

  lemma ImageReadsBack(memory: bytes, before: bytes, base: nat, name: nat, passwd: nat, mem: nat,
                       strs: seq<bytes>, addresses: seq<nat>, group: GroupEntry)
    requires strs == GroupStrings(group) && ImageSize(strs, |addresses|) <= |before|
    requires 0 < base && base + |before| <= ADDRESS_LIMIT
    requires name == base + StartOf(strs, 0) && passwd == base + StartOf(strs, 1) && mem == base + Aligned(|Pack(strs)|)
    requires PointsTo(addresses, base, strs, 2) && memory == Image(strs, addresses, before)
    ensures ReadGroup(memory, base, name, passwd, mem) == Some(GroupAsRead(group))
  {
    ImageHolds(before, strs, addresses);
    StringsReadBack(memory, base, name, passwd, mem, strs, addresses);
    GroupReadsBack(memory, base, name, passwd, mem, strs, group);
  }

  /** Reading back is lossless exactly for entries without a NUL byte in any name. */
  lemma GroupLosslessIff(group: GroupEntry)
    ensures GroupAsRead(group) == GroupRead(group.name, [120], group.members)
            <==> 0 !in group.name && forall m :: m in group.members ==> 0 !in m
  {
    if AllUpToNul(group.members) == group.members {
      forall m | m in group.members ensures 0 !in m {
        var i :| 0 <= i < |group.members| && group.members[i] == m;
        assert AllUpToNul(group.members)[i] == UpToNul(m);
      }
    }
    if forall m :: m in group.members ==> 0 !in m {
      assert forall i :: 0 <= i < |group.members| ==> group.members[i] in group.members;
      assert AllUpToNul(group.members) == group.members;
    }
  }
}
