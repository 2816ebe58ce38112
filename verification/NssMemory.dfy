/**
 * The caller's buffer of an NSS call: bytes at an address, little-endian pointers of 8 bytes, and the way
 * a C program reads strings and NULL-terminated pointer arrays back out of it.
 */
module NssMemory {
  import opened Prelude

  type byte = n: int | 0 <= n < 256
  type bytes = seq<byte>

  const ADDRESS_LIMIT := 0x1_0000_0000_0000_0000

  // ---- Writing: what a region holds after the writes ----

  /** Memory whose first bytes were overwritten. */
  function Overlay(front: bytes, memory: bytes): bytes
    requires |front| <= |memory|
  {
    front + memory[|front|..]
  }

  /** NUL-terminated strings, one after the other. */
  function Pack(strs: seq<bytes>): bytes {
    if strs == [] then [] else Pack(strs[..|strs| - 1]) + strs[|strs| - 1] + [0]
  }

  /** The offset at which the i-th packed string starts. */
  function StartOf(strs: seq<bytes>, i: nat): nat
    requires i <= |strs|
  {
    |Pack(strs[..i])|
  }

  lemma PackMore(strs: seq<bytes>, s: bytes)
    ensures Pack(strs + [s]) == Pack(strs) + s + [0]
  {
    assert (strs + [s])[..|strs|] == strs;
  }

  function Little(n: nat, width: nat): (b: bytes)
    ensures |b| == width
  {
    if width == 0 then [] else [n % 256] + Little(n / 256, width - 1)
  }

  function FromLittle(b: bytes): nat {
    if b == [] then 0 else b[0] + 256 * FromLittle(b[1..])
  }

  function Pow256(k: nat): nat {
    if k == 0 then 1 else 256 * Pow256(k - 1)
  }

  lemma {:induction false} LittleRoundTrip(n: nat, width: nat)
    requires n < Pow256(width)
    ensures FromLittle(Little(n, width)) == n
  {
    if width > 0 {
      LittleRoundTrip(n / 256, width - 1);
      assert Little(n, width)[1..] == Little(n / 256, width - 1);
    }
  }

  /** A pointer in memory, the least significant byte first. */
  function PointerBytes(address: nat): (b: bytes)
    ensures |b| == 8
  {
    Little(address, 8)
  }

  lemma PointerRoundTrip(address: nat)
    requires address < ADDRESS_LIMIT
    ensures FromLittle(PointerBytes(address)) == address
  {
    assert Pow256(8) == 256 * (256 * (256 * (256 * Pow256(4))));
    assert Pow256(4) == 256 * (256 * (256 * (256 * Pow256(0))));
    LittleRoundTrip(address, 8);
  }

  /** What each byte of a pointer weighs on the machine that reads it. */
  lemma PointerWeights(address: nat)
    requires address < ADDRESS_LIMIT
    ensures var b: seq<int> := PointerBytes(address);
            address == b[0] + 0x100 * b[1] + 0x1_0000 * b[2] + 0x100_0000 * b[3] + 0x1_0000_0000 * b[4]
                       + 0x100_0000_0000 * b[5] + 0x1_0000_0000_0000 * b[6] + 0x100_0000_0000_0000 * b[7]
  {
    var b := PointerBytes(address);
    PointerRoundTrip(address);
    assert b[0..] == b;
    FromLittleAt(b, 0);
    FromLittleAt(b, 1);
    FromLittleAt(b, 2);
    FromLittleAt(b, 3);
    FromLittleAt(b, 4);
    FromLittleAt(b, 5);
    FromLittleAt(b, 6);
    FromLittleAt(b, 7);
    assert FromLittle(b[8..]) == 0;
  }

  lemma FromLittleAt(b: bytes, i: nat)
    requires i < |b|
    ensures FromLittle(b[i..]) == b[i] + 256 * FromLittle(b[i + 1..])
  {
    assert b[i..][1..] == b[i + 1..];
  }

  function Pointers(addresses: seq<nat>): (b: bytes)
    ensures |b| == 8 * |addresses|
  {
    if addresses == [] then []
    else Pointers(addresses[..|addresses| - 1]) + PointerBytes(addresses[|addresses| - 1])
  }

  lemma PointersMore(addresses: seq<nat>, address: nat)
    ensures Pointers(addresses + [address]) == Pointers(addresses) + PointerBytes(address)
  {
    assert (addresses + [address])[..|addresses|] == addresses;
  }

  /** The next multiple of the pointer size. */
  function Aligned(offset: nat): nat {
    if offset % 8 == 0 then offset else offset + 8 - offset % 8
  }

  lemma AlignedIsLeast(offset: nat)
    ensures offset <= Aligned(offset) < offset + 8 && Aligned(offset) % 8 == 0
    ensures forall n: nat :: offset <= n && n % 8 == 0 ==> Aligned(offset) <= n
  {
  }

  // ---- Reading ----

  function Region(memory: bytes, offset: nat, length: nat): (b: bytes)
    requires offset + length <= |memory|
    ensures |b| == length
  {
    memory[offset..offset + length]
  }

  /** `CStr::from_ptr`: the bytes up to the first NUL; nothing when the address or the NUL is outside. */
  function CString(memory: bytes, base: nat, address: nat): Option<bytes>
    decreases base + |memory| - address
  {
    if !(base <= address < base + |memory|) then None
    else if memory[address - base] == 0 then Some([])
    else match CString(memory, base, address + 1)
      case Some(rest) => Some([memory[address - base]] + rest)
      case None => None
  }

  function ReadPointer(memory: bytes, base: nat, address: nat): Option<nat> {
    if base <= address && address + 8 <= base + |memory|
    then Some(FromLittle(Region(memory, address - base, 8))) else None
  }

  /** Follow an array of string pointers until its NULL entry. */
  function StringArray(memory: bytes, base: nat, address: nat): Option<seq<bytes>>
    decreases base + |memory| - address
  {
    match ReadPointer(memory, base, address)
    case None => None
    case Some(entry) =>
      if entry == 0 then Some([])
      else match (CString(memory, base, entry), StringArray(memory, base, address + 8))
        case (Some(s), Some(rest)) => Some([s] + rest)
        case _ => None
  }

  /** What a C reader makes of a string: everything before its first NUL. */
  function UpToNul(s: bytes): (r: bytes)
    ensures r == s <==> 0 !in s
    ensures r <= s && 0 !in r
  {
    if s == [] || s[0] == 0 then [] else [s[0]] + UpToNul(s[1..])
  }

  function AllUpToNul(strs: seq<bytes>): seq<bytes> {
    seq(|strs|, i requires 0 <= i < |strs| => UpToNul(strs[i]))
  }

  ghost predicate HoldsAt(memory: bytes, offset: nat, b: bytes) {
    offset + |b| <= |memory| && Region(memory, offset, |b|) == b
  }

  lemma {:induction false} CStringReadsBack(memory: bytes, base: nat, offset: nat, s: bytes)
    requires HoldsAt(memory, offset, s + [0])
    ensures CString(memory, base, base + offset) == Some(UpToNul(s))
    decreases |s|
  {
    var b := s + [0];
    assert memory[offset] == memory[offset..offset + |b|][0] == b[0];
    if s != [] && s[0] != 0 {
      assert memory[offset + 1..offset + |b|] == memory[offset..offset + |b|][1..] == s[1..] + [0];
      CStringReadsBack(memory, base, offset + 1, s[1..]);
    }
  }

  lemma {:induction false} PackedStringAt(memory: bytes, strs: seq<bytes>, i: nat)
    requires i < |strs| && HoldsAt(memory, 0, Pack(strs))
    ensures HoldsAt(memory, StartOf(strs, i), strs[i] + [0])
    decreases |strs|
  {
    var init, last := strs[..|strs| - 1], strs[|strs| - 1];
    var p := Pack(init);
    assert Pack(strs) == p + (last + [0]);
    assert memory[..|Pack(strs)|] == Pack(strs);
    if i == |init| {
      assert strs[..i] == init;
      assert memory[|p|..|p| + |last| + 1] == memory[..|Pack(strs)|][|p|..];
    } else {
      assert memory[..|p|] == memory[..|Pack(strs)|][..|p|] == p;
      PackedStringAt(memory, init, i);
      assert init[..i] == strs[..i];
    }
  }

  lemma PointerReadsBack(memory: bytes, base: nat, offset: nat, address: nat)
    requires HoldsAt(memory, offset, PointerBytes(address)) && address < ADDRESS_LIMIT
    ensures ReadPointer(memory, base, base + offset) == Some(address)
  {
    PointerRoundTrip(address);
  }

  lemma {:induction false} PointerAt(memory: bytes, offset: nat, addresses: seq<nat>, i: nat)
    requires i < |addresses| && HoldsAt(memory, offset, Pointers(addresses))
    ensures HoldsAt(memory, offset + 8 * i, PointerBytes(addresses[i]))
    decreases |addresses|
  {
    var init, last := addresses[..|addresses| - 1], addresses[|addresses| - 1];
    var all, p := Pointers(addresses), Pointers(init);
    assert all == p + PointerBytes(last);
    var region := memory[offset..offset + |all|];
    if i == |init| {
      assert memory[offset + |p|..offset + |all|] == region[|p|..] == PointerBytes(last);
    } else {
      assert memory[offset..offset + |p|] == region[..|p|] == p;
      PointerAt(memory, offset, init, i);
    }
  }

  /** A string array: entry `i` points to the packed string `from + i`, and NULL ends it. */
  ghost predicate PointsTo(addresses: seq<nat>, base: nat, strs: seq<bytes>, from: nat) {
    && from <= |strs| && |addresses| == |strs| - from + 1
    && addresses[|strs| - from] == 0
    && forall i :: 0 <= i < |strs| - from ==> addresses[i] == base + StartOf(strs, from + i)
  }

  lemma EntryReadsBack(memory: bytes, base: nat, addresses: seq<nat>, arrayAt: nat, i: nat)
    requires i < |addresses| && addresses[i] < ADDRESS_LIMIT
    requires HoldsAt(memory, arrayAt, Pointers(addresses))
    ensures ReadPointer(memory, base, base + arrayAt + 8 * i) == Some(addresses[i])
  {
    PointerAt(memory, arrayAt, addresses, i);
    PointerReadsBack(memory, base, arrayAt + 8 * i, addresses[i]);
  }

  lemma PackedStringReadsBack(memory: bytes, base: nat, strs: seq<bytes>, k: nat, address: nat)
    requires k < |strs| && HoldsAt(memory, 0, Pack(strs)) && address == base + StartOf(strs, k)
    ensures CString(memory, base, address) == Some(UpToNul(strs[k]))
    ensures address < base + |memory|
  {
    PackedStringAt(memory, strs, k);
    CStringReadsBack(memory, base, StartOf(strs, k), strs[k]);
  }

  lemma StringArrayNext(memory: bytes, base: nat, address: nat, entry: nat, s: bytes, rest: seq<bytes>)
    requires ReadPointer(memory, base, address) == Some(entry) && entry != 0
    requires CString(memory, base, entry) == Some(s)
    requires StringArray(memory, base, address + 8) == Some(rest)
    ensures StringArray(memory, base, address) == Some([s] + rest)
  {
  }

  lemma AllUpToNulFrom(strs: seq<bytes>, k: nat)
    requires k < |strs|
    ensures AllUpToNul(strs[k..]) == [UpToNul(strs[k])] + AllUpToNul(strs[k + 1..])
  {
  }

  /** A NULL-terminated pointer array over packed strings reads back as those strings, each up to its first NUL. */
  lemma {:induction false} StringArrayReadsBack(memory: bytes, base: nat, strs: seq<bytes>, from: nat,
                                                addresses: seq<nat>, arrayAt: nat, i: nat, address: nat)
    requires PointsTo(addresses, base, strs, from) && from + i <= |strs| && address == base + arrayAt + 8 * i
    requires 0 < base && base + |memory| <= ADDRESS_LIMIT
    requires HoldsAt(memory, 0, Pack(strs)) && HoldsAt(memory, arrayAt, Pointers(addresses))
    ensures StringArray(memory, base, address) == Some(AllUpToNul(strs[from + i..]))
    decreases |strs| - from - i
  {
    if from + i < |strs| {
      var k := from + i;
      PackedStringReadsBack(memory, base, strs, k, addresses[i]);
      EntryReadsBack(memory, base, addresses, arrayAt, i);
      StringArrayReadsBack(memory, base, strs, from, addresses, arrayAt, i + 1, address + 8);
      StringArrayNext(memory, base, address, addresses[i], UpToNul(strs[k]), AllUpToNul(strs[k + 1..]));
      AllUpToNulFrom(strs, k);
    } else {
      EntryReadsBack(memory, base, addresses, arrayAt, i);
      assert AllUpToNul(strs[from + i..]) == [];
    }
  }

  lemma WholeArrayReadsBack(memory: bytes, base: nat, strs: seq<bytes>, from: nat, addresses: seq<nat>, address: nat)
    requires PointsTo(addresses, base, strs, from)
    requires 0 < base <= address && base + |memory| <= ADDRESS_LIMIT
    requires HoldsAt(memory, 0, Pack(strs)) && HoldsAt(memory, address - base, Pointers(addresses))
    ensures StringArray(memory, base, address) == Some(AllUpToNul(strs[from..]))
  {
    StringArrayReadsBack(memory, base, strs, from, addresses, address - base, 0, address);
  }
}
