/** src/mapping.rs: the hash slot of an external id and the probe loop over a configured id range. */
module Mapping {
  import opened Prelude

  /** A configured id range together with the (library) hash; `hash` is any total function. */
  datatype IdRange = IdRange(hash: string -> u32, min: u32, size: u32) {
    function Home(id: string): nat
      requires size > 0
    {
      hash(id) % size
    }

    /** Exactly the ranges on which no 32-bit step of the probe loop wraps; see NoStepWrapsIff. */
    predicate Fits() {
      0 < size <= 0x8000_0000 && min + size <= 0x1_0000_0000
    }

    predicate Contains(uid: int) {
      min <= uid < min + size
    }
  }

  type Range = r: IdRange | r.Fits() witness IdRange(_ => 0, 0, 1)

  /** `id_to_uid`, in 32-bit arithmetic. */
  function IdToUid(r: IdRange, id: string): u32
    requires r.size > 0
  {
    Wrap(r.min + r.hash(id) % r.size)
  }

  /** The candidate examined at a given offset of the probe loop, in 32-bit arithmetic. */
  function Candidate(r: IdRange, id: string, offset: u32): u32
    requires r.size > 0
  {
    CandidateFrom(r, Wrap(IdToUid(r, id) - r.min), offset)
  }

  /** The candidate, from the base slot recovered by subtracting the start of the range. */
  function CandidateFrom(r: IdRange, base: u32, offset: u32): u32
    requires r.size > 0
  {
    Wrap(r.min + Wrap(base + offset) % r.size)
  }

  /** What the loop does with one answer of `is_taken`: stop here, or go on to the next slot. */
  predicate Stops<E>(answer: Result<Option<bool>, E>) {
    answer != Ok(Some(false))
  }

  /** `resolve_id`: the caller's answer at the first slot that is free, already ours or in error decides. */
  method ResolveId(r: IdRange, id: string, isTaken: u32 -> Result<Option<bool>, Failure>)
    returns (result: Result<u32, Failure>)
    requires r.size > 0
    ensures (forall k: u32 | k < r.size :: isTaken(Candidate(r, id, k)) == Ok(Some(false))) ==>
              result == Err(RangeExhausted)
    ensures forall k: u32 | k < r.size && isTaken(Candidate(r, id, k)) != Ok(Some(false))
                            && (forall j: u32 | j < k :: isTaken(Candidate(r, id, j)) == Ok(Some(false))) ::
              result == match isTaken(Candidate(r, id, k))
                        case Ok(_) => Ok(Candidate(r, id, k))
                        case Err(e) => Err(e)
  {
    for offset := 0 to r.size
      invariant forall j: u32 | j < offset :: !Stops(isTaken(Candidate(r, id, j)))
    {
      var candidate := Candidate(r, id, offset);
      match isTaken(candidate)
      case Ok(None) => return Ok(candidate);
      case Ok(Some(true)) => return Ok(candidate);
      case Ok(Some(false)) =>
      case Err(e) => return Err(e);
    }
    return Err(RangeExhausted);
  }

  // ---- The probe sequence without modular arithmetic ----

  /** The uid `k` slots after the slot `h` of a range, cyclically. */
  function Probe(r: IdRange, h: nat, k: nat): int {
    r.min + (if h + k < r.size then h + k else h + k - r.size)
  }

  /** How many slots after the slot `h` a uid of the range lies, cyclically. */
  function Distance(r: IdRange, h: nat, uid: int): int {
    if uid - r.min >= h then uid - r.min - h else uid - r.min - h + r.size
  }

  lemma ModOnce(x: nat, n: nat)
    requires 0 < n && x < 2 * n
    ensures x % n == if x < n then x else x - n
  {
    if x >= n {
      assert x == 1 * n + (x - n);
    }
  }

  lemma WrapSmall(n: nat)
    requires n < 0x1_0000_0000
    ensures Wrap(n) == n
  {
  }

  /** Home slots lie in the range, and the loop's unwrapped offset is the home slot. */
  lemma CandidateBase(r: IdRange, id: string)
    requires r.size > 0
    ensures r.Home(id) < r.size
    ensures Wrap(IdToUid(r, id) - r.min) == r.Home(id)
  {
  }

  /** On every range that fits, the 32-bit candidates are the cyclic probe sequence. */
  lemma CandidateIsProbe(r: Range, id: string, k: u32)
    requires k < r.size
    ensures Candidate(r, id, k) == Probe(r, r.Home(id), k)
    ensures r.Contains(Candidate(r, id, k))
  {
    CandidateBase(r, id);
    CandidateFromIsProbe(r, r.Home(id), k);
  }

  /** On any range the candidates start at hash modulo size, as `CandidateFromWraps` says. */
  lemma CandidateFromHashSlot(r: IdRange, id: string, k: u32)
    requires r.size > 0
    ensures Candidate(r, id, k) == CandidateFrom(r, r.hash(id) % r.size, k)
  {
    CandidateBase(r, id);
  }

  /** A candidate in full: both of its additions wrap at 2^32. */
  lemma CandidateFromWraps(r: IdRange, h: u32, k: u32)
    requires r.size > 0
    ensures CandidateFrom(r, h, k) == (r.min + (h + k) % 0x1_0000_0000 % r.size) % 0x1_0000_0000
  {
  }

  /** The slots the loop examines, from the hash itself: slot `k` is hash plus `k` modulo the size of the range. */
  lemma CandidateFromHash(r: Range, id: string, k: u32)
    requires k < r.size
    ensures Candidate(r, id, k) == r.min + (r.hash(id) + k) % r.size
  {
    CandidateIsProbe(r, id, k);
    CandidateBase(r, id);
    ProbeFromHash(r, id, k);
  }

  lemma ProbeFromHash(r: Range, id: string, k: nat)
    requires k < r.size
    ensures Probe(r, r.Home(id), k) == r.min + (r.hash(id) + k) % r.size
  {
    CandidateBase(r, id);
    ModOnce(r.Home(id) + k, r.size);
    ModOfSum(r.hash(id), k, r.size);
  }

  lemma ModOfSum(a: nat, k: nat, n: nat)
    requires n > 0
    ensures (a + k) % n == (a % n + k) % n
  {
    var y := a % n + k;
    Division(a, n);
    Division(y, n);
    Distribute(a / n, y / n, n);
    RemainderIs(a + k, n, a / n + y / n, y % n);
  }

  lemma Division(a: int, n: nat)
    requires n > 0
    ensures a == a / n * n + a % n && 0 <= a % n < n
  {
  }

  lemma Distribute(p: int, q: int, n: int)
    ensures (p + q) * n == p * n + q * n && (p - q) * n == p * n - q * n
  {
  }

  /** Only zero is a multiple closer to zero than the modulus. */
  lemma NoSmallMultiple(k: int, n: int)
    requires -n < k * n < n
    ensures k == 0
  {
    if k > 0 {
      MultipleGrows(k, n);
    } else if k < 0 {
      Distribute(0, k, n);
      MultipleGrows(-k, n);
    }
  }

  lemma MultipleGrows(k: nat, n: nat)
    requires k > 0
    ensures k * n >= n
  {
    assert k * n == (k - 1) * n + n;
  }

  /** Quotient and remainder are unique. */
  lemma RemainderIs(a: int, n: nat, q: int, x: nat)
    requires x < n && a == q * n + x
    ensures a % n == x
  {
    Division(a, n);
    Distribute(a / n, q, n);
    NoSmallMultiple(a / n - q, n);
  }

  /** Two numbers have the same remainder exactly when their difference is a multiple. */
  lemma CongruentIff(a: nat, b: nat, n: nat)
    requires n > 0
    ensures a % n == b % n <==> (a - b) % n == 0
  {
    Division(a, n);
    Division(b, n);
    Division(a - b, n);
    Distribute(a / n, b / n, n);
    if a % n == b % n {
      RemainderIs(a - b, n, a / n - b / n, 0);
    } else if (a - b) % n == 0 {
      Distribute((a - b) / n, a / n - b / n, n);
      NoSmallMultiple((a - b) / n - (a / n - b / n), n);
    }
  }

  lemma CandidateFromIsProbe(r: Range, h: nat, k: u32)
    requires h < r.size && k < r.size
    ensures CandidateFrom(r, h, k) == Probe(r, h, k)
  {
    WrapSmall(h + k);
    ModOnce(h + k, r.size);
  }

  /** Intermediate results of one loop step, before wrapping: the base, the offset sum and the candidate. */
  predicate StepWraps(r: IdRange, h: nat, k: nat)
    requires r.size > 0
  {
    || r.min + h >= 0x1_0000_0000
    || h + k >= 0x1_0000_0000
    || r.min + (h + k) % r.size >= 0x1_0000_0000
  }

  /** No step of any probe wraps in 32 bits if and only if the range fits. */
  lemma NoStepWrapsIff(r: IdRange)
    requires r.size > 0
    ensures r.Fits() <==> forall h: nat, k: nat | h < r.size && k < r.size :: !StepWraps(r, h, k)
  {
    if r.Fits() {
      forall h: nat, k: nat | h < r.size && k < r.size
        ensures !StepWraps(r, h, k)
      {
        ModOnce(h + k, r.size);
      }
    } else {
      assert StepWraps(r, r.size - 1, r.size - 1);
    }
  }

  /** Two offsets of one probe loop that examine the same slot. */
  predicate ProbesTwice(r: IdRange, id: string, j: u32, k: u32)
    requires r.size > 0
  {
    j < k < r.size && Candidate(r, id, j) == Candidate(r, id, k)
  }

  /**
   * The loop examines no slot twice exactly when home slot plus range size stays within 2^32. Past
   * that the 32-bit sum wraps and the first slot is examined twice.
   */
  lemma ProbesDistinctIff(r: IdRange, id: string)
    requires r.size > 0
    ensures (forall j: u32, k: u32 :: !ProbesTwice(r, id, j, k)) <==> r.Home(id) + r.size <= 0x1_0000_0000
  {
    CandidateBase(r, id);
    var h := r.Home(id);
    if h + r.size <= 0x1_0000_0000 {
      forall j: u32, k: u32 | j < k < r.size
        ensures !ProbesTwice(r, id, j, k)
      {
        CandidateFromDiffers(r, h, j, k);
      }
    } else {
      CandidateFromRepeats(r, h);
      assert ProbesTwice(r, id, r.size - h, 0x1_0000_0000 - h);
    }
  }

  lemma CandidateFromDiffers(r: IdRange, h: u32, j: u32, k: u32)
    requires h < r.size && j < k < r.size
    requires h + r.size <= 0x1_0000_0000
    ensures CandidateFrom(r, h, j) != CandidateFrom(r, h, k)
  {
    WrapSmall(h + j);
    WrapSmall(h + k);
    ModOnce(h + j, r.size);
    ModOnce(h + k, r.size);
    WrapInjective(r.min, (h + j) % r.size, (h + k) % r.size);
  }

  lemma CandidateFromRepeats(r: IdRange, h: u32)
    requires h < r.size && h + r.size > 0x1_0000_0000
    ensures CandidateFrom(r, h, r.size - h) == CandidateFrom(r, h, 0x1_0000_0000 - h)
  {
    WrapSmall(r.size);
    ModOnce(r.size, r.size);
    ModOnce(0, r.size);
  }

  /** The offset at which an unwrapped loop examines a slot. */
  lemma ExaminedAt(r: IdRange, id: string, slot: u32) returns (k: u32)
    requires slot < r.size && r.Home(id) + r.size <= 0x1_0000_0000
    ensures k < r.size && Candidate(r, id, k) == SlotId(r, slot)
  {
    CandidateBase(r, id);
    k := OffsetOf(r, r.Home(id), slot);
  }

  lemma OffsetOf(r: IdRange, h: u32, slot: u32) returns (k: u32)
    requires h < r.size && slot < r.size && h + r.size <= 0x1_0000_0000
    ensures k < r.size && CandidateFrom(r, h, k) == SlotId(r, slot)
  {
    k := if slot >= h then slot - h else slot - h + r.size;
    CandidateFromAt(r, h, k);
  }

  /** A wrapping loop never examines the slot before the home slot. */
  lemma NeverExamined(r: IdRange, id: string, k: u32)
    requires k < r.size && r.Home(id) + r.size > 0x1_0000_0000
    ensures 0 < r.Home(id) < r.size
    ensures Candidate(r, id, k) != SlotId(r, r.Home(id) - 1)
  {
    CandidateBase(r, id);
    CandidateFromMisses(r, r.Home(id), k);
  }

  /** The loop examines every slot of the range exactly when home slot plus range size stays within 2^32. */
  lemma AllExaminedIff(r: IdRange, id: string)
    requires r.size > 0
    ensures (forall slot: u32 | slot < r.size :: Examines(r, id, slot)) <==> r.Home(id) + r.size <= 0x1_0000_0000
  {
    CandidateBase(r, id);
    if r.Home(id) + r.size <= 0x1_0000_0000 {
      forall slot: u32 | slot < r.size ensures Examines(r, id, slot) {
        var k := ExaminedAt(r, id, slot);
      }
    } else {
      forall k: u32 | k < r.size ensures Candidate(r, id, k) != SlotId(r, r.Home(id) - 1) {
        NeverExamined(r, id, k);
      }
      assert !Examines(r, id, r.Home(id) - 1);
    }
  }

  /** The id in a slot of the range. */
  function SlotId(r: IdRange, slot: u32): u32 {
    Wrap(r.min + slot)
  }

  /** Some offset of the probe loop examines this slot of the range. */
  ghost predicate Examines(r: IdRange, id: string, slot: u32)
    requires r.size > 0
  {
    exists k: u32 :: k < r.size && Candidate(r, id, k) == SlotId(r, slot)
  }

  lemma CandidateFromAt(r: IdRange, h: u32, k: u32)
    requires h < r.size && k < r.size && h + k < 0x1_0000_0000
    ensures CandidateFrom(r, h, k) == Wrap(r.min + if h + k < r.size then h + k else h + k - r.size)
  {
    WrapSmall(h + k);
    ModOnce(h + k, r.size);
  }

  lemma CandidateFromMisses(r: IdRange, h: u32, k: u32)
    requires h < r.size && k < r.size && h + r.size > 0x1_0000_0000
    ensures CandidateFrom(r, h, k) != SlotId(r, h - 1)
  {
    var sum := Wrap(h + k);
    assert sum == if h + k < 0x1_0000_0000 then h + k else h + k - 0x1_0000_0000;
    ModOnce(sum, r.size);
    WrapInjective(r.min, sum % r.size, h - 1);
  }

  /** A caller's answers that let the loop run to its end: `ResolveId` then reports exhaustion. */
  ghost predicate LooksExhausted(r: IdRange, id: string, isTaken: u32 -> Result<Option<bool>, Failure>)
    requires r.size > 0
  {
    forall k: u32 | k < r.size :: !Stops(isTaken(Candidate(r, id, k)))
  }

  /** Every slot of the range really is held by another id. */
  ghost predicate IsExhausted(r: IdRange, isTaken: u32 -> Result<Option<bool>, Failure>) {
    forall slot: u32 | slot < r.size :: !Stops(isTaken(SlotId(r, slot)))
  }

  lemma HonestExhaustion(r: IdRange, id: string, isTaken: u32 -> Result<Option<bool>, Failure>)
    requires r.size > 0 && r.Home(id) + r.size <= 0x1_0000_0000
    requires LooksExhausted(r, id, isTaken)
    ensures IsExhausted(r, isTaken)
  {
    forall slot: u32 | slot < r.size ensures !Stops(isTaken(SlotId(r, slot))) {
      var k := ExaminedAt(r, id, slot);
      assert !Stops(isTaken(Candidate(r, id, k)));
    }
  }

  lemma FalseExhaustion(r: IdRange, id: string)
    requires r.size > 0 && r.Home(id) + r.size > 0x1_0000_0000
    ensures 0 < r.Home(id) < r.size
    ensures LooksExhausted(r, id, OnlyFree(SlotId(r, r.Home(id) - 1)))
    ensures !IsExhausted(r, OnlyFree(SlotId(r, r.Home(id) - 1)))
  {
    NeverExamined(r, id, 0);
    var free := SlotId(r, r.Home(id) - 1);
    forall k: u32 | k < r.size ensures !Stops(OnlyFree(free)(Candidate(r, id, k))) {
      NeverExamined(r, id, k);
    }
    assert Stops(OnlyFree(free)(free));
  }

  /**
   * Exhaustion is reported only when every slot is occupied, as documented, exactly when home slot plus
   * range size stays within 2^32. Past that, with one slot free and never examined, it is reported anyway.
   */
  lemma HonestExhaustionIff(r: IdRange, id: string)
    requires r.size > 0
    ensures (forall isTaken :: LooksExhausted(r, id, isTaken) ==> IsExhausted(r, isTaken))
            <==> r.Home(id) + r.size <= 0x1_0000_0000
  {
    if r.Home(id) + r.size <= 0x1_0000_0000 {
      forall isTaken | LooksExhausted(r, id, isTaken) ensures IsExhausted(r, isTaken) {
        HonestExhaustion(r, id, isTaken);
      }
    } else {
      FalseExhaustion(r, id);
    }
  }

  /** Every id is held by another external id but one, which is free. */
  function OnlyFree(uid: u32): u32 -> Result<Option<bool>, Failure> {
    c => if c == uid then Ok(None) else Ok(Some(false))
  }

  /** On every such range and id the loop itself reports exhaustion with the slot before the home slot free. */
  method ReportsFalseExhaustion(r: IdRange, id: string) returns (result: Result<u32, Failure>)
    requires r.size > 0 && r.Home(id) + r.size > 0x1_0000_0000
    ensures 0 < r.Home(id) < r.size
    ensures result == Err(RangeExhausted) && !IsExhausted(r, OnlyFree(SlotId(r, r.Home(id) - 1)))
  {
    FalseExhaustion(r, id);
    var isTaken := OnlyFree(SlotId(r, r.Home(id) - 1));
    assert LooksExhausted(r, id, isTaken);
    result := ResolveId(r, id, isTaken);
  }

  /** A real input: the largest range, an id whose home is its last slot, and the slot before it free. */
  method ReportsExhaustionWithAFreeSlot() returns (result: Result<u32, Failure>)
    ensures var r := IdRange(_ => 0xFFFF_FFFE, 0, 0xFFFF_FFFF);
            result == Err(RangeExhausted) && !IsExhausted(r, OnlyFree(0xFFFF_FFFD))
  {
    var r := IdRange(_ => 0xFFFF_FFFE, 0, 0xFFFF_FFFF);
    assert r.Home("a") == 0xFFFF_FFFE && SlotId(r, 0xFFFF_FFFD) == 0xFFFF_FFFD;
    result := ReportsFalseExhaustion(r, "a");
  }

  lemma WrapInjective(min: u32, a: u32, b: u32)
    requires a != b
    ensures Wrap(min + a) != Wrap(min + b)
  {
  }

  /** On a range that fits, the loop examines every uid of the range at exactly one offset. */
  lemma EachSlotProbedOnce(r: Range, id: string, uid: int, k: u32)
    requires r.Contains(uid) && k < r.size
    ensures Candidate(r, id, k) == uid <==> k == Distance(r, r.Home(id), uid)
    ensures 0 <= Distance(r, r.Home(id), uid) < r.size
  {
    CandidateBase(r, id);
    CandidateIsProbe(r, id, k);
  }

  /** `id_to_uid` lands in the configured range exactly when its addition does not wrap. */
  lemma InRangeIff(r: IdRange, id: string)
    requires r.size > 0
    ensures r.Contains(IdToUid(r, id)) <==> r.min + r.Home(id) < 0x1_0000_0000
  {
  }

  /** A range at the end of the 32-bit ids whose second slot is the id 0. */
  lemma LandsOnZero(id: string)
    ensures var r := IdRange(_ => 1, 0xFFFF_FFFF, 2);
            IdToUid(r, id) == 0 && !r.Contains(IdToUid(r, id))
  {
  }
}
