/** Subnet allocation by hash-started probing of aligned slots (`alloc.rs`). */
module Alloc {
  import opened Basics

  newtype u32 = x: int | 0 <= x < 0x1_0000_0000
  newtype u64 = x: int | 0 <= x < 0x1_0000_0000_0000_0000

  const ADDRESSES: int := 0x1_0000_0000
  const SMALLEST_DEVICE_PREFIX: nat := 30

  type Addr = x: int | 0 <= x < 0x1_0000_0000
  type Plen = p: int | 0 <= p <= 32

  /** An IPv4 network as `ipnet` keeps it: host bits are retained, and masked only when asked. */
  datatype Net = Net(addr: Addr, plen: Plen)

  /** `i << k` without a width. */
  function Scale(i: nat, k: nat): (r: nat) {
    if k == 0 then i else 2 * Scale(i, k - 1)
  }

  /** `a >> k`. */
  function Shift(a: nat, k: nat): (r: nat) {
    if k == 0 then a else Shift(a / 2, k - 1)
  }

  function Pow2(k: nat): (r: nat) {
    Scale(1, k)
  }

  function Size(p: Plen): (r: nat) {
    Pow2(32 - p)
  }

  /** `network()`: the address with its host bits cleared. */
  function Network(n: Net): (a: int) {
    Scale(Shift(n.addr, 32 - n.plen), 32 - n.plen)
  }

  /** `broadcast()`. */
  function Last(n: Net): (a: int) {
    Network(n) + Size(n.plen) - 1
  }

  predicate Contains(c: Net, d: Net) {
    Network(c) <= Network(d) && Last(d) <= Last(c)
  }

  predicate In(x: int, n: Net) {
    Network(n) <= x <= Last(n)
  }

  /** No address belongs to both. */
  ghost predicate Disjoint(c: Net, d: Net) {
    forall x :: !(In(x, c) && In(x, d))
  }

  ghost predicate Free(n: Net, claimed: set<Net>) {
    forall c :: c in claimed ==> Disjoint(c, n)
  }

  predicate OverlapsAny(candidate: Net, claimed: set<Net>) {
    exists c :: c in claimed && (Contains(c, candidate) || Contains(candidate, c))
  }

  function NumSlots(base: Net, p: Plen): (n: nat)
    requires base.plen <= p
  {
    Pow2(p - base.plen)
  }

  /** The i-th aligned block of prefix length `p` inside `base`. */
  ghost function Slot(base: Net, p: Plen, i: nat): (n: Net)
    requires base.plen <= p && i < NumSlots(base, p)
  {
    SlotFits(base, p, i);
    Net(Network(base) + Scale(i, 32 - p), p)
  }

  ghost predicate SlotFree(base: Net, p: Plen, i: nat, claimed: set<Net>) {
    base.plen <= p && i < NumSlots(base, p) && Free(Slot(base, p, i), claimed)
  }

  ghost predicate AnyFree(base: Net, p: Plen, claimed: set<Net>) {
    exists i :: SlotFree(base, p, i, claimed)
  }

  // ----- Shifts and alignment --------------------------------------------------------------

  lemma {:induction false} ScaleIsMonotone(i: nat, j: nat, k: nat)
    requires i <= j
    ensures Scale(i, k) <= Scale(j, k)
  {
    if k > 0 { ScaleIsMonotone(i, j, k - 1); }
  }

  lemma {:induction false} ScaleAdd(i: nat, j: nat, k: nat)
    ensures Scale(i + j, k) == Scale(i, k) + Scale(j, k)
  {
    if k > 0 { ScaleAdd(i, j, k - 1); }
  }

  lemma {:induction false} ScaleTwice(i: nat, a: nat, b: nat)
    ensures Scale(i, a + b) == Scale(Scale(i, a), b)
  {
    if b > 0 { ScaleTwice(i, a, b - 1); }
  }

  lemma {:induction false} ScaleIsProduct(i: nat, k: nat)
    ensures Scale(i, k) == i * Pow2(k)
  {
    if k > 0 {
      ScaleIsProduct(i, k - 1);
      assert 2 * (i * Pow2(k - 1)) == i * (2 * Pow2(k - 1));
    }
  }

  lemma {:induction false} ShiftUndoesScale(i: nat, k: nat)
    ensures Shift(Scale(i, k), k) == i
  {
    if k > 0 { ShiftUndoesScale(i, k - 1); }
  }

  /** Clearing `k` low bits rounds down by less than `2^k`. */
  lemma {:induction false} ShiftRoundsDown(a: nat, k: nat)
    ensures Scale(Shift(a, k), k) <= a < Scale(Shift(a, k), k) + Pow2(k)
  {
    if k > 0 { ShiftRoundsDown(a / 2, k - 1); }
  }

  lemma Pow32()
    ensures Pow2(32) == ADDRESSES
  {
    assert Pow2(8) == 256;
    ScaleTwice(1, 8, 8);
    ScaleIsProduct(256, 8);
    ScaleTwice(1, 16, 16);
    ScaleIsProduct(65536, 16);
  }

  lemma PowIsPositive(k: nat)
    ensures Pow2(k) >= 1
  {
    ShiftRoundsDown(0, k);
  }

  /** An aligned block of `2^(t+s)` addresses holds the whole of an aligned block of `2^s` or none of it. */
  lemma AlignedNesting(i: nat, j: nat, t: nat, s: nat, x: int)
    requires Scale(i, s) <= x < Scale(i, s) + Pow2(s)
    requires Scale(j, t + s) <= x < Scale(j, t + s) + Pow2(t + s)
    ensures Scale(j, t + s) <= Scale(i, s) && Scale(i, s) + Pow2(s) <= Scale(j, t + s) + Pow2(t + s)
  {
    var lo, n := Scale(j, t), Pow2(t);
    ScaleTwice(j, t, s);
    ScaleTwice(1, t, s);
    ScaleAdd(lo, n, s);
    ScaleAdd(i, 1, s);
    if lo > i { ScaleIsMonotone(i + 1, lo, s); }
    if i >= lo + n { ScaleIsMonotone(lo + n, i, s); }
    ScaleIsMonotone(lo, i, s);
    ScaleIsMonotone(i + 1, lo + n, s);
  }

  lemma SharedAddressNests(c: Net, d: Net, x: int)
    requires c.plen <= d.plen && In(x, c) && In(x, d)
    ensures Contains(c, d)
  {
    AlignedNesting(Shift(d.addr, 32 - d.plen), Shift(c.addr, 32 - c.plen), d.plen - c.plen, 32 - d.plen, x);
  }

  /** CIDR blocks nest: one contains the other exactly when they share an address. */
  lemma NestedIffOverlapping(c: Net, d: Net)
    ensures Contains(c, d) || Contains(d, c) <==> !Disjoint(c, d)
  {
    if !Disjoint(c, d) {
      var x :| In(x, c) && In(x, d);
      if c.plen <= d.plen {
        SharedAddressNests(c, d, x);
      } else {
        SharedAddressNests(d, c, x);
      }
    } else {
      PowIsPositive(32 - c.plen);
      PowIsPositive(32 - d.plen);
      assert In(Network(c), c) && In(Network(d), d);
    }
  }

  lemma OverlapsAnyIffNotFree(n: Net, claimed: set<Net>)
    ensures OverlapsAny(n, claimed) <==> !Free(n, claimed)
  {
    forall c | c in claimed ensures (Contains(c, n) || Contains(n, c)) <==> !Disjoint(c, n) {
      NestedIffOverlapping(c, n);
    }
  }

  lemma BlockEndsInSpace(n: Net)
    ensures 0 <= Network(n) <= n.addr && Network(n) + Size(n.plen) <= ADDRESSES
  {
    var h := 32 - n.plen;
    var q := Shift(n.addr, h);
    Pow32();
    ShiftRoundsDown(n.addr, h);
    ScaleTwice(1, n.plen, h);
    if q >= Pow2(n.plen) { ScaleIsMonotone(Pow2(n.plen), q, h); }
    ScaleIsMonotone(q + 1, Pow2(n.plen), h);
    ScaleAdd(q, 1, h);
  }

  /** The 32-bit product and sum of the probe stay in range. */
  lemma SlotFits(base: Net, p: Plen, i: nat)
    requires base.plen <= p && i < NumSlots(base, p)
    ensures Scale(i, 32 - p) + Size(p) <= Size(base.plen)
    ensures 0 <= Network(base) && Network(base) + Scale(i, 32 - p) + Size(p) <= ADDRESSES
    ensures Size(p) >= 1
  {
    ScaleTwice(1, p - base.plen, 32 - p);
    ScaleIsMonotone(i + 1, NumSlots(base, p), 32 - p);
    ScaleAdd(i, 1, 32 - p);
    BlockEndsInSpace(base);
    PowIsPositive(32 - p);
  }

  /** A slot is aligned and inside the base. */
  lemma SlotShape(base: Net, p: Plen, i: nat)
    requires base.plen <= p && i < NumSlots(base, p)
    ensures Network(Slot(base, p, i)) == Slot(base, p, i).addr == Network(base) + Scale(i, 32 - p)
    ensures Contains(base, Slot(base, p, i))
  {
    SlotFits(base, p, i);
    var j, t := Shift(base.addr, 32 - base.plen), p - base.plen;
    ScaleTwice(j, t, 32 - p);
    ScaleAdd(Scale(j, t), i, 32 - p);
    ShiftUndoesScale(Scale(j, t) + i, 32 - p);
  }

  lemma ScaleBounds(lo: nat, n: nat, q: nat, h: nat)
    requires Scale(lo, h) <= Scale(q, h) && Scale(q, h) + Pow2(h) <= Scale(lo + n, h)
    ensures lo <= q < lo + n
  {
    ScaleAdd(q, 1, h);
    PowIsPositive(h);
    if q < lo { ScaleIsMonotone(q + 1, lo, h); }
    if q >= lo + n { ScaleIsMonotone(lo + n, q, h); }
  }

  /** Every block of a smaller size inside the base is one of its slots. */
  lemma EveryBlockIsASlot(base: Net, d: Net) returns (i: nat)
    requires base.plen <= d.plen && Contains(base, d)
    ensures i < NumSlots(base, d.plen) && Network(d) == Network(Slot(base, d.plen, i))
  {
    var h, t := 32 - d.plen, d.plen - base.plen;
    var lo, n, q := Scale(Shift(base.addr, 32 - base.plen), t), Pow2(t), Shift(d.addr, h);
    ScaleTwice(Shift(base.addr, 32 - base.plen), t, h);
    ScaleTwice(1, t, h);
    ScaleAdd(lo, n, h);
    ScaleBounds(lo, n, q, h);
    i := q - lo;
    ScaleAdd(lo, i, h);
    SlotShape(base, d.plen, i);
  }

  /** The slot probed at step `offset` of a walk over `n` slots started by `hash`. */
  function Probed(hash: nat, n: nat, offset: nat): (i: nat)
    requires n >= 1
  {
    (hash % n + offset) % n
  }

  lemma ProbedWraps(hash: nat, n: nat, offset: nat)
    requires offset < n
    ensures hash % n < n
    ensures Probed(hash, n, offset) ==
            if hash % n + offset < n then hash % n + offset else hash % n + offset - n
  {
    ModOnce(hash % n + offset, n);
  }

  lemma ModOnce(x: nat, n: nat)
    requires n >= 1 && x < 2 * n
    ensures x % n == if x < n then x else x - n
  {
    if x >= n {
      assert x == n * 1 + (x - n);
    }
  }

  /** The walk from any starting slot reaches each slot exactly once. */
  lemma WalkVisitsEachSlotOnce(hash: nat, n: nat, i: nat) returns (offset: nat)
    requires i < n
    ensures offset < n && Probed(hash, n, offset) == i
    ensures forall o: nat :: o < n && Probed(hash, n, o) == i ==> o == offset
  {
    ProbedWraps(hash, n, 0);
    offset := if i >= hash % n then i - hash % n else i + n - hash % n;
    forall o: nat | o < n ensures Probed(hash, n, o) == i ==> o == offset {
      ProbedWraps(hash, n, o);
    }
    ProbedWraps(hash, n, offset);
  }

  /** Both halves of a free slot are free. */
  lemma HalvesAreFree(base: Net, p: Plen, i: nat, claimed: set<Net>)
    requires p < 32 && SlotFree(base, p, i, claimed)
    ensures SlotFree(base, p + 1, 2 * i, claimed) && SlotFree(base, p + 1, 2 * i + 1, claimed)
  {
    SlotShape(base, p, i);
    ScaleTwice(i, 1, 32 - p - 1);
    ScaleAdd(2 * i, 1, 32 - p - 1);
    assert Scale(i, 1) == 2 * i;
    HalfIsFree(base, p, i, claimed, 2 * i);
    HalfIsFree(base, p, i, claimed, 2 * i + 1);
  }

  lemma HalfIsFree(base: Net, p: Plen, i: nat, claimed: set<Net>, half: nat)
    requires p < 32 && SlotFree(base, p, i, claimed) && 2 * i <= half <= 2 * i + 1
    requires Scale(i, 32 - p) <= Scale(half, 32 - p - 1) <= Scale(i, 32 - p) + Size(p + 1)
    ensures SlotFree(base, p + 1, half, claimed)
  {
    SlotShape(base, p, i);
    SlotShape(base, p + 1, half);
    var big, small := Slot(base, p, i), Slot(base, p + 1, half);
    forall c | c in claimed ensures Disjoint(c, small) {
      forall x ensures !(In(x, c) && In(x, small)) {
        assert In(x, small) ==> In(x, big);
      }
    }
  }

  lemma {:induction false} SmallerSizesStayFree(base: Net, p: Plen, q: Plen, claimed: set<Net>)
    requires p <= q && AnyFree(base, p, claimed)
    ensures AnyFree(base, q, claimed)
    decreases q - p
  {
    if p < q {
      var i :| SlotFree(base, p, i, claimed);
      HalvesAreFree(base, p, i, claimed);
      SmallerSizesStayFree(base, p + 1, q, claimed);
    }
  }

  // ----- The allocator ---------------------------------------------------------------------

  /** `net` is the slot probed at step `offset`, and the first free one of the walk. */
  ghost predicate FirstFreeAt(net: Net, hash: nat, base: Net, p: Plen, claimed: set<Net>, offset: nat) {
    && base.plen <= p
    && offset < NumSlots(base, p)
    && SlotFree(base, p, Probed(hash, NumSlots(base, p), offset), claimed)
    && net == Slot(base, p, Probed(hash, NumSlots(base, p), offset))
    && forall o: nat :: o < offset ==> !SlotFree(base, p, Probed(hash, NumSlots(base, p), o), claimed)
  }

  /** `net` is the first free slot of prefix length `p` met when walking from slot `hash mod n`. */
  ghost predicate FirstFreeFrom(net: Net, hash: nat, base: Net, p: Plen, claimed: set<Net>) {
    exists offset: nat :: FirstFreeAt(net, hash, base, p, claimed, offset)
  }

  lemma SlotCount(base: Net, p: Plen)
    requires base.plen <= p
    ensures 1 <= NumSlots(base, p) <= ADDRESSES
    ensures p >= 1 ==> Size(p) < ADDRESSES
  {
    PowIsPositive(p - base.plen);
    Pow32();
    PowersGrow(p - base.plen, 32);
    if p >= 1 {
      PowersGrow(32 - p, 31);
      assert Pow2(32) == 2 * Pow2(31);
    }
  }

  lemma {:induction false} PowersGrow(a: nat, b: nat)
    requires a <= b
    ensures Pow2(a) <= Pow2(b)
  {
    ScaleTwice(1, a, b - a);
    ScaleIsProduct(Pow2(a), b - a);
    PowIsPositive(b - a);
    ScaleIsMonotone(1, Pow2(b - a), a);
    ScaleTwice(1, b - a, a);
  }

  /** One probe in machine arithmetic: the 32-bit product and sum do not overflow, and give the slot. */
  method Candidate(base: Net, target: Plen, slotIdx: u64) returns (candidate: Net)
    requires base.plen <= target && slotIdx as int < NumSlots(base, target)
    ensures candidate == Slot(base, target, slotIdx as int)
  {
    SlotFits(base, target, slotIdx as int);
    SlotCount(base, target);
    ScaleIsProduct(slotIdx as int, 32 - target);
    if target == 0 { assert NumSlots(base, target) == 1; }
    // A shift of a 32-bit value by 32 wraps to no shift at all.
    var slotSize: u32 := if target == 0 then 1 else Size(target) as u32;
    var baseAddr: u32 := Network(base) as u32;
    var product: u32 := (slotIdx as u32) * slotSize;
    var slotAddr: u32 := ((baseAddr as int + product as int) % ADDRESSES) as u32;
    candidate := Net(slotAddr as int, target);
  }

  /** Probe every slot of the requested size, starting at the hashed one. `hash` is the 64-bit value
      read from the digest of the node id. */
  method PickSubnet(hash: u64, claimed: set<Net>, base: Net, target: Plen) returns (r: Option<Net>)
    requires base.plen <= target
    ensures r.Some? ==> FirstFreeFrom(r.value, hash as int, base, target, claimed)
    ensures r.None? <==> !AnyFree(base, target, claimed)
  {
    SlotCount(base, target);
    ghost var n, h: nat := NumSlots(base, target), hash as int;
    var numSlots: u64 := Pow2(target - base.plen) as u64;
    var preferred: u64 := hash % numSlots;
    var offset: u64 := 0;
    ghost var walked: nat := 0;
    while offset < numSlots
      invariant offset as int == walked <= n
      invariant forall o: nat :: o < walked ==> !SlotFree(base, target, Probed(h, n, o), claimed)
    {
      ProbedWraps(h, n, offset as int);
      var slotIdx: u64 := (preferred + offset) % numSlots;
      assert slotIdx as int == Probed(h, n, offset as int);
      var candidate := Candidate(base, target, slotIdx);
      OverlapsAnyIffNotFree(candidate, claimed);
      if !OverlapsAny(candidate, claimed) {
        assert FirstFreeAt(candidate, h, base, target, claimed, offset as int);
        return Some(candidate);
      }
      offset, walked := offset + 1, walked + 1;
    }
    forall i: nat ensures !SlotFree(base, target, i, claimed) {
      if i < n {
        var o := WalkVisitsEachSlotOnce(h, n, i);
      }
    }
    return None;
  }

  function BumpSmallerSubnet(p: Plen): (r: Option<Plen>)
    ensures r.Some? <==> p < SMALLEST_DEVICE_PREFIX
    ensures r.Some? ==> r.value == p + 1
  {
    if p >= SMALLEST_DEVICE_PREFIX then None else Some(p + 1)
  }

  /** The largest subnet at or below the request that fits, and `None` for a request of at least a /30
      exactly when the base has no free /30 left. */
  method PickSubnetOrSmaller(hash: u64, claimed: set<Net>, base: Net, target: Plen) returns (r: Option<Net>)
    requires base.plen <= target
    ensures r.Some? ==>
              && target <= r.value.plen && (target <= SMALLEST_DEVICE_PREFIX ==> r.value.plen <= SMALLEST_DEVICE_PREFIX)
              && FirstFreeFrom(r.value, hash as int, base, r.value.plen, claimed)
              && forall p: Plen :: target <= p < r.value.plen ==> !AnyFree(base, p, claimed)
    ensures target <= SMALLEST_DEVICE_PREFIX ==> (r.None? <==> !AnyFree(base, SMALLEST_DEVICE_PREFIX, claimed))
    ensures target > SMALLEST_DEVICE_PREFIX ==> (r.None? <==> !AnyFree(base, target, claimed))
  {
    var prefix := target;
    while true
      invariant target <= prefix
      invariant target <= SMALLEST_DEVICE_PREFIX ==> prefix <= SMALLEST_DEVICE_PREFIX
      invariant target > SMALLEST_DEVICE_PREFIX ==> prefix == target
      invariant forall p: Plen :: target <= p < prefix ==> !AnyFree(base, p, claimed)
      decreases 32 - prefix
    {
      var picked := PickSubnet(hash, claimed, base, prefix);
      if picked.Some? {
        FirstFreeIsFree(picked.value, hash as int, base, prefix, claimed);
        if target <= SMALLEST_DEVICE_PREFIX {
          SmallerSizesStayFree(base, prefix, SMALLEST_DEVICE_PREFIX, claimed);
        }
        return picked;
      }
      var next := BumpSmallerSubnet(prefix);
      if next.None? {
        return None;
      }
      prefix := next.value;
    }
  }

  /** What a caller gets from `FirstFreeFrom`: an aligned block inside the base, disjoint from every claim. */
  lemma FirstFreeIsFree(net: Net, hash: nat, base: Net, p: Plen, claimed: set<Net>)
    requires FirstFreeFrom(net, hash, base, p, claimed)
    ensures net.plen == p && Network(net) == net.addr && Contains(base, net)
    ensures Free(net, claimed) && AnyFree(base, p, claimed)
  {
    SlotCount(base, p);
    var offset: nat :| FirstFreeAt(net, hash, base, p, claimed, offset);
    SlotShape(base, p, Probed(hash, NumSlots(base, p), offset));
  }
}
