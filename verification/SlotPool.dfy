/**
 The fixed pool of core/common/5thdbuffer.h: an array of slots whose free ones are
 linked by index. The links start as a ring and have no end mark; only the count of
 used slots says how far the chain may be followed.
 */
module SlotPool {
  import opened Prelude

  datatype ReleaseResult = Released | NullOnRelease | SlotNotInRange | SlotNotInUse

  /** The free slots as a stack: a get takes the top, a release puts its slot on top. */
  function AfterGet(free: seq<nat>): seq<nat> {
    if free == [] then free else free[1..]
  }

  function AfterRelease(free: seq<nat>, slot: nat): seq<nat> {
    [slot] + free
  }

  ghost predicate Closed(next: seq<nat>) {
    forall i :: 0 <= i < |next| ==> next[i] < |next|
  }

  /** The slots met on following the links from cur for n steps. */
  ghost function Walk(next: seq<nat>, cur: nat, n: nat): (w: seq<nat>)
    requires Closed(next) && (n > 0 ==> cur < |next|)
    ensures |w| == n
    ensures forall i :: 0 <= i < n ==> w[i] < |next|
    decreases n
  {
    if n == 0 then [] else [cur] + Walk(next, next[cur], n - 1)
  }

  ghost function Range(from: nat, to: nat): seq<nat>
    requires from <= to
  {
    seq(to - from, i requires 0 <= i => from + i)
  }

  /** Relinking a slot that is not on the walk does not change the walk. */
  lemma {:induction false} WalkFrame(next: seq<nat>, cur: nat, n: nat, r: nat, v: nat)
    requires Closed(next) && (n > 0 ==> cur < |next|)
    requires r < |next| && v < |next| && r !in Walk(next, cur, n)
    ensures Closed(next[r := v]) && Walk(next[r := v], cur, n) == Walk(next, cur, n)
    decreases n
  {
    if n > 0 {
      var w := Walk(next, cur, n);
      assert w[0] == cur;
      assert w[1..] == Walk(next, next[cur], n - 1);
      WalkFrame(next, next[cur], n - 1, r, v);
    }
  }

  /** The successor in the initial ring of n slots. */
  function RingNext(i: nat, n: nat): (r: nat)
    requires i < n
    ensures r == if i + 1 < n then i + 1 else 0
  {
    (i + 1) % n
  }

  /** In the initial ring, a walk from k that stops in time counts upwards. */
  lemma {:induction false} WalkRing(next: seq<nat>, k: nat)
    requires forall i :: 0 <= i < |next| ==> next[i] == RingNext(i, |next|)
    requires k <= |next| && Closed(next)
    ensures Walk(next, k, |next| - k) == Range(k, |next|)
    decreases |next| - k
  {
    if k < |next| {
      assert k + 1 < |next| ==> next[k] == k + 1;
      WalkRing(next, k + 1);
      assert Range(k, |next|) == [k] + Range(k + 1, |next|);
    }
  }

  /** Finding a slot's number from its address: the two directions of the pointer arithmetic. */
  lemma IndexOfAddress(i: nat, size: nat, stride: nat)
    requires i < size && stride > 0
    ensures 0 <= i * stride < size * stride
    ensures (i * stride) / stride == i
  {
    assert i * stride + stride == (i + 1) * stride;
    MulLe(i + 1, size, stride);
    QuotientIsUnique(i * stride, stride, i, 0);
  }

  class SlotPool {
    const size: nat
    const base: int          // the address of the first slot
    const stride: nat        // the size of a slot
    const dataOffset: nat    // the offset of the user data in a slot
    const inUse: array<bool>
    const next: array<nat>
    var currentFree: nat
    var usedCount: nat

    ghost predicate Shaped()
      reads this, inUse, next
    {
      && inUse.Length == next.Length == size
      && stride > 0
      && Closed(next[..])
      && (size > 0 ==> currentFree < size)
      && usedCount <= size
    }

    /** Following the links for as many steps as there are free slots. */
    ghost function FreeList(): (free: seq<nat>)
      requires Shaped()
      reads this, inUse, next
      ensures |free| == size - usedCount
    {
      Walk(next[..], currentFree, size - usedCount)
    }

    /** That walk meets every free slot once and no used slot. */
    ghost predicate Valid()
      reads this, inUse, next
    {
      && Shaped()
      && NoRepeats(FreeList())
      && (forall i :: 0 <= i < size ==> (inUse[i] <==> i !in FreeList()))
    }

    function AddressOf(i: nat): int {
      base + i * stride + dataOffset
    }

    predicate InRange(address: int) {
      base <= address - dataOffset < base + size * stride
    }

    ghost predicate IsSlotAddress(address: int) {
      exists i: nat :: i < size && address == AddressOf(i)
    }

    /** The slots lie side by side, so distinct slots have distinct addresses. */
    lemma AddressesAreStrided(i: nat, j: nat, address: int)
      ensures AddressOf(0) == base + dataOffset
      ensures AddressOf(i + 1) == AddressOf(i) + stride
      ensures stride > 0 && i != j ==> AddressOf(i) != AddressOf(j)
      ensures InRange(address) <==> AddressOf(0) <= address < AddressOf(size)
    {
      assert (i + 1) * stride == i * stride + stride;
      if stride > 0 && i != j {
        QuotientIsUnique(i * stride, stride, i, 0);
        QuotientIsUnique(j * stride, stride, j, 0);
      }
    }

    constructor (size: nat, base: int, stride: nat, dataOffset: nat)
      requires dataOffset < stride
      ensures Valid() && fresh(inUse) && fresh(next)
      ensures this.size == size && usedCount == 0
      ensures FreeList() == Range(0, size)
    {
      this.size, this.base, this.stride, this.dataOffset := size, base, stride, dataOffset;
      currentFree, usedCount := 0, 0;
      inUse := new bool[size];
      next := new nat[size];
      new;
      for i := 0 to size
        invariant inUse.Length == next.Length == size && fresh(inUse) && fresh(next)
        invariant currentFree == usedCount == 0
        invariant forall j :: 0 <= j < i ==> !inUse[j] && next[j] == RingNext(j, size)
      {
        inUse[i] := false;
        next[i] := RingNext(i, size);
      }
      assert Closed(next[..]);
      WalkRing(next[..], 0);
      assert FreeList() == Range(0, size);
      forall i | 0 <= i < size ensures i in FreeList() {
        assert FreeList()[i] == i;
      }
    }

    /** Hands out the slot at the head of the free list; fails iff all slots are out. */
    method GetSlot() returns (slot: Option<int>)
      requires Valid()
      modifies this
      modifies inUse
      ensures Valid()
      ensures slot == None <==> old(usedCount) == size
      ensures FreeList() == AfterGet(old(FreeList()))
      ensures slot == None ==> currentFree == old(currentFree) && usedCount == old(usedCount) && inUse[..] == old(inUse[..])
      ensures slot.Some? ==>
                var free := old(FreeList());
                && slot.value == AddressOf(free[0])
                && usedCount == old(usedCount) + 1
                && currentFree == next[free[0]]
                && free[0] == old(currentFree)
                && !old(inUse[free[0]])
                && inUse[..] == old(inUse[..])[free[0] := true]
    {
      if usedCount == size {
        return None;
      }
      ghost var free := FreeList();
      var index := currentFree;
      assert free[0] == index && free[1..] == Walk(next[..], next[index], size - usedCount - 1);
      assert next[..][index] == next[index];
      currentFree := next[index];
      inUse[index] := true;
      usedCount := usedCount + 1;
      assert FreeList() == free[1..];
      forall i | 0 <= i < size ensures inUse[i] <==> i !in FreeList() {
        assert i in free <==> i == index || i in free[1..];
      }
      return Some(AddressOf(index));
    }

    /** The accepted part of a release: slot index goes to the head of the free list. */
    method PutBack(index: nat)
      requires Valid() && index < size && inUse[index]
      modifies this, inUse, next
      ensures Valid()
      ensures FreeList() == AfterRelease(old(FreeList()), index)
      ensures usedCount == old(usedCount) - 1 && currentFree == index
      ensures inUse[..] == old(inUse[..])[index := false]
      ensures next[..] == old(next[..])[index := old(currentFree)]
    {
      ghost var free := FreeList();
      WalkFrame(next[..], currentFree, size - usedCount, index, currentFree);
      UsedIsPositive(inUse[..], free, index);
      inUse[index] := false;
      next[index] := currentFree;
      assert next[..] == old(next[..])[index := currentFree];
      currentFree := index;
      usedCount := usedCount - 1;
      assert FreeList() == [index] + free;
    }

    /**
     Gives a slot back by the address of its data. A rejected release changes nothing;
     an accepted one puts that very slot at the head of the free list.
     */
    method ReleaseSlot(slotPtr: Option<int>) returns (result: ReleaseResult, slotPtr': Option<int>)
      requires Valid()
      requires slotPtr.Some? && InRange(slotPtr.value) ==> IsSlotAddress(slotPtr.value)
      modifies this, inUse, next
      ensures Valid()
      ensures result == NullOnRelease <==> slotPtr == None
      ensures result == SlotNotInRange <==> slotPtr.Some? && !InRange(slotPtr.value)
      ensures forall i: nat :: i < size && slotPtr == Some(AddressOf(i)) ==>
                if old(inUse[i]) then
                  && result == Released && slotPtr' == None
                  && FreeList() == AfterRelease(old(FreeList()), i)
                  && usedCount == old(usedCount) - 1
                  && currentFree == i
                  && inUse[..] == old(inUse[..])[i := false]
                  && next[..] == old(next[..])[i := old(currentFree)]
                else result == SlotNotInUse
      ensures result != Released ==>
                && slotPtr' == slotPtr && unchanged(this) && inUse[..] == old(inUse[..]) && next[..] == old(next[..])
                && FreeList() == old(FreeList())
    {
      if slotPtr == None {
        return NullOnRelease, slotPtr;
      }
      var offset := slotPtr.value - dataOffset - base;
      if offset < 0 || offset >= size * stride {
        forall i: nat | i < size ensures slotPtr.value != AddressOf(i) {
          IndexOfAddress(i, size, stride);
        }
        return SlotNotInRange, slotPtr;
      }
      ghost var k: nat :| k < size && slotPtr.value == AddressOf(k);
      IndexOfAddress(k, size, stride);
      var index := offset / stride;
      forall i: nat | i < size && slotPtr.value == AddressOf(i) ensures i == k {
        IndexOfAddress(i, size, stride);
      }
      if !inUse[index] {
        return SlotNotInUse, slotPtr;
      }
      PutBack(index);
      return Released, None;
    }

    method IsFull() returns (full: bool)
      requires Valid()
      ensures full <==> FreeList() == []
    {
      full := usedCount == size;
    }

    method Size() returns (used: nat)
      requires Valid()
      ensures used == size - |FreeList()|
    {
      used := usedCount;
    }
  }

  /** A list of distinct numbers below n that misses one of them is shorter than n. */
  lemma UsedIsPositive(inUse: seq<bool>, free: seq<nat>, k: nat)
    requires NoRepeats(free) && (forall i :: 0 <= i < |free| ==> free[i] < |inUse|)
    requires k < |inUse| && k !in free
    ensures |free| < |inUse|
  {
    BelowSize(|inUse|);
    DistinctSize(free, Below(|inUse|) - {k});
  }

  ghost function Below(n: nat): set<nat> {
    if n == 0 then {} else Below(n - 1) + {n - 1}
  }

  lemma {:induction false} BelowSize(n: nat)
    ensures |Below(n)| == n
    ensures forall i: nat :: i in Below(n) <==> i < n
  {
    if n > 0 { BelowSize(n - 1); }
  }

  lemma {:induction false} DistinctSize(s: seq<nat>, bound: set<nat>)
    requires NoRepeats(s) && forall i :: 0 <= i < |s| ==> s[i] in bound
    ensures |s| <= |bound|
  {
    if s != [] {
      DistinctSize(s[1..], bound - {s[0]});
    }
  }
}
