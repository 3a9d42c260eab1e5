/**
 * The allocator's state and entry points (heap.c:74-275) as a class over
 * arrays: the heap bytes, the MCB entries and _malloc's run-once flag. Each
 * method follows its C function statement by statement and is proved
 * against the specification functions of Alloc, Dealloc and Init.
 */
module Heap {
  import opened Layout
  import opened Entry
  import opened Pow2
  import opened BuddyTree
  import opened Alloc
  import opened Dealloc
  import opened Init

  /** The address _ralloc hands back for a search outcome: NULL or the heap address of the granted slot. */
  function AddressOf(slot: Option<int>): (addr: int)
    requires slot.Some? ==> 0 <= slot.value < McbTotal
    ensures slot.None? <==> addr == Null
  {
    match slot
    case None => Null
    case Some(s) => HeapAddrOf(s)
  }

  /** Every MCB entry is 0: the MCB before _kinit has run (C globals start zeroed). */
  ghost predicate Blank(t: seq<int>)
  {
    forall i :: 0 <= i < |t| ==> t[i] == 0
  }

  /** On a blank MCB every search fails and changes nothing. */
  lemma BlankSearch(t: seq<int>, size: int)
    requires |t| == McbTotal && Blank(t)
    ensures Search(IfEmpty, t, size, 0, McbTotal) == Placed(t, None)
  {
    TotalIsPow2();
    assert Covered(t, 0, McbTotal);
    SearchKeepsTree(t, size, 0, McbTotal);
  }

  class Arena {
    /** The heap bytes 0x2000_1000 .. 0x2000_4FFF of the simulated SRAM. */
    var heap: array<int>
    /** The MCB: entry i is the two-byte value at mcb_top + 2*i. */
    var mcb: array<int>
    /** _malloc's static `init`: whether _kinit has run. */
    var init: bool

    /**
     * The arena's invariant: the MCB is blank or a well-formed buddy tree,
     * and once _malloc has initialised it, a well-formed tree.
     */
    ghost predicate Valid()
      reads this, heap, mcb
    {
      && heap.Length == MaxSize && mcb.Length == McbTotal && heap != mcb
      && (WellFormed(mcb[..]) || Blank(mcb[..]))
      && (init ==> WellFormed(mcb[..]))
    }

    /** The zero-initialised globals of heap.c. */
    constructor ()
      ensures Valid() && !init && Blank(mcb[..])
      ensures forall i :: 0 <= i < heap.Length ==> heap[i] == 0
      ensures fresh(heap) && fresh(mcb)
    {
      heap := new int[MaxSize](i => 0);
      mcb := new int[McbTotal](i => 0);
      init := false;
    }

    /**
     * _ralloc (heap.c:74-123) on the window of MCB entries [left, right]:
     * its effect on the MCB and its result are those of Search. The two
     * cases of heap.c:92-122 are the methods RallocHalves and RallocWhole.
     */
    method Ralloc(rule: MidpointRule, size: int, left: int, right: int, ghost lo: int, ghost n: int) returns (addr: int)
      requires mcb.Length == McbTotal && 0 <= lo && lo + n <= McbTotal && IsPow2(n)
      requires left == McbAddrOf(lo) && right == McbAddrOf(lo + n - 1)
      modifies mcb
      ensures mcb[..] == Search(rule, old(mcb[..]), size, lo, n).table
      ensures addr == AddressOf(Search(rule, old(mcb[..]), size, lo, n).slot)
      decreases n, 2
    {
      var entire := right - left + McbEntSz;
      var half := entire / 2;
      var midpoint := left + half;
      var actEntireSize := entire * 16;
      var actHalfSize := half * 16;
      assert Slots(left, right) == n;
      assert entire == 2 * n && half == n && actEntireSize == 32 * n && actHalfSize == 16 * n;
      if size < MinSize || size > MaxSize {
        return Null;
      }
      if size <= actHalfSize {
        ghost var h := Halve(n);
        assert midpoint == McbAddrOf(lo + h);
        addr := RallocHalves(rule, size, left, right, midpoint, actHalfSize, lo, n, h);
      } else {
        addr := RallocWhole(rule, size, left, actEntireSize, lo, n);
      }
    }

    /**
     * heap.c:92-110: the request fits in half the window. Search the left
     * half; if that fails, return what the right half gives. If it succeeds,
     * record the right half as a free block of half the window where the
     * midpoint rule allows it, and return the left half's address.
     */
    method RallocHalves(rule: MidpointRule, size: int, left: int, right: int, midpoint: int, actHalfSize: int,
                        ghost lo: int, ghost n: int, ghost h: int) returns (addr: int)
      requires mcb.Length == McbTotal && 0 <= lo && lo + n <= McbTotal && n == 2 * h && IsPow2(h)
      requires left == McbAddrOf(lo) && right == McbAddrOf(lo + n - 1) && midpoint == McbAddrOf(lo + h)
      requires MinSize <= size <= MaxSize && size <= actHalfSize && actHalfSize == 16 * n
      modifies mcb
      ensures mcb[..] == Search(rule, old(mcb[..]), size, lo, n).table
      ensures addr == AddressOf(Search(rule, old(mcb[..]), size, lo, n).slot)
      decreases n, 1
    {
      ghost var t := mcb[..];
      var returnAddress := Ralloc(rule, size, left, midpoint - McbEntSz, lo, h);
      if returnAddress == Null {
        addr := RallocRightHalf(rule, size, midpoint, right, t, lo, n, h);
      } else {
        addr := KeepLeftHalf(rule, size, midpoint, actHalfSize, returnAddress, t, lo, n, h);
      }
    }

    /** heap.c:106-108: the left half had no room, so the right half's answer is the window's. */
    method RallocRightHalf(rule: MidpointRule, size: int, midpoint: int, right: int,
                           ghost t: seq<int>, ghost lo: int, ghost n: int, ghost h: int) returns (addr: int)
      requires mcb.Length == McbTotal && |t| == McbTotal && 0 <= lo && lo + n <= McbTotal && n == 2 * h && IsPow2(h)
      requires right == McbAddrOf(lo + n - 1) && midpoint == McbAddrOf(lo + h)
      requires MinSize <= size <= MaxSize && size <= 16 * n
      requires Search(rule, t, size, lo, h).slot.None? && mcb[..] == t
      modifies mcb
      ensures mcb[..] == Search(rule, t, size, lo, n).table
      ensures addr == AddressOf(Search(rule, t, size, lo, n).slot)
      decreases n, 0
    {
      DescendRight(rule, t, size, lo, n, h);
      addr := Ralloc(rule, size, midpoint, right, lo + h, h);
    }

    /**
     * heap.c:101-105, 109: the left half granted the request; record the
     * right half where the midpoint rule allows it and return the left
     * half's address.
     */
    method KeepLeftHalf(rule: MidpointRule, size: int, midpoint: int, actHalfSize: int, returnAddress: int,
                        ghost t: seq<int>, ghost lo: int, ghost n: int, ghost h: int) returns (addr: int)
      requires mcb.Length == McbTotal && |t| == McbTotal && 0 <= lo && lo + n <= McbTotal && n == 2 * h && h >= 1
      requires midpoint == McbAddrOf(lo + h) && actHalfSize == 16 * n
      requires MinSize <= size <= MaxSize && size <= 16 * n
      requires mcb[..] == Search(rule, t, size, lo, h).table
      requires returnAddress == AddressOf(Search(rule, t, size, lo, h).slot) && returnAddress != Null
      modifies mcb
      ensures mcb[..] == Search(rule, t, size, lo, n).table
      ensures addr == AddressOf(Search(rule, t, size, lo, n).slot)
    {
      ghost var first := Search(rule, t, size, lo, h);
      assert first.slot.Some?;
      SlotRoundTrip(lo + h);
      DescendLeft(rule, t, size, lo, n, h, first);
      RecordHalf(rule, midpoint, actHalfSize);
      addr := returnAddress;
    }

    /**
     * heap.c:101-105: after a successful descent into the left half, write
     * a free entry of half the window's size at the midpoint, the start of
     * the right half, when the midpoint rule allows it.
     */
    method RecordHalf(rule: MidpointRule, midpoint: int, actHalfSize: int)
      requires mcb.Length == McbTotal && IsMcbAddr(midpoint)
      modifies mcb
      ensures RecordsHalf(rule, old(mcb[SlotOf(midpoint)])) ==> mcb[..] == old(mcb[..])[SlotOf(midpoint) := actHalfSize]
      ensures !RecordsHalf(rule, old(mcb[SlotOf(midpoint)])) ==> mcb[..] == old(mcb[..])
    {
      var midSlot := SlotOf(midpoint);
      if RecordsHalf(rule, mcb[midSlot]) {
        mcb[midSlot] := actHalfSize;
      }
    }

    /**
     * heap.c:111-122: the request needs more than half the window, so the
     * window itself is the block: take it if its entry is free and records
     * at least the window's size.
     */
    method RallocWhole(rule: MidpointRule, size: int, left: int, actEntireSize: int, ghost lo: int, ghost n: int)
      returns (addr: int)
      requires mcb.Length == McbTotal && 0 <= lo && lo + n <= McbTotal && IsPow2(n)
      requires left == McbAddrOf(lo) && actEntireSize == 32 * n
      requires MinSize <= size <= MaxSize && size > 16 * n
      modifies mcb
      ensures mcb[..] == Search(rule, old(mcb[..]), size, lo, n).table
      ensures addr == AddressOf(Search(rule, old(mcb[..]), size, lo, n).slot)
    {
      ghost var t := mcb[..];
      SearchTakes(rule, t, size, lo, n);
      SlotRoundTrip(lo);
      var leftSlot := SlotOf(left);
      if mcb[leftSlot] % 2 == 0 {
        if mcb[leftSlot] >= actEntireSize {
          mcb[leftSlot] := Mark(actEntireSize);
          assert mcb[..] == t[lo := Mark(32 * n)];
          return ShiftedAddress(left);
        }
      } else {
        return Null;
      }
      addr := Null;
    }

    /**
     * _rfree (heap.c:134-193) on the MCB entry at mcbAddr, the entry of slot
     * s: its effect on the MCB is that of RFree, and it returns the MCB
     * address of the block that ends up free. The two buddy cases of
     * heap.c:166-191 are the methods RfreeRightBuddy and RfreeLeftBuddy.
     */
    method Rfree(mcbAddr: int, ghost s: int) returns (r: int)
      requires mcb.Length == McbTotal && 0 <= s < McbTotal && mcbAddr == McbAddrOf(s)
      requires BlockStart(mcb[s], s)
      modifies mcb
      ensures mcb[..] == RFree(old(mcb[..]), s).table
      ensures r == McbAddrOf(RFree(old(mcb[..]), s).slot)
      decreases McbTotal - Span(mcb[s]), 1
    {
      ghost var t := mcb[..];
      ghost var c, k := RoundTerms(t, s);
      SlotRoundTrip(s);
      var slot := SlotOf(mcbAddr);
      var mcbContents := mcb[slot];
      var mcbCurr := 0;
      if mcbContents % 2 == 0 {
        mcbCurr := mcb[slot] / 16;
      } else {
        // heap.c:149 and heap.c:158 test the same flag
        mcbCurr := (mcb[slot] - 1) / 16;
        mcbContents := Unmark(mcbContents);
        mcb[slot] := mcbContents;
      }
      assert mcbContents == c && mcbCurr == 2 * k && mcb[..] == t[s := c];
      var index := (mcbAddr - McbTop) / (mcbContents / 16);
      assert index == (2 * s) / (2 * k);
      Quotients(t, s, c, k, index);
      if index % 2 == 0 {
        r := RfreeRightBuddy(mcbAddr, slot, mcbContents, mcbCurr, index, t, s, k);
      } else {
        r := RfreeLeftBuddy(mcbAddr, slot, mcbContents, mcbCurr, index, t, s, k);
      }
    }

    /**
     * heap.c:168-178: the block at slot s, its flag already cleared, has an
     * even index; its buddy is the block after it, mcbCurr MCB bytes on.
     * If that buddy is free and as large, the two merge and the free goes on
     * from slot s; otherwise the free ends at s.
     */
    method RfreeRightBuddy(mcbAddr: int, slot: int, mcbContents: int, mcbCurr: int, index: int,
                           ghost t: seq<int>, ghost s: int, ghost k: int)
      returns (r: int)
      requires mcb.Length == McbTotal && |t| == McbTotal && 0 <= s < McbTotal && mcbAddr == McbAddrOf(s) && slot == s
      requires BlockStart(t[s], s) && mcbContents == Unmark(t[s]) && mcbContents == 32 * k
      requires mcbCurr == 2 * k && index == s / k && index % 2 == 0 && mcb[..] == t[s := mcbContents]
      modifies mcb
      ensures mcb[..] == RFree(t, s).table
      ensures r == McbAddrOf(RFree(t, s).slot)
      decreases McbTotal - Span(t[s]), 0
    {
      ghost var c := mcbContents;
      ghost var q := index;
      var buddy := mcbAddr + mcbCurr;
      var buddyContents := 0;
      if buddy <= McbBot {
        SlotRoundTrip(s + k);
        buddyContents := mcb[SlotOf(buddy)];
      }
      if buddyContents == mcbContents && buddyContents % 2 == 0 {
        var buddySlot := SlotOf(buddy);
        assert buddySlot == s + k;
        MergePair(buddySlot, slot, mcbContents + buddyContents);
        assert mcb[..] == t[s := c][s + k := 0][s := c + c];
        MergeRight(t, s, c, k, q);
        assert mcb[s] == c + c;
        r := Rfree(mcbAddr, s);
      } else {
        MergeNone(t, s, c, k, q);
        r := mcbAddr;
      }
    }

    /**
     * heap.c:179-190: the block at slot s, its flag already cleared, has an
     * odd index; its buddy is the block before it, mcbCurr MCB bytes back.
     * If that buddy is free and as large, the two merge and the free goes on
     * from the buddy's slot; otherwise the free ends at s.
     */
    method RfreeLeftBuddy(mcbAddr: int, slot: int, mcbContents: int, mcbCurr: int, index: int,
                           ghost t: seq<int>, ghost s: int, ghost k: int)
      returns (r: int)
      requires mcb.Length == McbTotal && |t| == McbTotal && 0 <= s < McbTotal && mcbAddr == McbAddrOf(s) && slot == s
      requires BlockStart(t[s], s) && mcbContents == Unmark(t[s]) && mcbContents == 32 * k
      requires mcbCurr == 2 * k && index == s / k && index % 2 == 1 && mcb[..] == t[s := mcbContents]
      modifies mcb
      ensures mcb[..] == RFree(t, s).table
      ensures r == McbAddrOf(RFree(t, s).slot)
      decreases McbTotal - Span(t[s]), 0
    {
      ghost var c := mcbContents;
      ghost var q := index;
      RightBuddy(t, s, c, k, q);
      SlotRoundTrip(s - k);
      var buddy := mcbAddr - mcbCurr;
      var buddySlot := SlotOf(buddy);
      assert buddySlot == s - k;
      var buddyContents := mcb[buddySlot];
      if buddyContents == mcbContents && buddyContents % 2 == 0 {
        MergePair(slot, buddySlot, buddyContents + mcbContents);
        assert mcb[..] == t[s := c][s := 0][s - k := c + c];
        MergeLeft(t, s, c, k, q);
        assert mcb[s - k] == c + c && buddy == McbAddrOf(s - k);
        r := Rfree(buddy, s - k);
      } else {
        MergeNone(t, s, c, k, q);
        r := mcbAddr;
      }
    }

    /**
     * heap.c:175-176 and heap.c:187-188: merge two buddies by zeroing the
     * entry of the absorbed block and writing the combined size into the
     * entry of the surviving one, in that order.
     */
    method MergePair(absorbed: int, survivor: int, sum: int)
      requires mcb.Length == McbTotal && 0 <= absorbed < McbTotal && 0 <= survivor < McbTotal
      modifies mcb
      ensures mcb[..] == old(mcb[..])[absorbed := 0][survivor := sum]
    {
      mcb[absorbed] := 0;
      mcb[survivor] := sum;
    }

    /**
     * _kalloc (heap.c:202-206): _ralloc over the whole MCB, with the
     * corrected midpoint rule. The arena stays valid.
     */
    method Kalloc(size: int) returns (addr: int)
      requires Valid()
      modifies mcb
      ensures Valid()
      ensures mcb[..] == Search(IfEmpty, old(mcb[..]), size, 0, McbTotal).table
      ensures addr == AddressOf(Search(IfEmpty, old(mcb[..]), size, 0, McbTotal).slot)
    {
      ghost var t := mcb[..];
      TotalIsPow2();
      addr := Ralloc(IfEmpty, size, McbTop, McbBot, 0, McbTotal);
      if WellFormed(t) {
        AllocCorrect(t, size);
      } else {
        BlankSearch(t, size);
      }
    }

    /**
     * _kfree (heap.c:215-230). An address outside [heap_top, heap_bot] is
     * refused with NULL. Otherwise the MCB entry at mcb_top + (ptr -
     * heap_top)/16 is freed by _rfree and ptr is returned. The caller must
     * pass a pointer whose entry is an entry address that starts a block:
     * anything else makes _rfree read half an entry or divide by zero.
     */
    method Kfree(ptr: int) returns (r: int)
      requires Valid()
      requires HeapTop <= ptr <= HeapBot ==>
                 IsMcbAddr(McbAddrOfHeap(ptr)) && mcb[SlotOf(McbAddrOfHeap(ptr))] != 0
      modifies mcb
      ensures Valid()
      ensures !(HeapTop <= ptr <= HeapBot) ==> r == Null && mcb[..] == old(mcb[..])
      ensures HeapTop <= ptr <= HeapBot ==>
                BlockStart(old(mcb[SlotOf(McbAddrOfHeap(ptr))]), SlotOf(McbAddrOfHeap(ptr)))
      ensures HeapTop <= ptr <= HeapBot ==>
                r == ptr && mcb[..] == RFree(old(mcb[..]), SlotOf(McbAddrOfHeap(ptr))).table
      ensures HeapTop <= ptr <= HeapBot ==>
                forall i :: 0 <= i < McbTotal && i != SlotOf(McbAddrOfHeap(ptr)) && Occupied(old(mcb[i])) ==>
                  mcb[i] == old(mcb[i])
    {
      var addr := ptr;
      if addr < HeapTop || addr > HeapBot {
        return Null;
      }
      var mcbAddr := McbAddrOfHeap(addr);
      ghost var t := mcb[..];
      ghost var slot := SlotOf(mcbAddr);
      assert t[slot] != 0;
      assert WellFormed(t);
      RFreeKeepsTree(t, slot);
      RFreeKeepsOccupied(t, slot);
      var freed := Rfree(mcbAddr, slot);
      if freed == 0 {
        assert false;
        r := Null;
      } else {
        r := ptr;
      }
    }

    /**
     * _kinit (heap.c:238-248): zero the heap bytes, record one free block of
     * max_size at the first MCB entry, and clear the entries from
     * FirstCleared(rule) to the end of the MCB. With FromThirdEntry (the loop
     * as written) the MCB is a well-formed tree only if the second entry
     * already held 0.
     */
    method Kinit(rule: InitRule)
      requires heap.Length == MaxSize && mcb.Length == McbTotal && heap != mcb
      modifies heap, mcb
      ensures forall i :: 0 <= i < heap.Length ==> heap[i] == 0
      ensures mcb[..] == InitImage(rule, old(mcb[..]))
      ensures WellFormed(mcb[..]) <==> rule == FromSecondEntry || old(mcb[1]) == 0
    {
      var i := HeapTop;
      while i < HeapEnd
        invariant HeapTop <= i <= HeapEnd
        invariant forall j :: 0 <= j < HeapIndex(i) ==> heap[j] == 0
        modifies heap
      {
        heap[HeapIndex(i)] := 0;
        i := i + 1;
      }
      assert HeapIndex(i) == heap.Length;
      ghost var t := mcb[..];
      mcb[SlotOf(McbTop)] := MaxSize;
      var a := FirstCleared(rule);
      while a < McbEnd
        invariant FirstCleared(rule) <= a <= McbEnd && (a - McbTop) % 2 == 0
        invariant mcb[0] == MaxSize
        invariant forall j :: 1 <= j < McbTotal && McbAddrOf(j) < FirstCleared(rule) ==> mcb[j] == t[j]
        invariant forall j :: 1 <= j < McbTotal && FirstCleared(rule) <= McbAddrOf(j) < a ==> mcb[j] == 0
        invariant forall j :: 1 <= j < McbTotal && a <= McbAddrOf(j) ==> mcb[j] == t[j]
        modifies mcb
      {
        mcb[SlotOf(a)] := 0;
        a := a + McbEntSz;
      }
      assert mcb[..] == InitImage(rule, t);
      InitWellFormed(rule, t);
    }

    /**
     * _malloc (heap.c:258-265): on the first call, set the init flag and run
     * _kinit (here with the corrected clearing loop), then _kalloc. The
     * request is served from the MCB as it was, or from the fresh MCB.
     */
    method Malloc(size: int) returns (addr: int)
      requires Valid()
      modifies this, heap, mcb
      ensures Valid() && init
      ensures heap == old(heap) && mcb == old(mcb)
      ensures var t := if old(init) then old(mcb[..]) else InitTable();
              && mcb[..] == Search(IfEmpty, t, size, 0, McbTotal).table
              && addr == AddressOf(Search(IfEmpty, t, size, 0, McbTotal).slot)
      ensures !old(init) ==> forall i :: 0 <= i < heap.Length ==> heap[i] == 0
      ensures old(init) ==> unchanged(heap)
    {
      if !init {
        init := true;
        Kinit(FromSecondEntry);
        InitTableWellFormed(old(mcb[..]));
      }
      addr := Kalloc(size);
    }

    /** _free (heap.c:275): _kfree. */
    method Free(ptr: int) returns (r: int)
      requires Valid()
      requires HeapTop <= ptr <= HeapBot ==>
                 IsMcbAddr(McbAddrOfHeap(ptr)) && mcb[SlotOf(McbAddrOfHeap(ptr))] != 0
      modifies mcb
      ensures Valid()
      ensures !(HeapTop <= ptr <= HeapBot) ==> r == Null && mcb[..] == old(mcb[..])
      ensures HeapTop <= ptr <= HeapBot ==>
                BlockStart(old(mcb[SlotOf(McbAddrOfHeap(ptr))]), SlotOf(McbAddrOfHeap(ptr)))
      ensures HeapTop <= ptr <= HeapBot ==>
                r == ptr && mcb[..] == RFree(old(mcb[..]), SlotOf(McbAddrOfHeap(ptr))).table
      ensures HeapTop <= ptr <= HeapBot ==>
                forall i :: 0 <= i < McbTotal && i != SlotOf(McbAddrOfHeap(ptr)) && Occupied(old(mcb[i])) ==>
                  mcb[i] == old(mcb[i])
    {
      r := Kfree(ptr);
    }
  }
}
