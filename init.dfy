/**
 * Initialisation of the MCB: _kinit (heap.c:238-248).
 *
 * After _kinit the first entry records one free block of max_size bytes (the
 * whole arena) and every other entry is 0. The clearing loop at heap.c:244
 * starts at mcb_top + 4, the third entry, so the second entry (mcb_top + 2)
 * keeps whatever it held; FromThirdEntry models that, FromSecondEntry the
 * loop started at mcb_top + 2.
 */
module Init {
  import opened Layout
  import opened Entry
  import opened BuddyTree

  datatype InitRule =
    | FromThirdEntry   // heap.c:244: the loop starts at mcb_top + 4
    | FromSecondEntry  // the loop starts at mcb_top + 2

  /** The first MCB address the clearing loop writes. */
  function FirstCleared(rule: InitRule): (a: int)
    ensures IsMcbAddr(a) && McbTop < a
  {
    match rule
    case FromThirdEntry => McbTop + 2 * McbEntSz
    case FromSecondEntry => McbTop + McbEntSz
  }

  /** The MCB after _kinit: one free block of max_size at the first entry, and the cleared entries 0. */
  function InitImage(rule: InitRule, t: seq<int>): (u: seq<int>)
    requires |t| == McbTotal
    ensures |u| == McbTotal && u[0] == MaxSize
    ensures forall i :: 1 <= i < McbTotal && McbAddrOf(i) >= FirstCleared(rule) ==> u[i] == 0
    ensures forall i :: 1 <= i < McbTotal && McbAddrOf(i) < FirstCleared(rule) ==> u[i] == t[i]
  {
    seq(McbTotal, i requires 0 <= i < McbTotal =>
      if i == 0 then MaxSize else if McbAddrOf(i) < FirstCleared(rule) then t[i] else 0)
  }

  /** The MCB of a freshly initialised arena: the whole arena is one free block. */
  function InitTable(): (t: seq<int>)
    ensures |t| == McbTotal && t[0] == MaxSize
    ensures forall i :: 1 <= i < McbTotal ==> t[i] == 0
  {
    seq(McbTotal, i => if i == 0 then MaxSize else 0)
  }

  /** The fresh MCB is a well-formed buddy tree, and clearing from the second entry yields it whatever came before. */
  lemma InitTableWellFormed(t: seq<int>)
    requires |t| == McbTotal
    ensures WellFormed(InitTable())
    ensures InitImage(FromSecondEntry, t) == InitTable()
  {
    assert Leaf(InitTable(), 0, McbTotal);
  }

  /**
   * _kinit leaves a well-formed MCB exactly when it clears the second entry
   * or that entry already held 0: a stale second entry sits inside the
   * max_size block recorded at the first.
   */
  lemma InitWellFormed(rule: InitRule, t: seq<int>)
    requires |t| == McbTotal
    ensures WellFormed(InitImage(rule, t)) <==> rule == FromSecondEntry || t[1] == 0
  {
    var u := InitImage(rule, t);
    if rule == FromSecondEntry || t[1] == 0 {
      assert u == InitTable();
      InitTableWellFormed(t);
    } else if WellFormed(u) {
      assert u[1] != 0;
      assert !Leaf(u, 0, McbTotal);
      TreeHead(u, 0, McbTotal / 2);
      assert false;
    }
  }
}
