/** How large the blocks are and where the window lies in them, with the numbers of the source
    written out. */
module GrowthLaws {
  import opened Growth
  import opened GrowthCost
  import opened ArraySpec
  import opened Bits

  lemma {:induction false} BlockIsPower(x: nat) returns (k: nat)
    requires IsBlock(x)
    ensures x == 16 * Pow2(k)
  {
    if x == 16 {
      k := 0;
    } else {
      k := BlockIsPower(x / 2);
      k := k + 1;
    }
  }

  /** A block that av_extend asks for, with 16 bytes of overhead, has 16 bytes times a power of two,
      is filled with slots exactly, and would be too small for want + 1 slots at half that size. */
  lemma NewMaxIs(want: nat, ptr: PtrSize) returns (k: nat)
    ensures var slots := NewMax(want, ptr) + 1;
            && slots > want && slots * ptr + 16 == 16 * Pow2(k)
            && (k > 0 ==> 16 * Pow2(k - 1) - 16 < (want + 1) * ptr)
  {
    var r := RoundBlock(16, (want + 1) * ptr);
    RoundBlockLeast(16, (want + 1) * ptr);
    BlockMultiple(r);
    Exact(r - 16, ptr);
    k := BlockIsPower(r);
    hide IsBlock, RoundBlock;
    assert k > 0 ==> r / 2 == 16 * Pow2(k - 1);
  }

  /** What extending does, branch by branch: nothing when the index is there; the first block; a block
      with a fifth of the old size more than is needed; or a slide, and a block of the index and the
      old size together unless ten slots lie behind the index. */
  lemma ExtendIs(sh: Shape, key: int, ptr: PtrSize)
    requires sh.Sane()
    ensures var e, end := ExtendShape(sh, key, ptr), sh.off + sh.max;
            if key <= sh.max then e == sh
            else if sh.off > 0 then
              && e.off == 0 && e.fill == sh.fill && e.live == sh.live && e.slid == sh.slid + sh.fill + 1
              && if key <= end - 10 then e.max == end && e.copied == sh.copied
                 else e.max == NewMax(key + end, ptr) && e.copied == sh.copied + end + 1
            else if sh.live then
              && e.off == 0 && e.fill == sh.fill && e.live && e.slid == sh.slid
              && e.max == NewMax(key + (if sh.max > 0 then sh.max / 5 else 0), ptr)
              && e.copied == sh.copied + sh.max + 1
            else
              && e.live && e.off == 0 && e.fill == sh.fill && e.max == (if key > 3 then key else 3)
              && e.copied == sh.copied && e.slid == sh.slid
  {
    hide NewMax;
  }

  /** Unshifting more than the slots before the window leaves a reserve as large as the last index
      was, and moves every element; fewer are taken from those slots. */
  lemma UnshiftIs(sh: Shape, num: nat, ptr: PtrSize)
    requires sh.Sane()
    ensures var r, last := UnshiftShape(sh, num, ptr), sh.fill + sh.off;
            && r.fill == sh.fill + num
            && if num <= sh.off then r == sh.(off := sh.off - num, max := sh.max + num, fill := sh.fill + num)
               else
                 && r.off == (if last > 0 then last else 0) && r.moved == sh.moved + last + 1
                 && r.off + r.max >= sh.off + sh.max
  {
    hide NewMax;
  }

  /** Where the other operations leave the window: popping and cutting only lower the fill, shifting
      moves the start, clearing returns to the start of the block unless none of it is left, and
      undefining gives the block up. */
  lemma PlaceIs(m: Machine, ptr: PtrSize)
    requires m.Sane()
    ensures var sh, n := m.sh, |m.w.elems|;
            && Step(m, Pop, ptr).0.sh == sh.(fill := if n == 0 then -1 else n - 2)
            && (n > 0 ==> Step(m, Shift, ptr).0.sh == sh.(off := sh.off + 1, max := sh.max - 1, fill := n - 2))
            && Step(m, Clear, ptr).0.sh == (if sh.max < 0 then sh else sh.(off := 0, max := sh.max + sh.off, fill := -1))
            && Step(m, Undefine, ptr).0.sh == sh.(live := false, off := 0, max := -1, fill := -1)
  {
    hide GiveUp;
  }

  /** No operation but undefining makes the block smaller, and none but storing, filling, extending
      and unshifting makes it larger. */
  lemma CapacityKept(m: Machine, op: Op, ptr: PtrSize)
    requires m.Sane() && !op.Undefine?
    ensures var r := Step(m, op, ptr).0.sh;
            && r.off + r.max >= m.sh.off + m.sh.max
            && (op.Pop? || op.Shift? || op.Clear? || op.Delete? || op.Exists? ==>
                  r.off + r.max == m.sh.off + m.sh.max && r.live == m.sh.live)
  {
    hide NewMax, TrimUndef, StoreSeq;
  }
}
