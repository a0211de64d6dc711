/** The allocation arithmetic of arrays: where the window sits in its block, how far it may grow,
    and how many slots each kind of growth moves. */
module Growth {

  type PtrSize = p: nat | p == 4 || p == 8 witness 4

  const MALLOC_OVERHEAD := 16

  /** The window starts off slots into its block, shows indices 0..fill and may grow to max
      without reallocation. copied, slid and moved count the slots transferred so far by the Copy
      in av_extend, by the Move in av_extend and by the Move in av_unshift. */
  datatype Shape = Shape(live: bool, off: nat, fill: int, max: int,
                         copied: nat, slid: nat, moved: nat)
  {
    predicate Sane() {
      -1 <= fill <= max && (!live ==> off == 0 && max == -1)
    }
  }

  const EMPTY := Shape(false, 0, -1, -1, 0, 0, 0)

  /** C division by five: truncation toward zero. */
  function Fifth(n: int): int {
    if n < 0 then -((-n) / 5) else n / 5
  }

  /** The doubling loop of av_extend. */
  function RoundBlock(itmp: nat, bytes: nat): (r: nat)
    requires itmp >= MALLOC_OVERHEAD
    ensures r >= itmp && r - MALLOC_OVERHEAD >= bytes
    decreases bytes + MALLOC_OVERHEAD - itmp
  {
    if itmp - MALLOC_OVERHEAD < bytes then RoundBlock(itmp + itmp, bytes) else itmp
  }

  /** Both assertions of the source hold here: the new maximum covers the request want. */
  function NewMax(want: nat, ptr: PtrSize): (r: nat)
    ensures r >= want
  {
    var itmp := RoundBlock(MALLOC_OVERHEAD, (want + 1) * ptr) - MALLOC_OVERHEAD;
    itmp / ptr - 1
  }

  method RoundUp(want: nat, ptr: PtrSize) returns (newmax: nat)
    ensures newmax == NewMax(want, ptr)
  {
    var bytes := (want + 1) * ptr;
    var itmp := MALLOC_OVERHEAD;
    while itmp - MALLOC_OVERHEAD < bytes
      invariant itmp >= MALLOC_OVERHEAD
      invariant RoundBlock(itmp, bytes) == RoundBlock(MALLOC_OVERHEAD, bytes)
      decreases bytes + MALLOC_OVERHEAD - itmp
    {
      itmp := itmp + itmp;
    }
    itmp := itmp - MALLOC_OVERHEAD;
    itmp := itmp / ptr;
    assert itmp > want;
    newmax := itmp - 1;
  }

  function Reallocate(sh: Shape, want: nat, ptr: PtrSize): Shape
    requires sh.max >= -1
  {
    sh.(max := NewMax(want, ptr), copied := sh.copied + sh.max + 1)
  }

  function ExtendShape(sh: Shape, key: int, ptr: PtrSize): (r: Shape)
    requires sh.Sane()
    ensures r.Sane() && r.max >= key && r.max + r.off >= sh.max + sh.off && r.fill == sh.fill
    ensures r.off == 0 || r == sh
  {
    if key <= sh.max then sh
    else if sh.off != 0 then
      var slid := sh.(off := 0, max := sh.max + sh.off, slid := sh.slid + sh.fill + 1);
      if key > slid.max - 10 then Reallocate(slid, key + slid.max, ptr) else slid
    else if sh.live then Reallocate(sh, key + Fifth(sh.max), ptr)
    else sh.(live := true, max := if key < 3 then 3 else key)
  }

  function StoreShape(sh: Shape, key: nat, ptr: PtrSize): (r: Shape)
    requires sh.Sane()
    ensures r.Sane()
  {
    var e := ExtendShape(sh, key, ptr);
    e.(fill := if e.fill < key then key else e.fill)
  }

  function ShiftShape(sh: Shape): (r: Shape)
    requires sh.Sane() && sh.fill >= 0
    ensures r.Sane()
  {
    sh.(off := sh.off + 1, max := sh.max - 1, fill := sh.fill - 1)
  }

  function UnshiftShape(sh: Shape, num: nat, ptr: PtrSize): (r: Shape)
    requires sh.Sane()
    ensures r.Sane()
  {
    var back := if sh.off > num then num else sh.off;
    var sh1 := sh.(off := sh.off - back, max := sh.max + back, fill := sh.fill + back);
    if num == back then sh1 else
    var slide := if sh1.fill > 0 then sh1.fill else 0;
    var extra := num - back + slide;
    var e := ExtendShape(sh1, sh1.fill + extra, ptr);
    e.(off := e.off + slide, max := e.max - slide, fill := e.fill + extra - slide,
       moved := e.moved + sh1.fill + 1)
  }

  /** Unshifting first uses up the slots before the window; the rest starts from offset zero. */
  lemma UnshiftInParts(sh: Shape, num: nat, ptr: PtrSize)
    requires sh.Sane()
    ensures var back := if sh.off > num then num else sh.off;
            var sh1 := sh.(off := sh.off - back, max := sh.max + back, fill := sh.fill + back);
            sh1.Sane() && UnshiftShape(sh, num, ptr) == if num == back then sh1 else UnshiftShape(sh1, num - back, ptr)
  {
    hide ExtendShape;
  }

  function ClearShape(sh: Shape): (r: Shape)
    requires sh.Sane()
    ensures r.Sane()
  {
    if sh.max < 0 then sh else sh.(off := 0, max := sh.max + sh.off, fill := -1)
  }
}
