/** What growth costs over whole runs: the amortised bounds for growing, for pushing and for
    unshifting, and what is not amortised. */
module GrowthCost {
  import opened Scalars
  import opened Growth
  import opened ArraySpec

  /** Block sizes that av_extend asks for: 16 times a power of two. */
  predicate IsBlock(x: nat) {
    x == MALLOC_OVERHEAD || (x > MALLOC_OVERHEAD && x % 2 == 0 && IsBlock(x / 2))
  }

  lemma {:induction false} BlockMultiple(x: nat)
    requires IsBlock(x)
    ensures x % MALLOC_OVERHEAD == 0
  {
    if x != MALLOC_OVERHEAD {
      BlockMultiple(x / 2);
    }
  }

  /** The rounding loop returns a block size, and the least one that is large enough. */
  lemma {:induction false} RoundBlockLeast(itmp: nat, bytes: nat)
    requires IsBlock(itmp)
    ensures var r := RoundBlock(itmp, bytes);
            IsBlock(r) && (r == itmp || r / 2 - MALLOC_OVERHEAD < bytes)
    decreases bytes + MALLOC_OVERHEAD - itmp
  {
    if itmp - MALLOC_OVERHEAD < bytes {
      var twice := itmp + itmp;
      assert twice / 2 == itmp && twice % 2 == 0;
      assert IsBlock(twice);
      hide IsBlock;
      RoundBlockLeast(twice, bytes);
    }
  }

  lemma {:induction false} BlocksDouble(a: nat, b: nat)
    requires IsBlock(a) && IsBlock(b) && a < b
    ensures 2 * a <= b
  {
    if a != MALLOC_OVERHEAD {
      BlocksDouble(a / 2, b / 2);
    } else {
      BlockMultiple(b);
    }
  }

  /** A capacity that fills a block exactly. */
  predicate NiceCap(cap: nat, ptr: PtrSize) {
    IsBlock(cap * ptr + MALLOC_OVERHEAD)
  }

  lemma NewMaxNice(want: nat, ptr: PtrSize)
    ensures NiceCap(NewMax(want, ptr) + 1, ptr)
  {
    var r := RoundBlock(MALLOC_OVERHEAD, (want + 1) * ptr);
    RoundBlockLeast(MALLOC_OVERHEAD, (want + 1) * ptr);
    BlockMultiple(r);
    hide IsBlock, RoundBlock;
    Exact(r - MALLOC_OVERHEAD, ptr);
  }

  lemma Exact(bytes: nat, ptr: PtrSize)
    requires bytes % MALLOC_OVERHEAD == 0
    ensures bytes / ptr * ptr == bytes
  {
    var n, q := bytes / ptr, bytes / MALLOC_OVERHEAD;
    Quarters(q);
    if ptr == 4 {
      assert n == 4 * q && n * ptr == n * 4;
    } else {
      assert n == 2 * q && n * ptr == n * 8;
    }
  }

  lemma Quarters(q: nat)
    ensures 16 * q / 4 == 4 * q && 16 * q / 8 == 2 * q
  {
  }

  /** Reallocating a block that a former reallocation filled at least doubles it. */
  lemma NewMaxDoubles(cap: nat, want: nat, ptr: PtrSize)
    requires NiceCap(cap, ptr) && want >= cap
    ensures NewMax(want, ptr) + 1 >= 2 * cap
  {
    NewMaxNice(want, ptr);
    BlocksDouble(cap * ptr + MALLOC_OVERHEAD, (NewMax(want, ptr) + 1) * ptr + MALLOC_OVERHEAD);
  }

  // ----- copying in av_extend -----

  /** Slots from the end n of an array up to index k. */
  function Past(n: nat, k: int): nat {
    if k >= n then k + 1 - n else 0
  }

  /** Elements unshifted. */
  function Added(op: Op): nat {
    if op.Unshift? && op.num > 0 then op.num else 0
  }

  /** The slots that an operation asks for beyond the present elements, at either end. */
  function Asked(m: Machine, op: Op): nat {
    var n := |m.w.elems|;
    match op
    case Push(_) => 1
    case Store(key, _) => Past(n, Resolve(n, key))
    case Fetch(key, lval) => if lval then Past(n, Resolve(n, key)) else 0
    case Fill(fill) => Past(n, fill)
    case Extend(key) => Past(n, key)
    case _ => Added(op)
  }

  function AllAsked(m: Machine, ops: seq<Op>, ptr: PtrSize): nat
    requires m.Sane()
  {
    if ops == [] then 0 else
    var init := ops[..|ops| - 1];
    AllAsked(m, init, ptr) + Asked(Run(m, init, ptr).0, ops[|ops| - 1])
  }

  /** The slots of the block up to the end of the window, and all its usable slots. */
  function End(sh: Shape): int {
    sh.off + sh.fill + 1
  }

  function Cap(sh: Shape): int {
    sh.off + sh.max + 1
  }

  /** What is put by for the next copy. A block that a reallocation filled is paid for by the slots
      taken in its upper half; any other block by all of its slots. */
  function CreditFor(end: nat, cap: nat, ptr: PtrSize): nat {
    if !NiceCap(cap, ptr) then 2 * end
    else if 2 * end > cap then 2 * end - cap else 0
  }

  /** The credit depends on where the window ends, not on where it starts. */
  function Credit(sh: Shape, ptr: PtrSize): nat
    requires sh.Sane()
  {
    CreditFor(End(sh), Cap(sh), ptr)
  }

  /** The slots copied, with the credit, have been paid for twice over by slots asked for and by
      elements that the Move in av_unshift has transferred. */
  predicate Balanced(sh: Shape, asked: nat, ptr: PtrSize) {
    && sh.Sane() && sh.copied + Credit(sh, ptr) <= 2 * (asked + sh.moved)
    && (sh.copied > 0 ==> sh.copied < 2 * (asked + sh.moved))
  }

  /** The arithmetic of one copy, of cap slots into newcap. */
  lemma CopyPays(off: nat, fill: int, cap: nat, key: nat, newcap: nat, ptr: PtrSize)
    requires -1 <= fill < key && off + fill + 1 <= cap <= off + key
    requires cap <= newcap && NiceCap(newcap, ptr)
    requires NiceCap(cap, ptr) && off < cap ==> 2 * cap <= newcap
    ensures var paid := CreditFor(off + fill + 1, cap, ptr) + 2 * (key - fill);
            cap + CreditFor(key + 1, newcap, ptr) <= paid && cap < paid
  {
    hide NiceCap;
  }

  /** Without a copy the credit grows by no more than two for each slot, whether the window stays or
      slides to the start, and from nothing when there was no block. */
  lemma NoCopy(off: nat, fill: int, cap: nat, key: nat, newcap: nat, ptr: PtrSize)
    requires -1 <= fill < key
    ensures CreditFor(off + key + 1, cap, ptr) <= CreditFor(off + fill + 1, cap, ptr) + 2 * (key - fill)
    ensures CreditFor(key + 1, cap, ptr) <= CreditFor(off + fill + 1, cap, ptr) + 2 * (key - fill)
    ensures fill == -1 ==> CreditFor(key + 1, newcap, ptr) <= 2 * (key - fill)
  {
    hide NiceCap;
  }

  /** Making index key available pays for its copy, and for the credit once the window ends there. */
  lemma ExtendCost(sh: Shape, key: int, ptr: PtrSize)
    requires sh.Sane() && key > sh.fill
    ensures var e := ExtendShape(sh, key, ptr);
            var paid := sh.copied + Credit(sh, ptr) + 2 * (key - sh.fill);
            && e.copied + Credit(e.(fill := key), ptr) <= paid
            && (e.copied > sh.copied ==> e.copied < paid)
  {
    hide NiceCap, NewMax, CreditFor, ExtendShape;
    var cap := Cap(sh);
    var e := ExtendShape(sh, key, ptr);
    Copies(sh, key, ptr);
    if e.copied == sh.copied {
      NoCopy(sh.off, sh.fill, cap, key, Cap(e), ptr);
    } else {
      CopyPays(sh.off, sh.fill, cap, key, Cap(e), ptr);
    }
  }

  /** av_extend either copies nothing, and keeps or first allocates the block, or copies all of it
      into a block that a rounding fills and that is doubled if the old one was filled like that. */
  lemma Copies(sh: Shape, key: int, ptr: PtrSize)
    requires sh.Sane()
    ensures var e := ExtendShape(sh, key, ptr);
            if e.copied == sh.copied
            then (Cap(e) == Cap(sh) && (e.off == sh.off || e.off == 0)) || (sh.fill == -1 && e.off == 0)
            else
              && e.copied == sh.copied + Cap(sh) && e.off == 0 && Cap(e) >= Cap(sh)
              && Cap(sh) <= sh.off + key && NiceCap(Cap(e), ptr)
              && (NiceCap(Cap(sh), ptr) && sh.off < Cap(sh) ==> 2 * Cap(sh) <= Cap(e))
  {
    hide NiceCap, NewMax;
    var cap := Cap(sh);
    var want := if sh.off != 0 then key + cap - 1 else key + Fifth(sh.max);
    if key > sh.max && (if sh.off != 0 then key > cap - 11 else sh.live) {
      Enlarged(cap, sh.off, key, want, ptr);
    }
  }

  /** Unless the window is used up, a block that a reallocation filled is doubled. */
  lemma Enlarged(cap: nat, off: nat, key: nat, want: nat, ptr: PtrSize)
    requires want >= key >= cap - off && want >= cap - 1 && (off < cap ==> want >= cap)
    ensures var newcap := NewMax(want, ptr) + 1;
            NiceCap(newcap, ptr) && newcap >= cap && (NiceCap(cap, ptr) && off < cap ==> 2 * cap <= newcap)
  {
    hide NewMax, NiceCap;
    NewMaxNice(want, ptr);
    if NiceCap(cap, ptr) && off < cap {
      NewMaxDoubles(cap, want, ptr);
    }
  }

  lemma CreditFalls(sh: Shape, r: Shape, ptr: PtrSize)
    requires sh.Sane() && r.Sane() && End(r) <= End(sh) && (Cap(r) == Cap(sh) || End(r) == 0)
    ensures Credit(r, ptr) <= Credit(sh, ptr)
  {
    hide NiceCap;
  }

  lemma ReserveShape(sh: Shape, num: nat, ptr: PtrSize)
    requires sh.Sane() && sh.off == 0 && num > 0
    ensures var key := sh.fill + num + (if sh.fill > 0 then sh.fill else 0);
            var e, r := ExtendShape(sh, key, ptr), UnshiftShape(sh, num, ptr);
            && End(r) == key + 1 && Cap(r) == Cap(e) && r.copied == e.copied
            && r.moved == sh.moved + sh.fill + 1 && e.off == 0 && e.max >= key
  {
    hide NewMax;
  }

  /** A new reserve is paid for by the elements moved to make room for it. */
  lemma ReservePays(sh: Shape, num: nat, ptr: PtrSize)
    requires sh.Sane() && sh.off == 0 && num > 0
    ensures PaysFor(sh, UnshiftShape(sh, num, ptr), num, ptr)
  {
    hide ExtendShape, UnshiftShape, CreditFor;
    var key := sh.fill + num + (if sh.fill > 0 then sh.fill else 0);
    ReserveShape(sh, num, ptr);
    ExtendCost(sh, key, ptr);
  }

  predicate PaysFor(sh: Shape, r: Shape, num: nat, ptr: PtrSize)
    requires sh.Sane() && r.Sane()
  {
    var paid := sh.copied + Credit(sh, ptr) + 2 * (num + r.moved - sh.moved);
    && r.moved >= sh.moved
    && r.copied + Credit(r, ptr) <= paid && (r.copied > sh.copied ==> r.copied < paid)
  }

  lemma UnshiftPays(sh: Shape, num: nat, ptr: PtrSize)
    requires sh.Sane() && num > 0
    ensures PaysFor(sh, UnshiftShape(sh, num, ptr), num, ptr)
  {
    hide UnshiftShape, CreditFor;
    UnshiftInParts(sh, num, ptr);
    var back := if sh.off > num then num else sh.off;
    var sh1 := sh.(off := sh.off - back, max := sh.max + back, fill := sh.fill + back);
    if num != back {
      ReservePays(sh1, num - back, ptr);
    }
  }

  lemma CopyStep(m: Machine, op: Op, asked: nat, ptr: PtrSize)
    requires m.Sane() && Balanced(m.sh, asked, ptr)
    ensures Balanced(Step(m, op, ptr).0.sh, asked + Asked(m, op), ptr)
  {
    hide NiceCap, ExtendShape, UnshiftShape, Credit;
    if op.Unshift? && op.num > 0 {
      UnshiftPays(m.sh, op.num, ptr);
    } else if Asked(m, op) > 0 {
      GrowStep(m, op, asked, ptr);
    } else {
      KeepStep(m, op, ptr);
    }
  }

  lemma GrowStep(m: Machine, op: Op, asked: nat, ptr: PtrSize)
    requires m.Sane() && Balanced(m.sh, asked, ptr) && !op.Unshift? && Asked(m, op) > 0
    ensures Balanced(Step(m, op, ptr).0.sh, asked + Asked(m, op), ptr)
  {
    hide ExtendShape, CreditFor, AcquireAll, GiveUp, StoreSeq;
    var key := m.sh.fill + Asked(m, op);
    ExtendCost(m.sh, key, ptr);
    var e := ExtendShape(m.sh, key, ptr);
    Moves(m.sh, key, ptr);
    CreditFalls(e.(fill := key), e, ptr);
  }

  lemma Moves(sh: Shape, key: int, ptr: PtrSize)
    requires sh.Sane()
    ensures ExtendShape(sh, key, ptr).moved == sh.moved
    ensures key <= sh.max ==> ExtendShape(sh, key, ptr) == sh
  {
  }

  /** Other operations neither copy nor add to the credit. */
  lemma KeepStep(m: Machine, op: Op, ptr: PtrSize)
    requires m.Sane() && Asked(m, op) == 0
    ensures var r := Step(m, op, ptr).0.sh;
            r.copied == m.sh.copied && r.moved == m.sh.moved && Credit(r, ptr) <= Credit(m.sh, ptr)
  {
    hide CreditFor, UnshiftShape, AcquireAll, GiveUp, TrimUndef;
    CreditFalls(m.sh, Step(m, op, ptr).0.sh, ptr);
  }

  /** Amortised growth: over every run of operations from an empty array, av_extend copies fewer
      than two slots for each slot asked for and each element moved by av_unshift. */
  lemma {:induction false} AmortisedGrowth(m: Machine, ops: seq<Op>, ptr: PtrSize)
    requires m.Sane() && m.sh == EMPTY
    ensures var sh, asked := Run(m, ops, ptr).0.sh, AllAsked(m, ops, ptr);
            Balanced(sh, asked, ptr) && (asked > 0 ==> sh.copied < 2 * (asked + sh.moved))
  {
    if ops != [] {
      var init := ops[..|ops| - 1];
      AmortisedGrowth(m, init, ptr);
      hide Step, Asked, Credit;
      CopyStep(Run(m, init, ptr).0, ops[|ops| - 1], AllAsked(m, init, ptr), ptr);
    }
  }

  // ----- push -----

  /** Pushes, and every operation that asks for no slots: shifts, pops, deletions, fetches and
      stores inside the window, cutting, clearing and undefining. */
  predicate AllPushLike(m: Machine, ops: seq<Op>, ptr: PtrSize)
    requires m.Sane()
  {
    ops == [] ||
    var init, op := ops[..|ops| - 1], ops[|ops| - 1];
    AllPushLike(m, init, ptr) && (op.Push? || Asked(Run(m, init, ptr).0, op) == 0)
  }

  function Pushes(ops: seq<Op>): nat {
    if ops == [] then 0 else Pushes(ops[..|ops| - 1]) + (if ops[|ops| - 1].Push? then 1 else 0)
  }

  lemma {:induction false} OnlyPushes(m: Machine, ops: seq<Op>, ptr: PtrSize)
    requires m.Sane() && AllPushLike(m, ops, ptr)
    ensures AllAsked(m, ops, ptr) == Pushes(ops) && Run(m, ops, ptr).0.sh.moved == m.sh.moved
  {
    if ops != [] {
      var init, op := ops[..|ops| - 1], ops[|ops| - 1];
      OnlyPushes(m, init, ptr);
      if !op.Push? {
        KeepStep(Run(m, init, ptr).0, op, ptr);
      }
    }
  }

  /** Amortised push: over any run from an empty array that appends only by pushing, however it
      removes elements, av_extend copies fewer than two slots for every push. */
  lemma AmortisedPush(m: Machine, ops: seq<Op>, ptr: PtrSize)
    requires m.Sane() && m.sh == EMPTY && AllPushLike(m, ops, ptr) && Pushes(ops) > 0
    ensures Run(m, ops, ptr).0.sh.copied < 2 * Pushes(ops)
  {
    AmortisedGrowth(m, ops, ptr);
    OnlyPushes(m, ops, ptr);
  }

  // ----- queues -----

  /** An array of cap elements, of which the first k have been shifted. */
  function Shifted(cap: nat, k: nat): seq<Op> {
    if k == 0 then [Op.Fill(cap - 1)] else Shifted(cap, k - 1) + [Shift]
  }

  /** A queue of cap - gap elements at the end of its block, then n times one element in and one
      out. */
  function Queue(cap: nat, gap: nat, v: Sv, n: nat): seq<Op> {
    if n == 0 then Shifted(cap, gap) else Queue(cap, gap, v, n - 1) + [Push(v)] + [Shift]
  }

  lemma OneMore(m: Machine, ops: seq<Op>, op: Op, ptr: PtrSize)
    requires m.Sane()
    ensures Run(m, ops + [op], ptr).0 == Step(Run(m, ops, ptr).0, op, ptr).0
  {
    assert (ops + [op])[..|ops|] == ops;
  }

  lemma {:induction false} AfterShifts(m: Machine, cap: nat, k: nat, ptr: PtrSize)
    requires m.Sane() && m.sh == EMPTY && cap >= 4 && k <= cap
    ensures Run(m, Shifted(cap, k), ptr).0.sh == Shape(true, k, cap - 1 - k, cap - 1 - k, 0, 0, 0)
  {
    if k == 0 {
      assert Shifted(cap, 0) == [] + [Op.Fill(cap - 1)];
      OneMore(m, [], Op.Fill(cap - 1), ptr);
    } else {
      AfterShifts(m, cap, k - 1, ptr);
      OneMore(m, Shifted(cap, k - 1), Shift, ptr);
    }
  }

  /** Pushing onto a window at the end of its block slides without reallocating if and only if at
      least eleven slots are free before the window. */
  lemma PushSlidesIff(sh: Shape, ptr: PtrSize)
    requires sh.Sane() && sh.live && sh.fill == sh.max && Cap(sh) > 0
    ensures StoreShape(sh, sh.fill + 1, ptr).copied == sh.copied <==> sh.off >= 11
  {
  }

  /** One element in and one out: the window moves on by a slot, or slides back to the start of its
      block, which is not enlarged. */
  lemma Round(m: Machine, cap: nat, gap: nat, v: Sv, ptr: PtrSize)
    requires m.Sane() && 11 <= gap < cap && m.sh.live && 1 <= m.sh.off <= gap
    requires m.sh.fill == cap - 1 - gap && m.sh.max == cap - 1 - m.sh.off
    ensures var r := Step(Step(m, Push(v), ptr).0, Shift, ptr).0.sh;
            if m.sh.off == gap then r == m.sh.(off := 1, max := cap - 2, slid := m.sh.slid + cap - gap)
            else r == m.sh.(off := m.sh.off + 1, max := m.sh.max - 1)
  {
  }

  /** The queue after it has slid slides times, and has since moved on to slot off. */
  predicate AfterSlides(sh: Shape, cap: nat, gap: nat, slides: nat, off: nat)
    requires gap < cap
  {
    sh == Shape(true, off, cap - 1 - gap, cap - 1 - off, 0, slides * (cap - gap), 0)
  }

  lemma NextRound(m: Machine, cap: nat, gap: nat, v: Sv, slides: nat, off: nat, ptr: PtrSize)
    requires m.Sane() && 11 <= gap < cap && 1 <= off <= gap && AfterSlides(m.sh, cap, gap, slides, off)
    ensures var sh := Step(Step(m, Push(v), ptr).0, Shift, ptr).0.sh;
            if off == gap then AfterSlides(sh, cap, gap, slides + 1, 1)
            else AfterSlides(sh, cap, gap, slides, off + 1)
  {
    Round(m, cap, gap, v, ptr);
    hide Step;
    assert (slides + 1) * (cap - gap) == slides * (cap - gap) + (cap - gap);
  }

  /** The rounds in which a queue slides once for each whole gap, and r more. */
  function RoundsOf(slides: nat, gap: nat, r: nat): nat {
    slides * gap + r
  }

  lemma RoundsBefore(slides: nat, gap: nat, r: nat)
    requires r > 0
    ensures RoundsOf(slides, gap, r) == RoundsOf(slides, gap, r - 1) + 1
    ensures slides > 0 ==> RoundsOf(slides, gap, 1) == RoundsOf(slides - 1, gap, gap) + 1
    ensures RoundsOf(0, gap, 1) == 1
  {
    assert slides > 0 ==> slides * gap == (slides - 1) * gap + gap;
  }

  /** Sliding is not amortised: a queue that keeps its length of cap - gap, with gap of 11 or more,
      never reallocates, but slides all of its elements once in every gap rounds. */
  lemma {:induction false} QueueSlides(m: Machine, cap: nat, gap: nat, v: Sv, slides: nat, r: nat, ptr: PtrSize)
    requires m.Sane() && m.sh == EMPTY && 11 <= gap < cap && 1 <= r <= gap
    ensures var sh := Run(m, Queue(cap, gap, v, RoundsOf(slides, gap, r)), ptr).0.sh;
            AfterSlides(sh, cap, gap, slides + 1, r)
    decreases slides, r
  {
    hide Step, Run, AfterSlides, RoundsOf, Queue;
    RoundsBefore(slides, gap, r);
    if r > 1 {
      QueueSlides(m, cap, gap, v, slides, r - 1, ptr);
      OnceMore(m, cap, gap, v, RoundsOf(slides, gap, r - 1), slides + 1, r - 1, ptr);
    } else if slides > 0 {
      QueueSlides(m, cap, gap, v, slides - 1, gap, ptr);
      OnceMore(m, cap, gap, v, RoundsOf(slides - 1, gap, gap), slides, gap, ptr);
    } else {
      AtFirst(m, cap, gap, v, ptr);
      OnceMore(m, cap, gap, v, 0, 0, gap, ptr);
    }
  }

  lemma AtFirst(m: Machine, cap: nat, gap: nat, v: Sv, ptr: PtrSize)
    requires m.Sane() && m.sh == EMPTY && 11 <= gap < cap
    ensures AfterSlides(Run(m, Queue(cap, gap, v, 0), ptr).0.sh, cap, gap, 0, gap)
  {
    hide Step, Run;
    AfterShifts(m, cap, gap, ptr);
  }

  lemma OnceMore(m: Machine, cap: nat, gap: nat, v: Sv, n: nat, slides: nat, off: nat, ptr: PtrSize)
    requires m.Sane() && 11 <= gap < cap && 1 <= off <= gap
    requires AfterSlides(Run(m, Queue(cap, gap, v, n), ptr).0.sh, cap, gap, slides, off)
    ensures var sh := Run(m, Queue(cap, gap, v, n + 1), ptr).0.sh;
            if off == gap then AfterSlides(sh, cap, gap, slides + 1, 1)
            else AfterSlides(sh, cap, gap, slides, off + 1)
  {
    hide Step, Run, AfterSlides;
    var before := Queue(cap, gap, v, n);
    OneMore(m, before, Push(v), ptr);
    OneMore(m, before + [Push(v)], Shift, ptr);
    NextRound(Run(m, before, ptr).0, cap, gap, v, slides, off, ptr);
  }

  // ----- unshift -----

  /** Operations that leave the reserve before the window alone, unless they empty the array. */
  predicate UnshiftLike(m: Machine, op: Op) {
    match op
    case Unshift(_) | Shift | Pop | Clear | Undefine | Delete(_, _) | Exists(_) => true
    case Store(key, _) => Resolve(|m.w.elems|, key) < |m.w.elems|
    case Fetch(key, lval) => !lval || Resolve(|m.w.elems|, key) < |m.w.elems|
    case Fill(fill) => fill < |m.w.elems|
    case _ => false
  }

  predicate AllUnshiftLike(m: Machine, ops: seq<Op>, ptr: PtrSize)
    requires m.Sane()
  {
    ops == [] ||
    var init := ops[..|ops| - 1];
    AllUnshiftLike(m, init, ptr) && UnshiftLike(Run(m, init, ptr).0, ops[|ops| - 1])
  }

  function Unshifted(ops: seq<Op>): nat {
    if ops == [] then 0 else Unshifted(ops[..|ops| - 1]) + Added(ops[|ops| - 1])
  }

  /** Elements that the reserve before the window does not cover. */
  function Uncovered(sh: Shape): nat {
    if sh.fill + 1 > sh.off then sh.fill + 1 - sh.off else 0
  }

  predicate UnshiftPotential(sh: Shape, added: nat) {
    && sh.Sane()
    && (added == 0 ==> sh.moved == 0 && sh.off == 0 && sh.fill == -1)
    && (added > 0 ==> sh.moved + Uncovered(sh) < 2 * added)
  }

  lemma UnshiftCost(sh: Shape, num: nat, ptr: PtrSize)
    requires sh.Sane() && num > 0
    ensures var r := UnshiftShape(sh, num, ptr);
            && r.moved + Uncovered(r) <= sh.moved + Uncovered(sh) + 2 * num
            && (sh.off == 0 && sh.fill == -1 ==> r.moved + Uncovered(r) < sh.moved + 2 * num)
  {
  }

  lemma UnshiftStep(m: Machine, op: Op, added: nat, ptr: PtrSize)
    requires m.Sane() && UnshiftPotential(m.sh, added) && UnshiftLike(m, op)
    ensures UnshiftPotential(Step(m, op, ptr).0.sh, added + Added(op))
  {
    if op.Unshift? && op.num > 0 {
      UnshiftCost(m.sh, op.num, ptr);
    }
  }

  /** Amortised unshift: over any run from an empty array that grows only by unshifting, the Move
      in av_unshift transfers fewer than two slots for every element unshifted. */
  lemma {:induction false} AmortisedUnshift(m: Machine, ops: seq<Op>, ptr: PtrSize)
    requires m.Sane() && m.sh == EMPTY && AllUnshiftLike(m, ops, ptr)
    ensures var sh := Run(m, ops, ptr).0.sh;
            UnshiftPotential(sh, Unshifted(ops)) && (Unshifted(ops) > 0 ==> sh.moved < 2 * Unshifted(ops))
  {
    if ops != [] {
      var init := ops[..|ops| - 1];
      AmortisedUnshift(m, init, ptr);
      UnshiftStep(Run(m, init, ptr).0, ops[|ops| - 1], Unshifted(init), ptr);
    }
  }
}
