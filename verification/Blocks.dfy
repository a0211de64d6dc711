/** Entering and leaving blocks. A block records where the stacks were as offsets, so that what it
    restores is right even if a stack has moved in the meantime. */
module Blocks {
  import opened Scalars
  import opened ArraySpec
  import opened Memory
  import opened PerlArray

  /** struct block, without the part that depends on the kind of context. */
  datatype Block = Block(kind: nat, oldsp: int, oldcop: nat, oldmarksp: int, oldscopesp: int,
                         oldretsp: int, oldpm: nat, gimme: nat)

  /** Interpreter state that a block saves and restores. */
  datatype Saved = Saved(cop: nat, marks: int, scope: int, ret: int)

  class Context {
    const interp: Interp
    var cxs: seq<Block>   // cxstack
    var cxix: int         // cxstack_ix
    var cxmax: int        // cxstack_max
    var markBase: Ptr     // PL_markstack
    var markPtr: Ptr      // PL_markstack_ptr
    var scopeIx: int      // PL_scopestack_ix
    var retIx: int        // PL_retstack_ix
    var curcop: nat
    var curpm: nat
    var gimme: nat

    constructor (interp: Interp, cxitems: nat)
      requires cxitems > 2
      requires interp.StackOk() && interp.curstack.Bounded() && interp.curstack.flag == Plain
      requires 0 <= interp.stackSp.index <= interp.curstack.max
      ensures Valid() && this.interp == interp && Live() == []
    {
      this.interp := interp;
      cxs := seq(cxitems, _ => Block(0, 0, 0, 0, 0, 0, 0, 0));
      cxix, cxmax := -1, cxitems - 1;
      markBase, markPtr, scopeIx, retIx := Ptr(0, 0), Ptr(0, 0), 0, 0;
      curcop, curpm, gimme := 0, 0, 0;
    }

    ghost predicate Valid()
      reads this, interp, interp.curstack
    {
      && interp.StackOk() && interp.curstack.Bounded() && interp.curstack.flag == Plain
      && 0 <= interp.stackSp.index <= interp.curstack.max
      && |cxs| == cxmax + 1 && -1 <= cxix <= cxmax && cxmax >= 2
      && markPtr.block == markBase.block
    }

    /** The blocks that have been entered and not left. */
    ghost function Live(): seq<Block>
      reads this
      requires -1 <= cxix < |cxs|
    {
      cxs[..cxix + 1]
    }

    function State(): Saved
      reads this
    {
      Saved(curcop, markPtr.index - markBase.index, scopeIx, retIx)
    }

    /** CXINC: the next context slot, after growing the context stack by half if it is full. */
    method NextSlot()
      requires Valid()
      modifies this`cxs, this`cxix, this`cxmax
      ensures Valid() && cxix == old(cxix) + 1 && cxs[..cxix] == old(Live())
      ensures cxmax == old(if cxix < cxmax then cxmax else cxmax * 3 / 2)
    {
      if cxix < cxmax {
        cxix := cxix + 1;
      } else {
        cxmax := cxmax * 3 / 2;
        cxs := cxs + seq(cxmax + 1 - |cxs|, _ => Block(0, 0, 0, 0, 0, 0, 0, 0));
        cxix := cxix + 1;
      }
    }

    /** PUSHBLOCK. */
    method PushBlock(kind: nat, sp: Ptr)
      requires Valid() && sp.block == interp.stackBase.block
      modifies this`cxs, this`cxix, this`cxmax
      ensures Valid() && |Live()| > 0 && Live()[..|Live()| - 1] == old(Live())
      ensures var b := Live()[|Live()| - 1];
              && b.kind == kind && b.oldsp == sp.index && b.oldpm == curpm && b.gimme == gimme
              && Saved(b.oldcop, b.oldmarksp, b.oldscopesp, b.oldretsp) == State()
    {
      NextSlot();
      cxs := cxs[cxix := Block(kind, sp.index - interp.stackBase.index, curcop,
                               markPtr.index - markBase.index, scopeIx, retIx, curpm, gimme)];
    }

    /** POPBLOCK. */
    method PopBlock() returns (newsp: Ptr, pm: nat)
      requires Valid() && cxix >= 0
      modifies this`cxix, this`curcop, this`markPtr, this`scopeIx, this`retIx, this`gimme
      ensures Valid() && Live() == old(Live()[..|Live()| - 1])
      ensures var b := old(Live()[|Live()| - 1]);
              && newsp == Ptr(interp.curstack.block, b.oldsp) && pm == b.oldpm && gimme == b.gimme
              && State() == Saved(b.oldcop, b.oldmarksp, b.oldscopesp, b.oldretsp)
    {
      var b := cxs[cxix];
      cxix := cxix - 1;
      newsp := Ptr(interp.stackBase.block, interp.stackBase.index + b.oldsp);
      curcop := b.oldcop;
      markPtr := Ptr(markBase.block, markBase.index + b.oldmarksp);
      scopeIx := b.oldscopesp;
      retIx := b.oldretsp;
      pm := b.oldpm;
      gimme := b.gimme;
    }

    /** TOPBLOCK: as POPBLOCK, but the block stays entered and the stack pointer is set. */
    method TopBlock()
      requires Valid() && cxix >= 0 && 0 <= Live()[cxix].oldsp <= interp.curstack.max
      modifies this`markPtr, this`scopeIx, this`retIx, this`curpm, interp`stackSp
      ensures Valid()
      ensures var b := Live()[cxix];
              && interp.stackSp == Ptr(interp.curstack.block, b.oldsp) && curpm == b.oldpm
              && State() == Saved(curcop, b.oldmarksp, b.oldscopesp, b.oldretsp)
    {
      var b := cxs[cxix];
      interp.stackSp := Ptr(interp.stackBase.block, interp.stackBase.index + b.oldsp);
      markPtr := Ptr(markBase.block, markBase.index + b.oldmarksp);
      scopeIx := b.oldscopesp;
      retIx := b.oldretsp;
      curpm := b.oldpm;
    }

    /** XPUSHs: the stack is extended, and perhaps moved, when there is no room for one more. */
    method XPush(sv: Sv)
      requires Valid()
      modifies interp.curstack, interp`heap, interp`stackBase, interp`stackSp, interp`stackMax
      ensures Valid() && interp.curstack == old(interp.curstack)
      ensures interp.stackSp.index == old(interp.stackSp.index) + 1
      ensures interp.curstack.mem[..interp.stackSp.index + 1] ==
              old(interp.curstack.mem[..interp.stackSp.index + 1]) + [sv]
    {
      hide Window, Clean;
      EnsureRoom();
      var stack := interp.curstack;
      var sp := interp.stackSp.index + 1;
      stack.mem := stack.mem[sp := sv];
      interp.stackSp := Ptr(stack.block, sp);
    }

    /** EXTEND(sp, 1) with stack_grow. */
    method EnsureRoom()
      requires Valid()
      modifies interp.curstack, interp`heap, interp`stackBase, interp`stackSp, interp`stackMax
      ensures Valid() && interp.curstack == old(interp.curstack)
      ensures interp.stackSp.index == old(interp.stackSp.index) < interp.curstack.max
      ensures interp.curstack.mem[..interp.stackSp.index + 1] ==
              old(interp.curstack.mem[..interp.stackSp.index + 1])
    {
      hide Window, Clean;
      if interp.stackMax.index - interp.stackSp.index < 1 {
        ghost var keep, all := interp.stackSp.index + 1, interp.curstack.mem[..interp.curstack.max + 1];
        assert all[..keep] == interp.curstack.mem[..keep];
        interp.curstack.Extend(interp, interp.stackSp.index - interp.stackBase.index + 1 + 128);
        assert interp.curstack.mem[..keep] == all[..keep];
      }
    }
  }

  /** What may happen inside a block. */
  datatype Act =
    | PushValue(sv: Sv)
    | PopValue
    | SetMark(block: nat, base: int, offset: int)  // the mark stack moves too
    | SetScope(ix: int)
    | SetReturn(ix: int)
    | SetCop(cop: nat)
    | SetPm(pm: nat)
    | SetGimme(gimme: nat)
    | Inside(kind: nat, body: seq<Act>)

  /** Every well-nested run of blocks, with the stacks moving as they grow: when the block is left,
      the stack pointer that it yields is in the present block of the stack, at the element it was
      at on entry; the elements up to there, the marks, the scopes, the returns, the context wanted
      and the enclosing blocks are as they were, and the pattern match of the entry is handed back. */
  method Bracket(c: Context, kind: nat, body: seq<Act>) returns (newsp: Ptr, pm: nat)
    requires c.Valid()
    modifies c, c.interp, c.interp.curstack
    ensures c.Valid() && c.interp.curstack == old(c.interp.curstack)
    ensures newsp == Ptr(c.interp.curstack.block, old(c.interp.stackSp.index))
    ensures newsp.index <= c.interp.stackSp.index
    ensures c.interp.curstack.mem[..newsp.index + 1] == old(c.interp.curstack.mem[..c.interp.stackSp.index + 1])
    ensures c.State() == old(c.State()) && c.Live() == old(c.Live())
    ensures c.gimme == old(c.gimme) && pm == old(c.curpm)
    decreases body, 1
  {
    hide Window, Clean, Rep;
    var sp := c.interp.stackSp;
    ghost var outer := c.Live();
    c.PushBlock(kind, sp);
    assert c.Live()[..|outer|] == outer;
    PerformAll(c, body, sp.index);
    newsp, pm := c.PopBlock();
  }

  /** Code inside a block never pops below the stack position that the block recorded. */
  method PerformAll(c: Context, acts: seq<Act>, floor: nat)
    requires c.Valid() && floor <= c.interp.stackSp.index
    modifies c, c.interp, c.interp.curstack
    ensures c.Valid() && c.interp.curstack == old(c.interp.curstack) && floor <= c.interp.stackSp.index
    ensures c.interp.curstack.mem[..floor + 1] == old(c.interp.curstack.mem[..floor + 1])
    ensures c.Live() == old(c.Live())
    decreases acts, 0
  {
    hide Window, Clean, Rep;
    if acts != [] {
      Perform(c, acts[0], floor);
      PerformAll(c, acts[1..], floor);
    }
  }

  method Perform(c: Context, act: Act, floor: nat)
    requires c.Valid() && floor <= c.interp.stackSp.index
    modifies c, c.interp, c.interp.curstack
    ensures c.Valid() && c.interp.curstack == old(c.interp.curstack) && floor <= c.interp.stackSp.index
    ensures c.interp.curstack.mem[..floor + 1] == old(c.interp.curstack.mem[..floor + 1])
    ensures c.Live() == old(c.Live())
    decreases act, 2
  {
    hide Window, Clean;
    match act
    case PushValue(sv) =>
      ghost var m := c.interp.curstack.mem[..c.interp.stackSp.index + 1];
      c.XPush(sv);
      assert m[..floor + 1] == (m + [sv])[..floor + 1];
    case PopValue =>
      if c.interp.stackSp.index > floor {
        c.interp.stackSp := Ptr(c.interp.stackSp.block, c.interp.stackSp.index - 1);
      }
    case SetMark(block, base, offset) =>
      c.markBase := Ptr(block, base);
      c.markPtr := Ptr(block, base + offset);
    case SetScope(ix) => c.scopeIx := ix;
    case SetReturn(ix) => c.retIx := ix;
    case SetCop(cop) => c.curcop := cop;
    case SetPm(pm) => c.curpm := pm;
    case SetGimme(gimme) => c.gimme := gimme;
    case Inside(kind, body) =>
      var sp := c.interp.stackSp.index;
      var newsp, pm := Bracket(c, kind, body);
      assert c.interp.curstack.mem[..sp + 1][..floor + 1] == c.interp.curstack.mem[..floor + 1];
      c.interp.stackSp := newsp;
      c.curpm := pm;
  }
}
