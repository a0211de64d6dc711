/** Leaving a subroutine: what becomes of its argument array. */
module SubExit {
  import opened Scalars
  import opened Growth
  import opened ArraySpec
  import opened ArrayTheorems
  import opened Memory
  import opened PerlArray

  /** The effect of CLEAR_ARGARRAY on the place of the array in memory. */
  function ClearArgShape(sh: Shape): (r: Shape)
    requires sh.Sane()
    ensures r.Sane()
  {
    sh.(max := sh.max + sh.off, off := 0, fill := -1)
  }

  /** The macro has the effect of av_clear, unless shifting has used up the whole block: then
      av_clear returns before it resets the window, and the macro does not. */
  lemma ClearArgIsClear(sh: Shape)
    requires sh.Sane()
    ensures ClearArgShape(sh) == ClearShape(sh) <==> !(sh.max < 0 && sh.off > 0)
  {
  }

  /** One element faked and shifted off is such a case. */
  lemma ClearArgDiffers()
    ensures var sh := ShiftShape(EMPTY.(live := true, fill := 0, max := 0));
            ClearShape(sh).off == 1 && ClearArgShape(sh).off == 0
  {
  }

  /** What PopArgs leaves behind, empty and reifiable, counts its elements from the next store or
      push on, and nothing before that. */
  lemma NextStoreCounts(m: Machine, op: Op, ptr: PtrSize, out: Ledger)
    requires m.Sane() && m.w.flag == Flag.Reify && m.w.elems == [] && Conserved(m.w, out)
    requires (op.Store? && op.key >= 0) || op.Push?
    requires op.val.Scalar? && Count(out, op.val) > 0
    ensures var w1 := Step(m, op, ptr).0.w;
            w1.flag == Real && Count(w1.ledger, op.val) == Count(m.w.ledger, op.val) >= 1
            && Conserved(w1, Release(out, op.val))
  {
    StepConserves(m, op, ptr, out);
  }

  /** A subroutine context with arguments. */
  class SubContext {
    var hasargs: bool
    var argarray: AV
    var pad0: AV       // oldcurpad[0]

    constructor (hasargs: bool, argarray: AV)
      ensures this.hasargs == hasargs && this.argarray == argarray == this.pad0
    {
      this.hasargs, this.argarray, this.pad0 := hasargs, argarray, argarray;
    }

    /** The argument part of POPSUB. */
    method PopArgs(interp: Interp)
      requires hasargs ==> argarray == pad0 && argarray.Valid() && argarray.refs > 0
      modifies this, argarray, interp`ledger, interp`heap, interp`stackBase, interp`stackSp, interp`stackMax
      ensures hasargs == old(hasargs)
      // the next store counts elements unless the array was never counted
      ensures old(hasargs) ==> argarray.flag == if old(argarray.flag) == Plain then Plain else Flag.Reify
      ensures !old(hasargs) ==> unchanged(this) && unchanged(old(argarray)) && interp.ledger == old(interp.ledger)
      ensures interp.stackBase == old(interp.stackBase) && interp.stackSp == old(interp.stackSp)
      ensures interp.stackMax == old(interp.stackMax)
      ensures old(hasargs) ==>
                && argarray == pad0 && argarray.Valid() && argarray.Elems() == []
                && argarray.flag != Real && argarray.off == 0
      // abandoned if it was reified: the elements go only with the last reference to the array
      ensures old(hasargs) && old(argarray.flag) == Real ==>
                && fresh(argarray) && argarray.flag == Flag.Reify
                && argarray.max >= old(argarray.fill) && argarray.refs == 1
                && old(argarray).refs == old(argarray.refs) - 1
                && old(argarray).Valid()
                && (if old(argarray.refs) == 1
                    then old(argarray).Elems() == [] && interp.ledger == old(ReleaseAll(interp.ledger, argarray.Elems()))
                    else old(argarray).Elems() == old(argarray.Elems()) && interp.ledger == old(interp.ledger))
      // recycled otherwise: no element is released
      ensures old(hasargs) && old(argarray.flag) != Real ==>
                && argarray == old(argarray) && interp.ledger == old(interp.ledger)
                && argarray.Form() == ClearArgShape(old(argarray.Form()))
                && argarray.max == old(argarray.max + argarray.off) && argarray.fill == -1
                && argarray.block == old(argarray.block) && argarray.mem == old(argarray.mem)
                && argarray.refs == old(argarray.refs)
    {
      if hasargs {
        if argarray.flag == Real {
          Abandon(interp);
        } else {
          Recycle();
        }
      }
    }

    method Recycle()
      requires argarray.Valid() && argarray.flag != Real
      modifies argarray`max, argarray`off, argarray`fill
      ensures argarray.Valid() && argarray.Elems() == []
      ensures argarray.Form() == ClearArgShape(old(argarray.Form()))
    {
      var ary := argarray;
      ary.max := ary.max + ary.off;
      ary.off := 0;
      ary.fill := -1;
    }

    method Abandon(interp: Interp)
      requires argarray.Valid() && argarray.flag == Real && argarray.refs > 0
      modifies this, argarray, interp`ledger, interp`heap, interp`stackBase, interp`stackSp, interp`stackMax
      ensures fresh(argarray) && argarray.Valid() && argarray.Elems() == [] && pad0 == argarray
      ensures argarray.flag == Flag.Reify && argarray.off == 0 && argarray.max >= old(argarray.fill)
      ensures argarray.refs == 1
      ensures interp.stackBase == old(interp.stackBase) && interp.stackSp == old(interp.stackSp)
      ensures interp.stackMax == old(interp.stackMax)
      ensures hasargs == old(hasargs)
      ensures old(argarray).refs == old(argarray.refs) - 1 && old(argarray).Valid()
      ensures if old(argarray.refs) == 1
              then old(argarray).Elems() == [] && interp.ledger == old(ReleaseAll(interp.ledger, argarray.Elems()))
              else old(argarray).Elems() == old(argarray.Elems()) && interp.ledger == old(interp.ledger)
    {
      hide Rep, Clean, Window;
      var fill := argarray.fill;
      Drop(argarray, interp);
      var ary := NewArgs(interp, fill);
      argarray := ary;
      pad0 := ary;
    }

    /** A new empty argument array with room for index fill. */
    static method NewArgs(interp: Interp, fill: int) returns (ary: AV)
      requires fill >= -1
      modifies interp`heap, interp`stackBase, interp`stackSp, interp`stackMax
      ensures fresh(ary) && ary.Valid() && ary.Elems() == [] && ary.flag == Flag.Reify
      ensures ary.off == 0 && ary.max >= fill && ary.refs == 1
      ensures interp.stackBase == old(interp.stackBase) && interp.stackSp == old(interp.stackSp)
      ensures interp.stackMax == old(interp.stackMax)
    {
      ary := new AV.New();
      ary.Extend(interp, fill);
      ary.flag := Flag.Reify;
    }

    /** Dropping a reference to an array frees its elements only when it was the last. */
    static method Drop(av: AV, interp: Interp)
      requires av.Valid() && av.flag == Real && av.refs > 0
      modifies av, interp`ledger
      ensures av.Valid() && av.refs == old(av.refs) - 1
      ensures if old(av.refs) == 1
              then av.Elems() == [] && interp.ledger == old(ReleaseAll(interp.ledger, av.Elems()))
              else av.Elems() == old(av.Elems()) && interp.ledger == old(interp.ledger)
    {
      av.refs := av.refs - 1;
      if av.refs == 0 {
        av.Undefine(interp);
      }
    }
  }
}
