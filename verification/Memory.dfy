/** Blocks of slots as values: what the window of an array shows, and what block moves and
    resets do to it. Every in-place step of the array class is one of these transformations. */
module Memory {
  import opened Scalars
  import opened Growth
  import opened ArraySpec

  type Mem = seq<Sv>

  predicate NoNull(s: seq<Sv>) {
    forall i :: 0 <= i < |s| ==> s[i] != Null
  }

  /** The part of the representation invariant that needs no history. */
  predicate Rep(mem: Mem, sh: Shape, flag: Flag) {
    && sh.Sane()
    && sh.off + sh.max + 1 <= |mem|
    && (flag == Real ==> forall i :: 0 <= i <= sh.off + sh.max ==> mem[i] != Null)
    && (flag == Reify ==> forall i :: sh.off <= i <= sh.off + sh.fill ==> mem[i] != Null)
  }

  /** The live elements. */
  function Window(mem: Mem, sh: Shape): (s: seq<Sv>)
    requires sh.Sane() && sh.off + sh.max + 1 <= |mem|
    ensures |s| == sh.fill + 1
  {
    mem[sh.off..sh.off + sh.fill + 1]
  }

  lemma RepBounds(mem: Mem, sh: Shape, flag: Flag)
    requires Rep(mem, sh, flag)
    ensures sh.Sane() && sh.off + sh.max + 1 <= |mem|
    ensures mem[sh.off..sh.off + sh.fill + 1] == Window(mem, sh)
  {
    hide Reset, Undefs;
  }

  lemma WindowSlice(mem: Mem, sh: Shape)
    requires sh.Sane() && sh.off + sh.max + 1 <= |mem|
    ensures mem[sh.off..sh.off + sh.fill + 1] == Window(mem, sh)
  {
  }

  /** The slack invariant: every usable slot outside the window is undef, except for exactly the
      stale ones after it. */
  predicate Clean(mem: Mem, sh: Shape, stale: set<int>) {
    && (forall i :: i in stale ==> sh.off + sh.fill < i <= sh.off + sh.max)
    && (forall i :: 0 <= i < |mem| && i <= sh.off + sh.max && !(sh.off <= i <= sh.off + sh.fill) ==>
                      (mem[i] != Undef <==> i in stale))
  }

  /** The block represents the elements s. */
  predicate Shows(mem: Mem, sh: Shape, flag: Flag, s: seq<Sv>) {
    Rep(mem, sh, flag) && Window(mem, sh) == s
  }

  function Reset(mem: Mem, at: nat, n: nat): (r: Mem)
    requires at + n <= |mem|
    ensures |r| == |mem|
    ensures forall i :: 0 <= i < |mem| ==> r[i] == if at <= i < at + n then Undef else mem[i]
  {
    if n == 0 then mem else Reset(mem, at, n - 1)[at + n - 1 := Undef]
  }

  function Moved(mem: Mem, src: nat, dst: nat, n: nat): (r: Mem)
    requires src + n <= |mem| && dst + n <= |mem|
    ensures |r| == |mem|
    ensures forall i :: 0 <= i < |mem| ==> r[i] == if dst <= i < dst + n then mem[src + i - dst] else mem[i]
  {
    mem[..dst] + mem[src..src + n] + mem[dst + n..]
  }

  /** av_reify: both resets leave the window alone and make the block clean. */
  lemma ReifyMem(mem: Mem, sh: Shape)
    requires sh.Sane() && sh.off + sh.max + 1 <= |mem| && NoNull(Window(mem, sh))
    ensures var m1 := Reset(mem, sh.off + sh.fill + 1, sh.max - sh.fill);
            var m2 := Reset(m1, 0, sh.off);
            && Shows(m2, sh, Real, Window(mem, sh)) && Clean(m2, sh, {})
            && Window(m1, sh) == Window(mem, sh)
  {
    hide Reset, Undefs;
    var m1 := Reset(mem, sh.off + sh.fill + 1, sh.max - sh.fill);
    var m2 := Reset(m1, 0, sh.off);
    ResetElsewhere(mem, sh, sh.off + sh.fill + 1, sh.max - sh.fill);
    ResetElsewhere(m1, sh, 0, sh.off);
    WindowNotNull(m2, sh);
    forall i | 0 <= i <= sh.off + sh.max && !(sh.off <= i <= sh.off + sh.fill) ensures m2[i] == Undef {
      assert m1[i] == if sh.off + sh.fill < i <= sh.off + sh.max then Undef else mem[i];
    }
    hide Window;
    assert forall i :: 0 <= i <= sh.off + sh.max ==> m2[i] != Null;
    assert Rep(m2, sh, Real) && Clean(m2, sh, {});
  }

  lemma ResetElsewhere(mem: Mem, sh: Shape, at: nat, n: nat)
    requires sh.Sane() && sh.off + sh.max + 1 <= |mem|
    requires at + n <= |mem| && (sh.off + sh.fill + 1 <= at || at + n <= sh.off)
    ensures Window(Reset(mem, at, n), sh) == Window(mem, sh)
  {
    hide Reset;
  }

  lemma WindowNotNull(mem: Mem, sh: Shape)
    requires sh.Sane() && sh.off + sh.max + 1 <= |mem| && NoNull(Window(mem, sh))
    ensures forall i :: sh.off <= i <= sh.off + sh.fill ==> mem[i] != Null
  {
    hide Reset, Undefs;
    forall i | sh.off <= i <= sh.off + sh.fill ensures mem[i] != Null {
      assert Window(mem, sh)[i - sh.off] == mem[i];
    }
  }

  function ResetIf(flag: Flag, mem: Mem, at: nat, n: nat): Mem
    requires at + n <= |mem|
  {
    if flag == Real then Reset(mem, at, n) else mem
  }

  /** av_extend, first branch: the window moves to the start of the block. */
  lemma SlideMem(mem: Mem, sh: Shape, flag: Flag, stale: set<int>)
    requires Rep(mem, sh, flag)
    ensures var to := sh.(off := 0, max := sh.max + sh.off, slid := sh.slid + sh.fill + 1);
            var m := ResetIf(flag, Moved(mem, sh.off, 0, sh.fill + 1), sh.fill + 1, sh.off);
            && Shows(m, to, flag, Window(mem, sh))
            && (flag == Real && Clean(mem, sh, stale) ==> Clean(m, to, Beyond(stale, sh.off + sh.fill)))
  {
    var to := sh.(off := 0, max := sh.max + sh.off, slid := sh.slid + sh.fill + 1);
    var m := ResetIf(flag, Moved(mem, sh.off, 0, sh.fill + 1), sh.fill + 1, sh.off);
    SlideSlots(mem, sh, flag);
    hide ResetIf, Moved;
    assert Window(m, to) == Window(mem, sh);
    assert Rep(m, to, flag);
  }

  lemma SlideSlots(mem: Mem, sh: Shape, flag: Flag)
    requires sh.Sane() && sh.off + sh.max + 1 <= |mem|
    ensures var m := ResetIf(flag, Moved(mem, sh.off, 0, sh.fill + 1), sh.fill + 1, sh.off);
            && |m| == |mem|
            && (forall i :: 0 <= i <= sh.fill ==> m[i] == mem[sh.off + i])
            && (flag == Real ==> forall i :: sh.fill < i <= sh.fill + sh.off ==> m[i] == Undef)
            && (forall i :: sh.fill + sh.off < i < |mem| ==> m[i] == mem[i])
  {
    hide Reset;
    var m1 := Moved(mem, sh.off, 0, sh.fill + 1);
    assert forall i :: 0 <= i <= sh.fill ==> m1[i] == mem[sh.off + i];
    assert forall i :: sh.fill < i < |mem| ==> m1[i] == mem[i];
  }

  /** The block obtained by copying the first keep slots of mem over the start of ary. */
  function Copied(mem: Mem, ary: Mem, keep: nat): (r: Mem)
    requires keep <= |mem| && keep <= |ary|
    ensures |r| == |ary|
    ensures forall i :: 0 <= i < |ary| ==> r[i] == if i < keep then mem[i] else ary[i]
  {
    mem[..keep] + ary[keep..]
  }

  /** av_extend, reallocation: the slots up to the old maximum survive, the new ones are reset. */
  lemma GrowMem(mem: Mem, sh: Shape, flag: Flag, ary: Mem, newmax: nat, stale: set<int>)
    requires Rep(mem, sh, flag) && sh.off == 0 && |ary| == newmax + 1 && newmax >= sh.max
    ensures var to := sh.(live := true, max := newmax, copied := sh.copied + sh.max + 1);
            var m := ResetIf(flag, Copied(mem, ary, sh.max + 1), sh.max + 1, newmax - sh.max);
            && Shows(m, to, flag, Window(mem, sh))
            && (flag == Real && Clean(mem, sh, stale) ==> Clean(m, to, stale))
            && m[..sh.max + 1] == mem[..sh.max + 1]
  {
    hide Reset, Undefs;
    var to := sh.(live := true, max := newmax, copied := sh.copied + sh.max + 1);
    var m := ResetIf(flag, Copied(mem, ary, sh.max + 1), sh.max + 1, newmax - sh.max);
    assert Window(m, to) == Window(mem, sh);
  }

  /** av_store inside the window. */
  lemma WriteMem(mem: Mem, sh: Shape, flag: Flag, k: nat, v: Sv, stale: set<int>)
    requires Rep(mem, sh, flag) && k <= sh.fill && v != Null
    ensures var m := mem[sh.off + k := v];
            && Shows(m, sh, flag, Window(mem, sh)[k := v])
            && (Clean(mem, sh, stale) ==> Clean(m, sh, stale))
  {
    hide Reset, Undefs;
    assert Window(mem[sh.off + k := v], sh) == Window(mem, sh)[k := v];
  }

  /** av_store beyond the window: a counted array only raises fill, exposing what lies there. */
  lemma AppendMem(mem: Mem, sh: Shape, flag: Flag, k: nat, v: Sv, stale: set<int>)
    requires Rep(mem, sh, flag) && sh.fill < k <= sh.max && v != Null && flag != Reify
    ensures var m0 := if flag == Real then mem else Reset(mem, sh.off + sh.fill + 1, k - sh.fill);
            var m, to := m0[sh.off + k := v], sh.(fill := k);
            && Rep(m, to, flag)
            && (flag == Real ==> Window(m, to) == mem[sh.off..sh.off + k] + [v])
            && (flag == Real && Clean(mem, sh, stale) ==> Clean(m, to, Beyond(stale, sh.off + k)))
            && (KnownSlack(mem, sh, flag, stale) ==>
                  (Window(m, to) == StoreSeq(Window(mem, sh), k, v) <==>
                   !Between(stale, sh.off + sh.fill, sh.off + k)))
  {
    hide Reset, Undefs;
    var m0 := if flag == Real then mem else Reset(mem, sh.off + sh.fill + 1, k - sh.fill);
    var m, to := m0[sh.off + k := v], sh.(fill := k);
    assert Window(m, to) == m0[sh.off..sh.off + k] + [v];
    assert Window(m0, sh) == Window(mem, sh);
    if KnownSlack(mem, sh, flag, stale) {
      if Between(stale, sh.off + sh.fill, sh.off + k) {
        StaleExposed(m0, sh, k, stale);
        assert StoreSeq(Window(mem, sh), k, v)[..k] == Window(mem, sh) + Undefs(k - (sh.fill + 1));
        assert Window(m, to)[..k] == m0[sh.off..sh.off + k];
      } else {
        HolesExposed(m0, sh, k);
      }
    }
  }

  /** What is known of the slack: all of it for a counted array, and no stale slots for others. */
  predicate KnownSlack(mem: Mem, sh: Shape, flag: Flag, stale: set<int>) {
    if flag == Real then Clean(mem, sh, stale) else stale == {}
  }

  /** A stale slot does not look like a hole. */
  lemma StaleExposed(mem: Mem, sh: Shape, k: nat, stale: set<int>)
    requires sh.Sane() && sh.off + sh.max + 1 <= |mem| && sh.fill < k <= sh.max + 1
    requires Clean(mem, sh, stale) && Between(stale, sh.off + sh.fill, sh.off + k)
    ensures mem[sh.off..sh.off + k] != Window(mem, sh) + Undefs(k - (sh.fill + 1))
  {
    hide Reset, Undefs;
    var i :| i in stale && sh.off + sh.fill < i < sh.off + k;
    assert mem[sh.off..sh.off + k][i - sh.off] == mem[i] != Undef;
    assert (Window(mem, sh) + Undefs(k - (sh.fill + 1)))[i - sh.off] == Undef;
  }

  /** Undef slots after the window look like holes when fill is raised over them. */
  lemma HolesExposed(mem: Mem, sh: Shape, k: nat)
    requires sh.Sane() && sh.off + sh.max + 1 <= |mem| && sh.fill < k <= sh.max + 1
    requires forall i :: sh.off + sh.fill < i < sh.off + k ==> mem[i] == Undef
    ensures mem[sh.off..sh.off + k] == Window(mem, sh) + Undefs(k - (sh.fill + 1))
  {
    hide Reset, Undefs;
  }

  lemma PopMem(mem: Mem, sh: Shape, flag: Flag, stale: set<int>)
    requires Rep(mem, sh, flag) && sh.fill >= 0
    ensures var m, to := mem[sh.off + sh.fill := Undef], sh.(fill := sh.fill - 1);
            && Shows(m, to, flag, Window(mem, sh)[..sh.fill])
            && (Clean(mem, sh, stale) ==> Clean(m, to, stale))
  {
    hide Reset, Undefs;
    var m, to := mem[sh.off + sh.fill := Undef], sh.(fill := sh.fill - 1);
    assert Window(m, to) == Window(mem, sh)[..sh.fill];
  }

  lemma ShiftMem(mem: Mem, sh: Shape, flag: Flag, stale: set<int>)
    requires Rep(mem, sh, flag) && sh.fill >= 0
    ensures var m, to := ResetIf(flag, mem, sh.off, 1), ShiftShape(sh);
            && Shows(m, to, flag, Window(mem, sh)[1..])
            && (flag == Real && Clean(mem, sh, stale) ==> Clean(m, to, stale))
  {
    hide Reset, Undefs;
    var m, to := ResetIf(flag, mem, sh.off, 1), ShiftShape(sh);
    assert Window(m, to) == Window(mem, sh)[1..];
  }

  /** Lowering fill to n - 1, with the slots given up reset if the array is counted. */
  lemma CutMem(mem: Mem, sh: Shape, flag: Flag, n: nat, stale: set<int>)
    requires Rep(mem, sh, flag) && n <= sh.fill + 1
    ensures var m, to := ResetIf(flag, mem, sh.off + n, sh.fill + 1 - n), sh.(fill := n - 1);
            && Shows(m, to, flag, Resize(Window(mem, sh), n))
            && (flag == Real && Clean(mem, sh, stale) ==> Clean(m, to, stale))
            && mem[sh.off + n..sh.off + sh.fill + 1] == Dropped(Window(mem, sh), n)
  {
    hide Reset, Undefs;
    var m, to := ResetIf(flag, mem, sh.off + n, sh.fill + 1 - n), sh.(fill := n - 1);
    assert Window(m, to) == Window(mem, sh)[..n];
    assert Window(mem, sh)[n..] == mem[sh.off + n..sh.off + sh.fill + 1];
    if flag == Real && Clean(mem, sh, stale) {
      CutSlack(mem, sh, n, stale);
    }
    hide Clean, Window;
  }

  lemma CutSlack(mem: Mem, sh: Shape, n: nat, stale: set<int>)
    requires sh.Sane() && sh.off + sh.max + 1 <= |mem| && n <= sh.fill + 1 && Clean(mem, sh, stale)
    ensures Clean(Reset(mem, sh.off + n, sh.fill + 1 - n), sh.(fill := n - 1), stale)
  {
    hide Reset;
  }

  /** Raising fill to n - 1 within the block; uncounted arrays reset the new slots first. */
  lemma PadMem(mem: Mem, sh: Shape, flag: Flag, n: nat, stale: set<int>)
    requires Rep(mem, sh, flag) && sh.fill < n <= sh.max + 1 && KnownSlack(mem, sh, flag, stale)
    ensures var m := if flag == Real then mem else Reset(mem, sh.off + sh.fill + 1, n - 1 - sh.fill);
            var to := sh.(fill := n - 1);
            && Rep(m, to, flag) && Dropped(Window(mem, sh), n) == []
            && (Window(m, to) == Resize(Window(mem, sh), n) <==> !Between(stale, sh.off + sh.fill, sh.off + n))
            && (flag == Real ==> Clean(m, to, Beyond(stale, sh.off + n - 1)))
  {
    hide Reset, Undefs;
    var m := if flag == Real then mem else Reset(mem, sh.off + sh.fill + 1, n - 1 - sh.fill);
    var to := sh.(fill := n - 1);
    PadEnds(Window(mem, sh), n);
    PadShows(mem, sh, flag, n, stale);
    if flag == Real {
      PadSlack(mem, sh, n, stale);
    }
    hide Clean, Between, Window, Resize, Dropped, Beyond;
    assert Rep(m, to, flag);
  }

  lemma PadSlack(mem: Mem, sh: Shape, n: nat, stale: set<int>)
    requires sh.Sane() && Clean(mem, sh, stale) && sh.fill < n <= sh.max + 1
    ensures Clean(mem, sh.(fill := n - 1), Beyond(stale, sh.off + n - 1))
  {
  }

  lemma PadShows(mem: Mem, sh: Shape, flag: Flag, n: nat, stale: set<int>)
    requires sh.Sane() && sh.off + sh.max + 1 <= |mem|
    requires sh.fill < n <= sh.max + 1 && KnownSlack(mem, sh, flag, stale)
    ensures var m := if flag == Real then mem else Reset(mem, sh.off + sh.fill + 1, n - 1 - sh.fill);
            Window(m, sh.(fill := n - 1)) == Window(mem, sh) + Undefs(n - sh.fill - 1) <==>
            !Between(stale, sh.off + sh.fill, sh.off + n)
  {
    hide Reset, Undefs;
    var m := if flag == Real then mem else Reset(mem, sh.off + sh.fill + 1, n - 1 - sh.fill);
    assert Window(m, sh) == Window(mem, sh);
    if Between(stale, sh.off + sh.fill, sh.off + n) {
      StaleExposed(m, sh, n, stale);
    } else {
      HolesExposed(m, sh, n);
    }
  }

  lemma PadEnds(s: seq<Sv>, n: nat)
    requires |s| <= n
    ensures Resize(s, n) == s + Undefs(n - |s|) && Dropped(s, n) == []
  {
  }

  /** The window of a cleared array starts at its block again. */
  lemma RewindMem(mem: Mem, sh: Shape, flag: Flag, stale: set<int>)
    requires Rep(mem, sh, flag) && sh.fill == -1
    ensures var to := sh.(off := 0, max := sh.max + sh.off);
            && Rep(mem, to, flag) && (Clean(mem, sh, stale) ==> Clean(mem, to, stale))
  {
    hide Reset, Undefs;
  }

  /** av_unshift, first part: back slots before the window join it. */
  lemma ReclaimMem(mem: Mem, sh: Shape, flag: Flag, back: nat, stale: set<int>)
    requires Rep(mem, sh, flag) && back <= sh.off && flag != Reify
    ensures var to := sh.(off := sh.off - back, max := sh.max + back, fill := sh.fill + back);
            && Shows(mem, to, flag, mem[sh.off - back..sh.off] + Window(mem, sh))
            && (Clean(mem, sh, stale) ==> Clean(mem, to, stale) && mem[sh.off - back..sh.off] == Undefs(back))
  {
    hide Reset, Undefs;
  }

  /** av_unshift, second part: the window moves up by extra slots, of which slide become reserve. */
  lemma RoomMem(mem: Mem, sh: Shape, flag: Flag, extra: nat, slide: nat, stale: set<int>)
    requires Rep(mem, sh, flag) && sh.off == 0 && slide <= extra
    requires sh.fill + extra <= sh.max && flag != Reify
    ensures var m := Reset(Moved(mem, 0, extra, sh.fill + 1), 0, extra);
            var to := sh.(off := slide, max := sh.max - slide, fill := sh.fill + extra - slide,
                          moved := sh.moved + sh.fill + 1);
            && Shows(m, to, flag, Undefs(extra - slide) + Window(mem, sh))
            && (Clean(mem, sh, stale) ==> Clean(m, to, Beyond(stale, sh.fill + extra)))
  {
    hide Reset, Undefs;
    var m1 := Moved(mem, 0, extra, sh.fill + 1);
    var m := Reset(m1, 0, extra);
    var to := sh.(off := slide, max := sh.max - slide, fill := sh.fill + extra - slide,
                  moved := sh.moved + sh.fill + 1);
    forall i | extra <= i <= extra + sh.fill ensures m[i] == mem[i - extra] {
      assert m1[i] == mem[i - extra];
    }
    forall i | extra + sh.fill < i <= sh.max ensures m[i] == mem[i] {
      assert m1[i] == mem[i];
    }
    assert Window(m, to) == Undefs(extra - slide) + Window(mem, sh);
  }

  /** av_delete of the last element: the trailing undefs go with it, but its own slot is not
      reset, so that it is stale from then on unless it was undef already. */
  lemma DeleteLastMem(mem: Mem, sh: Shape, flag: Flag, n: nat, stale: set<int>)
    requires Rep(mem, sh, flag) && n <= sh.fill
    requires Window(mem, sh)[..n] == TrimUndef(Window(mem, sh)[..sh.fill])
    ensures var to := sh.(fill := n - 1);
            && Shows(mem, to, flag, Window(mem, sh)[..n])
            && (Clean(mem, sh, stale) ==>
                  && Clean(mem, to, stale + LeftBehind(sh, Window(mem, sh)[sh.fill]))
                  && (Clean(mem, to, stale) <==> Window(mem, sh)[sh.fill] == Undef))
  {
    hide Reset, Undefs, Clean, TrimUndef, LeftBehind;
    var s, to := Window(mem, sh), sh.(fill := n - 1);
    assert Window(mem, to) == s[..n];
    TrimUndefTail(s[..sh.fill]);
    forall i | sh.off + n <= i < sh.off + sh.fill ensures mem[i] == Undef {
      assert s[..sh.fill][i - sh.off] == Undef;
    }
    assert s[sh.fill] == mem[sh.off + sh.fill];
    hide Window;
    if Clean(mem, sh, stale) {
      DeleteSlack(mem, sh, n, stale);
    }
  }

  lemma DeleteSlack(mem: Mem, sh: Shape, n: nat, stale: set<int>)
    requires sh.Sane() && sh.off + sh.max + 1 <= |mem| && n <= sh.fill && Clean(mem, sh, stale)
    requires forall i :: sh.off + n <= i < sh.off + sh.fill ==> mem[i] == Undef
    ensures var to, sv := sh.(fill := n - 1), mem[sh.off + sh.fill];
            && Clean(mem, to, stale + LeftBehind(sh, sv))
            && (Clean(mem, to, stale) <==> sv == Undef)
  {
    var slot := sh.off + sh.fill;
    assert slot !in stale;
  }

  /** Storing beyond the end afterwards brings the deleted scalar back, where the sequence has an
      undef hole. */
  lemma DeletedReturns(mem: Mem, sh: Shape, k: nat, v: Sv)
    requires Rep(mem, sh, Real) && sh.fill >= 0 && sh.fill < k <= sh.max
    requires Window(mem, sh)[sh.fill] != Undef
    ensures var s := Window(mem, sh);
            var rest := TrimUndef(s[..sh.fill]);
            var after := sh.(fill := |rest| - 1).(fill := k);
            && Window(mem[sh.off + k := v], after)[sh.fill] == s[sh.fill]
            && StoreSeq(rest, k, v)[sh.fill] == Undef
  {
    hide Reset, Undefs;
  }

  /** What TrimUndef drops is undef. */
  lemma {:induction false} TrimUndefTail(s: seq<Sv>)
    ensures var r := TrimUndef(s);
            && r == s[..|r|] && (forall i :: |r| <= i < |s| ==> s[i] == Undef)
            && (r == [] || r[|r| - 1] != Undef)
  {
    hide Reset, Undefs;
    if s != [] && s[|s| - 1] == Undef {
      TrimUndefTail(s[..|s| - 1]);
    }
  }

  /** What num slots put in front of a window show: undefs, then the slots before the window that
      are reclaimed, as they are. */
  function FrontOf(mem: Mem, off: nat, num: nat): (s: seq<Sv>)
    requires off <= |mem|
    ensures |s| == num && (off == 0 ==> s == Undefs(num))
  {
    var back := if off > num then num else off;
    Undefs(num - back) + mem[off - back..off]
  }

  /** Unshifting shows undefs if and only if every slot reclaimed is undef. */
  lemma FrontIsUndef(mem: Mem, off: nat, num: nat, s: seq<Sv>)
    requires off <= |mem|
    ensures FrontOf(mem, off, num) + s == Undefs(num) + s <==>
            forall i :: 0 <= i < off && i < |mem| && off - num <= i ==> mem[i] == Undef
  {
    hide Undefs;
    var back, f := if off > num then num else off, FrontOf(mem, off, num);
    assert f + s == Undefs(num) + s ==> f == Undefs(num) by {
      assert (f + s)[..num] == f && (Undefs(num) + s)[..num] == Undefs(num);
    }
    if f == Undefs(num) {
      forall i | 0 <= i < off && off - num <= i ensures mem[i] == Undef {
        assert f[num - off + i] == mem[i];
      }
    }
  }

  /** What is shifted off an array that is never counted stays in its slot, and unshifting shows it
      again where the sequence has undef. */
  lemma ShiftedReturns(mem: Mem, sh: Shape)
    requires Rep(mem, sh, Plain) && sh.fill >= 0 && Window(mem, sh)[0] != Undef
    ensures var s1 := ShiftShape(sh);
            && Rep(mem, s1, Plain) && FrontOf(mem, s1.off, 1) == [Window(mem, sh)[0]] != Undefs(1)
  {
    ShiftMem(mem, sh, Plain, {});
    assert Undefs(1)[0] == Undef && FrontOf(mem, sh.off + 1, 1)[0] == mem[sh.off];
  }

  /** Such an array. */
  lemma OneShifted()
    ensures var mem, sh := [Scalar(0)], Shape(true, 0, 0, 0, 0, 0, 0);
            && Rep(mem, sh, Plain) && Window(mem, sh) == [Scalar(0)]
            && FrontOf(mem, ShiftShape(sh).off, 1) == [Scalar(0)]
  {
    ShiftedReturns([Scalar(0)], Shape(true, 0, 0, 0, 0, 0, 0));
  }

  lemma FrontJoin(mem: Mem, off: nat, num: nat, s: seq<Sv>)
    requires off <= |mem|
    ensures var back := if off > num then num else off;
            var front := mem[off - back..off];
            && Undefs(num - back) + (front + s) == FrontOf(mem, off, num) + s
            && (front == Undefs(back) ==> FrontOf(mem, off, num) == Undefs(num))
  {
    hide Reset, Undefs;
  }
}
