/** The array header and its operations, updated in place, with the interpreter state that they
    touch: the reference counts and the pointers into the argument stack. */
module PerlArray {
  import opened Scalars
  import opened Growth
  import opened ArraySpec
  import opened Memory

  class Interp {
    const ptr: PtrSize          // sizeof(SV*)
    var ledger: Ledger
    var value: map<Sv, Datum>   // what each scalar holds
    var next: nat               // the next scalar to be allocated
    var heap: nat               // the last block address handed out
    var curstack: AV?           // PL_curstack
    var stackBase: Ptr          // PL_stack_base
    var stackSp: Ptr            // PL_stack_sp
    var stackMax: Ptr           // PL_stack_max

    constructor (ptr: PtrSize)
      ensures ledger == Blank && next == 0 && this.ptr == ptr && curstack == null
    {
      value := map[];
      ledger, next, heap, this.ptr, curstack := Blank, 0, 0, ptr, null;
      stackBase, stackSp, stackMax := Ptr(0, 0), Ptr(0, 0), Ptr(0, 0);
    }

    function Holds(sv: Sv): Datum
      reads this`value
    {
      if sv in value then value[sv] else Unset
    }

    /** sv_setsv. */
    method SetSv(dst: Sv, src: Sv)
      modifies this`value
      ensures Holds(dst) == old(Holds(src))
      ensures forall sv: Sv :: sv != dst ==> Holds(sv) == old(Holds(sv))
    {
      value := value[dst := if src in value then value[src] else Unset];
    }

    /** The stack pointers point into the block of the current stack. */
    ghost predicate StackOk()
      reads this, curstack
    {
      && curstack != null && curstack.block != 0 && curstack.off == 0
      && stackBase == Ptr(curstack.block, 0)
      && stackSp.block == curstack.block
      && stackMax == Ptr(curstack.block, curstack.max)
    }

    method RefcntInc(sv: Sv)
      modifies this`ledger
      ensures ledger == Acquire(old(ledger), sv)
    {
      if sv.Scalar? {
        ledger := Inc(ledger, sv);
      }
    }

    method RefcntDec(sv: Sv)
      modifies this`ledger
      ensures ledger == Release(old(ledger), sv)
    {
      if sv.Scalar? {
        ledger := Dec(ledger, sv);
      }
    }

    method NewSv() returns (sv: Sv)
      modifies this`ledger, this`next
      ensures sv == Scalar(old(next)) && next == old(next) + 1
      ensures ledger == Inc(old(ledger), sv)
    {
      sv := Scalar(next);
      next := next + 1;
      ledger := Inc(ledger, sv);
    }

    /** A new block of n slots at a new address. Its contents are not specified. */
    method Malloc(n: nat) returns (block: nat, mem: Mem)
      modifies this`heap
      ensures |mem| == n && block == heap == old(heap) + 1
    {
      heap := heap + 1;
      block, mem := heap, seq(n, _ => Null);
    }
  }

  /** The countdown that resets n slots from index at on. */
  method ResetSlots(mem: Mem, at: nat, n: nat) returns (r: Mem)
    requires at + n <= |mem|
    ensures r == Reset(mem, at, n)
  {
    r := mem;
    var tmp := n;
    while tmp > 0
      invariant 0 <= tmp <= n && |r| == |mem|
      invariant forall i :: 0 <= i < |r| ==> r[i] == if at + tmp <= i < at + n then Undef else mem[i]
    {
      tmp := tmp - 1;
      r := r[at + tmp := Undef];
    }
  }

  /** The loop that resets n slots upward from index at. */
  method PadSlots(mem: Mem, at: nat, n: nat) returns (r: Mem)
    requires at + n <= |mem|
    ensures r == Reset(mem, at, n)
  {
    r := mem;
    var done := 0;
    while done < n
      invariant 0 <= done <= n && |r| == |mem|
      invariant forall i :: 0 <= i < |r| ==> r[i] == if at <= i < at + done then Undef else mem[i]
    {
      r := r[at + done := Undef];
      done := done + 1;
    }
  }

  method PadUnlessReal(flag: Flag, mem: Mem, at: nat, n: nat) returns (r: Mem)
    requires at + n <= |mem|
    ensures r == if flag == Real then mem else Reset(mem, at, n)
  {
    r := mem;
    if flag != Real {
      r := PadSlots(mem, at, n);
    }
  }

  /** The countdown that drops one reference for each of the n slots from index at on. */
  method ReleaseSlots(interp: Interp, mem: Mem, at: nat, n: nat, ghost s: seq<Sv>)
    requires at + n <= |mem| && mem[at..at + n] == s
    modifies interp`ledger
    ensures interp.ledger == ReleaseAll(old(interp.ledger), s)
  {
    var key := n;
    while key > 0
      invariant 0 <= key <= n
      invariant interp.ledger == ReleaseAll(old(interp.ledger), s[key..])
    {
      key := key - 1;
      assert mem[at + key] == s[key] && s[key..][1..] == s[key + 1..];
      interp.RefcntDec(mem[at + key]);
    }
    assert s[0..] == s;
  }

  method ReleaseIfReal(interp: Interp, flag: Flag, mem: Mem, at: nat, n: nat, ghost s: seq<Sv>)
    requires at + n <= |mem| && mem[at..at + n] == s
    modifies interp`ledger
    ensures interp.ledger == GiveUp(flag, old(interp.ledger), s)
  {
    if flag == Real {
      ReleaseSlots(interp, mem, at, n, s);
    }
  }

  method ResetIfReal(flag: Flag, mem: Mem, at: nat, n: nat) returns (r: Mem)
    requires at + n <= |mem|
    ensures r == ResetIf(flag, mem, at, n)
  {
    r := mem;
    if flag == Real {
      r := ResetSlots(mem, at, n);
    }
  }

  /** The countdown that takes one reference for each of the n slots from index at on. */
  method CountSlots(interp: Interp, mem: Mem, at: nat, n: nat, ghost s: seq<Sv>)
    requires at + n <= |mem| && mem[at..at + n] == s && NoNull(s)
    modifies interp`ledger
    ensures interp.ledger == AcquireAll(old(interp.ledger), s)
  {
    var key := n;
    while key > 0
      invariant 0 <= key <= n
      invariant interp.ledger == AcquireAll(old(interp.ledger), s[key..])
    {
      key := key - 1;
      var sv := mem[at + key];
      assert sv == s[key] != Null && s[key..][1..] == s[key + 1..];
      if sv != Undef {
        interp.RefcntInc(sv);
      }
    }
    assert s[0..] == s;
  }

  /** The loop of av_delete: index of the last element below last that is not undef, plus one. */
  method TrimFill(mem: Mem, at: nat, last: nat, ghost s: seq<Sv>) returns (n: nat)
    requires at + last <= |mem| && mem[at..at + last] == s
    ensures n <= last && s[..n] == TrimUndef(s)
  {
    n := last;
    assert s[..n] == s;
    while n > 0 && mem[at + n - 1] == Undef
      invariant n <= last && TrimUndef(s[..n]) == TrimUndef(s)
    {
      assert s[..n][..n - 1] == s[..n - 1] && s[n - 1] == mem[at + n - 1];
      n := n - 1;
    }
    if n > 0 {
      assert s[n - 1] == mem[at + n - 1];
    }
  }

  /** The loop of av_make: every slot of the block gets a newly allocated scalar, with the value of
      the scalar listed for it. */
  method FillWithNew(interp: Interp, mem: Mem, strp: seq<Sv>) returns (r: Mem)
    requires |strp| == |mem|
    requires forall i :: 0 <= i < |strp| ==> !NewSince(strp[i], interp.next)
    modifies interp`ledger, interp`next, interp`value
    ensures r == Fresh(old(interp.next), |mem|) && interp.next == old(interp.next) + |mem|
    ensures interp.ledger == Mint(old(interp.ledger), old(interp.next), |mem|)
    ensures forall i :: 0 <= i < |mem| ==> interp.Holds(r[i]) == old(interp.Holds(strp[i]))
    ensures forall sv: Sv :: !NewSince(sv, old(interp.next)) ==> interp.Holds(sv) == old(interp.Holds(sv))
  {
    r := mem;
    for i := 0 to |mem|
      invariant |r| == |mem| && interp.next == old(interp.next) + i
      invariant forall j :: 0 <= j < i ==> r[j] == Scalar(old(interp.next) + j)
      invariant interp.ledger == Mint(old(interp.ledger), old(interp.next), i)
      invariant forall j :: 0 <= j < i ==> interp.Holds(r[j]) == old(interp.Holds(strp[j]))
      invariant forall sv: Sv :: !NewSince(sv, old(interp.next)) ==> interp.Holds(sv) == old(interp.Holds(sv))
    {
      var sv := interp.NewSv();
      r := r[i := sv];
      interp.SetSv(sv, strp[i]);
    }
  }

  class AV {
    var block: nat         // AvALLOC
    var mem: Mem           // the slots of the block
    var off: nat           // AvARRAY - AvALLOC
    var fill: int          // AvFILLp
    var max: int           // AvMAX
    var flag: Flag         // AVf_REAL, AVf_REIFY or neither
    var refs: nat          // the reference count of the array itself
    ghost var stale: set<int>   // slots after the window that still hold what av_delete left there
    ghost var copied: nat
    ghost var slid: nat
    ghost var moved: nat

    ghost function Form(): Shape
      reads this
    {
      Shape(block != 0, off, fill, max, copied, slid, moved)
    }

    /** Bounds, and no null element. */
    ghost predicate Bounded()
      reads this
    {
      Rep(mem, Form(), flag)
    }

    ghost predicate Slack()
      requires Bounded()
      reads this
    {
      Clean(mem, Form(), stale)
    }

    ghost predicate Valid()
      reads this
    {
      Bounded() && if flag == Real then Slack() else stale == {}
    }

    ghost function Elems(): (s: seq<Sv>)
      requires Bounded()
      reads this
      ensures |s| == fill + 1 && (flag != Plain ==> NoNull(s))
    {
      Window(mem, Form())
    }

    ghost function State(interp: Interp): (m: Machine)
      requires Bounded()
      reads this, interp
      ensures m.Sane()
    {
      Machine(World(Elems(), flag, interp.ledger, interp.next), Form())
    }

    constructor New()
      ensures Valid() && Elems() == [] && flag == Real && Form() == EMPTY && refs == 1 && stale == {}
    {
      block, mem, off, fill, max, flag, refs := 0, [], 0, -1, -1, Real, 1;
      stale, copied, slid, moved := {}, 0, 0, 0;
    }

    constructor Make(interp: Interp, strp: seq<Sv>)
      requires forall i :: 0 <= i < |strp| ==> !NewSince(strp[i], interp.next)
      modifies interp`ledger, interp`next, interp`heap, interp`value
      ensures Valid() && flag == Real && refs == 1 && off == 0 && max == fill && stale == {}
      ensures Elems() == Fresh(old(interp.next), |strp|)
      ensures interp.ledger == Mint(old(interp.ledger), old(interp.next), |strp|)
      ensures forall x: Sv :: Count(interp.ledger, x) == Count(old(interp.ledger), x) + Occ(Elems(), x)
      ensures interp.next == old(interp.next) + |strp|
      ensures forall i :: 0 <= i < |strp| ==> interp.Holds(Elems()[i]) == old(interp.Holds(strp[i]))
      ensures forall sv: Sv :: !NewSince(sv, old(interp.next)) ==> interp.Holds(sv) == old(interp.Holds(sv))
    {
      var addr, ary, size := 0, [], |strp|;
      if size > 0 {
        addr, ary := interp.Malloc(size);
        ary := FillWithNew(interp, ary, strp);
      }
      off, flag, refs := 0, Real, 1;
      stale, copied, slid, moved := {}, 0, 0, 0;
      block, mem, fill, max := addr, ary, size - 1, size - 1;
      new;
      assert Elems() == Fresh(old(interp.next), size);
      forall x: Sv ensures Count(interp.ledger, x) == Count(old(interp.ledger), x) + Occ(Elems(), x) {
        MintCounts(old(interp.ledger), old(interp.next), size, x);
      }
    }

    constructor Fake(interp: Interp, strp: seq<Sv>)
      requires NoNull(strp)
      modifies interp`heap
      ensures Valid() && flag == Flag.Reify && Elems() == strp && refs == 1 && off == 0 && max == fill
    {
      var addr, ary := interp.Malloc(|strp| + 1);
      block, mem := addr, strp + ary[|strp|..];
      off, fill, max := 0, |strp| - 1, |strp| - 1;
      flag, refs := Flag.Reify, 1;
      stale, copied, slid, moved := {}, 0, 0, 0;
    }

    method Reify(interp: Interp)
      requires Bounded() && NoNull(Elems())
      modifies this`flag, this`mem, this`stale, interp`ledger
      ensures Bounded() && Elems() == old(Elems()) && flag == Real
      ensures old(flag) == Real ==> interp.ledger == old(interp.ledger) && mem == old(mem) && stale == old(stale)
      ensures old(flag) != Real ==>
                interp.ledger == AcquireAll(old(interp.ledger), Elems()) && Slack() && stale == {}
    {
      if flag == Real {
        return;
      }
      MakeReal(interp);
    }

    /** The part of av_reify after its guard. */
    method MakeReal(interp: Interp)
      requires Bounded() && NoNull(Elems())
      modifies this`flag, this`mem, this`stale, interp`ledger
      ensures Valid() && Elems() == old(Elems()) && flag == Real && stale == {}
      ensures interp.ledger == AcquireAll(old(interp.ledger), Elems())
    {
      hide Rep, Clean, Window, Resize, Dropped, NoNull, StoreSeq, Undefs, Reset, Moved;
      RepBounds(mem, Form(), flag);
      ghost var sh, s := Form(), Elems();
      ReifyMem(mem, sh);
      mem := ResetSlots(mem, off + fill + 1, max - fill);
      WindowSlice(mem, sh);
      CountSlots(interp, mem, off, fill + 1, s);
      mem := ResetSlots(mem, 0, off);
      flag := Real;
      stale := {};
    }

    method Extend(interp: Interp, key: int)
      requires Bounded()
      modifies this, interp`heap, interp`stackBase, interp`stackSp, interp`stackMax
      ensures Bounded() && (old(Valid()) ==> Valid())
      ensures Elems() == old(Elems()) && flag == old(flag) && refs == old(refs)
      ensures Form() == ExtendShape(old(Form()), key, interp.ptr)
      ensures stale == ExtendStale(old(Form()), key, old(stale))
      ensures old(off) == 0 ==> mem[..old(max) + 1] == old(mem[..max + 1])
      ensures interp.curstack == this && old(interp.StackOk()) ==>
                interp.StackOk() && interp.stackSp.index == old(interp.stackSp.index)
      ensures ElsewhereKept(interp)
    {
      if key > max {
        if off != 0 {
          Slide();
          if key > max - 10 {
            Enlarge(interp, key + max);
          }
        } else if block != 0 {
          Enlarge(interp, key + Fifth(max));
        } else {
          Allocate(interp, if key < 3 then 3 else key);
        }
      }
    }

    method Slide()
      requires Bounded()
      modifies this`mem, this`max, this`off, this`slid, this`stale
      ensures Bounded() && (old(Valid()) ==> Valid()) && Elems() == old(Elems())
      ensures stale == Beyond(old(stale), old(off + fill))
      ensures Form() == old(Form().(off := 0, max := max + off, slid := slid + fill + 1))
    {
      hide Rep, Clean, Window, Resize, Dropped, NoNull, StoreSeq, Undefs, Reset, Moved;
      RepBounds(mem, Form(), flag);
      SlideMem(mem, Form(), flag, stale);
      stale := Beyond(stale, off + fill);
      var tmp := off;
      mem := Moved(mem, off, 0, fill + 1);
      slid := slid + fill + 1;
      max := max + tmp;
      off := 0;
      mem := ResetIfReal(flag, mem, fill + 1, tmp);
    }

    method Enlarge(interp: Interp, want: nat)
      requires Bounded() && block != 0 && off == 0 && want >= max
      modifies this`mem, this`block, this`max, this`copied
      modifies interp`heap, interp`stackBase, interp`stackSp, interp`stackMax
      ensures Bounded() && (old(Valid()) ==> Valid()) && Elems() == old(Elems())
      ensures Form() == Reallocate(old(Form()), want, interp.ptr)
      ensures mem[..old(max) + 1] == old(mem[..max + 1])
      ensures interp.curstack == this && old(interp.StackOk()) ==>
                interp.StackOk() && interp.stackSp.index == old(interp.stackSp.index)
      ensures ElsewhereKept(interp)
    {
      var newmax := RoundUp(want, interp.ptr);
      assert newmax >= max;
      var addr, ary := interp.Malloc(newmax + 1);
      GrowMem(mem, Form(), flag, ary, newmax, stale);
      ary := Copied(mem, ary, max + 1);
      copied := copied + max + 1;
      mem := ResetIfReal(flag, ary, max + 1, newmax - max);
      block := addr;
      max := newmax;
      Relocate(interp);
    }

    /** The stack pointers follow the current stack to its new block. */
    method Relocate(interp: Interp)
      modifies interp`stackBase, interp`stackSp, interp`stackMax
      ensures interp.curstack == this ==>
                && interp.stackBase == Ptr(block, 0) && interp.stackMax == Ptr(block, max)
                && interp.stackSp == Ptr(block, old(interp.stackSp.index - interp.stackBase.index))
      ensures ElsewhereKept(interp)
    {
      if interp.curstack == this {
        interp.stackSp := Ptr(block, interp.stackSp.index - interp.stackBase.index);
        interp.stackBase := Ptr(block, 0);
        interp.stackMax := Ptr(block, interp.stackBase.index + max);
      }
    }

    method Allocate(interp: Interp, newmax: nat)
      requires Bounded() && block == 0
      modifies this`mem, this`block, this`max, interp`heap
      ensures Bounded() && (old(Valid()) ==> Valid()) && Elems() == old(Elems())
      ensures Form() == old(Form()).(live := true, max := newmax)
    {
      var addr, ary := interp.Malloc(newmax + 1);
      ary := ary[0 := Undef];
      GrowMem(mem, Form(), flag, ary, newmax, stale);
      mem := ResetIfReal(flag, ary, 1, newmax);
      block := addr;
      max := newmax;
    }

    method Fetch(interp: Interp, key: int, lval: bool) returns (slot: Ptr)
      requires Valid()
      modifies this, interp`ledger, interp`next, interp`heap, interp`stackBase, interp`stackSp, interp`stackMax
      ensures Valid() && refs == old(refs)
      ensures stale == StaleAfter(old(State(interp)), old(stale), Op.Fetch(key, lval), interp.ptr)
      ensures Rest(State(interp)) == Rest(StepFetch(old(State(interp)), key, lval, interp.ptr).0)
      ensures State(interp) == StepFetch(old(State(interp)), key, lval, interp.ptr).0 <==>
              !Exposes(old(State(interp)), old(stale), Op.Fetch(key, lval), interp.ptr)
      ensures Read(slot) == StepFetch(old(State(interp)), key, lval, interp.ptr).1
      ensures slot == SlotFor(Read(slot).Got?, Resolve(old(fill) + 1, key))
      ensures StackAfter(interp, if lval && old(Vacant(State(interp).w, key)) then Resolve(old(fill) + 1, key) else -1)
    {
      hide Clean, Put, StoreShape, StoreSeq;
      var k := key;
      if k < 0 {
        k := k + fill + 1;
        if k < 0 {
          return Ptr(0, 0);
        }
      }
      assert k <= fill ==> mem[off + k] == Elems()[k];
      if k > fill || mem[off + k] == Undef {
        if lval {
          slot := FetchNew(interp, k);
        } else {
          slot := Ptr(0, 0);
        }
      } else {
        slot := Ptr(block, off + k);
      }
    }

    /** A fetch for modification of a vacant index stores a new scalar there. */
    method FetchNew(interp: Interp, k: nat) returns (slot: Ptr)
      requires Valid() && Vacant(State(interp).w, k)
      modifies this, interp`ledger, interp`next, interp`heap, interp`stackBase, interp`stackSp, interp`stackMax
      ensures Valid() && refs == old(refs) && stale == StoreStale(old(Form()), k, old(stale), interp.ptr)
      ensures Rest(State(interp)) == Rest(StepFetch(old(State(interp)), k, true, interp.ptr).0)
      ensures State(interp) == StepFetch(old(State(interp)), k, true, interp.ptr).0 <==>
              !StoreExposes(old(Form()), k, old(stale), interp.ptr)
      ensures Read(slot) == StepFetch(old(State(interp)), k, true, interp.ptr).1
      ensures slot == SlotFor(true, k) && StackAfter(interp, k)
    {
      hide Rep, Clean, Put, StoreShape, StoreSeq, Window;
      var sv := interp.NewSv();
      slot := Store(interp, k, sv);
    }

    /** The pointer to the slot of index k in the present block, or null. */
    function SlotFor(found: bool, k: int): Ptr
      reads this
    {
      if found then Ptr(block, off + k) else Ptr(0, 0)
    }

    /** What a slot pointer shows; nothing if it is null or points into a block given up. */
    function Read(slot: Ptr): Reply
      reads this
    {
      if slot.block == 0 || slot.block != block || !(0 <= slot.index < |mem|) then Nothing
      else Got(mem[slot.index])
    }

    method Store(interp: Interp, key: int, val: Sv) returns (slot: Ptr)
      requires Valid()
      modifies this, interp`ledger, interp`next, interp`heap, interp`stackBase, interp`stackSp, interp`stackMax
      ensures Valid() && refs == old(refs)
      ensures stale == StaleAfter(old(State(interp)), old(stale), Op.Store(key, val), interp.ptr)
      ensures Rest(State(interp)) == Rest(StepStore(old(State(interp)), key, val, interp.ptr).0)
      ensures State(interp) == StepStore(old(State(interp)), key, val, interp.ptr).0 <==>
              !Exposes(old(State(interp)), old(stale), Op.Store(key, val), interp.ptr)
      ensures Read(slot) == StepStore(old(State(interp)), key, val, interp.ptr).1
      ensures slot == SlotFor(Resolve(old(fill) + 1, key) >= 0, Resolve(old(fill) + 1, key))
      ensures StackAfter(interp, Resolve(old(fill) + 1, key))
    {
      hide Rep, Clean;
      var v := if val == Null then Undef else val;
      var k := key;
      if k < 0 {
        k := k + fill + 1;
        if k < 0 {
          return Ptr(0, 0);
        }
      }
      StoreAt(interp, k, v);
      slot := Ptr(block, off + k);
    }

    method StoreAt(interp: Interp, k: nat, v: Sv)
      requires Valid() && v != Null
      modifies this, interp`ledger, interp`next, interp`heap, interp`stackBase, interp`stackSp, interp`stackMax
      ensures Valid() && refs == old(refs) && Read(Ptr(block, off + k)) == Got(v)
      ensures State(interp).w.(elems := []) == old(Put(Reified(State(interp).w), k, v)).(elems := [])
      ensures State(interp).w == old(Put(Reified(State(interp).w), k, v)) <==>
              !StoreExposes(old(Form()), k, old(stale), interp.ptr)
      ensures Form() == StoreShape(old(Form()), k, interp.ptr)
      ensures stale == StoreStale(old(Form()), k, old(stale), interp.ptr) && StackAfter(interp, k)
    {
      hide Rep, Clean, Window;
      MakeRoom(interp, k);
      if fill < k {
        Append(interp, k, v);
      } else {
        Overwrite(interp, k, v);
      }
    }

    /** A Reify array becomes Real before it is modified; then index k is made available. */
    method MakeRoom(interp: Interp, k: nat)
      requires Valid()
      modifies this, interp`ledger, interp`next, interp`heap, interp`stackBase, interp`stackSp, interp`stackMax
      ensures Valid() && refs == old(refs) && flag != Flag.Reify && k <= max && block != 0
      ensures State(interp).w == old(Reified(State(interp).w))
      ensures Form() == ExtendShape(old(Form()), k, interp.ptr)
      ensures stale == ExtendStale(old(Form()), k, old(stale)) && StackAfter(interp, -1)
    {
      hide Clean;
      if flag == Flag.Reify {
        Reify(interp);
      }
      if k > max {
        Extend(interp, k);
      }
    }

    /** Work on an array that is not the current stack leaves the stack pointers alone. */
    twostate predicate ElsewhereKept(interp: Interp)
      reads interp
    {
      interp.curstack != this ==>
        && interp.stackBase == old(interp.stackBase) && interp.stackSp == old(interp.stackSp)
        && interp.stackMax == old(interp.stackMax)
    }

    /** The stack pointers follow the current stack to its block; index k becomes the top if it lies
        beyond, on an array that is never counted. */
    twostate predicate StackAfter(interp: Interp, k: int)
      reads this, interp, interp.curstack
    {
      && ElsewhereKept(interp)
      && (interp.curstack == this && old(interp.StackOk()) ==>
            && interp.StackOk()
            && interp.stackSp.index == if old(flag) == Plain && k > old(fill) && k > old(interp.stackSp.index) then k
                                       else old(interp.stackSp.index))
    }

    method Append(interp: Interp, k: nat, v: Sv)
      requires Bounded() && fill < k <= max && v != Null && flag != Flag.Reify
      modifies this`mem, this`fill, this`stale, interp`stackSp
      ensures Bounded() && Form() == old(Form()).(fill := k)
      ensures flag == Real ==> Elems() == old(mem[off..off + k]) + [v]
      ensures stale == Beyond(old(stale), off + k)
      ensures old(Valid()) ==>
                && Valid()
                && (Elems() == StoreSeq(old(Elems()), k, v) <==> !Between(old(stale), old(off + fill), off + k))
      ensures Read(Ptr(block, off + k)) == Got(v)
      ensures StackAfter(interp, k)
    {
      hide Rep, Clean, Window, Resize, Dropped, NoNull, StoreSeq, Undefs, Reset, Moved;
      RepBounds(mem, Form(), flag);
      AppendMem(mem, Form(), flag, k, v, stale);
      if flag != Real {
        RaiseStack(interp, k);
      }
      mem := PadUnlessReal(flag, mem, off + fill + 1, k - fill);
      fill := k;
      mem := mem[off + k := v];
      stale := Beyond(stale, off + k);
    }

    /** Storing beyond the top of the current stack pushes. */
    method RaiseStack(interp: Interp, k: nat)
      modifies interp`stackSp
      ensures interp.stackSp == old(if interp.curstack == this && k > interp.stackSp.index - interp.stackBase.index
                                    then Ptr(interp.stackBase.block, interp.stackBase.index + k)
                                    else interp.stackSp)
    {
      if interp.curstack == this && k > interp.stackSp.index - interp.stackBase.index {
        interp.stackSp := Ptr(interp.stackBase.block, interp.stackBase.index + k);
      }
    }

    method Overwrite(interp: Interp, k: nat, v: Sv)
      requires Valid() && k <= fill && v != Null
      modifies this`mem, interp`ledger
      ensures Valid() && Elems() == old(Elems())[k := v] && Read(Ptr(block, off + k)) == Got(v)
      ensures interp.ledger == old(if flag == Real then Release(interp.ledger, Elems()[k]) else interp.ledger)
    {
      WriteMem(mem, Form(), flag, k, v, stale);
      if flag == Real {
        interp.RefcntDec(mem[off + k]);
      }
      mem := mem[off + k := v];
    }

    method Push(interp: Interp, val: Sv)
      requires Valid()
      modifies this, interp`ledger, interp`next, interp`heap, interp`stackBase, interp`stackSp, interp`stackMax
      ensures Valid() && refs == old(refs)
      ensures State(interp) == Step(old(State(interp)), Op.Push(val), interp.ptr).0
      ensures stale == StaleAfter(old(State(interp)), old(stale), Op.Push(val), interp.ptr)
      ensures StackAfter(interp, old(fill) + 1)
    {
      hide Rep, Clean, Put, StoreShape;
      var slot := Store(interp, fill + 1, val);
    }

    method Pop() returns (sv: Sv)
      requires Valid()
      modifies this`mem, this`fill
      ensures Valid()
      ensures if old(fill) < 0 then sv == Undef && mem == old(mem) && fill == old(fill)
              else sv == old(Elems())[old(fill)] && Elems() == old(Elems())[..old(fill)] && fill == old(fill) - 1
    {
      if fill < 0 {
        return Undef;
      }
      PopMem(mem, Form(), flag, stale);
      sv := mem[off + fill];
      mem := mem[off + fill := Undef];
      fill := fill - 1;
    }

    method Shift() returns (sv: Sv)
      requires Valid()
      modifies this`mem, this`off, this`max, this`fill
      ensures Valid()
      ensures if old(fill) < 0 then sv == Undef && mem == old(mem) && Form() == old(Form())
              else sv == old(Elems())[0] && Elems() == old(Elems())[1..] && Form() == ShiftShape(old(Form()))
    {
      if fill < 0 {
        return Undef;
      }
      ShiftMem(mem, Form(), flag, stale);
      sv := mem[off];
      mem := ResetIfReal(flag, mem, off, 1);
      off := off + 1;
      max := max - 1;
      fill := fill - 1;
    }

    /** What num unshifted slots show. Slots before the window of an array that is never counted are
        not reset and may hold anything. */
    ghost function Fronted(num: int): (s: seq<Sv>)
      requires Valid() && num > 0
      reads this
      ensures |s| == num && (flag != Plain || off == 0 ==> s == Undefs(num))
    {
      if flag == Plain then FrontOf(mem, off, num) else Undefs(num)
    }

    method Unshift(interp: Interp, num: int)
      requires Valid()
      modifies this, interp`ledger, interp`next, interp`heap, interp`stackBase, interp`stackSp, interp`stackMax
      ensures Valid() && refs == old(refs)
      ensures num > 0 ==> Elems() == old(Fronted(num)) + old(Elems())
      ensures stale == StaleAfter(old(State(interp)), old(stale), Op.Unshift(num), interp.ptr)
      ensures Rest(State(interp)) == Rest(Step(old(State(interp)), Op.Unshift(num), interp.ptr).0)
      ensures State(interp) == Step(old(State(interp)), Op.Unshift(num), interp.ptr).0 <==>
              num <= 0 || old(flag) != Plain || old(FrontClean(num))
      ensures ElsewhereKept(interp)
    {
      if num <= 0 {
        return;
      }
      if flag == Plain {
        RepBounds(mem, Form(), flag);
        FrontIsUndef(mem, off, num, Elems());
      }
      UnshiftSome(interp, num);
    }

    /** The slots before the window that unshifting num elements reclaims are undef. */
    ghost predicate FrontClean(num: int)
      reads this
    {
      forall i :: 0 <= i < off && i < |mem| && off - num <= i ==> mem[i] == Undef
    }

    method UnshiftSome(interp: Interp, num: nat)
      requires Valid() && num > 0
      modifies this, interp`ledger, interp`next, interp`heap, interp`stackBase, interp`stackSp, interp`stackMax
      ensures Valid() && refs == old(refs)
      ensures Elems() == old(Fronted(num)) + old(Elems())
      ensures Form() == UnshiftShape(old(Form()), num, interp.ptr)
      ensures flag == old(Reified(State(interp).w).flag) && interp.next == old(interp.next)
      ensures interp.ledger == old(Reified(State(interp).w).ledger)
      ensures stale == UnshiftStale(old(Form()), num, old(stale))
      ensures ElsewhereKept(interp)
    {
      hide Rep, Clean, Window, UnshiftShape;
      if flag == Flag.Reify {
        Reify(interp);
      }
      UnshiftReady(interp, num);
    }

    method UnshiftReady(interp: Interp, num: nat)
      requires Valid() && num > 0 && flag != Flag.Reify
      modifies this, interp`heap, interp`stackBase, interp`stackSp, interp`stackMax
      ensures Valid() && refs == old(refs) && flag == old(flag)
      ensures ElsewhereKept(interp)
      ensures stale == UnshiftStale(old(Form()), num, old(stale))
      ensures Elems() == FrontOf(old(mem), old(off), num) + old(Elems())
      ensures flag == Real ==> FrontOf(old(mem), old(off), num) == Undefs(num)
      ensures Form() == UnshiftShape(old(Form()), num, interp.ptr)
    {
      hide Rep, Clean, Window, Undefs, UnshiftShape, UnshiftStale, FrontOf;
      RepBounds(mem, Form(), flag);
      UnshiftInParts(Form(), num, interp.ptr);
      UnshiftStaleInParts(Form(), num, stale);
      FrontJoin(mem, off, num, Elems());
      var back := if off > num then num else off;
      Reclaim(back);
      OpenRest(interp, num - back);
    }

    method OpenRest(interp: Interp, num: nat)
      requires Valid() && (num > 0 ==> off == 0) && flag != Flag.Reify
      modifies this, interp`heap, interp`stackBase, interp`stackSp, interp`stackMax
      ensures Valid() && refs == old(refs) && flag == old(flag)
      ensures ElsewhereKept(interp)
      ensures Elems() == Undefs(num) + old(Elems())
      ensures stale == if num == 0 then old(stale) else UnshiftStale(old(Form()), num, old(stale))
      ensures Form() == if num == 0 then old(Form()) else UnshiftShape(old(Form()), num, interp.ptr)
    {
      hide Rep, Clean, Window;
      if num > 0 {
        OpenFront(interp, num);
      }
    }

    /** The window takes back slots from the ones that shifts have left before it. */
    method Reclaim(back: nat)
      requires Valid() && back <= off && flag != Flag.Reify
      modifies this`off, this`max, this`fill
      ensures Valid() && Elems() == old(mem[off - back..off]) + old(Elems())
      ensures Form() == old(Form().(off := off - back, max := max + back, fill := fill + back))
      ensures flag == Real ==> old(mem[off - back..off]) == Undefs(back)
    {
      hide Rep, Clean, Window, Undefs;
      RepBounds(mem, Form(), flag);
      ReclaimMem(mem, Form(), flag, back, stale);
      max := max + back;
      fill := fill + back;
      off := off - back;
    }

    /** The window moves up, leaving a reserve of as many slots as the old last index. */
    method OpenFront(interp: Interp, num: nat)
      requires Valid() && off == 0 && num > 0 && flag != Flag.Reify
      modifies this, interp`heap, interp`stackBase, interp`stackSp, interp`stackMax
      ensures Valid() && refs == old(refs) && flag == old(flag)
      ensures ElsewhereKept(interp)
      ensures Elems() == Undefs(num) + old(Elems())
      ensures stale == UnshiftStale(old(Form()), num, old(stale))
      ensures Form() == UnshiftShape(old(Form()), num, interp.ptr)
    {
      hide Rep, Clean, Window;
      var i := fill;
      var slide := if i > 0 then i else 0;
      Extend(interp, i + num + slide);
      SlideUp(num + slide, slide);
    }

    method SlideUp(num: nat, slide: nat)
      requires Valid() && off == 0 && slide <= num && fill + num <= max && flag != Flag.Reify
      modifies this`mem, this`off, this`max, this`fill, this`moved, this`stale
      ensures stale == Beyond(old(stale), old(fill) + num)
      ensures Valid() && Elems() == Undefs(num - slide) + old(Elems())
      ensures Form() == old(Form().(off := slide, max := max - slide, fill := fill + num - slide,
                                    moved := moved + fill + 1))
    {
      hide Rep, Clean, Window, Resize, Dropped, NoNull, StoreSeq, Undefs, Reset, Moved;
      RepBounds(mem, Form(), flag);
      RoomMem(mem, Form(), flag, num, slide, stale);
      stale := Beyond(stale, fill + num);
      moved := moved + fill + 1;
      var ary := Moved(mem, 0, num, fill + 1);
      mem := ResetSlots(ary, 0, num);
      fill, max, off := fill + num - slide, max - slide, off + slide;
      assert Form() == old(Form().(off := slide, max := max - slide, fill := fill + num - slide,
                                   moved := moved + fill + 1));
    }

    method Fill(interp: Interp, last: int)
      requires Valid()
      modifies this, interp`ledger, interp`next, interp`heap, interp`stackBase, interp`stackSp, interp`stackMax
      ensures Valid() && refs == old(refs)
      ensures stale == StaleAfter(old(State(interp)), old(stale), Op.Fill(last), interp.ptr)
      ensures Rest(State(interp)) == Rest(StepFill(old(State(interp)), last, interp.ptr))
      ensures State(interp) == StepFill(old(State(interp)), last, interp.ptr) <==>
              !Exposes(old(State(interp)), old(stale), Op.Fill(last), interp.ptr)
      ensures StackAfter(interp, if last > old(max) then last else -1)
    {
      hide Rep, Clean, Window, Put, StoreShape;
      var n := if last < 0 then -1 else last;
      if n <= max {
        FillWithin(interp, n + 1);
      } else {
        var slot := Store(interp, n, Undef);
      }
    }

    method FillWithin(interp: Interp, n: nat)
      requires Valid() && n <= max + 1
      modifies this`mem, this`fill, this`stale, interp`ledger
      ensures Valid() && stale == FillStale(old(Form()), n - 1, old(stale), interp.ptr)
      ensures Rest(State(interp)) == Rest(StepFill(old(State(interp)), n - 1, interp.ptr))
      ensures State(interp) == StepFill(old(State(interp)), n - 1, interp.ptr) <==>
              !FillExposes(old(Form()), n - 1, old(stale), interp.ptr)
    {
      hide Rep, Clean, Window, Resize, Dropped;
      if n <= fill + 1 {
        CutTo(interp, n);
      } else {
        PadTo(n);
      }
    }

    method CutTo(interp: Interp, n: nat)
      requires Valid() && n <= fill + 1
      modifies this`mem, this`fill, interp`ledger
      ensures Valid() && Elems() == Resize(old(Elems()), n) && Form() == old(Form()).(fill := n - 1)
      ensures interp.ledger == old(GiveUp(flag, interp.ledger, Dropped(Elems(), n)))
    {
      hide Rep, Clean, Window, Resize, Dropped, NoNull, StoreSeq, Undefs, Reset, Moved;
      RepBounds(mem, Form(), flag);
      CutMem(mem, Form(), flag, n, stale);
      ReleaseIfReal(interp, flag, mem, off + n, fill + 1 - n, Dropped(Elems(), n));
      mem := ResetIfReal(flag, mem, off + n, fill + 1 - n);
      fill := n - 1;
    }

    method PadTo(n: nat)
      requires Valid() && fill < n <= max + 1
      modifies this`mem, this`fill, this`stale
      ensures Valid() && Form() == old(Form()).(fill := n - 1) && stale == Beyond(old(stale), off + n - 1)
      ensures Elems() == Resize(old(Elems()), n) <==> !Between(old(stale), old(off + fill), off + n)
      ensures Dropped(old(Elems()), n) == []
    {
      hide Rep, Clean, Window, Resize, Dropped, NoNull, StoreSeq, Undefs, Reset, Moved;
      RepBounds(mem, Form(), flag);
      PadMem(mem, Form(), flag, n, stale);
      stale := Beyond(stale, off + n - 1);
      mem := PadUnlessReal(flag, mem, off + fill + 1, n - 1 - fill);
      fill := n - 1;
    }

    method Clear(interp: Interp)
      requires Valid()
      modifies this`mem, this`off, this`max, this`fill, interp`ledger
      ensures Valid() && Elems() == []
      ensures Form() == ClearShape(old(Form()))
      ensures interp.ledger == old(GiveUp(flag, interp.ledger, Elems()))
    {
      hide Rep, Clean;
      assert Dropped(Elems(), 0) == Elems();
      if max < 0 {
        RepBounds(mem, Form(), flag);
        assert Elems() == [];
        return;
      }
      CutTo(interp, 0);
      Rewind();
    }

    method Rewind()
      requires Valid() && fill == -1
      modifies this`off, this`max
      ensures Valid() && Form() == old(Form().(off := 0, max := max + off))
    {
      RewindMem(mem, Form(), flag, stale);
      max := max + off;
      off := 0;
    }

    method Undefine(interp: Interp)
      requires Valid()
      modifies this`mem, this`block, this`off, this`max, this`fill, this`stale, interp`ledger
      ensures Valid() && Elems() == [] && stale == {}
      ensures Form() == old(Form()).(live := false, off := 0, fill := -1, max := -1)
      ensures interp.ledger == old(GiveUp(flag, interp.ledger, Elems()))
    {
      ReleaseIfReal(interp, flag, mem, off, fill + 1, Elems());
      block, mem, off, max, fill := 0, [], 0, -1, -1;
      stale := {};
    }

    method Exists(key: int) returns (b: bool)
      requires Valid()
      ensures var k := Resolve(fill + 1, key);
              b <==> 0 <= k <= fill && Elems()[k] != Undef && Elems()[k] != Null
    {
      var k := key;
      if k < 0 {
        k := k + fill + 1;
        if k < 0 {
          return false;
        }
      }
      assert k <= fill ==> mem[off + k] == Elems()[k];
      b := k <= fill && mem[off + k] != Undef && mem[off + k] != Null;
    }

    method Delete(interp: Interp, key: int, discard: bool) returns (sv: Sv)
      requires Valid()
      modifies this`mem, this`fill, this`stale, interp`ledger
      ensures Valid()
      ensures State(interp) == Step(old(State(interp)), Op.Delete(key, discard), interp.ptr).0
      ensures Got(sv) == Step(old(State(interp)), Op.Delete(key, discard), interp.ptr).1
      ensures stale == StaleAfter(old(State(interp)), old(stale), Op.Delete(key, discard), interp.ptr)
      ensures stale == old(stale) <==> flag != Real || old(DeleteIsClean(State(interp).w, key))
    {
      var k := key;
      if k < 0 {
        k := k + fill + 1;
        if k < 0 {
          return Null;
        }
      }
      if k > fill {
        return Null;
      }
      sv := TakeOut(k);
      if discard {
        interp.RefcntDec(sv);
        sv := Null;
      }
    }

    method TakeOut(k: nat) returns (sv: Sv)
      requires Valid() && k <= fill
      modifies this`mem, this`fill, this`stale
      ensures Valid() && sv == old(Elems())[k]
      ensures Elems() == old(if k == fill then TrimUndef(Elems()[..k]) else Elems()[k := Undef])
      ensures Form() == old(Form()).(fill := |Elems()| - 1)
      ensures stale == old(if flag == Real && k == fill then stale + LeftBehind(Form(), Elems()[fill]) else stale)
      ensures flag == Real && k == old(fill) ==> (stale == old(stale) <==> sv == Undef)
    {
      assert mem[off + k] == Elems()[k];
      sv := mem[off + k];
      if k == fill {
        DropLast();
      } else {
        WriteMem(mem, Form(), flag, k, Undef, stale);
        mem := mem[off + k := Undef];
      }
    }

    method DropLast()
      requires Valid() && fill >= 0
      modifies this`fill, this`stale
      ensures Valid() && Elems() == TrimUndef(old(Elems())[..old(fill)])
      ensures Form() == old(Form()).(fill := |Elems()| - 1)
      ensures stale == old(if flag == Real then stale + LeftBehind(Form(), Elems()[fill]) else stale)
      ensures flag == Real ==> (stale == old(stale) <==> old(Elems())[old(fill)] == Undef)
    {
      assert mem[off..off + fill] == Elems()[..fill];
      var n: int := TrimFill(mem, off, fill, Elems()[..fill]);
      assert Elems()[..fill][..n] == Elems()[..n];
      DeleteLastMem(mem, Form(), flag, n, stale);
      ghost var left := LeftBehind(Form(), Elems()[fill]);
      fill := n - 1;
      if flag == Real {
        stale := stale + left;
      }
    }
  }
}
