/** Run levels: the chain of stackinfos, each with its own argument stack and context index. */
module RunLevels {
  import opened Scalars
  import opened ArraySpec
  import opened Memory
  import opened PerlArray

  class StackInfo {
    const stack: AV
    var cxix: int          // si_cxix
    var kind: int          // si_type
    var prev: StackInfo?
    var next: StackInfo?

    /** A stack is an uncounted array that starts at its block and shows at least slot 0. */
    ghost predicate StackFit()
      reads stack
    {
      stack.Bounded() && stack.flag == Plain && stack.off == 0 && stack.block != 0 && stack.fill >= 0
    }

    constructor (interp: Interp, size: nat)
      requires size > 0
      modifies interp`heap, interp`stackBase, interp`stackSp, interp`stackMax
      ensures fresh(stack) && StackFit()
      ensures cxix == -1 && kind == 0 && prev == null && next == null && stack.fill == 0
      ensures interp.stackSp == old(interp.stackSp) && interp.stackBase == old(interp.stackBase)
      ensures interp.stackMax == old(interp.stackMax)
    {
      var av := NewStack(interp, size);
      stack, cxix, kind, prev, next := av, -1, 0, null, null;
    }

    method ResetStack()
      requires StackFit()
      modifies stack`fill
      ensures StackFit() && stack.fill == 0
    {
      stack.fill := 0;
    }

    static method NewStack(interp: Interp, size: nat) returns (av: AV)
      requires size > 0
      modifies interp`heap, interp`stackBase, interp`stackSp, interp`stackMax
      ensures fresh(av) && av.Bounded() && av.flag == Plain && av.off == 0 && av.block != 0 && av.fill == 0
      ensures interp.stackSp == old(interp.stackSp) && interp.stackBase == old(interp.stackBase)
      ensures interp.stackMax == old(interp.stackMax)
    {
      av := new AV.New();
      av.flag := Plain;
      av.Extend(interp, size - 1);
      av.mem := av.mem[0 := Undef];
      av.fill := 0;
    }
  }

  /** What a level holds: its context index, where its stack was left, and its slots. */
  datatype Note = Note(cxix: int, fill: int, slots: Mem)

  class Runtime {
    const interp: Interp
    var cur: StackInfo               // PL_curstackinfo
    ghost var chain: seq<StackInfo>  // every stackinfo ever made, innermost last
    ghost var level: nat             // where cur is in the chain

    /** The chain is a well-formed doubly linked list of distinct nodes with distinct stacks. */
    ghost predicate Linked()
      reads this`chain, chain
    {
      && chain != []
      && (forall i, j :: 0 <= i < j < |chain| ==> chain[i] != chain[j] && chain[i].stack != chain[j].stack)
      && chain[0].prev == null && chain[|chain| - 1].next == null
      && (forall i {:trigger chain[i].prev} :: 0 < i < |chain| ==> chain[i].prev == chain[i - 1])
      && (forall i {:trigger chain[i].next} :: 0 <= i < |chain| - 1 ==> chain[i].next == chain[i + 1])
    }

    ghost function Stacks(): set<AV>
      reads this`chain
    {
      set i | 0 <= i < |chain| :: chain[i].stack
    }

    /** The interpreter's stack pointers are those of the current level. */
    ghost predicate AtLevel()
      reads this, interp, interp.curstack, cur.stack
    {
      && level < |chain| && chain[level] == cur
      && interp.curstack == cur.stack && interp.StackOk()
      && 0 <= interp.stackSp.index <= cur.stack.max
    }

    ghost predicate Fits()
      reads this`chain, Stacks()
    {
      forall i :: 0 <= i < |chain| ==> chain[i].StackFit()
    }

    ghost predicate Valid()
      reads this, chain, Stacks(), interp, interp.curstack, cur.stack
    {
      Linked() && Fits() && AtLevel()
    }

    constructor (interp: Interp)
      modifies interp
      ensures Valid() && this.interp == interp && |chain| == 1 && level == 0 && cur.cxix == -1
      ensures fresh(cur) && fresh(cur.stack) && interp.stackSp.index == 0
    {
      this.interp := interp;
      var si := new StackInfo(interp, 128);
      cur, chain, level := si, [si], 0;
      new;
      interp.stackBase := Ptr(si.stack.block, 0);
      interp.stackMax := Ptr(si.stack.block, si.stack.max);
      interp.stackSp := Ptr(si.stack.block, 0);
      interp.curstack := si.stack;
    }

    /** SWITCHSTACK: the level that is left remembers its stack pointer as its fill. */
    method SwitchStack(t: StackInfo)
      requires t.StackFit() && t.stack != cur.stack && cur.StackFit()
      requires interp.curstack == cur.stack && interp.StackOk()
      requires 0 <= interp.stackSp.index <= cur.stack.max
      modifies cur.stack`fill, interp`stackBase, interp`stackSp, interp`stackMax, interp`curstack
      ensures cur.stack.fill == old(interp.stackSp.index) && cur.StackFit() && t.StackFit()
      ensures interp.curstack == t.stack && interp.StackOk() && interp.stackSp.index == t.stack.fill
    {
      cur.stack.fill := interp.stackSp.index - interp.stackBase.index;
      interp.stackBase := Ptr(t.stack.block, t.stack.off);
      interp.stackMax := Ptr(t.stack.block, interp.stackBase.index + t.stack.max);
      interp.stackSp := Ptr(t.stack.block, interp.stackBase.index + t.stack.fill);
      interp.curstack := t.stack;
    }

    /** The level after the current one, made on first use and kept for ever after. */
    method NextLevel() returns (nxt: StackInfo)
      requires Valid()
      modifies this`chain, cur`next, interp`heap, interp`stackBase, interp`stackSp, interp`stackMax
      ensures Valid() && level + 1 < |chain| && nxt == chain[level + 1]
      ensures if level + 1 < |old(chain)| then chain == old(chain)
              else |chain| == |old(chain)| + 1 && chain[..|old(chain)|] == old(chain) && fresh(nxt) && fresh(nxt.stack)
      ensures interp.stackSp == old(interp.stackSp)
    {
      assert chain[level].next == if level + 1 == |chain| then null else chain[level + 1];
      var found := cur.next;
      if found == null {
        nxt := Link();
      } else {
        nxt := found;
      }
    }

    method Link() returns (si: StackInfo)
      requires Valid() && level + 1 == |chain|
      modifies this`chain, cur`next, interp`heap, interp`stackBase, interp`stackSp, interp`stackMax
      ensures Valid() && chain == old(chain) + [si] && fresh(si) && fresh(si.stack)
      ensures interp.stackSp == old(interp.stackSp)
    {
      hide Rep, Window, Clean;
      si := new StackInfo(interp, 32);
      Attach(si);
    }

    method Attach(si: StackInfo)
      requires Valid() && level + 1 == |chain| && si.StackFit() && si.next == null
      requires forall i :: 0 <= i < |chain| ==> chain[i] != si && chain[i].stack != si.stack
      modifies this`chain, cur`next, si`prev
      ensures Valid() && chain == old(chain) + [si]
    {
      hide Rep, Window, Clean, Interp.StackOk;
      si.prev := cur;
      cur.next := si;
      chain := chain + [si];
    }

    /** A level is reset on entry. */
    method Reset(nxt: StackInfo, kind: int)
      requires Valid() && nxt in chain && nxt != cur
      modifies nxt`kind, nxt`cxix, nxt.stack`fill
      ensures Valid() && nxt.kind == kind && nxt.cxix == -1 && nxt.stack.fill == 0
    {
      hide Rep, Window, Clean;
      assert nxt.StackFit() && nxt.stack != cur.stack;
      nxt.kind := kind;
      nxt.cxix := -1;
      nxt.ResetStack();
    }

    method MoveTo(t: StackInfo, ghost at: nat)
      requires Valid() && at < |chain| && chain[at] == t && t != cur
      modifies this`cur, this`level, cur.stack`fill
      modifies interp`stackBase, interp`stackSp, interp`stackMax, interp`curstack
      ensures Valid() && cur == t && level == at && interp.stackSp.index == old(t.stack.fill)
      ensures old(cur).stack.fill == old(interp.stackSp.index)
    {
      SwitchStack(t);
      cur := t;
      level := at;
    }

    ghost function Ahead(): set<StackInfo>
      reads this, cur
    {
      if cur.next == null then {} else {cur.next}
    }

    ghost function StacksAhead(): set<AV>
      reads this, cur
    {
      if cur.next == null then {} else {cur.next.stack}
    }

    /** PUSHSTACKi. Of the levels that exist already, only the next one and the place where the
        current stack was left are written. */
    method PushStack(kind: int)
      requires Valid()
      modifies this`cur, this`level, this`chain, cur`next, cur.stack`fill
      modifies Ahead()`kind, Ahead()`cxix, StacksAhead()`fill
      modifies interp`heap, interp`stackBase, interp`stackSp, interp`stackMax, interp`curstack
      ensures Valid() && level == old(level) + 1
      ensures if level < |old(chain)| then chain == old(chain)
              else |chain| == |old(chain)| + 1 && chain[..|old(chain)|] == old(chain) && fresh(cur) && fresh(cur.stack)
      ensures cur.kind == kind && cur.cxix == -1 && interp.stackSp.index == 0
      ensures old(cur).stack.fill == old(interp.stackSp.index)
    {
      hide Rep, Window, Clean;
      assert level + 1 < |chain| ==> chain[level].next == chain[level + 1];
      assert level + 1 == |chain| ==> chain[level].next == null;
      var nxt := NextLevel();
      Reset(nxt, kind);
      MoveTo(nxt, level + 1);
    }

    /** POPSTACK; at the outermost level the source panics and exits instead. */
    method PopStack() returns (ok: bool)
      requires Valid()
      modifies this`cur, this`level, cur.stack`fill
      modifies interp`stackBase, interp`stackSp, interp`stackMax, interp`curstack
      ensures Valid() && (ok <==> old(level) > 0)
      ensures !ok ==> level == old(level) && interp.stackSp == old(interp.stackSp)
      ensures ok ==> level == old(level) - 1 && interp.stackSp.index == old(chain[level - 1].stack.fill)
      ensures ok ==> old(cur).stack.fill == old(interp.stackSp.index)
    {
      assert chain[level].prev == if level == 0 then null else chain[level - 1];
      var before := cur.prev;
      if before == null {
        return false;
      }
      MoveTo(before, level - 1);
      ok := true;
    }

    /** One round of POPSTACK_TO: unwind the level to its start and leave it. */
    method UnwindLevel() returns (ok: bool)
      requires Valid()
      modifies this`cur, this`level, cur`cxix, cur.stack`fill
      modifies interp`stackBase, interp`stackSp, interp`stackMax, interp`curstack
      ensures Valid() && (ok <==> old(level) > 0) && level == if ok then old(level) - 1 else 0
      ensures chain[old(level)].cxix == -1
      ensures forall i {:trigger chain[i].cxix} :: 0 <= i < |chain| && i != old(level) ==>
                                                     chain[i].cxix == old(chain[i].cxix)
    {
      hide Rep, Window, Clean;
      cur.cxix := -1;
      ok := PopStack();
    }

    /** Apart from the levels lo + 1 to hi, which have been unwound, context indices are as before. */
    twostate predicate Unwound(lo: int, hi: int)
      requires chain == old(chain)
      reads this`chain, chain
    {
      forall i {:trigger chain[i].cxix} :: 0 <= i < |chain| ==>
                                             chain[i].cxix == if lo < i <= hi then -1 else old(chain[i].cxix)
    }

    /** POPSTACK_TO, with the panic of POPSTACK at the outermost level as ok == false. The target
        is reached if and only if it is the stack of a level on the prev chain. */
    method PopStackTo(s: AV) returns (ok: bool)
      requires Valid()
      modifies this`cur, this`level, chain`cxix, Stacks()`fill
      modifies interp`stackBase, interp`stackSp, interp`stackMax, interp`curstack
      ensures Valid() && level <= old(level)
      ensures ok <==> exists i :: 0 <= i <= old(level) && chain[i].stack == s
      ensures if ok then interp.curstack == s && Unwound(level, old(level)) else level == 0 && Unwound(-1, old(level))
    {
      hide Rep, Window, Clean, Runtime.Fits, Runtime.Linked;
      while interp.curstack != s
        invariant Valid() && level <= old(level)
        invariant forall i :: level < i <= old(level) ==> chain[i].stack != s
        invariant Unwound(level, old(level))
        decreases level
      {
        assert chain[level].stack != s;
        var more := UnwindLevel();
        if !more {
          return false;
        }
      }
      ok := true;
      assert chain[level].stack == s;
    }

    ghost function NoteOf(i: nat): Note
      requires i < |chain|
      reads this`chain, chain, Stacks()
    {
      Note(chain[i].cxix, chain[i].stack.fill, chain[i].stack.mem)
    }

    /** What the outer n levels hold. */
    ghost function Notes(n: nat): (r: seq<Note>)
      requires n <= |chain|
      reads this`chain, chain, Stacks()
      ensures |r| == n && forall i :: 0 <= i < n ==> r[i] == NoteOf(i)
    {
      if n == 0 then [] else Notes(n - 1) + [NoteOf(n - 1)]
    }

    /** The outer n levels are the same nodes, with the same context indices, stack positions and
        slots. */
    twostate predicate OuterKept(n: nat)
      reads this`chain, chain, Stacks()
    {
      && n <= |old(chain)| <= |chain|
      && chain[..|old(chain)|] == old(chain)
      && Notes(n) == old(Notes(n))
    }

    twostate lemma KeptEach(n: nat)
      requires n <= |old(chain)| <= |chain| && chain[..|old(chain)|] == old(chain)
      requires forall i {:trigger NoteOf(i)} :: 0 <= i < n ==> NoteOf(i) == old(NoteOf(i))
      ensures OuterKept(n)
    {
      assert forall i :: 0 <= i < n ==> Notes(n)[i] == NoteOf(i) == old(NoteOf(i)) == old(Notes(n))[i];
    }

    /** The innermost of the outer levels, and the others. */
    lemma NotesSplit(n: nat)
      requires n < |chain|
      ensures Notes(n + 1) == Notes(n) + [NoteOf(n)]
    {
    }

    /** stack_grow: room for n more elements above the stack pointer. */
    method Grow(n: nat)
      requires Valid()
      modifies cur.stack, interp`heap, interp`stackBase, interp`stackSp, interp`stackMax
      ensures Valid() && interp.stackSp.index == old(interp.stackSp.index)
      ensures interp.stackSp.index + n < cur.stack.max && cur.stack.max >= old(cur.stack.max)
      ensures cur.stack.fill == old(cur.stack.fill)
      ensures cur.stack.mem[..old(cur.stack.max) + 1] == old(cur.stack.mem[..cur.stack.max + 1])
    {
      cur.stack.Extend(interp, interp.stackSp.index - interp.stackBase.index + n + 128);
    }

    method SetContext(ix: int)
      requires Valid()
      modifies cur`cxix
      ensures Valid() && cur.cxix == ix
    {
      cur.cxix := ix;
    }

    /** XPUSHs: the value goes above the stack pointer, on a larger stack if this one is full. */
    method Push(val: Sv)
      requires Valid()
      modifies cur.stack, interp`heap, interp`stackBase, interp`stackSp, interp`stackMax
      ensures Valid() && interp.stackSp.index == old(interp.stackSp.index) + 1
      ensures cur.stack.mem[interp.stackSp.index] == val && cur.stack.fill == old(cur.stack.fill)
      ensures forall i :: 0 <= i <= old(interp.stackSp.index) ==> cur.stack.mem[i] == old(cur.stack.mem)[i]
    {
      if interp.stackMax.index - interp.stackSp.index < 1 {
        Grow(1);
      }
      Put(val);
    }

    method Put(val: Sv)
      requires Valid() && interp.stackSp.index < cur.stack.max
      modifies cur.stack`mem, interp`stackSp
      ensures Valid() && interp.stackSp.index == old(interp.stackSp.index) + 1
      ensures interp.stackSp.index < |old(cur.stack.mem)|
      ensures cur.stack.mem == old(cur.stack.mem)[interp.stackSp.index := val]
    {
      hide Window, Clean;
      interp.stackSp := Ptr(interp.stackSp.block, interp.stackSp.index + 1);
      cur.stack.mem := cur.stack.mem[interp.stackSp.index := val];
    }

    /** The stack pointer set to a slot of the current stack. */
    method MoveSp(sp: nat)
      requires Valid()
      modifies interp`stackSp
      ensures Valid() && interp.stackSp.index == if sp <= cur.stack.max then sp else old(interp.stackSp.index)
    {
      if sp <= interp.stackMax.index {
        interp.stackSp := Ptr(interp.stackBase.block, sp);
      }
    }
  }

  /** What code may do at a run level: work on its own context stack, grow its argument stack, push
      values on it, move its stack pointer anywhere in it, or open a nested level for some code and
      close it again. */
  datatype Act =
    | SetContext(ix: int)
    | GrowStack(n: nat)
    | Push(val: Sv)
    | MoveSp(sp: nat)
    | Nested(kind: int, body: seq<Act>)

  /** Entering a level touches the outer levels only to note where the current stack was left. */
  method Enter(rt: Runtime, kind: int)
    requires rt.Valid()
    modifies rt, rt.chain, rt.Stacks(), rt.interp
    ensures rt.Valid() && rt.level == old(rt.level) + 1 && rt.OuterKept(old(rt.level))
    ensures rt.chain[rt.level - 1] == old(rt.cur)
    ensures rt.NoteOf(rt.level - 1) == Note(old(rt.cur.cxix), old(rt.interp.stackSp.index), old(rt.cur.stack.mem))
    ensures rt.cur.kind == kind && rt.cur.cxix == -1 && rt.interp.stackSp.index == 0
    ensures forall i :: |old(rt.chain)| <= i < |rt.chain| ==> fresh(rt.chain[i]) && fresh(rt.chain[i].stack)
  {
    hide Rep, Window, Clean, Runtime.Fits;
    ghost var c := rt.chain;
    assert c[rt.level] == rt.cur;
    assert rt.cur.next == if rt.level + 1 < |c| then c[rt.level + 1] else null;
    rt.PushStack(kind);
    assert forall i :: 0 <= i < |c| ==> rt.chain[i] == c[i];
    assert forall i :: |c| <= i < |rt.chain| ==> rt.chain[i] == rt.cur;
    assert rt.chain[rt.level - 1] == old(rt.cur);
    forall i {:trigger rt.NoteOf(i)} | 0 <= i < rt.level - 1 ensures rt.NoteOf(i) == old(rt.NoteOf(i)) {
      assert c[i] != rt.chain[rt.level] && c[i] != rt.chain[rt.level - 1];
      assert rt.chain[i] == c[i] && i < rt.level - 1;
    }
    rt.KeptEach(old(rt.level));
  }

  /** Nested code leaves every outer level as it found it, and its own level where it was. */
  method Bracket(rt: Runtime, kind: int, body: seq<Act>)
    requires rt.Valid()
    modifies rt, rt.chain, rt.Stacks(), rt.interp
    ensures rt.Valid() && rt.level == old(rt.level) && rt.cur == old(rt.cur) && rt.OuterKept(rt.level)
    ensures rt.cur.cxix == old(rt.cur.cxix) && rt.interp.stackSp.index == old(rt.interp.stackSp.index)
    ensures rt.cur.stack.mem == old(rt.cur.stack.mem)
    ensures forall i :: |old(rt.chain)| <= i < |rt.chain| ==> fresh(rt.chain[i]) && fresh(rt.chain[i].stack)
    decreases body, 1
  {
    hide Rep, Window, Clean, Runtime.Fits, Runtime.Linked, Interp.StackOk, Runtime.Notes;
    Enter(rt, kind);
    ghost var c := rt.chain;
    rt.NotesSplit(rt.level - 1);
    PerformAll(rt, body);
    forall i | |old(rt.chain)| <= i < |rt.chain| ensures fresh(rt.chain[i]) && fresh(rt.chain[i].stack) {
      if i < |c| {
        assert rt.chain[i] == c[i];
      }
    }
    Leave(rt);
    rt.NotesSplit(rt.level);
  }

  /** Leaving a level touches only the note of where its stack was. */
  method Leave(rt: Runtime)
    requires rt.Valid() && rt.level > 0
    modifies rt, rt.chain, rt.Stacks(), rt.interp
    ensures rt.Valid() && rt.level == old(rt.level) - 1 && rt.chain == old(rt.chain)
    ensures rt.OuterKept(rt.level + 1)
    ensures rt.interp.stackSp.index == old(rt.NoteOf(rt.level - 1)).fill
  {
    hide Rep, Window, Clean, Runtime.Fits, Interp.StackOk;
    ghost var c := rt.chain;
    assert forall i :: 0 <= i < rt.level ==> c[i] != rt.cur && c[i].stack != rt.cur.stack;
    var ok := rt.PopStack();
    rt.KeptEach(rt.level + 1);
  }

  method PerformAll(rt: Runtime, acts: seq<Act>)
    requires rt.Valid()
    modifies rt, rt.chain, rt.Stacks(), rt.interp
    ensures rt.Valid() && rt.level == old(rt.level) && rt.cur == old(rt.cur) && rt.OuterKept(rt.level)
    ensures forall i :: |old(rt.chain)| <= i < |rt.chain| ==> fresh(rt.chain[i]) && fresh(rt.chain[i].stack)
    decreases acts, 0
  {
    hide Rep, Window, Clean, Runtime.Fits, Runtime.Notes;
    if acts != [] {
      Perform(rt, acts[0]);
      PerformAll(rt, acts[1..]);
    }
  }

  method Perform(rt: Runtime, act: Act)
    requires rt.Valid()
    modifies rt, rt.chain, rt.Stacks(), rt.interp
    ensures rt.Valid() && rt.level == old(rt.level) && rt.cur == old(rt.cur) && rt.OuterKept(rt.level)
    ensures forall i :: |old(rt.chain)| <= i < |rt.chain| ==> fresh(rt.chain[i]) && fresh(rt.chain[i].stack)
    decreases act, 2
  {
    hide Rep, Window, Clean, Runtime.Fits, Runtime.Notes;
    match act
    case Nested(kind, body) => Bracket(rt, kind, body);
    case _ => WorkAt(rt, act);
  }

  /** Work at one level touches no other. */
  method WorkAt(rt: Runtime, act: Act)
    requires rt.Valid() && !act.Nested?
    modifies rt.cur, rt.cur.stack, rt.interp
    ensures rt.Valid() && rt.OuterKept(rt.level)
  {
    hide Rep, Window, Clean, Runtime.Fits, Interp.StackOk;
    ghost var c := rt.chain;
    assert forall i :: 0 <= i < rt.level ==> c[i] != rt.cur && c[i].stack != rt.cur.stack;
    match act
    case SetContext(ix) => rt.SetContext(ix);
    case GrowStack(n) => rt.Grow(n);
    case Push(val) => rt.Push(val);
    case MoveSp(sp) => rt.MoveSp(sp);
    rt.KeptEach(rt.level);
  }
}
