/** Whole runs of operations on one array object. */
module ArrayRun {
  import opened Growth
  import opened ArraySpec
  import opened Memory
  import opened PerlArray

  /** Any run of operations whatever, on a counted or reifiable array object. It passes through the
      states that the specification of the run says, from the first to the last, if and only if no
      operation shows a slot that av_delete has left stale; the replies are then those of the
      specification too. */
  method Execute(av: AV, interp: Interp, ops: seq<Op>) returns (replies: seq<Reply>, ghost states: seq<Machine>)
    requires av.Valid() && av.flag != Plain
    modifies av, interp
    ensures av.Valid() && av.flag != Plain
    ensures |states| == |ops| + 1 && states[0] == old(av.State(interp)) && states[|ops|] == av.State(interp)
    ensures Follows(states, ops, interp.ptr) <==>
            NeverExposes(old(av.State(interp)), old(av.stale), ops, interp.ptr)
    ensures Follows(states, ops, interp.ptr) ==>
              && replies == Run(old(av.State(interp)), ops, interp.ptr).1
              && av.stale == Leftover(old(av.State(interp)), old(av.stale), ops, interp.ptr)
  {
    hide Step, StaleAfter, Exposes, Rep, Clean, Window, Follows, NeverExposes, Leftover, Run;
    ghost var m, stale := av.State(interp), av.stale;
    replies, states := [], [m];
    NothingYet(m, stale, interp.ptr);
    assert ops[..0] == [];
    for i := 0 to |ops|
      invariant av.Valid() && av.flag != Plain
      invariant |states| == i + 1 && states[0] == m && states[i] == av.State(interp)
      invariant Follows(states, ops[..i], interp.ptr) <==> NeverExposes(m, stale, ops[..i], interp.ptr)
      invariant Follows(states, ops[..i], interp.ptr) ==>
                  && (av.State(interp), replies) == Run(m, ops[..i], interp.ptr)
                  && av.stale == Leftover(m, stale, ops[..i], interp.ptr)
    {
      ghost var before, stale0 := av.State(interp), av.stale;
      var reply := Perform(av, interp, ops[i]);
      OneMore(m, stale, states, ops[..i], ops[i], av.State(interp), interp.ptr);
      assert ops[..i + 1] == ops[..i] + [ops[i]];
      replies, states := replies + [reply], states + [av.State(interp)];
    }
    assert ops[..|ops|] == ops;
  }

  /** The states are those of the run, after each of its operations. */
  ghost predicate Follows(states: seq<Machine>, ops: seq<Op>, ptr: PtrSize)
    requires |states| == |ops| + 1
  {
    && (forall i :: 0 <= i <= |ops| ==> states[i].Sane())
    && (forall i :: 0 <= i <= |ops| ==> states[i] == Run(states[0], ops[..i], ptr).0)
  }

  lemma NothingYet(m: Machine, stale: set<int>, ptr: PtrSize)
    requires m.Sane()
    ensures Follows([m], [], ptr) && NeverExposes(m, stale, [], ptr)
    ensures Run(m, [], ptr) == (m, []) && Leftover(m, stale, [], ptr) == stale
  {
  }

  /** One more operation: what its specification adds to those of the run. */
  lemma OneMore(m: Machine, stale: set<int>, states: seq<Machine>, ops: seq<Op>, op: Op, m1: Machine, ptr: PtrSize)
    requires m.Sane() && m1.Sane() && |states| == |ops| + 1 && states[0] == m
    ensures var (m0, replies), stale0 := Run(m, ops, ptr), Leftover(m, stale, ops, ptr);
            var ops1 := ops + [op];
            && Run(m, ops1, ptr) == (Step(m0, op, ptr).0, replies + [Step(m0, op, ptr).1])
            && Leftover(m, stale, ops1, ptr) == StaleAfter(m0, stale0, op, ptr)
            && (NeverExposes(m, stale, ops1, ptr) <==>
                NeverExposes(m, stale, ops, ptr) && !Exposes(m0, stale0, op, ptr))
            && (Follows(states + [m1], ops1, ptr) <==> Follows(states, ops, ptr) && m1 == Step(m0, op, ptr).0)
  {
    hide Step, StaleAfter, Exposes;
    var ops1, states1 := ops + [op], states + [m1];
    assert ops1[..|ops|] == ops && ops1[..|ops1|] == ops1;
    assert forall i :: 0 <= i <= |ops| ==> ops1[..i] == ops[..i] && states1[i] == states[i];
    assert states1[|ops1|] == m1;
  }

  method Perform(av: AV, interp: Interp, op: Op) returns (reply: Reply)
    requires av.Valid() && av.flag != Plain
    modifies av, interp
    ensures av.Valid() && av.flag != Plain
    ensures reply == Step(old(av.State(interp)), op, interp.ptr).1
    ensures av.stale == StaleAfter(old(av.State(interp)), old(av.stale), op, interp.ptr)
    ensures av.State(interp) == Step(old(av.State(interp)), op, interp.ptr).0 <==>
            !Exposes(old(av.State(interp)), old(av.stale), op, interp.ptr)
  {
    hide Step, StaleAfter, Exposes, Rep, Clean, Window, Put;
    match op
    case Store(_, _) | Fetch(_, _) | Push(_) => reply := PerformStore(av, interp, op);
    case Pop | Shift | Clear | Undefine => reply := PerformRemove(av, interp, op);
    case Unshift(_) | Fill(_) | Extend(_) => reply := PerformGrow(av, interp, op);
    case Delete(_, _) | Exists(_) => reply := PerformProbe(av, interp, op);
  }

  method PerformStore(av: AV, interp: Interp, op: Op) returns (reply: Reply)
    requires av.Valid() && av.flag != Plain && (op.Store? || op.Fetch? || op.Push?)
    modifies av, interp
    ensures av.Valid() && av.flag != Plain
    ensures reply == Step(old(av.State(interp)), op, interp.ptr).1
    ensures av.stale == StaleAfter(old(av.State(interp)), old(av.stale), op, interp.ptr)
    ensures av.State(interp) == Step(old(av.State(interp)), op, interp.ptr).0 <==>
            !Exposes(old(av.State(interp)), old(av.stale), op, interp.ptr)
  {
    hide Rep, Clean, Window, StoreShape, StoreSeq;
    reply := Nothing;
    match op
    case Store(key, val) =>
      var slot := av.Store(interp, key, val);
      reply := av.Read(slot);
    case Fetch(key, lval) =>
      var slot := av.Fetch(interp, key, lval);
      reply := av.Read(slot);
    case Push(val) =>
      av.Push(interp, val);
  }

  method PerformRemove(av: AV, interp: Interp, op: Op) returns (reply: Reply)
    requires av.Valid() && av.flag != Plain && (op.Pop? || op.Shift? || op.Clear? || op.Undefine?)
    modifies av, interp
    ensures av.Valid() && av.flag != Plain
    ensures reply == Step(old(av.State(interp)), op, interp.ptr).1
    ensures av.stale == StaleAfter(old(av.State(interp)), old(av.stale), op, interp.ptr)
    ensures av.State(interp) == Step(old(av.State(interp)), op, interp.ptr).0 <==>
            !Exposes(old(av.State(interp)), old(av.stale), op, interp.ptr)
  {
    hide Rep, Clean, Window;
    reply := Nothing;
    match op
    case Pop =>
      var sv := av.Pop();
      reply := Got(sv);
    case Shift =>
      var sv := av.Shift();
      reply := Got(sv);
    case Clear => av.Clear(interp);
    case Undefine => av.Undefine(interp);
  }

  method PerformGrow(av: AV, interp: Interp, op: Op) returns (reply: Reply)
    requires av.Valid() && av.flag != Plain && (op.Unshift? || op.Fill? || op.Extend?)
    modifies av, interp
    ensures av.Valid() && av.flag != Plain
    ensures reply == Step(old(av.State(interp)), op, interp.ptr).1
    ensures av.stale == StaleAfter(old(av.State(interp)), old(av.stale), op, interp.ptr)
    ensures av.State(interp) == Step(old(av.State(interp)), op, interp.ptr).0 <==>
            !Exposes(old(av.State(interp)), old(av.stale), op, interp.ptr)
  {
    hide Rep, Clean, Window, UnshiftShape, ExtendShape;
    reply := Nothing;
    match op
    case Unshift(num) => av.Unshift(interp, num);
    case Fill(fill) => av.Fill(interp, fill);
    case Extend(key) => av.Extend(interp, key);
  }

  method PerformProbe(av: AV, interp: Interp, op: Op) returns (reply: Reply)
    requires av.Valid() && av.flag != Plain && (op.Delete? || op.Exists?)
    modifies av, interp
    ensures av.Valid() && av.flag != Plain
    ensures reply == Step(old(av.State(interp)), op, interp.ptr).1
    ensures av.stale == StaleAfter(old(av.State(interp)), old(av.stale), op, interp.ptr)
    ensures av.State(interp) == Step(old(av.State(interp)), op, interp.ptr).0 <==>
            !Exposes(old(av.State(interp)), old(av.stale), op, interp.ptr)
  {
    hide Rep, Clean, Window;
    match op
    case Delete(key, discard) =>
      var sv := av.Delete(interp, key, discard);
      reply := Got(sv);
    case Exists(key) =>
      var b := av.Exists(key);
      reply := Truth(b);
  }
}
