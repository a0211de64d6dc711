/** What holds over every run of array operations: the contents follow a plain sequence, and no
    reference is lost or dropped twice. */
module ArrayTheorems {
  import opened Scalars
  import opened Growth
  import opened ArraySpec

  // ----- the contents are a plain sequence with undef holes -----

  datatype Plainly = Plainly(s: seq<Sv>, next: nat)

  /** The operations on a plain sequence: no flags, no reference counts, no capacity. next is the
      number of the next scalar that a fetch for modification would create. */
  function SeqStep(p: Plainly, op: Op): (Plainly, Reply) {
    var s, n := p.s, |p.s|;
    match op
    case Store(key, val) =>
      var k := Resolve(n, key);
      if k < 0 then (p, Nothing) else (p.(s := StoreSeq(s, k, Stored(val))), Got(Stored(val)))
    case Fetch(key, lval) =>
      var k := Resolve(n, key);
      if k < 0 then (p, Nothing)
      else if k < n && s[k] != Undef then (p, Got(s[k]))
      else if lval then (Plainly(StoreSeq(s, k, Scalar(p.next)), p.next + 1), Got(Scalar(p.next)))
      else (p, Nothing)
    case Push(val) => (p.(s := s + [Stored(val)]), Nothing)
    case Pop => if n == 0 then (p, Got(Undef)) else (p.(s := s[..n - 1]), Got(s[n - 1]))
    case Shift => if n == 0 then (p, Got(Undef)) else (p.(s := s[1..]), Got(s[0]))
    case Unshift(num) => (p.(s := Undefs(if num > 0 then num else 0) + s), Nothing)
    case Fill(fill) => (p.(s := Resize(s, if fill < 0 then 0 else fill + 1)), Nothing)
    case Clear => (p.(s := []), Nothing)
    case Undefine => (p.(s := []), Nothing)
    case Extend(_) => (p, Nothing)
    case Delete(key, discard) =>
      var k := Resolve(n, key);
      if k < 0 || k >= n then (p, Got(Null))
      else (p.(s := if k == n - 1 then TrimUndef(s[..k]) else s[k := Undef]),
            Got(if discard then Null else s[k]))
    case Exists(key) =>
      var k := Resolve(n, key);
      (p, Truth(0 <= k < n && s[k] != Undef && s[k] != Null))
  }

  function SeqRun(p: Plainly, ops: seq<Op>): (Plainly, seq<Reply>) {
    if ops == [] then (p, []) else
    var (p1, replies) := SeqRun(p, ops[..|ops| - 1]);
    var (p2, reply) := SeqStep(p1, ops[|ops| - 1]);
    (p2, replies + [reply])
  }

  function Contents(w: World): Plainly {
    Plainly(w.elems, w.next)
  }

  lemma FillRefines(m: Machine, fill: int, ptr: PtrSize)
    requires m.Sane()
    ensures Contents(StepFill(m, fill, ptr).w) == SeqStep(Contents(m.w), Op.Fill(fill)).0
  {
    hide StoreShape, AcquireAll, GiveUp;
    var s := m.w.elems;
    var n: nat := if fill < 0 then 0 else fill + 1;
    if n - 1 > m.sh.max {
      assert Undefs(n - |s|) == Undefs(n - 1 - |s|) + [Undef];
      assert StoreSeq(s, n - 1, Undef) == Resize(s, n);
    }
  }

  lemma StoreRefines(m: Machine, op: Op, ptr: PtrSize)
    requires m.Sane() && (op.Store? || op.Fetch? || op.Push?)
    ensures var (m1, reply) := Step(m, op, ptr);
            (Contents(m1.w), reply) == SeqStep(Contents(m.w), op)
  {
    hide StoreShape, AcquireAll, GiveUp;
    var s := m.w.elems;
    if op.Push? {
      assert StoreSeq(s, |s|, Stored(op.val)) == s + [Stored(op.val)];
    }
  }

  /** One operation, whatever the flag, the capacity and the pointer size. */
  lemma StepRefines(m: Machine, op: Op, ptr: PtrSize)
    requires m.Sane()
    ensures var (m1, reply) := Step(m, op, ptr);
            (Contents(m1.w), reply) == SeqStep(Contents(m.w), op)
  {
    if op.Store? || op.Fetch? || op.Push? {
      StoreRefines(m, op, ptr);
    } else if op.Fill? {
      FillRefines(m, op.fill, ptr);
    } else {
      hide StoreShape, UnshiftShape, ExtendShape, ClearShape, ShiftShape, TrimUndef, AcquireAll, GiveUp;
      hide StepStore, StepFetch, StepFill, StoreSeq, Resize;
      assert Undefs(0) + m.w.elems == m.w.elems;
      assert m.sh.max < 0 ==> m.w.elems == [];
    }
  }

  /** Over every run, contents and replies are those of the plain sequence. */
  lemma {:induction false} RunRefines(m: Machine, ops: seq<Op>, ptr: PtrSize)
    requires m.Sane()
    ensures var (m1, replies) := Run(m, ops, ptr);
            (Contents(m1.w), replies) == SeqRun(Contents(m.w), ops)
  {
    if ops != [] {
      var init := ops[..|ops| - 1];
      RunRefines(m, init, ptr);
      StepRefines(Run(m, init, ptr).0, ops[|ops| - 1], ptr);
    }
  }

  // ----- references are conserved -----

  lemma {:induction false} CountAcquireAll(l: Ledger, s: seq<Sv>, x: Sv)
    requires x.Scalar?
    ensures Count(AcquireAll(l, s), x) == Count(l, x) + Occ(s, x)
  {
    if s != [] {
      CountAcquireAll(l, s[1..], x);
    }
  }

  lemma {:induction false} CountReleaseAll(l: Ledger, s: seq<Sv>, x: Sv)
    requires x.Scalar?
    ensures Count(ReleaseAll(l, s), x) == Count(l, x) - Occ(s, x)
  {
    if s != [] {
      CountReleaseAll(l, s[1..], x);
    }
  }

  lemma {:induction false} OccConcat(a: seq<Sv>, b: seq<Sv>, x: Sv)
    ensures Occ(a + b, x) == Occ(a, x) + Occ(b, x)
  {
    if a == [] {
      assert a + b == b;
    } else {
      assert (a + b)[1..] == a[1..] + b;
      OccConcat(a[1..], b, x);
    }
  }

  lemma {:induction false} OccUndefs(n: nat, x: Sv)
    requires x != Undef
    ensures Occ(Undefs(n), x) == 0
  {
    if n > 0 {
      OccUndefs(n - 1, x);
      OccConcat(Undefs(n - 1), [Undef], x);
    }
  }

  lemma OccSplit(s: seq<Sv>, k: nat, x: Sv)
    requires k <= |s|
    ensures Occ(s, x) == Occ(s[..k], x) + Occ(s[k..], x)
  {
    assert s == s[..k] + s[k..];
    OccConcat(s[..k], s[k..], x);
  }

  lemma OccUpdate(s: seq<Sv>, k: nat, v: Sv, x: Sv)
    requires k < |s|
    ensures Occ(s[k := v], x) == Occ(s, x) - Occ([s[k]], x) + Occ([v], x)
  {
    var t := s[k := v];
    assert s == s[..k] + [s[k]] + s[k + 1..] && t == s[..k] + [v] + s[k + 1..];
    OccConcat(s[..k] + [s[k]], s[k + 1..], x);
    OccConcat(s[..k], [s[k]], x);
    OccConcat(s[..k] + [v], s[k + 1..], x);
    OccConcat(s[..k], [v], x);
  }

  lemma OccStore(s: seq<Sv>, k: nat, v: Sv, x: Sv)
    requires x.Scalar?
    ensures Occ(StoreSeq(s, k, v), x)
         == Occ(s, x) + Occ([v], x) - (if k < |s| then Occ([s[k]], x) else 0)
  {
    if k < |s| {
      OccUpdate(s, k, v, x);
    } else {
      OccConcat(s + Undefs(k - |s|), [v], x);
      OccConcat(s, Undefs(k - |s|), x);
      OccUndefs(k - |s|, x);
    }
  }

  lemma OccResize(s: seq<Sv>, n: nat, x: Sv)
    requires x.Scalar?
    ensures Occ(Resize(s, n), x) + Occ(Dropped(s, n), x) == Occ(s, x)
  {
    if n < |s| {
      OccSplit(s, n, x);
    } else if n == |s| {
      assert Resize(s, n) == s;
    } else {
      OccConcat(s, Undefs(n - |s|), x);
      OccUndefs(n - |s|, x);
    }
  }

  lemma {:induction false} OccTrim(s: seq<Sv>, x: Sv)
    requires x.Scalar?
    ensures Occ(TrimUndef(s), x) == Occ(s, x)
  {
    if s != [] && s[|s| - 1] == Undef {
      OccSplit(s, |s| - 1, x);
      OccTrim(s[..|s| - 1], x);
    }
  }

  /** The references that the array itself holds to x. */
  function Owed(w: World, x: Sv): nat {
    if w.flag == Real then Occ(w.elems, x) else 0
  }

  /** Every scalar is counted once for each owner outside the array, whose references the ledger
      out records, and once for each live slot of a counted array; none is negative. */
  ghost predicate Conserved(w: World, out: Ledger) {
    && (forall x: Sv :: x.Scalar? ==> Count(out, x) >= 0)
    && (forall x: Sv :: x.Scalar? ==> Count(w.ledger, x) == Count(out, x) + Owed(w, x))
  }

  /** The caller's references after an operation: a stored value is handed over to the array, a
      value that a counted array gives back is handed over to the caller. */
  function Outside(w: World, op: Op, out: Ledger): Ledger {
    match op
    case Store(key, val) => if Resolve(|w.elems|, key) < 0 then out else HandOver(w, out, val)
    case Push(val) => HandOver(w, out, val)
    case Pop => if w.elems == [] then out else TakeBack(w, out, w.elems[|w.elems| - 1])
    case Shift => if w.elems == [] then out else TakeBack(w, out, w.elems[0])
    case Delete(key, discard) =>
      var k := Resolve(|w.elems|, key);
      if k < 0 || k >= |w.elems| || discard then out else TakeBack(w, out, w.elems[k])
    case _ => out
  }

  /** Both kinds of array that appear in runs are counted once a value is stored in them. */
  function HandOver(w: World, out: Ledger, sv: Sv): Ledger {
    if w.flag == Plain then out else Release(out, sv)
  }

  function TakeBack(w: World, out: Ledger, sv: Sv): Ledger {
    if w.flag == Real then Acquire(out, sv) else out
  }

  /** What the source asks of its callers: to hold a reference to what they store. */
  predicate CallerOwns(w: World, op: Op, out: Ledger) {
    match op
    case Store(_, val) => val.Scalar? ==> Count(out, val) > 0
    case Push(val) => val.Scalar? ==> Count(out, val) > 0
    case _ => true
  }

  /** The one operation that drops a reference nobody gave up: deleting, with the result
      discarded, a counted scalar from an array that does not count its elements. */
  predicate Overdrops(w: World, op: Op) {
    && op.Delete? && op.discard && w.flag != Real
    && var k := Resolve(|w.elems|, op.key); 0 <= k < |w.elems| && w.elems[k].Scalar?
  }

  lemma PutCount(w: World, k: nat, val: Sv, out: Ledger, x: Sv)
    requires w.flag != Plain && x.Scalar? && Count(w.ledger, x) == Count(out, x) + Owed(w, x)
    ensures var w2 := Put(Reified(w), k, Stored(val));
            Count(w2.ledger, x) == Count(Release(out, val), x) + Owed(w2, x)
  {
    CountAcquireAll(w.ledger, w.elems, x);
    OccStore(w.elems, k, Stored(val), x);
  }

  lemma PutConserves(w: World, k: nat, val: Sv, out: Ledger)
    requires w.flag != Plain && Conserved(w, out) && (val.Scalar? ==> Count(out, val) > 0)
    ensures Conserved(Put(Reified(w), k, Stored(val)), Release(out, val))
  {
    var w2, out1 := Put(Reified(w), k, Stored(val)), Release(out, val);
    forall x: Sv | x.Scalar?
      ensures Count(out1, x) >= 0 && Count(w2.ledger, x) == Count(out1, x) + Owed(w2, x)
    {
      assert Count(out, x) >= 0 && Count(w.ledger, x) == Count(out, x) + Owed(w, x);
      hide Conserved;
      PutCount(w, k, val, out, x);
    }
  }

  lemma FetchConserves(w: World, key: int, lval: bool, out: Ledger)
    requires w.flag != Plain && Conserved(w, out)
    ensures Conserved(ApplyFetch(w, key, lval).0, out)
  {
    var k := Resolve(|w.elems|, key);
    if k >= 0 && Vacant(w, key) && lval {
      var sv := Scalar(w.next);
      var w1 := w.(ledger := Acquire(w.ledger, sv), next := w.next + 1);
      var out1 := Acquire(out, sv);
      assert Conserved(w1, out1);
      PutConserves(w1, k, sv, out1);
      var w2 := Put(Reified(w1), k, sv);
      forall x: Sv | x.Scalar? ensures Count(Release(out1, sv), x) == Count(out, x) {
      }
    }
  }

  lemma GiveUpConserves(w: World, n: nat, out: Ledger)
    requires Conserved(w, out)
    ensures Conserved(w.(elems := Resize(w.elems, n), ledger := GiveUp(w.flag, w.ledger, Dropped(w.elems, n))), out)
  {
    forall x: Sv | x.Scalar?
      ensures Count(GiveUp(w.flag, w.ledger, Dropped(w.elems, n)), x)
           == Count(out, x) + (if w.flag == Real then Occ(Resize(w.elems, n), x) else 0)
    {
      OccResize(w.elems, n, x);
      CountReleaseAll(w.ledger, Dropped(w.elems, n), x);
    }
  }

  lemma TakeOutConserves(w: World, k: nat, rest: seq<Sv>, out: Ledger)
    requires w.flag != Plain && Conserved(w, out) && k < |w.elems|
    requires forall x: Sv :: x.Scalar? ==> Occ(rest, x) + Occ([w.elems[k]], x) == Occ(w.elems, x)
    ensures Conserved(w.(elems := rest), TakeBack(w, out, w.elems[k]))
  {
    var sv, w1 := w.elems[k], w.(elems := rest);
    var out1 := TakeBack(w, out, sv);
    forall x: Sv | x.Scalar?
      ensures Count(out1, x) >= 0 && Count(w1.ledger, x) == Count(out1, x) + Owed(w1, x)
    {
      assert Occ([sv], x) == if sv == x then 1 else 0;
    }
  }

  lemma PopConserves(w: World, out: Ledger)
    requires w.flag != Plain && Conserved(w, out) && w.elems != []
    ensures var last := |w.elems| - 1;
            Conserved(w.(elems := w.elems[..last]), TakeBack(w, out, w.elems[last]))
  {
    var last := |w.elems| - 1;
    forall x: Sv | x.Scalar?
      ensures Occ(w.elems[..last], x) + Occ([w.elems[last]], x) == Occ(w.elems, x)
    {
      OccSplit(w.elems, last, x);
      assert w.elems[last..] == [w.elems[last]];
    }
    TakeOutConserves(w, last, w.elems[..last], out);
  }

  lemma ShiftConserves(w: World, out: Ledger)
    requires w.flag != Plain && Conserved(w, out) && w.elems != []
    ensures Conserved(w.(elems := w.elems[1..]), TakeBack(w, out, w.elems[0]))
  {
    forall x: Sv | x.Scalar?
      ensures Occ(w.elems[1..], x) + Occ([w.elems[0]], x) == Occ(w.elems, x)
    {
    }
    TakeOutConserves(w, 0, w.elems[1..], out);
  }

  lemma UnshiftConserves(w: World, num: nat, out: Ledger)
    requires Conserved(w, out)
    ensures Conserved(Reified(w).(elems := Undefs(num) + w.elems), out)
  {
    forall x: Sv | x.Scalar?
      ensures Count(Reified(w).ledger, x) ==
              Count(out, x) + Owed(Reified(w).(elems := Undefs(num) + w.elems), x)
    {
      CountAcquireAll(w.ledger, w.elems, x);
      OccConcat(Undefs(num), w.elems, x);
      OccUndefs(num, x);
    }
  }

  /** The elements after a deletion lack exactly one occurrence of the deleted one. */
  lemma DeleteOcc(s: seq<Sv>, k: nat, x: Sv)
    requires k < |s| && x.Scalar?
    ensures var rest := if k == |s| - 1 then TrimUndef(s[..k]) else s[k := Undef];
            Occ(rest, x) + Occ([s[k]], x) == Occ(s, x)
  {
    if k == |s| - 1 {
      OccTrim(s[..k], x);
      OccSplit(s, k, x);
      assert s[k..] == [s[k]];
    } else {
      OccUpdate(s, k, Undef, x);
    }
  }

  lemma DeleteConserves(w: World, key: int, discard: bool, out: Ledger)
    requires w.flag != Plain && Conserved(w, out) && !Overdrops(w, Delete(key, discard))
    ensures Conserved(ApplyDelete(w, key, discard).0, Outside(w, Delete(key, discard), out))
  {
    var k := Resolve(|w.elems|, key);
    if 0 <= k < |w.elems| {
      var sv, w1 := w.elems[k], ApplyDelete(w, key, discard).0;
      forall x: Sv | x.Scalar? ensures Occ(w1.elems, x) + Occ([sv], x) == Occ(w.elems, x) {
        DeleteOcc(w.elems, k, x);
      }
      TakeOutConserves(w, k, w1.elems, out);
      if discard {
        forall x: Sv | x.Scalar? ensures Count(w1.ledger, x) == Count(out, x) + Owed(w1, x) {
        }
      }
    }
  }

  /** A discarding delete keeps references conserved if and only if it does not drop one that the
      array never held. */
  lemma DiscardConservesIff(w: World, key: int, out: Ledger)
    requires w.flag != Plain && Conserved(w, out)
    ensures Conserved(ApplyDelete(w, key, true).0, out) <==> !Overdrops(w, Delete(key, true))
  {
    if Overdrops(w, Delete(key, true)) {
      var sv, w1 := w.elems[Resolve(|w.elems|, key)], ApplyDelete(w, key, true).0;
      assert Count(w1.ledger, sv) == Count(out, sv) - 1 && Owed(w1, sv) == 0;
    } else {
      DeleteConserves(w, key, true, out);
    }
  }

  /** One operation conserves references. */
  lemma StepConserves(m: Machine, op: Op, ptr: PtrSize, out: Ledger)
    requires m.Sane() && m.w.flag != Plain && Conserved(m.w, out)
    requires CallerOwns(m.w, op, out) && !Overdrops(m.w, op)
    ensures var w1 := Step(m, op, ptr).0.w;
            w1.flag != Plain && Conserved(w1, Outside(m.w, op, out))
  {
    hide Conserved, TrimUndef, StoreShape, UnshiftShape, ExtendShape, Occ, Count;
    var w := m.w;
    match op
    case Store(key, val) =>
      var k := Resolve(|w.elems|, key);
      if k >= 0 {
        PutConserves(w, k, val, out);
      }
    case Push(val) => PutConserves(w, |w.elems|, val, out);
    case Fetch(key, lval) => FetchConserves(w, key, lval, out);
    case Pop =>
      if w.elems != [] {
        PopConserves(w, out);
      }
    case Shift =>
      if w.elems != [] {
        ShiftConserves(w, out);
      }
    case Unshift(num) =>
      if num > 0 {
        UnshiftConserves(w, num, out);
      }
    case Fill(fill) => FillConserves(m, fill, ptr, out);
    case Clear => EmptyConserves(w, out);
    case Undefine => EmptyConserves(w, out);
    case Extend(_) =>
    case Delete(key, discard) => DeleteConserves(w, key, discard, out);
    case Exists(_) =>
  }

  lemma EmptyConserves(w: World, out: Ledger)
    requires Conserved(w, out)
    ensures Conserved(w.(elems := [], ledger := GiveUp(w.flag, w.ledger, w.elems)), out)
  {
    GiveUpConserves(w, 0, out);
    assert Dropped(w.elems, 0) == w.elems && Resize(w.elems, 0) == [];
  }

  lemma FillConserves(m: Machine, fill: int, ptr: PtrSize, out: Ledger)
    requires m.Sane() && m.w.flag != Plain && Conserved(m.w, out)
    ensures Conserved(StepFill(m, fill, ptr).w, out)
  {
    var n: nat := if fill < 0 then 0 else fill + 1;
    if n - 1 <= m.sh.max {
      GiveUpConserves(m.w, n, out);
    } else {
      PutConserves(m.w, n - 1, Undef, out);
    }
  }

  /** Runs in which callers own what they store and nothing is dropped that was not held. */
  predicate Lawful(m: Machine, ops: seq<Op>, ptr: PtrSize, out: Ledger)
    requires m.Sane()
  {
    ops == [] ||
    var init, op := ops[..|ops| - 1], ops[|ops| - 1];
    var w := Run(m, init, ptr).0.w;
    && Lawful(m, init, ptr, out)
    && CallerOwns(w, op, OutsideRun(m, init, ptr, out)) && !Overdrops(w, op)
  }

  function OutsideRun(m: Machine, ops: seq<Op>, ptr: PtrSize, out: Ledger): Ledger
    requires m.Sane()
  {
    if ops == [] then out else
    var init := ops[..|ops| - 1];
    Outside(Run(m, init, ptr).0.w, ops[|ops| - 1], OutsideRun(m, init, ptr, out))
  }

  /** Over every lawful run each scalar stays counted exactly once per owner. */
  lemma {:induction false} RunConserves(m: Machine, ops: seq<Op>, ptr: PtrSize, out: Ledger)
    requires m.Sane() && m.w.flag != Plain && Conserved(m.w, out) && Lawful(m, ops, ptr, out)
    ensures var w1 := Run(m, ops, ptr).0.w;
            w1.flag != Plain && Conserved(w1, OutsideRun(m, ops, ptr, out))
  {
    if ops != [] {
      hide Conserved, Step, Outside;
      var init, op := ops[..|ops| - 1], ops[|ops| - 1];
      RunConserves(m, init, ptr, out);
      StepConserves(Run(m, init, ptr).0, op, ptr, OutsideRun(m, init, ptr, out));
    }
  }

  /** Hence nothing that a counted array still shows has been freed. */
  lemma LiveElementsAreCounted(w: World, out: Ledger, k: nat)
    requires Conserved(w, out) && w.flag == Real && k < |w.elems| && w.elems[k].Scalar?
    ensures Count(w.ledger, w.elems[k]) >= 1
  {
    OccSplit(w.elems, k, w.elems[k]);
  }
}
