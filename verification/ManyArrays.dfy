/** Several arrays that share the interpreter's reference counts: a scalar may move from one to
    another, and none is lost or dropped twice on the way. */
module ManyArrays {
  import opened Scalars
  import opened Growth
  import opened ArraySpec
  import opened ArrayTheorems

  datatype Holding = Holding(elems: seq<Sv>, flag: Flag, sh: Shape)
  {
    predicate Sane() {
      sh.Sane() && sh.fill == |elems| - 1
    }
  }

  datatype Arrays = Arrays(all: seq<Holding>, ledger: Ledger, next: nat)
  {
    predicate Sane() {
      forall i :: 0 <= i < |all| ==> all[i].Sane()
    }

    /** Array number i, with what it shares. */
    function At(i: nat): (m: Machine)
      requires Sane() && i < |all|
      ensures m.Sane()
    {
      Machine(World(all[i].elems, all[i].flag, ledger, next), all[i].sh)
    }

    function With(i: nat, m: Machine): (r: Arrays)
      requires Sane() && i < |all| && m.Sane()
      ensures r.Sane() && |r.all| == |all|
    {
      Arrays(all[i := Holding(m.w.elems, m.w.flag, m.sh)], m.w.ledger, m.w.next)
    }
  }

  /** An operation on one of the arrays. */
  datatype Call = Call(i: nat, op: Op)

  function Perform(a: Arrays, c: Call, ptr: PtrSize): (r: Arrays)
    requires a.Sane() && c.i < |a.all|
    ensures r.Sane() && |r.all| == |a.all|
  {
    a.With(c.i, Step(a.At(c.i), c.op, ptr).0)
  }

  predicate InRange(a: Arrays, calls: seq<Call>) {
    forall k :: 0 <= k < |calls| ==> calls[k].i < |a.all|
  }

  function PerformAll(a: Arrays, calls: seq<Call>, ptr: PtrSize): (r: Arrays)
    requires a.Sane() && InRange(a, calls)
    ensures r.Sane() && |r.all| == |a.all|
  {
    if calls == [] then a else Perform(PerformAll(a, calls[..|calls| - 1], ptr), calls[|calls| - 1], ptr)
  }

  // ----- conservation -----

  /** The references that the arrays together hold to x. */
  function OwedAll(all: seq<Holding>, x: Sv): nat {
    if all == [] then 0 else
    (if all[0].flag == Real then Occ(all[0].elems, x) else 0) + OwedAll(all[1..], x)
  }

  /** Every scalar is counted once for each owner outside the arrays and once for each live slot of
      each counted array. */
  ghost predicate AllConserved(a: Arrays, out: Ledger) {
    && (forall x: Sv :: x.Scalar? ==> Count(out, x) >= 0)
    && (forall x: Sv :: x.Scalar? ==> Count(a.ledger, x) == Count(out, x) + OwedAll(a.all, x))
  }

  predicate NonePlain(a: Arrays) {
    forall i :: 0 <= i < |a.all| ==> a.all[i].flag != Plain
  }

  /** The ledger of every owner but one array: the owners outside, and the other arrays. */
  function Others(all: seq<Holding>, out: Ledger): Ledger {
    if all == [] then out else
    var rest := Others(all[1..], out);
    if all[0].flag == Real then AcquireAll(rest, all[0].elems) else rest
  }

  lemma {:induction false} OthersCount(all: seq<Holding>, out: Ledger, x: Sv)
    requires x.Scalar?
    ensures Count(Others(all, out), x) == Count(out, x) + OwedAll(all, x)
  {
    if all != [] {
      OthersCount(all[1..], out, x);
      CountAcquireAll(Others(all[1..], out), all[0].elems, x);
    }
  }

  function Without(all: seq<Holding>, i: nat): seq<Holding>
    requires i < |all|
  {
    all[..i] + all[i + 1..]
  }

  lemma {:induction false} OwedSplit(all: seq<Holding>, i: nat, x: Sv)
    requires i < |all|
    ensures OwedAll(all, x) == OwedAll(Without(all, i), x) + (if all[i].flag == Real then Occ(all[i].elems, x) else 0)
  {
    if i == 0 {
      assert Without(all, 0) == all[1..];
    } else {
      OwedSplit(all[1..], i - 1, x);
      assert Without(all, i)[1..] == Without(all[1..], i - 1);
    }
  }

  /** Seen from one array, the other arrays are owners like any other. */
  lemma AsOne(a: Arrays, i: nat, out: Ledger)
    requires a.Sane() && i < |a.all| && AllConserved(a, out)
    ensures Conserved(a.At(i).w, Others(Without(a.all, i), out))
  {
    forall x: Sv | x.Scalar?
      ensures Count(Others(Without(a.all, i), out), x) >= 0
      ensures Count(a.ledger, x) == Count(Others(Without(a.all, i), out), x) + Owed(a.At(i).w, x)
    {
      OthersCount(Without(a.all, i), out, x);
      OwedSplit(a.all, i, x);
    }
  }

  /** What an operation takes from and gives to its caller does not depend on who else owns. */
  lemma OutsideShift(w: World, op: Op, out: Ledger, rest: Ledger, x: Sv)
    requires x.Scalar?
    ensures Count(Outside(w, op, rest), x) - Count(rest, x) == Count(Outside(w, op, out), x) - Count(out, x)
  {
    hide Count, HandOver, TakeBack, Resolve;
    if op.Store? || op.Push? {
      OneHandedOver(w, out, rest, op.val, x);
    } else if op.Pop? && w.elems != [] {
      OneTakenBack(w, out, rest, w.elems[|w.elems| - 1], x);
    } else if op.Shift? && w.elems != [] {
      OneTakenBack(w, out, rest, w.elems[0], x);
    } else if op.Delete? && 0 <= Resolve(|w.elems|, op.key) < |w.elems| {
      OneTakenBack(w, out, rest, w.elems[Resolve(|w.elems|, op.key)], x);
    }
  }

  lemma OneHandedOver(w: World, out: Ledger, rest: Ledger, sv: Sv, x: Sv)
    ensures Count(HandOver(w, rest, sv), x) - Count(rest, x) == Count(HandOver(w, out, sv), x) - Count(out, x)
  {
  }

  lemma OneTakenBack(w: World, out: Ledger, rest: Ledger, sv: Sv, x: Sv)
    ensures Count(TakeBack(w, rest, sv), x) - Count(rest, x) == Count(TakeBack(w, out, sv), x) - Count(out, x)
  {
  }

  lemma OutsideOwned(w: World, op: Op, out: Ledger, x: Sv)
    requires x.Scalar? && Count(out, x) >= 0 && CallerOwns(w, op, out)
    ensures Count(Outside(w, op, out), x) >= 0
  {
  }

  /** One operation on one of the arrays conserves references over all of them. */
  lemma PerformConserves(a: Arrays, c: Call, ptr: PtrSize, out: Ledger)
    requires a.Sane() && c.i < |a.all| && NonePlain(a) && AllConserved(a, out)
    requires CallerOwns(a.At(c.i).w, c.op, out) && !Overdrops(a.At(c.i).w, c.op)
    ensures var a1 := Perform(a, c, ptr);
            NonePlain(a1) && AllConserved(a1, Outside(a.At(c.i).w, c.op, out))
  {
    hide Step, Outside, Overdrops, CallerOwns, Occ, Count, Others, OwedAll;
    var w, rest := a.At(c.i).w, Others(Without(a.all, c.i), out);
    AsOne(a, c.i, out);
    OwnsMore(w, c.op, a.all, c.i, out);
    StepConserves(a.At(c.i), c.op, ptr, rest);
    var a1, out1 := Perform(a, c, ptr), Outside(w, c.op, out);
    forall x: Sv | x.Scalar?
      ensures Count(out1, x) >= 0 && Count(a1.ledger, x) == Count(out1, x) + OwedAll(a1.all, x)
    {
      OutsideOwned(w, c.op, out, x);
      OutsideShift(w, c.op, out, rest, x);
      OthersCount(Without(a.all, c.i), out, x);
      OwedSplit(a1.all, c.i, x);
      assert Without(a1.all, c.i) == Without(a.all, c.i);
    }
  }

  lemma OwnsMore(w: World, op: Op, all: seq<Holding>, i: nat, out: Ledger)
    requires i < |all| && CallerOwns(w, op, out)
    ensures CallerOwns(w, op, Others(Without(all, i), out))
  {
    if (op.Store? || op.Push?) && op.val.Scalar? {
      OthersCount(Without(all, i), out, op.val);
    }
  }

  function OutsideAll(a: Arrays, calls: seq<Call>, ptr: PtrSize, out: Ledger): Ledger
    requires a.Sane() && InRange(a, calls)
  {
    if calls == [] then out else
    var init, c := calls[..|calls| - 1], calls[|calls| - 1];
    Outside(PerformAll(a, init, ptr).At(c.i).w, c.op, OutsideAll(a, init, ptr, out))
  }

  /** Runs in which callers own what they store and nothing is dropped that was not held. */
  predicate AllLawful(a: Arrays, calls: seq<Call>, ptr: PtrSize, out: Ledger)
    requires a.Sane() && InRange(a, calls)
  {
    calls == [] ||
    var init, c := calls[..|calls| - 1], calls[|calls| - 1];
    var w := PerformAll(a, init, ptr).At(c.i).w;
    && AllLawful(a, init, ptr, out)
    && CallerOwns(w, c.op, OutsideAll(a, init, ptr, out)) && !Overdrops(w, c.op)
  }

  /** Over every lawful run on any number of arrays, each scalar stays counted exactly once for each
      owner outside and once for each live slot of each counted array. */
  lemma {:induction false} ManyConserve(a: Arrays, calls: seq<Call>, ptr: PtrSize, out: Ledger)
    requires a.Sane() && InRange(a, calls) && NonePlain(a) && AllConserved(a, out)
    requires AllLawful(a, calls, ptr, out)
    ensures var a1 := PerformAll(a, calls, ptr);
            NonePlain(a1) && AllConserved(a1, OutsideAll(a, calls, ptr, out))
  {
    if calls != [] {
      hide AllConserved, Perform, Outside;
      var init := calls[..|calls| - 1];
      ManyConserve(a, init, ptr, out);
      PerformConserves(PerformAll(a, init, ptr), calls[|calls| - 1], ptr, OutsideAll(a, init, ptr, out));
    }
  }

  /** The arrays with one more, made of n new scalars. */
  function Joined(a: Arrays, n: nat, sh: Shape): (r: Arrays)
    requires a.Sane() && sh.Sane() && sh.fill == n - 1
    ensures r.Sane()
  {
    Arrays(a.all + [Holding(Fresh(a.next, n), Real, sh)], Mint(a.ledger, a.next, n), a.next + n)
  }

  lemma {:induction false} OwedSnoc(all: seq<Holding>, h: Holding, x: Sv)
    ensures OwedAll(all + [h], x) == OwedAll(all, x) + (if h.flag == Real then Occ(h.elems, x) else 0)
  {
    if all == [] {
      assert all + [h] == [h];
    } else {
      assert (all + [h])[1..] == all[1..] + [h];
      OwedSnoc(all[1..], h, x);
    }
  }

  /** av_make: the new array owns what it holds, and nobody else does; so references are conserved
      from the start, for the same owners outside. */
  lemma MakeConserves(a: Arrays, n: nat, sh: Shape, out: Ledger)
    requires a.Sane() && sh.Sane() && sh.fill == n - 1 && AllConserved(a, out)
    ensures AllConserved(Joined(a, n, sh), out)
    ensures forall x: Sv :: x.Scalar? && a.next <= x.id < a.next + n && Count(a.ledger, x) == 0 ==>
              Count(Joined(a, n, sh).ledger, x) == 1
  {
    var h := Holding(Fresh(a.next, n), Real, sh);
    forall x: Sv | x.Scalar?
      ensures Count(Joined(a, n, sh).ledger, x) == Count(out, x) + OwedAll(Joined(a, n, sh).all, x)
      ensures Occ(h.elems, x) == (if a.next <= x.id < a.next + n then 1 else 0)
      ensures Count(Joined(a, n, sh).ledger, x) == Count(a.ledger, x) + Occ(h.elems, x)
    {
      MintCounts(a.ledger, a.next, n, x);
      FreshOnce(a.next, n, x);
      OwedSnoc(a.all, h, x);
    }
  }

  /** Hence nothing that any counted array still shows has been freed. */
  lemma SharedElementsAreCounted(a: Arrays, out: Ledger, i: nat, k: nat)
    requires a.Sane() && AllConserved(a, out) && i < |a.all| && a.all[i].flag == Real
    requires k < |a.all[i].elems| && a.all[i].elems[k].Scalar?
    ensures Count(a.ledger, a.all[i].elems[k]) >= 1
  {
    AsOne(a, i, out);
    LiveElementsAreCounted(a.At(i).w, Others(Without(a.all, i), out), k);
  }
}
