/** What each array operation does to contents, reply and reference counts, index by index and in
    plain arithmetic, so that the specification of a step is pinned down from outside. */
module ArrayLaws {
  import opened Scalars
  import opened Growth
  import opened ArraySpec
  import opened ArrayTheorems

  // ----- negative indices -----

  /** The operations that take an index, at key. */
  function At(op: Op, key: int): Op
    requires op.Store? || op.Fetch? || op.Delete? || op.Exists?
  {
    match op
    case Store(_, val) => Store(key, val)
    case Fetch(_, lval) => Fetch(key, lval)
    case Delete(_, discard) => Delete(key, discard)
    case Exists(_) => Exists(key)
  }

  /** -j is the j-th element from the end. */
  lemma FromTheEnd(m: Machine, op: Op, j: nat, ptr: PtrSize)
    requires m.Sane() && (op.Store? || op.Fetch? || op.Delete? || op.Exists?)
    requires 0 < j <= |m.w.elems|
    ensures Step(m, At(op, 0 - j), ptr) == Step(m, At(op, |m.w.elems| - j), ptr)
  {
    hide StoreShape, Put, Reified, TrimUndef;
  }

  /** Before the first element nothing is found and nothing changes. */
  lemma BeforeTheFirst(m: Machine, op: Op, j: nat, ptr: PtrSize)
    requires m.Sane() && (op.Store? || op.Fetch? || op.Delete? || op.Exists?)
    requires j > |m.w.elems|
    ensures Step(m, At(op, 0 - j), ptr) ==
            (m, if op.Delete? then Got(Null) else if op.Exists? then Truth(false) else Nothing)
  {
    hide StoreShape, Put, Reified, TrimUndef;
  }

  // ----- contents and replies -----

  /** s1 is s with v at index k; what lies between the end of s and k is undef. */
  predicate StoredAt(s: seq<Sv>, k: nat, v: Sv, s1: seq<Sv>) {
    && |s1| == (if k < |s| then |s| else k + 1)
    && s1[k] == v
    && (forall i :: 0 <= i < |s| && i != k ==> s1[i] == s[i])
    && (forall i :: |s| <= i < k ==> s1[i] == Undef)
  }

  /** A store at k >= 0. */
  lemma StoreMeans(m: Machine, k: nat, val: Sv, ptr: PtrSize)
    requires m.Sane()
    ensures var (m1, reply) := Step(m, Store(k, val), ptr);
            var v := if val == Null then Undef else val;
            StoredAt(m.w.elems, k, v, m1.w.elems) && reply == Got(v) && m1.w.next == m.w.next
  {
    hide StoreShape, AcquireAll;
  }

  /** A fetch at k >= 0 answers the element there unless it is undef or beyond the end; for
      modification it then stores the next new scalar. */
  lemma FetchMeans(m: Machine, k: nat, lval: bool, ptr: PtrSize)
    requires m.Sane()
    ensures var (m1, reply) := Step(m, Fetch(k, lval), ptr);
            if k < |m.w.elems| && m.w.elems[k] != Undef then m1 == m && reply == Got(m.w.elems[k])
            else if !lval then m1 == m && reply == Nothing
            else
              && StoredAt(m.w.elems, k, Scalar(m.w.next), m1.w.elems) && m1.w.next == m.w.next + 1
              && reply == Got(Scalar(m.w.next))
  {
    hide StoreShape, AcquireAll;
  }

  /** Pushing appends; popping takes the last, shifting the first. */
  lemma EndsMean(m: Machine, val: Sv, ptr: PtrSize)
    requires m.Sane()
    ensures var s, v := m.w.elems, if val == Null then Undef else val;
            && StoredAt(s, |s|, v, Step(m, Push(val), ptr).0.w.elems)
            && (s != [] ==>
                  && Step(m, Pop, ptr).1 == Got(s[|s| - 1]) && Step(m, Pop, ptr).0.w.elems + [s[|s| - 1]] == s
                  && Step(m, Shift, ptr).1 == Got(s[0]) && [s[0]] + Step(m, Shift, ptr).0.w.elems == s)
            && (s == [] ==> Step(m, Pop, ptr) == (m, Got(Undef)) && Step(m, Shift, ptr) == (m, Got(Undef)))
  {
    hide StoreShape, AcquireAll, ShiftShape;
  }

  lemma UnshiftMeans(m: Machine, num: int, ptr: PtrSize)
    requires m.Sane()
    ensures var s, s1 := m.w.elems, Step(m, Unshift(num), ptr).0.w.elems;
            var n := if num > 0 then num else 0;
            && |s1| == n + |s| && (forall i :: 0 <= i < n ==> s1[i] == Undef)
            && (forall i :: 0 <= i < |s| ==> s1[n + i] == s[i])
  {
    hide UnshiftShape, AcquireAll;
  }

  /** Setting the last index cuts, or extends with undefs. */
  lemma FillMeans(m: Machine, fill: int, ptr: PtrSize)
    requires m.Sane()
    ensures var s, s1 := m.w.elems, Step(m, Op.Fill(fill), ptr).0.w.elems;
            && |s1| == (if fill < 0 then 0 else fill + 1)
            && forall i :: 0 <= i < |s1| ==> s1[i] == if i < |s| then s[i] else Undef
  {
    hide StoreShape, AcquireAll, ReleaseAll;
  }

  lemma EmptyMeans(m: Machine, key: int, ptr: PtrSize)
    requires m.Sane()
    ensures Step(m, Clear, ptr).0.w.elems == [] == Step(m, Undefine, ptr).0.w.elems
    ensures Step(m, Extend(key), ptr).0.w == m.w
  {
    hide ExtendShape, ReleaseAll;
  }

  /** Deleting inside the array leaves undef there; deleting the last element takes the undefs
      before it along. The element is answered unless it is discarded. */
  lemma DeleteMeans(m: Machine, k: nat, discard: bool, ptr: PtrSize)
    requires m.Sane()
    ensures var s, (m1, reply) := m.w.elems, Step(m, Delete(k, discard), ptr);
            var s1 := m1.w.elems;
            if k >= |s| then m1 == m && reply == Got(Null)
            else
              && reply == Got(if discard then Null else s[k])
              && (if k < |s| - 1 then StoredAt(s, k, Undef, s1)
                  else
                    && |s1| < |s| && s1 == s[..|s1|] && (s1 != [] ==> s1[|s1| - 1] != Undef)
                    && forall i :: |s1| <= i < |s| - 1 ==> s[i] == Undef)
  {
    hide ReleaseAll;
    if k == |m.w.elems| - 1 {
      TrimMeans(m.w.elems[..k]);
    }
  }

  lemma {:induction false} TrimMeans(s: seq<Sv>)
    ensures var r := TrimUndef(s);
            && r == s[..|r|] && (r != [] ==> r[|r| - 1] != Undef)
            && forall i :: |r| <= i < |s| ==> s[i] == Undef
  {
    if s != [] && s[|s| - 1] == Undef {
      TrimMeans(s[..|s| - 1]);
    }
  }

  lemma ExistsMeans(m: Machine, k: nat, ptr: PtrSize)
    requires m.Sane()
    ensures Step(m, Exists(k), ptr) ==
            (m, Truth(k < |m.w.elems| && m.w.elems[k] != Undef && m.w.elems[k] != Null))
  {
  }

  // ----- reference counts -----

  /** How many of s, from index n on, are x. */
  function From(s: seq<Sv>, n: nat, x: Sv): nat {
    if n < |s| then Occ(s[n..], x) else 0
  }

  /** The change of the count of x that an operation on an array with elements s makes. Storing in a
      reifiable array first counts every element; storing in a counted one releases what it
      overwrites; a new scalar starts with one reference; clearing, cutting and discarding release;
      handing over and shortening otherwise change nothing. */
  function Change(m: Machine, op: Op, x: Sv): int {
    var s, n := m.w.elems, |m.w.elems|;
    match op
    case Store(key, _) => StoreChange(m.w, if key < 0 then key + n else key, x)
    case Push(_) => StoreChange(m.w, n, x)
    case Fetch(key, lval) =>
      var k := if key < 0 then key + n else key;
      if k >= 0 && lval && (k >= n || s[k] == Undef)
      then StoreChange(m.w, k, x) + (if x == Scalar(m.w.next) then 1 else 0) else 0
    case Unshift(num) => if num > 0 && m.w.flag == Reify then Occ(s, x) else 0
    case Fill(fill) =>
      if fill <= m.sh.max then (if m.w.flag == Real then 0 - From(s, if fill < 0 then 0 else fill + 1, x) else 0)
      else StoreChange(m.w, fill, x)
    case Clear => if m.w.flag == Real then 0 - Occ(s, x) else 0
    case Undefine => if m.w.flag == Real then 0 - Occ(s, x) else 0
    case Delete(key, discard) =>
      var k := if key < 0 then key + n else key;
      if discard && 0 <= k < n && s[k] == x then -1 else 0
    case _ => 0
  }

  function StoreChange(w: World, k: int, x: Sv): int {
    if k < 0 || w.flag == Plain then 0
    else (if w.flag == Reify then Occ(w.elems, x) else 0) - (if k < |w.elems| && w.elems[k] == x then 1 else 0)
  }

  lemma StoreCounts(w: World, k: nat, v: Sv, x: Sv)
    requires x.Scalar?
    ensures Count(Put(Reified(w), k, v).ledger, x) == Count(w.ledger, x) + StoreChange(w, k, x)
  {
    CountAcquireAll(w.ledger, w.elems, x);
  }

  /** Every operation changes every count by exactly that. */
  lemma StepCounts(m: Machine, op: Op, ptr: PtrSize, x: Sv)
    requires m.Sane() && x.Scalar?
    ensures Count(Step(m, op, ptr).0.w.ledger, x) == Count(m.w.ledger, x) + Change(m, op, x)
  {
    hide StoreShape, UnshiftShape, ExtendShape, ShiftShape, TrimUndef, StoreSeq, Put, Occ, AcquireAll, ReleaseAll;
    var w, s, n := m.w, m.w.elems, |m.w.elems|;
    match op
    case Store(key, val) => StoreAnyCounts(w, Resolve(n, key), Stored(val), x);
    case Push(val) => StoreAnyCounts(w, n, Stored(val), x);
    case Fetch(key, lval) =>
      var sv := Scalar(w.next);
      StoreAnyCounts(w.(ledger := Acquire(w.ledger, sv), next := w.next + 1), Resolve(n, key), sv, x);
    case Unshift(num) => CountAcquireAll(w.ledger, s, x);
    case Fill(fill) => FillCounts(m, fill, ptr, x);
    case Clear =>
      CountReleaseAll(w.ledger, s, x);
      NothingIn(s, x);
    case Undefine => CountReleaseAll(w.ledger, s, x);
    case _ =>
  }

  lemma NothingIn(s: seq<Sv>, x: Sv)
    ensures s == [] ==> Occ(s, x) == 0
  {
  }

  lemma StoreAnyCounts(w: World, k: int, v: Sv, x: Sv)
    requires x.Scalar?
    ensures k >= 0 ==> Count(Put(Reified(w), k, v).ledger, x) == Count(w.ledger, x) + StoreChange(w, k, x)
  {
    if k >= 0 {
      StoreCounts(w, k, v, x);
    }
  }

  lemma FillCounts(m: Machine, fill: int, ptr: PtrSize, x: Sv)
    requires m.Sane() && x.Scalar?
    ensures Count(StepFill(m, fill, ptr).w.ledger, x) == Count(m.w.ledger, x) + Change(m, Op.Fill(fill), x)
  {
    hide StoreShape, StoreSeq, Put;
    var n: nat := if fill < 0 then 0 else fill + 1;
    CountReleaseAll(m.w.ledger, Dropped(m.w.elems, n), x);
    StoreAnyCounts(m.w, fill, Undef, x);
  }

  /** Storing, pushing or unshifting makes a reifiable array counted; only undefining and new arrays
      are not concerned, and nothing else changes the flag. */
  lemma FlagMeans(m: Machine, op: Op, ptr: PtrSize)
    requires m.Sane()
    ensures var f := Step(m, op, ptr).0.w.flag;
            f == m.w.flag || (m.w.flag == Reify && f == Real)
    ensures m.w.flag == Reify && (op.Push? || (op.Store? && op.key >= 0) || (op.Unshift? && op.num > 0)) ==>
              Step(m, op, ptr).0.w.flag == Real
  {
    hide StoreShape, UnshiftShape, ExtendShape, TrimUndef, StoreSeq;
  }
}
