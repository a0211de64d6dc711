/** What the array operations mean, on a plain sequence with undef holes and a ledger of
    reference counts. Nothing here mentions allocation, offsets or capacity. */
module ArraySpec {
  import opened Scalars
  import opened Growth

  /** Real: elements are counted. Reify: becomes Real when modified. Plain: never counted. */
  datatype Flag = Real | Reify | Plain

  datatype World = World(elems: seq<Sv>, flag: Flag, ledger: Ledger, next: nat)

  datatype Op =
    | Store(key: int, val: Sv)
    | Fetch(key: int, lval: bool)
    | Push(val: Sv)
    | Pop
    | Shift
    | Unshift(num: int)
    | Fill(fill: int)
    | Clear
    | Undefine
    | Extend(key: int)
    | Delete(key: int, discard: bool)
    | Exists(key: int)

  datatype Reply = Nothing | Got(sv: Sv) | Truth(b: bool)

  /** Negative indices count from the end; the result is negative when still out of range. */
  function Resolve(n: nat, key: int): int {
    if key < 0 then key + n else key
  }

  function StoreSeq(s: seq<Sv>, k: nat, v: Sv): seq<Sv> {
    if k < |s| then s[k := v] else s + Undefs(k - |s|) + [v]
  }

  /** The sequence with exactly n elements: cut, or padded with undef. */
  function Resize(s: seq<Sv>, n: nat): seq<Sv> {
    if n <= |s| then s[..n] else s + Undefs(n - |s|)
  }

  /** What Resize cuts off. */
  function Dropped(s: seq<Sv>, n: nat): seq<Sv> {
    if n < |s| then s[n..] else []
  }

  function TrimUndef(s: seq<Sv>): (r: seq<Sv>)
    ensures |r| <= |s|
  {
    if s != [] && s[|s| - 1] == Undef then TrimUndef(s[..|s| - 1]) else s
  }

  /** The ledger after an array gives up the elements s: a counted array releases each. */
  function GiveUp(flag: Flag, l: Ledger, s: seq<Sv>): Ledger {
    if flag == Real then ReleaseAll(l, s) else l
  }

  function Reified(w: World): World {
    if w.flag == Reify then w.(flag := Real, ledger := AcquireAll(w.ledger, w.elems)) else w
  }

  /** Storing v at index k of an array that is not Reify: the array takes over the caller's
      reference to v and releases the element that v replaces. */
  function Put(w: World, k: nat, v: Sv): World {
    var l := if k < |w.elems| && w.flag == Real then Release(w.ledger, w.elems[k]) else w.ledger;
    w.(elems := StoreSeq(w.elems, k, v), ledger := l)
  }

  /** A null value is stored as undef. */
  function Stored(val: Sv): Sv {
    if val == Null then Undef else val
  }

  function ApplyStore(w: World, key: int, val: Sv): (World, Reply) {
    var k := Resolve(|w.elems|, key);
    if k < 0 then (w, Nothing) else (Put(Reified(w), k, Stored(val)), Got(Stored(val)))
  }

  function Vacant(w: World, key: int): bool {
    var k := Resolve(|w.elems|, key);
    k >= |w.elems| || (k >= 0 && w.elems[k] == Undef)
  }

  function ApplyFetch(w: World, key: int, lval: bool): (World, Reply) {
    var k := Resolve(|w.elems|, key);
    if k < 0 then (w, Nothing)
    else if !Vacant(w, key) then (w, Got(w.elems[k]))
    else if !lval then (w, Nothing)
    else
      var sv := Scalar(w.next);
      ApplyStore(w.(ledger := Acquire(w.ledger, sv), next := w.next + 1), k, sv)
  }

  function ApplyDelete(w: World, key: int, discard: bool): (World, Reply) {
    var k := Resolve(|w.elems|, key);
    if k < 0 || k >= |w.elems| then (w, Got(Null)) else
    var sv := w.elems[k];
    var rest := if k == |w.elems| - 1 then TrimUndef(w.elems[..k]) else w.elems[k := Undef];
    if discard then (w.(elems := rest, ledger := Release(w.ledger, sv)), Got(Null))
    else (w.(elems := rest), Got(sv))
  }

  /** The guard under which av_delete leaves no stale scalar behind: the index is not that of a
      defined last element. */
  predicate DeleteIsClean(w: World, key: int) {
    var k := Resolve(|w.elems|, key);
    k == |w.elems| - 1 && k >= 0 ==> w.elems[k] == Undef
  }

  // ----- slots that av_delete leaves stale -----

  function Beyond(stale: set<int>, last: int): set<int> {
    set i | i in stale && i > last
  }

  predicate Between(stale: set<int>, lo: int, hi: int) {
    exists i :: i in stale && lo < i < hi
  }

  /** The slot of the last element sv after its deletion: stale unless sv is undef. */
  function LeftBehind(sh: Shape, sv: Sv): set<int> {
    if sv == Undef then {} else {sh.off + sh.fill}
  }

  /** An array: its contents with the reference ledger, and its place in memory. */
  datatype Machine = Machine(w: World, sh: Shape)
  {
    predicate Sane() {
      sh.Sane() && sh.fill == |w.elems| - 1
    }
  }

  /** Everything about an array but its elements. */
  function Rest(m: Machine): Machine {
    m.(w := m.w.(elems := []))
  }

  function StepStore(m: Machine, key: int, val: Sv, ptr: PtrSize): (r: (Machine, Reply))
    requires m.Sane()
    ensures r.0.Sane()
  {
    var (w, reply) := ApplyStore(m.w, key, val);
    var k := Resolve(|m.w.elems|, key);
    (Machine(w, if k < 0 then m.sh else StoreShape(m.sh, k, ptr)), reply)
  }

  function StepFetch(m: Machine, key: int, lval: bool, ptr: PtrSize): (r: (Machine, Reply))
    requires m.Sane()
    ensures r.0.Sane()
  {
    var (w, reply) := ApplyFetch(m.w, key, lval);
    var k := Resolve(|m.w.elems|, key);
    (Machine(w, if k >= 0 && lval && Vacant(m.w, key) then StoreShape(m.sh, k, ptr) else m.sh), reply)
  }

  function StepFill(m: Machine, fill: int, ptr: PtrSize): (r: Machine)
    requires m.Sane()
    ensures r.Sane()
  {
    var n: nat := if fill < 0 then 0 else fill + 1;
    if n - 1 <= m.sh.max then
      var l := GiveUp(m.w.flag, m.w.ledger, Dropped(m.w.elems, n));
      Machine(m.w.(elems := Resize(m.w.elems, n), ledger := l), m.sh.(fill := n - 1))
    else
      StepStore(m, n - 1, Undef, ptr).0
  }

  /** One array operation: the new state, and what the caller is given. */
  function Step(m: Machine, op: Op, ptr: PtrSize): (r: (Machine, Reply))
    requires m.Sane()
    ensures r.0.Sane()
  {
    var s, last := m.w.elems, |m.w.elems| - 1;
    match op
    case Store(key, val) => StepStore(m, key, val, ptr)
    case Fetch(key, lval) => StepFetch(m, key, lval, ptr)
    case Push(val) => (StepStore(m, |s|, val, ptr).0, Nothing)
    case Pop =>
      if s == [] then (m, Got(Undef))
      else (Machine(m.w.(elems := s[..last]), m.sh.(fill := last - 1)), Got(s[last]))
    case Shift =>
      if s == [] then (m, Got(Undef))
      else (Machine(m.w.(elems := s[1..]), ShiftShape(m.sh)), Got(s[0]))
    case Unshift(num) =>
      if num <= 0 then (m, Nothing) else
      UnshiftFill(m.sh, num, ptr);
      (Machine(Reified(m.w).(elems := Undefs(num) + s), UnshiftShape(m.sh, num, ptr)), Nothing)
    case Fill(fill) => (StepFill(m, fill, ptr), Nothing)
    case Clear =>
      if m.sh.max < 0 then (m, Nothing)
      else (Machine(m.w.(elems := [], ledger := GiveUp(m.w.flag, m.w.ledger, s)), ClearShape(m.sh)), Nothing)
    case Undefine =>
      (Machine(m.w.(elems := [], ledger := GiveUp(m.w.flag, m.w.ledger, s)),
               m.sh.(live := false, off := 0, fill := -1, max := -1)), Nothing)
    case Extend(key) => (m.(sh := ExtendShape(m.sh, key, ptr)), Nothing)
    case Delete(key, discard) =>
      var (w, reply) := ApplyDelete(m.w, key, discard);
      (Machine(w, m.sh.(fill := |w.elems| - 1)), reply)
    case Exists(key) =>
      var k := Resolve(|s|, key);
      (m, Truth(0 <= k < |s| && s[k] != Undef && s[k] != Null))
  }

  lemma UnshiftFill(sh: Shape, num: nat, ptr: PtrSize)
    requires sh.Sane()
    ensures UnshiftShape(sh, num, ptr).fill == sh.fill + num
  {
  }

  /** Sliding the window to the start of its block resets the slots it leaves. */
  function ExtendStale(sh: Shape, key: int, stale: set<int>): set<int> {
    if key > sh.max && sh.off != 0 then Beyond(stale, sh.off + sh.fill) else stale
  }

  function StoreStale(sh: Shape, k: nat, stale: set<int>, ptr: PtrSize): set<int>
    requires sh.Sane()
  {
    if k <= sh.fill then stale
    else Beyond(ExtendStale(sh, k, stale), ExtendShape(sh, k, ptr).off + k)
  }

  /** A store beyond the end raises fill over a stale slot. */
  predicate StoreExposes(sh: Shape, k: nat, stale: set<int>, ptr: PtrSize)
    requires sh.Sane()
  {
    var e := ExtendShape(sh, k, ptr);
    k > sh.fill && Between(ExtendStale(sh, k, stale), e.off + e.fill, e.off + k)
  }

  function FillStale(sh: Shape, fill: int, stale: set<int>, ptr: PtrSize): set<int>
    requires sh.Sane()
  {
    if fill <= sh.fill then stale
    else if fill <= sh.max then Beyond(stale, sh.off + fill)
    else StoreStale(sh, fill, stale, ptr)
  }

  predicate FillExposes(sh: Shape, fill: int, stale: set<int>, ptr: PtrSize)
    requires sh.Sane()
  {
    && fill > sh.fill
    && if fill <= sh.max then Between(stale, sh.off + sh.fill, sh.off + fill + 1)
       else StoreExposes(sh, fill, stale, ptr)
  }

  /** Moving the window up overwrites the slots that it comes to cover. */
  function UnshiftStale(sh: Shape, num: nat, stale: set<int>): set<int> {
    var back := if sh.off > num then num else sh.off;
    var fill := sh.fill + back;
    if num == back then stale else Beyond(stale, fill + num - back + (if fill > 0 then fill else 0))
  }

  lemma UnshiftStaleInParts(sh: Shape, num: nat, stale: set<int>)
    ensures var back := if sh.off > num then num else sh.off;
            var sh1 := sh.(off := sh.off - back, max := sh.max + back, fill := sh.fill + back);
            UnshiftStale(sh, num, stale) == if num == back then stale else UnshiftStale(sh1, num - back, stale)
  {
  }

  /** The stale slots after an operation. */
  function StaleAfter(m: Machine, stale: set<int>, op: Op, ptr: PtrSize): set<int>
    requires m.Sane()
  {
    var n := |m.w.elems|;
    match op
    case Push(_) => StoreStale(m.sh, n, stale, ptr)
    case Store(key, _) =>
      if Resolve(n, key) < 0 then stale else StoreStale(m.sh, Resolve(n, key), stale, ptr)
    case Fetch(key, lval) =>
      if Resolve(n, key) >= 0 && lval && Vacant(m.w, key) then StoreStale(m.sh, Resolve(n, key), stale, ptr)
      else stale
    case Unshift(num) => if num <= 0 then stale else UnshiftStale(m.sh, num, stale)
    case Fill(fill) => FillStale(m.sh, fill, stale, ptr)
    case Extend(key) => ExtendStale(m.sh, key, stale)
    case Undefine => {}
    case Delete(key, _) =>
      if m.w.flag == Real && n > 0 && Resolve(n, key) == n - 1 then stale + LeftBehind(m.sh, m.w.elems[n - 1])
      else stale
    case _ => stale
  }

  /** The operation shows a stale slot where the sequence has a hole. */
  predicate Exposes(m: Machine, stale: set<int>, op: Op, ptr: PtrSize)
    requires m.Sane()
  {
    var n := |m.w.elems|;
    match op
    case Store(key, _) => Resolve(n, key) >= 0 && StoreExposes(m.sh, Resolve(n, key), stale, ptr)
    case Fetch(key, lval) =>
      Resolve(n, key) >= 0 && lval && Vacant(m.w, key) && StoreExposes(m.sh, Resolve(n, key), stale, ptr)
    case Fill(fill) => FillExposes(m.sh, fill, stale, ptr)
    case _ => false
  }

  /** The stale slots after a run. */
  function Leftover(m: Machine, stale: set<int>, ops: seq<Op>, ptr: PtrSize): set<int>
    requires m.Sane()
  {
    if ops == [] then stale else
    var init := ops[..|ops| - 1];
    StaleAfter(Run(m, init, ptr).0, Leftover(m, stale, init, ptr), ops[|ops| - 1], ptr)
  }

  /** Runs that may leave stale slots, but show none of them. */
  predicate NeverExposes(m: Machine, stale: set<int>, ops: seq<Op>, ptr: PtrSize)
    requires m.Sane()
  {
    ops == [] ||
    var init := ops[..|ops| - 1];
    && NeverExposes(m, stale, init, ptr)
    && !Exposes(Run(m, init, ptr).0, Leftover(m, stale, init, ptr), ops[|ops| - 1], ptr)
  }

  /** Runs in which av_delete never meets a defined last element of a counted array. */
  predicate CleanRun(m: Machine, ops: seq<Op>, ptr: PtrSize)
    requires m.Sane()
  {
    ops == [] ||
    (CleanRun(m, ops[..|ops| - 1], ptr) && CleanStep(Run(m, ops[..|ops| - 1], ptr).0, ops[|ops| - 1]))
  }

  predicate CleanStep(m: Machine, op: Op) {
    op.Delete? && m.w.flag == Real ==> DeleteIsClean(m.w, op.key)
  }

  /** Deleting the last of the elements and pushing another reuses its slot: nothing is shown and no
      more is stale than before, unless undefs before it went with it. */
  lemma DeleteThenPush(m: Machine, stale: set<int>, discard: bool, v: Sv, ptr: PtrSize)
    requires m.Sane() && m.w.flag == Real && m.w.elems != [] && m.w.elems[m.sh.fill] != Undef
    requires forall i :: i in stale ==> i > m.sh.off + m.sh.fill
    ensures var ops, n := [Delete(-1, discard), Push(v)], |m.w.elems|;
            && NeverExposes(m, stale, ops, ptr)
            && (Leftover(m, stale, ops, ptr) == stale <==> n == 1 || m.w.elems[n - 2] != Undef)
  {
    var ops := [Delete(-1, discard), Push(v)];
    assert ops[..1] == [ops[0]] && ops[..1][..0] == [];
    var m1 := Step(m, ops[0], ptr).0;
    var slot := m.sh.off + m.sh.fill;
    assert Run(m, ops[..1], ptr).0 == m1;
    assert Leftover(m, stale, ops[..1], ptr) == stale + {slot};
    assert NeverExposes(m, stale, ops[..1], ptr);
    assert slot in Beyond(stale + {slot}, m1.sh.off + |m1.w.elems|) <==> |m1.w.elems| < m.sh.fill;
  }

  /** Such runs leave no stale slot and show none. */
  lemma {:induction false} CleanRunsExposeNothing(m: Machine, ops: seq<Op>, ptr: PtrSize)
    requires m.Sane() && CleanRun(m, ops, ptr)
    ensures Leftover(m, {}, ops, ptr) == {} && NeverExposes(m, {}, ops, ptr)
  {
    if ops != [] {
      hide Step, StaleAfter, Exposes, CleanStep;
      var init := ops[..|ops| - 1];
      CleanRunsExposeNothing(m, init, ptr);
      CleanStepLeavesNothing(Run(m, init, ptr).0, ops[|ops| - 1], ptr);
    }
  }

  lemma CleanStepLeavesNothing(m: Machine, op: Op, ptr: PtrSize)
    requires m.Sane() && CleanStep(m, op)
    ensures StaleAfter(m, {}, op, ptr) == {} && !Exposes(m, {}, op, ptr)
  {
    hide ExtendShape;
  }

  /** A whole run: the final state and the replies, in order. */
  function Run(m: Machine, ops: seq<Op>, ptr: PtrSize): (r: (Machine, seq<Reply>))
    requires m.Sane()
    ensures r.0.Sane() && |r.1| == |ops|
  {
    if ops == [] then (m, []) else
    var (m1, replies) := Run(m, ops[..|ops| - 1], ptr);
    var (m2, reply) := Step(m1, ops[|ops| - 1], ptr);
    (m2, replies + [reply])
  }
}
