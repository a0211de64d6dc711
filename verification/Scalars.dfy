/** Scalar handles, and the ledger of reference-count changes that array operations write to. */
module Scalars {

  /** A pointer to a scalar. Undef is the immortal shared undef; Null is the null pointer. */
  datatype Sv = Null | Undef | Scalar(id: nat)

  /** A pointer into a block of slots: the address of the block (0 is null) and an index in it. */
  datatype Ptr = Ptr(block: nat, index: int)

  /** The value of a scalar, which arrays copy but never look at. */
  datatype Datum = Unset | Given(text: string)

  function Undefs(n: nat): (s: seq<Sv>)
    ensures |s| == n
    ensures forall i :: 0 <= i < n ==> s[i] == Undef
  {
    if n == 0 then [] else Undefs(n - 1) + [Undef]
  }

  /** sv was allocated when the next scalar to allocate had number id, or later. */
  predicate NewSince(sv: Sv, id: nat) {
    sv.Scalar? && sv.id >= id
  }

  /** n newly allocated scalars, numbered from id. */
  function Fresh(id: nat, n: nat): (s: seq<Sv>)
    ensures |s| == n
    ensures forall i :: 0 <= i < n ==> s[i] == Scalar(id + i)
  {
    if n == 0 then [] else Fresh(id, n - 1) + [Scalar(id + n - 1)]
  }

  /** Every SvREFCNT_inc and SvREFCNT_dec so far, in order. */
  datatype Ledger = Blank | Inc(before: Ledger, sv: Sv) | Dec(before: Ledger, sv: Sv)

  /** The reference count of x. */
  function Count(l: Ledger, x: Sv): int {
    match l
    case Blank => 0
    case Inc(before, sv) => Count(before, x) + (if sv == x then 1 else 0)
    case Dec(before, sv) => Count(before, x) - (if sv == x then 1 else 0)
  }

  /** Undef is immortal and Null is no scalar: neither is counted. */
  function Acquire(l: Ledger, sv: Sv): Ledger {
    if sv.Scalar? then Inc(l, sv) else l
  }

  function Release(l: Ledger, sv: Sv): Ledger {
    if sv.Scalar? then Dec(l, sv) else l
  }

  /** One reference taken, or dropped, for each element, from the last to the first. */
  function AcquireAll(l: Ledger, s: seq<Sv>): Ledger {
    if s == [] then l else Acquire(AcquireAll(l, s[1..]), s[0])
  }

  function ReleaseAll(l: Ledger, s: seq<Sv>): Ledger {
    if s == [] then l else Release(ReleaseAll(l, s[1..]), s[0])
  }

  /** The first references to n new scalars, in order of allocation. */
  function Mint(l: Ledger, id: nat, n: nat): Ledger {
    if n == 0 then l else Inc(Mint(l, id, n - 1), Scalar(id + n - 1))
  }

  /** How many slots of s hold x. */
  function Occ(s: seq<Sv>, x: Sv): nat {
    if s == [] then 0 else (if s[0] == x then 1 else 0) + Occ(s[1..], x)
  }

  lemma {:induction false} OccSnoc(s: seq<Sv>, v: Sv, x: Sv)
    ensures Occ(s + [v], x) == Occ(s, x) + (if v == x then 1 else 0)
  {
    if s == [] {
      assert s + [v] == [v];
    } else {
      assert (s + [v])[1..] == s[1..] + [v];
      OccSnoc(s[1..], v, x);
    }
  }

  /** Each new scalar starts with one reference, and no other count changes. */
  lemma {:induction false} MintCounts(l: Ledger, id: nat, n: nat, x: Sv)
    ensures Count(Mint(l, id, n), x) == Count(l, x) + Occ(Fresh(id, n), x)
  {
    if n > 0 {
      MintCounts(l, id, n - 1, x);
      OccSnoc(Fresh(id, n - 1), Scalar(id + n - 1), x);
    }
  }

  lemma {:induction false} FreshOnce(id: nat, n: nat, x: Sv)
    ensures Occ(Fresh(id, n), x) == if x.Scalar? && id <= x.id < id + n then 1 else 0
  {
    if n > 0 {
      FreshOnce(id, n - 1, x);
      OccSnoc(Fresh(id, n - 1), Scalar(id + n - 1), x);
    }
  }
}
