/** Numbers as bit strings, and the bitwise operators on them. */
module Bits {

  function Pow2(n: nat): (p: nat)
    ensures p > 0
  {
    if n == 0 then 1 else 2 * Pow2(n - 1)
  }

  /** Bit i of x, counted from the low end. */
  predicate Bit(x: nat, i: nat) {
    if i == 0 then x % 2 == 1 else Bit(x / 2, i - 1)
  }

  datatype BitOp = And | Or | Xor

  predicate OpBit(op: BitOp, a: bool, b: bool) {
    match op
    case And => a && b
    case Or => a || b
    case Xor => a != b
  }

  /** x op y, bit by bit. */
  function Bitwise(op: BitOp, x: nat, y: nat): nat {
    if x == 0 && y == 0 then 0 else
    2 * Bitwise(op, x / 2, y / 2) + (if OpBit(op, x % 2 == 1, y % 2 == 1) then 1 else 0)
  }

  lemma {:induction false} ZeroBits(i: nat)
    ensures !Bit(0, i)
  {
    if i > 0 {
      ZeroBits(i - 1);
    }
  }

  lemma HalfStep(op: BitOp, x: nat, y: nat)
    ensures Bitwise(op, x, y) ==
            2 * Bitwise(op, x / 2, y / 2) + (if OpBit(op, x % 2 == 1, y % 2 == 1) then 1 else 0)
  {
  }

  lemma {:induction false} BitwiseBit(op: BitOp, x: nat, y: nat, i: nat)
    ensures Bit(Bitwise(op, x, y), i) == OpBit(op, Bit(x, i), Bit(y, i))
  {
    HalfStep(op, x, y);
    hide Bitwise;
    if i > 0 {
      BitwiseBit(op, x / 2, y / 2, i - 1);
    }
  }

  /** Numbers with the same bits are equal. */
  lemma {:induction false} SameBits(x: nat, y: nat, n: nat)
    requires x < Pow2(n) && y < Pow2(n)
    requires forall i :: 0 <= i < n ==> Bit(x, i) == Bit(y, i)
    ensures x == y
  {
    if n > 0 {
      assert Bit(x, 0) == Bit(y, 0);
      forall i | 0 <= i < n - 1 ensures Bit(x / 2, i) == Bit(y / 2, i) {
        assert Bit(x, i + 1) == Bit(y, i + 1);
      }
      SameBits(x / 2, y / 2, n - 1);
    }
  }

  lemma {:induction false} Pow2Add(a: nat, b: nat)
    ensures Pow2(a + b) == Pow2(a) * Pow2(b)
  {
    if a > 0 {
      Pow2Add(a - 1, b);
    }
  }

  /** The number with the low n bits low, continued by high. */
  function Join(low: nat, n: nat, high: nat): nat {
    low + Pow2(n) * high
  }

  lemma Peel(low: nat, n: nat, high: nat)
    requires n > 0
    ensures Join(low, n, high) % 2 == low % 2 && Join(low, n, high) / 2 == Join(low / 2, n - 1, high)
  {
    assert Join(low, n, high) == low + 2 * (Pow2(n - 1) * high);
  }

  lemma JoinNone(low: nat, high: nat)
    requires low < Pow2(0)
    ensures Join(low, 0, high) == high
  {
  }

  lemma {:induction false} BitOfJoin(low: nat, n: nat, high: nat, i: nat)
    requires low < Pow2(n)
    ensures Bit(Join(low, n, high), i) == if i < n then Bit(low, i) else Bit(high, i - n)
  {
    hide Join;
    if n == 0 {
      JoinNone(low, high);
    } else {
      Peel(low, n, high);
      if i > 0 {
        BitOfJoin(low / 2, n - 1, high, i - 1);
      }
    }
  }

  lemma {:induction false} BitsBelow(x: nat, n: nat, i: nat)
    requires x < Pow2(n) && i >= n
    ensures !Bit(x, i)
  {
    if n == 0 {
      ZeroBits(i);
    } else {
      BitsBelow(x / 2, n - 1, i - 1);
    }
  }

  lemma {:induction false} BitwiseBound(op: BitOp, x: nat, y: nat, n: nat)
    requires x < Pow2(n) && y < Pow2(n)
    ensures Bitwise(op, x, y) < Pow2(n)
  {
    if n > 0 && !(x == 0 && y == 0) {
      BitwiseBound(op, x / 2, y / 2, n - 1);
    }
  }

  /** Operators act on the low n bits and on the rest independently. */
  lemma {:induction false} BitwiseJoin(op: BitOp, x: nat, y: nat, n: nat, a: nat, b: nat)
    requires x < Pow2(n) && y < Pow2(n)
    ensures Bitwise(op, Join(x, n, a), Join(y, n, b)) == Join(Bitwise(op, x, y), n, Bitwise(op, a, b))
  {
    hide Join;
    if n == 0 {
      assert Bitwise(op, 0, 0) == 0;
      JoinNone(0, a);
      JoinNone(0, b);
      JoinNone(0, Bitwise(op, a, b));
    } else {
      BitwiseJoinStep(op, x, y, n, a, b);
      BitwiseJoin(op, x / 2, y / 2, n - 1, a, b);
      HalfStep(op, x, y);
      hide Bitwise, OpBit;
      SameHalves(Bitwise(op, Join(x, n, a), Join(y, n, b)), Join(Bitwise(op, x, y), n, Bitwise(op, a, b)));
    }
  }

  lemma SameHalves(u: nat, v: nat)
    requires u / 2 == v / 2 && u % 2 == v % 2
    ensures u == v
  {
  }

  lemma BitwiseJoinStep(op: BitOp, x: nat, y: nat, n: nat, a: nat, b: nat)
    requires n > 0
    ensures var u := Bitwise(op, Join(x, n, a), Join(y, n, b));
            && u / 2 == Bitwise(op, Join(x / 2, n - 1, a), Join(y / 2, n - 1, b))
            && u % 2 == Bitwise(op, x, y) % 2
    ensures var v := Join(Bitwise(op, x, y), n, Bitwise(op, a, b));
            && v / 2 == Join(Bitwise(op, x / 2, y / 2), n - 1, Bitwise(op, a, b))
            && v % 2 == Bitwise(op, x, y) % 2
  {
    HalfStep(op, x, y);
    HalfStep(op, Join(x, n, a), Join(y, n, b));
    hide Bitwise, Pow2, Join;
    Peel(x, n, a);
    Peel(y, n, b);
    Peel(Bitwise(op, x, y), n, Bitwise(op, a, b));
  }

  /** All ones: the complement of x within n bits. */
  lemma {:induction false} ComplementBit(x: nat, n: nat, i: nat)
    requires x < Pow2(n) && i < n
    ensures Bit(Pow2(n) - 1 - x, i) == !Bit(x, i)
  {
    var c := Pow2(n) - 1 - x;
    assert c % 2 == 1 - x % 2 && c / 2 == Pow2(n - 1) - 1 - x / 2;
    if i > 0 {
      ComplementBit(x / 2, n - 1, i - 1);
    }
  }

  lemma OnesBit(n: nat, i: nat)
    ensures Bit(Pow2(n) - 1, i) == (i < n)
  {
    if i < n {
      ZeroBits(i);
      ComplementBit(0, n, i);
    } else {
      BitsBelow(Pow2(n) - 1, n, i);
    }
  }

  /** Shifting left moves every bit up. */
  lemma ShiftBit(x: nat, k: nat, i: nat)
    ensures Bit(x * Pow2(k), i) == (i >= k && Bit(x, i - k))
  {
    BitOfJoin(0, k, x, i);
    assert Join(0, k, x) == x * Pow2(k);
    ZeroBits(i);
  }

  /** x >> k. */
  function Shr(x: nat, k: nat): nat {
    if k == 0 then x else Shr(x / 2, k - 1)
  }

  /** x modulo 2^k. */
  function Low(x: nat, k: nat): (r: nat)
    ensures r < Pow2(k)
  {
    if k == 0 then 0 else x % 2 + 2 * Low(x / 2, k - 1)
  }

  /** Quotient and remainder. */
  lemma {:induction false} ShrLow(x: nat, k: nat)
    ensures x == Join(Low(x, k), k, Shr(x, k))
  {
    if k > 0 {
      ShrLow(x / 2, k - 1);
      hide Join;
      Peel(Low(x, k), k, Shr(x, k));
    }
  }

  /** Low and Shr are remainder and quotient by the power of two. */
  lemma LowIsRemainder(x: nat, k: nat)
    ensures Low(x, k) == x % Pow2(k) && Shr(x, k) == x / Pow2(k)
  {
    ShrLow(x, k);
    Divided(x, Pow2(k), Shr(x, k), Low(x, k));
  }

  lemma Divided(x: nat, p: nat, q: nat, r: nat)
    requires x == r + p * q && r < p
    ensures x % p == r && x / p == q
  {
    SameQuotient(p, q, r, x / p, x % p);
  }

  lemma SameQuotient(p: nat, q: nat, r: nat, q': nat, r': nat)
    requires r + p * q == r' + p * q' && r < p && r' < p
    ensures q == q' && r == r'
  {
    if q > q' {
      NextMultiple(p, q, q');
    } else if q < q' {
      NextMultiple(p, q', q);
    }
  }

  lemma NextMultiple(p: nat, q: nat, q': nat)
    requires q > q'
    ensures p * q >= p * q' + p
  {
    assert p * q == p * q' + p * (q - q');
    assert p * (q - q') == p + p * (q - q' - 1);
  }

  /** Quotient and remainder are unique. */
  lemma {:induction false} LowShrOfJoin(low: nat, k: nat, high: nat)
    requires low < Pow2(k)
    ensures Low(Join(low, k, high), k) == low && Shr(Join(low, k, high), k) == high
  {
    hide Join;
    if k == 0 {
      JoinNone(low, high);
    } else {
      Peel(low, k, high);
      LowShrOfJoin(low / 2, k - 1, high);
    }
  }

  lemma {:induction false} ShrBit(x: nat, k: nat, i: nat)
    ensures Bit(Shr(x, k), i) == Bit(x, i + k)
  {
    if k > 0 {
      ShrBit(x / 2, k - 1, i);
    }
  }

  lemma LowBit(x: nat, k: nat, i: nat)
    ensures Bit(Low(x, k), i) == (i < k && Bit(x, i))
  {
    ShrLow(x, k);
    hide Join;
    BitOfJoin(Low(x, k), k, Shr(x, k), i);
    if i >= k {
      BitsBelow(Low(x, k), k, i);
    }
  }

  /** Masking with k ones is reduction modulo 2^k. */
  lemma MaskIsLow(x: nat, k: nat, n: nat)
    requires x < Pow2(n)
    ensures Bitwise(And, x, Pow2(k) - 1) == Low(x, k)
  {
    var r := Bitwise(And, x, Pow2(k) - 1);
    var w := n + k;
    Pow2Grows(n, k);
    Pow2Grows(k, n);
    BitwiseBound(And, x, Pow2(k) - 1, w);
    forall i | 0 <= i < w ensures Bit(r, i) == Bit(Low(x, k), i) {
      BitwiseBit(And, x, Pow2(k) - 1, i);
      OnesBit(k, i);
      LowBit(x, k, i);
    }
    SameBits(r, Low(x, k), w);
  }

  lemma {:induction false} Pow2Grows(a: nat, b: nat)
    ensures Pow2(a) <= Pow2(a + b)
  {
    if b > 0 {
      Pow2Grows(a, b - 1);
    }
  }

  lemma {:induction false} ShrShr(x: nat, a: nat, b: nat)
    ensures Shr(Shr(x, a), b) == Shr(x, a + b)
  {
    if a > 0 {
      ShrShr(x / 2, a - 1, b);
    }
  }

  lemma {:induction false} LowSplit(x: nat, a: nat, b: nat)
    ensures Low(x, a + b) == Join(Low(x, a), a, Low(Shr(x, a), b))
  {
    if a > 0 {
      LowSplit(x / 2, a - 1, b);
      hide Join;
      Peel(Low(x, a), a, Low(Shr(x, a), b));
    }
  }
}
