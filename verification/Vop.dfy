/** Bitwise operators on byte strings, a machine word at a time where possible. */
module Vop {
  import opened Bits
  import opened Bytes

  function ByteOp(op: BitOp, a: Byte, b: Byte): Byte {
    assert Pow2(8) == 256;
    BitwiseBound(op, a, b, 8);
    Bitwise(op, a, b)
  }

  function Zip(op: BitOp, x: seq<Byte>, y: seq<Byte>): (z: seq<Byte>)
    requires |x| == |y|
    ensures |z| == |x|
    ensures forall i :: 0 <= i < |x| ==> z[i] == ByteOp(op, x[i], y[i])
  {
    if x == [] then [] else
    var n := |x| - 1;
    Zip(op, x[..n], y[..n]) + [ByteOp(op, x[n], y[n])]
  }

  /** The operators on strings: AND has the length of the shorter operand; OR and XOR carry the
      tail of the longer one. */
  function Combine(op: BitOp, l: seq<Byte>, r: seq<Byte>): (z: seq<Byte>)
  {
    var n := if |l| < |r| then |l| else |r|;
    Zip(op, l[..n], r[..n]) + (if op == And then [] else if |r| > n then r[n..] else l[n..])
  }

  // ----- words -----

  /** The value of the bytes of a word, in either byte order. */
  function WordOf(s: seq<Byte>, big: bool): nat {
    if s == [] then 0
    else if big then Join(s[|s| - 1], 8, WordOf(s[..|s| - 1], big))
    else Join(s[0], 8, WordOf(s[1..], big))
  }

  /** The n bytes that storing a word writes. */
  function BytesOf(v: nat, n: nat, big: bool): (s: seq<Byte>)
    ensures |s| == n
    decreases n
  {
    if n == 0 then [] else
    assert Pow2(8) == 256;
    if big then BytesOf(Shr(v, 8), n - 1, big) + [Low(v, 8)]
    else [Low(v, 8)] + BytesOf(Shr(v, 8), n - 1, big)
  }

  /** The low byte of a word and the rest of it are operated on separately. */
  lemma PeelByte(op: BitOp, a: Byte, b: Byte, u: nat, v: nat)
    ensures var w := Bitwise(op, Join(a, 8, u), Join(b, 8, v));
            Low(w, 8) == ByteOp(op, a, b) && Shr(w, 8) == Bitwise(op, u, v)
  {
    assert Pow2(8) == 256;
    hide Bitwise, Pow2, Low, Shr, Join;
    BitwiseJoin(op, a, b, 8, u, v);
    LowShrOfJoin(ByteOp(op, a, b), 8, Bitwise(op, u, v));
  }

  lemma {:induction false} ZipCons(op: BitOp, x: seq<Byte>, y: seq<Byte>)
    requires |x| == |y| && x != []
    ensures Zip(op, x, y) == [ByteOp(op, x[0], y[0])] + Zip(op, x[1..], y[1..])
  {
    hide ByteOp;
  }

  /** Operating on words is operating on their bytes, in either byte order. */
  lemma {:induction false} WordwiseIsBytewise(op: BitOp, x: seq<Byte>, y: seq<Byte>, big: bool)
    requires |x| == |y|
    ensures BytesOf(Bitwise(op, WordOf(x, big), WordOf(y, big)), |x|, big) == Zip(op, x, y)
  {
    hide Bitwise, Pow2, Low, Shr, ByteOp, Join;
    if x != [] {
      if big {
        var n := |x| - 1;
        PeelByte(op, x[n], y[n], WordOf(x[..n], big), WordOf(y[..n], big));
        WordwiseIsBytewise(op, x[..n], y[..n], big);
      } else {
        PeelByte(op, x[0], y[0], WordOf(x[1..], big), WordOf(y[1..], big));
        WordwiseIsBytewise(op, x[1..], y[1..], big);
        ZipCons(op, x, y);
      }
    }
  }

  // ----- the loops -----

  /** *dl = *ll op *rl, for one word of w bytes at index at. */
  method OperateWord(op: BitOp, d: array<Byte>, l: array<Byte>, r: array<Byte>, at: nat, w: nat, big: bool)
    requires at + w <= d.Length && at + w <= l.Length && at + w <= r.Length
    modifies d
    ensures forall i :: 0 <= i < d.Length ==>
                          d[i] == if at <= i < at + w then ByteOp(op, old(l[i]), old(r[i])) else old(d[i])
  {
    hide ByteOp;
    var x, y := l[at..at + w], r[at..at + w];
    PutWord(d, at, WordBytes(op, x, y, big));
  }

  /** The bytes of the word that operating on two words gives. */
  function WordBytes(op: BitOp, x: seq<Byte>, y: seq<Byte>, big: bool): (z: seq<Byte>)
    requires |x| == |y|
    ensures |z| == |x| && forall i :: 0 <= i < |x| ==> z[i] == ByteOp(op, x[i], y[i])
  {
    hide ByteOp, Bitwise, BytesOf, WordOf;
    WordwiseIsBytewise(op, x, y, big);
    BytesOf(Bitwise(op, WordOf(x, big), WordOf(y, big)), |x|, big)
  }

  method PutWord(d: array<Byte>, at: nat, bytes: seq<Byte>)
    requires at + |bytes| <= d.Length
    modifies d
    ensures forall i :: 0 <= i < d.Length ==> d[i] == if at <= i < at + |bytes| then bytes[i - at] else old(d[i])
  {
    forall i | at <= i < at + |bytes| {
      d[i] := bytes[i - at];
    }
  }

  /** The first n bytes of the destination have been computed and the rest has not been touched. */
  twostate predicate DoneTo(op: BitOp, d: array<Byte>, l: array<Byte>, r: array<Byte>, n: nat)
    requires n <= l.Length && n <= r.Length
    reads d
  {
    forall i :: 0 <= i < d.Length ==>
                  d[i] == if i < n then ByteOp(op, old(l[i]), old(r[i])) else old(d[i])
  }

  /** The unrolled loop: four words a time, count times. The destination may be an operand. */
  method WordLoop(op: BitOp, d: array<Byte>, l: array<Byte>, r: array<Byte>, count: nat, w: nat, big: bool)
    requires count * (4 * w) <= d.Length && count * (4 * w) <= l.Length && count * (4 * w) <= r.Length
    modifies d
    ensures DoneTo(op, d, l, r, count * (4 * w))
  {
    hide ByteOp;
    var len, at := count, 0;
    while len > 0
      invariant 0 <= len <= count && at == (count - len) * (4 * w)
      invariant DoneTo(op, d, l, r, at)
    {
      len := len - 1;
      assert at + 4 * w == (count - len) * (4 * w);
      assert (count - len) * (4 * w) <= count * (4 * w);
      OperateWord(op, d, l, r, at, w, big);
      OperateWord(op, d, l, r, at + w, w, big);
      OperateWord(op, d, l, r, at + 2 * w, w, big);
      OperateWord(op, d, l, r, at + 3 * w, w, big);
      at := at + 4 * w;
    }
  }

  /** The byte loop, from index at on. */
  method ByteLoop(op: BitOp, d: array<Byte>, l: array<Byte>, r: array<Byte>, at: nat, n: nat)
    requires at <= n <= d.Length && n <= l.Length && n <= r.Length
    modifies d
    ensures forall i :: 0 <= i < d.Length ==>
                          d[i] == if at <= i < n then ByteOp(op, old(l[i]), old(r[i])) else old(d[i])
  {
    hide ByteOp;
    var dc := at;
    while dc < n
      invariant at <= dc <= n
      invariant forall i :: 0 <= i < d.Length ==>
                              d[i] == if at <= i < dc then ByteOp(op, old(l[i]), old(r[i])) else old(d[i])
    {
      d[dc] := ByteOp(op, l[dc], r[dc]);
      dc := dc + 1;
    }
  }

  // ----- string scalars -----

  class Pv {
    var buf: array<Byte>
    var cur: nat

    /** Room for the terminator is always there; the terminator itself may not be. */
    ghost predicate Valid()
      reads this
    {
      cur < buf.Length
    }

    ghost function Str(): seq<Byte>
      requires Valid()
      reads this, buf
    {
      buf[..cur]
    }

    ghost predicate Terminated()
      requires Valid()
      reads this, buf
    {
      buf[cur] == 0
    }

    constructor (s: seq<Byte>)
      ensures Valid() && Str() == s && Terminated() && fresh(buf)
    {
      var b := new Byte[|s| + 1](i requires 0 <= i => if i < |s| then s[i] else 0);
      buf, cur := b, |s|;
      new;
      assert buf[..cur] == s;
    }

    /** SvGROW: at least n bytes of buffer; the bytes in use keep their values. */
    method Grow(n: nat)
      requires Valid()
      modifies this`buf
      ensures Valid() && buf.Length >= n && buf[..cur] == old(buf[..cur])
      ensures buf == old(buf) || fresh(buf)
      ensures old(buf).Length >= n ==> buf == old(buf)
      ensures buf[cur] == old(buf[cur])
    {
      if buf.Length < n {
        var b := new Byte[n];
        forall i | 0 <= i < buf.Length {
          b[i] := buf[i];
        }
        buf := b;
      }
    }

    /** sv_catpvn of n bytes from index at of src, which may be this string's own buffer if that
        is large enough already. */
    method Append(src: array<Byte>, at: nat, n: nat)
      requires Valid() && at + n <= src.Length
      requires src == buf ==> cur + n < buf.Length
      modifies this, buf
      ensures Valid() && cur == old(cur) + n && Terminated()
      ensures Str() == old(Str()) + old(src[at..at + n])
      ensures buf == old(buf) || fresh(buf)
    {
      Grow(cur + n + 1);
      ghost var tail := src[at..at + n];
      forall i | 0 <= i < n {
        buf[cur + i] := src[at + i];
      }
      cur := cur + n;
      buf[cur] := 0;
      assert buf[..cur] == old(buf[..cur]) + tail;
    }

    /** sv_setpvn(sv, "", 0). */
    method Empty()
      requires Valid()
      modifies this`cur, buf
      ensures Valid() && cur == 0 && Terminated()
    {
      cur := 0;
      buf[0] := 0;
    }
  }

  /** Room for n bytes in the destination, zeroed where they are new. */
  method MakeRoom(sv: Pv, n: nat)
    requires sv.Valid()
    modifies sv, sv.buf
    ensures sv.Valid() && sv.cur == old(sv.cur) && sv.buf.Length > n
    ensures sv.buf == old(sv.buf) || fresh(sv.buf)
    ensures sv.buf[..sv.cur] == old(sv.buf[..sv.cur])
    ensures if old(sv.cur) < n then forall i :: old(sv.cur) <= i <= n ==> sv.buf[i] == 0
            else sv.buf == old(sv.buf) && sv.buf[..] == old(sv.buf[..])
  {
    if sv.cur < n {
      sv.Grow(n + 1);
      forall i | sv.cur <= i <= n {
        sv.buf[i] := 0;
      }
    }
  }

  /** Both loops: words while they last, then bytes. */
  method Operate(op: BitOp, d: array<Byte>, l: array<Byte>, r: array<Byte>, n: nat, w: nat, big: bool, aligned: bool)
    requires w > 0 && n <= d.Length && n <= l.Length && n <= r.Length
    modifies d
    ensures DoneTo(op, d, l, r, n)
  {
    hide ByteOp;
    var at := 0;
    if n >= 4 * w && aligned {
      var remainder, count := n % (4 * w), n / (4 * w);
      assert count * (4 * w) + remainder == n;
      WordLoop(op, d, l, r, count, w, big);
      at := count * (4 * w);
    }
    ByteLoop(op, d, l, r, at, n);
  }

  function Shorter(left: Pv, right: Pv): nat
    reads left, right
  {
    if left.cur < right.cur then left.cur else right.cur
  }

  /** do_vop on byte strings. w and big describe the machine word, aligned says whether all three
      buffers start on a word. The destination may be the left operand, and so may the right. A
      destination that is not the left operand is emptied first, even if it is the right one. The
      result is NUL-terminated, except that AND into its own left operand writes no terminator. */
  method DoVop(op: BitOp, sv: Pv, left: Pv, right: Pv, w: nat, big: bool, aligned: bool)
    requires w > 0 && sv.Valid() && left.Valid() && right.Valid()
    requires (sv != left ==> sv.buf != left.buf) && (sv != right ==> sv.buf != right.buf)
    modifies sv, sv.buf
    ensures sv.Valid()
    ensures sv.Str() == old(Combine(op, left.Str(), if right == sv && sv != left then [] else right.Str()))
    ensures sv.Terminated() <==>
            !(op == And && sv == left) || old(left.buf[Shorter(left, right)]) == 0
  {
    hide ByteOp, Zip;
    if sv != left {
      sv.Empty();
    }
    DoVopReady(op, sv, left, right, w, big, aligned);
  }

  method DoVopReady(op: BitOp, sv: Pv, left: Pv, right: Pv, w: nat, big: bool, aligned: bool)
    requires w > 0 && sv.Valid() && left.Valid() && right.Valid()
    requires (sv != left ==> sv.buf != left.buf) && (sv != right ==> sv.buf != right.buf)
    requires sv != left ==> sv.cur == 0 && sv.Terminated()
    modifies sv, sv.buf
    ensures sv.Valid() && sv.Str() == old(Combine(op, left.Str(), right.Str()))
    ensures sv.Terminated() <==>
            !(op == And && sv == left) || old(left.buf[Shorter(left, right)]) == 0
  {
    hide ByteOp, Zip;
    ghost var ls, rs := left.Str(), right.Str();
    var l, r, leftlen, rightlen := left.buf, right.buf, left.cur, right.cur;
    Compute(op, sv, left, right, w, big, aligned);
    if op != And {
      MopUp(sv, l, leftlen, r, rightlen, ls, rs);
    }
  }

  /** Everything up to the end of the loops. */
  method Compute(op: BitOp, sv: Pv, left: Pv, right: Pv, w: nat, big: bool, aligned: bool)
    requires w > 0 && sv.Valid() && left.Valid() && right.Valid()
    requires (sv != left ==> sv.buf != left.buf) && (sv != right ==> sv.buf != right.buf)
    requires sv != left ==> sv.cur == 0 && sv.Terminated()
    modifies sv, sv.buf
    ensures sv.Valid() && sv.cur == old(Shorter(left, right))
    ensures sv.Str() == old(Zip(op, left.Str()[..Shorter(left, right)], right.Str()[..Shorter(left, right)]))
    ensures sv.buf == old(sv.buf) || fresh(sv.buf)
    ensures (sv != left ==> sv.buf != old(left.buf)) && (sv != right ==> sv.buf != old(right.buf))
    ensures sv == left || sv == right ==> sv.buf == old(sv.buf)
    ensures forall i :: sv.cur <= i < old(left.cur) ==> old(left.buf)[i] == old(left.buf[i])
    ensures forall i :: sv.cur <= i < old(right.cur) ==> old(right.buf)[i] == old(right.buf[i])
    ensures sv.Terminated() <==> sv != left || old(left.buf[Shorter(left, right)]) == 0
  {
    hide ByteOp, Zip;
    ghost var ls, rs := left.Str(), right.Str();
    var l, r, leftlen, rightlen := left.buf, right.buf, left.cur, right.cur;
    var len := if leftlen < rightlen then leftlen else rightlen;
    MakeRoom(sv, len);
    assert l[..leftlen] == ls && r[..rightlen] == rs;
    sv.cur := len;
    Overwrite(op, sv, l, r, ls, rs, w, big, aligned);
  }

  /** The tail of the longer operand, or else just the terminator. */
  method MopUp(sv: Pv, l: array<Byte>, leftlen: nat, r: array<Byte>, rightlen: nat, ghost ls: seq<Byte>, ghost rs: seq<Byte>)
    requires sv.Valid() && leftlen == |ls| <= l.Length && rightlen == |rs| <= r.Length
    requires sv.cur == if leftlen < rightlen then leftlen else rightlen
    requires (l == sv.buf ==> leftlen < l.Length) && (r == sv.buf ==> rightlen < r.Length)
    requires forall i :: sv.cur <= i < leftlen ==> l[i] == ls[i]
    requires forall i :: sv.cur <= i < rightlen ==> r[i] == rs[i]
    modifies sv, sv.buf
    ensures sv.Valid() && sv.Terminated()
    ensures sv.Str() == old(sv.Str()) + (if rightlen > old(sv.cur) then rs[old(sv.cur)..] else ls[old(sv.cur)..])
  {
    var len := sv.cur;
    if rightlen > len {
      assert r[len..rightlen] == rs[len..];
      sv.Append(r, len, rightlen - len);
    } else if leftlen > len {
      assert l[len..leftlen] == ls[len..];
      sv.Append(l, len, leftlen - len);
    } else {
      sv.buf[len] := 0;
      assert ls[len..] == [];
    }
  }

  /** The loops leave the combined bytes in the destination and what follows them alone. */
  method Overwrite(op: BitOp, sv: Pv, l: array<Byte>, r: array<Byte>, ghost ls: seq<Byte>, ghost rs: seq<Byte>,
                   w: nat, big: bool, aligned: bool)
    requires w > 0 && sv.Valid() && |ls| <= l.Length && |rs| <= r.Length && l[..|ls|] == ls && r[..|rs|] == rs
    requires sv.cur == if |ls| < |rs| then |ls| else |rs|
    modifies sv.buf
    ensures sv.Valid() && sv.Str() == Zip(op, ls[..sv.cur], rs[..sv.cur])
    ensures forall i :: sv.cur <= i < sv.buf.Length ==> sv.buf[i] == old(sv.buf[i])
  {
    hide ByteOp;
    ghost var n := sv.cur;
    assert forall i :: 0 <= i < n ==> l[i] == ls[i] && r[i] == rs[i];
    Operate(op, sv.buf, l, r, sv.cur, w, big, aligned);
    assert sv.buf[..n] == Zip(op, ls[..n], rs[..n]);
  }

  // ----- what the operators mean -----

  lemma CombineByte(op: BitOp, l: seq<Byte>, r: seq<Byte>, j: nat)
    ensures ByteAt(Combine(op, l, r), j) == ByteOp(op, ByteAt(l, j), ByteAt(r, j))
  {
    hide Bitwise;
    ZeroOperand(op, ByteAt(l, j));
    ZeroOperand(op, ByteAt(r, j));
  }

  lemma {:induction false} ZeroOperand(op: BitOp, x: nat)
    ensures Bitwise(op, x, 0) == Bitwise(op, 0, x) == if op == And then 0 else x
  {
    if x > 0 {
      ZeroOperand(op, x / 2);
    }
  }

  /** The result is the operator applied to the endless bit strings. */
  lemma CombineBits(op: BitOp, l: seq<Byte>, r: seq<Byte>, p: nat)
    ensures BitAt(Combine(op, l, r), p) == match op
                                           case And => BitAt(l, p) && BitAt(r, p)
                                           case Or => BitAt(l, p) || BitAt(r, p)
                                           case Xor => BitAt(l, p) != BitAt(r, p)
  {
    hide Bit, Bitwise, Combine;
    CombineByte(op, l, r, p / 8);
    BitwiseBit(op, ByteAt(l, p / 8), ByteAt(r, p / 8), p % 8);
  }

  /** AND has the length of the shorter operand, OR and XOR that of the longer one. */
  lemma CombineLength(op: BitOp, l: seq<Byte>, r: seq<Byte>)
    ensures |Combine(op, l, r)| == if (|l| < |r|) == (op == And) then |l| else |r|
  {
  }

  /** The length and the bits determine the result: any string that has them is the result. */
  lemma CombineDetermined(op: BitOp, l: seq<Byte>, r: seq<Byte>, z: seq<Byte>)
    requires |z| == match op
                    case And => if |l| < |r| then |l| else |r|
                    case Or => if |l| < |r| then |r| else |l|
                    case Xor => if |l| < |r| then |r| else |l|
    requires forall p: nat :: BitAt(z, p) ==
                              match op
                              case And => BitAt(l, p) && BitAt(r, p)
                              case Or => BitAt(l, p) || BitAt(r, p)
                              case Xor => BitAt(l, p) != BitAt(r, p)
    ensures Combine(op, l, r) == z
  {
    CombineLength(op, l, r);
    forall p: nat ensures BitAt(Combine(op, l, r), p) == BitAt(z, p) {
      CombineBits(op, l, r, p);
    }
    hide Combine, BitAt;
    SameString(Combine(op, l, r), z);
  }

  /** A string is its length and its bits. */
  lemma SameString(s: seq<Byte>, t: seq<Byte>)
    requires |s| == |t| && forall p: nat :: BitAt(s, p) == BitAt(t, p)
    ensures s == t
  {
    forall i | 0 <= i < |s| ensures s[i] == t[i] {
      forall k | 0 <= k < 8 ensures Bit(s[i], k) == Bit(t[i], k) {
        assert BitAt(s, 8 * i + k) == BitAt(t, 8 * i + k);
        assert (8 * i + k) / 8 == i && (8 * i + k) % 8 == k;
      }
      assert Pow2(8) == 256;
      SameBits(s[i], t[i], 8);
    }
  }

  /** The order of the operands does not matter. */
  lemma Commutes(op: BitOp, l: seq<Byte>, r: seq<Byte>)
    ensures Combine(op, l, r) == Combine(op, r, l)
  {
    forall p: nat ensures BitAt(Combine(op, l, r), p) == BitAt(Combine(op, r, l), p) {
      CombineBits(op, l, r, p);
      CombineBits(op, r, l, p);
    }
    SameString(Combine(op, l, r), Combine(op, r, l));
  }

  /** Exclusive or with the same string twice gives back the first operand if and only if the
      second is not longer. */
  lemma XorTwice(l: seq<Byte>, r: seq<Byte>)
    ensures Combine(Xor, Combine(Xor, l, r), r) == l <==> |r| <= |l|
  {
    var once := Combine(Xor, l, r);
    if |r| <= |l| {
      forall p: nat ensures BitAt(Combine(Xor, once, r), p) == BitAt(l, p) {
        CombineBits(Xor, l, r, p);
        CombineBits(Xor, once, r, p);
      }
      SameString(Combine(Xor, once, r), l);
    }
  }
}
