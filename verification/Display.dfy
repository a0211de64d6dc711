/** pv_display: a byte string printed in quotes, with escapes, and how to read it back. */
module Display {
  import opened Bytes

  const QUOTE: Byte := 34
  const BACKSLASH: Byte := 92
  const DOTS: seq<Byte> := [46, 46, 46]
  const NUL_MARK: seq<Byte> := [92, 48]

  predicate IsDigit(c: Byte) {
    48 <= c <= 57
  }

  // ----- what is printed -----

  /** %o and %03o. */
  function Octal(b: Byte, padded: bool): seq<Byte> {
    if padded || b >= 64 then [48 + b / 64, 48 + b / 8 % 8, 48 + b % 8]
    else if b >= 8 then [48 + b / 8, 48 + b % 8]
    else [48 + b]
  }

  /** One byte; padded says that a digit follows it in the string. */
  function Escape(b: Byte, padded: bool, isPrint: Byte -> bool): seq<Byte> {
    if isPrint(b) then
      match b
      case 9 => [BACKSLASH, 116]
      case 10 => [BACKSLASH, 110]
      case 13 => [BACKSLASH, 114]
      case 12 => [BACKSLASH, 102]
      case 34 => [BACKSLASH, QUOTE]
      case 92 => [BACKSLASH, BACKSLASH]
      case _ => [b]
    else [BACKSLASH] + Octal(b, padded)
  }

  /** How many bytes of s are printed when used characters have been written already: all of them,
      or until the limit pvlim is reached, if it is not 0. */
  function Printed(s: seq<Byte>, pvlim: nat, used: nat, isPrint: Byte -> bool): (k: nat)
    ensures k <= |s|
  {
    if s == [] || (pvlim > 0 && used >= pvlim) then 0
    else 1 + Printed(s[1..], pvlim, used + |Escape(s[0], FollowedByDigit(s), isPrint)|, isPrint)
  }

  predicate FollowedByDigit(s: seq<Byte>) {
    |s| > 1 && IsDigit(s[1])
  }

  /** The escapes of the first k bytes of s. */
  function Escapes(s: seq<Byte>, k: nat, isPrint: Byte -> bool): seq<Byte>
    requires k <= |s|
  {
    if k == 0 then [] else Escape(s[0], FollowedByDigit(s), isPrint) + Escapes(s[1..], k - 1, isPrint)
  }

  /** What is still to be printed of t, and how much of t that covers. */
  function Remaining(t: seq<Byte>, pvlim: nat, used: nat, isPrint: Byte -> bool): (seq<Byte>, nat) {
    var k := Printed(t, pvlim, used, isPrint);
    (Escapes(t, k, isPrint), k)
  }

  /** The whole output. */
  function Shown(s: seq<Byte>, nulTerminated: bool, pvlim: nat, isPrint: Byte -> bool): seq<Byte> {
    var (text, k) := Remaining(s, pvlim, 1, isPrint);
    [QUOTE] + (text + ([QUOTE] + Suffix(k < |s|, nulTerminated)))
  }

  /** What follows the closing quote. */
  function Suffix(cut: bool, nul: bool): seq<Byte> {
    (if cut then DOTS else []) + (if nul then NUL_MARK else [])
  }

  lemma OneMore(t: seq<Byte>, pvlim: nat, used: nat, isPrint: Byte -> bool)
    requires t != [] && !(pvlim > 0 && used >= pvlim)
    ensures var e := Escape(t[0], FollowedByDigit(t), isPrint);
            var rest := Remaining(t[1..], pvlim, used + |e|, isPrint);
            Remaining(t, pvlim, used, isPrint) == (e + rest.0, 1 + rest.1)
  {
  }

  lemma NoMore(t: seq<Byte>, pvlim: nat, used: nat, isPrint: Byte -> bool)
    ensures t == [] || (pvlim > 0 && used >= pvlim) ==> Remaining(t, pvlim, used, isPrint) == ([], 0)
  {
  }

  // ----- the loop -----

  class Output {
    var text: seq<Byte>

    constructor ()
      ensures text == []
    {
      text := [];
    }

    /** The closing quote and what follows it. */
    method Finish(truncated: bool, nulTerminated: bool)
      modifies this
      ensures text == old(text) + ([QUOTE] + Suffix(truncated, nulTerminated))
    {
      text := text + [QUOTE];
      if truncated {
        text := text + DOTS;
      }
      if nulTerminated {
        text := text + NUL_MARK;
      }
    }

    /** pv_display of the first cur bytes of pv, whose buffer has len bytes. */
    method PvDisplay(pv: seq<Byte>, cur: nat, len: nat, pvlim: nat, isPrint: Byte -> bool)
      requires cur <= |pv| && len <= |pv|
      modifies this
      ensures text == Shown(pv[..cur], len > cur && pv[cur] == 0, pvlim, isPrint)
    {
      hide Remaining, Escape;
      var truncated := false;
      var nulTerminated := len > cur && pv[cur] == 0;
      ghost var s := pv[..cur];
      text := [QUOTE];
      var left, at := cur, 0;
      ghost var all := Remaining(s, pvlim, 1, isPrint);
      assert s[0..] == s;
      while left > 0
        invariant 0 <= left && at + left == cur
        invariant var rest := Remaining(s[at..], pvlim, |text|, isPrint);
                  [QUOTE] + all.0 == text + rest.0 && all.1 == at + rest.1
        invariant truncated ==> left > 0 && pvlim > 0 && |text| >= pvlim
        decreases left, !truncated
      {
        if pvlim > 0 && |text| >= pvlim {
          truncated := true;
          break;
        }
        left := left - 1;
        assert pv[at] == s[at..][0] && s[at..][1..] == s[at + 1..];
        assert FollowedByDigit(s[at..]) == (left > 0 && IsDigit(pv[at + 1]));
        OneMore(s[at..], pvlim, |text|, isPrint);
        text := text + Escape(pv[at], left > 0 && IsDigit(pv[at + 1]), isPrint);
        at := at + 1;
      }
      NoMore(s[at..], pvlim, |text|, isPrint);
      ghost var suffix := [QUOTE] + Suffix(truncated, nulTerminated);
      assert ([QUOTE] + all.0) + suffix == [QUOTE] + (all.0 + suffix);
      Finish(truncated, nulTerminated);
    }
  }

  // ----- reading it back -----

  datatype Option<T> = None | Some(value: T)

  predicate IsOctal(c: Byte) {
    48 <= c <= 55
  }

  /** How many of the first most characters are octal digits. */
  function OctalRun(t: seq<Byte>, most: nat): (n: nat)
    ensures n <= most && n <= |t|
  {
    if most == 0 || t == [] || !IsOctal(t[0]) then 0 else 1 + OctalRun(t[1..], most - 1)
  }

  function Digit(c: Byte): nat
    requires IsOctal(c)
  {
    c as int - 48
  }

  function OctalValue(t: seq<Byte>): nat
    requires forall i :: 0 <= i < |t| ==> IsOctal(t[i])
  {
    if t == [] then 0 else 8 * OctalValue(t[..|t| - 1]) + Digit(t[|t| - 1])
  }

  lemma {:induction false} RunIsOctal(t: seq<Byte>, most: nat)
    ensures forall i :: 0 <= i < OctalRun(t, most) ==> IsOctal(t[i])
  {
    if OctalRun(t, most) > 0 {
      RunIsOctal(t[1..], most - 1);
      forall i | 0 <= i < OctalRun(t, most) ensures IsOctal(t[i]) {
        assert i > 0 ==> t[i] == t[1..][i - 1];
      }
    }
  }

  /** The letter after a backslash that stands for a control character. */
  function Control(c: Byte): Option<Byte> {
    match c
    case 116 => Some(9)
    case 110 => Some(10)
    case 114 => Some(13)
    case 102 => Some(12)
    case 34 => Some(34)
    case 92 => Some(92)
    case _ => None
  }

  /** What one escape or plain character at the start of t stands for, and how long it is. */
  function ReadOne(t: seq<Byte>): Option<(Byte, nat)>
    requires t != []
  {
    if t[0] != BACKSLASH then Some((t[0], 1))
    else if |t| == 1 then None
    else if Control(t[1]).Some? then Some((Control(t[1]).value, 2))
    else
      var n := OctalRun(t[1..], 3);
      RunIsOctal(t[1..], 3);
      var v := OctalValue(t[1..][..n]);
      if n == 0 || v > 255 then None else Some((v, 1 + n))
  }

  /** The bytes up to the closing quote, and what follows it. */
  function Read(t: seq<Byte>): Option<(seq<Byte>, seq<Byte>)> {
    if t == [] then None
    else if t[0] == QUOTE then Some(([], t[1..]))
    else
      var one := ReadOne(t);
      if one.None? || one.value.1 > |t| || one.value.1 == 0 then None else
      var rest := Read(t[one.value.1..]);
      if rest.None? then None else Some(([one.value.0] + rest.value.0, rest.value.1))
  }

  /** Everything a printed string says: its bytes, whether more were cut off, whether a NUL follows. */
  function Parse(t: seq<Byte>): Option<(seq<Byte>, bool, bool)> {
    if t == [] || t[0] != QUOTE then None else
    var r := Read(t[1..]);
    if r.None? then None else
    var rest := r.value.1;
    var cut := |rest| >= 3 && rest[..3] == DOTS;
    Some((r.value.0, cut, (if cut then rest[3..] else rest) == NUL_MARK))
  }

  // ----- unique decodability -----

  /** An octal escape is read back whole, provided that no octal digit follows a short one. */
  lemma ReadOctal(b: Byte, padded: bool, t: seq<Byte>)
    requires !padded && t != [] ==> !IsOctal(t[0])
    ensures var e := [BACKSLASH] + Octal(b, padded); ReadOne(e + t) == Some((b, |e|))
  {
    var o := Octal(b, padded);
    var u := o + t;
    assert ([BACKSLASH] + o + t)[1..] == u;
    RunOfOctal(o, t, 3);
    assert u[..|o|] == o;
    ValueOfOctal(b, padded);
    assert Control(u[0]) == None;
  }

  lemma RunOfOctal(o: seq<Byte>, t: seq<Byte>, most: nat)
    requires |o| <= most && forall i :: 0 <= i < |o| ==> IsOctal(o[i])
    requires |o| == most || t == [] || !IsOctal(t[0])
    ensures OctalRun(o + t, most) == |o|
  {
    if o == [] {
      assert o + t == t;
    } else {
      assert (o + t)[1..] == o[1..] + t;
      RunOfOctal(o[1..], t, most - 1);
    }
  }

  lemma ValueOfOctal(b: Byte, padded: bool)
    ensures var o := Octal(b, padded); (forall i :: 0 <= i < |o| ==> IsOctal(o[i])) && OctalValue(o) == b
  {
    var x: Byte, y: Byte, z: Byte := 48 + b / 64, 48 + b / 8 % 8, 48 + b % 8;
    OctalDigits(x, y, z);
    hide OctalValue;
    assert 64 * Digit(x) + 8 * Digit(y) + Digit(z) == b;
  }

  lemma OctalDigits(x: Byte, y: Byte, z: Byte)
    requires IsOctal(x) && IsOctal(y) && IsOctal(z)
    ensures OctalValue([z]) == Digit(z)
    ensures OctalValue([y, z]) == 8 * Digit(y) + Digit(z)
    ensures OctalValue([x, y, z]) == 64 * Digit(x) + 8 * Digit(y) + Digit(z)
  {
    assert [x][..0] == [] && [y][..0] == [] && [z][..0] == [];
    assert [x, y][..1] == [x] && [y, z][..1] == [y];
    assert [x, y, z][..2] == [x, y];
    assert OctalValue([]) == 0;
    assert OctalValue([x]) == Digit(x) && OctalValue([y]) == Digit(y);
    assert OctalValue([x, y]) == 8 * Digit(x) + Digit(y);
  }

  /** Any escape is read back whole. */
  lemma ReadEscape(b: Byte, padded: bool, isPrint: Byte -> bool, t: seq<Byte>)
    requires !padded && t != [] ==> !IsDigit(t[0])
    ensures var e := Escape(b, padded, isPrint);
            e != [] && e[0] != QUOTE && ReadOne(e + t) == Some((b, |e|))
  {
    if !isPrint(b) {
      ReadOctal(b, padded, t);
    }
  }

  /** Printing never starts with a digit unless the byte is one. */
  lemma EscapeStart(b: Byte, padded: bool, isPrint: Byte -> bool)
    ensures var e := Escape(b, padded, isPrint); e != [] && (IsDigit(e[0]) ==> IsDigit(b))
  {
  }

  /** After a byte that is not followed by a digit, no digit is printed. */
  lemma NoDigitAhead(s: seq<Byte>, k: nat, isPrint: Byte -> bool, rest: seq<Byte>)
    requires 0 < k <= |s|
    ensures var u := Escapes(s[1..], k - 1, isPrint) + ([QUOTE] + rest);
            u != [] && (!FollowedByDigit(s) ==> !IsDigit(u[0]))
  {
    if k > 1 {
      EscapeStart(s[1], FollowedByDigit(s[1..]), isPrint);
    }
  }

  lemma ReadStep(e: seq<Byte>, u: seq<Byte>, b: Byte)
    requires e != [] && e[0] != QUOTE && ReadOne(e + u) == Some((b, |e|)) && Read(u).Some?
    ensures Read(e + u) == Some(([b] + Read(u).value.0, Read(u).value.1))
  {
    hide ReadOne;
    assert (e + u)[|e|..] == u;
  }

  lemma EscapesCons(s: seq<Byte>, k: nat, isPrint: Byte -> bool, tail: seq<Byte>)
    requires 0 < k <= |s|
    ensures Escapes(s, k, isPrint) + tail ==
            Escape(s[0], FollowedByDigit(s), isPrint) + (Escapes(s[1..], k - 1, isPrint) + tail)
  {
    hide Escape;
  }

  lemma ReadQuote(rest: seq<Byte>)
    ensures Read([] + ([QUOTE] + rest)) == Some(([], rest))
  {
    assert [] + ([QUOTE] + rest) == [QUOTE] + rest;
    assert ([QUOTE] + rest)[1..] == rest;
  }

  lemma TakeCons(s: seq<Byte>, k: nat)
    requires 0 < k <= |s|
    ensures [s[0]] + s[1..][..k - 1] == s[..k]
  {
  }

  lemma ReadEscapesStep(s: seq<Byte>, k: nat, isPrint: Byte -> bool, rest: seq<Byte>)
    requires 0 < k <= |s|
    requires Read(Escapes(s[1..], k - 1, isPrint) + ([QUOTE] + rest)) == Some((s[1..][..k - 1], rest))
    ensures Read(Escapes(s, k, isPrint) + ([QUOTE] + rest)) == Some((s[..k], rest))
  {
    hide ReadOne, Escape, Read, Escapes, FollowedByDigit;
    var u := Escapes(s[1..], k - 1, isPrint) + ([QUOTE] + rest);
    EscapesCons(s, k, isPrint, [QUOTE] + rest);
    NoDigitAhead(s, k, isPrint, rest);
    ReadEscape(s[0], FollowedByDigit(s), isPrint, u);
    ReadStep(Escape(s[0], FollowedByDigit(s), isPrint), u, s[0]);
    TakeCons(s, k);
  }

  /** The printed text, closing quote included, decodes to exactly the bytes it was made from,
      whatever comes after it. */
  lemma {:induction false} ReadEscapes(s: seq<Byte>, k: nat, isPrint: Byte -> bool, rest: seq<Byte>)
    requires k <= |s|
    ensures Read(Escapes(s, k, isPrint) + ([QUOTE] + rest)) == Some((s[..k], rest))
  {
    hide Read, ReadOne, Escape;
    assert k == 0 ==> Escapes(s, k, isPrint) == [];
    hide Escapes;
    if k == 0 {
      ReadQuote(rest);
    } else {
      ReadEscapes(s[1..], k - 1, isPrint, rest);
      ReadEscapesStep(s, k, isPrint, rest);
    }
  }

  /** The whole output says which bytes it shows, whether that is a proper prefix, and whether the
      string was NUL-terminated, for every printability predicate and every limit. */
  lemma ParseShown(s: seq<Byte>, nul: bool, pvlim: nat, isPrint: Byte -> bool)
    ensures var k := Printed(s, pvlim, 1, isPrint);
            Parse(Shown(s, nul, pvlim, isPrint)) == Some((s[..k], k < |s|, nul))
  {
    var (text, k) := Remaining(s, pvlim, 1, isPrint);
    ReadEscapes(s, k, isPrint, Suffix(k < |s|, nul));
    hide Escapes, Printed, Read, Suffix;
    ParseQuoted(text, s[..k], k < |s|, nul);
  }

  lemma ParseQuoted(text: seq<Byte>, bytes: seq<Byte>, cut: bool, nul: bool)
    requires Read(text + ([QUOTE] + Suffix(cut, nul))) == Some((bytes, Suffix(cut, nul)))
    ensures Parse([QUOTE] + (text + ([QUOTE] + Suffix(cut, nul)))) == Some((bytes, cut, nul))
  {
    hide Read;
    var t, rest := [QUOTE] + (text + ([QUOTE] + Suffix(cut, nul))), Suffix(cut, nul);
    assert t[1..] == text + ([QUOTE] + rest);
    if cut {
      assert rest[..3] == DOTS && rest[3..] == if nul then NUL_MARK else [];
    }
  }

  /** Without a limit everything is printed. */
  lemma {:induction false} NoLimit(s: seq<Byte>, used: nat, isPrint: Byte -> bool)
    ensures Printed(s, 0, used, isPrint) == |s|
  {
    if s != [] {
      NoLimit(s[1..], used + |Escape(s[0], FollowedByDigit(s), isPrint)|, isPrint);
    }
  }

  /** Hence different strings print differently, even under different printability predicates. */
  lemma Injective(s: seq<Byte>, nul: bool, p: Byte -> bool, t: seq<Byte>, nul': bool, q: Byte -> bool)
    requires Shown(s, nul, 0, p) == Shown(t, nul', 0, q)
    ensures s == t && nul == nul'
  {
    ParseShown(s, nul, 0, p);
    ParseShown(t, nul', 0, q);
    NoLimit(s, 1, p);
    NoLimit(t, 1, q);
    assert s[..|s|] == s && t[..|t|] == t;
  }

  lemma {:induction false} EscapesLength(s: seq<Byte>, pvlim: nat, used: nat, isPrint: Byte -> bool)
    requires pvlim > 0
    ensures var text := Remaining(s, pvlim, used, isPrint).0;
            used + |text| <= if used > pvlim + 3 then used else pvlim + 3
  {
    if s != [] && used < pvlim {
      OneMore(s, pvlim, used, isPrint);
      EscapesLength(s[1..], pvlim, used + |Escape(s[0], FollowedByDigit(s), isPrint)|, isPrint);
    }
  }

  /** With a limit the output is at most nine characters longer than it. */
  lemma LimitHolds(s: seq<Byte>, nul: bool, pvlim: nat, isPrint: Byte -> bool)
    requires pvlim > 0
    ensures |Shown(s, nul, pvlim, isPrint)| <= pvlim + 9
  {
    EscapesLength(s, pvlim, 1, isPrint);
  }

  /** and can be that long. */
  lemma LimitTight()
    ensures |Shown([0, 48], true, 2, _ => false)| == 2 + 9
  {
    var s: seq<Byte> := [0, 48];
    OneMore(s, 2, 1, _ => false);
    NoMore(s[1..], 2, 5, _ => false);
  }

  // ----- what each byte looks like -----

  /** The character after the backslash in the two-character form of b. */
  function Letter(b: Byte): Option<char> {
    if b == '\t' as int then Some('t')
    else if b == '\n' as int then Some('n')
    else if b == '\r' as int then Some('r')
    else if b == 12 then Some('f')
    else if b == '\"' as int then Some('\"')
    else if b == '\\' as int then Some('\\')
    else None
  }

  /** e is how b must look: as a printable byte, two characters or itself; as another byte, a
      backslash and its value in octal digits, three if a digit follows, else without leading zeros. */
  predicate Looks(e: seq<Byte>, b: Byte, digitFollows: bool, printable: bool) {
    if printable then
      if Letter(b).Some? then e == ['\\' as int, Letter(b).value as int] else e == [b]
    else
      && 2 <= |e| <= 4 && e[0] == '\\' as int
      && (forall i :: 1 <= i < |e| ==> IsOctal(e[i])) && OctalValue(e[1..]) == b
      && if digitFollows then |e| == 4 else |e| == 2 || e[1] != '0' as int
  }

  lemma EscapeLooks(b: Byte, padded: bool, isPrint: Byte -> bool)
    ensures Looks(Escape(b, padded, isPrint), b, padded, isPrint(b))
  {
    ValueOfOctal(b, padded);
    var e := Escape(b, padded, isPrint);
    if !isPrint(b) {
      assert e[1..] == Octal(b, padded);
    }
  }

  lemma Reassociate(text: seq<Byte>, nul: bool)
    ensures ([QUOTE] + text) + ([QUOTE] + Suffix(false, nul)) ==
            [QUOTE] + (text + ([QUOTE] + if nul then NUL_MARK else []))
  {
  }

  lemma ShownSplit(s: seq<Byte>, nul: bool, isPrint: Byte -> bool)
    ensures Shown(s, nul, 0, isPrint) ==
            [QUOTE] + (Escapes(s, |s|, isPrint) + ([QUOTE] + if nul then NUL_MARK else []))
  {
    hide Escapes, Printed, Escape, Shown;
    NoLimit(s, 1, isPrint);
    ShownCut(s, nul, 0, isPrint);
    Reassociate(Escapes(s, |s|, isPrint), nul);
  }

  /** The output without a limit, byte by byte: what follows the quote is how the first byte must
      look, and then the output for the rest. The empty string is two quotes and the NUL mark. */
  lemma ShownByByte(b: Byte, s: seq<Byte>, nul: bool, isPrint: Byte -> bool) returns (e: seq<Byte>)
    ensures Looks(e, b, s != [] && '0' as int <= s[0] <= '9' as int, isPrint(b))
    ensures Shown([b] + s, nul, 0, isPrint) == ['\"' as int] + e + Shown(s, nul, 0, isPrint)[1..]
    ensures Shown([], nul, 0, isPrint) ==
            ['\"' as int, '\"' as int] + (if nul then ['\\' as int, '0' as int] else [])
  {
    hide Escape, Shown, Escapes, Looks;
    e := Escape(b, FollowedByDigit([b] + s), isPrint);
    EscapeLooks(b, FollowedByDigit([b] + s), isPrint);
    ShownSplit([b] + s, nul, isPrint);
    ShownSplit(s, nul, isPrint);
    ShownSplit([], nul, isPrint);
    var tail := [QUOTE] + if nul then NUL_MARK else [];
    EscapesCons([b] + s, 1 + |s|, isPrint, tail);
    assert ([b] + s)[1..] == s;
    Requote(e, Escapes(s, |s|, isPrint) + tail);
    NoEscapes(isPrint);
  }

  lemma Requote(e: seq<Byte>, rest: seq<Byte>)
    ensures [QUOTE] + (e + rest) == [QUOTE] + e + ([QUOTE] + rest)[1..]
  {
  }

  lemma NoEscapes(isPrint: Byte -> bool)
    ensures Escapes([], 0, isPrint) == []
  {
  }

  /** Printable text without the six special bytes prints as itself. */
  lemma {:induction false} PlainText(s: seq<Byte>, nul: bool, isPrint: Byte -> bool)
    requires forall i :: 0 <= i < |s| ==> isPrint(s[i]) && Letter(s[i]).None?
    ensures Shown(s, nul, 0, isPrint) == [QUOTE] + s + ([QUOTE] + if nul then NUL_MARK else [])
  {
    hide Shown;
    if s == [] {
      var _ := ShownByByte(0, s, nul, isPrint);
    } else {
      PlainText(s[1..], nul, isPrint);
      var e := ShownByByte(s[0], s[1..], nul, isPrint);
      PlainStep(s, e, [QUOTE] + if nul then NUL_MARK else []);
    }
  }

  lemma PlainStep(s: seq<Byte>, e: seq<Byte>, tail: seq<Byte>)
    requires s != [] && e == [s[0]]
    ensures [s[0]] + s[1..] == s
    ensures [QUOTE] + e + ([QUOTE] + s[1..] + tail)[1..] == [QUOTE] + s + tail
  {
  }

  /** The form of a byte is unique, so that the output is determined. */
  lemma LooksUnique(e: seq<Byte>, f: seq<Byte>, b: Byte, digitFollows: bool, printable: bool)
    requires Looks(e, b, digitFollows, printable) && Looks(f, b, digitFollows, printable)
    ensures e == f
  {
    if !printable {
      SameDigits(e[1..], f[1..]);
      assert e == [e[0]] + e[1..] && f == [f[0]] + f[1..];
    }
  }

  /** Without leading zeros, or of equal length, digits are determined by their value. */
  lemma SameDigits(d: seq<Byte>, f: seq<Byte>)
    requires 1 <= |d| <= 3 && (forall i :: 0 <= i < |d| ==> IsOctal(d[i]))
    requires 1 <= |f| <= 3 && (forall i :: 0 <= i < |f| ==> IsOctal(f[i]))
    requires OctalValue(d) == OctalValue(f)
    requires |d| == |f| == 3 || ((|d| == 1 || d[0] != 48) && (|f| == 1 || f[0] != 48))
    ensures d == f
  {
    hide OctalValue;
    DigitsOf(d);
    DigitsOf(f);
    var x, y := if |d| == 3 then Digit(d[0]) else 0, if |d| > 1 then Digit(d[|d| - 2]) else 0;
    var u, v := if |f| == 3 then Digit(f[0]) else 0, if |f| > 1 then Digit(f[|f| - 2]) else 0;
    SameSum(x, y, Digit(d[|d| - 1]), u, v, Digit(f[|f| - 1]));
    assert |d| == |f|;
  }

  lemma SameSum(x: nat, y: nat, z: nat, u: nat, v: nat, w: nat)
    requires x < 8 && y < 8 && z < 8 && u < 8 && v < 8 && w < 8
    requires 64 * x + 8 * y + z == 64 * u + 8 * v + w
    ensures x == u && y == v && z == w
  {
    assert 8 * (8 * x + y - 8 * u - v) == w - z;
    assert 8 * (x - u) == v - y;
  }

  lemma DigitsOf(d: seq<Byte>)
    requires 1 <= |d| <= 3 && (forall i :: 0 <= i < |d| ==> IsOctal(d[i]))
    ensures |d| == 3 ==> OctalValue(d) == 64 * Digit(d[0]) + 8 * Digit(d[1]) + Digit(d[2])
    ensures |d| == 2 ==> OctalValue(d) == 8 * Digit(d[0]) + Digit(d[1])
    ensures |d| == 1 ==> OctalValue(d) == Digit(d[0])
  {
    hide OctalValue;
    if |d| == 1 {
      OctalDigits(48, 48, d[0]);
      assert d == [d[0]];
    } else if |d| == 2 {
      OctalDigits(48, d[0], d[1]);
      assert d == [d[0], d[1]];
    } else {
      OctalDigits(d[0], d[1], d[2]);
      assert d == [d[0], d[1], d[2]];
    }
  }

  // ----- where the output is cut -----

  /** With a limit, bytes are printed as long as the output is shorter than it, and no longer. */
  lemma {:induction false} CutExactly(s: seq<Byte>, pvlim: nat, used: nat, isPrint: Byte -> bool)
    requires pvlim > 0
    ensures var k := Printed(s, pvlim, used, isPrint);
            && (forall j :: 0 <= j < k ==> used + |Escapes(s, j, isPrint)| < pvlim)
            && (k < |s| ==> used + |Escapes(s, k, isPrint)| >= pvlim)
  {
    if s != [] && used < pvlim {
      var used1 := used + |Escape(s[0], FollowedByDigit(s), isPrint)|;
      CutExactly(s[1..], pvlim, used1, isPrint);
      hide Escape;
      forall j | 0 <= j < Printed(s, pvlim, used, isPrint) ensures used + |Escapes(s, j, isPrint)| < pvlim {
        if j > 0 {
          assert used + |Escapes(s, j, isPrint)| == used1 + |Escapes(s[1..], j - 1, isPrint)|;
        }
      }
    }
  }

  lemma ShownCut(s: seq<Byte>, nul: bool, pvlim: nat, isPrint: Byte -> bool)
    ensures var k := Printed(s, pvlim, 1, isPrint);
            Shown(s, nul, pvlim, isPrint) == ([QUOTE] + Escapes(s, k, isPrint)) + ([QUOTE] + Suffix(k < |s|, nul))
  {
    hide Escapes, Printed, Suffix;
  }

  /** The output with a limit: the bytes before the cut look as they do without one. */
  lemma CutOutput(s: seq<Byte>, nul: bool, pvlim: nat, isPrint: Byte -> bool)
    requires pvlim > 0
    ensures var k := Printed(s, pvlim, 1, isPrint);
            var text := [QUOTE] + Escapes(s, k, isPrint);
            && text <= Shown(s, nul, 0, isPrint)
            && Shown(s, nul, pvlim, isPrint) ==
               text + ([QUOTE] + ((if k < |s| then ['.' as int, '.' as int, '.' as int] else [])
                                  + (if nul then ['\\' as int, '0' as int] else [])))
            && (k < |s| ==> |text| >= pvlim)
            && forall j :: 0 <= j < k ==> |[QUOTE] + Escapes(s, j, isPrint)| < pvlim
  {
    hide Shown, Escapes, Printed;
    var k := Printed(s, pvlim, 1, isPrint);
    CutExactly(s, pvlim, 1, isPrint);
    ShownCut(s, nul, pvlim, isPrint);
    ShownCut(s, nul, 0, isPrint);
    NoLimit(s, 1, isPrint);
    EscapesPrefix(s, k, isPrint);
    Prefixed(Escapes(s, k, isPrint), Escapes(s, |s|, isPrint), [QUOTE] + Suffix(false, nul));
  }

  lemma Prefixed(a: seq<Byte>, b: seq<Byte>, tail: seq<Byte>)
    requires a <= b
    ensures [QUOTE] + a <= ([QUOTE] + b) + tail
  {
  }

  lemma {:induction false} EscapesPrefix(s: seq<Byte>, k: nat, isPrint: Byte -> bool)
    requires k <= |s|
    ensures Escapes(s, k, isPrint) <= Escapes(s, |s|, isPrint)
  {
    if k > 0 {
      EscapesPrefix(s[1..], k - 1, isPrint);
      hide Escape;
    }
  }
}
