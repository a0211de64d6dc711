/** Transliteration of byte strings: tr/// in place, with its squash and delete forms. */
module Trans {
  import opened Bytes

  /** A table entry: the replacement, -1 for unmapped, -2 for deleted. Other negative entries drop
      the byte without counting it. */
  type Table = t: seq<int> | |t| == 256 witness seq(256, _ => -1)

  // ----- what the loops compute -----

  function AsByte(ch: int): Byte
    requires ch >= 0
  {
    ch % 256
  }

  function SimpleText(s: seq<Byte>, tbl: Table): (r: seq<Byte>)
    ensures |r| == |s|
  {
    if s == [] then [] else
    var b := s[|s| - 1];
    SimpleText(s[..|s| - 1], tbl) + [if tbl[b] >= 0 then AsByte(tbl[b]) else b]
  }

  /** How many bytes have an entry of at least least. */
  function Tally(s: seq<Byte>, tbl: Table, least: int): nat {
    if s == [] then 0 else
    Tally(s[..|s| - 1], tbl, least) + (if tbl[s[|s| - 1]] >= least then 1 else 0)
  }

  /** The text written so far, and the replacement it ends with, or -1 if its last byte was not
      produced by a replacement. */
  datatype Acc = Acc(text: seq<Byte>, last: int)

  function Emit(acc: Acc, b: Byte, tbl: Table, squash: bool): Acc {
    var ch := tbl[b];
    if ch >= 0 then
      if squash && acc.last == AsByte(ch) then acc else Acc(acc.text + [AsByte(ch)], AsByte(ch))
    else if ch == -1 then Acc(acc.text + [b], -1)
    else acc
  }

  /** A pure left fold over the original string. */
  function Fold(s: seq<Byte>, tbl: Table, squash: bool): Acc {
    if s == [] then Acc([], -1) else Emit(Fold(s[..|s| - 1], tbl, squash), s[|s| - 1], tbl, squash)
  }

  // ----- the loops, in place -----

  method TransSimple(buf: array<Byte>, len: nat, tbl: Table) returns (matches: nat)
    requires len <= buf.Length
    modifies buf
    ensures buf[..len] == SimpleText(old(buf[..len]), tbl) && buf[len..] == old(buf[len..])
    ensures matches == Tally(old(buf[..len]), tbl, 0)
  {
    ghost var orig := buf[..len];
    var s := 0;
    matches := 0;
    while s < len
      invariant 0 <= s <= len
      invariant buf[..s] == SimpleText(orig[..s], tbl)
      invariant buf[s..] == old(buf[s..])
      invariant matches == Tally(orig[..s], tbl, 0)
    {
      assert buf[s] == orig[s] && orig[..s + 1][..s] == orig[..s];
      var ch := tbl[buf[s]];
      if ch >= 0 {
        matches := matches + 1;
        buf[s] := AsByte(ch);
      }
      s := s + 1;
    }
    assert orig[..len] == orig;
  }

  method TransCount(buf: array<Byte>, len: nat, tbl: Table) returns (matches: nat)
    requires len <= buf.Length
    ensures matches == Tally(buf[..len], tbl, 0)
  {
    var s := 0;
    matches := 0;
    while s < len
      invariant 0 <= s <= len && matches == Tally(buf[..s], tbl, 0)
    {
      assert buf[..s + 1][..s] == buf[..s];
      if tbl[buf[s]] >= 0 {
        matches := matches + 1;
      }
      s := s + 1;
    }
  }

  /** How many bytes a complex transliteration counts: those mapped and those deleted. */
  function Counted(s: seq<Byte>, tbl: Table): nat {
    if s == [] then 0 else
    Counted(s[..|s| - 1], tbl) + (if tbl[s[|s| - 1]] >= 0 || tbl[s[|s| - 1]] == -2 then 1 else 0)
  }

  /** One more byte of the string. */
  lemma Snoc(s: seq<Byte>, k: nat, tbl: Table, squash: bool)
    requires k < |s|
    ensures Fold(s[..k + 1], tbl, squash) == Emit(Fold(s[..k], tbl, squash), s[k], tbl, squash)
    ensures Counted(s[..k + 1], tbl) ==
            Counted(s[..k], tbl) + (if tbl[s[k]] >= 0 || tbl[s[k]] == -2 then 1 else 0)
  {
    assert s[..k + 1][..k] == s[..k];
  }

  /** The first d bytes are the text so far; p is where its last byte was replaced, if it was. */
  ghost predicate Written(b: seq<Byte>, d: nat, p: nat, acc: Acc) {
    && d <= |b| && |acc.text| == d && (forall i :: 0 <= i < d ==> b[i] == acc.text[i])
    && if p == d - 1 then acc.text[p] == acc.last else acc.last == -1
  }

  method TransSquash(buf: array<Byte>, len: nat, tbl: Table) returns (matches: nat, cur: nat)
    requires len < buf.Length
    modifies buf
    ensures cur <= len && buf[..cur] == Fold(old(buf[..len]), tbl, true).text && buf[cur] == 0
    ensures matches == Counted(old(buf[..len]), tbl) && buf[len + 1..] == old(buf[len + 1..])
  {
    ghost var orig, acc := buf[..len], Acc([], -1);
    assert orig[..0] == [] && orig[..len] == orig;
    hide Fold, Counted, Emit;
    var s: nat, d: nat, p: nat := 0, 0, len;
    matches := 0;
    while s < len
      invariant d <= s <= len && (p == len || p < d)
      invariant acc == Fold(orig[..s], tbl, true) && Written(buf[..], d, p, acc)
      invariant forall i :: s <= i < buf.Length ==> buf[i] == old(buf[i])
      invariant matches == Counted(orig[..s], tbl)
    {
      Snoc(orig, s, tbl, true);
      var hit;
      d, p, hit := SquashByte(buf, d, p, buf[s], tbl, acc);
      acc := Emit(acc, orig[s], tbl, true);
      matches := matches + hit;
      s := s + 1;
    }
    buf[d] := 0;
    cur := d;
  }

  /** One byte of the squashing loop; p is no index of the text if nothing was replaced last. */
  method SquashByte(buf: array<Byte>, d: nat, p: nat, b: Byte, tbl: Table, ghost acc: Acc)
    returns (d': nat, p': nat, hit: nat)
    requires d < buf.Length && p < buf.Length && p != d && Written(buf[..], d, p, acc)
    modifies buf
    ensures Written(buf[..], d', p', Emit(acc, b, tbl, true)) && d <= d' <= d + 1 && (p' == p || p' == d < d')
    ensures forall i :: 0 <= i < buf.Length && i != d ==> buf[i] == old(buf[i])
    ensures hit == if tbl[b] >= 0 || tbl[b] == -2 then 1 else 0
  {
    d', p', hit := d, p, 0;
    var ch := tbl[b];
    if ch >= 0 {
      hit := 1;
      d', p' := PutMapped(buf, d, p, AsByte(ch));
    } else if ch == -1 {
      buf[d] := b;
      d' := d + 1;
    } else if ch == -2 {
      hit := 1;
    }
  }

  /** A replacement is written, and kept unless the one at p is the last byte and equal to it. */
  method PutMapped(buf: array<Byte>, d: nat, p: nat, c: Byte) returns (d': nat, p': nat)
    requires d < buf.Length && p < buf.Length
    modifies buf
    ensures buf[d] == c && forall i :: 0 <= i < buf.Length && i != d ==> buf[i] == old(buf[i])
    ensures if p == d - 1 && old(buf[p]) == c then d' == d && p' == p else d' == d + 1 && p' == d
  {
    buf[d] := c;
    d', p' := d, p;
    if p != d - 1 || buf[p] != buf[d] {
      p' := d;
      d' := d + 1;
    }
  }

  method TransDelete(buf: array<Byte>, len: nat, tbl: Table) returns (matches: nat, cur: nat)
    requires len < buf.Length
    modifies buf
    ensures cur <= len && buf[..cur] == Fold(old(buf[..len]), tbl, false).text && buf[cur] == 0
    ensures matches == Counted(old(buf[..len]), tbl) && buf[len + 1..] == old(buf[len + 1..])
  {
    ghost var orig, acc := buf[..len], Acc([], -1);
    assert orig[..0] == [] && orig[..len] == orig;
    hide Fold, Counted, Emit;
    var s: nat, d: nat := 0, 0;
    matches := 0;
    while s < len
      invariant d <= s <= len
      invariant acc == Fold(orig[..s], tbl, false) && buf[..d] == acc.text
      invariant forall i :: s <= i < buf.Length ==> buf[i] == old(buf[i])
      invariant matches == Counted(orig[..s], tbl)
    {
      Snoc(orig, s, tbl, false);
      var hit;
      d, hit := PlainByte(buf, d, buf[s], tbl, acc);
      acc := Emit(acc, orig[s], tbl, false);
      matches := matches + hit;
      s := s + 1;
    }
    buf[d] := 0;
    cur := d;
  }

  /** One byte of the loop that does not squash. */
  method PlainByte(buf: array<Byte>, d: nat, b: Byte, tbl: Table, ghost acc: Acc) returns (d': nat, hit: nat)
    requires d < buf.Length && buf[..d] == acc.text
    modifies buf
    ensures d <= d' <= d + 1 && buf[..d'] == Emit(acc, b, tbl, false).text
    ensures forall i :: 0 <= i < buf.Length && i != d ==> buf[i] == old(buf[i])
    ensures hit == if tbl[b] >= 0 || tbl[b] == -2 then 1 else 0
  {
    d', hit := d, 0;
    var ch := tbl[b];
    if ch >= 0 {
      hit := 1;
      buf[d] := AsByte(ch);
      d' := d + 1;
    } else if ch == -1 {
      buf[d] := b;
      d' := d + 1;
    } else if ch == -2 {
      hit := 1;
    }
  }
}
