/** What transliteration means, independently of the loops. */
module TransTheorems {
  import opened Bytes
  import opened Trans

  /** What becomes of one byte: replaced, copied, or (no token) deleted. */
  datatype Token = Mapped(b: Byte) | Copied(b: Byte)

  function Tokens(s: seq<Byte>, tbl: Table): seq<Token> {
    if s == [] then [] else
    var b := s[|s| - 1];
    Tokens(s[..|s| - 1], tbl) +
    (if tbl[b] >= 0 then [Mapped(AsByte(tbl[b]))] else if tbl[b] == -1 then [Copied(b)] else [])
  }

  function Text(t: seq<Token>): (r: seq<Byte>)
    ensures |r| == |t|
    ensures forall i :: 0 <= i < |t| ==> r[i] == t[i].b
  {
    if t == [] then [] else Text(t[..|t| - 1]) + [t[|t| - 1].b]
  }

  /** A replacement that directly follows the same replacement. Deleted bytes left no token, so
      they do not come between; copied bytes do. */
  predicate Repeats(t: seq<Token>, i: int)
    requires i < |t|
  {
    i > 0 && t[i].Mapped? && t[i - 1] == t[i]
  }

  /** The tokens that do not repeat their predecessor. */
  function Collapse(t: seq<Token>): seq<Token> {
    if t == [] then [] else
    Collapse(t[..|t| - 1]) + (if Repeats(t, |t| - 1) then [] else [t[|t| - 1]])
  }

  function RepeatCount(t: seq<Token>): nat {
    if t == [] then 0 else RepeatCount(t[..|t| - 1]) + (if Repeats(t, |t| - 1) then 1 else 0)
  }

  function Deleted(s: seq<Byte>, tbl: Table): nat {
    if s == [] then 0 else
    Deleted(s[..|s| - 1], tbl) + (if tbl[s[|s| - 1]] < -1 then 1 else 0)
  }

  /** Collapsing keeps the last token. */
  lemma {:induction false} CollapseLast(t: seq<Token>)
    requires t != []
    ensures var c := Collapse(t); c != [] && c[|c| - 1] == t[|t| - 1]
  {
    if Repeats(t, |t| - 1) {
      CollapseLast(t[..|t| - 1]);
    }
  }

  predicate Agree(acc: Acc, t: seq<Token>) {
    && acc.text == Text(Collapse(t))
    && acc.last == if t != [] && t[|t| - 1].Mapped? then t[|t| - 1].b else -1
  }

  /** One more token: it is written unless it repeats the one before it. */
  lemma AgreeSnoc(acc: Acc, t: seq<Token>, k: Token)
    requires Agree(acc, t)
    ensures Agree(if k.Mapped? && acc.last == k.b then acc
                  else Acc(acc.text + [k.b], if k.Mapped? then k.b else -1), t + [k])
  {
    var t1 := t + [k];
    assert t1[..|t|] == t;
    if k.Mapped? && acc.last == k.b {
      assert Repeats(t1, |t|);
    } else {
      var c := Collapse(t);
      assert Collapse(t1) == c + [k] && (c + [k])[..|c|] == c;
    }
  }

  /** Squashing is collapsing: the fold, and so the loop, writes the collapsed tokens. */
  lemma {:induction false} SquashCollapses(s: seq<Byte>, tbl: Table)
    ensures Agree(Fold(s, tbl, true), Tokens(s, tbl))
  {
    if s != [] {
      var s0, b := s[..|s| - 1], s[|s| - 1];
      SquashCollapses(s0, tbl);
      hide Agree;
      if tbl[b] >= 0 {
        AgreeSnoc(Fold(s0, tbl, true), Tokens(s0, tbl), Mapped(AsByte(tbl[b])));
      } else if tbl[b] == -1 {
        AgreeSnoc(Fold(s0, tbl, true), Tokens(s0, tbl), Copied(b));
      } else {
        assert Tokens(s, tbl) == Tokens(s0, tbl);
      }
    } else {
      assert Agree(Acc([], -1), []);
    }
  }

  lemma {:induction false} DeleteFilters(s: seq<Byte>, tbl: Table)
    ensures Fold(s, tbl, false).text == Text(Tokens(s, tbl))
  {
    if s != [] {
      DeleteFilters(s[..|s| - 1], tbl);
      var t := Tokens(s, tbl);
      if tbl[s[|s| - 1]] >= -1 {
        assert t[..|t| - 1] == Tokens(s[..|s| - 1], tbl);
      }
    }
  }

  lemma {:induction false} CollapseLength(t: seq<Token>)
    ensures |Collapse(t)| + RepeatCount(t) == |t|
  {
    if t != [] {
      CollapseLength(t[..|t| - 1]);
    }
  }

  lemma {:induction false} TokensLength(s: seq<Byte>, tbl: Table)
    ensures |Tokens(s, tbl)| + Deleted(s, tbl) == |s|
  {
    if s != [] {
      TokensLength(s[..|s| - 1], tbl);
    }
  }

  /** Every byte is written, deleted or squeezed. */
  lemma BytesAccounted(s: seq<Byte>, tbl: Table)
    ensures |Fold(s, tbl, true).text| + Deleted(s, tbl) + RepeatCount(Tokens(s, tbl)) == |s|
    ensures |Fold(s, tbl, false).text| + Deleted(s, tbl) == |s|
  {
    SquashCollapses(s, tbl);
    DeleteFilters(s, tbl);
    CollapseLength(Tokens(s, tbl));
    TokensLength(s, tbl);
  }

  /** The count-only and simple forms report the same number; the complex forms report it too if
      and only if no byte of the string has a delete entry. */
  lemma {:induction false} CountsAgree(s: seq<Byte>, tbl: Table)
    ensures Counted(s, tbl) >= Tally(s, tbl, 0)
    ensures Counted(s, tbl) == Tally(s, tbl, 0) <==> forall i :: 0 <= i < |s| ==> tbl[s[i]] != -2
  {
    if s != [] {
      var s0 := s[..|s| - 1];
      CountsAgree(s0, tbl);
      assert (forall i :: 0 <= i < |s| ==> tbl[s[i]] != -2) <==>
             (forall i :: 0 <= i < |s0| ==> tbl[s0[i]] != -2) && tbl[s[|s| - 1]] != -2;
    }
  }

  lemma {:induction false} NothingDeleted(s: seq<Byte>, tbl: Table)
    ensures Deleted(s, tbl) == 0 <==> forall i :: 0 <= i < |s| ==> tbl[s[i]] >= -1
    ensures Deleted(s, tbl) == 0 ==> Fold(s, tbl, false).text == SimpleText(s, tbl)
  {
    if s != [] {
      var s0 := s[..|s| - 1];
      NothingDeleted(s0, tbl);
      assert (forall i :: 0 <= i < |s| ==> tbl[s[i]] >= -1) <==>
             (forall i :: 0 <= i < |s0| ==> tbl[s0[i]] >= -1) && tbl[s[|s| - 1]] >= -1;
    }
  }

  /** The simple and the complex form write the same string if and only if nothing is deleted. */
  lemma TextsAgree(s: seq<Byte>, tbl: Table)
    ensures Fold(s, tbl, false).text == SimpleText(s, tbl) <==>
            forall i :: 0 <= i < |s| ==> tbl[s[i]] >= -1
  {
    NothingDeleted(s, tbl);
    BytesAccounted(s, tbl);
  }

  // ----- byte by byte -----

  /** The indices of the bytes of s whose entry satisfies p. */
  function Where(s: seq<Byte>, tbl: Table, p: int -> bool): set<nat> {
    set i: nat | i < |s| && p(tbl[s[i]])
  }

  lemma WhereSnoc(s: seq<Byte>, tbl: Table, p: int -> bool)
    requires s != []
    ensures |Where(s, tbl, p)| == |Where(s[..|s| - 1], tbl, p)| + (if p(tbl[s[|s| - 1]]) then 1 else 0)
  {
    var last, w0 := |s| - 1, Where(s[..|s| - 1], tbl, p);
    if p(tbl[s[last]]) {
      assert Where(s, tbl, p) == w0 + {last};
    } else {
      assert Where(s, tbl, p) == w0;
    }
  }

  /** Every count is the number of bytes whose entries say so: replaced, at least a bound, replaced or
      deleted with a match, dropped. */
  lemma {:induction false} CountsMean(s: seq<Byte>, tbl: Table, least: int)
    ensures Tally(s, tbl, least) == |Where(s, tbl, e => e >= least)|
    ensures Counted(s, tbl) == |Where(s, tbl, e => e >= 0 || e == -2)|
    ensures Deleted(s, tbl) == |Where(s, tbl, e => e < -1)|
  {
    if s != [] {
      CountsMean(s[..|s| - 1], tbl, least);
      WhereSnoc(s, tbl, e => e >= least);
      WhereSnoc(s, tbl, e => e >= 0 || e == -2);
      WhereSnoc(s, tbl, e => e < -1);
    } else {
      assert Where(s, tbl, e => e >= least) == {} && Where(s, tbl, e => e >= 0 || e == -2) == {};
      assert Where(s, tbl, e => e < -1) == {};
    }
  }

  /** The simple form, at each index. */
  lemma {:induction false} SimpleMeans(s: seq<Byte>, tbl: Table, i: nat)
    requires i < |s|
    ensures |SimpleText(s, tbl)| == |s|
    ensures SimpleText(s, tbl)[i] == if tbl[s[i]] >= 0 then tbl[s[i]] % 256 else s[i]
  {
    if i < |s| - 1 {
      SimpleMeans(s[..|s| - 1], tbl, i);
    }
  }

  /** What the complex form writes for one byte that is not squeezed. */
  function Alone(b: Byte, tbl: Table): seq<Byte> {
    if tbl[b] >= 0 then [tbl[b] % 256] else if tbl[b] == -1 then [b] else []
  }

  /** Without squashing each byte is written on its own, whatever stands before it. */
  lemma DeleteMeans(s: seq<Byte>, b: Byte, tbl: Table)
    ensures Fold(s + [b], tbl, false).text == Fold(s, tbl, false).text + Alone(b, tbl)
    ensures Fold([], tbl, false).text == []
  {
    assert (s + [b])[..|s|] == s;
  }

  predicate AllDropped(d: seq<Byte>, tbl: Table) {
    forall i :: 0 <= i < |d| ==> tbl[d[i]] < -1
  }

  lemma {:induction false} DroppedIdle(s: seq<Byte>, d: seq<Byte>, tbl: Table)
    requires AllDropped(d, tbl)
    ensures Fold(s + d, tbl, true) == Fold(s, tbl, true)
  {
    if d == [] {
      assert s + d == s;
    } else {
      var d0 := d[..|d| - 1];
      assert (s + d)[..|s + d| - 1] == s + d0;
      DroppedIdle(s, d0, tbl);
    }
  }

  /** With squashing a byte is squeezed if and only if it is replaced, the last byte before it that
      is not dropped is replaced too, and both by the same byte. */
  lemma SquashMeans(s: seq<Byte>, a: Byte, d: seq<Byte>, b: Byte, tbl: Table)
    requires tbl[a] >= -1 && AllDropped(d, tbl)
    ensures var before := Fold(s + [a] + d, tbl, true).text;
            Fold(s + [a] + d + [b], tbl, true).text ==
            before + (if tbl[a] >= 0 && tbl[b] >= 0 && tbl[a] % 256 == tbl[b] % 256 then [] else Alone(b, tbl))
  {
    var u := s + [a] + d;
    assert (u + [b])[..|u|] == u && (s + [a])[..|s|] == s;
    DroppedIdle(s + [a], d, tbl);
  }

  /** The first byte that is not dropped is never squeezed. */
  lemma SquashFirst(d: seq<Byte>, b: Byte, tbl: Table)
    requires AllDropped(d, tbl)
    ensures Fold(d + [b], tbl, true).text == Alone(b, tbl)
  {
    assert (d + [b])[..|d|] == d && [] + d == d;
    DroppedIdle([], d, tbl);
  }

  // ----- squeezing twice -----

  /** Every replacement is replaced by itself. Identity tables are such tables. */
  predicate Settled(tbl: Table) {
    forall b: Byte :: tbl[b] >= 0 ==> tbl[AsByte(tbl[b])] == AsByte(tbl[b])
  }

  /** A token that the table, applied to its byte, gives again. */
  predicate Stable(k: Token, tbl: Table) {
    if k.Mapped? then tbl[k.b] == k.b else tbl[k.b] == -1
  }

  lemma {:induction false} TokensStable(s: seq<Byte>, tbl: Table)
    requires Settled(tbl)
    ensures forall i :: 0 <= i < |Tokens(s, tbl)| ==> Stable(Tokens(s, tbl)[i], tbl)
  {
    if s != [] {
      TokensStable(s[..|s| - 1], tbl);
    }
  }

  lemma {:induction false} CollapseStable(t: seq<Token>, tbl: Table)
    requires forall i :: 0 <= i < |t| ==> Stable(t[i], tbl)
    ensures forall i :: 0 <= i < |Collapse(t)| ==> Stable(Collapse(t)[i], tbl)
  {
    if t != [] {
      CollapseStable(t[..|t| - 1], tbl);
    }
  }

  lemma {:induction false} TokensOfText(t: seq<Token>, tbl: Table)
    requires forall i :: 0 <= i < |t| ==> Stable(t[i], tbl)
    ensures Tokens(Text(t), tbl) == t
  {
    if t != [] {
      TokensOfText(t[..|t| - 1], tbl);
      assert Text(t)[..|t| - 1] == Text(t[..|t| - 1]);
    }
  }

  lemma {:induction false} CollapseHasNoRepeats(t: seq<Token>)
    ensures forall i :: 0 <= i < |Collapse(t)| ==> !Repeats(Collapse(t), i)
  {
    if t != [] {
      var t0 := t[..|t| - 1];
      CollapseHasNoRepeats(t0);
      if t0 != [] {
        CollapseLast(t0);
      }
      var c0, c := Collapse(t0), Collapse(t);
      forall i | 0 <= i < |c| ensures !Repeats(c, i) {
        if i < |c0| {
          assert !Repeats(c0, i);
        }
      }
    }
  }

  lemma {:induction false} CollapseIdle(t: seq<Token>)
    requires forall i :: 0 <= i < |t| ==> !Repeats(t, i)
    ensures Collapse(t) == t
  {
    if t != [] {
      var t0 := t[..|t| - 1];
      forall i | 0 <= i < |t0| ensures !Repeats(t0, i) {
        assert !Repeats(t, i);
      }
      CollapseIdle(t0);
      assert !Repeats(t, |t| - 1);
    }
  }

  /** Squashing a squashed string again changes nothing. */
  lemma SquashIdempotent(s: seq<Byte>, tbl: Table)
    requires Settled(tbl)
    ensures var once := Fold(s, tbl, true).text; Fold(once, tbl, true).text == once
  {
    var t := Tokens(s, tbl);
    SquashCollapses(s, tbl);
    TokensStable(s, tbl);
    CollapseStable(t, tbl);
    CollapseHasNoRepeats(t);
    CollapseIdle(Collapse(t));
    TokensOfText(Collapse(t), tbl);
    SquashCollapses(Text(Collapse(t)), tbl);
  }
}
