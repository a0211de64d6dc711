/** Splitting a command that needs no shell into its words, in place. */
module ExecSplit {
  import opened Bytes

  const NULL := -1

  /** Index of the first byte of s from i on that is (or, with want false, is not) white space. */
  function Skip(s: seq<Byte>, i: nat, want: bool, space: Byte -> bool): (j: nat)
    requires i <= |s|
    ensures i <= j <= |s|
    ensures forall k :: i <= k < j ==> space(s[k]) != want
    ensures j < |s| ==> space(s[j]) == want
    decreases |s| - i
  {
    if i == |s| || space(s[i]) == want then i else Skip(s, i + 1, want, space)
  }

  datatype Word = Word(start: nat, end: nat)

  /** The words from index i on, which does not lie inside a word. */
  function Words(s: seq<Byte>, i: nat, space: Byte -> bool): seq<Word>
    requires i <= |s|
    decreases |s| - i
  {
    var a := Skip(s, i, false, space);
    if a == |s| then [] else
    var b := Skip(s, a, true, space);
    [Word(a, b)] + Words(s, b, space)
  }

  /** A maximal run of bytes that are not white space. */
  predicate MaximalRun(s: seq<Byte>, w: Word, space: Byte -> bool) {
    && w.start < w.end <= |s|
    && (forall k :: w.start <= k < w.end ==> !space(s[k]))
    && (w.start > 0 ==> space(s[w.start - 1]))
    && (w.end < |s| ==> space(s[w.end]))
  }

  /** The first run from index i on is the first word. */
  lemma FirstRun(s: seq<Byte>, i: nat, space: Byte -> bool, w: Word)
    requires i <= |s| && MaximalRun(s, w, space) && w.start >= i
    ensures var a := Skip(s, i, false, space);
            a < |s| && (w == Word(a, Skip(s, a, true, space)) || w.start > Skip(s, a, true, space))
  {
    var a := Skip(s, i, false, space);
    assert !space(s[w.start]);
    assert w.start >= a;
  }

  /** From i on there is the first word, and what comes after it. */
  lemma FirstIsRun(s: seq<Byte>, i: nat, space: Byte -> bool)
    requires i <= |s| && (0 < i < |s| ==> space(s[i]) || space(s[i - 1]))
    ensures var a := Skip(s, i, false, space);
            if a == |s| then forall w :: MaximalRun(s, w, space) ==> w.start < i
            else
              var b := Skip(s, a, true, space);
              && i <= a < b && (b < |s| ==> space(s[b])) && MaximalRun(s, Word(a, b), space)
              && forall w :: MaximalRun(s, w, space) ==> (w.start >= i <==> w == Word(a, b) || w.start > b)
  {
    forall w | MaximalRun(s, w, space) && w.start >= i
      ensures var a := Skip(s, i, false, space);
              a < |s| && (w == Word(a, Skip(s, a, true, space)) || w.start > Skip(s, a, true, space))
    {
      FirstRun(s, i, space, w);
    }
  }

  /** The words are exactly the maximal runs, each once and in order. */
  lemma {:induction false} WordsAreMaximalRuns(s: seq<Byte>, i: nat, space: Byte -> bool)
    requires i <= |s| && (0 < i < |s| ==> space(s[i]) || space(s[i - 1]))
    ensures forall w :: w in Words(s, i, space) <==> MaximalRun(s, w, space) && w.start >= i
    ensures forall j, k :: 0 <= j < k < |Words(s, i, space)| ==>
                             Words(s, i, space)[j].end < Words(s, i, space)[k].start
    decreases |s| - i
  {
    hide Skip, MaximalRun;
    FirstIsRun(s, i, space);
    var a := Skip(s, i, false, space);
    if a < |s| {
      var b := Skip(s, a, true, space);
      WordsAreMaximalRuns(s, b, space);
      StartsLater(s, b, space);
      assert forall w :: w in Words(s, b, space) ==> w.start > b;
    }
  }

  /** No run starts at a white space or at the end. */
  lemma StartsLater(s: seq<Byte>, b: nat, space: Byte -> bool)
    requires b < |s| ==> space(s[b])
    ensures forall w :: MaximalRun(s, w, space) ==> w.start != b
  {
  }

  predicate NoNul(cmd: seq<Byte>) {
    forall k :: 0 <= k < |cmd| ==> cmd[k] != 0
  }

  /** The C string that s begins with: s up to its first NUL. */
  function CString(s: seq<Byte>): (r: seq<Byte>)
    ensures r <= s && NoNul(r)
    ensures |r| < |s| ==> s[|r|] == 0
  {
    if s == [] || s[0] == 0 then [] else [s[0]] + CString(s[1..])
  }

  /** The buffer shows the word w of the command as a NUL-terminated string. */
  predicate ShowsWord(buf: seq<Byte>, cmd: seq<Byte>, w: Word)
    requires |buf| >= |cmd| + 1
  {
    w.start < w.end <= |cmd| && buf[w.start..w.end] == cmd[w.start..w.end] && buf[w.end] == 0
  }

  /** What the outer loop keeps: the buffer b and the vector v after a words, with the scan at s. */
  ghost predicate Progress(b: seq<Byte>, v: seq<int>, cmd: seq<Byte>, a: nat, s: nat, found: seq<Word>,
                           space: Byte -> bool) {
    && |b| >= |cmd| + 1 && |v| >= |cmd| / 2 + 2 && s <= |cmd|
    && a == |found| && (if s < |cmd| then 2 * a <= s else 2 * a <= s + 1)
    && (forall k :: s <= k < |cmd| ==> b[k] == cmd[k]) && b[|cmd|] == 0
    && Words(cmd, 0, space) == found + Words(cmd, s, space)
    && Recorded(b, v, cmd, found, s)
  }

  /** The vector points to the words found, which end at s at the latest and are all shown. */
  ghost predicate Recorded(b: seq<Byte>, v: seq<int>, cmd: seq<Byte>, found: seq<Word>, s: nat)
    requires |b| >= |cmd| + 1 && |found| <= |v|
  {
    forall i :: 0 <= i < |found| ==>
                  v[i] == found[i].start && found[i].end <= s && ShowsWord(b, cmd, found[i])
  }

  /** The place after the word that ends at e and its terminator. */
  function Past(cmd: seq<Byte>, e: nat): nat {
    if e < |cmd| then e + 1 else e
  }

  lemma NextWord(cmd: seq<Byte>, s: nat, space: Byte -> bool)
    requires s <= |cmd|
    ensures var a := Skip(cmd, s, false, space);
            if a == |cmd| then Words(cmd, s, space) == Words(cmd, a, space)
            else var e := Skip(cmd, a, true, space);
                 e > a && Words(cmd, s, space) == [Word(a, e)] + Words(cmd, Past(cmd, e), space)
  {
    var a := Skip(cmd, s, false, space);
    if a < |cmd| {
      var e := Skip(cmd, a, true, space);
      assert e < |cmd| ==> Skip(cmd, e, false, space) == Skip(cmd, e + 1, false, space);
    }
  }

  /** One word more: its start is stored and its end overwritten. */
  lemma OneWord(b: seq<Byte>, v: seq<int>, cmd: seq<Byte>, a: nat, s: nat, found: seq<Word>, space: Byte -> bool)
    requires Progress(b, v, cmd, a, s, found, space) && Skip(cmd, s, false, space) < |cmd|
    ensures var start := Skip(cmd, s, false, space);
            var end := Skip(cmd, start, true, space);
            && a < |v| && start < end <= |cmd|
            && Progress(b[end := 0], v[a := start], cmd, a + 1, Past(cmd, end), found + [Word(start, end)], space)
  {
    NextWord(cmd, s, space);
    hide Words, Skip, ShowsWord, Recorded;
    var start := Skip(cmd, s, false, space);
    var end := Skip(cmd, start, true, space);
    var tail := Words(cmd, Past(cmd, end), space);
    assert (found + [Word(start, end)]) + tail == found + ([Word(start, end)] + tail);
    assert b[start..end] == cmd[start..end];
    OneRecorded(b, v, cmd, found, s, start, end);
  }

  lemma OneRecorded(b: seq<Byte>, v: seq<int>, cmd: seq<Byte>, found: seq<Word>, s: nat, start: nat, end: nat)
    requires |b| >= |cmd| + 1 && |found| < |v| && Recorded(b, v, cmd, found, s)
    requires s <= start < end <= |cmd| && b[start..end] == cmd[start..end]
    ensures Recorded(b[end := 0], v[|found| := start], cmd, found + [Word(start, end)], Past(cmd, end))
  {
    hide ShowsWord;
    AllShown(b, cmd, found, start, end);
  }

  lemma AllShown(b: seq<Byte>, cmd: seq<Byte>, found: seq<Word>, start: nat, end: nat)
    requires |b| >= |cmd| + 1 && start < end <= |cmd| && b[start..end] == cmd[start..end]
    requires forall i :: 0 <= i < |found| ==> found[i].end <= end && ShowsWord(b, cmd, found[i])
    ensures var found1 := found + [Word(start, end)];
            forall i :: 0 <= i < |found1| ==> ShowsWord(b[end := 0], cmd, found1[i])
  {
    forall i | 0 <= i < |found| ensures ShowsWord(b[end := 0], cmd, found[i]) {
      StillShown(b, cmd, found[i], end);
    }
    assert b[end := 0][start..end] == b[start..end];
  }

  /** Terminating a later word leaves a word as it is. */
  lemma StillShown(b: seq<Byte>, cmd: seq<Byte>, w: Word, end: nat)
    requires |b| >= |cmd| + 1 && w.end <= end < |b| && ShowsWord(b, cmd, w)
    ensures ShowsWord(b[end := 0], cmd, w)
  {
    assert b[end := 0][w.start..w.end] == b[w.start..w.end];
  }

  /** The splitting part of do_exec3, on the bytes that savepvn copies. A NUL may stand among them,
      as after a trailing 2>&1; NUL is no white space. The argument vector gets a pointer to each
      word of the C string in the copy, in order, and a final null; all of them fit in the slots
      allocated for the whole copy. */
  method Split(copy: seq<Byte>, space: Byte -> bool) returns (buf: array<Byte>, argv: array<int>, argc: nat)
    requires !space(0)
    ensures buf.Length == |copy| + 1 && argv.Length == |copy| / 2 + 2
    ensures var cmd := CString(copy);
            var words := Words(cmd, 0, space);
            && argc == |words| && argc < argv.Length && argv[argc] == NULL
            && (forall i :: 0 <= i < argc ==> argv[i] == words[i].start)
            && (forall i :: 0 <= i < argc ==> ShowsWord(buf[..], cmd, words[i]))
  {
    hide Words, Skip, ShowsWord;
    argv := new int[|copy| / 2 + 2];
    buf := new Byte[|copy| + 1](i requires 0 <= i => if i < |copy| then copy[i] else 0);
    var a: nat, s: nat := 0, 0;
    ghost var cmd, found: seq<Word> := CString(copy), [];
    Start(buf[..], argv[..], cmd, space);
    while buf[s] != 0
      invariant Progress(buf[..], argv[..], cmd, a, s, found, space)
      decreases |cmd| - s
    {
      a, s, found := Round(buf, argv, cmd, a, s, found, space);
    }
    Finish(buf[..], argv[..], cmd, a, s, found, space);
    argv[a] := NULL;
    argc := a;
  }

  lemma Start(b: seq<Byte>, v: seq<int>, cmd: seq<Byte>, space: Byte -> bool)
    requires |b| >= |cmd| + 1 && |v| >= |cmd| / 2 + 2 && b[|cmd|] == 0
    requires forall k :: 0 <= k < |cmd| ==> b[k] == cmd[k]
    ensures Progress(b, v, cmd, 0, 0, [], space)
  {
  }

  lemma Finish(b: seq<Byte>, v: seq<int>, cmd: seq<Byte>, a: nat, s: nat, found: seq<Word>, space: Byte -> bool)
    requires Progress(b, v, cmd, a, s, found, space) && b[s] == 0 && NoNul(cmd)
    ensures found == Words(cmd, 0, space) && a < |v|
  {
    assert Words(cmd, |cmd|, space) == [];
  }

  /** One round of the outer loop. */
  method Round(buf: array<Byte>, argv: array<int>, ghost cmd: seq<Byte>, a: nat, s: nat, ghost found: seq<Word>,
               space: Byte -> bool)
    returns (a': nat, s': nat, ghost found': seq<Word>)
    requires Progress(buf[..], argv[..], cmd, a, s, found, space) && NoNul(cmd) && !space(0) && buf[s] != 0
    modifies buf, argv
    ensures Progress(buf[..], argv[..], cmd, a', s', found', space) && s' > s
  {
    NextWord(cmd, s, space);
    var start := Scan(buf, cmd, s, false, space);
    hide Words, Skip, ShowsWord;
    if buf[start] != 0 {
      a', s', found' := TakeWord(buf, argv, cmd, a, s, start, found, space);
    } else {
      a', s', found' := a, start, found;
    }
  }

  /** The word that begins at start is recorded and terminated. */
  method TakeWord(buf: array<Byte>, argv: array<int>, ghost cmd: seq<Byte>, a: nat, ghost s: nat, start: nat,
                  ghost found: seq<Word>, space: Byte -> bool)
    returns (a': nat, s': nat, ghost found': seq<Word>)
    requires Progress(buf[..], argv[..], cmd, a, s, found, space) && NoNul(cmd) && !space(0)
    requires start == Skip(cmd, s, false, space) < |cmd|
    modifies buf, argv
    ensures Progress(buf[..], argv[..], cmd, a', s', found', space) && s' > s
  {
    hide Words, Skip, ShowsWord;
    OneWord(buf[..], argv[..], cmd, a, s, found, space);
    var end := Scan(buf, cmd, start, true, space);
    found' := found + [Word(start, end)];
    argv[a] := start;
    a' := a + 1;
    assert buf[..][|cmd| := 0] == buf[..];
    s' := Terminate(buf, cmd, end);
  }

  method Terminate(buf: array<Byte>, ghost cmd: seq<Byte>, end: nat) returns (s: nat)
    requires end <= |cmd| && buf.Length >= |cmd| + 1 && buf[|cmd|] == 0 && NoNul(cmd)
    requires end < |cmd| ==> buf[end] == cmd[end]
    modifies buf
    ensures buf[..] == old(buf[..])[end := 0] && s == Past(cmd, end)
  {
    s := end;
    if buf[s] != 0 {
      buf[s] := 0;
      s := s + 1;
    }
  }

  /** The two scanning loops. */
  method Scan(buf: array<Byte>, ghost cmd: seq<Byte>, from: nat, want: bool, space: Byte -> bool) returns (s: nat)
    requires from <= |cmd| && buf.Length >= |cmd| + 1 && buf[|cmd|] == 0 && NoNul(cmd)
    requires forall k :: from <= k < |cmd| ==> buf[k] == cmd[k]
    ensures s == Skip(cmd, from, want, space)
  {
    s := from;
    while buf[s] != 0 && space(buf[s]) != want
      invariant from <= s <= |cmd| && Skip(cmd, s, want, space) == Skip(cmd, from, want, space)
      decreases |cmd| - s
    {
      s := s + 1;
    }
  }
}
