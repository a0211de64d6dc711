/** Deciding whether a command needs a shell, before it is split into words. */
module ExecScan {
  import opened Bytes
  import opened ExecSplit

  const SPACE: Byte := 32
  const NEWLINE: Byte := 10
  const GREATER: Byte := 62
  const AMPERSAND: Byte := 38
  const ONE: Byte := 49
  const TWO: Byte := 50

  /** $ & * ( ) { } [ ] ' " ; \ | ? < > ~ ` and newline. */
  const META: seq<Byte> :=
    [36, 38, 42, 40, 41, 123, 125, 91, 93, 39, 34, 59, 92, 124, 63, 60, 62, 126, 96, 10]

  /** What isALPHA, isSPACE and the call of dup2 answer. */
  datatype Env = Env(alpha: Byte -> bool, space: Byte -> bool, dup2: bool)

  predicate Special(c: Byte, env: Env) {
    c != SPACE && !env.alpha(c) && c in META
  }

  /** Index of the first byte from i on that only a shell understands. */
  function FirstSpecial(cmd: seq<Byte>, i: nat, env: Env): (j: nat)
    requires i <= |cmd|
    ensures i <= j <= |cmd| && (forall k :: i <= k < j ==> !Special(cmd[k], env))
    ensures j < |cmd| ==> Special(cmd[j], env)
    decreases |cmd| - i
  {
    if i == |cmd| || Special(cmd[i], env) then i else FirstSpecial(cmd, i + 1, env)
  }

  /** The command ends in 2>&1, a word of its own whose > is at index f, and white space. */
  predicate Redirects(cmd: seq<Byte>, f: nat, space: Byte -> bool) {
    && 1 < f && f + 2 < |cmd| && space(cmd[f - 2])
    && cmd[f - 1] == TWO && cmd[f] == GREATER && cmd[f + 1] == AMPERSAND && cmd[f + 2] == ONE
    && forall k :: f + 3 <= k < |cmd| ==> space(cmd[k])
  }

  datatype Plan = Shell | Exec(copy: seq<Byte>)

  /** The shell gets every command with a special byte, except for a newline at the very end and for
      a closing 2>&1 that could be carried out here; the rest is executed directly. */
  function PlanFor(cmd: seq<Byte>, env: Env): Plan {
    var f := FirstSpecial(cmd, 0, env);
    if f == |cmd| || (cmd[f] == NEWLINE && f == |cmd| - 1) then Exec(cmd[..f])
    else if Redirects(cmd, f, env.space) && env.dup2 then Exec(cmd[..f - 2] + [0, TWO])
    else Shell
  }

  /** The special bytes, as characters. */
  lemma SpecialIs(c: Byte, env: Env)
    ensures Special(c, env) <==> !env.alpha(c) && exists i :: 0 <= i < |SHELL| && SHELL[i] as int == c
  {
    assert |SHELL| == |META| && forall i :: 0 <= i < |META| ==> META[i] == SHELL[i] as int;
  }

  const SHELL: string := "$&*(){}[]'\";\\|?<>~`\n"

  predicate OnlySpace(cmd: seq<Byte>, from: nat, space: Byte -> bool) {
    forall k :: from <= k < |cmd| ==> space(cmd[k])
  }

  /** Let f be the index of the first special byte. There is a shell unless there is no such byte, or
      it is a newline that ends the command, or it is the > of a 2>&1 after a white space and before
      nothing but white space, and dup2 succeeds. What is executed otherwise is the command before
      that newline, or before the white space and a NUL and the 2. */
  lemma PlanIs(cmd: seq<Byte>, f: nat, env: Env)
    requires f <= |cmd| && forall k :: 0 <= k < f ==> !Special(cmd[k], env)
    requires f < |cmd| ==> Special(cmd[f], env)
    ensures var newline := f < |cmd| && cmd[f] == '\n' as int && f == |cmd| - 1;
            var redirect := 2 <= f && f + 2 < |cmd| && env.space(cmd[f - 2])
                            && cmd[f - 1..f + 3] == ['2' as int, '>' as int, '&' as int, '1' as int]
                            && OnlySpace(cmd, f + 3, env.space) && env.dup2;
            PlanFor(cmd, env) == if f == |cmd| || newline then Exec(cmd[..f])
                                 else if redirect then Exec(cmd[..f - 2] + [0, '2' as int])
                                 else Shell
  {
    FirstIs(cmd, 0, f, env);
    if 2 <= f && f + 2 < |cmd| {
      var w := cmd[f - 1..f + 3];
      assert w[0] == cmd[f - 1] && w[1] == cmd[f] && w[2] == cmd[f + 1] && w[3] == cmd[f + 2];
    }
  }

  lemma {:induction false} FirstIs(cmd: seq<Byte>, i: nat, f: nat, env: Env)
    requires i <= f <= |cmd| && (forall k :: i <= k < f ==> !Special(cmd[k], env))
    requires f < |cmd| ==> Special(cmd[f], env)
    ensures FirstSpecial(cmd, i, env) == f
    decreases f - i
  {
    if i < f {
      FirstIs(cmd, i + 1, f, env);
    }
  }

  /** The buffer holds the command and its terminator. */
  predicate Holds(b: seq<Byte>, cmd: seq<Byte>) {
    && NoNul(cmd) && |b| == |cmd| + 1 && b[|cmd|] == 0
    && forall k :: 0 <= k < |cmd| ==> b[k] == cmd[k]
  }

  /** The scan for shell metacharacters. Without a shell, the first s bytes of the buffer are
      copied. */
  method Scan(buf: array<Byte>, ghost cmd: seq<Byte>, env: Env) returns (shell: bool, s: nat)
    requires Holds(buf[..], cmd) && !env.space(0)
    modifies buf
    ensures s < buf.Length && (shell ==> buf[..] == old(buf[..]))
    ensures PlanFor(cmd, env) == if shell then Shell else Exec(buf[..s])
  {
    s := 0;
    while buf[s] != 0 && !Special(buf[s], env)
      invariant s <= |cmd| && FirstSpecial(cmd, s, env) == FirstSpecial(cmd, 0, env)
      decreases |cmd| - s
    {
      s := s + 1;
    }
    if buf[s] == 0 {
      assert buf[..s] == cmd[..s];
      return false, s;
    }
    shell := AtSpecial(buf, cmd, s, env);
  }

  /** The body of the scanning loop for a special byte. */
  method AtSpecial(buf: array<Byte>, ghost cmd: seq<Byte>, s: nat, env: Env) returns (shell: bool)
    requires Holds(buf[..], cmd) && !env.space(0) && s < |cmd| && s == FirstSpecial(cmd, 0, env)
    modifies buf
    ensures shell ==> buf[..] == old(buf[..])
    ensures PlanFor(cmd, env) == if shell then Shell else Exec(buf[..s])
  {
    if buf[s] == NEWLINE && buf[s + 1] == 0 {
      buf[s] := 0;
      assert buf[..s] == cmd[..s];
      return false;
    }
    var redirects := AtRedirect(buf, cmd, s, env.space);
    if redirects && env.dup2 {
      buf[s - 2] := 0;
      assert cmd[s - 1..s + 3][0] == TWO;
      assert buf[..s] == cmd[..s - 2] + [0, TWO];
      return false;
    }
    shell := true;
  }

  method AtRedirect(buf: array<Byte>, ghost cmd: seq<Byte>, s: nat, space: Byte -> bool) returns (yes: bool)
    requires Holds(buf[..], cmd) && !space(0) && s < |cmd|
    ensures yes <==> Redirects(cmd, s, space)
  {
    yes := false;
    if buf[s] == GREATER && buf[s + 1] == AMPERSAND && buf[s + 2] == ONE
       && s > 1 && buf[s - 1] == TWO && space(buf[s - 2])
       && (buf[s + 3] == 0 || space(buf[s + 3]))
    {
      var t := s + 3;
      while buf[t] != 0 && space(buf[t])
        invariant s + 3 <= t <= |cmd| && (forall k :: s + 3 <= k < t ==> space(cmd[k]))
        decreases |cmd| - t
      {
        t := t + 1;
      }
      assert cmd[s - 1..s + 3] == [TWO, GREATER, AMPERSAND, ONE];
      yes := buf[t] == 0;
    }
  }

  // ----- what is executed directly -----

  /** What the proof needs of isSPACE. */
  predicate UsualSpace(space: Byte -> bool) {
    && space(NEWLINE) && !space(0)
    && !space(TWO) && !space(GREATER) && !space(AMPERSAND) && !space(ONE)
  }

  lemma {:induction false} SkipInPrefix(s: seq<Byte>, n: nat, i: nat, want: bool, space: Byte -> bool)
    requires i <= n <= |s|
    ensures var j := Skip(s[..n], i, want, space);
            Skip(s, i, want, space) == if j < n then j else Skip(s, n, want, space)
    decreases n - i
  {
    if i < n && space(s[i]) != want {
      SkipInPrefix(s, n, i + 1, want, space);
    }
  }

  /** Words before a white space and words from it on. */
  lemma {:induction false} WordsSplit(s: seq<Byte>, n: nat, i: nat, space: Byte -> bool)
    requires i <= n < |s| && space(s[n])
    ensures Words(s, i, space) == Words(s[..n], i, space) + Words(s, n, space)
    decreases n - i
  {
    var a := Skip(s[..n], i, false, space);
    SkipInPrefix(s, n, i, false, space);
    if a < n {
      var b := Skip(s[..n], a, true, space);
      SkipInPrefix(s, n, a, true, space);
      WordsSplit(s, n, b, space);
      hide Skip;
      Regroup(Word(a, b), Words(s[..n], b, space), Words(s, n, space));
    }
  }

  lemma Regroup(w: Word, a: seq<Word>, b: seq<Word>)
    ensures [w] + (a + b) == ([w] + a) + b
  {
  }

  /** From the white space before it on, a closing 2>&1 is the only word. */
  lemma RedirectIsLast(cmd: seq<Byte>, f: nat, space: Byte -> bool)
    requires UsualSpace(space) && Redirects(cmd, f, space)
    ensures Words(cmd, f - 2, space) == [Word(f - 1, f + 3)]
  {
    var w := Word(f - 1, f + 3);
    assert Skip(cmd, f - 2, false, space) == f - 1;
    assert Skip(cmd, f + 2, true, space) == Skip(cmd, f + 3, true, space) == f + 3;
    assert Skip(cmd, f - 1, true, space) == Skip(cmd, f, true, space) == Skip(cmd, f + 1, true, space);
    AllSpace(cmd, f + 3, space);
  }

  lemma {:induction false} AllSpace(cmd: seq<Byte>, i: nat, space: Byte -> bool)
    requires i <= |cmd| && forall k :: i <= k < |cmd| ==> space(cmd[k])
    ensures Words(cmd, i, space) == []
    decreases |cmd| - i
  {
    if i < |cmd| {
      AllSpace(cmd, i + 1, space);
      assert Skip(cmd, i, false, space) == Skip(cmd, i + 1, false, space);
    }
  }

  lemma {:induction false} CStringUpTo(text: seq<Byte>, rest: seq<Byte>)
    requires NoNul(text) && (rest == [] || rest[0] == 0)
    ensures CString(text + rest) == text
  {
    if text == [] {
      assert text + rest == rest;
    } else {
      assert (text + rest)[1..] == text[1..] + rest;
      CStringUpTo(text[1..], rest);
    }
  }

  /** A command that is executed directly gets as arguments exactly the words of the command as
      given, except a closing 2>&1, and none of them holds a byte meant for a shell. */
  lemma DirectWords(cmd: seq<Byte>, env: Env)
    requires NoNul(cmd) && UsualSpace(env.space) && PlanFor(cmd, env).Exec?
    ensures var text, f := CString(PlanFor(cmd, env).copy), FirstSpecial(cmd, 0, env);
            && text <= cmd && (forall k :: 0 <= k < |text| ==> !Special(text[k], env))
            && Words(cmd, 0, env.space) == Words(text, 0, env.space)
                                         + (if Redirects(cmd, f, env.space) then [Word(f - 1, f + 3)] else [])
  {
    var f := FirstSpecial(cmd, 0, env);
    var copy := PlanFor(cmd, env).copy;
    if f == |cmd| || cmd[f] == NEWLINE {
      CStringUpTo(cmd[..f], []);
      assert cmd[..f] + [] == copy;
      if f == |cmd| {
        assert cmd[..f] == cmd;
      } else {
        WordsSplit(cmd, f, 0, env.space);
        AllSpace(cmd, f, env.space);
      }
    } else {
      CStringUpTo(cmd[..f - 2], [0, TWO]);
      WordsSplit(cmd, f - 2, 0, env.space);
      RedirectIsLast(cmd, f, env.space);
    }
  }
}
