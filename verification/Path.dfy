/** path.c: canonicalising an absolute path in place, in a NUL-terminated character array. */
module Path {
  import opened PathSpec

  const NUL := '\0'

  /** The C string in a has length n. */
  ghost predicate CString(a: array<char>, n: nat)
    reads a
  {
    n < a.Length && a[n] == NUL && forall k :: 0 <= k < n ==> a[k] != NUL
  }

  /** Copies the text behind s, with its terminator, to d: the gap from d up to and including s is closed. */
  method CloseGap(a: array<char>, d0: nat, s0: nat, ghost n: nat)
    requires CString(a, n) && d0 <= s0 < n
    modifies a
    ensures CString(a, n - (s0 + 1 - d0))
    ensures a[..n - (s0 + 1 - d0)] == old(a[..d0] + a[s0 + 1..n])
  {
    var d, s := d0, s0;
    while true
      invariant s0 <= s < n && d == d0 + (s - s0)
      invariant forall k :: 0 <= k < d0 || d <= k < a.Length ==> a[k] == old(a[k])
      invariant forall k :: d0 <= k < d ==> a[k] == old(a[k + (s0 + 1 - d0)])
      decreases n - s
    {
      s := s + 1;
      a[d] := a[s];
      d := d + 1;
      if a[s] == NUL {
        break;
      }
    }
  }

  /** While scanning: the text before i is the directories walked so far, and walking on
      over what is unread leads to the target. */
  ghost predicate Scanning(a: array<char>, n: nat, i: nat, stack: seq<string>, target: seq<string>)
    reads a
  {
    && CString(a, n) && 0 < i <= n && Proper(stack)
    && a[..i] == Dir(stack)
    && Walk(stack, Split(a[i..n])) == target
  }

  lemma DirEnds(stack: seq<string>)
    ensures Dir(stack) != "" && Dir(stack)[|Dir(stack)| - 1] == '/' && Dir(stack)[0] == '/'
  {
  }

  lemma SlashRun(stack: seq<string>, r: string, k: nat)
    requires k <= |r| && forall j :: 0 <= j < k ==> r[j] == '/'
    ensures Walk(stack, Split(r)) == Walk(stack, Split(r[k..]))
    decreases k
  {
    if k == 0 {
      assert r[0..] == r;
    } else {
      assert r == "" + "/" + r[1..];
      StepComponent(stack, "", r[1..]);
      SlashRun(stack, r[1..], k - 1);
      assert r[1..][k - 1..] == r[k..];
    }
  }

  /** Closes the gap in front of the unread text a[s + 1..n], so that scanning goes on at i. */
  method Resume(a: array<char>, i: nat, s: nat, ghost n: nat, ghost stack: seq<string>, ghost target: seq<string>)
    returns (ghost m: nat)
    requires CString(a, n) && 0 < i <= s < n && Proper(stack) && a[..i] == Dir(stack)
    requires Walk(stack, Split(a[s + 1..n])) == target
    modifies a
    ensures Scanning(a, m, i, stack, target) && m < n
  {
    m := n - (s + 1 - i);
    ghost var unread := a[s + 1..n];
    CloseGap(a, i, s, n);
    assert a[i..m] == a[..m][i..] == unread;
    assert a[..i] == a[..m][..i];
  }

  /** The length of the run of slashes at i, as the position behind it. */
  method SkipSlashes(a: array<char>, i: nat, ghost n: nat) returns (s: nat)
    requires CString(a, n) && i < n && a[i] == '/'
    ensures i < s <= n && forall k :: i <= k < s ==> a[k] == '/'
  {
    s := i + 1;
    while a[s] != NUL && a[s] == '/'
      invariant i < s <= n && forall k :: i <= k < s ==> a[k] == '/'
      decreases n - s
    {
      s := s + 1;
    }
  }

  /** The first branch: a run of slashes is dropped. */
  method DropSlashes(a: array<char>, i: nat, ghost n: nat, ghost stack: seq<string>, ghost target: seq<string>)
    returns (ghost m: nat)
    requires Scanning(a, n, i, stack, target) && i < n && a[i] == '/'
    modifies a
    ensures Scanning(a, m, i, stack, target) && m < n
  {
    hide Walk, Split, Slash;
    var s := SkipSlashes(a, i, n);
    ghost var r := a[i..n];
    SlashRun(stack, r, s - i);
    assert r[s - i..] == a[s..n];
    m := Resume(a, i, s - 1, n, stack, target);
  }

  /** "./": the component is dropped. */
  method DropDot(a: array<char>, i: nat, ghost n: nat, ghost stack: seq<string>, ghost target: seq<string>)
    returns (ghost m: nat)
    requires Scanning(a, n, i, stack, target) && i + 1 < n && a[i] == '.' && a[i + 1] == '/'
    modifies a
    ensures Scanning(a, m, i, stack, target) && m < n
  {
    hide Walk, Split, Slash;
    assert a[i..n] == "." + "/" + a[i + 2..n];
    StepComponent(stack, ".", a[i + 2..n]);
    m := Resume(a, i, i + 1, n, stack, target);
  }

  lemma ParentDir(stack: seq<string>)
    requires Proper(stack) && stack != []
    ensures var up, c := stack[..|stack| - 1], stack[|stack| - 1];
            Enter(stack, "..") == up && Proper(up) && ProperName(c) && Dir(stack) == Dir(up) + c + "/"
  {
    assert stack == stack[..|stack| - 1] + [stack[|stack| - 1]];
    DirSnoc(stack[..|stack| - 1], stack[|stack| - 1]);
  }

  /** The backward search of the ".." branch: the position behind the parent directory,
      clamped at the root. */
  method FindParent(a: array<char>, i: nat, ghost n: nat, ghost stack: seq<string>) returns (d: nat)
    requires CString(a, n) && 0 < i <= n && Proper(stack) && a[..i] == Dir(stack)
    ensures 0 < d <= i && Proper(Enter(stack, "..")) && a[..d] == Dir(Enter(stack, ".."))
  {
    d := i - 1;
    ghost var up := Enter(stack, "..");
    ghost var goal := |Dir(up)| - 1;
    ghost var dir := Dir(stack);
    if stack != [] {
      ParentDir(stack);
      ParentSlash(dir, up, stack[|stack| - 1]);
    }
    assert forall k :: 0 <= k < i ==> a[k] == a[..i][k];
    assert a[..goal + 1] == dir[..goal + 1] == Dir(up);
    while true
      invariant goal <= d < i && (d == i - 1 || a[d] != '/')
      decreases d
    {
      if d == 0 { break; }
      assert d != goal;
      d := d - 1;
      if a[d] == '/' { break; }
    }
    d := d + 1;
  }

  /** Between the parent's slash and the final one there is no slash. */
  lemma ParentSlash(dir: string, up: seq<string>, c: string)
    requires dir == Dir(up) + c + "/" && ProperName(c)
    ensures var g := |Dir(up)| - 1;
            g >= 0 && dir[..g + 1] == Dir(up) && dir[g] == '/' && g + 1 < |dir| - 1
            && forall k :: g < k < |dir| - 1 ==> dir[k] != '/'
  {
    var g := |Dir(up)| - 1;
    DirEnds(up);
    forall k | g < k < |dir| - 1 ensures dir[k] != '/' {
      assert dir[k] == c[k - g - 1];
    }
  }

  /** "../" or a final "..": scanning goes on behind the parent directory. */
  method GoUp(a: array<char>, i0: nat, ghost n: nat, ghost stack: seq<string>, ghost target: seq<string>)
    returns (i: nat, ghost m: nat)
    requires Scanning(a, n, i0, stack, target) && i0 + 1 < n && a[i0] == '.' && a[i0 + 1] == '.'
    requires i0 + 2 < n ==> a[i0 + 2] == '/'
    modifies a
    ensures Scanning(a, m, i, Enter(stack, ".."), target) && m < n
  {
    hide Walk, Split, Slash, Join;
    var s := if a[i0 + 2] != NUL then i0 + 3 else i0 + 2;
    i := FindParent(a, i0, n, stack);
    if i0 + 2 < n {
      assert a[i0..n] == ".." + "/" + a[i0 + 3..n];
      StepComponent(stack, "..", a[i0 + 3..n]);
    } else {
      assert a[i0..n] == "..";
      StepComponent(stack, "..", "");
      LastSegment(Enter(stack, ".."));
      assert a[s..n] == "";
    }
    m := Resume(a, i, s - 1, n, Enter(stack, ".."), target);
  }

  lemma LastSegment(stack: seq<string>)
    ensures Walk(stack, Split("")) == stack
  {
    StepComponent(stack, "", "");
  }

  /** The last component was read and no slash follows it. */
  ghost predicate AtLastName(a: array<char>, n: nat, target: seq<string>)
    reads a
  {
    CString(a, n) && target != [] && Proper(target) && n > 1 && a[n - 1] != '/' && a[..n] == Join(target)
  }

  /** The end of the component at i. */
  method NameEnd(a: array<char>, i: nat, ghost n: nat) returns (e: nat)
    requires CString(a, n) && i <= n
    ensures i <= e <= n && (e < n ==> a[e] == '/') && e == i + Slash(a[i..n])
  {
    e := i;
    while a[e] != NUL && a[e] != '/'
      invariant i <= e <= n && forall k :: i <= k < e ==> a[k] != '/'
      decreases n - e
    {
      e := e + 1;
    }
    SlashIs(a[i..n], e - i);
  }

  /** A proper component is kept: the cursor moves behind it and behind its slash. */
  method KeepName(a: array<char>, i0: nat, ghost n: nat, ghost stack: seq<string>, ghost target: seq<string>)
    returns (i: nat)
    requires Scanning(a, n, i0, stack, target) && i0 < n
    requires ProperName(a[i0..n][..Slash(a[i0..n])])
    ensures i0 < i <= n
    ensures Scanning(a, n, i, stack + [a[i0..n][..Slash(a[i0..n])]], target) || (i == n && AtLastName(a, n, target))
  {
    hide Walk, Split, Slash, Join, Dir, Enter;
    i := NameEnd(a, i0, n);
    ghost var c := a[i0..n][..Slash(a[i0..n])];
    assert c == a[i0..i];
    if a[i] != NUL {
      i := i + 1;
      assert a[i0..n] == c + "/" + a[i..n];
      NameIsEntered(stack, c, a[i..n]);
      assert a[..i] == a[..i0] + c + "/";
    } else {
      assert a[i0..n] == c && a[..n] == a[..i0] + c;
      NameIsEntered(stack, c, "");
    }
  }

  lemma NameIsEntered(stack: seq<string>, c: string, rest: string)
    requires ProperName(c)
    ensures Walk(stack, Split(c + "/" + rest)) == Walk(stack + [c], Split(rest))
    ensures Walk(stack, Split(c)) == stack + [c]
    ensures Dir(stack + [c]) == Dir(stack) + c + "/" && Join(stack + [c]) == Dir(stack) + c
    ensures c[|c| - 1] != '/' && Dir(stack) != ""
  {
    StepComponent(stack, c, rest);
    DirSnoc(stack, c);
    JoinSnoc(stack, c);
  }

  /** The end of path_strip: a trailing slash is cut off, except for the root. */
  method CutSlash(a: array<char>, i: nat, ghost n: nat, ghost stack: seq<string>, ghost target: seq<string>)
    returns (ghost m: nat)
    requires i == n && (Scanning(a, n, i, stack, target) || AtLastName(a, n, target))
    modifies a
    ensures CString(a, m) && a[..m] == Render(target) && m <= n
  {
    hide Walk, Split, Slash;
    m := n;
    if Scanning(a, n, i, stack, target) {
      assert a[i..n] == "";
      LastSegment(stack);
      DirEnds(stack);
      assert a[i - 1] == a[..i][i - 1];
      assert stack != [] ==> |Dir(stack)| > 1;
      assert a[..i][..i - 1] == Join(stack);
    }
    if i > 1 && a[i - 1] == '/' {
      a[i - 1] := NUL;
      m := n - 1;
    }
  }

  /** A component that is neither empty nor "." nor ".." is a proper name. */
  lemma ProperFirst(r: string)
    requires r != "" && r[0] != '/'
    requires !(r[0] == '.' && (|r| == 1 || r[1] == '/'))
    requires !(|r| > 1 && r[0] == '.' && r[1] == '.' && (|r| == 2 || r[2] == '/'))
    ensures ProperName(r[..Slash(r)])
  {
    var c := r[..Slash(r)];
    SlashIs(c, |c|);
    assert c != "" && c[0] == r[0];
    assert |c| > 1 ==> c[1] == r[1];
  }

  /** "." at the very end. */
  method CutDot(a: array<char>, i: nat, ghost n: nat, ghost stack: seq<string>, ghost target: seq<string>)
    requires Scanning(a, n, i, stack, target) && i + 1 == n && a[i] == '.'
    modifies a
    ensures Scanning(a, i, i, stack, target)
  {
    assert a[i..n] == ".";
    StepComponent(stack, ".", "");
    LastSegment(stack);
    a[i] := NUL;
    assert a[i..i] == "";
  }

  /** path_strip on an absolute path: the array ends up holding the canonical path, which is
      never longer; the loop terminates although ".." moves the cursor back. */
  method PathStrip(a: array<char>, ghost n0: nat) returns (ghost m: nat)
    requires CString(a, n0) && n0 > 0 && a[0] == '/'
    modifies a
    ensures CString(a, m) && m <= n0
    ensures a[..m] == Canonical(old(a[..n0]))
  {
    var i := 1;
    ghost var n, stack: seq<string>, target := n0, [], Walk([], Split(a[..n0][1..]));
    assert a[..n0][1..] == a[1..n0] && a[..1] == "/";
    SplitNames(a[1..n0]);
    WalkProper([], Split(a[1..n0]));
    hide Walk, Split, Slash;
    while a[i] != NUL
      invariant 0 < i <= n <= n0
      invariant Scanning(a, n, i, stack, target) || (i == n && AtLastName(a, n, target))
      decreases n, n - i
    {
      if a[i] == '/' {
        n := DropSlashes(a, i, n, stack, target);
      } else if a[i] == '.' && a[i + 1] == '/' {
        n := DropDot(a, i, n, stack, target);
      } else if a[i] == '.' && a[i + 1] == NUL {
        CutDot(a, i, n, stack, target);
        n := i;
        break;
      } else if a[i] == '.' && a[i + 1] == '.' && (a[i + 2] == '/' || a[i + 2] == NUL) {
        i, n := GoUp(a, i, n, stack, target);
        stack := Enter(stack, "..");
      } else {
        ghost var r := a[i..n];
        assert r[0] == a[i] && (|r| > 1 ==> r[1] == a[i + 1]) && (|r| > 2 ==> r[2] == a[i + 2]);
        ProperFirst(r);
        ghost var c := r[..Slash(r)];
        i := KeepName(a, i, n, stack, target);
        stack := stack + [c];
      }
    }
    m := CutSlash(a, i, n, stack, target);
  }

  /** path_absolute_cwd: relative paths are taken below cwd; the result is canonical. */
  method PathAbsoluteCwd(src: string, cwd: string) returns (str: array<char>)
    requires NUL !in src && NUL !in cwd && cwd != "" && cwd[0] == '/'
    ensures exists m: nat :: CString(str, m) &&
              str[..m] == Canonical(if src != "" && src[0] == '/' then src else cwd + "/" + src)
  {
    var text := if src != "" && src[0] == '/' then src else cwd + "/" + src;
    str := new char[|text| + 1](k requires 0 <= k <= |text| => if k < |text| then text[k] else NUL);
    assert forall k :: 0 <= k < |text| ==> text[k] in text && text[k] != NUL;
    assert str[..|text|] == text;
    ghost var m := PathStrip(str, |text|);
    assert CString(str, m);
  }
}
