/** What a canonical absolute path is: split on '/', drop "" and ".", pop on "..", rejoin. */
module PathSpec {
  /** The position of the first '/', or the length. */
  function Slash(s: string): (k: nat)
    ensures k <= |s| && (k < |s| ==> s[k] == '/')
    ensures forall i :: 0 <= i < k ==> s[i] != '/'
  {
    if s == "" || s[0] == '/' then 0 else 1 + Slash(s[1..])
  }

  function Split(s: string): seq<string> {
    var k := Slash(s);
    if k == |s| then [s] else [s[..k]] + Split(s[k + 1..])
  }

  /** The effect of one path component on the directories walked so far. */
  function Enter(stack: seq<string>, c: string): seq<string> {
    if c == "" || c == "." then stack
    else if c == ".." then (if stack == [] then [] else stack[..|stack| - 1])
    else stack + [c]
  }

  function Walk(stack: seq<string>, comps: seq<string>): seq<string>
    decreases |comps|
  {
    if comps == [] then stack else Walk(Enter(stack, comps[0]), comps[1..])
  }

  function Join(comps: seq<string>): string {
    if comps == [] then "" else "/" + comps[0] + Join(comps[1..])
  }

  function Render(stack: seq<string>): string {
    if stack == [] then "/" else Join(stack)
  }

  /** The canonical form of an absolute path. */
  function Canonical(path: string): string
    requires path != ""
  {
    Render(Walk([], Split(path[1..])))
  }

  /** A directory name: not empty, not "." or "..", without '/'. */
  predicate ProperName(c: string) {
    c != "" && c != "." && c != ".." && Slash(c) == |c|
  }

  predicate Proper(stack: seq<string>) {
    forall i :: 0 <= i < |stack| ==> ProperName(stack[i])
  }

  lemma {:induction false} SlashIs(s: string, k: nat)
    requires k <= |s| && (k < |s| ==> s[k] == '/') && forall i :: 0 <= i < k ==> s[i] != '/'
    ensures Slash(s) == k
  {
    if k > 0 {
      SlashIs(s[1..], k - 1);
    }
  }

  lemma {:induction false} SplitNames(s: string)
    ensures forall i :: 0 <= i < |Split(s)| ==> Slash(Split(s)[i]) == |Split(s)[i]|
    decreases |s|
  {
    var k := Slash(s);
    SlashIs(s[..k], k);
    if k < |s| {
      SplitNames(s[k + 1..]);
    } else {
      assert s[..k] == s;
    }
  }

  /** Walking yields proper directory names only. */
  lemma {:induction false} WalkProper(stack: seq<string>, comps: seq<string>)
    requires Proper(stack) && forall i :: 0 <= i < |comps| ==> Slash(comps[i]) == |comps[i]|
    ensures Proper(Walk(stack, comps))
    decreases |comps|
  {
    if comps != [] {
      WalkProper(Enter(stack, comps[0]), comps[1..]);
    }
  }

  lemma {:induction false} WalkPushes(stack: seq<string>, comps: seq<string>)
    requires Proper(comps)
    ensures Walk(stack, comps) == stack + comps
    decreases |comps|
  {
    if comps != [] {
      assert ProperName(comps[0]);
      WalkPushes(stack + [comps[0]], comps[1..]);
      assert stack + [comps[0]] + comps[1..] == stack + comps;
    }
  }

  lemma SplitAtSlash(c: string, rest: string)
    requires Slash(c) == |c|
    ensures Split(c + "/" + rest) == [c] + Split(rest)
  {
    var s := c + "/" + rest;
    assert forall i :: 0 <= i < |c| ==> s[i] == c[i];
    assert s[|c|] == '/';
    SlashIs(s, |c|);
    assert s[..|c|] == c && s[|c| + 1..] == rest;
  }

  lemma JoinCons(c: string, rest: seq<string>)
    ensures Join([c] + rest) == "/" + (c + Join(rest))
  {
    assert ([c] + rest)[1..] == rest && ([c] + rest)[0] == c;
    assert "/" + c + Join(rest) == "/" + (c + Join(rest));
  }

  lemma SplitOne(c: string)
    requires Slash(c) == |c|
    ensures Split(c) == [c]
  {
  }

  lemma SplitTail(c: string, tail: seq<string>)
    requires Slash(c) == |c| && tail != []
    requires Join(tail) != "" && Join(tail)[0] == '/' && Split(Join(tail)[1..]) == tail
    ensures Split(c + Join(tail)) == [c] + tail
  {
    hide Slash, Split, Join;
    var j := Join(tail);
    assert j == "/" + j[1..];
    assert c + j == c + "/" + j[1..];
    SplitAtSlash(c, j[1..]);
  }

  lemma {:induction false} SplitJoin(stack: seq<string>)
    requires Proper(stack) && stack != []
    ensures Join(stack) != "" && Join(stack)[0] == '/' && Split(Join(stack)[1..]) == stack
    decreases |stack|
  {
    hide Slash, Split, Join;
    var c, tail := stack[0], stack[1..];
    assert ProperName(c);
    assert stack == [c] + tail;
    JoinCons(c, tail);
    assert ("/" + (c + Join(tail)))[1..] == c + Join(tail);
    if tail == [] {
      JoinNone();
      assert c + "" == c;
      SplitOne(c);
    } else {
      SplitJoin(tail);
      SplitTail(c, tail);
    }
  }

  lemma JoinNone()
    ensures Join([]) == ""
  {
  }

  /** Canonicalising is idempotent. */
  lemma CanonicalIdempotent(path: string)
    requires path != ""
    ensures Canonical(path) != "" && Canonical(path)[0] == '/'
    ensures Canonical(Canonical(path)) == Canonical(path)
  {
    var stack := Walk([], Split(path[1..]));
    SplitNames(path[1..]);
    WalkProper([], Split(path[1..]));
    if stack == [] {
      assert "/"[1..] == "";
      assert Split("") == [""] && Walk([], [""]) == Walk([], []);
    } else {
      SplitJoin(stack);
      WalkPushes([], stack);
      assert [] + stack == stack;
    }
  }

  // ---- the rewriting steps of path_strip on what is still unread

  lemma StepComponent(stack: seq<string>, c: string, rest: string)
    requires Slash(c) == |c|
    ensures Walk(stack, Split(c + "/" + rest)) == Walk(Enter(stack, c), Split(rest))
    ensures Walk(stack, Split(c)) == Enter(stack, c)
  {
    SplitAtSlash(c, rest);
    assert ([c] + Split(rest))[1..] == Split(rest);
    assert [c][1..] == [];
  }

  /** The processed part of the text: every directory followed by a slash. */
  function Dir(stack: seq<string>): string {
    Join(stack) + "/"
  }

  lemma {:induction false} JoinSnoc(stack: seq<string>, c: string)
    ensures Join(stack + [c]) == Join(stack) + "/" + c
    decreases |stack|
  {
    if stack == [] {
      assert [c][1..] == [];
      assert Join([c]) == "/" + c + "";
      assert "/" + c + "" == "" + "/" + c;
    } else {
      assert (stack + [c])[1..] == stack[1..] + [c];
      JoinSnoc(stack[1..], c);
      assert "/" + stack[0] + (Join(stack[1..]) + "/" + c) == ("/" + stack[0] + Join(stack[1..])) + "/" + c;
    }
  }

  lemma DirSnoc(stack: seq<string>, c: string)
    ensures Dir(stack + [c]) == Dir(stack) + c + "/"
  {
    JoinSnoc(stack, c);
  }

  // ---- the canonical form, one component at a time

  lemma {:induction false} WalkConcat(stack: seq<string>, a: seq<string>, b: seq<string>)
    ensures Walk(stack, a + b) == Walk(Walk(stack, a), b)
    decreases |a|
  {
    if a == [] {
      assert a + b == b;
    } else {
      assert (a + b)[0] == a[0] && (a + b)[1..] == a[1..] + b;
      WalkConcat(Enter(stack, a[0]), a[1..], b);
    }
  }

  lemma {:induction false} SplitSnoc(s: string, c: string)
    requires Slash(c) == |c|
    ensures Split(s + "/" + c) == Split(s) + [c]
    decreases |s|
  {
    hide Split;
    var k := Slash(s);
    if k == |s| {
      SplitAtSlash(s, c);
      SplitOne(s);
      SplitOne(c);
    } else {
      var head, tail := s[..k], s[k + 1..];
      assert s == head + "/" + tail;
      SlashIs(head, k);
      SplitAtSlash(head, tail);
      SplitSnoc(tail, c);
      assert s + "/" + c == head + "/" + (tail + "/" + c);
      SplitAtSlash(head, tail + "/" + c);
      assert [head] + Split(tail) + [c] == [head] + (Split(tail) + [c]);
    }
  }

  /** The position of the last '/', of which there is one. */
  function LastSlash(s: string): (k: nat)
    requires s != "" && s[0] == '/'
    ensures k < |s| && s[k] == '/' && forall i :: k < i < |s| ==> s[i] != '/'
  {
    if s[|s| - 1] == '/' then |s| - 1 else LastSlash(s[..|s| - 1])
  }

  /** The directory of a path. */
  function Parent(path: string): string
    requires path != "" && path[0] == '/'
  {
    if LastSlash(path) == 0 then "/" else path[..LastSlash(path)]
  }

  /** The name c in a directory. */
  function Under(dir: string, c: string): string {
    if dir == "/" then "/" + c else dir + "/" + c
  }

  lemma JoinAbsolute(stack: seq<string>)
    requires stack != []
    ensures Join(stack) != "" && Join(stack)[0] == '/'
  {
  }

  lemma RenderSnoc(stack: seq<string>, c: string)
    requires Proper(stack) && ProperName(c)
    ensures Render(stack) != "" && Render(stack)[0] == '/'
    ensures Render(stack + [c]) == Under(Render(stack), c) && Parent(Render(stack + [c])) == Render(stack)
  {
    hide Slash;
    JoinSnoc(stack, c);
    var up := Join(stack);
    if stack != [] {
      JoinAbsolute(stack);
      NotJustSlash(stack);
    } else {
      assert up + "/" + c == "/" + c;
    }
    var p := up + "/" + c;
    assert p[|up|] == '/' && forall i :: |up| < i < |p| ==> p[i] == c[i - |up| - 1];
    NoSlashIn(c);
    assert p[..|up|] == up;
  }

  lemma NoSlashIn(c: string)
    requires Slash(c) == |c|
    ensures forall i :: 0 <= i < |c| ==> c[i] != '/'
  {
  }

  lemma NotJustSlash(stack: seq<string>)
    requires Proper(stack) && stack != []
    ensures |Join(stack)| > 1
  {
    assert ProperName(stack[0]);
  }

  /** Canonical forms grow component by component: empty ones and "." change nothing, ".." leads to
      the parent and at the root nowhere, and any other name goes below. */
  lemma CanonicalOfComponent(path: string, c: string)
    requires path != "" && path[0] == '/' && Slash(c) == |c|
    ensures Canonical(path) != "" && Canonical(path)[0] == '/'
    ensures c == "" || c == "." ==> Canonical(path + "/" + c) == Canonical(path)
    ensures c == ".." ==> Canonical(path + "/" + c) == Parent(Canonical(path))
    ensures c != "" && c != "." && c != ".." ==> Canonical(path + "/" + c) == Under(Canonical(path), c)
  {
    hide Split, Slash, Walk;
    var s := path[1..];
    var stack := Walk([], Split(s));
    assert (path + "/" + c)[1..] == s + "/" + c;
    SplitSnoc(s, c);
    WalkConcat([], Split(s), [c]);
    WalkOne(stack, c);
    SplitNames(s);
    WalkProper([], Split(s));
    if stack != [] {
      JoinAbsolute(stack);
    }
    if c == ".." {
      ParentOfStack(stack);
    } else if c != "" && c != "." {
      RenderSnoc(stack, c);
    }
  }

  lemma WalkOne(stack: seq<string>, c: string)
    ensures Walk(stack, [c]) == Enter(stack, c)
  {
    assert [c][1..] == [];
  }

  lemma ParentOfStack(stack: seq<string>)
    requires Proper(stack)
    ensures Render(stack) != "" && Render(stack)[0] == '/'
    ensures Render(Enter(stack, "..")) == Parent(Render(stack))
  {
    if stack != [] {
      var n := |stack| - 1;
      assert stack == stack[..n] + [stack[n]] && ProperName(stack[n]);
      RenderSnoc(stack[..n], stack[n]);
      JoinAbsolute(stack);
    }
  }

  lemma JoinOne(c: string)
    ensures Join([c]) == "/" + c
  {
    hide Join;
    assert [c] + [] == [c] && c + "" == c;
    JoinCons(c, []);
    JoinNone();
  }

  /** And they start from the root. */
  lemma CanonicalOfRoot(c: string)
    requires Slash(c) == |c|
    ensures Canonical("/" + c) == if ProperName(c) then "/" + c else "/"
  {
    hide Split, Slash, Walk, Join;
    assert ("/" + c)[1..] == c;
    SplitOne(c);
    WalkOne([], c);
    JoinOne(c);
    assert [] + [c] == [c];
  }
}
