/** Named filters: what expr_check_leaves computes, when it succeeds, and what the
    expanded expression means. */
module FilterExpansion {
  import opened ExprSyntax
  import opened ExprGrammar
  import opened GlobLanguage
  import opened Options
  import opened Sequences
  import opened TrackInfo

  /** The type a leaf is used at. */
  datatype LeafType = StrLeaf | IntLeaf | BoolLeaf

  function TypeOf(k: Kind): LeafType
    requires k.Leaf()
  {
    match k
    case KStr(_, _, _) => StrLeaf
    case KInt(_, _, _) => IntLeaf
    case KBool(_) => BoolLeaf
  }

  /** The builtin[] table. */
  function Builtin(key: string): Option<LeafType> {
    if key == "album" || key == "artist" || key == "comment" || key == "filename" || key == "genre" || key == "title"
    then Some(StrLeaf)
    else if key == "date" || key == "discnumber" || key == "duration" || key == "tracknumber" then Some(IntLeaf)
    else if key == "stream" || key == "tag" then Some(BoolLeaf)
    else None
  }

  /** The twelve keys that filters know. */
  lemma BuiltinIs(key: string)
    ensures Builtin(key) == Some(StrLeaf) <==> key in {"album", "artist", "comment", "filename", "genre", "title"}
    ensures Builtin(key) == Some(IntLeaf) <==> key in {"date", "discnumber", "duration", "tracknumber"}
    ensures Builtin(key) == Some(BoolLeaf) <==> key in {"stream", "tag"}
  {
  }

  /** Filter definitions by name. */
  type Table = map<string, string>

  // ---- expr_check_leaves as a function of the visited marks

  /** The expanded tree, or None, and the marks afterwards. */
  function CheckLeaves(e: Expr, env: Table, vis: set<string>): (r: (Option<Expr>, set<string>))
    requires Shape(e)
    ensures vis <= r.1 <= vis + env.Keys
    ensures r.0.Some? ==> Shape(r.0.value)
    decreases env.Keys - vis, e
  {
    if e.left.Node? then
      var (l, v1) := CheckLeaves(e.left, env, vis);
      if l.None? then (None, v1)
      else if e.right.Node? then
        var (r, v2) := CheckLeaves(e.right, env, v1);
        if r.None? then (None, v2) else (Some(Node(e.kind, l.value, r.value)), v2)
      else (Some(Node(e.kind, l.value, Nil)), v1)
    else
    assert e.kind.Leaf();
    if Builtin(e.kind.key).Some? then
      (if Builtin(e.kind.key).value == TypeOf(e.kind) then Some(e) else None, vis)
    else if !e.kind.KBool? || e.kind.key !in env || e.kind.key in vis then (None, vis)
    else
      match Parse(env[e.kind.key])
      case Err(_) => (None, vis + {e.kind.key})
      case Ok(d) => CheckLeaves(d, env, vis + {e.kind.key})
  }

  // ---- the definition-by-definition reading of a filter

  /** Replaces names by their definitions down to depth n.  The result is the expanded tree
      and every name that was read, in order; None if a leaf has no reading. */
  function Unfold(e: Expr, env: Table, n: nat): (r: Option<(Expr, seq<string>)>)
    requires Shape(e)
    ensures r.Some? ==> Shape(r.value.0)
    decreases n, e
  {
    if e.left.Node? then
      var l := Unfold(e.left, env, n);
      if l.None? then None
      else if e.right.Node? then
        var r := Unfold(e.right, env, n);
        if r.None? then None else Some((Node(e.kind, l.value.0, r.value.0), l.value.1 + r.value.1))
      else Some((Node(e.kind, l.value.0, Nil), l.value.1))
    else
    assert e.kind.Leaf();
    if Builtin(e.kind.key).Some? then
      (if Builtin(e.kind.key).value == TypeOf(e.kind) then Some((e, [])) else None)
    else if !e.kind.KBool? || e.kind.key !in env || n == 0 then None
    else
      match Parse(env[e.kind.key])
      case Err(_) => None
      case Ok(d) =>
        var r := Unfold(d, env, n - 1);
        if r.None? then None else Some((r.value.0, [e.kind.key] + r.value.1))
  }

  ghost predicate Fresh(names: seq<string>, vis: set<string>) {
    Distinct(names) && forall i :: 0 <= i < |names| ==> names[i] !in vis
  }

  function SetOf(names: seq<string>): set<string> {
    set x | x in names
  }

  lemma FreshConcat(a: seq<string>, b: seq<string>, vis: set<string>)
    ensures Fresh(a + b, vis) <==> Fresh(a, vis) && Fresh(b, vis + SetOf(a))
    ensures SetOf(a + b) == SetOf(a) + SetOf(b)
  {
    var c := a + b;
    assert forall i :: 0 <= i < |a| ==> c[i] == a[i];
    assert forall i :: 0 <= i < |b| ==> c[|a| + i] == b[i];
    if Fresh(a, vis) && Fresh(b, vis + SetOf(a)) {
      forall i, j | 0 <= i < j < |c| ensures c[i] != c[j] {
        if i < |a| <= j {
          assert a[i] in SetOf(a);
        }
      }
    }
  }

  /** Marks only ever help a deeper reading: a reading at depth n is the reading at any
      greater depth. */
  lemma {:induction false} UnfoldMonotone(e: Expr, env: Table, n: nat, m: nat)
    requires Shape(e) && Unfold(e, env, n).Some? && n <= m
    ensures Unfold(e, env, m) == Unfold(e, env, n)
    decreases n, e
  {
    hide Builtin, Parse;
    if e.left.Node? {
      UnfoldMonotone(e.left, env, n, m);
      if e.right.Node? {
        UnfoldMonotone(e.right, env, n, m);
      }
    } else if Builtin(e.kind.key).None? {
      UnfoldMonotone(Parse(env[e.kind.key]).value, env, n - 1, m - 1);
    }
  }

  /** The check of e, given by a reading (e', names), from the marks vis. */
  ghost predicate Finds(e: Expr, env: Table, vis: set<string>, r: Option<(Expr, seq<string>)>)
    requires Shape(e)
  {
    r.Some? && Fresh(r.value.1, vis)
    && CheckLeaves(e, env, vis) == (Some(r.value.0), vis + SetOf(r.value.1))
  }

  lemma FindsBoth(e: Expr, env: Table, n: nat, vis: set<string>)
    requires Shape(e) && e.left.Node? && e.right.Node?
    requires Finds(e.left, env, vis, Unfold(e.left, env, n))
    requires Finds(e.right, env, vis + SetOf(Unfold(e.left, env, n).value.1), Unfold(e.right, env, n))
    ensures Finds(e, env, vis, Unfold(e, env, n))
  {
    var nl, nr := Unfold(e.left, env, n).value.1, Unfold(e.right, env, n).value.1;
    FreshConcat(nl, nr, vis);
    assert vis + SetOf(nl) + SetOf(nr) == vis + SetOf(nl + nr);
  }

  lemma FindsDefinition(e: Expr, env: Table, n: nat, vis: set<string>)
    requires Shape(e) && e.left.Nil? && e.kind.KBool? && Builtin(e.kind.key).None?
    requires n > 0 && e.kind.key in env && e.kind.key !in vis && Parse(env[e.kind.key]).Ok?
    requires var d := Parse(env[e.kind.key]).value; Finds(d, env, vis + {e.kind.key}, Unfold(d, env, n - 1))
    ensures Finds(e, env, vis, Unfold(e, env, n))
  {
    var key, names := e.kind.key, Unfold(Parse(env[e.kind.key]).value, env, n - 1).value.1;
    FreshConcat([key], names, vis);
    assert SetOf([key]) == {key};
    assert vis + {key} + SetOf(names) == vis + SetOf([key] + names);
  }

  /** A reading in which no name is met twice, or was marked before, is what the check finds. */
  lemma {:induction false} CheckFindsReading(e: Expr, env: Table, n: nat, vis: set<string>)
    requires Shape(e) && Unfold(e, env, n).Some? && Fresh(Unfold(e, env, n).value.1, vis)
    ensures Finds(e, env, vis, Unfold(e, env, n))
    decreases n, e
  {
    hide Builtin, Parse;
    if e.left.Node? {
      var nl := Unfold(e.left, env, n).value.1;
      if e.right.Node? {
        var nr := Unfold(e.right, env, n).value.1;
        FreshConcat(nl, nr, vis);
        CheckFindsReading(e.left, env, n, vis);
        CheckFindsReading(e.right, env, n, vis + SetOf(nl));
        FindsBoth(e, env, n, vis);
      } else {
        CheckFindsReading(e.left, env, n, vis);
      }
    } else if Builtin(e.kind.key).None? {
      var d := Parse(env[e.kind.key]).value;
      var names := Unfold(d, env, n - 1).value.1;
      FreshConcat([e.kind.key], names, vis);
      assert ([e.kind.key] + names)[0] == e.kind.key;
      assert SetOf([e.kind.key]) == {e.kind.key};
      CheckFindsReading(d, env, n - 1, vis + {e.kind.key});
      FindsDefinition(e, env, n, vis);
    } else {
      NothingIsFresh(vis);
    }
  }

  lemma Shrinks(env: Table, vis: set<string>, v1: set<string>)
    requires vis <= v1
    ensures Depth(env, v1) <= Depth(env, vis)
  {
    SubsetSize(env.Keys - v1, env.Keys - vis);
  }

  lemma SubsetSize(a: set<string>, b: set<string>)
    requires a <= b
    ensures |a| <= |b|
  {
    assert b == a + (b - a);
  }

  /** What an accepting check says about the parts. */
  lemma CheckedParts(e: Expr, env: Table, vis: set<string>)
    requires Shape(e) && CheckLeaves(e, env, vis).0.Some?
    ensures e.left.Node? ==>
              var (l, v1) := CheckLeaves(e.left, env, vis);
              Shape(e.left) && l.Some? && vis <= v1
              && (e.right.Node? ==> Shape(e.right) && CheckLeaves(e.right, env, v1).0.Some?)
    ensures e.left.Nil? ==> e.kind.Leaf()
    ensures e.left.Nil? && Builtin(e.kind.key).None? ==>
              && e.kind.KBool? && e.kind.key in env && e.kind.key !in vis && Parse(env[e.kind.key]).Ok?
              && CheckLeaves(Parse(env[e.kind.key]).value, env, vis + {e.kind.key}).0.Some?
  {
  }

  lemma FindsNegation(e: Expr, env: Table, n: nat, vis: set<string>)
    requires Shape(e) && e.left.Node? && e.right.Nil?
    requires Finds(e.left, env, vis, Unfold(e.left, env, n))
    ensures Finds(e, env, vis, Unfold(e, env, n))
  {
  }

  lemma FindsBuiltin(e: Expr, env: Table, n: nat, vis: set<string>)
    requires Shape(e) && e.left.Nil? && e.kind.Leaf() && Builtin(e.kind.key).Some?
    requires CheckLeaves(e, env, vis).0.Some?
    ensures Finds(e, env, vis, Unfold(e, env, n))
  {
    NothingIsFresh(vis);
  }

  /** The depth that suffices from the marks vis. */
  function Depth(env: Table, vis: set<string>): nat {
    |env.Keys - vis|
  }

  lemma FindsBothDeep(e: Expr, env: Table, vis: set<string>, v1: set<string>)
    requires Shape(e) && e.left.Node? && e.right.Node?
    requires v1 == CheckLeaves(e.left, env, vis).1
    requires Finds(e.left, env, vis, Unfold(e.left, env, Depth(env, vis)))
    requires Finds(e.right, env, v1, Unfold(e.right, env, Depth(env, v1)))
    ensures Finds(e, env, vis, Unfold(e, env, Depth(env, vis)))
  {
    hide CheckLeaves, Unfold, Fresh;
    Shrinks(env, vis, v1);
    UnfoldMonotone(e.right, env, Depth(env, v1), Depth(env, vis));
    FindsBoth(e, env, Depth(env, vis), vis);
  }

  lemma FindsDefinitionDeep(e: Expr, env: Table, vis: set<string>)
    requires Shape(e) && e.left.Nil? && e.kind.KBool? && Builtin(e.kind.key).None?
    requires e.kind.key in env && e.kind.key !in vis && Parse(env[e.kind.key]).Ok?
    requires var d := Parse(env[e.kind.key]).value;
             Finds(d, env, vis + {e.kind.key}, Unfold(d, env, Depth(env, vis + {e.kind.key})))
    ensures Finds(e, env, vis, Unfold(e, env, Depth(env, vis)))
  {
    hide CheckLeaves, Unfold, Fresh, Builtin, Parse;
    assert env.Keys - vis == (env.Keys - (vis + {e.kind.key})) + {e.kind.key};
    FindsDefinition(e, env, Depth(env, vis), vis);
  }

  /** Whatever the check accepts has a reading no deeper than the number of unmarked names,
      with every name met once. */
  lemma {:induction false} CheckedHasReading(e: Expr, env: Table, vis: set<string>)
    requires Shape(e) && CheckLeaves(e, env, vis).0.Some?
    ensures Finds(e, env, vis, Unfold(e, env, Depth(env, vis)))
    decreases env.Keys - vis, e
  {
    CheckedParts(e, env, vis);
    hide Fresh, Builtin, Parse, CheckLeaves, Unfold, Finds, Depth;
    if e.left.Node? {
      CheckedHasReading(e.left, env, vis);
      if e.right.Node? {
        var v1 := CheckLeaves(e.left, env, vis).1;
        CheckedHasReading(e.right, env, v1);
        FindsBothDeep(e, env, vis, v1);
      } else {
        FindsNegation(e, env, Depth(env, vis), vis);
      }
    } else if Builtin(e.kind.key).Some? {
      FindsBuiltin(e, env, Depth(env, vis), vis);
    } else {
      CheckedHasReading(Parse(env[e.kind.key]).value, env, vis + {e.kind.key});
      FindsDefinitionDeep(e, env, vis);
    }
  }

  lemma NothingIsFresh(vis: set<string>)
    ensures Fresh([], vis) && vis + SetOf([]) == vis
  {
  }

  /** The exact success condition, for every table, cyclic or not: the expression has a
      reading, and no name occurs in it twice or was marked before. */
  ghost predicate ReadsEachNameOnce(e: Expr, env: Table, vis: set<string>)
    requires Shape(e)
  {
    exists n: nat :: Unfold(e, env, n).Some? && Fresh(Unfold(e, env, n).value.1, vis)
  }

  lemma CheckSucceedsIff(e: Expr, env: Table, vis: set<string>)
    requires Shape(e)
    ensures CheckLeaves(e, env, vis).0.Some? <==> ReadsEachNameOnce(e, env, vis)
  {
    if CheckLeaves(e, env, vis).0.Some? {
      CheckedHasReading(e, env, vis);
    }
    if ReadsEachNameOnce(e, env, vis) {
      var n: nat :| Unfold(e, env, n).Some? && Fresh(Unfold(e, env, n).value.1, vis);
      CheckFindsReading(e, env, n, vis);
    }
  }

  // ---- cycles

  /** Some leaf of e is the name of a filter that is not built in. */
  predicate Mentions(e: Expr, name: string)
    requires Shape(e)
  {
    if e.left.Node? then Mentions(e.left, name) || (e.right.Node? && Mentions(e.right, name))
    else e.kind == KBool(name) && Builtin(name).None?
  }

  predicate Defined(env: Table, name: string) {
    name in env && Parse(env[name]).Ok?
  }

  function Definition(env: Table, name: string): (d: Expr)
    requires Defined(env, name)
    ensures Shape(d)
  {
    Parse(env[name]).value
  }

  /** e mentions c[0], whose definition mentions c[1], and so on. */
  predicate Chain(e: Expr, env: Table, c: seq<string>)
    requires Shape(e)
    decreases |c|
  {
    c == [] || (Mentions(e, c[0]) && Defined(env, c[0]) && Chain(Definition(env, c[0]), env, c[1..]))
  }

  lemma {:induction false} MentionedIsRead(e: Expr, env: Table, n: nat, name: string)
    requires Shape(e) && Unfold(e, env, n).Some? && Mentions(e, name)
    ensures n > 0 && Defined(env, name) && Unfold(Definition(env, name), env, n - 1).Some?
    decreases e
  {
    hide Builtin, Parse;
    if e.left.Node? {
      if Mentions(e.left, name) {
        MentionedIsRead(e.left, env, n, name);
      } else {
        MentionedIsRead(e.right, env, n, name);
      }
    }
  }

  lemma {:induction false} ReadingBoundsChains(e: Expr, env: Table, n: nat, c: seq<string>)
    requires Shape(e) && Unfold(e, env, n).Some? && Chain(e, env, c)
    ensures |c| <= n
    decreases |c|
  {
    if c != [] {
      MentionedIsRead(e, env, n, c[0]);
      ReadingBoundsChains(Definition(env, c[0]), env, n - 1, c[1..]);
    }
  }

  lemma {:induction false} ChainSplit(e: Expr, env: Table, s: seq<string>, t: seq<string>)
    requires Shape(e) && s != [] && Chain(e, env, s + t)
    ensures Chain(e, env, s) && Defined(env, s[|s| - 1]) && Chain(Definition(env, s[|s| - 1]), env, t)
    decreases |s|
  {
    assert (s + t)[1..] == s[1..] + t && (s + t)[0] == s[0];
    if |s| > 1 {
      ChainSplit(Definition(env, s[0]), env, s[1..], t);
    } else {
      assert s[1..] + t == t;
    }
  }

  lemma {:induction false} ChainJoin(e: Expr, env: Table, s: seq<string>, t: seq<string>)
    requires Shape(e) && s != [] && Chain(e, env, s)
    requires Defined(env, s[|s| - 1]) && Chain(Definition(env, s[|s| - 1]), env, t)
    ensures Chain(e, env, s + t)
    decreases |s|
  {
    assert (s + t)[1..] == s[1..] + t && (s + t)[0] == s[0];
    if |s| > 1 {
      ChainJoin(Definition(env, s[0]), env, s[1..], t);
    } else {
      assert s[1..] + t == t;
    }
  }

  /** Going round a loop p any number of times gives chains of any length. */
  lemma {:induction false} LongChain(e: Expr, env: Table, s: seq<string>, p: seq<string>, m: nat)
    returns (c: seq<string>)
    requires Shape(e) && s != [] && p != [] && s[|s| - 1] == p[|p| - 1] && Chain(e, env, s)
    requires Defined(env, s[|s| - 1]) && Chain(Definition(env, s[|s| - 1]), env, p)
    ensures Chain(e, env, c) && |c| >= m
    decreases m - |s|
  {
    if |s| >= m {
      c := s;
    } else {
      ChainJoin(e, env, s, p);
      c := LongChain(e, env, s + p, p, m);
    }
  }

  /** A chain that meets a name again can be made as long as one likes. */
  lemma CycleChain(e: Expr, env: Table, c: seq<string>, i: nat, j: nat, m: nat) returns (long: seq<string>)
    requires Shape(e) && Chain(e, env, c) && i < j < |c| && c[i] == c[j]
    ensures Chain(e, env, long) && |long| >= m
  {
    hide Chain, Mentions, Parse, Builtin, Shape;
    var s, p := c[..i + 1], c[i + 1..j + 1];
    assert c == (s + p) + c[j + 1..];
    ChainSplit(e, env, s + p, c[j + 1..]);
    ChainSplit(e, env, s, p);
    long := LongChain(e, env, s, p, m);
  }

  /** A filter that reaches a cycle of names has no reading, and the check fails. */
  lemma CycleFails(e: Expr, env: Table, vis: set<string>, c: seq<string>, i: nat, j: nat)
    requires Shape(e) && Chain(e, env, c) && i < j < |c| && c[i] == c[j]
    ensures CheckLeaves(e, env, vis).0.None?
    ensures !ReadsEachNameOnce(e, env, vis)
  {
    hide Chain, Mentions, Parse, Builtin, CheckLeaves, Unfold, Shape;
    CheckSucceedsIff(e, env, vis);
    if CheckLeaves(e, env, vis).0.Some? {
      CheckedHasReading(e, env, vis);
      var long := CycleChain(e, env, c, i, j, Depth(env, vis) + 1);
      ReadingBoundsChains(e, env, Depth(env, vis), long);
    }
  }

  /** The other way the check fails: a filter that is merely read twice is reported too,
      although the expression has a reading. */
  lemma ReadTwiceFails(e: Expr, env: Table, vis: set<string>, n: nat)
    requires Shape(e) && Unfold(e, env, n).Some? && !Distinct(Unfold(e, env, n).value.1)
    ensures CheckLeaves(e, env, vis).0.None?
  {
    hide Parse, Builtin, CheckLeaves, Unfold, Shape;
    if CheckLeaves(e, env, vis).0.Some? {
      CheckedHasReading(e, env, vis);
      var m := Depth(env, vis);
      if n <= m {
        UnfoldMonotone(e, env, n, m);
      } else {
        UnfoldMonotone(e, env, m, n);
      }
    }
  }

  /** So x & x is rejected for every filter x, recursive or not. */
  lemma UsedTwiceIsRejected(x: string, env: Table, vis: set<string>, n: nat)
    requires Builtin(x).None? && Defined(env, x) && Unfold(Definition(env, x), env, n).Some?
    ensures var e := Bin(KAnd, LeafNode(KBool(x)), LeafNode(KBool(x)));
            Unfold(e, env, n + 1).Some? && CheckLeaves(e, env, vis).0.None?
  {
    hide Parse, CheckLeaves, Builtin;
    var use := LeafNode(KBool(x));
    var e := Bin(KAnd, use, use);
    var names := Unfold(use, env, n + 1).value.1;
    assert names[0] == x && Unfold(e, env, n + 1).value.1 == names + names;
    assert (names + names)[0] == (names + names)[|names|];
    ReadTwiceFails(e, env, vis, n + 1);
  }

  const TAG := LeafNode(KBool("tag"))

  lemma TagIsWellFormed()
    ensures WellFormed(TAG) && Shape(TAG)
  {
  }

  lemma TagReads(env: Table)
    ensures Unfold(TAG, env, 0) == Some((TAG, []))
  {
  }

  /** A filter x defined as "tag" is such a filter. */
  lemma UsedTwiceExample(env: Table, x: Expr)
    requires env == map["x" := Print(TAG)] && x == LeafNode(KBool("x"))
    ensures CheckLeaves(Bin(KAnd, x, x), env, {}).0.None?
  {
    hide WellFormed, Shape, Parse, CheckLeaves, Unfold, Print, AllKeyChars, TAG;
    TagIsWellFormed();
    ParseUndoesPrint(TAG);
    TagReads(env);
    UsedTwiceIsRejected("x", env, {}, 0);
  }

  // ---- evaluation

  /** C's division truncates towards zero. */
  function TruncDiv(a: int, b: int): int
    requires b > 0
  {
    if a < 0 then -((-a) / b) else a / b
  }

  function IntValue(key: string, t: Track): int {
    if key == "duration" then (if IsUrl(t.filename) then INT_MAX else t.duration)
    else if key == "date" then TruncDiv(t.date, 10000)
    else t.IntTag(key)
  }

  predicate Compare(op: Op, a: int, b: int) {
    match op
    case LT => a < b
    case LE => a <= b
    case EQ => a == b
    case GE => a >= b
    case GT => a > b
    case NE => a != b
  }

  ghost predicate EvalLeaf(k: Kind, t: Track, fold: Fold)
    requires k.Leaf()
  {
    match k
    case KStr(key, op, pattern) =>
      var res := Matches(Atoms(pattern), if key == "filename" then t.filename else t.StrTag(key), fold);
      if op == EQ then res else !res
    case KInt(key, op, v) =>
      var val := IntValue(key, t);
      if v == -1 && op == EQ then val == -1
      else if v == -1 && op == NE then val != -1
      else val != -1 && Compare(op, val, v)
    case KBool(key) => if key == "stream" then IsUrl(t.filename) else t.HasTag()
  }

  /** expr_eval */
  ghost predicate Eval(e: Expr, t: Track, fold: Fold)
    requires Shape(e)
  {
    match e.kind
    case KAnd => Eval(e.left, t, fold) && Eval(e.right, t, fold)
    case KOr => Eval(e.left, t, fold) || Eval(e.right, t, fold)
    case KNot => !Eval(e.left, t, fold)
    case _ => EvalLeaf(e.kind, t, fold)
  }

  /** The comment in expr_eval says that date=-1 asks for tracks without a date.  It never
      holds: the division by 10000 turns "not set" into year 0. */
  lemma DateIsNeverUnset(t: Track, fold: Fold)
    requires t.date == -1 || t.date >= 0
    ensures !EvalLeaf(KInt("date", EQ, -1), t, fold) && EvalLeaf(KInt("date", NE, -1), t, fold)
    ensures t.date == -1 ==> EvalLeaf(KInt("date", LT, 1), t, fold)
  {
    var d := TruncDiv(t.date, 10000);
    assert d == if t.date == -1 then 0 else t.date / 10000;
    assert IntValue("date", t) == d;
  }

  /** For every other integer key, =-1 means that the value is missing, and no other comparison
      accepts a missing value. */
  lemma UnsetIntegers(key: string, op: Op, v: int, t: Track, fold: Fold)
    requires IntValue(key, t) == -1 && (v != -1 || op != EQ)
    ensures !EvalLeaf(KInt(key, op, v), t, fold)
    ensures EvalLeaf(KInt(key, EQ, -1), t, fold)
  {
  }

  /** What an expression means when every name stands for its definition. */
  ghost predicate Meaning(e: Expr, env: Table, n: nat, t: Track, fold: Fold)
    requires Shape(e) && Unfold(e, env, n).Some?
    decreases n, e
  {
    if e.kind.KAnd? then Meaning(e.left, env, n, t, fold) && Meaning(e.right, env, n, t, fold)
    else if e.kind.KOr? then Meaning(e.left, env, n, t, fold) || Meaning(e.right, env, n, t, fold)
    else if e.kind.KNot? then !Meaning(e.left, env, n, t, fold)
    else if Builtin(e.kind.key).Some? then EvalLeaf(e.kind, t, fold)
    else Meaning(Definition(env, e.kind.key), env, n - 1, t, fold)
  }

  predicate LeavesAreBuiltin(e: Expr)
    requires Shape(e)
  {
    if e.left.Node? then LeavesAreBuiltin(e.left) && (e.right.Node? ==> LeavesAreBuiltin(e.right))
    else
    assert e.kind.Leaf();
    Builtin(e.kind.key) == Some(TypeOf(e.kind))
  }

  /** What has built-in leaves only is its own expansion. */
  lemma {:induction false} ExpandsToItself(e: Expr, env: Table, vis: set<string>)
    requires Shape(e) && LeavesAreBuiltin(e)
    ensures CheckLeaves(e, env, vis) == (Some(e), vis)
    decreases e
  {
    if e.left.Node? {
      ExpandsToItself(e.left, env, vis);
      if e.right.Node? {
        ExpandsToItself(e.right, env, vis);
      }
    }
  }

  /** Expanding keeps the meaning and leaves built-in leaves of the right type only. */
  lemma {:induction false} UnfoldKeepsMeaning(e: Expr, env: Table, n: nat, t: Track, fold: Fold)
    requires Shape(e) && Unfold(e, env, n).Some?
    ensures LeavesAreBuiltin(Unfold(e, env, n).value.0)
    ensures Eval(Unfold(e, env, n).value.0, t, fold) <==> Meaning(e, env, n, t, fold)
    decreases n, e
  {
    hide Builtin, Parse, EvalLeaf;
    if e.left.Node? {
      UnfoldKeepsMeaning(e.left, env, n, t, fold);
      if e.right.Node? {
        UnfoldKeepsMeaning(e.right, env, n, t, fold);
      }
    } else if Builtin(e.kind.key).None? {
      UnfoldKeepsMeaning(Definition(env, e.kind.key), env, n - 1, t, fold);
    }
  }

  /** On success the expanded filter has only built-in leaves of the right type and accepts
      exactly the tracks the unexpanded one means. */
  lemma CheckKeepsMeaning(e: Expr, env: Table, vis: set<string>, t: Track, fold: Fold)
    requires Shape(e) && CheckLeaves(e, env, vis).0.Some?
    ensures var e' := CheckLeaves(e, env, vis).0.value;
            LeavesAreBuiltin(e') && Unfold(e, env, Depth(env, vis)).Some?
            && (Eval(e', t, fold) <==> Meaning(e, env, Depth(env, vis), t, fold))
  {
    CheckedHasReading(e, env, vis);
    UnfoldKeepsMeaning(e, env, Depth(env, vis), t, fold);
  }
}
