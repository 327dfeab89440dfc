/** What a filter text says about a track, and that expr_eval agrees. */
module FilterMeaning {
  import opened ExprSyntax
  import opened ExprGrammar
  import opened FilterExpansion
  import opened FilterText
  import opened GlobLanguage
  import opened Options
  import opened TrackInfo

  /** The number a track has under a key, if any.  Streams play for ever; of a date the year counts,
      and a missing date is the year 0. */
  function Number(key: string, t: Track): Option<int> {
    if key == "date" then Some(if t.date == -1 then 0 else t.date / 10000)
    else
      var n := if key == "duration" then (if "http://" <= t.filename then INT_MAX else t.duration) else t.IntTag(key);
      if n == -1 then None else Some(n)
  }

  /** The reading of a filter text: a missing number is equal to -1 and satisfies nothing else. */
  ghost predicate Holds(s: Syntax, t: Track, fold: Fold) {
    match s
    case Flag(key) =>
      if key == "stream" then "http://" <= t.filename
      else exists tag :: tag in t.comments && (tag == "artist" || tag == "album" || tag == "title")
    case TextIs(key, op, text) =>
      op == EQ <==> Matches(Atoms(text), if key == "filename" then t.filename else t.StrTag(key), fold)
    case NumberIs(key, op, digits) =>
      var v := IntVal(digits);
      (match Number(key, t)
       case None => op == EQ && v == -1
       case Some(n) => if op == LT then n < v else if op == LE then n <= v else if op == EQ then n == v
                       else if op == GE then n >= v else if op == GT then n > v else n != v)
    case Negation(x) => !Holds(x, t, fold)
    case Parens(x) => Holds(x, t, fold)
    case Both(l, r) => Holds(l, t, fold) && Holds(r, t, fold)
    case Either(l, r) => Holds(l, t, fold) || Holds(r, t, fold)
  }

  lemma NumberMeans(key: string, op: Op, digits: string, t: Track, fold: Fold)
    requires t.date == -1 || t.date >= 0
    ensures EvalLeaf(KInt(key, op, IntVal(digits)), t, fold) <==> Holds(NumberIs(key, op, digits), t, fold)
  {
    hide IntVal;
    assert key == "date" ==> IntValue(key, t) == Number(key, t).value;
    assert key != "date" ==> Number(key, t) == if IntValue(key, t) == -1 then None else Some(IntValue(key, t));
  }

  lemma FlagMeans(key: string, t: Track, fold: Fold)
    ensures EvalLeaf(KBool(key), t, fold) <==> Holds(Flag(key), t, fold)
  {
    if t.HasTag() {
      assert "artist" in t.comments || "album" in t.comments || "title" in t.comments;
    }
  }

  lemma {:induction false} TreeMeans(s: Syntax, t: Track, fold: Fold)
    requires t.date == -1 || t.date >= 0
    requires Grammatical(s)
    ensures Eval(Tree(s), t, fold) <==> Holds(s, t, fold)
  {
    hide EvalLeaf, IntVal;
    match s
    case Flag(key) => FlagMeans(key, t, fold);
    case TextIs(key, op, text) => TextIsMeans(key, op, text, t, fold);
    case NumberIs(key, op, digits) => NumberMeans(key, op, digits, t, fold);
    case Negation(x) => TreeMeans(x, t, fold);
    case Parens(x) => TreeMeans(x, t, fold);
    case Both(l, r) =>
      TreeMeans(l, t, fold);
      TreeMeans(r, t, fold);
    case Either(l, r) =>
      TreeMeans(l, t, fold);
      TreeMeans(r, t, fold);
  }

  lemma TextIsMeans(key: string, op: Op, text: string, t: Track, fold: Fold)
    requires op == EQ || op == NE
    ensures EvalLeaf(KStr(key, op, text), t, fold) <==> Holds(TextIs(key, op, text), t, fold)
  {
    hide Matches;
  }

  /** From text to verdict: a filter text that uses built-in keys is accepted, is its own expansion
      whatever is defined and marked, and evaluates to what it says. */
  lemma TextMeans(s: Syntax, env: Table, vis: set<string>, t: Track, fold: Fold)
    requires Grammatical(s) && LeavesAreBuiltin(Tree(s)) && (t.date == -1 || t.date >= 0)
    ensures Parse(Spell(s)).Ok? && CheckLeaves(Parse(Spell(s)).value, env, vis) == (Some(Tree(s)), vis)
    ensures Eval(Parse(Spell(s)).value, t, fold) <==> Holds(s, t, fold)
  {
    hide Tree, Spell, Grammatical, Parse;
    TextIsRead(s);
    ExpandsToItself(Tree(s), env, vis);
    TreeMeans(s, t, fold);
  }
}
