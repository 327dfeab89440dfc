/** The filter language by its texts: what may be written, with any parentheses, and what it stands
    for.  The parser accepts exactly these texts. */
module FilterText {
  import opened ExprSyntax
  import opened ExprGrammar
  import opened Options
  import Sequences

  /** A filter as it is written. */
  datatype Syntax =
    | Flag(key: string)
    | TextIs(key: string, op: Op, text: string)
    | NumberIs(key: string, op: Op, digits: string)
    | Negation(x: Syntax)
    | Parens(x: Syntax)
    | Both(left: Syntax, right: Syntax)
    | Either(left: Syntax, right: Syntax)
  {
    /** Needs parentheses as an operand of ! or on the right of & and |. */
    predicate Joins() { Both? || Either? }
  }

  predicate IsName(s: string) {
    s != "" && AllKeyChars(s)
  }

  predicate Grammatical(s: Syntax) {
    match s
    case Flag(key) => IsName(key)
    case TextIs(key, op, text) => IsName(key) && (op == EQ || op == NE) && QuotedText(text)
    case NumberIs(key, _, digits) => IsName(key) && digits != "" && DigitsOnly(digits)
    case Negation(x) => Grammatical(x) && !x.Joins()
    case Parens(x) => Grammatical(x)
    case Both(l, r) => Grammatical(l) && Grammatical(r) && !r.Joins()
    case Either(l, r) => Grammatical(l) && Grammatical(r) && !r.Joins()
  }

  function OpText(op: Op): string {
    match op
    case LT => "<"
    case LE => "<="
    case EQ => "="
    case GE => ">="
    case GT => ">"
    case NE => "!="
  }

  function Spell(s: Syntax): string {
    match s
    case Flag(key) => key
    case TextIs(key, op, text) => key + OpText(op) + ("\"" + text + "\"")
    case NumberIs(key, op, digits) => key + OpText(op) + digits
    case Negation(x) => "!" + Spell(x)
    case Parens(x) => "(" + Spell(x) + ")"
    case Both(l, r) => Spell(l) + "&" + Spell(r)
    case Either(l, r) => Spell(l) + "|" + Spell(r)
  }

  /** Parentheses only group. */
  function Tree(s: Syntax): (e: Expr)
    ensures Shape(e)
  {
    match s
    case Flag(key) => LeafNode(KBool(key))
    case TextIs(key, op, text) => LeafNode(KStr(key, op, text))
    case NumberIs(key, op, digits) => LeafNode(KInt(key, op, IntVal(digits)))
    case Negation(x) => Node(KNot, Tree(x), Nil)
    case Parens(x) => Tree(x)
    case Both(l, r) => Node(KAnd, Tree(l), Tree(r))
    case Either(l, r) => Node(KOr, Tree(l), Tree(r))
  }

  // ---- the tokens in between

  function Write(s: Syntax): seq<Token> {
    match s
    case Flag(key) => [WordToken(key)]
    case TextIs(key, op, text) => [WordToken(key), OpToken(op), TStr(text)]
    case NumberIs(key, op, digits) => [WordToken(key), OpToken(op), TIntOrKey(digits)]
    case Negation(x) => [TNot] + Write(x)
    case Parens(x) => [TLParen] + Write(x) + [TRParen]
    case Both(l, r) => Write(l) + ([TAnd] + Write(r))
    case Either(l, r) => Write(l) + ([TOr] + Write(r))
  }

  lemma {:induction false} RenderConcat(a: seq<Token>, b: seq<Token>)
    ensures RenderAll(a + b) == RenderAll(a) + RenderAll(b)
  {
    hide Render;
    if a == [] {
      assert a + b == b;
    } else {
      RenderConcat(a[1..], b);
      assert (a + b)[0] == a[0] && (a + b)[1..] == a[1..] + b;
      Sequences.Assoc(Render(a[0]), RenderAll(a[1..]), RenderAll(b));
    }
  }

  lemma RenderOne(t: Token)
    ensures RenderAll([t]) == Render(t)
  {
    assert [t][1..] == [];
  }

  lemma RenderThree(a: Token, b: Token, c: Token)
    ensures RenderAll([a, b, c]) == Render(a) + Render(b) + Render(c)
  {
    hide Render, RenderAll;
    assert [a, b, c] == [a] + [b] + [c];
    RenderConcat([a] + [b], [c]);
    RenderConcat([a], [b]);
    RenderOne(a);
    RenderOne(b);
    RenderOne(c);
  }

  lemma RenderJoined(a: seq<Token>, op: Token, b: seq<Token>)
    ensures RenderAll(a + ([op] + b)) == RenderAll(a) + Render(op) + RenderAll(b)
  {
    hide Render, RenderAll;
    RenderConcat(a, [op] + b);
    RenderConcat([op], b);
    RenderOne(op);
    Sequences.Assoc(RenderAll(a), Render(op), RenderAll(b));
  }

  lemma RenderWord(w: string)
    ensures Render(WordToken(w)) == w
  {
  }

  lemma RenderOp(op: Op)
    ensures Render(OpToken(op)) == OpText(op)
  {
  }

  /** The text is what the tokens look like. */
  lemma {:induction false} WriteShows(s: Syntax)
    ensures RenderAll(Write(s)) == Spell(s)
  {
    hide WordToken, OpToken, OpText, RenderAll;
    match s
    case Flag(key) =>
      RenderOne(WordToken(key));
      RenderWord(key);
    case TextIs(key, op, text) =>
      RenderThree(WordToken(key), OpToken(op), TStr(text));
      RenderWord(key);
      RenderOp(op);
    case NumberIs(key, op, digits) =>
      RenderThree(WordToken(key), OpToken(op), TIntOrKey(digits));
      RenderWord(key);
      RenderOp(op);
    case Negation(x) =>
      WriteShows(x);
      RenderConcat([TNot], Write(x));
      RenderOne(TNot);
    case Parens(x) =>
      WriteShows(x);
      RenderConcat([TLParen] + Write(x), [TRParen]);
      RenderConcat([TLParen], Write(x));
      RenderOne(TLParen);
      RenderOne(TRParen);
    case Both(l, r) =>
      WriteShows(l);
      WriteShows(r);
      RenderJoined(Write(l), TAnd, Write(r));
    case Either(l, r) =>
      WriteShows(l);
      WriteShows(r);
      RenderJoined(Write(l), TOr, Write(r));
  }

  lemma NumberIsWord(digits: string)
    requires digits != "" && DigitsOnly(digits)
    ensures AllKeyChars(digits) && WordToken(digits) == TIntOrKey(digits) && WellFormedToken(TIntOrKey(digits))
  {
    forall i | 0 <= i < |digits| ensures IsKeyChar(digits[i]) {
      if digits[0] == '-' {
        assert i > 0 ==> digits[i] == digits[1..][i - 1];
      }
    }
  }

  /** The tokens of a grammatical filter never run together. */
  lemma {:induction false} WriteSeparable(s: Syntax)
    requires Grammatical(s)
    ensures Operand(Write(s))
  {
    hide Operand, WordToken, OpToken, WellFormedToken, DigitsOnly, AllKeyChars;
    match s
    case Flag(key) =>
      WordTokenIsWord(key);
      SingleOperand(WordToken(key));
    case TextIs(key, op, text) =>
      TextToken(text);
      ComparisonOperand(key, op, TStr(text));
    case NumberIs(key, op, digits) =>
      NumberIsWord(digits);
      ComparisonOperand(key, op, TIntOrKey(digits));
    case Negation(x) =>
      WriteSeparable(x);
      NotSeparable(Write(x));
    case Parens(x) =>
      WriteSeparable(x);
      ParensSeparable(Write(x));
    case Both(l, r) =>
      WriteSeparable(l);
      WriteSeparable(r);
      BinarySeparable(Write(l), TAnd, Write(r));
    case Either(l, r) =>
      WriteSeparable(l);
      WriteSeparable(r);
      BinarySeparable(Write(l), TOr, Write(r));
  }

  lemma TextToken(text: string)
    requires QuotedText(text)
    ensures WellFormedToken(TStr(text))
  {
  }

  // ---- what is written is read

  /** What may stand behind an operand without being taken for its comparison. */
  predicate NoComparison(ts: seq<Token>) {
    ts == [] || TokToOp(ts[0]) == []
  }

  lemma ReadFlag(key: string, rest: seq<Token>)
    requires NoComparison(rest)
    ensures ParseLeaf(key, rest) == Ok((LeafNode(KBool(key)), rest))
  {
  }

  lemma ReadLeaf(s: Syntax, rest: seq<Token>)
    requires Grammatical(s) && (s.Flag? || s.TextIs? || s.NumberIs?) && NoComparison(rest)
    ensures ParseUnit(Write(s) + rest) == Ok((Tree(s), rest))
  {
    hide ParseUnit, ParseSequence, ParseLeaf, WordToken, OpToken, IntVal, DigitsOnly, AllKeyChars;
    match s
    case Flag(key) =>
      ParseKey(key, rest);
      ReadFlag(key, rest);
    case TextIs(key, op, text) =>
      assert Write(s) == [WordToken(key)] + [OpToken(op), TStr(text)];
      Sequences.Assoc([WordToken(key)], [OpToken(op), TStr(text)], rest);
      ParseKey(key, [OpToken(op), TStr(text)] + rest);
      ParseComparison(key, op, TStr(text), rest);
    case NumberIs(key, op, digits) =>
      var v := TIntOrKey(digits);
      assert Write(s) == [WordToken(key)] + [OpToken(op), v];
      Sequences.Assoc([WordToken(key)], [OpToken(op), v], rest);
      ParseKey(key, [OpToken(op), v] + rest);
      ParseComparison(key, op, v, rest);
  }

  lemma UnitOfNot(u: seq<Token>, rest: seq<Token>)
    ensures ParseUnit([TNot] + u + rest) ==
            match ParseUnit(u + rest) case Err(e) => Err(e) case Ok((e, r)) => Ok((Node(KNot, e, Nil), r))
  {
    Sequences.Assoc([TNot], u, rest);
    assert ([TNot] + (u + rest))[1..] == u + rest;
  }

  lemma UnitOfParens(u: seq<Token>, rest: seq<Token>)
    ensures ParseUnit([TLParen] + u + [TRParen] + rest) == ParseSequence(u + ([TRParen] + rest), Nil, KAnd, true)
  {
    Sequences.Assoc([TLParen] + u, [TRParen], rest);
    Sequences.Assoc([TLParen], u, [TRParen] + rest);
    assert ([TLParen] + (u + ([TRParen] + rest)))[1..] == u + ([TRParen] + rest);
  }

  lemma {:induction false} ReadUnit(s: Syntax, rest: seq<Token>)
    requires Grammatical(s) && !s.Joins() && NoComparison(rest)
    ensures ParseUnit(Write(s) + rest) == Ok((Tree(s), rest))
    decreases s, 0
  {
    hide ParseUnit, ParseSequence;
    if s.Parens? {
      UnitOfParens(Write(s.x), rest);
      ReadSequence(s.x, [TRParen] + rest, true);
      assert ([TRParen] + rest)[1..] == rest;
    } else if s.Negation? {
      UnitOfNot(Write(s.x), rest);
      ReadUnit(s.x, rest);
    } else {
      ReadLeaf(s, rest);
    }
  }

  lemma SequenceOf(u: seq<Token>, e: Expr, rest: seq<Token>, acc: Expr, op: Kind, nested: bool)
    requires Shape(e) && ParseUnit(u + rest) == Ok((e, rest)) && (acc.Nil? || Shape(acc)) && op.Binary()
    ensures ParseSequence(u + rest, acc, op, nested) == Continue(if acc.Nil? then e else Bin(op, acc, e), rest, nested)
  {
    hide ParseUnit;
  }

  lemma ContinueOp(e: Expr, op: Token, rest: seq<Token>, nested: bool)
    requires Shape(e) && (op.TAnd? || op.TOr?)
    ensures Continue(e, [op] + rest, nested) == ParseSequence(rest, e, if op.TAnd? then KAnd else KOr, nested)
  {
    assert ([op] + rest)[1..] == rest;
  }

  lemma {:induction false} ReadSequence(s: Syntax, rest: seq<Token>, nested: bool)
    requires Grammatical(s) && NoComparison(rest)
    ensures ParseSequence(Write(s) + rest, Nil, KAnd, nested) == Continue(Tree(s), rest, nested)
    decreases s, 1
  {
    hide ParseUnit, ParseSequence, Continue;
    if s.Joins() {
      var op := if s.Both? then TAnd else TOr;
      Sequences.Assoc(Write(s.left), [op] + Write(s.right), rest);
      Sequences.Assoc([op], Write(s.right), rest);
      ReadSequence(s.left, [op] + (Write(s.right) + rest), nested);
      ContinueOp(Tree(s.left), op, Write(s.right) + rest, nested);
      ReadUnit(s.right, rest);
      SequenceOf(Write(s.right), Tree(s.right), rest, Tree(s.left), if op.TAnd? then KAnd else KOr, nested);
    } else {
      ReadUnit(s, rest);
      SequenceOf(Write(s), Tree(s), rest, Nil, KAnd, nested);
    }
  }

  // ---- what is read was written

  lemma RenderCons(t: Token, ts: seq<Token>)
    ensures RenderAll([t] + ts) == Render(t) + RenderAll(ts)
  {
    hide Render;
    assert ([t] + ts)[1..] == ts;
  }

  lemma TokenizeCons(s: string)
    requires s != "" && Tokenize(s).Ok?
    ensures GetToken(s).Ok?
    ensures var (t, n) := GetToken(s).value;
            0 < n <= |s| && Tokenize(s[n..]).Ok? && Tokenize(s) == Ok([t] + Tokenize(s[n..]).value)
  {
    hide GetToken;
  }

  /** Tokens are exact: putting them together gives the text back. */
  lemma {:induction false} RenderTokenize(s: string)
    requires Tokenize(s).Ok?
    ensures RenderAll(Tokenize(s).value) == s
    decreases |s|
  {
    hide GetToken, Render;
    if s != "" {
      TokenizeCons(s);
      hide Tokenize, RenderAll;
      var (t, n) := GetToken(s).value;
      RenderToken(s);
      RenderTokenize(s[n..]);
      RenderCons(t, Tokenize(s[n..]).value);
      assert s == s[..n] + s[n..];
    }
  }

  lemma RenderToken(s: string)
    requires s != "" && GetToken(s).Ok?
    ensures var (t, n) := GetToken(s).value; 0 < n <= |s| && Render(t) == s[..n]
  {
    if IsSpecial(s[0]) {
      RenderSpecial(s);
    } else if s[0] == '"' {
      RenderQuoted(s);
    } else {
      hide WordLen, AllKeyChars;
      RenderWord(s[..WordLen(s)]);
    }
  }

  lemma RenderSpecial(s: string)
    requires s != "" && IsSpecial(s[0])
    ensures GetToken(s).Ok? && var (t, n) := GetToken(s).value; 0 < n <= |s| && Render(t) == s[..n]
  {
    hide WordLen, QuoteEnd;
  }

  lemma RenderQuoted(s: string)
    requires s != "" && s[0] == '"' && GetToken(s).Ok?
    ensures var (t, n) := GetToken(s).value; 0 < n <= |s| && Render(t) == s[..n]
  {
    QuoteCloses(s[1..]);
    hide WordLen, QuoteEnd;
    var n := QuoteEnd(s[1..]);
    assert s[n + 1] == '"';
    assert s[..n + 2] == "\"" + s[1..][..n] + "\"";
  }

  lemma {:induction false} QuoteCloses(s: string)
    requires QuoteEnd(s) < |s|
    ensures s[QuoteEnd(s)] == '"'
    decreases |s|
  {
    if s[0] != '"' {
      var n := if s[0] == '\\' then 2 else 1;
      QuoteCloses(s[n..]);
    }
  }

  lemma OpTokenBack(t: Token)
    requires TokToOp(t) != []
    ensures t == OpToken(TokToOp(t)[0])
  {
  }

  /** A key token and what may follow it. */
  lemma LeafWritten(t: Token, ts: seq<Token>) returns (s: Syntax)
    requires t.Word() && WellFormedToken(t) && WellFormedTokens(ts) && ParseLeaf(t.str, ts).Ok?
    ensures !s.Joins() && Written(s, ParseLeaf(t.str, ts).value.0, [t] + ts, ParseLeaf(t.str, ts).value.1)
  {
    hide DigitsOnly, AllKeyChars, IntVal, QuotedText;
    var key := t.str;
    assert WordToken(key) == t && IsName(key) by { WordBack(t); }
    if ts == [] || TokToOp(ts[0]) == [] {
      s := Flag(key);
    } else {
      OpTokenBack(ts[0]);
      var op := TokToOp(ts[0])[0];
      assert WellFormedToken(ts[1]);
      assert [t] + ts == [t, ts[0], ts[1]] + ts[2..];
      s := if ts[1].TStr? then TextIs(key, op, ts[1].str) else NumberIs(key, op, ts[1].str);
    }
  }

  lemma WordBack(t: Token)
    requires t.Word() && WellFormedToken(t)
    ensures WordToken(t.str) == t && t.str != "" && AllKeyChars(t.str)
  {
  }

  /** The tokens ts begin with those of s, which stands for e. */
  ghost predicate Written(s: Syntax, e: Expr, ts: seq<Token>, rest: seq<Token>) {
    Grammatical(s) && Tree(s) == e && ts == Write(s) + rest
  }

  lemma NegationWritten(x: Syntax, e: Expr, ts: seq<Token>, rest: seq<Token>)
    requires Written(x, e, ts, rest) && !x.Joins()
    ensures Written(Negation(x), Node(KNot, e, Nil), [TNot] + ts, rest)
  {
    Sequences.Assoc([TNot], Write(x), rest);
  }

  lemma ParensWritten(x: Syntax, e: Expr, ts: seq<Token>, rest: seq<Token>)
    requires Written(x, e, [] + ts, [TRParen] + rest)
    ensures Written(Parens(x), e, [TLParen] + ts, rest)
  {
    assert [] + ts == ts;
    Sequences.Assoc([TLParen], Write(x), [TRParen] + rest);
    Sequences.Assoc([TLParen] + Write(x), [TRParen], rest);
  }

  lemma UnitCases(t: Token, ts: seq<Token>)
    requires ParseUnit([t] + ts).Ok?
    ensures t.TNot? || t.TLParen? || t.Word()
    ensures t.TNot? ==> ParseUnit(ts).Ok?
                        && ParseUnit([t] + ts) == Ok((Node(KNot, ParseUnit(ts).value.0, Nil), ParseUnit(ts).value.1))
    ensures t.TLParen? ==> ParseUnit([t] + ts) == ParseSequence(ts, Nil, KAnd, true)
    ensures t.Word() ==> ParseUnit([t] + ts) == ParseLeaf(t.str, ts)
  {
    hide ParseSequence, ParseLeaf;
    assert ([t] + ts)[1..] == ts;
  }

  lemma {:induction false} UnitWritten(ts: seq<Token>) returns (s: Syntax)
    requires WellFormedTokens(ts) && ParseUnit(ts).Ok?
    ensures !s.Joins() && Written(s, ParseUnit(ts).value.0, ts, ParseUnit(ts).value.1)
    decreases |ts|, 0
  {
    hide WellFormedToken, ParseLeaf, ParseUnit, ParseSequence, Written;
    FirstToken(ts);
    var tail := ts[1..];
    UnitCases(ts[0], tail);
    if ts[0].TNot? {
      var x := UnitWritten(tail);
      NegationWritten(x, ParseUnit(tail).value.0, tail, ParseUnit(tail).value.1);
      s := Negation(x);
    } else if ts[0].TLParen? {
      var x := SequenceWritten(tail, None, KAnd, true);
      ParensWritten(x, ParseUnit(ts).value.0, tail, ParseUnit(ts).value.1);
      s := Parens(x);
    } else {
      s := LeafWritten(ts[0], tail);
    }
  }

  lemma FirstToken(ts: seq<Token>)
    requires WellFormedTokens(ts) && ParseUnit(ts).Ok?
    ensures ts != [] && WellFormedToken(ts[0]) && WellFormedTokens(ts[1..]) && ts == [ts[0]] + ts[1..]
  {
    hide ParseLeaf, ParseSequence, WellFormedToken;
    var tail := ts[1..];
    assert forall i :: 0 <= i < |tail| ==> tail[i] == ts[i + 1];
  }

  /** The tokens read before ts: an operand and an operator, or nothing. */
  function Before(acc: Option<Syntax>, op: Kind): seq<Token> {
    if acc.Some? then Write(acc.value) + [if op.KAnd? then TAnd else TOr] else []
  }

  function Extended(acc: Option<Syntax>, op: Kind, u: Syntax): Syntax {
    if acc.None? then u else if op.KAnd? then Both(acc.value, u) else Either(acc.value, u)
  }

  function Accumulated(acc: Option<Syntax>): (e: Expr)
    ensures e.Nil? || Shape(e)
  {
    if acc.None? then Nil else Tree(acc.value)
  }

  lemma ExtendedWritten(acc: Option<Syntax>, op: Kind, u: Syntax, e: Expr, ts: seq<Token>, rest: seq<Token>)
    requires (acc.Some? ==> Grammatical(acc.value)) && op.Binary() && Written(u, e, ts, rest) && !u.Joins()
    ensures var e' := if acc.None? then e else Bin(op, Tree(acc.value), e);
            Written(Extended(acc, op, u), e', Before(acc, op) + ts, rest)
  {
    if acc.None? {
      assert [] + ts == ts;
    } else {
      Sequences.Assoc(Write(acc.value), [if op.KAnd? then TAnd else TOr], Write(u));
      Sequences.Assoc(Before(acc, op), Write(u), rest);
    }
  }

  lemma SequenceCases(ts: seq<Token>, acc: Expr, op: Kind, nested: bool)
    requires (acc.Nil? || Shape(acc)) && op.Binary() && ParseSequence(ts, acc, op, nested).Ok?
    ensures ParseUnit(ts).Ok?
    ensures var (u, rest) := ParseUnit(ts).value;
            && Shape(u)
            && ParseSequence(ts, acc, op, nested) == Continue(if acc.Nil? then u else Bin(op, acc, u), rest, nested)
  {
    hide ParseUnit, Continue;
  }

  /** How a sequence goes on that does not fail. */
  lemma ContinueCases(e: Expr, ts: seq<Token>, nested: bool)
    requires Shape(e) && Continue(e, ts, nested).Ok?
    ensures var ends := Continue(e, ts, nested) == Ok((e, if nested then ts[1..] else []));
            || (nested && ts != [] && ts == [TRParen] + ts[1..] && ends)
            || (!nested && ts == [] && ends)
            || (ts != [] && (ts[0].TAnd? || ts[0].TOr?) && ts == [ts[0]] + ts[1..]
                && Continue(e, ts, nested) == ParseSequence(ts[1..], e, if ts[0].TAnd? then KAnd else KOr, nested))
  {
    hide ParseSequence;
  }

  /** What stands behind the last operand of a sequence. */
  function Closing(nested: bool, rest: seq<Token>): seq<Token> {
    if nested then [TRParen] + rest else []
  }

  lemma {:induction false} SequenceWritten(ts: seq<Token>, acc: Option<Syntax>, op: Kind, nested: bool)
    returns (s: Syntax)
    requires WellFormedTokens(ts) && (acc.Some? ==> Grammatical(acc.value)) && op.Binary()
    requires ParseSequence(ts, Accumulated(acc), op, nested).Ok?
    ensures var (e, rest) := ParseSequence(ts, Accumulated(acc), op, nested).value;
            Written(s, e, Before(acc, op) + ts, Closing(nested, rest))
    decreases |ts|, 1
  {
    hide WellFormedToken, ParseUnit, ParseSequence, Continue, Written, Before, Extended, Grammatical, Tree;
    SequenceCases(ts, Accumulated(acc), op, nested);
    var u := UnitWritten(ts);
    ParseUnitWellFormed(ts);
    var (e, rest) := ParseUnit(ts).value;
    ExtendedWritten(acc, op, u, e, ts, rest);
    s := Extended(acc, op, u);
    var e' := if acc.None? then e else Bin(op, Tree(acc.value), e);
    WrittenTree(s, e', Before(acc, op) + ts, rest);
    ContinueCases(e', rest, nested);
    if rest != [] && (rest[0].TAnd? || rest[0].TOr?) {
      var more := rest[1..];
      assert forall i :: 0 <= i < |more| ==> more[i] == rest[i + 1];
      var next := if rest[0].TAnd? then KAnd else KOr;
      var t := SequenceWritten(more, Some(s), next, nested);
      BeforeNext(s, e', next, more, Before(acc, op) + ts, rest);
      s := t;
    }
  }

  lemma WrittenTree(s: Syntax, e: Expr, ts: seq<Token>, rest: seq<Token>)
    requires Written(s, e, ts, rest)
    ensures Grammatical(s) && Accumulated(Some(s)) == Tree(s) == e
  {
  }

  lemma BeforeNext(s: Syntax, e: Expr, op: Kind, more: seq<Token>, ts: seq<Token>, rest: seq<Token>)
    requires op.Binary() && Written(s, e, ts, rest) && rest == [if op.KAnd? then TAnd else TOr] + more
    ensures Before(Some(s), op) + more == ts
  {
    Sequences.Assoc(Write(s), [if op.KAnd? then TAnd else TOr], more);
  }

  // ---- the theorem

  ghost predicate Reads(text: string, e: Expr, s: Syntax) {
    Grammatical(s) && Spell(s) == text && Tree(s) == e
  }

  /** A grammatical text, with any parentheses, is read as its tree. */
  lemma TextIsRead(s: Syntax)
    requires Grammatical(s)
    ensures Parse(Spell(s)) == Ok(Tree(s))
  {
    hide Write, Spell, Tree, Grammatical;
    WriteShows(s);
    WriteSeparable(s);
    RenderNoControl(Write(s));
    TokenizeRender(Write(s));
    ReadSequence(s, [], false);
    assert Write(s) + [] == Write(s);
  }

  /** The parser accepts exactly the grammatical texts, and reads each as its tree. */
  lemma ParseIff(text: string, e: Expr)
    ensures Parse(text) == Ok(e) <==> exists s :: Reads(text, e, s)
  {
    if Parse(text) == Ok(e) {
      TokenizeWellFormed(text);
      var ts := Tokenize(text).value;
      var s := SequenceWritten(ts, None, KAnd, false);
      assert [] + ts == ts && Write(s) + [] == Write(s);
      RenderTokenize(text);
      WriteShows(s);
      assert Reads(text, e, s);
    }
    forall s | Reads(text, e, s) ensures Parse(text) == Ok(e) {
      TextIsRead(s);
    }
  }

  /** Extra parentheses change nothing, round a whole filter or any part of it. */
  lemma ExtraParens(s: Syntax)
    requires Grammatical(s)
    ensures Grammatical(Parens(s)) && Parse("(" + Spell(s) + ")") == Parse(Spell(s)) == Ok(Tree(s))
  {
    TextIsRead(s);
    TextIsRead(Parens(s));
  }

  // ---- what is reported for other texts

  lemma ParseRendered(ts: seq<Token>)
    requires Separable(ts)
    ensures Parse(RenderAll(ts)) ==
            match ParseSequence(ts, Nil, KAnd, false) case Err(e) => Err(e) case Ok((e, _)) => Ok(e)
  {
    hide ParseSequence, Tokenize, RenderAll, Separable;
    SeparableTokens(ts);
    RenderNoControl(ts);
    TokenizeRender(ts);
  }

  lemma SeparableTokens(ts: seq<Token>)
    requires Separable(ts)
    ensures forall i :: 0 <= i < |ts| ==> WellFormedToken(ts[i])
  {
  }

  /** A text with one more token behind it. */
  lemma ParseBehind(s: Syntax, t: Token)
    requires Grammatical(s) && WellFormedToken(t) && !t.Word() && !t.TStr? && TokToOp(t) == []
    ensures Parse(Spell(s) + Render(t)) ==
            match Continue(Tree(s), [t], false) case Err(e) => Err(e) case Ok((e, _)) => Ok(e)
  {
    hide Write, Spell, Tree, Grammatical, Continue, Render, RenderAll;
    WriteSeparable(s);
    SeparableConcat(Write(s), [t]);
    WriteShows(s);
    RenderConcat(Write(s), [t]);
    RenderOne(t);
    ParseRendered(Write(s) + [t]);
    ReadSequence(s, [t], false);
  }

  lemma NothingLeft(e: Expr, op: Kind, nested: bool)
    requires Shape(e) && op.Binary()
    ensures ParseSequence([], e, op, nested) == Err(ExpressionExpected)
  {
  }

  /** Something is missing from a filter, or comes too much. */
  lemma Unfinished(s: Syntax)
    requires Grammatical(s)
    ensures Parse(Spell(s) + ")") == Err(UnexpectedRParen)
    ensures Parse(Spell(s) + "&") == Parse(Spell(s) + "|") == Err(ExpressionExpected)
    ensures Parse(Spell(s) + "(") == Parse(Spell(s) + "!") == Err(AndOrExpected)
  {
    hide Parse, Spell, Tree, Grammatical, ParseSequence;
    ParseBehind(s, TRParen);
    ParseBehind(s, TAnd);
    ParseBehind(s, TOr);
    ParseBehind(s, TLParen);
    ParseBehind(s, TNot);
    assert [TAnd][1..] == [] && [TOr][1..] == [];
    NothingLeft(Tree(s), KAnd, false);
    NothingLeft(Tree(s), KOr, false);
  }

  /** A parenthesis is not closed, or a negation has no operand. */
  lemma Unclosed(s: Syntax)
    requires Grammatical(s)
    ensures Parse("(" + Spell(s)) == Err(RParenExpected)
    ensures Parse("") == Parse("!") == Parse("(") == Err(ExpressionExpected)
  {
    hide Write, Spell, Tree, Grammatical, RenderAll, Tokenize;
    WriteSeparable(s);
    WriteShows(s);
    SeparableConcat([TLParen], Write(s));
    RenderConcat([TLParen], Write(s));
    RenderOne(TLParen);
    RenderOne(TNot);
    RenderNone();
    ParseRendered([TLParen] + Write(s));
    ParseRendered([]);
    ParseRendered([TNot]);
    ParseRendered([TLParen]);
    ReadSequence(s, [], true);
    assert Write(s) + [] == Write(s);
    OpenSequence([TLParen] + Write(s), Write(s));
    OpenSequence([TLParen], []);
    EmptySequence();
  }

  lemma RenderNone()
    ensures RenderAll([]) == ""
  {
  }

  lemma OpenSequence(ts: seq<Token>, tail: seq<Token>)
    requires ts == [TLParen] + tail && ParseSequence(tail, Nil, KAnd, true).Err?
    ensures ParseSequence(ts, Nil, KAnd, false) == Err(ParseSequence(tail, Nil, KAnd, true).error)
  {
    assert ts[1..] == tail;
    assert ParseUnit(ts) == ParseSequence(tail, Nil, KAnd, true);
    hide ParseUnit;
  }

  lemma EmptySequence()
    ensures ParseSequence([], Nil, KAnd, true) == ParseSequence([], Nil, KAnd, false) == Err(ExpressionExpected)
    ensures ParseSequence([TNot], Nil, KAnd, false) == Err(ExpressionExpected)
  {
    assert [TNot][1..] == [];
    assert ParseUnit([]) == ParseUnit([TNot]) == Err(ExpressionExpected);
    hide ParseUnit;
  }

  /** A comparison without a value, or with one that does not fit its operator. */
  lemma BadComparison(key: string, op: Op, text: string)
    requires IsName(key) && QuotedText(text)
    ensures Parse(key + OpText(op)) == Err(RightSideExpected)
    ensures op != EQ && op != NE ==> Parse(key + OpText(op) + ("\"" + text + "\"")) == Err(InvalidStringOp)
    ensures Parse(key + OpText(op) + "(") ==
            Err(if op == EQ || op == NE then IntegerOrStringExpected else IntegerExpected)
  {
    hide AllKeyChars, QuotedText, Tokenize, RenderAll, WordToken, OpToken, Separable, Parse;
    var k, o := WordToken(key), OpToken(op);
    ComparisonSeparable(key, op, text);
    RenderWord(key);
    RenderOp(op);
    RenderThree(k, o, TStr(text));
    RenderThree(k, o, TLParen);
    assert [k, o] == [k] + [o];
    RenderConcat([k], [o]);
    RenderOne(k);
    RenderOne(o);
    ParseRendered([k, o]);
    ParseRendered([k, o, TStr(text)]);
    ParseRendered([k, o, TLParen]);
    BadSequence(key, op, []);
    if op != EQ && op != NE {
      BadSequence(key, op, [TStr(text)]);
    }
    BadSequence(key, op, [TLParen]);
    assert [k] + ([o] + []) == [k, o] && [k] + ([o] + [TStr(text)]) == [k, o, TStr(text)];
    assert [k] + ([o] + [TLParen]) == [k, o, TLParen];
  }

  lemma ComparisonSeparable(key: string, op: Op, text: string)
    requires IsName(key) && QuotedText(text)
    ensures Separable([WordToken(key), OpToken(op)]) && Separable([WordToken(key), OpToken(op), TStr(text)])
    ensures Separable([WordToken(key), OpToken(op), TLParen])
  {
    WordTokenIsWord(key);
    hide AllKeyChars, QuotedText, WordToken;
    TextToken(text);
  }

  lemma BadSequence(key: string, op: Op, value: seq<Token>)
    requires value == [] || value == [TLParen] || (|value| == 1 && value[0].TStr? && op != EQ && op != NE)
    ensures ParseSequence([WordToken(key)] + ([OpToken(op)] + value), Nil, KAnd, false) ==
            Err(if value == [] then RightSideExpected
                else if value[0].TStr? then InvalidStringOp
                else if op == EQ || op == NE then IntegerOrStringExpected
                else IntegerExpected)
  {
    hide ParseUnit, WordToken;
    ParseKey(key, [OpToken(op)] + value);
    BadLeaf(key, op, value);
  }

  lemma BadLeaf(key: string, op: Op, value: seq<Token>)
    requires value == [] || value == [TLParen] || (|value| == 1 && value[0].TStr? && op != EQ && op != NE)
    ensures ParseLeaf(key, [OpToken(op)] + value) ==
            Err(if value == [] then RightSideExpected
                else if value[0].TStr? then InvalidStringOp
                else if op == EQ || op == NE then IntegerOrStringExpected
                else IntegerExpected)
  {
    var ts := [OpToken(op)] + value;
    assert ts[0] == OpToken(op) && TokToOp(OpToken(op)) == [op] && (value != [] ==> ts[1] == value[0]);
  }

  /** A control character anywhere is refused before anything else. */
  lemma ControlCharacter(before: string, c: char, after: string)
    requires c < ' '
    ensures Parse(before + [c] + after) == Err(ControlChars)
  {
    assert (before + [c] + after)[|before|] == c;
  }

  /** Texts that are no tokens: a string that is not closed, a character no word can hold.  And a
      value stands where a key is expected. */
  lemma BadText(key: string, text: string, c: char)
    requires IsName(key) && QuotedText(text) && c >= ' ' && !IsKeyChar(c) && !IsSpecial(c)
    ensures Parse("\"" + text) == Err(EndInString)
    ensures Parse(key + [c]) == Err(UnexpectedChar)
    ensures Parse("\"" + text + "\"") == Parse(")") == Parse("&") == Err(KeyExpected)
  {
    OpenString(text);
    StrayChar(key, c);
    hide Tokenize, RenderAll, AllKeyChars, QuotedText, Parse;
    TextToken(text);
    RenderOne(TStr(text));
    RenderOne(TRParen);
    RenderOne(TAnd);
    ParseRendered([TStr(text)]);
    ParseRendered([TRParen]);
    ParseRendered([TAnd]);
  }

  lemma {:induction false} OpenQuote(text: string)
    requires QuotedText(text)
    ensures QuoteEnd(text) == |text| + 1
    decreases |text|
  {
    if text != "" {
      OpenQuote(text[if text[0] == '\\' then 2 else 1..]);
    }
  }

  lemma OpenString(text: string)
    requires QuotedText(text)
    ensures Parse("\"" + text) == Err(EndInString)
  {
    var s := "\"" + text;
    assert s[1..] == text && s[0] == '"';
    OpenQuote(text);
    QuotedNoControl(text);
    NoControlConcat("\"", text);
    hide QuoteEnd, WordLen, QuotedText;
    assert GetToken(s) == Err(EndInString);
  }

  lemma {:induction false} StrayLength(word: string, c: char)
    requires AllKeyChars(word) && !IsSpecial(c)
    ensures WordLen(word + [c]) == |word| + 1
  {
    if word == "" {
      assert [c][1..] == "";
    } else {
      assert (word + [c])[1..] == word[1..] + [c];
      StrayLength(word[1..], c);
    }
  }

  lemma StrayChar(key: string, c: char)
    requires IsName(key) && c >= ' ' && !IsKeyChar(c) && !IsSpecial(c)
    ensures Parse(key + [c]) == Err(UnexpectedChar)
  {
    var s := key + [c];
    StrayLength(key, c);
    assert s[..|s|] == s && s[|key|] == c && s[0] == key[0];
    assert forall i :: 0 <= i < |key| ==> s[i] == key[i];
    hide WordLen, QuoteEnd;
    assert !AllKeyChars(s);
    assert GetToken(s) == Err(UnexpectedChar);
  }
}
