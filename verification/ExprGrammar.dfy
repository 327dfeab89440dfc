/** What the tokenizer and the parser of expr.c compute, as functions, and the theorem
    that they undo printing. */
module ExprGrammar {
  import opened ExprSyntax
  import Sequences

  // ---- characters to tokens

  /** How many characters precede the next special character. */
  function WordLen(s: string): (n: nat)
    ensures n <= |s|
  {
    if s == "" || IsSpecial(s[0]) then 0 else 1 + WordLen(s[1..])
  }

  /** Where the closing quote is; beyond the end if there is none. */
  function QuoteEnd(s: string): (n: nat)
    ensures n <= |s| + 1
  {
    if s == "" then 1
    else if s[0] == '"' then 0
    else if s[0] == '\\' then (if |s| == 1 then 2 else 2 + QuoteEnd(s[2..]))
    else 1 + QuoteEnd(s[1..])
  }

  predicate DigitsOnly(word: string) {
    AllDigits(if word != "" && word[0] == '-' then word[1..] else word)
  }

  function WordToken(word: string): Token {
    if DigitsOnly(word) then TIntOrKey(word) else TKey(word)
  }

  function SpecialToken(c: char): Token
    requires IsSpecial(c)
  {
    if c == '!' then TNot else if c == '<' then TLt else if c == '>' then TGt else if c == '=' then TEq
    else if c == '&' then TAnd else if c == '|' then TOr else if c == '(' then TLParen else TRParen
  }

  /** The first token of s and how many characters it takes. */
  function GetToken(s: string): (r: Result<(Token, nat)>)
    requires s != ""
    ensures r.Ok? ==> 0 < r.value.1 <= |s|
  {
    if IsSpecial(s[0]) then
      if |s| > 1 && s[1] == '=' && s[0] == '!' then Ok((TNe, 2))
      else if |s| > 1 && s[1] == '=' && s[0] == '<' then Ok((TLe, 2))
      else if |s| > 1 && s[1] == '=' && s[0] == '>' then Ok((TGe, 2))
      else Ok((SpecialToken(s[0]), 1))
    else if s[0] == '"' then
      var n := QuoteEnd(s[1..]);
      if n >= |s| - 1 then Err(EndInString) else Ok((TStr(s[1..][..n]), n + 2))
    else
      var n := WordLen(s);
      if AllKeyChars(s[..n]) then Ok((WordToken(s[..n]), n)) else Err(UnexpectedChar)
  }

  function Tokenize(s: string): (r: Result<seq<Token>>) {
    if s == "" then Ok([])
    else
      match GetToken(s)
      case Err(e) => Err(e)
      case Ok((t, n)) =>
        match Tokenize(s[n..])
        case Err(e) => Err(e)
        case Ok(ts) => Ok([t] + ts)
  }

  // ---- tokens to trees

  function Bin(kind: Kind, left: Expr, right: Expr): Expr {
    Node(kind, left, right)
  }

  function LeafNode(kind: Kind): Expr {
    Node(kind, Nil, Nil)
  }

  /** A key, with the comparison that may follow it. */
  function ParseLeaf(key: string, ts: seq<Token>): (r: Result<(Expr, seq<Token>)>)
    ensures r.Ok? ==> Shape(r.value.0) && |r.value.1| <= |ts|
  {
    if ts == [] || TokToOp(ts[0]) == [] then Ok((LeafNode(KBool(key)), ts))
    else if |ts| == 1 then Err(RightSideExpected)
    else
      var op := TokToOp(ts[0])[0];
      match ts[1]
      case TStr(s) =>
        if op == EQ || op == NE then Ok((LeafNode(KStr(key, op, s)), ts[2..])) else Err(InvalidStringOp)
      case TIntOrKey(s) => Ok((LeafNode(KInt(key, op, IntVal(s))), ts[2..]))
      case _ => if op == EQ || op == NE then Err(IntegerOrStringExpected) else Err(IntegerExpected)
  }

  /** unit := '!' unit | '(' sequence ')' | leaf */
  function ParseUnit(ts: seq<Token>): (r: Result<(Expr, seq<Token>)>)
    ensures r.Ok? ==> Shape(r.value.0) && |r.value.1| < |ts|
    decreases |ts|, 0
  {
    if ts == [] then Err(ExpressionExpected)
    else match ts[0]
      case TNot =>
        (match ParseUnit(ts[1..])
         case Err(e) => Err(e)
         case Ok((e, rest)) => Ok((Node(KNot, e, Nil), rest)))
      case TLParen => ParseSequence(ts[1..], Nil, KAnd, true)
      case TKey(s) => ParseLeaf(s, ts[1..])
      case TIntOrKey(s) => ParseLeaf(s, ts[1..])
      case _ => Err(KeyExpected)
  }

  /** sequence := unit { ('&' | '|') unit }, associating to the left; acc is what has been
      read so far and op the operator behind it. */
  function ParseSequence(ts: seq<Token>, acc: Expr, op: Kind, nested: bool): (r: Result<(Expr, seq<Token>)>)
    requires (acc.Nil? || Shape(acc)) && op.Binary()
    ensures r.Ok? ==> Shape(r.value.0) && |r.value.1| < |ts|
    decreases |ts|, 1
  {
    match ParseUnit(ts)
    case Err(e) => Err(e)
    case Ok((u, rest)) => Continue(if acc.Nil? then u else Bin(op, acc, u), rest, nested)
  }

  /** What happens once the expression e has been read. */
  function Continue(e: Expr, ts: seq<Token>, nested: bool): (r: Result<(Expr, seq<Token>)>)
    requires Shape(e)
    ensures r.Ok? ==> Shape(r.value.0) && |r.value.1| <= |ts|
    decreases |ts|, 2
  {
    if ts == [] then (if nested then Err(RParenExpected) else Ok((e, ts)))
    else match ts[0]
      case TRParen => if nested then Ok((e, ts[1..])) else Err(UnexpectedRParen)
      case TAnd => ParseSequence(ts[1..], e, KAnd, nested)
      case TOr => ParseSequence(ts[1..], e, KOr, nested)
      case _ => Err(AndOrExpected)
  }

  predicate NoControlChars(s: string) {
    forall i :: 0 <= i < |s| ==> s[i] >= ' '
  }

  /** expr_parse */
  function Parse(s: string): (r: Result<Expr>)
    ensures r.Ok? ==> Shape(r.value)
  {
    if !NoControlChars(s) then Err(ControlChars)
    else match Tokenize(s)
      case Err(e) => Err(e)
      case Ok(ts) =>
        match ParseSequence(ts, Nil, KAnd, false)
        case Err(e) => Err(e)
        case Ok((e, _)) => Ok(e)
  }

  // ---- trees to tokens to characters

  function OpToken(op: Op): Token {
    match op
    case LT => TLt
    case LE => TLe
    case EQ => TEq
    case GE => TGe
    case GT => TGt
    case NE => TNe
  }

  function LeafTokens(k: Kind): seq<Token>
    requires k.Leaf()
  {
    match k
    case KStr(key, op, pattern) => [WordToken(key), OpToken(op), TStr(pattern)]
    case KInt(key, op, val) => [WordToken(key), OpToken(op), WordToken(PrintInt(val))]
    case KBool(key) => [WordToken(key)]
  }

  /** Parentheses go around binary right operands and binary operands of a negation only. */
  function Tokens(e: Expr): seq<Token>
    requires Shape(e)
    decreases e, 0
  {
    match e.kind
    case KAnd => Tokens(e.left) + ([TAnd] + OperandTokens(e.right))
    case KOr => Tokens(e.left) + ([TOr] + OperandTokens(e.right))
    case KNot => [TNot] + OperandTokens(e.left)
    case _ => LeafTokens(e.kind)
  }

  function OperandTokens(e: Expr): seq<Token>
    requires Shape(e)
    decreases e, 1
  {
    if e.kind.Binary() then [TLParen] + Tokens(e) + [TRParen] else Tokens(e)
  }

  /** What may stand behind a complete operand. */
  predicate Follow(ts: seq<Token>) {
    ts == [] || ts[0].TAnd? || ts[0].TOr? || ts[0].TRParen?
  }

  lemma IntTokenIsInt(v: int)
    ensures DigitsOnly(PrintInt(v)) && WordToken(PrintInt(v)) == TIntOrKey(PrintInt(v))
  {
    if v < 0 {
      assert PrintInt(v)[1..] == Digits(-v);
    }
  }

  lemma ParseKey(key: string, rest: seq<Token>)
    ensures ParseUnit([WordToken(key)] + rest) == ParseLeaf(key, rest)
  {
    assert ([WordToken(key)] + rest)[1..] == rest;
  }

  lemma ParseComparison(key: string, op: Op, v: Token, rest: seq<Token>)
    requires v.TIntOrKey? || (v.TStr? && (op == EQ || op == NE))
    ensures ParseLeaf(key, [OpToken(op), v] + rest)
         == Ok((LeafNode(if v.TStr? then KStr(key, op, v.str) else KInt(key, op, IntVal(v.str))), rest))
  {
    var ts := [OpToken(op), v] + rest;
    assert ts[2..] == rest && TokToOp(ts[0]) == [op];
  }

  lemma ParseLeafTokens(k: Kind, rest: seq<Token>)
    requires k.Leaf() && WellFormedKind(k) && Follow(rest)
    ensures ParseUnit(LeafTokens(k) + rest) == Ok((LeafNode(k), rest))
  {
    hide ParseUnit, ParseSequence, ParseLeaf, WordToken, OpToken, IntVal;
    match k {
      case KBool(key) =>
        ParseKey(key, rest);
        ParseFlag(key, rest);
      case KStr(key, op, pattern) =>
        assert LeafTokens(k) == [WordToken(key)] + [OpToken(op), TStr(pattern)];
        Sequences.Assoc([WordToken(key)], [OpToken(op), TStr(pattern)], rest);
        ParseKey(key, [OpToken(op), TStr(pattern)] + rest);
        ParseComparison(key, op, TStr(pattern), rest);
      case KInt(key, op, val) =>
        IntTokenIsInt(val);
        IntRoundTrip(val);
        var v := WordToken(PrintInt(val));
        assert LeafTokens(k) == [WordToken(key)] + [OpToken(op), v];
        Sequences.Assoc([WordToken(key)], [OpToken(op), v], rest);
        ParseKey(key, [OpToken(op), v] + rest);
        ParseComparison(key, op, v, rest);
    }
  }

  lemma ParseFlag(key: string, rest: seq<Token>)
    requires Follow(rest)
    ensures ParseLeaf(key, rest) == Ok((LeafNode(KBool(key)), rest))
  {
  }

  /** An operand is read back as one unit. */
  lemma {:induction false} ParseOperand(e: Expr, rest: seq<Token>)
    requires WellFormed(e) && Shape(e) && Follow(rest)
    ensures ParseUnit(OperandTokens(e) + rest) == Ok((e, rest))
    decreases e, if e.kind.Binary() then 2 else 0
  {
    if e.kind.Binary() {
      var tail := [TRParen] + rest;
      Sequences.Assoc([TLParen] + Tokens(e), [TRParen], rest);
      Sequences.Assoc([TLParen], Tokens(e), tail);
      assert ([TLParen] + (Tokens(e) + tail))[1..] == Tokens(e) + tail;
      ParseTokens(e, tail, true);
      assert tail[1..] == rest;
    } else if e.kind.KNot? {
      Sequences.Assoc([TNot], OperandTokens(e.left), rest);
      assert ([TNot] + (OperandTokens(e.left) + rest))[1..] == OperandTokens(e.left) + rest;
      ParseOperand(e.left, rest);
    } else {
      ParseLeafTokens(e.kind, rest);
    }
  }

  /** The tokens of e are read back as e, whatever follows. */
  lemma {:induction false} ParseTokens(e: Expr, rest: seq<Token>, nested: bool)
    requires WellFormed(e) && Shape(e) && Follow(rest)
    ensures ParseSequence(Tokens(e) + rest, Nil, KAnd, nested) == Continue(e, rest, nested)
    decreases e, 1
  {
    if e.kind.Binary() {
      var op := if e.kind.KAnd? then TAnd else TOr;
      var right := OperandTokens(e.right) + rest;
      Sequences.Assoc(Tokens(e.left), [op] + OperandTokens(e.right), rest);
      Sequences.Assoc([op], OperandTokens(e.right), rest);
      ParseTokens(e.left, [op] + right, nested);
      assert ([op] + right)[1..] == right;
      ParseOperand(e.right, rest);
    } else {
      ParseOperand(e, rest);
    }
  }

  // ---- rendering

  function Render(t: Token): string {
    match t
    case TNot => "!"
    case TLt => "<"
    case TGt => ">"
    case TEq => "="
    case TAnd => "&"
    case TOr => "|"
    case TLParen => "("
    case TRParen => ")"
    case TNe => "!="
    case TLe => "<="
    case TGe => ">="
    case TKey(s) => s
    case TIntOrKey(s) => s
    case TStr(s) => "\"" + s + "\""
  }

  function RenderAll(ts: seq<Token>): string {
    if ts == [] then "" else Render(ts[0]) + RenderAll(ts[1..])
  }

  /** The text of a filter expression. */
  function Print(e: Expr): string
    requires Shape(e)
  {
    RenderAll(Tokens(e))
  }

  predicate WellFormedToken(t: Token) {
    match t
    case TKey(s) => s != "" && AllKeyChars(s) && !DigitsOnly(s)
    case TIntOrKey(s) => s != "" && AllKeyChars(s) && DigitsOnly(s)
    case TStr(s) => QuotedText(s)
    case _ => true
  }

  /** b can stand directly behind a without changing how a is read. */
  predicate CanFollow(a: Token, b: Token) {
    && (a.Word() ==> !b.Word() && !b.TStr?)
    && (a.TNot? || a.TLt? || a.TGt? ==> !b.TEq?)
  }

  predicate Separable(ts: seq<Token>) {
    && (forall i :: 0 <= i < |ts| ==> WellFormedToken(ts[i]))
    && (forall i :: 0 <= i < |ts| - 1 ==> CanFollow(ts[i], ts[i + 1]))
  }

  lemma {:induction false} WordLenIs(word: string, rest: string)
    requires AllKeyChars(word) && (rest == "" || IsSpecial(rest[0]))
    ensures WordLen(word + rest) == |word|
  {
    if word == "" {
      assert word + rest == rest;
    } else {
      assert (word + rest)[1..] == word[1..] + rest;
      WordLenIs(word[1..], rest);
    }
  }

  lemma {:induction false} QuoteEndIs(text: string, rest: string)
    requires QuotedText(text)
    ensures QuoteEnd(text + ("\"" + rest)) == |text|
    decreases |text|
  {
    var s := text + ("\"" + rest);
    if text == "" {
      assert s == "\"" + rest;
    } else if text[0] == '\\' {
      assert s[2..] == text[2..] + ("\"" + rest);
      QuoteEndIs(text[2..], rest);
    } else {
      assert s[1..] == text[1..] + ("\"" + rest);
      QuoteEndIs(text[1..], rest);
    }
  }

  lemma RenderFirst(t: Token)
    requires WellFormedToken(t)
    ensures Render(t) != ""
    ensures !t.Word() && !t.TStr? ==> IsSpecial(Render(t)[0])
    ensures Render(t)[0] == '=' <==> t.TEq?
  {
  }

  lemma GetWordRender(w: string, rest: string)
    requires w != "" && AllKeyChars(w) && (rest == "" || IsSpecial(rest[0]))
    ensures GetToken(w + rest) == Ok((WordToken(w), |w|))
  {
    WordLenIs(w, rest);
    assert (w + rest)[..|w|] == w && (w + rest)[0] == w[0];
  }

  lemma GetStrRender(w: string, rest: string)
    requires QuotedText(w)
    ensures GetToken("\"" + w + "\"" + rest) == Ok((TStr(w), |w| + 2))
  {
    var s := "\"" + w + "\"" + rest;
    var tail := w + ("\"" + rest);
    Sequences.Assoc("\"" + w, "\"", rest);
    Sequences.Assoc("\"", w, "\"" + rest);
    assert s[0] == '"' && s[1..] == tail && |tail| == |s| - 1;
    QuoteEndIs(w, rest);
    hide QuoteEnd, WordLen;
    assert tail[..|w|] == w;
  }

  lemma GetSpecialRender(t: Token, rest: string)
    requires !t.Word() && !t.TStr?
    requires t.TNot? || t.TLt? || t.TGt? ==> rest == "" || rest[0] != '='
    ensures GetToken(Render(t) + rest) == Ok((t, |Render(t)|))
  {
    var s := Render(t) + rest;
    if |Render(t)| == 1 {
      assert s[0] == Render(t)[0] && (|s| > 1 ==> s[1] == rest[0]);
    } else {
      assert s[0] == Render(t)[0] && s[1] == Render(t)[1];
    }
  }

  /** A token is read back from in front of anything that may follow it. */
  lemma GetTokenRender(t: Token, rest: string)
    requires WellFormedToken(t)
    requires t.Word() ==> rest == "" || IsSpecial(rest[0])
    requires t.TNot? || t.TLt? || t.TGt? ==> rest == "" || rest[0] != '='
    ensures Render(t) + rest != "" && GetToken(Render(t) + rest) == Ok((t, |Render(t)|))
  {
    hide GetToken;
    match t {
      case TKey(w) => GetWordRender(w, rest);
      case TIntOrKey(w) => GetWordRender(w, rest);
      case TStr(w) => GetStrRender(w, rest);
      case _ => GetSpecialRender(t, rest);
    }
  }

  /** Tokenising undoes rendering. */
  lemma {:induction false} TokenizeRender(ts: seq<Token>)
    requires Separable(ts)
    ensures Tokenize(RenderAll(ts)) == Ok(ts)
  {
    if ts != [] {
      var rest := RenderAll(ts[1..]);
      if |ts| > 1 {
        RenderFirst(ts[1]);
        assert CanFollow(ts[0], ts[1]);
        assert rest[0] == Render(ts[1])[0];
      }
      GetTokenRender(ts[0], rest);
      assert (Render(ts[0]) + rest)[|Render(ts[0])|..] == rest;
      assert forall i :: 0 <= i < |ts| - 1 ==> ts[1..][i] == ts[i + 1];
      TokenizeRender(ts[1..]);
      assert [ts[0]] + ts[1..] == ts;
    }
  }

  // ---- the rendered tokens of a tree never run together

  predicate OpensOperand(t: Token) { t.TNot? || t.TLParen? || t.Word() }

  predicate ClosesOperand(t: Token) { t.TRParen? || t.TStr? || t.Word() }

  ghost predicate Operand(ts: seq<Token>) {
    ts != [] && Separable(ts) && OpensOperand(ts[0]) && ClosesOperand(ts[|ts| - 1])
  }

  lemma SeparableConcat(a: seq<Token>, b: seq<Token>)
    requires Separable(a) && Separable(b)
    requires a != [] && b != [] ==> CanFollow(a[|a| - 1], b[0])
    ensures Separable(a + b)
  {
    var c := a + b;
    forall i | 0 <= i < |c| - 1 ensures CanFollow(c[i], c[i + 1]) {
      if i < |a| - 1 {
        assert c[i] == a[i] && c[i + 1] == a[i + 1];
      } else if i >= |a| {
        assert c[i] == b[i - |a|] && c[i + 1] == b[i - |a| + 1];
      }
    }
  }

  lemma WordTokenIsWord(w: string)
    requires w != "" && AllKeyChars(w)
    ensures WordToken(w).Word() && WellFormedToken(WordToken(w))
  {
  }

  lemma TripleOperand(a: Token, b: Token, c: Token)
    requires WellFormedToken(a) && WellFormedToken(b) && WellFormedToken(c)
    requires CanFollow(a, b) && CanFollow(b, c) && OpensOperand(a) && ClosesOperand(c)
    ensures Operand([a, b, c])
  {
  }

  lemma LeafSeparable(k: Kind)
    requires k.Leaf() && WellFormedKind(k)
    ensures Operand(LeafTokens(k))
  {
    WordTokenIsWord(k.key);
    hide Operand, WordToken, PrintInt, AllKeyChars;
    match k {
      case KStr(key, op, pattern) => ComparisonOperand(key, op, TStr(pattern));
      case KInt(key, op, val) =>
        PrintedIntIsWord(val);
        WordTokenIsWord(PrintInt(val));
        ComparisonOperand(key, op, WordToken(PrintInt(val)));
      case KBool(key) => SingleOperand(WordToken(key));
    }
  }

  lemma ComparisonOperand(key: string, op: Op, c: Token)
    requires key != "" && AllKeyChars(key) && WellFormedToken(c) && (c.Word() || c.TStr?)
    ensures Operand([WordToken(key), OpToken(op), c])
  {
    WordTokenIsWord(key);
    hide Operand, WordToken, AllKeyChars;
    TripleOperand(WordToken(key), OpToken(op), c);
  }

  lemma SingleOperand(a: Token)
    requires WellFormedToken(a) && a.Word()
    ensures Operand([a])
  {
  }

  lemma PrintedIntIsWord(v: int)
    ensures PrintInt(v) != "" && AllKeyChars(PrintInt(v))
  {
    if v < 0 {
      var d := Digits(-v);
      forall i | 0 <= i < |PrintInt(v)| ensures IsKeyChar(PrintInt(v)[i]) {
        assert i > 0 ==> PrintInt(v)[i] == d[i - 1];
      }
    }
  }

  lemma BinarySeparable(a: seq<Token>, op: Token, b: seq<Token>)
    requires Operand(a) && Operand(b) && (op.TAnd? || op.TOr?)
    ensures Operand(a + ([op] + b))
  {
    SeparableConcat([op], b);
    SeparableConcat(a, [op] + b);
    assert (a + ([op] + b))[|a| + |b|] == b[|b| - 1];
  }

  lemma NotSeparable(b: seq<Token>)
    requires Operand(b)
    ensures Operand([TNot] + b)
  {
    SeparableConcat([TNot], b);
  }

  lemma ParensSeparable(b: seq<Token>)
    requires Operand(b)
    ensures Operand([TLParen] + b + [TRParen])
  {
    SeparableConcat([TLParen], b);
    SeparableConcat([TLParen] + b, [TRParen]);
  }

  lemma {:induction false} TokensSeparable(e: Expr)
    requires WellFormed(e) && Shape(e)
    ensures Operand(Tokens(e)) && Operand(OperandTokens(e))
  {
    hide Operand;
    match e.kind {
      case KAnd => TokensSeparable(e.left); TokensSeparable(e.right);
        BinarySeparable(Tokens(e.left), TAnd, OperandTokens(e.right));
      case KOr => TokensSeparable(e.left); TokensSeparable(e.right);
        BinarySeparable(Tokens(e.left), TOr, OperandTokens(e.right));
      case KNot => TokensSeparable(e.left); NotSeparable(OperandTokens(e.left));
      case _ => LeafSeparable(e.kind);
    }
    if e.kind.Binary() {
      ParensSeparable(Tokens(e));
    }
  }

  lemma NoControlConcat(s: string, t: string)
    ensures NoControlChars(s + t) <==> NoControlChars(s) && NoControlChars(t)
  {
    if NoControlChars(s + t) {
      forall i | 0 <= i < |s| ensures s[i] >= ' ' { assert (s + t)[i] == s[i]; }
      forall i | 0 <= i < |t| ensures t[i] >= ' ' { assert (s + t)[|s| + i] == t[i]; }
    }
  }

  lemma {:induction false} QuotedNoControl(s: string)
    requires QuotedText(s)
    ensures NoControlChars(s)
    decreases |s|
  {
    if s != "" {
      var n := if s[0] == '\\' then 2 else 1;
      QuotedNoControl(s[n..]);
      NoControlConcat(s[..n], s[n..]);
      assert s == s[..n] + s[n..];
    }
  }

  lemma {:induction false} RenderNoControl(ts: seq<Token>)
    requires forall i :: 0 <= i < |ts| ==> WellFormedToken(ts[i])
    ensures NoControlChars(RenderAll(ts))
  {
    if ts != [] {
      RenderNoControl(ts[1..]);
      if ts[0].TStr? {
        QuotedNoControl(ts[0].str);
      }
      NoControlConcat(Render(ts[0]), RenderAll(ts[1..]));
    }
  }

  /** Every filter expression is read back from its text, with parentheses only where
      left association needs them. */
  lemma ParseUndoesPrint(e: Expr)
    requires WellFormed(e) && Shape(e)
    ensures Parse(Print(e)) == Ok(e)
  {
    TokensSeparable(e);
    RenderNoControl(Tokens(e));
    TokenizeRender(Tokens(e));
    ParseTokens(e, [], false);
    assert Tokens(e) + [] == Tokens(e);
  }

  // ---- whatever the parser accepts is well formed

  lemma {:induction false} QuoteEndQuoted(s: string)
    requires NoControlChars(s) && QuoteEnd(s) < |s|
    ensures QuotedText(s[..QuoteEnd(s)])
    decreases |s|
  {
    if s[0] != '"' {
      var n := if s[0] == '\\' then 2 else 1;
      assert s[n..][..QuoteEnd(s[n..])] == s[..QuoteEnd(s)][n..];
      NoControlConcat(s[..n], s[n..]);
      assert s == s[..n] + s[n..];
      QuoteEndQuoted(s[n..]);
    }
  }

  lemma GetTokenWellFormed(s: string)
    requires s != "" && NoControlChars(s) && GetToken(s).Ok?
    ensures WellFormedToken(GetToken(s).value.0)
  {
    if s[0] == '"' {
      NoControlConcat(s[..1], s[1..]);
      assert s == s[..1] + s[1..];
      QuoteEndQuoted(s[1..]);
    }
  }

  ghost predicate WellFormedTokens(ts: seq<Token>) {
    forall i :: 0 <= i < |ts| ==> WellFormedToken(ts[i])
  }

  lemma {:induction false} TokenizeWellFormed(s: string)
    requires NoControlChars(s) && Tokenize(s).Ok?
    ensures WellFormedTokens(Tokenize(s).value)
    decreases |s|
  {
    if s != "" {
      var n := GetToken(s).value.1;
      GetTokenWellFormed(s);
      NoControlConcat(s[..n], s[n..]);
      assert s == s[..n] + s[n..];
      TokenizeWellFormed(s[n..]);
    }
  }

  lemma ParseLeafWellFormed(key: string, ts: seq<Token>)
    requires key != "" && AllKeyChars(key) && WellFormedTokens(ts) && ParseLeaf(key, ts).Ok?
    ensures WellFormed(ParseLeaf(key, ts).value.0) && WellFormedTokens(ParseLeaf(key, ts).value.1)
  {
  }

  lemma {:induction false} ParseUnitWellFormed(ts: seq<Token>)
    requires WellFormedTokens(ts) && ParseUnit(ts).Ok?
    ensures WellFormed(ParseUnit(ts).value.0) && WellFormedTokens(ParseUnit(ts).value.1)
    decreases |ts|, 0
  {
    assert WellFormedToken(ts[0]);
    match ts[0] {
      case TNot => ParseUnitWellFormed(ts[1..]);
      case TLParen => ParseSequenceWellFormed(ts[1..], Nil, KAnd, true);
      case TKey(s) => ParseLeafWellFormed(s, ts[1..]);
      case TIntOrKey(s) => ParseLeafWellFormed(s, ts[1..]);
    }
  }

  lemma {:induction false} ParseSequenceWellFormed(ts: seq<Token>, acc: Expr, op: Kind, nested: bool)
    requires WellFormedTokens(ts) && (acc.Nil? || (Shape(acc) && WellFormed(acc))) && op.Binary()
    requires ParseSequence(ts, acc, op, nested).Ok?
    ensures WellFormed(ParseSequence(ts, acc, op, nested).value.0)
    ensures WellFormedTokens(ParseSequence(ts, acc, op, nested).value.1)
    decreases |ts|, 1
  {
    ParseUnitWellFormed(ts);
    var (u, rest) := ParseUnit(ts).value;
    var e := if acc.Nil? then u else Bin(op, acc, u);
    if rest != [] && (rest[0].TAnd? || rest[0].TOr?) {
      ParseSequenceWellFormed(rest[1..], e, if rest[0].TAnd? then KAnd else KOr, nested);
    }
  }

  /** Every accepted filter parses to a well-formed tree. */
  lemma ParseWellFormed(s: string)
    requires Parse(s).Ok?
    ensures WellFormed(Parse(s).value)
  {
    TokenizeWellFormed(s);
    ParseSequenceWellFormed(Tokenize(s).value, Nil, KAnd, false);
  }

  /** Printing an accepted filter gives a text with the same tree. */
  lemma PrintedFilterParsesTheSame(s: string)
    requires Parse(s).Ok?
    ensures Parse(Print(Parse(s).value)) == Parse(s)
  {
    ParseWellFormed(s);
    ParseUndoesPrint(Parse(s).value);
  }
}
