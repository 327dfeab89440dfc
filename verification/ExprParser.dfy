/** The tokenizer and parser of expr.c: cursors that move over the text and the token
    list, and the rightmost-descent `add` that grows the tree. */
module ExprParser {
  import opened ExprSyntax
  import opened ExprGrammar
  import Sequences

  // ---- tokenizing

  lemma SuffixTail(str: string, i: nat, n: nat)
    requires i + n <= |str|
    ensures str[i..][n..] == str[i + n..]
  {
  }

  /** A token found at the start of a suffix, with its end as a position in the whole text. */
  function Moved(r: Result<(Token, nat)>, idx: nat): Result<(Token, nat)> {
    match r
    case Err(e) => Err(e)
    case Ok((t, n)) => Ok((t, idx + n))
  }

  lemma QuoteStep(str: string, e: nat)
    requires e < |str| && str[e] != '"'
    ensures str[e] != '\\' ==> QuoteEnd(str[e..]) == 1 + QuoteEnd(str[e + 1..])
    ensures str[e] == '\\' && e + 1 < |str| ==> QuoteEnd(str[e..]) == 2 + QuoteEnd(str[e + 2..])
    ensures str[e] == '\\' && e + 1 == |str| ==> QuoteEnd(str[e..]) == 2
  {
    SuffixTail(str, e, 1);
    if e + 1 < |str| { SuffixTail(str, e, 2); }
  }

  /** get_str's loop; past the end means that the closing quote is missing. */
  method FindQuote(str: string, s: nat) returns (e: nat)
    requires s <= |str|
    ensures s <= e && e - s == QuoteEnd(str[s..])
    ensures e <= |str| + 1 && e != |str|
  {
    e := s;
    assert QuoteEnd("") == 1;
    ghost var goal := QuoteEnd(str[s..]);
    hide QuoteEnd;
    while e < |str| && str[e] != '"'
      invariant s <= e <= |str| && goal == (e - s) + QuoteEnd(str[e..])
    {
      QuoteStep(str, e);
      if str[e] == '\\' {
        e := e + 2;
        if e > |str| { return; }
      } else {
        e := e + 1;
      }
    }
    if e == |str| {
      assert str[e..] == "";
      e := e + 1;
    } else {
      QuoteHere(str, e);
    }
  }

  /** get_str, with the cursor on the opening quote. */
  method GetStr(str: string, idx: nat) returns (r: Result<(Token, nat)>)
    requires idx < |str| && str[idx] == '"'
    ensures r == Moved(GetToken(str[idx..]), idx)
  {
    SuffixTail(str, idx, 1);
    var e := FindQuote(str, idx + 1);
    if e > |str| {
      return Err(EndInString);
    }
    assert str[idx + 1..][..e - (idx + 1)] == str[idx + 1..e];
    r := Ok((TStr(str[idx + 1..e]), e + 1));
  }

  lemma QuoteHere(str: string, e: nat)
    requires e < |str| && str[e] == '"'
    ensures QuoteEnd(str[e..]) == 0
  {
  }

  lemma AllDigitsSnoc(w: string, c: char)
    ensures AllDigits(w + [c]) <==> AllDigits(w) && IsDigit(c)
  {
    var t := w + [c];
    assert forall i :: 0 <= i < |w| ==> t[i] == w[i];
    assert t[|w|] == c;
  }

  lemma DigitsOnlySnoc(w: string, c: char)
    requires w != "" || c != '-'
    ensures DigitsOnly(w + [c]) <==> DigitsOnly(w) && IsDigit(c)
  {
    var t := w + [c];
    if w != "" && w[0] == '-' {
      assert t[1..] == w[1..] + [c];
      AllDigitsSnoc(w[1..], c);
    } else {
      assert t[0] != '-';
      AllDigitsSnoc(w, c);
    }
  }

  /** No special character between idx and e; all of it key characters. */
  ghost predicate Scanned(str: string, idx: nat, e: nat)
    requires idx <= e <= |str|
  {
    WordLen(str[idx..]) == (e - idx) + WordLen(str[e..]) && AllKeyChars(str[idx..e])
  }

  lemma ScanStep(str: string, idx: nat, e: nat)
    requires idx <= e < |str| && Scanned(str, idx, e) && !IsSpecial(str[e]) && IsKeyChar(str[e])
    ensures Scanned(str, idx, e + 1) && str[idx..e + 1] == str[idx..e] + [str[e]]
  {
    SuffixTail(str, e, 1);
    assert str[idx..e + 1] == str[idx..e] + [str[e]];
    var w := str[idx..e];
    forall i | 0 <= i < |w + [str[e]]| ensures IsKeyChar((w + [str[e]])[i]) {
      assert i < |w| ==> (w + [str[e]])[i] == w[i];
    }
  }

  lemma ScanFails(str: string, idx: nat, e: nat)
    requires idx <= e < |str| && Scanned(str, idx, e) && !IsSpecial(str[e]) && !IsKeyChar(str[e])
    requires !IsSpecial(str[idx]) && str[idx] != '"'
    ensures GetToken(str[idx..]) == Err(UnexpectedChar)
  {
    SuffixTail(str, e, 1);
    assert str[idx..][..WordLen(str[idx..])][e - idx] == str[e];
  }

  lemma ScanEnds(str: string, idx: nat, e: nat)
    requires idx < e <= |str| && Scanned(str, idx, e) && (e < |str| ==> IsSpecial(str[e]))
    requires !IsSpecial(str[idx]) && str[idx] != '"'
    ensures GetToken(str[idx..]) == Ok((WordToken(str[idx..e]), e - idx))
  {
    assert str[idx..][..e - idx] == str[idx..e];
  }

  /** The state of get_int_or_key's loop with the cursor at e. */
  ghost predicate InWord(str: string, idx: nat, e: nat, digitsOnly: bool)
    requires idx <= e <= |str|
  {
    Scanned(str, idx, e) && digitsOnly == DigitsOnly(str[idx..e])
  }

  lemma WordStep(str: string, idx: nat, e: nat, digitsOnly: bool)
    requires idx <= e < |str| && InWord(str, idx, e, digitsOnly) && !IsSpecial(str[e]) && IsKeyChar(str[e])
    requires str[e] == '-' ==> e > idx
    ensures InWord(str, idx, e + 1, digitsOnly && IsDigit(str[e]))
  {
    ScanStep(str, idx, e);
    DigitsOnlySnoc(str[idx..e], str[e]);
  }

  lemma WordStart(str: string, idx: nat)
    requires idx < |str| && !IsSpecial(str[idx])
    ensures InWord(str, idx, idx, true)
    ensures str[idx] == '-' ==> InWord(str, idx, idx + 1, true)
  {
    assert str[idx..idx] == "";
    if str[idx] == '-' {
      ScanStep(str, idx, idx);
      assert str[idx..idx + 1] == "-";
    }
  }

  /** get_int_or_key's loop; bad means an unexpected character. */
  method ScanWord(str: string, idx: nat) returns (e: nat, digitsOnly: bool, bad: bool)
    requires idx < |str| && !IsSpecial(str[idx]) && str[idx] != '"'
    ensures bad ==> GetToken(str[idx..]) == Err(UnexpectedChar)
    ensures !bad ==> idx < e <= |str| && InWord(str, idx, e, digitsOnly) && (e < |str| ==> IsSpecial(str[e]))
  {
    e, digitsOnly, bad := idx, true, false;
    WordStart(str, idx);
    if str[e] == '-' {
      e := e + 1;
    }
    hide GetToken, DigitsOnly, Scanned;
    while e < |str| && !IsSpecial(str[e])
      invariant idx <= e <= |str| && InWord(str, idx, e, digitsOnly)
      invariant str[idx] == '-' ==> idx < e
    {
      if !IsKeyChar(str[e]) {
        ScanFails(str, idx, e);
        bad := true;
        return;
      }
      WordStep(str, idx, e, digitsOnly);
      if !IsDigit(str[e]) {
        digitsOnly := false;
      }
      e := e + 1;
    }
  }

  /** get_int_or_key */
  method GetIntOrKey(str: string, idx: nat) returns (r: Result<(Token, nat)>)
    requires idx < |str| && !IsSpecial(str[idx]) && str[idx] != '"'
    ensures r == Moved(GetToken(str[idx..]), idx)
  {
    var e, digitsOnly, bad := ScanWord(str, idx);
    if bad {
      return Err(UnexpectedChar);
    }
    ScanEnds(str, idx, e);
    r := Ok((if digitsOnly then TIntOrKey(str[idx..e]) else TKey(str[idx..e]), e));
  }

  /** get_token */
  method GetTokenAt(str: string, idx: nat) returns (r: Result<(Token, nat)>)
    requires idx < |str|
    ensures r == Moved(GetToken(str[idx..]), idx)
  {
    var c := str[idx];
    if IsSpecial(c) {
      var tok, next := SpecialToken(c), idx + 1;
      if (tok.TNot? || tok.TLt? || tok.TGt?) && next < |str| && str[next] == '=' {
        tok := if tok.TNot? then TNe else if tok.TLt? then TLe else TGe;
        next := next + 1;
      }
      return Ok((tok, next));
    }
    if c == '"' {
      r := GetStr(str, idx);
    } else {
      r := GetIntOrKey(str, idx);
    }
  }

  function Prepend(head: seq<Token>, r: Result<seq<Token>>): Result<seq<Token>> {
    match r
    case Err(e) => Err(e)
    case Ok(ts) => Ok(head + ts)
  }

  lemma TokenizeStep(head: seq<Token>, s: string)
    requires s != "" && GetToken(s).Ok?
    ensures var (t, n) := GetToken(s).value;
            Prepend(head, Tokenize(s)) == Prepend(head + [t], Tokenize(s[n..]))
  {
    var (t, n) := GetToken(s).value;
    if Tokenize(s[n..]).Ok? {
      Sequences.Assoc(head, [t], Tokenize(s[n..]).value);
    }
  }

  /** tokenize */
  method TokenizeAll(str: string) returns (r: Result<seq<Token>>)
    ensures r == Tokenize(str)
  {
    var idx := 0;
    var head: seq<Token> := [];
    hide GetToken;
    ghost var goal := Tokenize(str);
    assert str[0..] == str;
    assert goal.Ok? ==> [] + goal.value == goal.value;
    while idx < |str|
      invariant 0 <= idx <= |str|
      invariant Prepend(head, Tokenize(str[idx..])) == goal
    {
      var tok := GetTokenAt(str, idx);
      if tok.Err? {
        return Err(tok.error);
      }
      TokenizeStep(head, str[idx..]);
      SuffixTail(str, idx, tok.value.1 - idx);
      head := head + [tok.value.0];
      idx := tok.value.1;
    }
    assert str[idx..] == "";
    assert head + [] == head;
    r := Ok(head);
  }

  // ---- the tree under construction

  /** The node that add's descent along the right children ends on. */
  function Rightmost(root: Expr): (r: Expr)
    requires root.Node?
    ensures r.Node? && r.right.Nil?
  {
    if root.right.Nil? then root else Rightmost(root.right)
  }

  function AttachRight(root: Expr, e: Expr): Expr
    requires root.Node?
  {
    if root.right.Nil? then root.(right := e) else root.(right := AttachRight(root.right, e))
  }

  /** add: fills the open right operand, or puts the operator e on top of the tree. */
  function Add(root: Expr, e: Expr): Expr
    requires e.Node?
  {
    if root.Nil? then e
    else if Rightmost(root).kind.Binary() then AttachRight(root, e)
    else e.(left := root)
  }

  /** A finished tree has no open operand anywhere along its right edge. */
  lemma {:induction false} FinishedHasNoOpenOperand(e: Expr)
    requires Shape(e)
    ensures !Rightmost(e).kind.Binary()
  {
    if e.kind.Binary() {
      FinishedHasNoOpenOperand(e.right);
    }
  }

  /** Adding an operator to a finished tree and then a finished operand to that always
      makes the operand the right child of the operator, with the old tree on the left. */
  lemma AddAttachesAtTheRightPlace(root: Expr, op: Kind, u: Expr)
    requires Shape(root) && Shape(u) && op.Binary()
    ensures Add(root, Node(op, Nil, Nil)) == Node(op, root, Nil)
    ensures Add(Node(op, root, Nil), u) == Node(op, root, u)
  {
    FinishedHasNoOpenOperand(root);
  }

  // ---- parsing

  /** r is what `spec` says, with positions in toks for token suffixes. */
  ghost predicate Agrees(r: Result<(Expr, nat)>, toks: seq<Token>, spec: Result<(Expr, seq<Token>)>) {
    match spec
    case Err(e) => r == Err(e)
    case Ok((e, rest)) => r.Ok? && r.value.0 == e && r.value.1 <= |toks| && rest == toks[r.value.1..]
  }

  lemma TokensTail(toks: seq<Token>, i: nat, n: nat)
    requires i + n <= |toks|
    ensures toks[i..][n..] == toks[i + n..]
  {
  }

  /** The part of parse_one behind a key. */
  method ParseKeyAt(key: string, toks: seq<Token>, item0: nat) returns (r: Result<(Expr, nat)>)
    requires item0 <= |toks|
    ensures Agrees(r, toks, ParseLeaf(key, toks[item0..]))
  {
    var item := item0;
    var op := if item < |toks| then TokToOp(toks[item]) else [];
    if item == |toks| || op == [] {
      return Ok((LeafNode(KBool(key)), item));
    }
    item := item + 1;
    if item == |toks| {
      return Err(RightSideExpected);
    }
    TokensTail(toks, item0, 2);
    match toks[item] {
      case TStr(s) =>
        if op[0] != EQ && op[0] != NE {
          return Err(InvalidStringOp);
        }
        return Ok((LeafNode(KStr(key, op[0], s)), item + 1));
      case TIntOrKey(s) =>
        return Ok((LeafNode(KInt(key, op[0], IntVal(s))), item + 1));
      case _ =>
        return Err(if op[0] == EQ || op[0] == NE then IntegerOrStringExpected else IntegerExpected);
    }
  }

  /** parse_one */
  method ParseOne(toks: seq<Token>, item: nat) returns (r: Result<(Expr, nat)>)
    requires item <= |toks|
    ensures Agrees(r, toks, ParseUnit(toks[item..]))
    decreases |toks| - item, 0
  {
    if item == |toks| {
      return Err(ExpressionExpected);
    }
    TokensTail(toks, item, 1);
    match toks[item] {
      case TNot =>
        r := ParseOne(toks, item + 1);
        if r.Ok? {
          r := Ok((Node(KNot, r.value.0, Nil), r.value.1));
        }
      case TLParen => r := ParseLevel(toks, item + 1, true);
      case TKey(s) => r := ParseKeyAt(s, toks, item + 1);
      case TIntOrKey(s) => r := ParseKeyAt(s, toks, item + 1);
      case _ => r := Err(KeyExpected);
    }
  }

  /** parse: root grows through add, one operand and one operator at a time. */
  method ParseLevel(toks: seq<Token>, item0: nat, nested: bool) returns (r: Result<(Expr, nat)>)
    requires item0 <= |toks|
    ensures Agrees(r, toks, ParseSequence(toks[item0..], Nil, KAnd, nested))
    decreases |toks| - item0, 1
  {
    var item, root := item0, Nil;
    ghost var acc, op := Nil, KAnd;
    hide ParseUnit, Rightmost, AttachRight;
    ghost var goal := ParseSequence(toks[item0..], Nil, KAnd, nested);
    while true
      invariant item0 <= item <= |toks|
      invariant (acc.Nil? || Shape(acc)) && op.Binary()
      invariant root == if acc.Nil? then Nil else Node(op, acc, Nil)
      invariant ParseSequence(toks[item..], acc, op, nested) == goal
      decreases |toks| - item
    {
      var one := ParseOne(toks, item);
      if one.Err? {
        return Err(one.error);
      }
      ghost var before := item;
      var e;
      e, item := one.value.0, one.value.1;
      if acc.Node? {
        AddAttachesAtTheRightPlace(acc, op, e);
      }
      root := Add(root, e);
      ghost var sum := if acc.Nil? then e else Bin(op, acc, e);
      assert root == sum && goal == Continue(sum, toks[item..], nested);
      if item == |toks| {
        return if nested then Err(RParenExpected) else Ok((root, item));
      }
      TokensTail(toks, item, 1);
      var tok := toks[item];
      if tok.TRParen? {
        return if nested then Ok((root, item + 1)) else Err(UnexpectedRParen);
      }
      if !tok.TAnd? && !tok.TOr? {
        return Err(AndOrExpected);
      }
      var kind := if tok.TAnd? then KAnd else KOr;
      AddAttachesAtTheRightPlace(sum, kind, e);
      root := Add(root, Node(kind, Nil, Nil));
      acc, op := sum, kind;
      item := item + 1;
    }
  }

  /** expr_parse */
  method ExprParse(str: string) returns (r: Result<Expr>)
    ensures r == Parse(str)
  {
    var i := 0;
    while i < |str|
      invariant 0 <= i <= |str| && forall j :: 0 <= j < i ==> str[j] >= ' '
    {
      if str[i] < ' ' {
        return Err(ControlChars);
      }
      i := i + 1;
    }
    var toks := TokenizeAll(str);
    if toks.Err? {
      return Err(toks.error);
    }
    var tree := ParseLevel(toks.value, 0, false);
    assert toks.value[0..] == toks.value;
    r := if tree.Err? then Err(tree.error) else Ok(tree.value.0);
  }
}
