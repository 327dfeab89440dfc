/** The filter expressions of expr.c: trees, tokens, and the grammar the parser follows. */
module ExprSyntax {
  datatype Op = LT | LE | EQ | GE | GT | NE

  /** Node types; the leaf types carry what the C union holds for them.
      A string leaf keeps the pattern text its glob list is compiled from. */
  datatype Kind =
    | KAnd
    | KOr
    | KNot
    | KStr(key: string, sop: Op, pattern: string)
    | KInt(key: string, iop: Op, val: int)
    | KBool(key: string)
  {
    /** type <= EXPR_OR */
    predicate Binary() { KAnd? || KOr? }
    predicate Leaf() { KStr? || KInt? || KBool? }
  }

  /** struct expr; Nil is the NULL pointer. */
  datatype Expr = Nil | Node(kind: Kind, left: Expr, right: Expr)

  const INT_MIN := -0x8000_0000
  const INT_MAX := 0x7fff_ffff

  predicate IsDigit(c: char) { '0' <= c <= '9' }

  predicate IsKeyChar(c: char) {
    IsDigit(c) || 'a' <= c <= 'z' || 'A' <= c <= 'Z' || c == '_' || c == '-'
  }

  predicate AllDigits(s: string) {
    forall i :: 0 <= i < |s| ==> IsDigit(s[i])
  }

  predicate AllKeyChars(s: string) {
    forall i :: 0 <= i < |s| ==> IsKeyChar(s[i])
  }

  /** Text that get_str reads up to, and not past, the closing quote. */
  predicate QuotedText(s: string) {
    if s == "" then true
    else if s[0] == '"' || s[0] < ' ' then false
    else if s[0] == '\\' then |s| > 1 && s[1] >= ' ' && QuotedText(s[2..])
    else QuotedText(s[1..])
  }

  predicate WellFormedKind(k: Kind) {
    match k
    case KStr(key, op, pattern) => key != "" && AllKeyChars(key) && (op == EQ || op == NE) && QuotedText(pattern)
    case KInt(key, op, val) => key != "" && AllKeyChars(key) && INT_MIN <= val <= INT_MAX
    case KBool(key) => key != "" && AllKeyChars(key)
    case _ => true
  }

  /** A finished tree: binary nodes have two children, negations one, leaves none. */
  predicate Shape(e: Expr) {
    e.Node?
    && if e.kind.Binary() then e.left.Node? && e.right.Node? && Shape(e.left) && Shape(e.right)
       else if e.kind.KNot? then e.left.Node? && e.right.Nil? && Shape(e.left)
       else e.left.Nil? && e.right.Nil?
  }

  predicate WellFormed(e: Expr) {
    e.Node? && WellFormedKind(e.kind)
    && if e.kind.Binary() then WellFormed(e.left) && WellFormed(e.right)
       else if e.kind.KNot? then WellFormed(e.left) && e.right.Nil?
       else e.left.Nil? && e.right.Nil?
  }

  lemma {:induction false} WellFormedShape(e: Expr)
    requires WellFormed(e)
    ensures Shape(e)
  {
    if e.kind.Binary() {
      WellFormedShape(e.left);
      WellFormedShape(e.right);
    } else if e.kind.KNot? {
      WellFormedShape(e.left);
    }
  }

  // ---- tokens

  datatype Token =
    | TNot | TLt | TGt | TEq | TAnd | TOr | TLParen | TRParen | TNe | TLe | TGe
    | TKey(str: string) | TIntOrKey(str: string) | TStr(str: string)
  {
    predicate Word() { TKey? || TIntOrKey? }
  }

  predicate IsSpecial(c: char) {
    c == '!' || c == '<' || c == '>' || c == '=' || c == '&' || c == '|' || c == '(' || c == ')'
  }

  /** tok_to_op: the comparison a token stands for, if any. */
  function TokToOp(t: Token): (r: seq<Op>)
    ensures |r| <= 1
  {
    match t
    case TLt => [LT]
    case TGt => [GT]
    case TEq => [EQ]
    case TNe => [NE]
    case TLe => [LE]
    case TGe => [GE]
    case _ => []
  }

  datatype Error =
    | EndInString | UnexpectedChar | ControlChars
    | ExpressionExpected | RightSideExpected | InvalidStringOp | IntegerOrStringExpected | IntegerExpected
    | KeyExpected | RParenExpected | UnexpectedRParen | AndOrExpected

  datatype Result<T> = Ok(value: T) | Err(error: Error)

  // ---- numbers: strtol and decimal printing

  function DigitVal(c: char): int
    requires IsDigit(c)
  {
    c as int - '0' as int
  }

  function DigitsVal(s: string, acc: int): int {
    if s == "" || !IsDigit(s[0]) then acc else DigitsVal(s[1..], 10 * acc + DigitVal(s[0]))
  }

  const LONG_MIN := -0x8000_0000_0000_0000
  const LONG_MAX := 0x7fff_ffff_ffff_ffff

  function Clamp(v: int): int {
    if v < LONG_MIN then LONG_MIN else if v > LONG_MAX then LONG_MAX else v
  }

  /** The conversion of a long to an int. */
  function ToInt32(v: int): (r: int)
    ensures INT_MIN <= r <= INT_MAX
    ensures INT_MIN <= v <= INT_MAX ==> r == v
  {
    (v - INT_MIN) % 0x1_0000_0000 + INT_MIN
  }

  /** str_to_int on the text of an int token, stored into eint.val. */
  function IntVal(s: string): int {
    ToInt32(Clamp(if s != "" && s[0] == '-' then -DigitsVal(s[1..], 0) else DigitsVal(s, 0)))
  }

  function Digit(d: int): (c: char)
    requires 0 <= d < 10
    ensures IsDigit(c) && DigitVal(c) == d
  {
    ['0', '1', '2', '3', '4', '5', '6', '7', '8', '9'][d]
  }

  function Digits(n: nat): (s: string)
    ensures s != "" && AllDigits(s)
  {
    if n < 10 then [Digit(n)] else Digits(n / 10) + [Digit(n % 10)]
  }

  function PrintInt(v: int): string {
    if v < 0 then "-" + Digits(-v) else Digits(v)
  }

  lemma {:induction false} DigitsValSnoc(s: string, c: char, acc: int)
    requires IsDigit(c) && AllDigits(s)
    ensures DigitsVal(s + [c], acc) == 10 * DigitsVal(s, acc) + DigitVal(c)
  {
    if s == "" {
      assert ([c])[1..] == "";
    } else {
      assert (s + [c])[1..] == s[1..] + [c];
      DigitsValSnoc(s[1..], c, 10 * acc + DigitVal(s[0]));
    }
  }

  lemma {:induction false} DigitsRoundTrip(n: nat)
    ensures DigitsVal(Digits(n), 0) == n
  {
    if n < 10 {
      assert Digits(n)[1..] == "";
    } else {
      DigitsRoundTrip(n / 10);
      DigitsValSnoc(Digits(n / 10), Digit(n % 10), 0);
    }
  }

  /** Every int is read back from its decimal form. */
  lemma IntRoundTrip(v: int)
    requires INT_MIN <= v <= INT_MAX
    ensures IntVal(PrintInt(v)) == v
  {
    if v < 0 {
      DigitsRoundTrip(-v);
      assert PrintInt(v)[1..] == Digits(-v);
    } else {
      DigitsRoundTrip(v);
    }
  }

  /** A word of digits has the value its digits say, from the left; more than an int holds wraps
      round, more than a long holds gives -1, and with a minus sign 0. */
  lemma IntValIs(w: string)
    requires AllDigits(w)
    ensures var v := DigitsVal(w, 0);
            && (v <= INT_MAX ==> IntVal(w) == v && IntVal("-" + w) == -v)
            && (v <= LONG_MAX ==> (IntVal(w) - v) % 0x1_0000_0000 == 0 && (IntVal("-" + w) + v) % 0x1_0000_0000 == 0)
            && (v > LONG_MAX ==> IntVal(w) == -1 && IntVal("-" + w) == 0)
  {
    var v := DigitsVal(w, 0);
    DigitsPositive(w, 0);
    assert ("-" + w)[1..] == w;
    assert w != "" ==> w[0] != '-';
    hide DigitsVal;
    Int32Wraps(Clamp(v));
    Int32Wraps(Clamp(-v));
  }

  lemma {:induction false} DigitsPositive(w: string, acc: nat)
    requires AllDigits(w)
    ensures DigitsVal(w, acc) >= acc
  {
    if w != "" {
      DigitsPositive(w[1..], 10 * acc + DigitVal(w[0]));
    }
  }

  lemma Int32Wraps(v: int)
    ensures (ToInt32(v) - v) % 0x1_0000_0000 == 0
  {
  }
}
