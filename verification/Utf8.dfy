/** UTF-8 stepping, decoding and encoding as uchar.c does them, over arbitrary bytes. */
module Utf8 {
  import opened Bytes

  /** A C string without its terminating NUL. */
  predicate NoNul(s: seq<Byte>) {
    forall i :: 0 <= i < |s| ==> s[i] != 0
  }

  /** s[i] for a C string: the NUL is read at the end. */
  function At(s: seq<Byte>, i: nat): Byte {
    if i < |s| then s[i] else 0
  }

  const U_INVALID_MASK := 0x1000_0000
  const MAX_UNICODE := 0x10_ffff

  /** len_tab */
  function LenTab(b: Byte): (n: int)
    ensures -1 <= n <= 4
  {
    if b < 128 then 1 else if b < 192 then 0 else if b < 224 then 2 else if b < 240 then 3
    else if b < 245 then 4 else -1
  }

  /** A continuation byte, 10xxxxxx. */
  predicate Cont(b: Byte) { LenTab(b) == 0 }

  /** Value bits of the first byte of a sequence of len bytes. */
  function FirstBits(b: Byte, len: int): nat
    requires 1 <= len <= 4
  {
    if len == 1 then b % 128 else if len == 2 then b % 32 else if len == 3 then b % 16 else b % 8
  }

  predicate AllCont(s: seq<Byte>, from: nat, upto: int) {
    forall k :: from <= k < upto ==> Cont(At(s, k))
  }

  /** A lead byte at i is followed by all its continuation bytes. */
  predicate SeqAt(s: seq<Byte>, i: nat) {
    LenTab(At(s, i)) >= 1 && AllCont(s, i + 1, i + LenTab(At(s, i)))
  }

  /** How many bytes the character at i takes; an invalid byte is a character of its own. */
  function Step(s: seq<Byte>, i: nat): (n: nat)
    ensures 1 <= n <= 4
  {
    if SeqAt(s, i) then LenTab(At(s, i)) else 1
  }

  function Next(s: seq<Byte>, i: nat): nat { i + Step(s, i) }

  /** The value of n bytes from i, appended to the bits u. */
  function Bits(s: seq<Byte>, u: nat, i: nat, n: nat): nat
    decreases n
  {
    if n == 0 then u else Bits(s, 64 * u + At(s, i) % 64, i + 1, n - 1)
  }

  /** The character at i; invalid bytes are marked with U_INVALID_MASK. */
  function CharAt(s: seq<Byte>, i: nat): nat {
    if SeqAt(s, i) then Bits(s, FirstBits(At(s, i), Step(s, i)), i + 1, Step(s, i) - 1)
    else At(s, i) + U_INVALID_MASK
  }

  lemma NextInside(s: seq<Byte>, i: nat)
    requires NoNul(s) && i < |s|
    ensures i < Next(s, i) <= |s|
  {
    assert !Cont(At(s, |s|));
  }

  // ---- boundaries

  /** i is reached from `from` by stepping over whole characters. */
  predicate Reaches(s: seq<Byte>, from: nat, i: nat)
    decreases i - from
  {
    from == i || (from < i && Reaches(s, Next(s, from), i))
  }

  /** Every byte that is not a continuation byte starts a character. */
  lemma {:induction false} LeadIsBoundary(s: seq<Byte>, from: nat, i: nat, p: nat)
    requires Reaches(s, from, i) && from <= p <= i && !Cont(At(s, p))
    ensures Reaches(s, from, p)
    decreases i - from
  {
    if from < p {
      if Next(s, from) <= p {
        LeadIsBoundary(s, Next(s, from), i, p);
      }
    }
  }

  lemma {:induction false} BoundariesInOrder(s: seq<Byte>, from: nat, p: nat, i: nat)
    requires Reaches(s, from, p) && Reaches(s, from, i) && p < i
    ensures Next(s, p) <= i
    decreases p - from
  {
    if from < p {
      BoundariesInOrder(s, Next(s, from), p, i);
    } else {
      ReachesForward(s, Next(s, p), i);
    }
  }

  lemma {:induction false} ReachesForward(s: seq<Byte>, from: nat, i: nat)
    requires Reaches(s, from, i)
    ensures from <= i
  {
  }

  lemma {:induction false} ReachesStep(s: seq<Byte>, from: nat, i: nat)
    requires Reaches(s, from, i)
    ensures Reaches(s, from, Next(s, i))
    decreases i - from
  {
    if from < i { ReachesStep(s, Next(s, from), i); }
  }

  // ---- stepping back

  /** How far to the left of i the nearest byte that is not a continuation byte lies,
      looking back at most `left` bytes; 0 if there is none. */
  function BackToLead(s: seq<Byte>, i: nat, c: nat): (n: nat)
    requires c <= i
    ensures n <= i
    decreases i - c
  {
    if c == i || c == 4 then 0
    else if !Cont(At(s, i - c - 1)) then c + 1
    else BackToLead(s, i, c + 1)
  }

  /** u_prev_char_pos: the previous boundary. */
  function Prev(s: seq<Byte>, i: nat): nat
    requires i > 0
  {
    var n := BackToLead(s, i, 0);
    if n > 1 && LenTab(At(s, i - n)) == n then i - n else i - 1
  }

  lemma {:induction false} BackToLeadFinds(s: seq<Byte>, i: nat, c: nat)
    requires c <= i && c <= 4 && AllCont(s, i - c, i)
    ensures var n := BackToLead(s, i, c);
            n > 0 ==> c < n <= 4 && n <= i && !Cont(At(s, i - n)) && AllCont(s, i - n + 1, i)
    decreases i - c
  {
    if c < i && c != 4 && Cont(At(s, i - c - 1)) {
      BackToLeadFinds(s, i, c + 1);
    }
  }

  lemma {:induction false} BackToLeadIs(s: seq<Byte>, i: nat, c: nat, n: nat)
    requires c < n <= 4 && n <= i && !Cont(At(s, i - n)) && AllCont(s, i - n + 1, i)
    ensures BackToLead(s, i, c) == n
    decreases n - c
  {
    if c + 1 < n {
      assert Cont(At(s, i - c - 1));
      BackToLeadIs(s, i, c + 1, n);
    }
  }

  /** Stepping back undoes stepping forward, from every character boundary of any byte string. */
  lemma PrevUndoesNext(s: seq<Byte>, i: nat)
    requires Reaches(s, 0, i)
    ensures Prev(s, Next(s, i)) == i
  {
    var j := Next(s, i);
    if SeqAt(s, i) {
      BackToLeadIs(s, j, 0, Step(s, i));
    } else {
      BackToLeadFinds(s, j, 0);
      var n := BackToLead(s, j, 0);
      if n > 1 && LenTab(At(s, j - n)) == n {
        // a complete sequence would reach over the boundary i
        LeadIsBoundary(s, 0, i, j - n);
        BoundariesInOrder(s, 0, j - n, i);
        assert false;
      }
    }
  }

  // ---- counting characters

  /** The number of steps from i to the end. */
  function CountFrom(s: seq<Byte>, i: nat): nat
    requires NoNul(s) && i <= |s|
    decreases |s| - i
  {
    if i == |s| then 0
    else
      NextInside(s, i);
      1 + CountFrom(s, Next(s, i))
  }

  /** All characters from i to the end, invalid bytes marked. */
  function DecodeFrom(s: seq<Byte>, i: nat): (r: seq<nat>)
    requires NoNul(s) && i <= |s|
    ensures |r| == CountFrom(s, i)
    decreases |s| - i
  {
    if i == |s| then []
    else
      NextInside(s, i);
      [CharAt(s, i)] + DecodeFrom(s, Next(s, i))
  }

  function Decode(s: seq<Byte>): seq<nat>
    requires NoNul(s)
  {
    DecodeFrom(s, 0)
  }

  // ---- encoding

  /** u_char_size */
  function CharSize(u: nat): nat {
    if u <= 0x7f then 1 else if u <= 0x7ff then 2 else if u <= 0xffff then 3 else if u <= MAX_UNICODE then 4 else 1
  }

  /** The bytes u_set_char_raw writes. */
  function EncodeChar(u: nat): (r: seq<Byte>)
    ensures |r| == CharSize(u)
  {
    if u <= 0x7f then [u]
    else if u <= 0x7ff then [0xc0 + u / 64, 0x80 + u % 64]
    else if u <= 0xffff then [0xe0 + u / 4096, 0x80 + u / 64 % 64, 0x80 + u % 64]
    else if u <= MAX_UNICODE then [0xf0 + u / 262144, 0x80 + u / 4096 % 64, 0x80 + u / 64 % 64, 0x80 + u % 64]
    else [u % 256]
  }

  function Encode(us: seq<nat>): seq<Byte> {
    if us == [] then [] else EncodeChar(us[0]) + Encode(us[1..])
  }

  /** The byte sequence at i is the one u_set_char_raw would write for its value: it is not
      overlong and not beyond 0x10ffff. */
  predicate CanonicalAt(s: seq<Byte>, i: nat) {
    SeqAt(s, i) ==> CharSize(CharAt(s, i)) == Step(s, i)
  }

  predicate CanonicalFrom(s: seq<Byte>, i: nat)
    requires NoNul(s) && i <= |s|
    decreases |s| - i
  {
    i == |s| || (CanonicalAt(s, i) && (NextInside(s, i); CanonicalFrom(s, Next(s, i))))
  }

  /** u_is_valid: only complete sequences, with values in the range of their length. */
  predicate ValidFrom(s: seq<Byte>, i: nat)
    requires NoNul(s) && i <= |s|
    decreases |s| - i
  {
    i == |s| || (SeqAt(s, i) && CharSize(CharAt(s, i)) == Step(s, i) && (NextInside(s, i); ValidFrom(s, Next(s, i))))
  }

  predicate Valid(s: seq<Byte>)
    requires NoNul(s)
  {
    ValidFrom(s, 0)
  }

  // ---- decoding undoes encoding

  lemma Bits1(s: seq<Byte>, u: nat, i: nat)
    ensures Bits(s, u, i, 0) == u
    ensures Bits(s, u, i, 1) == 64 * u + At(s, i) % 64
    ensures Bits(s, u, i, 2) == 64 * (64 * u + At(s, i) % 64) + At(s, i + 1) % 64
    ensures Bits(s, u, i, 3) == 64 * (64 * (64 * u + At(s, i) % 64) + At(s, i + 1) % 64) + At(s, i + 2) % 64
  {
    var a := 64 * u + At(s, i) % 64;
    var b := 64 * a + At(s, i + 1) % 64;
    assert Bits(s, b, i + 2, 1) == 64 * b + At(s, i + 2) % 64;
    assert Bits(s, a, i + 1, 2) == Bits(s, b, i + 2, 1);
    assert Bits(s, a, i + 1, 1) == b;
  }

  lemma Base64Digits(u: nat)
    ensures u == 64 * (u / 64) + u % 64
    ensures u == 64 * (64 * (u / 4096) + u / 64 % 64) + u % 64
    ensures u == 64 * (64 * (64 * (u / 262144) + u / 4096 % 64) + u / 64 % 64) + u % 64
  {
    assert u / 64 / 64 == u / 4096;
    assert u / 4096 / 64 == u / 262144;
  }

  lemma LeadBytes(u: nat)
    ensures 0x7f < u <= 0x7ff ==> LenTab(0xc0 + u / 64) == 2 && FirstBits(0xc0 + u / 64, 2) == u / 64
    ensures 0x7ff < u <= 0xffff ==> LenTab(0xe0 + u / 4096) == 3 && FirstBits(0xe0 + u / 4096, 3) == u / 4096
    ensures 0xffff < u <= MAX_UNICODE ==>
              LenTab(0xf0 + u / 262144) == 4 && FirstBits(0xf0 + u / 262144, 4) == u / 262144
  {
  }

  lemma ContByte(d: nat)
    requires d < 64
    ensures Cont(0x80 + d) && (0x80 + d) % 64 == d
  {
  }

  lemma EncodedIsSeq(s: seq<Byte>, i: nat, u: nat)
    requires u <= MAX_UNICODE && i + CharSize(u) <= |s| && s[i..i + CharSize(u)] == EncodeChar(u)
    ensures SeqAt(s, i) && Step(s, i) == CharSize(u)
    ensures forall k :: 0 <= k < |EncodeChar(u)| ==> At(s, i + k) == EncodeChar(u)[k]
  {
    var e := EncodeChar(u);
    forall k | 0 <= k < |e| ensures At(s, i + k) == e[k] {
      assert s[i + k] == s[i..i + CharSize(u)][k];
    }
    LeadBytes(u);
    ContByte(u % 64);
    ContByte(u / 64 % 64);
    ContByte(u / 4096 % 64);
    assert At(s, i) == e[0] && LenTab(e[0]) == CharSize(u);
    forall k | i + 1 <= k < i + CharSize(u) ensures Cont(At(s, k)) {
      assert At(s, k) == e[k - i];
    }
  }

  lemma CharAt2(s: seq<Byte>, i: nat, u: nat)
    requires 0x7f < u <= 0x7ff && SeqAt(s, i) && Step(s, i) == 2
    requires At(s, i) == 0xc0 + u / 64 && At(s, i + 1) == 0x80 + u % 64
    ensures CharAt(s, i) == u
  {
    LeadBytes(u);
    hide SeqAt, Step, LenTab;
    Bits1(s, u / 64, i + 1);
  }

  lemma CharAt3(s: seq<Byte>, i: nat, u: nat)
    requires 0x7ff < u <= 0xffff && SeqAt(s, i) && Step(s, i) == 3
    requires At(s, i) == 0xe0 + u / 4096 && At(s, i + 1) == 0x80 + u / 64 % 64 && At(s, i + 2) == 0x80 + u % 64
    ensures CharAt(s, i) == u
  {
    LeadBytes(u);
    hide SeqAt, Step, LenTab;
    Bits1(s, u / 4096, i + 1);
    ContByte(u / 64 % 64);
    Base64Digits(u);
  }

  lemma CharAt4(s: seq<Byte>, i: nat, u: nat)
    requires 0xffff < u <= MAX_UNICODE && SeqAt(s, i) && Step(s, i) == 4
    requires At(s, i) == 0xf0 + u / 262144 && At(s, i + 1) == 0x80 + u / 4096 % 64
    requires At(s, i + 2) == 0x80 + u / 64 % 64 && At(s, i + 3) == 0x80 + u % 64
    ensures CharAt(s, i) == u
  {
    LeadBytes(u);
    hide SeqAt, Step, LenTab;
    Bits1(s, u / 262144, i + 1);
    ContByte(u / 64 % 64);
    ContByte(u / 4096 % 64);
    Base64Digits(u);
  }

  /** Where the encoding of u stands, u is read. */
  lemma CharAtEncoded(s: seq<Byte>, i: nat, u: nat)
    requires u <= MAX_UNICODE && i + CharSize(u) <= |s| && s[i..i + CharSize(u)] == EncodeChar(u)
    ensures SeqAt(s, i) && Step(s, i) == CharSize(u) && CharAt(s, i) == u
  {
    EncodedIsSeq(s, i, u);
    hide SeqAt, Step, LenTab, Bits, FirstBits, At;
    var n := CharSize(u);
    assert At(s, i + 0) == EncodeChar(u)[0];
    if n == 1 {
      OneByteChar(s, i);
    } else if n == 2 {
      CharAt2(s, i, u);
    } else if n == 3 {
      CharAt3(s, i, u);
    } else {
      CharAt4(s, i, u);
    }
  }

  lemma OneByteChar(s: seq<Byte>, i: nat)
    requires SeqAt(s, i) && Step(s, i) == 1
    ensures CharAt(s, i) == At(s, i)
  {
  }

  ghost predicate UnicodeText(us: seq<nat>) {
    forall k :: 0 <= k < |us| ==> 0 < us[k] <= MAX_UNICODE
  }

  lemma EncodeCharNoNul(u: nat)
    requires 0 < u <= MAX_UNICODE
    ensures NoNul(EncodeChar(u))
  {
  }

  lemma {:induction false} EncodeNoNul(us: seq<nat>)
    requires UnicodeText(us)
    ensures NoNul(Encode(us))
  {
    if us != [] {
      EncodeCharNoNul(us[0]);
      EncodeNoNul(us[1..]);
    }
  }

  /** One encoded character further on. */
  lemma DecodeStep(s: seq<Byte>, i: nat, u: nat)
    requires NoNul(s) && u <= MAX_UNICODE && i + CharSize(u) <= |s|
    requires s[i..i + CharSize(u)] == EncodeChar(u)
    ensures DecodeFrom(s, i) == [u] + DecodeFrom(s, i + CharSize(u))
    ensures ValidFrom(s, i) <==> ValidFrom(s, i + CharSize(u))
  {
    hide EncodeChar, CharAt, SeqAt, Step;
    CharAtEncoded(s, i, u);
  }

  lemma EncodedTail(s: seq<Byte>, i: nat, us: seq<nat>)
    requires i <= |s| && us != [] && s[i..] == Encode(us)
    ensures var n := CharSize(us[0]);
            i + n <= |s| && s[i..i + n] == EncodeChar(us[0]) && s[i + n..] == Encode(us[1..])
  {
    hide *;
    EncodeCons(us[0], us[1..]);
    HeadAndTail(us);
    PartsAt(s, i, EncodeChar(us[0]), Encode(us[1..]));
  }

  lemma HeadAndTail(us: seq<nat>)
    requires us != []
    ensures us == [us[0]] + us[1..]
  {
  }

  lemma EncodeCons(c: nat, us: seq<nat>)
    ensures Encode([c] + us) == EncodeChar(c) + Encode(us)
  {
    assert ([c] + us)[1..] == us;
  }

  lemma SliceOfRest(s: seq<Byte>, i: nat, n: nat)
    requires i <= |s| && n <= |s[i..]|
    ensures i + n <= |s| && s[i..][..n] == s[i..i + n] && s[i..][n..] == s[i + n..]
  {
  }

  lemma PartsAt(s: seq<Byte>, i: nat, a: seq<Byte>, b: seq<Byte>)
    requires i <= |s| && s[i..] == a + b
    ensures i + |a| <= |s| && s[i..i + |a|] == a && s[i + |a|..] == b
  {
    SliceOfRest(s, i, |a|);
    assert (a + b)[..|a|] == a && (a + b)[|a|..] == b;
  }

  lemma {:induction false} DecodeEncodedTail(s: seq<Byte>, i: nat, us: seq<nat>)
    requires UnicodeText(us) && NoNul(s) && i <= |s| && s[i..] == Encode(us)
    ensures DecodeFrom(s, i) == us && ValidFrom(s, i)
    decreases |us|
  {
    hide DecodeFrom, ValidFrom, Encode, EncodeChar, CharSize;
    if us == [] {
      DecodeNothing(s, i);
    } else {
      var n := CharSize(us[0]);
      EncodedTail(s, i, us);
      DecodeEncodedTail(s, i + n, us[1..]);
      DecodeStep(s, i, us[0]);
      assert us == [us[0]] + us[1..];
    }
  }

  lemma DecodeNothing(s: seq<Byte>, i: nat)
    requires NoNul(s) && i <= |s| && s[i..] == Encode([])
    ensures i == |s| && DecodeFrom(s, i) == [] && ValidFrom(s, i)
  {
    assert |s[i..]| == 0;
  }

  /** For all code points but NUL: the encoding is valid UTF-8 and decodes to the same text. */
  lemma DecodeUndoesEncode(us: seq<nat>)
    requires UnicodeText(us)
    ensures NoNul(Encode(us)) && Valid(Encode(us)) && Decode(Encode(us)) == us
  {
    EncodeNoNul(us);
    assert Encode(us)[0..] == Encode(us);
    DecodeEncodedTail(Encode(us), 0, us);
  }

  // ---- encoding undoes decoding, exactly for canonical strings

  lemma Base64Join(x: nat, d: nat)
    requires d < 64
    ensures (64 * x + d) / 64 == x && (64 * x + d) % 64 == d
    ensures (64 * x + d) / 4096 == x / 64 && (64 * x + d) / 262144 == x / 4096
  {
  }

  lemma ContBits(b: Byte)
    requires Cont(b)
    ensures b % 64 == b - 128 && 128 <= b < 192
  {
  }

  lemma SeqBytes(s: seq<Byte>, i: nat, n: nat)
    requires SeqAt(s, i) && LenTab(At(s, i)) == n
    ensures AllCont(s, i + 1, i + n)
    ensures CharAt(s, i) == Bits(s, FirstBits(At(s, i), n), i + 1, n - 1)
  {
  }

  lemma Value2(s: seq<Byte>, i: nat)
    requires SeqAt(s, i) && LenTab(At(s, i)) == 2
    ensures var a, d := At(s, i) - 192, At(s, i + 1) - 128;
            0 <= a < 32 && 0 <= d < 64 && CharAt(s, i) == 64 * a + d
  {
    SeqBytes(s, i, 2);
    ContBits(At(s, i + 1));
    Bits1(s, At(s, i) - 192, i + 1);
  }

  lemma Value3(s: seq<Byte>, i: nat)
    requires SeqAt(s, i) && LenTab(At(s, i)) == 3
    ensures var a, c, d := At(s, i) - 224, At(s, i + 1) - 128, At(s, i + 2) - 128;
            0 <= a < 16 && 0 <= c < 64 && 0 <= d < 64 && CharAt(s, i) == 64 * (64 * a + c) + d
  {
    SeqBytes(s, i, 3);
    ContBits(At(s, i + 1));
    ContBits(At(s, i + 2));
    Bits1(s, At(s, i) - 224, i + 1);
  }

  lemma Value4(s: seq<Byte>, i: nat)
    requires SeqAt(s, i) && LenTab(At(s, i)) == 4
    ensures var a, b, c, d := At(s, i) - 240, At(s, i + 1) - 128, At(s, i + 2) - 128, At(s, i + 3) - 128;
            0 <= a < 5 && 0 <= b < 64 && 0 <= c < 64 && 0 <= d < 64
            && CharAt(s, i) == 64 * (64 * (64 * a + b) + c) + d
  {
    SeqBytes(s, i, 4);
    ContBits(At(s, i + 1));
    ContBits(At(s, i + 2));
    ContBits(At(s, i + 3));
    Bits1(s, At(s, i) - 240, i + 1);
  }

  lemma Reencode2(a: nat, d: nat, u: nat)
    requires a < 32 && d < 64 && u == 64 * a + d
    ensures |EncodeChar(u)| <= 2 && (|EncodeChar(u)| == 2 ==> EncodeChar(u) == [192 + a, 128 + d])
  {
    Base64Join(a, d);
  }

  lemma Reencode3(a: nat, c: nat, d: nat, u: nat)
    requires a < 16 && c < 64 && d < 64 && u == 64 * (64 * a + c) + d
    ensures |EncodeChar(u)| <= 3 && (|EncodeChar(u)| == 3 ==> EncodeChar(u) == [224 + a, 128 + c, 128 + d])
  {
    Base64Join(64 * a + c, d);
    Base64Join(a, c);
  }

  lemma Reencode4(a: nat, b: nat, c: nat, d: nat, u: nat)
    requires a < 5 && b < 64 && c < 64 && d < 64 && u == 64 * (64 * (64 * a + b) + c) + d
    ensures |EncodeChar(u)| <= 4
    ensures |EncodeChar(u)| == 4 ==> EncodeChar(u) == [240 + a, 128 + b, 128 + c, 128 + d]
  {
    Base64Join(64 * (64 * a + b) + c, d);
    Base64Join(64 * a + b, c);
    Base64Join(a, b);
  }

  /** One character is written back as it was read, or shorter. */
  lemma ReencodeChar(s: seq<Byte>, i: nat)
    requires NoNul(s) && i < |s|
    ensures Next(s, i) <= |s|
    ensures var e := EncodeChar(CharAt(s, i));
            |e| <= Step(s, i) && (|e| == Step(s, i) <==> CanonicalAt(s, i))
            && (CanonicalAt(s, i) ==> e == s[i..Next(s, i)])
  {
    NextInside(s, i);
    var u, n := CharAt(s, i), Step(s, i);
    if SeqAt(s, i) {
      hide CharAt, EncodeChar;
      StepBytes(s, i);
      if n == 1 {
        Reencode1(s, i);
      } else if n == 2 {
        Value2(s, i);
        Reencode2(At(s, i) - 192, At(s, i + 1) - 128, u);
      } else if n == 3 {
        Value3(s, i);
        Reencode3(At(s, i) - 224, At(s, i + 1) - 128, At(s, i + 2) - 128, u);
      } else {
        Value4(s, i);
        Reencode4(At(s, i) - 240, At(s, i + 1) - 128, At(s, i + 2) - 128, At(s, i + 3) - 128, u);
      }
    } else {
      assert u % 256 == s[i];
    }
  }

  lemma StepBytes(s: seq<Byte>, i: nat)
    requires i < |s| && Next(s, i) <= |s|
    ensures s[i..Next(s, i)] == seq(Step(s, i), k requires 0 <= k < Step(s, i) => At(s, i + k))
  {
  }

  lemma Reencode1(s: seq<Byte>, i: nat)
    requires SeqAt(s, i) && LenTab(At(s, i)) == 1
    ensures EncodeChar(CharAt(s, i)) == [At(s, i)]
  {
  }

  lemma {:induction false} ReencodeFrom(s: seq<Byte>, i: nat)
    requires NoNul(s) && i <= |s|
    ensures if CanonicalFrom(s, i) then Encode(DecodeFrom(s, i)) == s[i..]
            else |Encode(DecodeFrom(s, i))| < |s| - i
    decreases |s| - i
  {
    hide CharAt, EncodeChar, CanonicalAt, Step;
    if i < |s| {
      var j := Next(s, i);
      ReencodeChar(s, i);
      ReencodeFrom(s, j);
      var us := DecodeFrom(s, i);
      assert us[1..] == DecodeFrom(s, j);
      assert s[i..] == s[i..j] + s[j..];
    }
  }

  /** Writing back what was read gives the same bytes exactly when the string has no
      overlong sequence and none beyond 0x10ffff; invalid bytes do not matter. */
  lemma EncodeUndoesDecodeIff(s: seq<Byte>)
    requires NoNul(s)
    ensures Encode(Decode(s)) == s <==> CanonicalFrom(s, 0)
  {
    ReencodeFrom(s, 0);
    assert s[0..] == s;
  }

  lemma OverlongChar(s: seq<Byte>)
    requires s == [0xC1, 0x81]
    ensures NoNul(s) && Step(s, 0) == 2 && CharAt(s, 0) == 0x41
  {
    assert At(s, 0) == 0xC1 && At(s, 1) == 0x81;
    assert LenTab(0xC1) == 2 && Cont(0x81);
    assert AllCont(s, 1, 2);
    assert Bits(s, 1, 1, 1) == Bits(s, 65, 2, 0) == 65;
  }

  lemma DecodeOne(s: seq<Byte>, u: nat)
    requires NoNul(s) && s != [] && Step(s, 0) == |s| && CharAt(s, 0) == u
    ensures Decode(s) == [u]
  {
    hide Step, CharAt;
    assert DecodeFrom(s, |s|) == [];
  }

  lemma EncodeA()
    ensures Encode([0x41]) == [0x41]
  {
    assert EncodeChar(0x41) == [0x41] && [0x41][1..] == [];
  }

  /** The overlong form of A is written back as A. */
  lemma OverlongExample()
    ensures NoNul([0xC1, 0x81]) && Encode(Decode([0xC1, 0x81])) == [0x41]
  {
    hide Step, CharAt, Encode, Decode;
    OverlongChar([0xC1, 0x81]);
    DecodeOne([0xC1, 0x81], 0x41);
    EncodeA();
  }

  lemma {:induction false} ValidIsCanonical(s: seq<Byte>, i: nat)
    requires NoNul(s) && i <= |s| && ValidFrom(s, i)
    ensures CanonicalFrom(s, i) && UnicodeText(DecodeFrom(s, i))
    decreases |s| - i
  {
    if i < |s| {
      NextInside(s, i);
      ValidIsCanonical(s, Next(s, i));
      ReencodeChar(s, i);
      ValidChar(s, i);
    }
  }

  /** A valid character is a code point other than NUL. */
  lemma ValidChar(s: seq<Byte>, i: nat)
    requires NoNul(s) && i < |s| && SeqAt(s, i) && CharSize(CharAt(s, i)) == Step(s, i)
    ensures 0 < CharAt(s, i) <= MAX_UNICODE
  {
    if Step(s, i) == 1 {
      Reencode1(s, i);
    }
  }

  /** Every string that u_is_valid accepts consists of code points and is reproduced. */
  lemma ValidRoundTrip(s: seq<Byte>)
    requires NoNul(s) && Valid(s)
    ensures UnicodeText(Decode(s)) && Encode(Decode(s)) == s
  {
    ValidIsCanonical(s, 0);
    EncodeUndoesDecodeIff(s);
  }

  // ---- against the standard

  /** The examples of section 7 of RFC 3629. */
  lemma StandardExamples()
    ensures EncodeChar(0x41) == [0x41] && EncodeChar(0x2262) == [0xE2, 0x89, 0xA2]
    ensures EncodeChar(0x391) == [0xCE, 0x91] && EncodeChar(0x2E) == [0x2E]
    ensures EncodeChar(0xD55C) == [0xED, 0x95, 0x9C] && EncodeChar(0x65E5) == [0xE6, 0x97, 0xA5]
    ensures EncodeChar(0xFEFF) == [0xEF, 0xBB, 0xBF] && EncodeChar(0x233B4) == [0xF0, 0xA3, 0x8E, 0xB4]
  {
  }

  /** a comes before b byte by byte, and neither is a start of the other. */
  predicate Precedes(a: seq<Byte>, b: seq<Byte>, k: nat) {
    k < |a| && k < |b| && a[..k] == b[..k] && a[k] < b[k]
  }

  lemma DifferAt(a: seq<Byte>, b: seq<Byte>, k: nat)
    requires k < |a| && k < |b| && a[k] < b[k] && k <= 3
    requires (k > 0 ==> a[0] == b[0]) && (k > 1 ==> a[1] == b[1]) && (k > 2 ==> a[2] == b[2])
    ensures Precedes(a, b, k)
  {
    assert forall i :: 0 <= i < k ==> a[i] == b[i];
  }

  lemma LongerIsGreater(u: nat, v: nat)
    requires u < v <= MAX_UNICODE && CharSize(u) < CharSize(v)
    ensures EncodeChar(u)[0] < EncodeChar(v)[0]
  {
  }

  lemma SameLength2(u: nat, v: nat) returns (k: nat)
    requires 0x7f < u < v <= 0x7ff
    ensures Precedes(EncodeChar(u), EncodeChar(v), k)
  {
    k := if u / 64 < v / 64 then 0 else 1;
    DifferAt(EncodeChar(u), EncodeChar(v), k);
  }

  lemma SameLength3(u: nat, v: nat) returns (k: nat)
    requires 0x7ff < u < v <= 0xffff
    ensures Precedes(EncodeChar(u), EncodeChar(v), k)
  {
    Base64Digits(u);
    Base64Digits(v);
    k := if u / 4096 < v / 4096 then 0 else if u / 64 % 64 < v / 64 % 64 then 1 else 2;
    DifferAt(EncodeChar(u), EncodeChar(v), k);
  }

  lemma SameLength4(u: nat, v: nat) returns (k: nat)
    requires 0xffff < u < v <= MAX_UNICODE
    ensures Precedes(EncodeChar(u), EncodeChar(v), k)
  {
    Base64Digits(u);
    Base64Digits(v);
    k := if u / 262144 < v / 262144 then 0 else if u / 4096 % 64 < v / 4096 % 64 then 1
         else if u / 64 % 64 < v / 64 % 64 then 2 else 3;
    DifferAt(EncodeChar(u), EncodeChar(v), k);
  }

  /** The order of the bytes is the order of the code points (section 1 of RFC 3629). */
  lemma EncodeKeepsOrder(u: nat, v: nat) returns (k: nat)
    requires u < v <= MAX_UNICODE
    ensures Precedes(EncodeChar(u), EncodeChar(v), k)
  {
    hide EncodeChar;
    k := 0;
    if CharSize(u) < CharSize(v) {
      LongerIsGreater(u, v);
      DifferAt(EncodeChar(u), EncodeChar(v), 0);
    } else if v <= 0x7f {
      OneByte(u, v);
    } else if v <= 0x7ff {
      k := SameLength2(u, v);
    } else if v <= 0xffff {
      k := SameLength3(u, v);
    } else {
      k := SameLength4(u, v);
    }
  }

  lemma OneByte(u: nat, v: nat)
    requires u < v <= 0x7f
    ensures Precedes(EncodeChar(u), EncodeChar(v), 0)
  {
  }
}
