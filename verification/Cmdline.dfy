/** The line editor of cmdline.c, a client of the UTF-8 stepping functions. */
module Cmdline {
  import opened Bytes
  import opened Utf8
  import opened UChar
  import Sequences

  // ---- positions in an encoded text

  lemma {:induction false} EncodeConcat(a: seq<nat>, b: seq<nat>)
    ensures Encode(a + b) == Encode(a) + Encode(b)
  {
    hide EncodeChar;
    if a == [] {
      assert a + b == b;
    } else {
      EncodeConcat(a[1..], b);
      assert (a + b)[1..] == a[1..] + b && (a + b)[0] == a[0];
      Sequences.Assoc(EncodeChar(a[0]), Encode(a[1..]), Encode(b));
    }
  }

  lemma EncodeOne(u: nat)
    ensures Encode([u]) == EncodeChar(u)
  {
    assert [u][1..] == [];
    assert EncodeChar(u) + [] == EncodeChar(u);
  }

  lemma UnicodeConcat(a: seq<nat>, b: seq<nat>)
    ensures UnicodeText(a + b) <==> UnicodeText(a) && UnicodeText(b)
  {
    assert forall k :: 0 <= k < |a| ==> (a + b)[k] == a[k];
    assert forall k :: 0 <= k < |b| ==> (a + b)[|a| + k] == b[k];
  }

  /** The end of the encoded left part is a character boundary. */
  lemma {:induction false} LeftEndReached(s: seq<Byte>, from: nat, left: seq<nat>, rest: seq<Byte>)
    requires UnicodeText(left) && from <= |s| && s[from..] == Encode(left) + rest
    ensures Reaches(s, from, from + |Encode(left)|)
    decreases |left|
  {
    hide Step, CharAt, EncodeChar, CharSize;
    if left != [] {
      var n := CharSize(left[0]);
      HeadAt(s, from, left, rest);
      LeftEndReached(s, from + n, left[1..], rest);
    }
  }

  /** The first character of an encoded text, seen from its position. */
  lemma HeadAt(s: seq<Byte>, i: nat, us: seq<nat>, rest: seq<Byte>)
    requires UnicodeText(us) && us != [] && i <= |s| && s[i..] == Encode(us) + rest
    ensures var n := CharSize(us[0]);
            i + n <= |s| && Next(s, i) == i + n && CharAt(s, i) == us[0]
            && s[i + n..] == Encode(us[1..]) + rest && |Encode(us)| == n + |Encode(us[1..])|
  {
    hide EncodeChar, CharSize, Step, CharAt;
    Sequences.Assoc(EncodeChar(us[0]), Encode(us[1..]), rest);
    PartsAt(s, i, EncodeChar(us[0]), Encode(us[1..]) + rest);
    CharAtEncoded(s, i, us[0]);
  }

  /** What the editor holds: the characters before and after the cursor. */
  datatype Text = Text(left: seq<nat>, right: seq<nat>)

  ghost predicate IsText(t: Text) {
    UnicodeText(t.left) && UnicodeText(t.right)
  }

  lemma EncodeSnoc(us: seq<nat>, c: nat)
    ensures Encode(us + [c]) == Encode(us) + EncodeChar(c)
    ensures UnicodeText(us + [c]) <==> UnicodeText(us) && 0 < c <= MAX_UNICODE
  {
    EncodeConcat(us, [c]);
    EncodeOne(c);
    UnicodeConcat(us, [c]);
  }

  lemma MiddlePart(a: seq<Byte>, b: seq<Byte>, c: seq<Byte>)
    ensures (a + (b + c))[|a|..|a| + |b|] == b
  {
  }

  /** Stepping back from behind c finds the position of c. */
  lemma PrevFindsLast(before: seq<nat>, c: nat, right: seq<nat>, line: seq<Byte>)
    requires UnicodeText(before + [c]) && line == Encode(before + [c]) + Encode(right)
    ensures var i := |Encode(before)|; Prev(line, i + CharSize(c)) == i
  {
    hide Encode, EncodeChar, CharSize, Prev, Step, CharAt, SeqAt, UnicodeText;
    EncodeSnoc(before, c);
    Sequences.Assoc(Encode(before), EncodeChar(c), Encode(right));
    var i := |Encode(before)|;
    assert line[0..] == line;
    LeftEndReached(line, 0, before, EncodeChar(c) + Encode(right));
    MiddlePart(Encode(before), EncodeChar(c), Encode(right));
    CharAtEncoded(line, i, c);
    PrevUndoesNext(line, i);
  }

  /** The character before the cursor, and where it starts. */
  lemma PrevOfCursor(t: Text, line: seq<Byte>)
    requires IsText(t) && t.left != [] && line == Encode(t.left) + Encode(t.right)
    ensures var n := |t.left| - 1;
            && t.left == t.left[..n] + [t.left[n]] && UnicodeText(t.left[..n])
            && Encode(t.left) == Encode(t.left[..n]) + EncodeChar(t.left[n])
            && |Encode(t.left)| > 0 && Prev(line, |Encode(t.left)|) == |Encode(t.left[..n])|
  {
    hide Encode, EncodeChar, Prev, UnicodeText;
    var n := |t.left| - 1;
    var before, c := t.left[..n], t.left[n];
    assert t.left == before + [c];
    EncodeSnoc(before, c);
    PrevFindsLast(before, c, t.right, line);
  }

  class CmdLine {
    var line: seq<Byte>   // without the terminating NUL
    var blen: nat
    var clen: nat
    var bpos: nat
    var cpos: nat
    ghost var text: Text

    /** The bytes encode the text, and the four counters match the cursor's split of it. */
    ghost predicate Valid()
      reads this
    {
      && IsText(text)
      && line == Encode(text.left) + Encode(text.right)
      && blen == |line| && bpos == |Encode(text.left)|
      && clen == |text.left| + |text.right| && cpos == |text.left|
    }

    /** cmdline_init */
    constructor ()
      ensures Valid() && text == Text([], [])
    {
      line, blen, clen, bpos, cpos := [], 0, 0, 0, 0;
      text := Text([], []);
    }

    /** cmdline_insert_ch */
    method InsertCh(ch: nat)
      requires Valid() && 0 < ch <= MAX_UNICODE
      modifies this
      ensures Valid() && text == Text(old(text.left) + [ch], old(text.right))
    {
      var size := CharSize(ch);
      line := line[..bpos] + EncodeChar(ch) + line[bpos..];
      bpos := bpos + size;
      cpos := cpos + 1;
      blen := blen + size;
      clen := clen + 1;
      EncodeSnoc(text.left, ch);
      text := Text(text.left + [ch], text.right);
    }

    /** cmdline_backspace */
    method Backspace()
      requires Valid()
      modifies this
      ensures Valid() && text.right == old(text.right)
      ensures text.left == if old(text.left) == [] then [] else old(text.left[..|text.left| - 1])
    {
      hide Encode, EncodeChar, CharSize, Prev, UnicodeText;
      if bpos == 0 {
        NothingLeft(text.left);
        return;
      }
      SomethingLeft(text.left);
      PrevOfCursor(text, line);
      var pos := PrevCharPos(line, bpos);
      var size := bpos - pos;
      ghost var n := |text.left| - 1;
      line := line[..pos] + line[bpos..];
      bpos := bpos - size;
      cpos := cpos - 1;
      blen := blen - size;
      clen := clen - 1;
      text := Text(text.left[..n], text.right);
    }

    /** cmdline_backspace_to_bol */
    method BackspaceToBol()
      requires Valid()
      modifies this
      ensures Valid() && text == Text([], old(text.right))
    {
      while bpos > 0
        invariant Valid() && text.right == old(text.right)
        decreases |text.left|
      {
        SomethingLeft(text.left);
        Backspace();
      }
      NothingLeft(text.left);
    }

    /** cmdline_delete_ch */
    method DeleteCh()
      requires Valid()
      modifies this
      ensures Valid() && text.left == old(text.left)
      ensures text.right == if old(text.right) == [] then [] else old(text.right[1..])
    {
      hide Encode, EncodeChar, CharSize, CharAt, Next;
      if bpos == blen {
        NothingLeft(text.right);
        return;
      }
      SomethingLeft(text.right);
      assert line[bpos..] == Encode(text.right) + [];
      HeadAt(line, bpos, text.right, []);
      var next, ch := GetChar(line, bpos);
      var size := CharSize(ch);
      blen := blen - size;
      clen := clen - 1;
      line := line[..bpos] + line[bpos + size..];
      text := Text(text.left, text.right[1..]);
    }

    /** cmdline_set_text, for valid UTF-8 */
    method SetText(t: seq<Byte>)
      requires NoNul(t) && Utf8.Valid(t)
      modifies this
      ensures Valid() && text == Text(Decode(t), [])
    {
      line := t;
      var n := StrLen(line);
      cpos, bpos, clen, blen := n, |t|, n, |t|;
      ValidRoundTrip(t);
      text := Text(Decode(t), []);
    }

    /** cmdline_clear */
    method Clear()
      modifies this
      ensures Valid() && text == Text([], [])
    {
      blen, clen, bpos, cpos, line := 0, 0, 0, 0, [];
      text := Text([], []);
    }

    /** cmdline_clear_end */
    method ClearEnd()
      requires Valid()
      modifies this
      ensures Valid() && text == Text(old(text.left), [])
    {
      line := line[..bpos];
      assert line == Encode(text.left);
      DecodeUndoesEncode(text.left);
      clen := StrLen(line);
      blen := |line|;
      text := Text(text.left, []);
    }

    /** cmdline_move_left */
    method MoveLeft()
      requires Valid()
      modifies this
      ensures Valid()
      ensures var t := old(text);
              text == if t.left == [] then t
                      else Text(t.left[..|t.left| - 1], [t.left[|t.left| - 1]] + t.right)
    {
      hide Encode, EncodeChar, CharSize, Prev, UnicodeText;
      if bpos > 0 {
        SomethingLeft(text.left);
        PrevOfCursor(text, line);
        cpos := cpos - 1;
        bpos := PrevCharPos(line, bpos);
        ghost var n := |text.left| - 1;
        MoveOver(text.left[..n], text.left[n], text.right);
        text := Text(text.left[..n], [text.left[n]] + text.right);
      } else {
        NothingLeft(text.left);
      }
    }

    /** cmdline_move_right */
    method MoveRight()
      requires Valid()
      modifies this
      ensures Valid()
      ensures var t := old(text);
              text == if t.right == [] then t else Text(t.left + [t.right[0]], t.right[1..])
    {
      if bpos < blen {
        SomethingLeft(text.right);
        assert line[bpos..] == Encode(text.right) + [];
        HeadAt(line, bpos, text.right, []);
        var ch;
        bpos, ch := GetChar(line, bpos);
        cpos := cpos + 1;
        MoveOver(text.left, text.right[0], text.right[1..]);
        assert text.right == [text.right[0]] + text.right[1..];
        text := Text(text.left + [text.right[0]], text.right[1..]);
      } else {
        NothingLeft(text.right);
      }
    }

    /** cmdline_move_home */
    method MoveHome()
      requires Valid()
      modifies this
      ensures Valid() && text == Text([], old(text.left + text.right))
    {
      cpos, bpos := 0, 0;
      EncodeConcat(text.left, text.right);
      UnicodeConcat(text.left, text.right);
      text := Text([], text.left + text.right);
    }

    /** cmdline_move_end */
    method MoveEnd()
      requires Valid()
      modifies this
      ensures Valid() && text == Text(old(text.left + text.right), [])
    {
      cpos, bpos := clen, blen;
      EncodeConcat(text.left, text.right);
      UnicodeConcat(text.left, text.right);
      text := Text(text.left + text.right, []);
    }
  }

  lemma NothingLeft(us: seq<nat>)
    requires |Encode(us)| == 0
    ensures us == []
  {
  }

  lemma SomethingLeft(us: seq<nat>)
    requires |Encode(us)| > 0
    ensures us != []
  {
  }

  /** The same bytes, with the character c on either side of the cursor. */
  lemma MoveOver(left: seq<nat>, c: nat, right: seq<nat>)
    ensures Encode(left + [c]) + Encode(right) == Encode(left) + Encode([c] + right)
    ensures |Encode(left + [c])| == |Encode(left)| + CharSize(c)
    ensures UnicodeText(left + [c]) && UnicodeText(right) <==> UnicodeText(left) && UnicodeText([c] + right)
  {
    EncodeSnoc(left, c);
    EncodeCons(c, right);
    UnicodeConcat([c], right);
    Sequences.Assoc(Encode(left), EncodeChar(c), Encode(right));
  }
}
