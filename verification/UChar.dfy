/** The loops of uchar.c. */
module UChar {
  import opened Bytes
  import opened Utf8

  /** u_get_char */
  method GetChar(s: seq<Byte>, idx: nat) returns (next: nat, u: nat)
    ensures next == Next(s, idx) && u == CharAt(s, idx)
  {
    var ch := At(s, idx);
    var i, len := idx + 1, LenTab(ch);
    if len < 1 {
      return idx + 1, ch + U_INVALID_MASK;
    }
    ghost var total := len - 1;
    u := FirstBits(ch, len);
    ghost var all := Bits(s, u, i, total);
    len := len - 1;
    while len > 0
      invariant 0 <= len <= total && i == idx + 1 + (total - len)
      invariant AllCont(s, idx + 1, i)
      invariant Bits(s, u, i, len) == all
      decreases len
    {
      ch := At(s, i);
      if LenTab(ch) != 0 {
        return idx + 1, At(s, idx) + U_INVALID_MASK;
      }
      i := i + 1;
      u := 64 * u + ch % 64;
      len := len - 1;
    }
    next := i;
  }

  /** u_strlen: the number of steps from the start to the NUL. */
  method StrLen(s: seq<Byte>) returns (len: nat)
    requires NoNul(s)
    ensures len == CountFrom(s, 0)
  {
    var i := 0;
    len := 0;
    while At(s, i) != 0
      invariant 0 <= i <= |s| && len + CountFrom(s, i) == CountFrom(s, 0)
      decreases |s| - i
    {
      NextInside(s, i);
      var l := LenTab(At(s, i));
      if l > 1 {
        var c := 1;
        while c < l && Cont(At(s, i + c))
          invariant 1 <= c <= l && AllCont(s, i + 1, i + c)
        {
          c := c + 1;
        }
        if c == l {
          i := i + l;
          len := len + 1;
          continue;
        }
      }
      assert Step(s, i) == 1;
      i := i + 1;
      len := len + 1;
    }
  }

  /** u_prev_char_pos */
  method PrevCharPos(s: seq<Byte>, idx: nat) returns (prev: nat)
    requires idx > 0
    ensures prev == Prev(s, idx)
  {
    var i := idx - 1;
    var len := LenTab(At(s, i));
    if len != 0 {
      return idx - 1;
    }
    var c := 1;
    while i > 0
      invariant 1 <= c <= 3 && i == idx - c
      invariant BackToLead(s, idx, 0) == BackToLead(s, idx, c)
    {
      i := i - 1;
      len := LenTab(At(s, i));
      c := c + 1;
      if len == 0 {
        if c < 4 { continue; }
        break;
      }
      if len != c {
        break;
      }
      return i;
    }
    prev := idx - 1;
  }

  /** min_val and max_val, by sequence length */
  function MinVal(len: int): nat
    requires 1 <= len <= 4
  {
    [0x0, 0x80, 0x800, 0x1_0000][len - 1]
  }

  function MaxVal(len: int): nat
    requires 1 <= len <= 4
  {
    [0x7f, 0x7ff, 0xffff, 0x10_ffff][len - 1]
  }

  /** u_is_valid */
  method IsValid(s: seq<Byte>) returns (valid: bool)
    requires NoNul(s)
    ensures valid <==> Valid(s)
  {
    var i := 0;
    while At(s, i) != 0
      invariant 0 <= i <= |s| && (ValidFrom(s, i) <==> Valid(s))
      decreases |s| - i
    {
      NextInside(s, i);
      var start := i;
      var len := LenTab(At(s, i));
      i := i + 1;
      if len <= 0 {
        return false;
      }
      if len > 1 {
        var ok, u := CheckSequence(s, start);
        if !ok {
          return false;
        }
        i := start + len;
        if u < MinVal(len) || u > MaxVal(len) {
          return false;
        }
      } else {
        AsciiIsValid(s, start);
      }
    }
    valid := true;
  }

  lemma AsciiIsValid(s: seq<Byte>, i: nat)
    requires LenTab(At(s, i)) == 1
    ensures SeqAt(s, i) && Step(s, i) == 1 && CharSize(CharAt(s, i)) == 1
  {
  }

  /** The inner loop of u_is_valid: the continuation bytes and the value. */
  method CheckSequence(s: seq<Byte>, start: nat) returns (ok: bool, u: nat)
    requires LenTab(At(s, start)) > 1
    ensures ok <==> SeqAt(s, start)
    ensures ok ==> u == CharAt(s, start)
  {
    var len := LenTab(At(s, start)) - 1;
    u := FirstBits(At(s, start), len + 1);
    ghost var all := Bits(s, u, start + 1, len);
    var c, i := len, start + 1;
    while c > 0
      invariant 0 <= c <= len && i == start + 1 + (len - c)
      invariant AllCont(s, start + 1, i) && Bits(s, u, i, c) == all
    {
      var ch := At(s, i);
      i := i + 1;
      if LenTab(ch) != 0 {
        return false, u;
      }
      u := 64 * u + ch % 64;
      c := c - 1;
    }
    ok := true;
  }

  /** u_set_char_raw: writes the encoding at idx and returns the position behind it. */
  method SetCharRaw(str: array<Byte>, idx: nat, uch: nat) returns (next: nat)
    requires idx + CharSize(uch) <= str.Length
    modifies str
    ensures next == idx + CharSize(uch)
    ensures str[idx..next] == EncodeChar(uch)
    ensures str[..idx] == old(str[..idx]) && str[next..] == old(str[next..])
  {
    var i, u := idx, uch;
    if u <= 0x7f {
      str[i] := u;
      i := i + 1;
    } else if u <= 0x7ff {
      str[i + 1] := u % 64 + 0x80;
      u := u / 64;
      str[i] := u + 0xc0;
      i := i + 2;
    } else if u <= 0xffff {
      str[i + 2] := u % 64 + 0x80;
      u := u / 64;
      str[i + 1] := u % 64 + 0x80;
      u := u / 64;
      assert u == uch / 4096;
      str[i] := u + 0xe0;
      i := i + 3;
    } else if u <= MAX_UNICODE {
      str[i + 3] := u % 64 + 0x80;
      u := u / 64;
      str[i + 2] := u % 64 + 0x80;
      u := u / 64;
      assert u == uch / 4096;
      str[i + 1] := u % 64 + 0x80;
      u := u / 64;
      assert u == uch / 262144;
      str[i] := u + 0xf0;
      i := i + 4;
    } else {
      str[i] := u % 256;
      i := i + 1;
    }
    next := i;
  }
}
