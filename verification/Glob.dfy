/** glob.c: compiling a pattern, simplifying the compiled list in place, and the
    backtracking matcher. */
module Glob {
  import opened GlobLanguage
  import Sequences

  lemma AtomsStep(pattern: string, i: nat)
    requires i < |pattern|
    ensures var rest := Atoms(pattern[i..]);
            if pattern[i] == '*' then rest == [AnySeq] + Atoms(pattern[i + 1..])
            else if pattern[i] == '?' then rest == [Any] + Atoms(pattern[i + 1..])
            else if pattern[i] == '\\' && i + 1 < |pattern| then rest == [Lit(pattern[i + 1])] + Atoms(pattern[i + 2..])
            else rest == [Lit(pattern[i])] + Atoms(pattern[i + 1..])
  {
    assert pattern[i..][1..] == pattern[i + 1..];
    if i + 1 < |pattern| {
      assert pattern[i..][2..] == pattern[i + 2..];
    }
  }

  lemma LitsSnoc(s: string, c: char, rest: seq<Atom>)
    ensures Lits(s + [c]) + rest == Lits(s) + ([Lit(c)] + rest)
  {
  }

  /** The first inner loop of glob_compile: how far the text reaches and how long it is
      without its backslashes. */
  method ScanText(pattern: string, start: nat) returns (end: nat, len: nat, ghost g: string)
    requires start < |pattern| && pattern[start] != '*' && pattern[start] != '?'
    ensures start < end <= |pattern| && len == |g| > 0
    ensures Atoms(pattern[start..]) == Lits(g) + Atoms(pattern[end..])
  {
    end, len, g := start, 0, "";
    assert Lits("") + Atoms(pattern[start..]) == Atoms(pattern[start..]);
    while end < |pattern| && pattern[end] != '*' && pattern[end] != '?'
      invariant start <= end <= |pattern| && len == |g| && (end == start || len > 0)
      invariant Atoms(pattern[start..]) == Lits(g) + Atoms(pattern[end..])
    {
      AtomsStep(pattern, end);
      ghost var c := if pattern[end] == '\\' && end + 1 < |pattern| then pattern[end + 1] else pattern[end];
      if pattern[end] == '\\' {
        end := end + 1;
        len := len + 1;
        if end < |pattern| {
          end := end + 1;
        }
      } else {
        end := end + 1;
        len := len + 1;
      }
      LitsSnoc(g, c, Atoms(pattern[end..]));
      g := g + [c];
    }
  }

  lemma NextLit(g: string, str: string, x: seq<Atom>, y: seq<Atom>)
    requires Lits(g) + x == Lits(str) + y && |str| < |g|
    ensures y != [] && y[0] == Lit(g[|str|])
  {
    assert (Lits(g) + x)[|str|] == Lit(g[|str|]);
    assert (Lits(str) + y)[|str|] == y[0];
  }

  lemma SameLits(g: string, str: string, x: seq<Atom>, y: seq<Atom>)
    requires Lits(g) + x == Lits(str) + y && |str| == |g|
    ensures str == g && x == y
  {
    forall k | 0 <= k < |g| ensures str[k] == g[k] {
      assert (Lits(g) + x)[k] == Lit(g[k]) && (Lits(str) + y)[k] == Lit(str[k]);
    }
    assert (Lits(g) + x)[|g|..] == x && (Lits(str) + y)[|g|..] == y;
  }

  /** The second inner loop: copies the text without its backslashes. */
  method CopyText(pattern: string, start: nat, len: nat, ghost g: string, ghost rest: seq<Atom>)
    returns (str: string, i: nat)
    requires start <= |pattern| && len == |g| > 0 && Atoms(pattern[start..]) == Lits(g) + rest
    ensures start < i <= |pattern| && str == g && Atoms(pattern[i..]) == rest
  {
    i, str := start, "";
    assert Lits("") + Atoms(pattern[start..]) == Atoms(pattern[start..]);
    while |str| < len
      invariant start <= i <= |pattern| && |str| <= len && (str != "" ==> i > start)
      invariant Lits(g) + rest == Lits(str) + Atoms(pattern[i..])
      decreases len - |str|
    {
      NextLit(g, str, rest, Atoms(pattern[i..]));
      AtomsStep(pattern, i);
      var c := pattern[i];
      i := i + 1;
      if c == '\\' && i < |pattern| {
        c := pattern[i];
        i := i + 1;
      }
      LitsSnoc(str, c, Atoms(pattern[i..]));
      str := str + [c];
    }
    SameLits(g, str, rest, Atoms(pattern[i..]));
  }

  /** list_del of the item at i followed by list_add behind the item before position at. */
  function MoveItem(items: seq<Item>, i: nat, at: nat): seq<Item>
    requires at <= i < |items|
  {
    items[..at] + [items[i]] + items[at..i] + items[i + 1..]
  }

  /** The list while a run is being walked: a question marks moved to the front, b stars
      passed over, and `left` still to be visited. */
  ghost function Walked(done: seq<Item>, a: nat, b: nat, left: seq<Item>): seq<Item> {
    done + (QMarks(a) + Stars(b)) + left
  }

  lemma WalkStarts(done: seq<Item>, run: seq<Item>, tail: seq<Item>)
    ensures done + run + tail == Walked(done, 0, 0, run + tail)
  {
    assert QMarks(0) + Stars(0) == [];
    Sequences.Assoc(done, run, tail);
  }

  lemma CountHead(r: seq<Item>)
    requires Wild(r) && CountQ(r) > 0
    ensures r != [] && Wild(r[1..]) && (r[0].QMark? || r[0].Star?)
    ensures CountQ(r) == (if r[0].QMark? then 1 else 0) + CountQ(r[1..])
    ensures CountStar(r) == (if r[0].Star? then 1 else 0) + CountStar(r[1..])
  {
  }

  lemma WalkQMark(done: seq<Item>, a: nat, b: nat, left: seq<Item>)
    ensures var items, i := Walked(done, a, b, [QMark] + left), |done| + a + b;
            i < |items| && items[i] == QMark && MoveItem(items, i, |done|) == Walked(done, a + 1, b, left)
  {
    var mid := QMarks(a) + Stars(b);
    var items, i := done + mid + ([QMark] + left), |done| + a + b;
    assert items[..|done|] == done && items[|done|..i] == mid && items[i + 1..] == left;
    assert [QMark] + mid == QMarks(a + 1) + Stars(b);
    Sequences.Assoc(done, [QMark], mid);
  }

  lemma WalkStar(done: seq<Item>, a: nat, b: nat, left: seq<Item>)
    ensures var items, i := Walked(done, a, b, [Star] + left), |done| + a + b;
            i < |items| && items[i] == Star && items == Walked(done, a, b + 1, left)
  {
    assert (QMarks(a) + Stars(b)) + [Star] == QMarks(a) + Stars(b + 1);
    Sequences.Assoc(done + (QMarks(a) + Stars(b)), [Star], left);
  }

  lemma {:induction false} CountWild(run: seq<Item>)
    requires Wild(run)
    ensures CountQ(run) + CountStar(run) == |run|
    ensures CountQ(run) == 0 ==> run == Stars(|run|)
  {
    if run != [] { CountWild(run[1..]); }
  }

  /** When no question mark is left to visit, the run is question marks followed by stars. */
  lemma WalkEnds(done: seq<Item>, a: nat, b: nat, r: seq<Item>, tail: seq<Item>)
    requires Wild(r) && CountQ(r) == 0
    ensures Walked(done, a, b, r + tail) == done + QMarks(a) + Stars(b + CountStar(r)) + tail
  {
    CountWild(r);
    assert Stars(b) + Stars(|r|) == Stars(b + |r|);
  }

  lemma {:induction false} CountSnoc(run: seq<Item>, x: Item)
    ensures CountQ(run + [x]) == CountQ(run) + (if x.QMark? then 1 else 0)
    ensures CountStar(run + [x]) == CountStar(run) + (if x.Star? then 1 else 0)
  {
    if run != [] {
      assert (run + [x])[1..] == run[1..] + [x];
      CountSnoc(run[1..], x);
    }
  }

  lemma {:induction false} NoStarMeansQMarks(run: seq<Item>)
    requires Wild(run) && CountStar(run) == 0
    ensures run == Squeezed(CountQ(run), 0)
  {
    if run != [] { NoStarMeansQMarks(run[1..]); }
  }

  /** A run is as long as its wildcards reach. */
  lemma {:induction false} RunLengthIs(items: seq<Item>, run: seq<Item>)
    requires |run| <= |items| && items[..|run|] == run && Wild(run)
    requires |run| < |items| ==> items[|run|].Text?
    ensures RunLength(items) == |run|
  {
    if run != [] {
      assert items[0] == run[0];
      RunLengthIs(items[1..], run[1..]);
    }
  }

  /** How far one round of simplify gets: past the first run and the text behind it. */
  ghost function RoundEnd(rest: seq<Item>): nat {
    RunLength(rest) + (if RunLength(rest) < |rest| then 1 else 0)
  }

  ghost function Round(rest: seq<Item>): seq<Item> {
    var n := RunLength(rest);
    Squeezed(CountQ(rest[..n]), CountStar(rest[..n])) + rest[n..RoundEnd(rest)]
  }

  lemma CutAt(s: seq<Item>, n: nat, m: nat)
    requires n <= m <= |s|
    ensures s == s[..n] + s[n..] && s[n..] == s[n..m] + s[m..]
  {
  }

  lemma RoundSplit(done: seq<Item>, rest: seq<Item>)
    ensures var n := RunLength(rest);
            && rest == rest[..n] + rest[n..]
            && done + Squeezed(CountQ(rest[..n]), CountStar(rest[..n])) + rest[n..]
                == done + Round(rest) + rest[RoundEnd(rest)..]
  {
    var n, m := RunLength(rest), RoundEnd(rest);
    CutAt(rest, n, m);
    Sequences.Assoc(done + Squeezed(CountQ(rest[..n]), CountStar(rest[..n])), rest[n..m], rest[m..]);
    Sequences.Assoc(done, Squeezed(CountQ(rest[..n]), CountStar(rest[..n])), rest[n..m]);
  }

  lemma SimplifiedStep(done: seq<Item>, rest: seq<Item>)
    ensures done + Simplified(rest) == (done + Round(rest)) + Simplified(rest[RoundEnd(rest)..])
  {
    var n := RunLength(rest);
    var sq := Squeezed(CountQ(rest[..n]), CountStar(rest[..n]));
    var left := rest[RoundEnd(rest)..];
    if n < |rest| {
      assert rest[n..n + 1] == [rest[n]];
    } else {
      assert left == [] && Simplified(left) == [];
    }
    assert Simplified(rest) == Round(rest) + Simplified(left);
    Sequences.Assoc(done, Round(rest), Simplified(left));
  }

  lemma FlattenSnoc(items: seq<Item>, item: Item, rest: seq<Atom>)
    ensures Flatten(items + [item]) + rest == Flatten(items) + (ItemAtoms(item) + rest)
  {
    FlattenConcat(items, [item]);
    assert Flatten([item]) == ItemAtoms(item) + [];
    Sequences.Assoc(Flatten(items), ItemAtoms(item), rest);
  }

  /** The list behind a list head, items addressed by their position. */
  class GlobList {
    var items: seq<Item>

    constructor ()
      ensures items == []
    {
      items := [];
    }

    /** simplify's first pass over a run: move all question marks to its front.
        itemPos is where the run's first node ends up. */
    method MoveQMarks(start: nat, qcount0: nat, ghost done: seq<Item>, ghost run: seq<Item>, ghost tail: seq<Item>)
      returns (itemPos: nat)
      requires items == done + run + tail && start == |done| && Wild(run) && qcount0 == CountQ(run)
      requires run != []
      modifies this
      ensures items == done + QMarks(CountQ(run)) + Stars(CountStar(run)) + tail
      ensures start <= itemPos <= start + CountQ(run)
    {
      hide Walked, CountQ, CountStar, MoveItem;
      var i, qcount := start, qcount0;
      itemPos := start;
      ghost var a, b, r := 0, 0, run;
      WalkStarts(done, run, tail);
      while qcount > 0
        invariant Wild(r) && i == start + a + b && items == Walked(done, a, b, r + tail)
        invariant qcount == CountQ(r) && a + CountQ(r) == CountQ(run) && b + CountStar(r) == CountStar(run)
        invariant start <= itemPos <= start + a
        decreases |r|
      {
        CountHead(r);
        assert r + tail == [r[0]] + (r[1..] + tail);
        if r[0].QMark? {
          WalkQMark(done, a, b, r[1..] + tail);
          a := a + 1;
        } else {
          WalkStar(done, a, b, r[1..] + tail);
          b := b + 1;
        }
        r := r[1..];
        if items[i].QMark? {
          items := MoveItem(items, i, start);
          if i != itemPos {
            itemPos := itemPos + 1;
          }
          qcount := qcount - 1;
        }
        i := i + 1;
      }
      WalkEnds(done, a, b, r, tail);
    }

    /** simplify's second pass: remove all stars of the run but the last. */
    method DropStars(itemPos: nat, scount0: nat, ghost done: seq<Item>, ghost q: nat, ghost tail: seq<Item>)
      requires items == done + QMarks(q) + Stars(scount0) + tail && scount0 > 0
      requires |done| <= itemPos <= |done| + q
      modifies this
      ensures items == done + Squeezed(q, scount0) + tail
    {
      var i, scount := itemPos, scount0;
      while scount > 1
        invariant 1 <= scount <= scount0 && items == done + QMarks(q) + Stars(scount) + tail
        invariant |done| <= i <= |done| + q
        decreases scount, |done| + q - i
      {
        if items[i].Star? {
          assert i == |done| + q;
          items := items[..i] + items[i + 1..];
          scount := scount - 1;
        } else {
          i := i + 1;
        }
      }
      assert Stars(1) == [Star];
      assert done + QMarks(q) + [Star] + tail == done + Squeezed(q, scount0) + tail;
    }

    /** simplify's scan: counts the wildcards of the run at `item`; next is behind the text
        that ends it. */
    method ScanRun(item: nat) returns (next: nat, qcount: nat, scount: nat)
      requires item < |items|
      ensures var run := items[item..][..RunLength(items[item..])];
              qcount == CountQ(run) && scount == CountStar(run) && Wild(run)
              && next == item + |run| + (if item + |run| < |items| then 1 else 0)
    {
      next, qcount, scount := item, 0, 0;
      ghost var run: seq<Item> := [];
      while next < |items|
        invariant item <= next <= |items| && run == items[item..next] && Wild(run)
        invariant qcount == CountQ(run) && scount == CountStar(run)
        decreases |items| - next
      {
        if items[next].Text? {
          RunLengthIs(items[item..], run);
          next := next + 1;
          return;
        }
        CountSnoc(run, items[next]);
        if items[next].Star? {
          scount := scount + 1;
        } else {
          qcount := qcount + 1;
        }
        run := run + [items[next]];
        next := next + 1;
      }
      RunLengthIs(items[item..], run);
    }

    /** The body of simplify's outer loop. */
    method SqueezeRun(item: nat, ghost done: seq<Item>, ghost rest: seq<Item>) returns (next: nat)
      requires items == done + rest && item == |done| && rest != []
      modifies this
      ensures items == done + Round(rest) + rest[RoundEnd(rest)..]
      ensures next == |done + Round(rest)|
    {
      assert items[item..] == rest;
      RoundSplit(done, rest);
      var qcount, scount;
      next, qcount, scount := ScanRun(item);
      ghost var n := RunLength(rest);
      ghost var run, tail := rest[..n], rest[n..];
      CountWild(run);
      Sequences.Assoc(done, run, tail);
      if scount > 0 {
        var itemPos := MoveQMarks(item, qcount, done, run, tail);
        DropStars(itemPos, scount, done, qcount, tail);
        next := next - (scount - 1);
      } else {
        NoStarMeansQMarks(run);
      }
    }

    /** simplify rewrites the list into its normal form, in place. */
    method Simplify()
      modifies this
      ensures items == Simplified(old(items))
    {
      var item := 0;
      ghost var goal := Simplified(items);
      ghost var done: seq<Item> := [];
      ghost var rest := items;
      while item < |items|
        invariant item == |done| && items == done + rest
        invariant done + Simplified(rest) == goal
        decreases |rest|
      {
        SimplifiedStep(done, rest);
        item := SqueezeRun(item, done, rest);
        done, rest := done + Round(rest), rest[RoundEnd(rest)..];
      }
      assert rest == [] && Simplified(rest) == [];
    }

    /** glob_compile. */
    method Compile(pattern: string)
      modifies this
      ensures forall text, fold: Fold :: Matches(Flatten(items), text, fold) <==> Matches(Atoms(pattern), text, fold)
      ensures NormalForm(items) && TextsNonEmpty(items)
    {
      items := [];
      var i := 0;
      assert pattern[0..] == pattern;
      while i < |pattern|
        invariant 0 <= i <= |pattern| && TextsNonEmpty(items)
        invariant Flatten(items) + Atoms(pattern[i..]) == Atoms(pattern)
      {
        AtomsStep(pattern, i);
        var item: Item;
        ghost var before := i;
        if pattern[i] == '*' {
          item := Star;
          i := i + 1;
        } else if pattern[i] == '?' {
          item := QMark;
          i := i + 1;
        } else {
          var end, len, g := ScanText(pattern, i);
          var str;
          str, i := CopyText(pattern, i, len, g, Atoms(pattern[end..]));
          item := Text(str);
        }
        assert Atoms(pattern[before..]) == ItemAtoms(item) + Atoms(pattern[i..]);
        FlattenSnoc(items, item, Atoms(pattern[i..]));
        items := items + [item];
      }
      ghost var raw := items;
      assert pattern[i..] == "" && Flatten(raw) + [] == Flatten(raw);
      Simplify();
      SimplifyNormalises(raw);
      forall text, fold: Fold
        ensures Matches(Flatten(items), text, fold) <==> Matches(Atoms(pattern), text, fold)
      {
        SimplifyKeepsLanguage(raw, text, fold);
      }
    }
  }

  // ---- matching

  /** u_strcasestr over code points: the first place where needle occurs, or -1. */
  method StrCaseStr(haystack: string, needle: string, fold: Fold) returns (pos: int)
    requires needle != ""
    ensures -1 <= pos <= |haystack|
    ensures pos >= 0 ==> HasPrefix(haystack[pos..], needle, fold)
    ensures forall k :: 0 <= k <= |haystack| && (pos < 0 || k < pos) ==> !HasPrefix(haystack[k..], needle, fold)
  {
    pos := 0;
    while true
      invariant 0 <= pos <= |haystack|
      invariant forall k :: 0 <= k < pos ==> !HasPrefix(haystack[k..], needle, fold)
      decreases |haystack| - pos
    {
      if |haystack| - pos < |needle| {
        return -1;
      }
      var same := StrNCaseEqual(needle, haystack[pos..], fold);
      if same {
        return;
      }
      pos := pos + 1;
    }
  }

  /** u_strncasecmp(needle, text, u_strlen(needle)) == 0 */
  method StrNCaseEqual(needle: string, text: string, fold: Fold) returns (same: bool)
    ensures same <==> HasPrefix(text, needle, fold)
    ensures same ==> |needle| <= |text|
  {
    var i := 0;
    while i < |needle|
      invariant 0 <= i <= |needle| && HasPrefix(text, needle[..i], fold)
    {
      if i == |text| || fold(needle[i]) != fold(text[i]) {
        return false;
      }
      i := i + 1;
    }
    same := true;
  }

  lemma FlattenFrom(items: seq<Item>, k: nat)
    requires k < |items|
    ensures Flatten(items[k..]) == ItemAtoms(items[k]) + Flatten(items[k + 1..])
  {
    assert items[k..][1..] == items[k + 1..];
  }

  /** t occurs at position k of text and the rest of the pattern matches behind it. */
  ghost predicate HitAt(k: int, t: string, rest: seq<Atom>, text: string, fold: Fold)
    requires 0 <= k <= |text|
  {
    HasPrefix(text[k..], t, fold) && Matches(rest, text[k..][|t|..], fold)
  }

  /** What a star followed by text accepts. */
  lemma MatchStarText(t: string, rest: seq<Atom>, text: string, fold: Fold)
    ensures Matches([AnySeq] + (Lits(t) + rest), text, fold) <==>
            exists k :: 0 <= k <= |text| && HitAt(k, t, rest, text, fold)
  {
    assert ([AnySeq] + (Lits(t) + rest))[1..] == Lits(t) + rest;
    forall k | 0 <= k <= |text|
      ensures Matches(Lits(t) + rest, text[k..], fold) <==> HitAt(k, t, rest, text, fold)
    {
      MatchText(t, rest, text[k..], fold);
    }
  }

  ghost predicate NoHitBefore(upto: int, t: string, rest: seq<Atom>, text: string, fold: Fold)
    requires 0 <= upto <= |text| + 1
  {
    forall k :: 0 <= k < upto ==> !HitAt(k, t, rest, text, fold)
  }

  /** Nothing is skipped between one occurrence of the needle and the next; pos < 0 stands
      for no further occurrence. */
  lemma NextOccurrence(from: nat, pos: int, t: string, rest: seq<Atom>, text: string, fold: Fold)
    requires from <= |text| && pos <= |text[from..]| && NoHitBefore(from, t, rest, text, fold)
    requires forall k :: 0 <= k <= |text[from..]| && (pos < 0 || k < pos) ==> !HasPrefix(text[from..][k..], t, fold)
    ensures NoHitBefore(if pos < 0 then |text| + 1 else from + pos, t, rest, text, fold)
  {
    forall k | from <= k <= |text| && (pos < 0 || k < from + pos)
      ensures !HitAt(k, t, rest, text, fold)
    {
      assert text[from..][k - from..] == text[k..];
    }
  }

  /** do_glob_match: exactly the declared language, and it always terminates. */
  method DoGlobMatch(items: seq<Item>, first: nat, text0: string, fold: Fold) returns (matched: bool)
    requires first <= |items| && NormalForm(items) && TextsNonEmpty(items)
    ensures matched <==> Matches(Flatten(items[first..]), text0, fold)
    decreases |items| - first, 1
  {
    var item, text := first, text0;
    hide NormalForm, Matches, Flatten, HasPrefix;
    while item < |items|
      invariant first <= item <= |items|
      invariant Matches(Flatten(items[first..]), text0, fold) <==> Matches(Flatten(items[item..]), text, fold)
      decreases |items| - item
    {
      FlattenFrom(items, item);
      MatchHead(items[item], Flatten(items[item + 1..]), text, fold);
      match items[item] {
      case Text(t) =>
        var same := StrNCaseEqual(t, text, fold);
        if !same { return false; }
        text := text[|t|..];
      case QMark =>
        if text == "" { return false; }
        text := text[1..];
      case Star =>
        if item + 1 == |items| {
          assert items[item + 1..] == [];
          return true;
        }
        matched := MatchAfterStar(items, item, text, fold);
        return;
      }
      item := item + 1;
    }
    assert items[item..] == [];
    EmptyPattern(text, fold);
    matched := text == "";
  }

  lemma EmptyPattern(text: string, fold: Fold)
    ensures Matches(Flatten([]), text, fold) <==> text == ""
  {
  }

  /** What the first item of a pattern asks of the text. */
  lemma MatchHead(item: Item, rest: seq<Atom>, text: string, fold: Fold)
    ensures var m := Matches(ItemAtoms(item) + rest, text, fold);
            match item
            case Text(t) => m <==> HasPrefix(text, t, fold) && |t| <= |text| && Matches(rest, text[|t|..], fold)
            case QMark => m <==> text != "" && Matches(rest, text[1..], fold)
            case Star => rest == Flatten([]) ==> m
  {
    match item {
      case Text(t) => MatchText(t, rest, text, fold);
      case QMark => assert ([Any] + rest)[1..] == rest;
      case Star =>
        assert ([AnySeq] + rest)[1..] == rest;
        assert text[|text|..] == "";
    }
  }

  /** A star and the text behind it accept exactly the texts with a hit. */
  lemma StarAccepts(items: seq<Item>, star: nat, text: string, fold: Fold)
    requires star + 1 < |items| && items[star].Star? && items[star + 1].Text?
    ensures var t, rest := items[star + 1].text, Flatten(items[star + 2..]);
            Matches(Flatten(items[star..]), text, fold) <==> !NoHitBefore(|text| + 1, t, rest, text, fold)
  {
    FlattenFrom(items, star);
    FlattenFrom(items, star + 1);
    MatchStarText(items[star + 1].text, Flatten(items[star + 2..]), text, fold);
  }

  lemma AfterTry(pos: nat, t: string, rest: seq<Atom>, text: string, fold: Fold)
    requires pos <= |text| && NoHitBefore(pos, t, rest, text, fold)
    ensures if HitAt(pos, t, rest, text, fold) then !NoHitBefore(|text| + 1, t, rest, text, fold)
            else NoHitBefore(pos + 1, t, rest, text, fold)
  {
  }

  /** The star case: try the text behind the star at each of its occurrences in turn. */
  method MatchAfterStar(items: seq<Item>, star: nat, text0: string, fold: Fold) returns (matched: bool)
    requires star + 1 < |items| && items[star].Star? && NormalForm(items) && TextsNonEmpty(items)
    ensures matched <==> Matches(Flatten(items[star..]), text0, fold)
    decreases |items| - star, 0
  {
    assert items[star + 1].Text?; // as do_glob_match asserts
    var t := items[star + 1].text;
    ghost var rest := Flatten(items[star + 2..]);
    StarAccepts(items, star, text0, fold);
    hide HitAt, NoHitBefore, Matches, Flatten, NormalForm;
    assert NoHitBefore(0, t, rest, text0, fold) by { NothingBeforeZero(t, rest, text0, fold); }
    var from := 0;
    while true
      invariant 0 <= from <= |text0| && NoHitBefore(from, t, rest, text0, fold)
      decreases |items| - star, |text0| - from
    {
      var pos := StrCaseStr(text0[from..], t, fold);
      NextOccurrence(from, pos, t, rest, text0, fold);
      if pos < 0 { return false; }
      assert text0[from..][pos..] == text0[from + pos..];
      from := from + pos;
      AfterTry(from, t, rest, text0, fold);
      matched := MatchBehind(items, star + 2, text0, from, t, fold);
      if matched { return; }
      from := from + 1;
    }
  }

  lemma NothingBeforeZero(t: string, rest: seq<Atom>, text: string, fold: Fold)
    ensures NoHitBefore(0, t, rest, text, fold)
  {
  }

  /** The recursive call of the star case. */
  method MatchBehind(items: seq<Item>, first: nat, text: string, pos: nat, t: string, fold: Fold)
    returns (matched: bool)
    requires first <= |items| && NormalForm(items) && TextsNonEmpty(items)
    requires pos <= |text| && HasPrefix(text[pos..], t, fold)
    ensures matched <==> HitAt(pos, t, Flatten(items[first..]), text, fold)
    decreases |items| - first, 2
  {
    matched := DoGlobMatch(items, first, text[pos..][|t|..], fold);
  }

  /** glob_compile followed by glob_match decides the declarative meaning of the pattern. */
  method GlobMatch(pattern: string, text: string, fold: Fold) returns (matched: bool)
    ensures matched <==> Matches(Atoms(pattern), text, fold)
  {
    var list := new GlobList();
    list.Compile(pattern);
    matched := DoGlobMatch(list.items, 0, text, fold);
    assert list.items[0..] == list.items;
  }
}
