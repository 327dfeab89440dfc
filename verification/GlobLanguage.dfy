/** The wildcard language of glob.c, read over code points.

    `fold` is the case folding that two characters are compared through. */
module GlobLanguage {
  import Sequences

  type Fold = char -> char

  /** One element of the declarative reading of a pattern. */
  datatype Atom = Lit(c: char) | Any | AnySeq

  /** What a pattern means: `*`, `?`, and literals, where a backslash makes the next
      character literal (and stands for itself at the end). */
  function Atoms(pattern: string): seq<Atom> {
    if pattern == "" then []
    else if pattern[0] == '*' then [AnySeq] + Atoms(pattern[1..])
    else if pattern[0] == '?' then [Any] + Atoms(pattern[1..])
    else if pattern[0] == '\\' && |pattern| > 1 then [Lit(pattern[1])] + Atoms(pattern[2..])
    else [Lit(pattern[0])] + Atoms(pattern[1..])
  }

  /** The texts a sequence of atoms accepts. */
  ghost predicate Matches(atoms: seq<Atom>, text: string, fold: Fold) {
    if atoms == [] then text == ""
    else match atoms[0]
      case Lit(c) => text != "" && fold(text[0]) == fold(c) && Matches(atoms[1..], text[1..], fold)
      case Any => text != "" && Matches(atoms[1..], text[1..], fold)
      case AnySeq => exists k :: 0 <= k <= |text| && Matches(atoms[1..], text[k..], fold)
  }

  /** A compiled pattern item. */
  datatype Item = Star | QMark | Text(text: string)

  function Lits(s: string): (r: seq<Atom>)
    ensures |r| == |s|
    ensures forall i :: 0 <= i < |s| ==> r[i] == Lit(s[i])
  {
    seq(|s|, i requires 0 <= i < |s| => Lit(s[i]))
  }

  function ItemAtoms(item: Item): seq<Atom> {
    match item
    case Star => [AnySeq]
    case QMark => [Any]
    case Text(t) => Lits(t)
  }

  function Flatten(items: seq<Item>): seq<Atom> {
    if items == [] then [] else ItemAtoms(items[0]) + Flatten(items[1..])
  }

  lemma {:induction false} FlattenConcat(a: seq<Item>, b: seq<Item>)
    ensures Flatten(a + b) == Flatten(a) + Flatten(b)
  {
    hide ItemAtoms;
    if a == [] {
      assert a + b == b;
    } else {
      FlattenConcat(a[1..], b);
      assert (a + b)[1..] == a[1..] + b && (a + b)[0] == a[0];
      Sequences.Assoc(ItemAtoms(a[0]), Flatten(a[1..]), Flatten(b));
    }
  }

  /** Text at the head of the pattern is a folded prefix test. */
  ghost predicate HasPrefix(text: string, prefix: string, fold: Fold) {
    |prefix| <= |text| && forall i :: 0 <= i < |prefix| ==> fold(text[i]) == fold(prefix[i])
  }

  lemma {:induction false} MatchText(s: string, rest: seq<Atom>, text: string, fold: Fold)
    ensures Matches(Lits(s) + rest, text, fold) <==> HasPrefix(text, s, fold) && Matches(rest, text[|s|..], fold)
  {
    if s == "" {
      assert Lits(s) + rest == rest && text[0..] == text;
    } else {
      assert (Lits(s) + rest)[1..] == Lits(s[1..]) + rest;
      if text != "" {
        MatchText(s[1..], rest, text[1..], fold);
        if |s| <= |text| {
          assert text[1..][|s[1..]|..] == text[|s|..];
        }
        PrefixStep(text, s, fold);
      }
    }
  }

  lemma PrefixStep(text: string, s: string, fold: Fold)
    requires s != "" && text != ""
    ensures HasPrefix(text, s, fold) <==> fold(text[0]) == fold(s[0]) && HasPrefix(text[1..], s[1..], fold)
  {
    if fold(text[0]) == fold(s[0]) && HasPrefix(text[1..], s[1..], fold) {
      forall i | 0 <= i < |s| ensures fold(text[i]) == fold(s[i]) {
        if i > 0 {
          assert text[i] == text[1..][i - 1] && s[i] == s[1..][i - 1];
        }
      }
    }
  }

  // ---- runs of wildcards

  ghost predicate Wild(items: seq<Item>) {
    forall i :: 0 <= i < |items| ==> !items[i].Text?
  }

  function CountQ(items: seq<Item>): nat {
    if items == [] then 0 else (if items[0].QMark? then 1 else 0) + CountQ(items[1..])
  }

  function CountStar(items: seq<Item>): nat {
    if items == [] then 0 else (if items[0].Star? then 1 else 0) + CountStar(items[1..])
  }

  /** `rest` matches after exactly q characters, or after at least q when there is a star. */
  ghost predicate Gap(q: nat, star: bool, rest: seq<Atom>, text: string, fold: Fold) {
    exists k :: q <= k <= |text| && (star || k == q) && Matches(rest, text[k..], fold)
  }

  lemma GapShift(q: nat, star: bool, rest: seq<Atom>, text: string, fold: Fold)
    ensures Gap(q + 1, star, rest, text, fold) <==> text != "" && Gap(q, star, rest, text[1..], fold)
  {
    if Gap(q + 1, star, rest, text, fold) {
      var k :| q + 1 <= k <= |text| && (star || k == q + 1) && Matches(rest, text[k..], fold);
      assert text[1..][k - 1..] == text[k..];
    }
    if text != "" && Gap(q, star, rest, text[1..], fold) {
      var k :| q <= k <= |text[1..]| && (star || k == q) && Matches(rest, text[1..][k..], fold);
      assert text[1..][k..] == text[k + 1..];
    }
  }

  lemma GapStar(q: nat, star: bool, rest: seq<Atom>, text: string, fold: Fold)
    ensures Gap(q, true, rest, text, fold) <==> exists k :: 0 <= k <= |text| && Gap(q, star, rest, text[k..], fold)
  {
    if Gap(q, true, rest, text, fold) {
      var k :| q <= k <= |text| && Matches(rest, text[k..], fold);
      assert text[k - q..][q..] == text[k..];
      assert Gap(q, star, rest, text[k - q..], fold);
    }
    forall k | 0 <= k <= |text| && Gap(q, star, rest, text[k..], fold)
      ensures Gap(q, true, rest, text, fold)
    {
      var j :| q <= j <= |text[k..]| && Matches(rest, text[k..][j..], fold);
      assert text[k..][j..] == text[k + j..];
    }
  }

  lemma MatchWild(item: Item, tail: seq<Atom>, text: string, fold: Fold)
    requires !item.Text?
    ensures Matches(ItemAtoms(item) + tail, text, fold) <==>
      if item.QMark? then text != "" && Matches(tail, text[1..], fold)
      else exists k :: 0 <= k <= |text| && Matches(tail, text[k..], fold)
  {
    assert (ItemAtoms(item) + tail)[1..] == tail;
  }

  lemma GapNothing(rest: seq<Atom>, text: string, fold: Fold)
    ensures Gap(0, false, rest, text, fold) <==> Matches(rest, text, fold)
  {
    assert text[0..] == text;
  }

  /** Only the number of question marks and the presence of a star matter in a run. */
  lemma {:induction false} MatchRun(run: seq<Item>, rest: seq<Atom>, text: string, fold: Fold)
    requires Wild(run)
    ensures Matches(Flatten(run) + rest, text, fold) <==> Gap(CountQ(run), CountStar(run) > 0, rest, text, fold)
    decreases run
  {
    hide Matches, Gap, ItemAtoms;
    if run == [] {
      assert Flatten(run) + rest == rest;
      GapNothing(rest, text, fold);
    } else {
      var tail := Flatten(run[1..]) + rest;
      Sequences.Assoc(ItemAtoms(run[0]), Flatten(run[1..]), rest);
      MatchWild(run[0], tail, text, fold);
      var q, star := CountQ(run[1..]), CountStar(run[1..]) > 0;
      if run[0].QMark? {
        GapShift(q, star, rest, text, fold);
        if text != "" { MatchRun(run[1..], rest, text[1..], fold); }
      } else {
        GapStar(q, star, rest, text, fold);
        forall k | 0 <= k <= |text|
          ensures Matches(tail, text[k..], fold) <==> Gap(q, star, rest, text[k..], fold)
        {
          MatchRun(run[1..], rest, text[k..], fold);
        }
      }
    }
  }

  // ---- the normal form

  function QMarks(n: nat): (r: seq<Item>)
    ensures |r| == n && forall i :: 0 <= i < n ==> r[i] == QMark
  {
    seq(n, _ => QMark)
  }

  function Stars(n: nat): (r: seq<Item>)
    ensures |r| == n && forall i :: 0 <= i < n ==> r[i] == Star
  {
    seq(n, _ => Star)
  }

  /** All question marks first, then at most one star. */
  function Squeezed(q: nat, stars: nat): seq<Item> {
    QMarks(q) + (if stars > 0 then [Star] else [])
  }

  function RunLength(items: seq<Item>): (n: nat)
    ensures n <= |items| && Wild(items[..n]) && (n < |items| ==> items[n].Text?)
  {
    if items == [] || items[0].Text? then 0
    else
      var n := 1 + RunLength(items[1..]);
      assert items[..n] == [items[0]] + items[1..][..n - 1];
      n
  }

  /** What simplification turns a pattern into. */
  function Simplified(items: seq<Item>): seq<Item> {
    var n := RunLength(items);
    var run := Squeezed(CountQ(items[..n]), CountStar(items[..n]));
    if n == |items| then run else run + [items[n]] + Simplified(items[n + 1..])
  }

  ghost predicate TextsNonEmpty(items: seq<Item>) {
    forall i :: 0 <= i < |items| && items[i].Text? ==> items[i].text != ""
  }

  /** After a star there is normal text, or nothing. */
  ghost predicate NormalForm(items: seq<Item>) {
    forall i :: 0 <= i < |items| - 1 && items[i].Star? ==> items[i + 1].Text?
  }

  lemma {:induction false} CountQMarks(n: nat, tail: seq<Item>)
    ensures CountQ(QMarks(n) + tail) == n + CountQ(tail) && CountStar(QMarks(n) + tail) == CountStar(tail)
  {
    if n == 0 {
      assert QMarks(0) + tail == tail;
    } else {
      assert (QMarks(n) + tail)[1..] == QMarks(n - 1) + tail;
      CountQMarks(n - 1, tail);
    }
  }

  lemma SqueezedMatches(run: seq<Item>, rest: seq<Atom>, text: string, fold: Fold)
    requires Wild(run)
    ensures Matches(Flatten(Squeezed(CountQ(run), CountStar(run))) + rest, text, fold)
       <==> Matches(Flatten(run) + rest, text, fold)
  {
    var q, s := CountQ(run), CountStar(run);
    var tail := if s > 0 then [Star] else [];
    CountQMarks(q, tail);
    assert s > 0 ==> tail[1..] == [];
    MatchRun(run, rest, text, fold);
    MatchRun(Squeezed(q, s), rest, text, fold);
  }

  lemma GapSame(q: nat, star: bool, r1: seq<Atom>, r2: seq<Atom>, text: string, fold: Fold)
    requires forall t :: Matches(r1, t, fold) <==> Matches(r2, t, fold)
    ensures Gap(q, star, r1, text, fold) <==> Gap(q, star, r2, text, fold)
  {
  }

  lemma FlattenSplit(a: seq<Item>, x: Item, b: seq<Item>)
    ensures Flatten(a + [x] + b) == Flatten(a) + (ItemAtoms(x) + Flatten(b))
  {
    assert ([x] + b)[1..] == b;
    assert a + [x] + b == a + ([x] + b);
    FlattenConcat(a, [x] + b);
  }

  /** Simplification preserves the accepted language. */
  lemma {:induction false} SimplifyKeepsLanguage(items: seq<Item>, text: string, fold: Fold)
    ensures Matches(Flatten(Simplified(items)), text, fold) <==> Matches(Flatten(items), text, fold)
    decreases items
  {
    hide Matches, Gap, Flatten, Squeezed, RunLength, CountQ, CountStar;
    var n := RunLength(items);
    var run := items[..n];
    var sq := Squeezed(CountQ(run), CountStar(run));
    if n == |items| {
      assert run == items;
      SqueezedMatches(run, [], text, fold);
      assert Flatten(sq) + [] == Flatten(sq) && Flatten(run) + [] == Flatten(run);
    } else {
      var rest := items[n + 1..];
      var lits := ItemAtoms(items[n]);
      var old', new' := lits + Flatten(rest), lits + Flatten(Simplified(rest));
      assert items == run + [items[n]] + rest;
      FlattenSplit(run, items[n], rest);
      FlattenSplit(sq, items[n], Simplified(rest));
      forall t ensures Matches(old', t, fold) <==> Matches(new', t, fold) {
        MatchText(items[n].text, Flatten(rest), t, fold);
        MatchText(items[n].text, Flatten(Simplified(rest)), t, fold);
        if |items[n].text| <= |t| {
          SimplifyKeepsLanguage(rest, t[|items[n].text|..], fold);
        }
      }
      SqueezedMatches(run, new', text, fold);
      MatchRun(run, old', text, fold);
      MatchRun(run, new', text, fold);
      GapSame(CountQ(run), CountStar(run) > 0, old', new', text, fold);
    }
  }

  /** Simplification establishes the form the matcher relies on. */
  lemma {:induction false} SimplifyNormalises(items: seq<Item>)
    ensures NormalForm(Simplified(items))
    ensures TextsNonEmpty(items) ==> TextsNonEmpty(Simplified(items))
    decreases items
  {
    var n := RunLength(items);
    if n < |items| {
      SimplifyNormalises(items[n + 1..]);
    }
  }

  // ---- patterns, one character at a time

  ghost predicate Accepts(pattern: string, text: string, fold: Fold) {
    Matches(Atoms(pattern), text, fold)
  }

  /** What each character of a pattern says. */
  lemma PatternLaws(c: char, pattern: string, text: string, fold: Fold)
    ensures Accepts("", text, fold) <==> text == ""
    ensures Accepts("?" + pattern, text, fold) <==> text != "" && Accepts(pattern, text[1..], fold)
    ensures Accepts("*" + pattern, text, fold) <==> exists k :: 0 <= k <= |text| && Accepts(pattern, text[k..], fold)
    ensures Accepts("\\" + [c] + pattern, text, fold) <==>
              text != "" && fold(text[0]) == fold(c) && Accepts(pattern, text[1..], fold)
    ensures c != '?' && c != '*' && c != '\\' ==>
              (Accepts([c] + pattern, text, fold) <==>
               text != "" && fold(text[0]) == fold(c) && Accepts(pattern, text[1..], fold))
  {
    assert ("?" + pattern)[1..] == ("*" + pattern)[1..] == ([c] + pattern)[1..] == pattern;
    var escaped := "\\" + [c] + pattern;
    assert escaped[0] == '\\' && escaped[1] == c && escaped[2..] == pattern;
    AtomCons(Any, Atoms(pattern));
    AtomCons(AnySeq, Atoms(pattern));
    AtomCons(Lit(c), Atoms(pattern));
  }

  lemma AtomCons(a: Atom, rest: seq<Atom>)
    ensures ([a] + rest)[0] == a && ([a] + rest)[1..] == rest
  {
  }
}
