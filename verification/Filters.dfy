/** filters.c: the list of user-defined filters, its visited marks, and activation. */
module Filters {
  import opened Strings
  import opened ExprSyntax
  import opened ExprGrammar
  import opened ExprParser
  import opened FilterExpansion
  import opened FilterText
  import opened GlobLanguage
  import opened Options
  import opened TrackInfo
  import Sequences

  /** FS_IGNORE, FS_YES, FS_NO */
  datatype Stat = Ignore | Yes | No

  datatype Entry = Entry(name: string, filter: string, visited: bool, selStat: Stat, actStat: Stat)

  /** The definitions find_filter sees: the first entry of a name counts. */
  function TableOf(entries: seq<Entry>): Table {
    if entries == [] then map[] else TableOf(entries[1..])[entries[0].name := entries[0].filter]
  }

  /** The names whose (first) entry is marked visited. */
  function MarksOf(entries: seq<Entry>): (m: set<string>)
    ensures m <= TableOf(entries).Keys
  {
    if entries == [] then {}
    else (MarksOf(entries[1..]) - {entries[0].name}) + (if entries[0].visited then {entries[0].name} else {})
  }

  ghost predicate SameButVisited(a: seq<Entry>, b: seq<Entry>) {
    |a| == |b| && forall i :: 0 <= i < |a| ==> a[i].(visited := false) == b[i].(visited := false)
  }

  lemma Unactivated(a: seq<Entry>, b: seq<Entry>, c: seq<Entry>)
    requires SameButVisited(a, b) && |b| == |c|
    requires forall i :: 0 <= i < |c| ==> c[i].(actStat := Ignore) == b[i].(actStat := Ignore)
    ensures SameSelection(a, c)
  {
    forall i | 0 <= i < |a|
      ensures a[i].(visited := false, actStat := Ignore) == c[i].(visited := false, actStat := Ignore)
    {
      assert a[i].(visited := false) == b[i].(visited := false);
    }
  }

  /** The same names, definitions and selections. */
  ghost predicate SameSelection(a: seq<Entry>, b: seq<Entry>) {
    |a| == |b| && forall i :: 0 <= i < |a| ==>
      a[i].(visited := false, actStat := Ignore) == b[i].(visited := false, actStat := Ignore)
  }

  lemma {:induction false} SameTable(a: seq<Entry>, b: seq<Entry>)
    requires SameButVisited(a, b)
    ensures TableOf(a) == TableOf(b)
  {
    if a != [] {
      assert a[0].(visited := false) == b[0].(visited := false);
      forall i | 0 <= i < |a| - 1 ensures a[1..][i].(visited := false) == b[1..][i].(visited := false) {
        assert a[i + 1].(visited := false) == b[i + 1].(visited := false);
      }
      SameTable(a[1..], b[1..]);
    }
  }

  ghost predicate IsFirst(entries: seq<Entry>, i: nat, name: string) {
    i < |entries| && entries[i].name == name && forall k :: 0 <= k < i ==> entries[k].name != name
  }

  lemma {:induction false} FirstCounts(entries: seq<Entry>, i: nat, name: string)
    requires IsFirst(entries, i, name)
    ensures name in TableOf(entries) && TableOf(entries)[name] == entries[i].filter
    ensures name in MarksOf(entries) <==> entries[i].visited
  {
    if i > 0 {
      assert entries[0].name != name && entries[1..][i - 1] == entries[i];
      forall k | 0 <= k < i - 1 ensures entries[1..][k].name != name { assert entries[1..][k] == entries[k + 1]; }
      FirstCounts(entries[1..], i - 1, name);
    }
  }

  lemma {:induction false} AbsentName(entries: seq<Entry>, name: string)
    requires forall k :: 0 <= k < |entries| ==> entries[k].name != name
    ensures name !in TableOf(entries)
  {
    if entries != [] {
      forall k | 0 <= k < |entries| - 1 ensures entries[1..][k].name != name {
        assert entries[1..][k] == entries[k + 1];
      }
      AbsentName(entries[1..], name);
    }
  }

  lemma {:induction false} MarkFirst(entries: seq<Entry>, i: nat, name: string)
    requires IsFirst(entries, i, name)
    ensures var marked := entries[i := entries[i].(visited := true)];
            MarksOf(marked) == MarksOf(entries) + {name} && SameButVisited(entries, marked)
  {
    var marked := entries[i := entries[i].(visited := true)];
    if i == 0 {
      assert marked[1..] == entries[1..];
    } else {
      assert marked[1..] == entries[1..][i - 1 := entries[i].(visited := true)];
      assert entries[1..][i - 1] == entries[i] && entries[0].name != name;
      forall k | 0 <= k < i - 1 ensures entries[1..][k].name != name { assert entries[1..][k] == entries[k + 1]; }
      MarkFirst(entries[1..], i - 1, name);
    }
  }

  // ---- the conjunction built by filters_activate

  /** The selected filters, each negated if selected as !name, joined by & from the left;
      Nil when nothing is selected, an error if some selected filter does not parse. */
  function Conjunction(acc: Expr, entries: seq<Entry>): (r: Result<Expr>)
    requires acc.Nil? || Shape(acc)
    ensures r.Ok? ==> r.value.Nil? || Shape(r.value)
    ensures r.Ok? && acc.Node? ==> r.value.Node?
    decreases |entries|
  {
    if entries == [] then Ok(acc)
    else if entries[0].selStat.Ignore? then Conjunction(acc, entries[1..])
    else
      match Parse(entries[0].filter)
      case Err(e) => Err(e)
      case Ok(d) =>
        var x := if entries[0].selStat.No? then Node(KNot, d, Nil) else d;
        Conjunction(if acc.Nil? then x else Bin(KAnd, acc, x), entries[1..])
  }

  /** The marks filters_activate starts the expansion with. */
  function MarkSelected(entries: seq<Entry>): (r: seq<Entry>)
    ensures |r| == |entries|
    ensures forall i :: 0 <= i < |r| ==> r[i] == entries[i].(visited := !entries[i].selStat.Ignore?)
  {
    seq(|entries|, i requires 0 <= i < |entries| => entries[i].(visited := !entries[i].selStat.Ignore?))
  }

  /** Every selected filter has a reading and holds, or fails to hold, as selected. */
  ghost predicate AllSelectedHold(entries: seq<Entry>, env: Table, n: nat, t: Track, fold: Fold) {
    forall i :: 0 <= i < |entries| && !entries[i].selStat.Ignore? ==>
      SelectedHolds(entries[i], env, n, t, fold)
  }

  ghost predicate SelectedHolds(f: Entry, env: Table, n: nat, t: Track, fold: Fold) {
    && Parse(f.filter).Ok? && Unfold(Parse(f.filter).value, env, n).Some?
    && (Meaning(Parse(f.filter).value, env, n, t, fold) <==> f.selStat.Yes?)
  }

  lemma SelectedCons(entries: seq<Entry>, env: Table, n: nat, t: Track, fold: Fold)
    requires entries != []
    ensures AllSelectedHold(entries, env, n, t, fold) <==>
            (entries[0].selStat.Ignore? || SelectedHolds(entries[0], env, n, t, fold))
            && AllSelectedHold(entries[1..], env, n, t, fold)
  {
    var tail := entries[1..];
    if AllSelectedHold(entries, env, n, t, fold) {
      forall i | 0 <= i < |tail| && !tail[i].selStat.Ignore? ensures SelectedHolds(tail[i], env, n, t, fold) {
        assert tail[i] == entries[i + 1];
      }
    } else {
      var i :| 0 <= i < |entries| && !entries[i].selStat.Ignore? && !SelectedHolds(entries[i], env, n, t, fold);
      if i > 0 {
        assert tail[i - 1] == entries[i];
      }
    }
  }

  /** The conjunction means that every selected filter holds as selected. */
  lemma {:induction false} ConjunctionMeaning(acc: Expr, entries: seq<Entry>, env: Table, n: nat, t: Track, fold: Fold)
    requires acc.Nil? || Shape(acc)
    requires Conjunction(acc, entries).Ok? && Conjunction(acc, entries).value.Node?
    requires Unfold(Conjunction(acc, entries).value, env, n).Some?
    ensures acc.Node? ==> Unfold(acc, env, n).Some?
    ensures Meaning(Conjunction(acc, entries).value, env, n, t, fold) <==>
            (acc.Nil? || Meaning(acc, env, n, t, fold)) && AllSelectedHold(entries, env, n, t, fold)
    decreases |entries|
  {
    hide Parse, Builtin, AllSelectedHold;
    if entries == [] {
      NoneSelected(env, n, t, fold);
    } else {
      SelectedCons(entries, env, n, t, fold);
      if entries[0].selStat.Ignore? {
        ConjunctionMeaning(acc, entries[1..], env, n, t, fold);
      } else {
        var d := Parse(entries[0].filter).value;
        var x := if entries[0].selStat.No? then Node(KNot, d, Nil) else d;
        var acc' := if acc.Nil? then x else Bin(KAnd, acc, x);
        ConjunctionMeaning(acc', entries[1..], env, n, t, fold);
        AddedMeaning(acc, x, env, n, t, fold);
        SelectedMeaning(entries[0], d, x, env, n, t, fold);
      }
    }
  }

  lemma NoneSelected(env: Table, n: nat, t: Track, fold: Fold)
    ensures AllSelectedHold([], env, n, t, fold)
  {
  }

  lemma AddedMeaning(acc: Expr, x: Expr, env: Table, n: nat, t: Track, fold: Fold)
    requires (acc.Nil? || Shape(acc)) && Shape(x)
    requires Unfold(if acc.Nil? then x else Bin(KAnd, acc, x), env, n).Some?
    ensures Unfold(x, env, n).Some? && (acc.Node? ==> Unfold(acc, env, n).Some?)
    ensures Meaning(if acc.Nil? then x else Bin(KAnd, acc, x), env, n, t, fold) <==>
            (acc.Nil? || Meaning(acc, env, n, t, fold)) && Meaning(x, env, n, t, fold)
  {
  }

  lemma SelectedMeaning(f: Entry, d: Expr, x: Expr, env: Table, n: nat, t: Track, fold: Fold)
    requires !f.selStat.Ignore? && Parse(f.filter) == Ok(d) && x == if f.selStat.No? then Node(KNot, d, Nil) else d
    requires Unfold(x, env, n).Some?
    ensures Meaning(x, env, n, t, fold) <==> SelectedHolds(f, env, n, t, fold)
  {
  }

  // ---- strcmp order, for the sorted filter list

  /** Names strictly ascend, so each name has one definition. */
  ghost predicate SortedNames(entries: seq<Entry>) {
    forall i, j :: 0 <= i < j < |entries| ==> StrCmp(entries[i].name, entries[j].name) < 0
  }

  ghost predicate AllParse(entries: seq<Entry>) {
    forall i :: 0 <= i < |entries| ==> Parse(entries[i].filter).Ok?
  }

  lemma PlacedSorted(entries: seq<Entry>, i: nat, e: Entry, drop: nat)
    requires SortedNames(entries) && i + drop <= |entries|
    requires forall k :: 0 <= k < i ==> StrCmp(entries[k].name, e.name) < 0
    requires i + drop < |entries| ==> StrCmp(e.name, entries[i + drop].name) < 0
    ensures SortedNames(entries[..i] + [e] + entries[i + drop..])
  {
    var r := entries[..i] + [e] + entries[i + drop..];
    forall a, b | 0 <= a < b < |r| ensures StrCmp(r[a].name, r[b].name) < 0 {
      if a == i && b > i + 1 {
        assert r[b] == entries[b - 1 + drop];
        StrCmpTransitive(e.name, entries[i + drop].name, r[b].name);
      } else if a < i < b {
        assert r[a] == entries[a] && r[b] == entries[b - 1 + drop];
      } else if a > i {
        assert r[a] == entries[a - 1 + drop] && r[b] == entries[b - 1 + drop];
      }
    }
  }

  /** A filter name: not empty, and key characters only. */
  predicate ValidName(name: string) {
    name != "" && AllKeyChars(name)
  }

  /** A name is valid exactly if, as a filter, it stands for the filter of that name. */
  lemma NameParses(name: string)
    ensures ValidName(name) <==> Parse(name) == Ok(LeafNode(KBool(name)))
  {
    if ValidName(name) {
      TextIsRead(Flag(name));
    }
    if Parse(name) == Ok(LeafNode(KBool(name))) {
      ParseWellFormed(name);
    }
  }

  lemma {:induction false} NothingMarked(entries: seq<Entry>)
    requires forall k :: 0 <= k < |entries| ==> !entries[k].visited
    ensures MarksOf(entries) == {}
  {
    if entries != [] {
      forall k | 0 <= k < |entries| - 1 ensures !entries[1..][k].visited { assert entries[1..][k] == entries[k + 1]; }
      NothingMarked(entries[1..]);
    }
  }

  lemma TableCons(e: Entry, rest: seq<Entry>)
    ensures TableOf([e] + rest) == TableOf(rest)[e.name := e.filter]
  {
    assert ([e] + rest)[1..] == rest;
  }

  /** The first entry stays when a later one is inserted or replaced. */
  lemma InsertedTail(entries: seq<Entry>, i: nat, e: Entry, drop: nat)
    requires 0 < i && i + drop <= |entries|
    ensures entries == [entries[0]] + entries[1..]
    ensures entries[..i] + [e] + entries[i + drop..]
         == [entries[0]] + (entries[1..][..i - 1] + [e] + entries[1..][i - 1 + drop..])
  {
  }

  /** Inserting or replacing at the right place is an update of the table. */
  lemma {:induction false} InsertedTable(entries: seq<Entry>, i: nat, e: Entry, drop: nat)
    requires i + drop <= |entries| && drop <= 1
    requires forall k :: 0 <= k < i ==> StrCmp(entries[k].name, e.name) < 0
    requires drop == 1 ==> entries[i].name == e.name
    ensures TableOf(entries[..i] + [e] + entries[i + drop..]) == TableOf(entries)[e.name := e.filter]
  {
    hide TableOf, StrCmp;
    if i == 0 {
      TableCons(e, entries[drop..]);
      assert entries[..0] + [e] + entries[drop..] == [e] + entries[drop..];
      if drop == 1 {
        TableCons(entries[0], entries[1..]);
        assert entries == [entries[0]] + entries[1..];
      }
    } else {
      StrCmpEqual(entries[0].name, e.name);
      InsertedTail(entries, i, e, drop);
      forall k | 0 <= k < i - 1 ensures StrCmp(entries[1..][k].name, e.name) < 0 {
        assert entries[1..][k] == entries[k + 1];
      }
      InsertedTable(entries[1..], i - 1, e, drop);
      TableCons(entries[0], entries[1..]);
      TableCons(entries[0], entries[1..][..i - 1] + [e] + entries[1..][i - 1 + drop..]);
    }
  }

  /** One entry is new or replaced, neither selected nor active; the others are the same, in the
      same order. */
  ghost predicate Redefined(before: seq<Entry>, after: seq<Entry>, key: string, val: string) {
    exists i: nat, drop: nat :: RedefinedAt(before, after, key, val, i, drop)
  }

  ghost predicate RedefinedAt(before: seq<Entry>, after: seq<Entry>, key: string, val: string, i: nat, drop: nat) {
    && i + drop <= |before| && drop <= 1 && |after| == |before| + 1 - drop
    && after[..i] == before[..i] && after[i + 1..] == before[i + drop..]
    && after[i].(visited := false) == Entry(key, val, false, Ignore, Ignore)
    && (drop == 1 ==> before[i].name == key)
  }

  /** What parse_filter makes of a text. */
  function Parsed(val: string, env: Table): (r: Option<Expr>)
    ensures r.Some? ==> Shape(r.value)
  {
    match Parse(val)
    case Err(_) => None
    case Ok(d) => CheckLeaves(d, env, {}).0
  }

  /** It accepts a text exactly if it parses and can be read with each name met once, and then has
      built-in leaves only and means the same. */
  lemma ParsedIs(val: string, env: Table)
    ensures Parsed(val, env).Some? <==> Parse(val).Ok? && ReadsEachNameOnce(Parse(val).value, env, {})
    ensures Parsed(val, env).Some? ==>
              && LeavesAreBuiltin(Parsed(val, env).value)
              && Unfold(Parse(val).value, env, |env|).Some?
              && forall t, fold :: MeansText(Parsed(val, env).value, val, env, t, fold)
  {
    hide Parse, CheckLeaves, LeavesAreBuiltin, Eval, Meaning;
    if Parse(val).Ok? {
      var d := Parse(val).value;
      CheckSucceedsIff(d, env, {});
      if Parsed(val, env).Some? {
        assert env.Keys - {} == env.Keys && Depth(env, {}) == |env|;
        CheckKeepsMeaning(d, env, {}, Track("", map[], map[], -1, -1), c => c);
        forall t, fold ensures MeansText(Parsed(val, env).value, val, env, t, fold) {
          CheckKeepsMeaning(d, env, {}, t, fold);
        }
      }
    }
  }

  ghost predicate MeansText(e: Expr, val: string, env: Table, t: Track, fold: Fold)
    requires Shape(e)
  {
    Parse(val).Ok? && Unfold(Parse(val).value, env, |env|).Some?
    && (Eval(e, t, fold) <==> Meaning(Parse(val).value, env, |env|, t, fold))
  }

  // ---- when activation succeeds

  predicate IsSelected(f: Entry) {
    !f.selStat.Ignore?
  }

  /** The join exists exactly if every selected filter parses, and is empty exactly if none is
      selected. */
  lemma {:induction false} ConjunctionIs(acc: Expr, entries: seq<Entry>)
    requires acc.Nil? || Shape(acc)
    ensures Conjunction(acc, entries).Ok? <==>
            forall i :: 0 <= i < |entries| && IsSelected(entries[i]) ==> Parse(entries[i].filter).Ok?
    ensures Conjunction(acc, entries).Ok? ==>
            (Conjunction(acc, entries).value.Nil? <==>
             acc.Nil? && forall i :: 0 <= i < |entries| ==> !IsSelected(entries[i]))
    decreases |entries|
  {
    hide Parse;
    if entries != [] {
      var f, tail := entries[0], entries[1..];
      assert forall i :: 0 <= i < |tail| ==> tail[i] == entries[i + 1];
      assert forall i :: 0 < i < |entries| ==> entries[i] == tail[i - 1];
      if !IsSelected(f) {
        ConjunctionIs(acc, tail);
      } else if Parse(f.filter).Ok? {
        var d := Parse(f.filter).value;
        var x := if f.selStat.No? then Node(KNot, d, Nil) else d;
        ConjunctionIs(if acc.Nil? then x else Bin(KAnd, acc, x), tail);
      }
    }
  }

  /** A filter selected after the others stands to their right. */
  lemma {:induction false} ConjunctionSnoc(acc: Expr, entries: seq<Entry>, f: Entry)
    requires acc.Nil? || Shape(acc)
    requires Conjunction(acc, entries).Ok? && IsSelected(f) && Parse(f.filter).Ok?
    ensures var c, d := Conjunction(acc, entries).value, Parse(f.filter).value;
            var x := if f.selStat.Yes? then d else Node(KNot, d, Nil);
            Conjunction(acc, entries + [f]) == Ok(if c.Nil? then x else Bin(KAnd, c, x))
    decreases |entries|
  {
    hide Parse;
    var all := entries + [f];
    if entries == [] {
      assert all[0] == f && all[1..] == [];
    } else {
      assert all[0] == entries[0] && all[1..] == entries[1..] + [f];
      if !IsSelected(entries[0]) {
        ConjunctionSnoc(acc, entries[1..], f);
      } else {
        var d := Parse(entries[0].filter).value;
        var x := if entries[0].selStat.No? then Node(KNot, d, Nil) else d;
        ConjunctionSnoc(if acc.Nil? then x else Bin(KAnd, acc, x), entries[1..], f);
      }
    }
  }

  ghost predicate Readable(f: Entry, env: Table, n: nat) {
    Parse(f.filter).Ok? && Unfold(Parse(f.filter).value, env, n).Some?
  }

  /** The names met in reading the definitions of the selected filters. */
  ghost function ReadNames(entries: seq<Entry>, env: Table, n: nat): seq<string> {
    if entries == [] then []
    else (if IsSelected(entries[0]) && Readable(entries[0], env, n)
          then Unfold(Parse(entries[0].filter).value, env, n).value.1
          else []) + ReadNames(entries[1..], env, n)
  }

  ghost predicate AllReadable(entries: seq<Entry>, env: Table, n: nat) {
    forall i :: 0 <= i < |entries| && IsSelected(entries[i]) ==> Readable(entries[i], env, n)
  }

  lemma AllReadableCons(entries: seq<Entry>, env: Table, n: nat)
    requires entries != []
    ensures AllReadable(entries, env, n) <==>
            (IsSelected(entries[0]) ==> Readable(entries[0], env, n)) && AllReadable(entries[1..], env, n)
  {
    var tail := entries[1..];
    assert forall i :: 0 <= i < |tail| ==> tail[i] == entries[i + 1];
    assert forall i :: 0 < i < |entries| ==> entries[i] == tail[i - 1];
  }

  /** The join can be read exactly if its parts can, and meets their names in order. */
  lemma {:induction false} ConjunctionReads(acc: Expr, entries: seq<Entry>, env: Table, n: nat)
    requires acc.Nil? || Shape(acc)
    requires Conjunction(acc, entries).Ok? && Conjunction(acc, entries).value.Node?
    ensures var c := Conjunction(acc, entries).value;
            && (Unfold(c, env, n).Some? <==>
                  (acc.Node? ==> Unfold(acc, env, n).Some?) && AllReadable(entries, env, n))
            && (Unfold(c, env, n).Some? ==>
                  Unfold(c, env, n).value.1 ==
                    (if acc.Node? then Unfold(acc, env, n).value.1 else []) + ReadNames(entries, env, n))
    decreases |entries|
  {
    hide Parse, Builtin, AllReadable;
    if entries == [] {
      NoneReadable(env, n);
    } else {
      AllReadableCons(entries, env, n);
      if !IsSelected(entries[0]) {
        ConjunctionReads(acc, entries[1..], env, n);
        assert [] + ReadNames(entries[1..], env, n) == ReadNames(entries[1..], env, n);
      } else {
        var d := Parse(entries[0].filter).value;
        var x := if entries[0].selStat.No? then Node(KNot, d, Nil) else d;
        ConjunctionReads(if acc.Nil? then x else Bin(KAnd, acc, x), entries[1..], env, n);
        AddedReads(acc, x, env, n);
        SelectedReads(d, x, env, n);
        Sequences.Assoc(if acc.Node? && Unfold(acc, env, n).Some? then Unfold(acc, env, n).value.1 else [],
                        if Unfold(x, env, n).Some? then Unfold(x, env, n).value.1 else [],
                        ReadNames(entries[1..], env, n));
      }
    }
  }

  lemma NoneReadable(env: Table, n: nat)
    ensures AllReadable([], env, n) && ReadNames([], env, n) == []
  {
  }

  lemma AddedReads(acc: Expr, x: Expr, env: Table, n: nat)
    requires (acc.Nil? || Shape(acc)) && Shape(x)
    ensures var r := Unfold(if acc.Nil? then x else Bin(KAnd, acc, x), env, n);
            && (r.Some? <==> (acc.Node? ==> Unfold(acc, env, n).Some?) && Unfold(x, env, n).Some?)
            && (r.Some? ==>
                  r.value.1 == (if acc.Node? then Unfold(acc, env, n).value.1 else []) + Unfold(x, env, n).value.1)
  {
  }

  lemma SelectedReads(d: Expr, x: Expr, env: Table, n: nat)
    requires Shape(d) && (x == d || x == Node(KNot, d, Nil))
    ensures Shape(x) && (Unfold(x, env, n).Some? <==> Unfold(d, env, n).Some?)
    ensures Unfold(x, env, n).Some? ==> Unfold(x, env, n).value.1 == Unfold(d, env, n).value.1
  {
  }

  /** The names whose first entry is selected. */
  ghost function SelectedNames(entries: seq<Entry>): set<string> {
    set i | 0 <= i < |entries| && IsSelected(entries[i]) && IsFirst(entries, i, entries[i].name) :: entries[i].name
  }

  lemma {:induction false} SelectedMarks(entries: seq<Entry>)
    ensures MarksOf(MarkSelected(entries)) == SelectedNames(entries)
  {
    var marked := MarkSelected(entries);
    forall name ensures name in MarksOf(marked) <==> name in SelectedNames(entries) {
      if i: nat :| IsFirst(entries, i, name) {
        FirstCounts(marked, i, name);
        assert forall j: nat :: IsFirst(entries, j, name) ==> j == i;
      } else {
        NoFirst(entries, name);
        AbsentName(marked, name);
      }
    }
  }

  lemma {:induction false} NoFirst(entries: seq<Entry>, name: string)
    requires forall i: nat :: !IsFirst(entries, i, name)
    ensures forall k :: 0 <= k < |entries| ==> entries[k].name != name
  {
    forall k | 0 <= k < |entries| ensures entries[k].name != name {
      NotEarlier(entries, name, k);
    }
  }

  lemma {:induction false} NotEarlier(entries: seq<Entry>, name: string, k: nat)
    requires k < |entries| && forall i: nat :: !IsFirst(entries, i, name)
    ensures forall j :: 0 <= j <= k ==> entries[j].name != name
  {
    if k > 0 {
      NotEarlier(entries, name, k - 1);
    }
    assert !IsFirst(entries, k, name);
  }

  /** Every selected filter parses and has a reading, and no name is met twice or selected. */
  ghost predicate Activatable(entries: seq<Entry>) {
    exists n: nat :: ActivatableAt(entries, n)
  }

  ghost predicate ActivatableAt(entries: seq<Entry>, n: nat) {
    var env := TableOf(entries);
    AllReadable(entries, env, n) && Fresh(ReadNames(entries, env, n), SelectedNames(entries))
  }

  /** What filters_activate makes of the selection. */
  function Joined(entries: seq<Entry>): (r: Option<Expr>)
    ensures r.Some? ==> r.value.Nil? || Shape(r.value)
  {
    match Conjunction(Nil, entries)
    case Err(_) => None
    case Ok(c) => if c.Nil? then Some(Nil) else CheckLeaves(c, TableOf(entries), MarksOf(MarkSelected(entries))).0
  }

  lemma ActivationIff(entries: seq<Entry>)
    ensures Joined(entries).Some? <==> Activatable(entries)
    ensures Joined(entries) == Some(Nil) <==> forall i :: 0 <= i < |entries| ==> !IsSelected(entries[i])
  {
    hide Parse, CheckLeaves, Unfold, Fresh;
    ConjunctionIs(Nil, entries);
    SelectedMarks(entries);
    var r, env := Conjunction(Nil, entries), TableOf(entries);
    if r.Err? {
      SomeUnreadable(entries);
    } else if r.value.Nil? {
      NothingRead(entries, env, 0);
      assert ActivatableAt(entries, 0);
    } else {
      CheckSucceedsIff(r.value, env, SelectedNames(entries));
      ReadIff(entries, r.value);
    }
  }

  lemma ReadIff(entries: seq<Entry>, c: Expr)
    requires Conjunction(Nil, entries) == Ok(c) && c.Node?
    ensures ReadsEachNameOnce(c, TableOf(entries), SelectedNames(entries)) <==> Activatable(entries)
  {
    hide Parse, Unfold, Fresh, AllReadable, ReadNames, Conjunction, SelectedNames;
    var env, vis := TableOf(entries), SelectedNames(entries);
    forall n: nat
      ensures Unfold(c, env, n).Some? && Fresh(Unfold(c, env, n).value.1, vis) <==> ActivatableAt(entries, n)
    {
      ConjunctionReads(Nil, entries, env, n);
      assert [] + ReadNames(entries, env, n) == ReadNames(entries, env, n);
    }
  }

  lemma SomeUnreadable(entries: seq<Entry>)
    requires Conjunction(Nil, entries).Err?
    ensures !Activatable(entries)
  {
    hide Parse, Unfold;
    ConjunctionIs(Nil, entries);
    var i :| 0 <= i < |entries| && IsSelected(entries[i]) && Parse(entries[i].filter).Err?;
    forall n: nat ensures !ActivatableAt(entries, n) {
      assert !Readable(entries[i], TableOf(entries), n);
    }
  }

  lemma {:induction false} NothingRead(entries: seq<Entry>, env: Table, n: nat)
    requires forall i :: 0 <= i < |entries| ==> !IsSelected(entries[i])
    ensures AllReadable(entries, env, n) && ReadNames(entries, env, n) == []
    ensures Fresh([], SelectedNames(entries))
  {
    if entries != [] {
      assert forall i :: 0 <= i < |entries| - 1 ==> entries[1..][i] == entries[i + 1];
      NothingRead(entries[1..], env, n);
    }
  }

  /** e has built-in leaves only, and accepts exactly the tracks for which every selected filter
      holds, or fails, as selected. */
  ghost predicate MeansSelection(e: Expr, entries: seq<Entry>) {
    && Shape(e) && LeavesAreBuiltin(e)
    && forall t, fold :: HoldsAsSelected(e, entries, t, fold)
  }

  ghost predicate HoldsAsSelected(e: Expr, entries: seq<Entry>, t: Track, fold: Fold)
    requires Shape(e)
  {
    var env := TableOf(entries);
    Eval(e, t, fold) <==> AllSelectedHold(entries, env, Depth(env, SelectedNames(entries)), t, fold)
  }

  /** After a successful activation the library filter has built-in leaves only and accepts
      exactly the tracks for which every selected filter holds, or fails, as selected. */
  lemma ActivationMeaning(entries: seq<Entry>, conj: Expr, vis: set<string>, t: Track, fold: Fold)
    requires Conjunction(Nil, entries) == Ok(conj) && conj.Node?
    requires CheckLeaves(conj, TableOf(entries), vis).0.Some?
    ensures var env := TableOf(entries);
            var e' := CheckLeaves(conj, env, vis).0.value;
            LeavesAreBuiltin(e') && (Eval(e', t, fold) <==> AllSelectedHold(entries, env, Depth(env, vis), t, fold))
  {
    CheckKeepsMeaning(conj, TableOf(entries), vis, t, fold);
    ConjunctionMeaning(Nil, entries, TableOf(entries), Depth(TableOf(entries), vis), t, fold);
  }

  lemma JoinedMeaning(entries: seq<Entry>)
    requires Joined(entries).Some? && Joined(entries).value.Node?
    ensures MeansSelection(Joined(entries).value, entries)
  {
    hide Parse, CheckLeaves, Conjunction, AllSelectedHold, Eval, LeavesAreBuiltin, Depth;
    SelectedMarks(entries);
    var e, conj := Joined(entries).value, Conjunction(Nil, entries).value;
    ActivationMeaning(entries, conj, SelectedNames(entries), Track("", map[], map[], -1, -1), c => c);
    forall t, fold ensures HoldsAsSelected(e, entries, t, fold) {
      ActivationMeaning(entries, conj, SelectedNames(entries), t, fold);
    }
  }

  // ---- the state

  class FilterList {
    var entries: seq<Entry>
    var recursive: Option<string>      // recursive_filter
    var active: Option<Expr>           // what lib_set_filter was given; None accepts everything

    constructor ()
      ensures entries == [] && active == None && SortedNames(entries) && AllParse(entries)
    {
      entries, recursive, active := [], None, None;
    }

    /** find_filter: the position of the first entry with that name, or -1. */
    method FindFilter(name: string) returns (i: int)
      ensures -1 <= i < |entries|
      ensures i >= 0 ==> IsFirst(entries, i, name)
      ensures i < 0 ==> name !in TableOf(entries)
    {
      i := 0;
      while i < |entries|
        invariant 0 <= i <= |entries| && forall k :: 0 <= k < i ==> entries[k].name != name
      {
        if entries[i].name == name { return; }
        i := i + 1;
      }
      AbsentName(entries, name);
      i := -1;
    }

    /** get_filter: hands out a definition once and marks it. */
    method GetFilter(name: string) returns (filter: Option<string>)
      modifies this`entries, this`recursive
      ensures SameButVisited(old(entries), entries)
      ensures var env, marks := TableOf(old(entries)), MarksOf(old(entries));
              if name !in env || name in marks then filter == None && MarksOf(entries) == marks
              else filter == Some(env[name]) && MarksOf(entries) == marks + {name}
      ensures recursive == if name in MarksOf(old(entries)) then Some(name) else old(recursive)
    {
      filter := None;
      var i := FindFilter(name);
      if i >= 0 {
        FirstCounts(entries, i, name);
        if entries[i].visited {
          recursive := Some(entries[i].name);
          return;
        }
        MarkFirst(entries, i, name);
        filter := Some(entries[i].filter);
        entries := entries[i := entries[i].(visited := true)];
      }
    }

    /** expr_check_leaves with get_filter as its callback. */
    method CheckLeavesOf(e: Expr) returns (expanded: Option<Expr>)
      requires Shape(e)
      modifies this`entries, this`recursive
      ensures SameButVisited(old(entries), entries)
      ensures (expanded, MarksOf(entries)) == CheckLeaves(e, TableOf(old(entries)), MarksOf(old(entries)))
      decreases TableOf(entries).Keys - MarksOf(entries), e
    {
      ghost var before := entries;
      if e.left.Node? {
        var l := CheckLeavesOf(e.left);
        SameTable(before, entries);
        if l.None? { return None; }
        if e.right.Node? {
          var r := CheckLeavesOf(e.right);
          if r.None? { return None; }
          return Some(Node(e.kind, l.value, r.value));
        }
        return Some(Node(e.kind, l.value, Nil));
      }
      assert e.kind.Leaf();
      var b := Builtin(e.kind.key);
      if b.Some? {
        return if b.value == TypeOf(e.kind) then Some(e) else None;
      }
      if !e.kind.KBool? {
        return None;
      }
      expanded := CheckNamed(e.kind.key);
    }

    /** The part of expr_check_leaves for a user-defined filter. */
    method CheckNamed(name: string) returns (expanded: Option<Expr>)
      requires Builtin(name).None?
      modifies this`entries, this`recursive
      ensures SameButVisited(old(entries), entries)
      ensures (expanded, MarksOf(entries))
           == CheckLeaves(LeafNode(KBool(name)), TableOf(old(entries)), MarksOf(old(entries)))
      decreases TableOf(entries).Keys - MarksOf(entries), Nil, 0
    {
      ghost var before := entries;
      var filter := GetFilter(name);
      if filter.None? {
        return None;
      }
      SameTable(before, entries);
      var d := ExprParse(filter.value);
      if d.Err? {
        return None;
      }
      expanded := CheckLeavesOf(d.value);
    }

    /** parse_filter: parse, forget all marks, expand. */
    method ParseFilter(val: string) returns (e: Option<Expr>)
      modifies this`entries, this`recursive
      ensures SameButVisited(old(entries), entries)
      ensures e == Parsed(val, TableOf(old(entries)))
    {
      var d := ExprParse(val);
      if d.Err? {
        return None;
      }
      ghost var before := entries;
      Unmark();
      SameTable(before, entries);
      recursive := None;
      e := CheckLeavesOf(d.value);
    }

    /** The loop of parse_filter that forgets which filters were visited. */
    method Unmark()
      modifies this`entries
      ensures SameButVisited(old(entries), entries) && MarksOf(entries) == {}
    {
      var i := 0;
      while i < |entries|
        invariant 0 <= i <= |entries| && SameButVisited(old(entries), entries)
        invariant forall k :: 0 <= k < i ==> !entries[k].visited
      {
        entries := entries[i := entries[i].(visited := false)];
        i := i + 1;
      }
      NothingMarked(entries);
    }

    /** filters_set_anonymous: a bad filter changes nothing but marks; otherwise it becomes the
        library filter, every filter is deactivated, and the selections stay. */
    method SetAnonymous(val: Option<string>)
      modifies this
      ensures if val.Some? && Parsed(val.value, TableOf(old(entries))).None?
              then active == old(active) && SameButVisited(old(entries), entries)
              else && active == (if val.None? then None else Parsed(val.value, TableOf(old(entries))))
                   && SameSelection(old(entries), entries)
                   && forall i :: 0 <= i < |entries| ==> entries[i].actStat.Ignore?
    {
      ghost var before := entries;
      var e := None;
      if val.Some? {
        e := ParseFilter(val.value);
        if e.None? { return; }
      }
      var es := entries;
      entries := seq(|es|, i requires 0 <= i < |es| => es[i].(actStat := Ignore));
      Unactivated(before, es, entries);
      active := e;
    }

    /** The first half of filters_activate: mark the selected filters and join them. */
    method JoinSelected() returns (expr: Result<Expr>)
      modifies this`entries
      ensures SameButVisited(old(entries), entries)
      ensures expr == Conjunction(Nil, old(entries))
      ensures expr.Ok? ==> entries == MarkSelected(old(entries))
    {
      var i, acc := 0, Nil;
      ghost var before := entries;
      while i < |entries|
        invariant 0 <= i <= |entries| == |before| && (acc.Nil? || Shape(acc))
        invariant forall k :: 0 <= k < i ==> entries[k] == before[k].(visited := !before[k].selStat.Ignore?)
        invariant forall k :: i <= k < |entries| ==> entries[k] == before[k]
        invariant Conjunction(acc, before[i..]) == Conjunction(Nil, before)
      {
        assert before[i..][0] == before[i] && before[i..][1..] == before[i + 1..];
        var f := entries[i];
        if f.selStat.Ignore? {
          entries := entries[i := f.(visited := false)];
        } else {
          entries := entries[i := f.(visited := true)];
          var e := ExprParse(f.filter);
          if e.Err? {
            return Err(e.error);
          }
          var x := if f.selStat.No? then Node(KNot, e.value, Nil) else e.value;
          acc := if acc.Nil? then x else Bin(KAnd, acc, x);
        }
        i := i + 1;
      }
      assert before[i..] == [];
      assert entries == MarkSelected(before);
      expr := Ok(acc);
    }

    /** filters_activate: the library filter changes only if everything expands. */
    method Activate() returns (ok: bool)
      modifies this
      ensures ok == Joined(old(entries)).Some?
      ensures ok ==> active == if Joined(old(entries)).value.Nil? then None else Joined(old(entries))
      ensures ok <==> Activatable(old(entries))
      ensures ok && (forall i :: 0 <= i < |old(entries)| ==> !IsSelected(old(entries)[i])) ==> active == None
      ensures ok && (exists i :: 0 <= i < |old(entries)| && IsSelected(old(entries)[i])) ==>
                active.Some? && MeansSelection(active.value, old(entries))
      ensures !ok ==> active == old(active) && SameButVisited(old(entries), entries)
      ensures SameSelection(old(entries), entries)
      ensures ok ==> forall i :: 0 <= i < |entries| ==> entries[i].actStat == entries[i].selStat
    {
      hide Parse, CheckLeaves, Conjunction, MeansSelection, Activatable;
      ghost var before := entries;
      ActivationIff(before);
      if Joined(before).Some? && Joined(before).value.Node? {
        JoinedMeaning(before);
      }
      var expr := JoinSelected();
      SameTable(before, entries);
      if expr.Err? { return false; }
      recursive := None;
      var expanded: Option<Expr> := None;
      if expr.value.Node? {
        expanded := CheckLeavesOf(expr.value);
        if expanded.None? { return false; }
      }
      var es := entries;
      entries := seq(|es|, i requires 0 <= i < |es| => es[i].(actStat := es[i].selStat));
      Unactivated(before, es, entries);
      active := expanded;
      ok := true;
    }

    /** do_filters_set_filter, after the name=value text has been split: adds or replaces a
        definition; a bad name or a definition that does not parse changes nothing. */
    method SetFilter(key: string, val: string)
      requires SortedNames(entries) && AllParse(entries)
      modifies this`entries
      ensures SortedNames(entries) && AllParse(entries)
      ensures if ValidName(key) && Parse(val).Ok?
              then TableOf(entries) == TableOf(old(entries))[key := val] && Redefined(old(entries), entries, key, val)
              else entries == old(entries)
    {
      if !ValidName(key) { return; }
      var expr := ExprParse(val);
      if expr.Err? { return; }
      var unset: bool := *; // the mark of a new entry
      var e := Entry(key, val, unset, Ignore, Ignore);
      var i, drop := FindPlace(key);
      PlacedSorted(entries, i, e, drop);
      InsertedTable(entries, i, e, drop);
      ghost var before := entries;
      entries := entries[..i] + [e] + entries[i + drop..];
      assert RedefinedAt(before, entries, key, val, i, drop);
    }

    /** Where an entry of that name belongs, and whether it replaces the entry there. */
    method FindPlace(key: string) returns (i: nat, drop: nat)
      requires SortedNames(entries)
      ensures i + drop <= |entries| && drop <= 1
      ensures forall k :: 0 <= k < i ==> StrCmp(entries[k].name, key) < 0
      ensures drop == 1 ==> entries[i].name == key
      ensures i + drop < |entries| ==> StrCmp(key, entries[i + drop].name) < 0
    {
      i, drop := 0, 0;
      while i < |entries|
        invariant 0 <= i <= |entries|
        invariant forall k :: 0 <= k < i ==> StrCmp(entries[k].name, key) < 0
      {
        StrCmpEqual(key, entries[i].name);
        StrCmpEqual(entries[i].name, key);
        var res := StrCmp(key, entries[i].name);
        if res < 0 { return; }
        if res == 0 {
          drop := 1;
          return;
        }
        i := i + 1;
      }
    }
  }
}
