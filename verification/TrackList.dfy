/** track.c: the next and the previous track of a list among those a mode allows. */
module TrackList {
  import opened Options

  /** No allowed track lies strictly after i and before j, going forwards around the end. */
  predicate NoneBetween<T>(list: seq<T>, allowed: T -> bool, i: nat, j: nat)
    requires i < |list| && j < |list|
  {
    if i < j then forall k :: i < k < j ==> !allowed(list[k])
    else (forall k :: i < k < |list| ==> !allowed(list[k])) && (forall k :: 0 <= k < j ==> !allowed(list[k]))
  }

  /** The first allowed index from item on. */
  method Forwards<T>(list: seq<T>, item: nat, allowed: T -> bool) returns (j: nat)
    requires item <= |list|
    ensures item <= j <= |list| && (j < |list| ==> allowed(list[j])) && forall k :: item <= k < j ==> !allowed(list[k])
  {
    j := item;
    while j < |list| && !allowed(list[j])
      invariant item <= j <= |list| && forall k :: item <= k < j ==> !allowed(list[k])
    {
      j := j + 1;
    }
  }

  /** One more than the last allowed index before end, or 0. */
  method Backwards<T>(list: seq<T>, end: nat, allowed: T -> bool) returns (j: nat)
    requires end <= |list|
    ensures j <= end && (j > 0 ==> allowed(list[j - 1])) && forall k :: j <= k < end ==> !allowed(list[k])
  {
    j := end;
    while j > 0 && !allowed(list[j - 1])
      invariant j <= end && forall k :: j <= k < end ==> !allowed(list[k])
    {
      j := j - 1;
    }
  }

  /** What a step from item i gives: the nearest allowed track further on, or before; around the end
      of the list only when repeating. */
  ghost predicate StepsFrom<T>(list: seq<T>, forward: bool, i: nat, allowed: T -> bool, t: Option<T>, repeat: bool)
    requires i < |list|
  {
    match t
    case None => !repeat && NoneFurther(list, forward, i, allowed)
    case Some(x) => exists j: nat :: j < |list| && list[j] == x && Reaches(list, forward, i, j, allowed, repeat)
  }

  ghost predicate Reaches<T>(list: seq<T>, forward: bool, i: nat, j: nat, allowed: T -> bool, repeat: bool)
    requires i < |list| && j < |list|
  {
    && allowed(list[j])
    && (repeat || if forward then i < j else j < i)
    && (if forward then NoneBetween(list, allowed, i, j) else NoneBetween(list, allowed, j, i))
  }

  ghost predicate NoneFurther<T>(list: seq<T>, forward: bool, i: nat, allowed: T -> bool)
    requires i < |list|
  {
    forall k :: (if forward then i < k < |list| else 0 <= k < i) ==> !allowed(list[k])
  }

  ghost predicate Steps<T>(list: seq<T>, forward: bool, cur: T, allowed: T -> bool, t: Option<T>, repeat: bool) {
    exists i: nat :: i < |list| && list[i] == cur && StepsFrom(list, forward, i, allowed, t, repeat)
  }

  /** The first allowed track of the list, or the last one. */
  ghost predicate Outermost<T>(list: seq<T>, forward: bool, allowed: T -> bool, t: T) {
    exists j: nat :: j < |list| && list[j] == t && allowed(t) && NoneFurther(list, !forward, j, allowed)
  }

  /** simple_list_get_next or, without automatic reshuffling, shuffle_list_get_next: the nearest
      allowed track further on, around the end only when repeating.  When repeating some track must
      be allowed, or the search would go round for ever; Traversal.AaaModeFilterIsRange says that the
      current one is. */
  method ListGetNext<T>(list: seq<T>, cur: Option<nat>, allowed: T -> bool, repeat: bool) returns (r: Option<nat>)
    requires list != [] && (cur.Some? ==> cur.value < |list|)
    requires cur.Some? && repeat ==> exists k :: 0 <= k < |list| && allowed(list[k])
    ensures cur.None? ==> r == Some(0)
    ensures cur.Some? && r.Some? ==>
      r.value < |list| && Reaches(list, true, cur.value, r.value, allowed, repeat)
    ensures cur.Some? && r.None? ==> !repeat && NoneFurther(list, true, cur.value, allowed)
  {
    if cur.None? {
      return Some(0);
    }
    var j := Forwards(list, cur.value + 1, allowed);
    if j < |list| {
      return Some(j);
    }
    if !repeat {
      return None;
    }
    j := Forwards(list, 0, allowed);
    r := Some(j);
  }

  /** simple_list_get_prev or shuffle_list_get_prev likewise. */
  method ListGetPrev<T>(list: seq<T>, cur: Option<nat>, allowed: T -> bool, repeat: bool) returns (r: Option<nat>)
    requires list != [] && (cur.Some? ==> cur.value < |list|)
    requires cur.Some? && repeat ==> exists k :: 0 <= k < |list| && allowed(list[k])
    ensures cur.None? ==> r == Some(0)
    ensures cur.Some? && r.Some? ==>
      r.value < |list| && Reaches(list, false, cur.value, r.value, allowed, repeat)
    ensures cur.Some? && r.None? ==> !repeat && NoneFurther(list, false, cur.value, allowed)
  {
    if cur.None? {
      return Some(0);
    }
    var j := Backwards(list, cur.value, allowed);
    if j > 0 {
      return Some(j - 1);
    }
    if !repeat {
      return None;
    }
    j := Backwards(list, |list|, allowed);
    r := Some(j - 1);
  }

  /** Either of the two, as a step over tracks. */
  method ListStep<T>(list: seq<T>, forward: bool, i: nat, allowed: T -> bool, repeat: bool) returns (t: Option<T>)
    requires i < |list| && allowed(list[i])
    ensures StepsFrom(list, forward, i, allowed, t, repeat)
    ensures t.Some? ==> t.value in list
  {
    var r: Option<nat>;
    if forward {
      r := ListGetNext(list, Some(i), allowed, repeat);
    } else {
      r := ListGetPrev(list, Some(i), allowed, repeat);
    }
    t := None;
    if r.Some? {
      t := Some(list[r.value]);
      assert Reaches(list, forward, i, r.value, allowed, repeat);
    }
  }

  /** The search goes on from the other end of the list. */
  method FromEnd<T>(list: seq<T>, forward: bool, allowed: T -> bool) returns (t: T)
    requires exists k :: 0 <= k < |list| && allowed(list[k])
    ensures t in list && Outermost(list, forward, allowed, t)
  {
    var j: nat;
    if forward {
      j := Forwards(list, 0, allowed);
    } else {
      j := Backwards(list, |list|, allowed);
      j := j - 1;
    }
    t := list[j];
  }

  /** What the two promise determines their results. */
  lemma NearestIsUnique<T>(list: seq<T>, allowed: T -> bool, i: nat, j: nat, j': nat)
    requires i < |list| && j < |list| && j' < |list| && allowed(list[j]) && allowed(list[j'])
    requires (NoneBetween(list, allowed, i, j) && NoneBetween(list, allowed, i, j'))
             || (NoneBetween(list, allowed, j, i) && NoneBetween(list, allowed, j', i))
    ensures j == j'
  {
  }

  /** When repeating from an allowed track, next and previous undo each other. */
  method NextThenPrev<T>(list: seq<T>, i: nat, allowed: T -> bool) returns (back: Option<nat>, forth: Option<nat>)
    requires i < |list| && allowed(list[i])
    ensures back == forth == Some(i)
  {
    var next := ListGetNext(list, Some(i), allowed, true);
    back := ListGetPrev(list, next, allowed, true);
    NearestIsUnique(list, allowed, next.value, i, back.value);
    var prev := ListGetPrev(list, Some(i), allowed, true);
    forth := ListGetNext(list, prev, allowed, true);
    NearestIsUnique(list, allowed, prev.value, i, forth.value);
  }
}
