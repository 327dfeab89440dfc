/** Walking the library: lib.c's next and previous track within an album, an artist or the whole
    library, and tree.c's next and previous row, against one flat sequence each. */
module Traversal {
  import opened Options
  import opened Sequences
  import opened LibraryTree
  import opened TrackInfo

  datatype AaaMode = All | OneArtist | OneAlbum

  /** A track: artist i, album j, track k. */
  datatype Pos = Pos(i: nat, j: nat, k: nat)

  /** What the library guarantees of its tree. */
  ghost predicate NoneEmpty(artists: seq<Artist>) {
    forall i :: 0 <= i < |artists| ==>
      artists[i].albums != [] && forall j :: 0 <= j < |artists[i].albums| ==> artists[i].albums[j].tracks != []
  }

  lemma TreesHaveNoneEmpty(r: Rules, artists: seq<Artist>)
    requires TreeOk(r, artists)
    ensures NoneEmpty(artists)
  {
    forall i | 0 <= i < |artists|
      ensures artists[i].albums != [] && forall j :: 0 <= j < |artists[i].albums| ==> artists[i].albums[j].tracks != []
    {
      assert ArtistOk(r, artists[i]);
    }
  }

  predicate In(artists: seq<Artist>, p: Pos) {
    Place(artists, p.i, p.j, p.k)
  }

  // ---- next and previous track

  /** album_last_track */
  function AlbumLast(artists: seq<Artist>, i: nat, j: nat): Pos
    requires i < |artists| && j < |artists[i].albums| && artists[i].albums[j].tracks != []
  {
    Pos(i, j, |artists[i].albums[j].tracks| - 1)
  }

  /** artist_last_track */
  function ArtistLast(artists: seq<Artist>, i: nat): Pos
    requires NoneEmpty(artists) && i < |artists|
  {
    AlbumLast(artists, i, |artists[i].albums| - 1)
  }

  /** normal_get_next */
  function NormalNext(artists: seq<Artist>, cur: Option<Pos>, mode: AaaMode, repeat: bool): Option<Pos>
    requires NoneEmpty(artists) && artists != [] && (cur.Some? ==> In(artists, cur.value))
  {
    if cur.None? then Some(Pos(0, 0, 0)) else
    var Pos(i, j, k) := cur.value;
    if k + 1 < |artists[i].albums[j].tracks| then Some(Pos(i, j, k + 1))
    else if mode == OneAlbum then (if repeat then Some(Pos(i, j, 0)) else None)
    else if j + 1 < |artists[i].albums| then Some(Pos(i, j + 1, 0))
    else if mode == OneArtist then (if repeat then Some(Pos(i, 0, 0)) else None)
    else if i + 1 < |artists| then Some(Pos(i + 1, 0, 0))
    else if repeat then Some(Pos(0, 0, 0)) else None
  }

  /** normal_get_prev */
  function NormalPrev(artists: seq<Artist>, cur: Option<Pos>, mode: AaaMode, repeat: bool): Option<Pos>
    requires NoneEmpty(artists) && artists != [] && (cur.Some? ==> In(artists, cur.value))
  {
    if cur.None? then Some(Pos(0, 0, 0)) else
    var Pos(i, j, k) := cur.value;
    if k > 0 then Some(Pos(i, j, k - 1))
    else if mode == OneAlbum then (if repeat then Some(AlbumLast(artists, i, j)) else None)
    else if j > 0 then Some(AlbumLast(artists, i, j - 1))
    else if mode == OneArtist then (if repeat then Some(ArtistLast(artists, i)) else None)
    else if i > 0 then Some(ArtistLast(artists, i - 1))
    else if repeat then Some(ArtistLast(artists, |artists| - 1)) else None
  }

  // ---- positions in a flat sequence

  /** Where part i begins. */
  function Start<T, X>(s: seq<T>, f: T -> seq<X>, i: nat): nat
    requires i <= |s|
  {
    |Flat(s[..i], f)|
  }

  lemma StartNext<T, X>(s: seq<T>, f: T -> seq<X>, i: nat)
    requires i < |s|
    ensures Start(s, f, i + 1) == Start(s, f, i) + |f(s[i])|
  {
    hide Flat;
    assert s[..i + 1] == s[..i] + [s[i]];
    FlatConcat(s[..i], [s[i]], f);
    FlatOne(s[i], f);
  }

  lemma StartEnds<T, X>(s: seq<T>, f: T -> seq<X>)
    ensures Start(s, f, 0) == 0 && Start(s, f, |s|) == |Flat(s, f)|
  {
    assert s[..|s|] == s;
  }

  lemma {:induction false} StartGrows<T, X>(s: seq<T>, f: T -> seq<X>, i: nat, j: nat)
    requires i <= j <= |s|
    ensures Start(s, f, i) <= Start(s, f, j)
    decreases j
  {
    if i < j {
      StartGrows(s, f, i, j - 1);
      StartNext(s, f, j - 1);
    }
  }

  /** An element at offset q of part i comes before any element of a later part, and is that
      element of the whole. */
  lemma PartBefore<T, X>(s: seq<T>, f: T -> seq<X>, i: nat, q: nat, j: nat)
    requires i < j <= |s| && q < |f(s[i])|
    ensures Start(s, f, i) + q < Start(s, f, j)
  {
    StartNext(s, f, i);
    StartGrows(s, f, i + 1, j);
  }

  lemma PartElement<T, X>(s: seq<T>, f: T -> seq<X>, i: nat, q: nat)
    requires i < |s| && q < |f(s[i])|
    ensures Start(s, f, i) + q < |Flat(s, f)| && Flat(s, f)[Start(s, f, i) + q] == f(s[i])[q]
  {
    FlatAt(s, i, f);
  }

  // ---- the index of a track

  function InArtist(a: Artist, j: nat, k: nat): nat
    requires j < |a.albums|
  {
    Start(a.albums, TracksOf, j) + k
  }

  function Index(artists: seq<Artist>, p: Pos): nat
    requires In(artists, p)
  {
    Start(artists, ArtistTracks, p.i) + InArtist(artists[p.i], p.j, p.k)
  }

  lemma InArtistElement(a: Artist, j: nat, k: nat)
    requires j < |a.albums| && k < |a.albums[j].tracks|
    ensures InArtist(a, j, k) < |ArtistTracks(a)| && ArtistTracks(a)[InArtist(a, j, k)] == a.albums[j].tracks[k]
  {
    PartElement(a.albums, TracksOf, j, k);
  }

  /** The index of a place is where its track is in the flat sequence. */
  lemma IndexElement(artists: seq<Artist>, p: Pos)
    requires In(artists, p)
    ensures Index(artists, p) < |TreeTracks(artists)|
    ensures TreeTracks(artists)[Index(artists, p)] == At(artists, p.i, p.j, p.k)
  {
    hide Start, Flat;
    InArtistElement(artists[p.i], p.j, p.k);
    PartElement(artists, ArtistTracks, p.i, InArtist(artists[p.i], p.j, p.k));
  }

  /** Places in order have indexes in order. */
  lemma IndexOrder(artists: seq<Artist>, p: Pos, q: Pos)
    requires In(artists, p) && In(artists, q)
    requires p.i < q.i || (p.i == q.i && (p.j < q.j || (p.j == q.j && p.k < q.k)))
    ensures Index(artists, p) < Index(artists, q)
  {
    hide Start, Flat;
    if p.i < q.i {
      InArtistElement(artists[p.i], p.j, p.k);
      PartBefore(artists, ArtistTracks, p.i, InArtist(artists[p.i], p.j, p.k), q.i);
    } else if p.j < q.j {
      PartBefore(artists[p.i].albums, TracksOf, p.j, p.k, q.j);
    }
  }

  lemma IndexInjective(artists: seq<Artist>, p: Pos, q: Pos)
    requires In(artists, p) && In(artists, q) && Index(artists, p) == Index(artists, q)
    ensures p == q
  {
    hide Index;
    if p.i < q.i || (p.i == q.i && (p.j < q.j || (p.j == q.j && p.k < q.k))) {
      IndexOrder(artists, p, q);
    } else if p != q {
      IndexOrder(artists, q, p);
    }
  }

  /** The range of indexes that a mode confines playing to. */
  function Lo(artists: seq<Artist>, p: Pos, mode: AaaMode): nat
    requires In(artists, p)
  {
    match mode
    case All => 0
    case OneArtist => Start(artists, ArtistTracks, p.i)
    case OneAlbum => Start(artists, ArtistTracks, p.i) + Start(artists[p.i].albums, TracksOf, p.j)
  }

  function Hi(artists: seq<Artist>, p: Pos, mode: AaaMode): nat
    requires In(artists, p)
  {
    match mode
    case All => |TreeTracks(artists)|
    case OneArtist => Start(artists, ArtistTracks, p.i + 1)
    case OneAlbum => Start(artists, ArtistTracks, p.i) + Start(artists[p.i].albums, TracksOf, p.j + 1)
  }

  lemma AlbumRange(artists: seq<Artist>, p: Pos)
    requires In(artists, p)
    ensures Lo(artists, p, OneAlbum) <= Index(artists, p) < Hi(artists, p, OneAlbum)
    ensures p.k == 0 <==> Index(artists, p) == Lo(artists, p, OneAlbum)
    ensures p.k + 1 == |artists[p.i].albums[p.j].tracks| <==> Index(artists, p) + 1 == Hi(artists, p, OneAlbum)
  {
    hide Start;
    StartNext(artists[p.i].albums, TracksOf, p.j);
  }

  /** The album's range within the artist's, sharing an end exactly for the first and the last
      album. */
  lemma ArtistRange(artists: seq<Artist>, p: Pos)
    requires In(artists, p) && NoneEmpty(artists)
    ensures Lo(artists, p, OneArtist) <= Lo(artists, p, OneAlbum)
    ensures Hi(artists, p, OneAlbum) <= Hi(artists, p, OneArtist)
    ensures p.j == 0 <==> Lo(artists, p, OneAlbum) == Lo(artists, p, OneArtist)
    ensures p.j + 1 == |artists[p.i].albums| <==> Hi(artists, p, OneAlbum) == Hi(artists, p, OneArtist)
  {
    hide Start;
    var s := artists[p.i].albums;
    StartNext(artists, ArtistTracks, p.i);
    StartEnds(s, TracksOf);
    if p.j > 0 {
      PartBefore(s, TracksOf, 0, 0, p.j);
    }
    if p.j + 1 < |s| {
      PartBefore(s, TracksOf, p.j + 1, 0, |s|);
    }
  }

  lemma AllRange(artists: seq<Artist>, p: Pos)
    requires In(artists, p) && NoneEmpty(artists)
    ensures Hi(artists, p, OneArtist) <= Hi(artists, p, All)
    ensures p.i == 0 <==> Lo(artists, p, OneArtist) == Lo(artists, p, All)
    ensures p.i + 1 == |artists| <==> Hi(artists, p, OneArtist) == Hi(artists, p, All)
  {
    hide Start, Flat;
    StartEnds(artists, ArtistTracks);
    if p.i > 0 {
      InArtistElement(artists[0], 0, 0);
      PartBefore(artists, ArtistTracks, 0, InArtist(artists[0], 0, 0), p.i);
    }
    if p.i + 1 < |artists| {
      InArtistElement(artists[p.i + 1], 0, 0);
      PartBefore(artists, ArtistTracks, p.i + 1, InArtist(artists[p.i + 1], 0, 0), |artists|);
    }
  }

  /** All three ranges around a place, and which of their ends coincide. */
  lemma Ranges(artists: seq<Artist>, p: Pos)
    requires In(artists, p) && NoneEmpty(artists)
    ensures Lo(artists, p, All) <= Lo(artists, p, OneArtist) <= Lo(artists, p, OneAlbum) <= Index(artists, p)
    ensures Index(artists, p) < Hi(artists, p, OneAlbum) <= Hi(artists, p, OneArtist) <= Hi(artists, p, All)
    ensures p.k == 0 <==> Index(artists, p) == Lo(artists, p, OneAlbum)
    ensures p.k + 1 == |artists[p.i].albums[p.j].tracks| <==> Index(artists, p) + 1 == Hi(artists, p, OneAlbum)
    ensures p.j == 0 <==> Lo(artists, p, OneAlbum) == Lo(artists, p, OneArtist)
    ensures p.j + 1 == |artists[p.i].albums| <==> Hi(artists, p, OneAlbum) == Hi(artists, p, OneArtist)
    ensures p.i == 0 <==> Lo(artists, p, OneArtist) == Lo(artists, p, All)
    ensures p.i + 1 == |artists| <==> Hi(artists, p, OneArtist) == Hi(artists, p, All)
  {
    AlbumRange(artists, p);
    ArtistRange(artists, p);
    AllRange(artists, p);
    hide Hi, Index;
  }

  /** q is at index n and confined to the same range as p. */
  ghost predicate GoesTo(artists: seq<Artist>, p: Pos, mode: AaaMode, q: Option<Pos>, n: int)
    requires In(artists, p)
  {
    && q.Some? && In(artists, q.value) && Index(artists, q.value) == n
    && Lo(artists, q.value, mode) == Lo(artists, p, mode) && Hi(artists, q.value, mode) == Hi(artists, p, mode)
  }

  /** The next track is the next one of the flat sequence, and after the last of the range its
      first one if repeating. */
  lemma NextIs(artists: seq<Artist>, p: Pos, mode: AaaMode, repeat: bool)
    requires NoneEmpty(artists) && In(artists, p)
    ensures var n, q := Index(artists, p), NormalNext(artists, Some(p), mode, repeat);
            if n + 1 < Hi(artists, p, mode) then GoesTo(artists, p, mode, q, n + 1)
            else if repeat then GoesTo(artists, p, mode, q, Lo(artists, p, mode))
            else q.None?
  {
    hide Start, Flat, Index;
    Ranges(artists, p);
    var Pos(i, j, k) := p;
    var q := NormalNext(artists, Some(p), mode, repeat);
    if q.Some? {
      Ranges(artists, q.value);
      if q.value == Pos(i, j, k + 1) {
        NextInAlbum(artists, p, q.value);
      }
    }
  }

  lemma NextInAlbum(artists: seq<Artist>, p: Pos, q: Pos)
    requires In(artists, p) && q == Pos(p.i, p.j, p.k + 1) && In(artists, q)
    ensures Index(artists, q) == Index(artists, p) + 1
  {
  }

  /** The previous track, likewise. */
  lemma PrevIs(artists: seq<Artist>, p: Pos, mode: AaaMode, repeat: bool)
    requires NoneEmpty(artists) && In(artists, p)
    ensures var n, q := Index(artists, p), NormalPrev(artists, Some(p), mode, repeat);
            if n > Lo(artists, p, mode) then GoesTo(artists, p, mode, q, n - 1)
            else if repeat then GoesTo(artists, p, mode, q, Hi(artists, p, mode) - 1)
            else q.None?
  {
    hide Start, Flat, Index;
    Ranges(artists, p);
    var Pos(i, j, k) := p;
    var q := NormalPrev(artists, Some(p), mode, repeat);
    if q.Some? {
      Ranges(artists, q.value);
      if k > 0 {
        NextInAlbum(artists, q.value, p);
      }
    }
  }

  /** With repeat on, previous undoes next and next undoes previous. */
  lemma PrevUndoesNext(artists: seq<Artist>, p: Pos, mode: AaaMode)
    requires NoneEmpty(artists) && In(artists, p)
    ensures NormalNext(artists, Some(p), mode, true).Some?
    ensures In(artists, NormalNext(artists, Some(p), mode, true).value)
    ensures NormalPrev(artists, Some(p), mode, true).Some?
    ensures In(artists, NormalPrev(artists, Some(p), mode, true).value)
    ensures NormalPrev(artists, NormalNext(artists, Some(p), mode, true), mode, true) == Some(p)
    ensures NormalNext(artists, NormalPrev(artists, Some(p), mode, true), mode, true) == Some(p)
  {
    hide Index, Lo, Hi, NormalNext, NormalPrev;
    InRange(artists, p, mode);
    NextIs(artists, p, mode, true);
    PrevIs(artists, p, mode, true);
    var q, r := NormalNext(artists, Some(p), mode, true).value, NormalPrev(artists, Some(p), mode, true).value;
    PrevIs(artists, q, mode, true);
    NextIs(artists, r, mode, true);
    IndexInjective(artists, NormalPrev(artists, Some(q), mode, true).value, p);
    IndexInjective(artists, NormalNext(artists, Some(r), mode, true).value, p);
  }

  lemma InRange(artists: seq<Artist>, p: Pos, mode: AaaMode)
    requires NoneEmpty(artists) && In(artists, p)
    ensures Lo(artists, p, mode) <= Index(artists, p) < Hi(artists, p, mode)
  {
    Ranges(artists, p);
  }

  /** m times next, repeating. */
  function Nth(artists: seq<Artist>, p: Pos, mode: AaaMode, m: nat): (r: Option<Pos>)
    requires NoneEmpty(artists) && artists != [] && In(artists, p)
    ensures r.Some? ==> In(artists, r.value)
  {
    if m == 0 then Some(p) else
    var q := Nth(artists, p, mode, m - 1);
    if q.None? then None else
    NextIs(artists, q.value, mode, true);
    NormalNext(artists, q, mode, true)
  }

  /** Index n advanced by m within lo..hi, around the end. */
  function Rotate(lo: nat, hi: nat, n: nat, m: nat): nat
    requires lo <= n < hi
  {
    lo + (n - lo + m) % (hi - lo)
  }

  lemma RotateStep(lo: nat, hi: nat, n: nat, m: nat)
    requires lo <= n < hi
    ensures lo <= Rotate(lo, hi, n, m) < hi
    ensures Rotate(lo, hi, n, m + 1) == if Rotate(lo, hi, n, m) + 1 < hi then Rotate(lo, hi, n, m) + 1 else lo
  {
    var d, x: nat := hi - lo, n - lo + m;
    ModStep(x, d);
  }

  lemma ModStep(x: nat, d: nat)
    requires d > 0
    ensures (x + 1) % d == if x % d + 1 < d then x % d + 1 else 0
  {
    var q, r := x / d, x % d;
    assert x == d * q + r;
    if r + 1 < d {
      ModIs(d, q, r + 1);
    } else {
      assert x + 1 == d * (q + 1) + 0;
      ModIs(d, q + 1, 0);
    }
  }

  lemma ModIs(d: nat, q: nat, r: nat)
    requires r < d
    ensures (d * q + r) % d == r
  {
    var x := d * q + r;
    assert x == d * (x / d) + x % d;
    if q < x / d {
      MulLess(d, q, x / d);
    } else if x / d < q {
      MulLess(d, x / d, q);
    }
  }

  lemma MulLess(d: nat, a: nat, b: nat)
    requires a < b
    ensures d * a + d <= d * b
    decreases b
  {
    assert d * b == d * (b - 1) + d;
    if a + 1 < b {
      MulLess(d, a, b - 1);
    }
  }

  /** Playing on with repeat is a rotation of the range: after m tracks the one m further in the
      flat sequence of the album, artist or library. */
  lemma {:induction false} PlayingRotates(artists: seq<Artist>, p: Pos, mode: AaaMode, m: nat)
    requires NoneEmpty(artists) && artists != [] && In(artists, p)
    ensures Lo(artists, p, mode) <= Index(artists, p) < Hi(artists, p, mode)
    ensures GoesTo(artists, p, mode, Nth(artists, p, mode, m),
                   Rotate(Lo(artists, p, mode), Hi(artists, p, mode), Index(artists, p), m))
  {
    hide Index, Lo, Hi, NormalNext;
    InRange(artists, p, mode);
    var lo, hi, n := Lo(artists, p, mode), Hi(artists, p, mode), Index(artists, p);
    if m == 0 {
      ModIs(hi - lo, 0, n - lo);
    } else {
      PlayingRotates(artists, p, mode, m - 1);
      RotateStep(lo, hi, n, m - 1);
      NextIs(artists, Nth(artists, p, mode, m - 1).value, mode, true);
    }
  }

  /** Every track of the range is played within one cycle. */
  lemma CycleVisitsAll(artists: seq<Artist>, p: Pos, mode: AaaMode, q: Pos) returns (m: nat)
    requires NoneEmpty(artists) && artists != [] && In(artists, p) && In(artists, q)
    requires Lo(artists, p, mode) <= Index(artists, q) < Hi(artists, p, mode)
    ensures m < Hi(artists, p, mode) - Lo(artists, p, mode) && Nth(artists, p, mode, m) == Some(q)
  {
    hide Index, Lo, Hi, NormalNext, Nth;
    InRange(artists, p, mode);
    var lo, hi, n, i := Lo(artists, p, mode), Hi(artists, p, mode), Index(artists, p), Index(artists, q);
    m := if i >= n then i - n else i - n + (hi - lo);
    PlayingRotates(artists, p, mode, m);
    ModSmall(n - lo + m, hi - lo);
    IndexInjective(artists, Nth(artists, p, mode, m).value, q);
  }

  /** Within one cycle no track is played twice, and then it starts over. */
  lemma CycleIsInjective(artists: seq<Artist>, p: Pos, mode: AaaMode, m: nat, m': nat)
    requires NoneEmpty(artists) && artists != [] && In(artists, p)
    requires m < m' < Hi(artists, p, mode) - Lo(artists, p, mode)
    ensures Nth(artists, p, mode, m) != Nth(artists, p, mode, m')
    ensures Nth(artists, p, mode, Hi(artists, p, mode) - Lo(artists, p, mode)) == Some(p)
  {
    hide Index, Lo, Hi, NormalNext, Nth;
    PlayingRotates(artists, p, mode, m);
    PlayingRotates(artists, p, mode, m');
    var lo, hi, n := Lo(artists, p, mode), Hi(artists, p, mode), Index(artists, p);
    ModSmall(n - lo + m, hi - lo);
    ModSmall(n - lo + m', hi - lo);
    PlayingRotates(artists, p, mode, hi - lo);
    ModSmall(n - lo + (hi - lo), hi - lo);
    IndexInjective(artists, Nth(artists, p, mode, hi - lo).value, p);
  }

  lemma ModSmall(x: nat, d: nat)
    requires d > 0 && x < 2 * d
    ensures x % d == if x < d then x else x - d
  {
    if x < d {
      ModIs(d, 0, x);
    } else {
      ModIs(d, 1, x - d);
    }
  }

  // ---- the tracks a mode allows

  function ArtistIndex(r: Rules, artists: seq<Artist>, t: Track): nat {
    First(artists, ArtistNamed(r, ArtistName(t)))
  }

  function AlbumIndex(r: Rules, artists: seq<Artist>, t: Track): nat {
    var i := ArtistIndex(r, artists, t);
    if i < |artists| then First(artists[i].albums, AlbumNamed(r, AlbumName(t))) else 0
  }

  /** aaa_mode_filter: the track is on the album, or by the artist, of the current one. */
  function AaaModeFilter(r: Rules, artists: seq<Artist>, cur: Track, mode: AaaMode): Track -> bool {
    (t: Track) =>
      match mode
      case All => true
      case OneArtist => ArtistIndex(r, artists, cur) == ArtistIndex(r, artists, t)
      case OneAlbum =>
        ArtistIndex(r, artists, cur) == ArtistIndex(r, artists, t) &&
        AlbumIndex(r, artists, cur) == AlbumIndex(r, artists, t)
  }

  lemma FilterByPlace(r: Rules, artists: seq<Artist>, p: Pos, q: Pos, mode: AaaMode)
    requires TreeOk(r, artists) && In(artists, p) && In(artists, q)
    ensures AaaModeFilter(r, artists, At(artists, p.i, p.j, p.k), mode)(At(artists, q.i, q.j, q.k)) <==>
            mode == All || (p.i == q.i && (mode == OneAlbum ==> p.j == q.j))
  {
    hide TreeOk, ArtistName, AlbumName, ArtistNamed, AlbumNamed;
    PlaceByName(r, artists, p.i, p.j, p.k);
    PlaceByName(r, artists, q.i, q.j, q.k);
  }

  /** With no current track, both directions begin with the first track of the library. */
  lemma FirstTrack(artists: seq<Artist>, mode: AaaMode, repeat: bool)
    requires NoneEmpty(artists) && artists != []
    ensures NormalNext(artists, None, mode, repeat).Some?
    ensures NormalPrev(artists, None, mode, repeat) == NormalNext(artists, None, mode, repeat)
    ensures var p := NormalNext(artists, None, mode, repeat).value; In(artists, p) && Index(artists, p) == 0
    ensures TreeTracks(artists) != []
            && TreeTracks(artists)[0] == At(artists, 0, 0, 0)
  {
    hide Flat;
    StartEnds(artists, ArtistTracks);
    StartEnds(artists[0].albums, TracksOf);
    IndexElement(artists, Pos(0, 0, 0));
  }

  /** Of two places the artist's or the album's range of one holds the other exactly if it is theirs. */
  lemma RangeByPlace(artists: seq<Artist>, p: Pos, q: Pos, mode: AaaMode)
    requires NoneEmpty(artists) && In(artists, p) && In(artists, q)
    ensures Lo(artists, p, mode) <= Index(artists, q) < Hi(artists, p, mode) <==>
            mode == All || (p.i == q.i && (mode == OneAlbum ==> p.j == q.j))
  {
    hide Start, Flat;
    Ranges(artists, p);
    Ranges(artists, q);
    if p.i < q.i {
      StartGrows(artists, ArtistTracks, p.i + 1, q.i);
    } else if q.i < p.i {
      StartGrows(artists, ArtistTracks, q.i + 1, p.i);
    } else if p.j < q.j {
      StartGrows(artists[p.i].albums, TracksOf, p.j + 1, q.j);
    } else if q.j < p.j {
      StartGrows(artists[p.i].albums, TracksOf, q.j + 1, p.j);
    }
  }

  /** The filter allows exactly the tracks of the range that normal_get_next goes round; the current
      track is always among them. */
  lemma AaaModeFilterIsRange(r: Rules, artists: seq<Artist>, p: Pos, q: Pos, mode: AaaMode)
    requires TreeOk(r, artists) && In(artists, p) && In(artists, q)
    ensures NoneEmpty(artists)
    ensures var cur, t := At(artists, p.i, p.j, p.k), At(artists, q.i, q.j, q.k);
            && (AaaModeFilter(r, artists, cur, mode)(t) <==>
                Lo(artists, p, mode) <= Index(artists, q) < Hi(artists, p, mode))
            && AaaModeFilter(r, artists, cur, mode)(cur)
  {
    hide TreeOk, NoneEmpty, AaaModeFilter, Lo, Hi, Index;
    TreesHaveNoneEmpty(r, artists);
    FilterByPlace(r, artists, p, q, mode);
    FilterByPlace(r, artists, p, p, mode);
    RangeByPlace(artists, p, q, mode);
  }

  // ---- the rows of the tree window

  /** A position of the tree window's iterator. */
  datatype Row = Head | ArtistRow(i: nat) | AlbumRow(i: nat, j: nat)

  /** The rows an artist shows: itself, and its albums when expanded. */
  function RowsOf(a: Artist): seq<Option<Album>> {
    [None] + if a.expanded then Albums(a.albums) else []
  }

  function Albums(albums: seq<Album>): (r: seq<Option<Album>>)
    ensures |r| == |albums|
  {
    seq(|albums|, i requires 0 <= i < |albums| => Some(albums[i]))
  }

  predicate Visible(artists: seq<Artist>, row: Row) {
    match row
    case Head => true
    case ArtistRow(i) => i < |artists|
    case AlbumRow(i, j) => i < |artists| && artists[i].expanded && j < |artists[i].albums|
  }

  /** tree_get_next */
  function TreeGetNext(artists: seq<Artist>, row: Row): (bool, Row)
    requires Visible(artists, row)
  {
    if row.Head? then (if artists == [] then (false, Head) else (true, ArtistRow(0)))
    else if row.ArtistRow? && artists[row.i].expanded && artists[row.i].albums != [] then (true, AlbumRow(row.i, 0))
    else if row.AlbumRow? && row.j + 1 < |artists[row.i].albums| then (true, AlbumRow(row.i, row.j + 1))
    else if row.i + 1 == |artists| then (false, Head)
    else (true, ArtistRow(row.i + 1))
  }

  /** The last row of an artist. */
  function LastRow(artists: seq<Artist>, i: nat): Row
    requires i < |artists|
  {
    if artists[i].expanded && artists[i].albums != [] then AlbumRow(i, |artists[i].albums| - 1) else ArtistRow(i)
  }

  /** tree_get_prev */
  function TreeGetPrev(artists: seq<Artist>, row: Row): (bool, Row)
    requires Visible(artists, row)
  {
    if row.Head? then (if artists == [] then (false, Head) else (true, LastRow(artists, |artists| - 1)))
    else if row.AlbumRow? then (if row.j == 0 then (true, ArtistRow(row.i)) else (true, AlbumRow(row.i, row.j - 1)))
    else if row.i == 0 then (false, Head)
    else (true, LastRow(artists, row.i - 1))
  }

  /** The number of rows above; the head counts as the row past the last. */
  function RowIndex(artists: seq<Artist>, row: Row): nat
    requires Visible(artists, row)
  {
    match row
    case Head => |Flat(artists, RowsOf)|
    case ArtistRow(i) => Start(artists, RowsOf, i)
    case AlbumRow(i, j) => Start(artists, RowsOf, i) + 1 + j
  }

  lemma RowBounds(artists: seq<Artist>, row: Row)
    requires Visible(artists, row)
    ensures if row.Head? then RowIndex(artists, row) == |Flat(artists, RowsOf)|
            else && Start(artists, RowsOf, row.i) <= RowIndex(artists, row)
                 && RowIndex(artists, row) < Start(artists, RowsOf, row.i + 1) <= |Flat(artists, RowsOf)|
  {
    if !row.Head? {
      StartNext(artists, RowsOf, row.i);
      StartEnds(artists, RowsOf);
      StartGrows(artists, RowsOf, row.i + 1, |artists|);
    }
  }

  lemma RowIndexInjective(artists: seq<Artist>, row: Row, other: Row)
    requires Visible(artists, row) && Visible(artists, other) && RowIndex(artists, row) == RowIndex(artists, other)
    ensures row == other
  {
    hide Start, Flat;
    RowBounds(artists, row);
    RowBounds(artists, other);
    if row != other && !row.Head? && !other.Head? && row.i != other.i {
      if row.i < other.i {
        StartGrows(artists, RowsOf, row.i + 1, other.i);
      } else {
        StartGrows(artists, RowsOf, other.i + 1, row.i);
      }
    }
  }

  /** Stepping down goes through the visible rows and the head, in a circle; it reports whether
      it reached a row. */
  lemma TreeNextIs(artists: seq<Artist>, row: Row)
    requires Visible(artists, row)
    ensures var (ok, next) := TreeGetNext(artists, row);
            var rows := |Flat(artists, RowsOf)|;
            && Visible(artists, next) && (ok <==> !next.Head?)
            && RowIndex(artists, row) <= rows
            && RowIndex(artists, next) == if RowIndex(artists, row) == rows then 0 else RowIndex(artists, row) + 1
  {
    hide Start, Flat;
    RowBounds(artists, row);
    StartEnds(artists, RowsOf);
    if artists == [] {
      NoRows();
    } else if !row.Head? {
      StartNext(artists, RowsOf, row.i);
    }
  }

  lemma NoRows()
    ensures |Flat<Artist, Option<Album>>([], RowsOf)| == 0
  {
  }

  /** Stepping up goes the other way round. */
  lemma TreePrevIs(artists: seq<Artist>, row: Row)
    requires Visible(artists, row)
    ensures var (ok, prev) := TreeGetPrev(artists, row);
            var rows := |Flat(artists, RowsOf)|;
            && Visible(artists, prev) && (ok <==> !prev.Head?)
            && RowIndex(artists, row) <= rows
            && RowIndex(artists, prev) == if RowIndex(artists, row) == 0 then rows else RowIndex(artists, row) - 1
  {
    hide Start, Flat;
    RowBounds(artists, row);
    StartEnds(artists, RowsOf);
    if artists == [] {
      NoRows();
    } else if row.Head? {
      StartNext(artists, RowsOf, |artists| - 1);
    } else if row.i > 0 {
      StartNext(artists, RowsOf, row.i - 1);
    }
  }

  /** So up and down undo each other, whatever artists are expanded. */
  lemma TreeStepsUndo(artists: seq<Artist>, row: Row)
    requires Visible(artists, row)
    ensures Visible(artists, TreeGetNext(artists, row).1) && Visible(artists, TreeGetPrev(artists, row).1)
    ensures TreeGetPrev(artists, TreeGetNext(artists, row).1).1 == row
    ensures TreeGetNext(artists, TreeGetPrev(artists, row).1).1 == row
  {
    hide RowIndex, TreeGetNext, TreeGetPrev;
    TreeNextIs(artists, row);
    TreePrevIs(artists, row);
    TreePrevIs(artists, TreeGetNext(artists, row).1);
    TreeNextIs(artists, TreeGetPrev(artists, row).1);
    RowIndexInjective(artists, TreeGetPrev(artists, TreeGetNext(artists, row).1).1, row);
    RowIndexInjective(artists, TreeGetNext(artists, TreeGetPrev(artists, row).1).1, row);
  }
}
