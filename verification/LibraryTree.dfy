/** The artist/album/track tree of tree.c as a value: where a track is filed, and what filing
    and removing it do to the sequence of tracks the tree stands for. */
module LibraryTree {
  import opened StableSort
  import opened Sequences
  import opened Strings
  import opened TrackInfo

  datatype Album = Album(name: string, date: int, tracks: seq<Track>)

  datatype Artist = Artist(name: string, albums: seq<Album>, expanded: bool)

  /** How names fold, whether a leading "the" is skipped when sorting artists, and the order of
      the tracks of an album. */
  datatype Rules = Rules(fold: char -> char, fuzzy: bool, trackCmp: (Track, Track) -> int)

  // ---- names

  function Lower(c: char): char {
    if 'A' <= c <= 'Z' then (c as int + 32) as char else c
  }

  function Folded(fold: char -> char, s: string): string {
    seq(|s|, i requires 0 <= i < |s| => fold(s[i]))
  }

  function IsYes(s: string): bool {
    Folded(Lower, s) == "1" || Folded(Lower, s) == "yes"
  }

  /** The artist a track is filed under: the first tag present in this order. */
  function ArtistName(t: Track): string {
    var c := t.comments;
    if IsUrl(t.filename) then "<Stream>"
    else if "albumartistsort" in c then c["albumartistsort"]
    else if "albumartist" in c then c["albumartist"]
    else if "artistsort" in c then c["artistsort"]
    else if "compilation" in c && IsYes(c["compilation"]) then "<Compilations>"
    else if "artist" in c then c["artist"]
    else "<No Name>"
  }

  function AlbumName(t: Track): string {
    if IsUrl(t.filename) then "<Stream>"
    else if "album" in t.comments then t.comments["album"]
    else "<No Name>"
  }

  function SkipBlanks(s: string): string {
    if s != "" && (s[0] == ' ' || s[0] == '\t') then SkipBlanks(s[1..]) else s
  }

  /** artist_name_skip_the */
  function SkipThe(s: string): string {
    if |s| >= 4 && Folded(Lower, s[..4]) == "the " then SkipBlanks(s[4..]) else s
  }

  function Special(s: string): bool {
    s != "" && s[0] == '<'
  }

  /** special_name_cmp: names like <Stream> come first, the others in folded order. */
  function SpecialCmp(fold: char -> char, a: string, b: string): int {
    if Special(a) && !Special(b) then -1
    else if !Special(a) && Special(b) then 1
    else StrCmp(Folded(fold, a), Folded(fold, b))
  }

  lemma SpecialCmpOrders(fold: char -> char, a: string, b: string, c: string)
    ensures SpecialCmp(fold, a, b) < 0 <==> SpecialCmp(fold, b, a) > 0
    ensures SpecialCmp(fold, a, b) <= 0 && SpecialCmp(fold, b, c) <= 0 ==> SpecialCmp(fold, a, c) <= 0
  {
    var x, y, z := Folded(fold, a), Folded(fold, b), Folded(fold, c);
    StrCmpEqual(x, y);
    StrCmpEqual(y, x);
    StrCmpEqual(y, z);
    if StrCmp(x, y) < 0 && StrCmp(y, z) < 0 {
      StrCmpTransitive(x, y, z);
    }
  }

  function SortKey(r: Rules, name: string): string {
    if r.fuzzy then SkipThe(name) else name
  }

  function ByArtist(r: Rules): (Artist, Artist) -> int {
    (a: Artist, b: Artist) => SpecialCmp(r.fold, SortKey(r, a.name), SortKey(r, b.name))
  }

  function ByAlbum(r: Rules): (Album, Album) -> int {
    (a: Album, b: Album) =>
      if a.date < b.date then -1 else if a.date > b.date then 1 else SpecialCmp(r.fold, a.name, b.name)
  }

  lemma ByArtistOrders(r: Rules)
    ensures Preorder(ByArtist(r))
  {
    hide SpecialCmp;
    var cmp := ByArtist(r);
    forall x, y ensures cmp(x, y) < 0 <==> cmp(y, x) > 0 {
      SpecialCmpOrders(r.fold, SortKey(r, x.name), SortKey(r, y.name), SortKey(r, y.name));
    }
    forall x, y, z | cmp(x, y) <= 0 && cmp(y, z) <= 0 ensures cmp(x, z) <= 0 {
      SpecialCmpOrders(r.fold, SortKey(r, x.name), SortKey(r, y.name), SortKey(r, z.name));
    }
  }

  lemma ByAlbumOrders(r: Rules)
    ensures Preorder(ByAlbum(r))
  {
    hide SpecialCmp;
    var cmp := ByAlbum(r);
    forall x, y ensures cmp(x, y) < 0 <==> cmp(y, x) > 0 {
      SpecialCmpOrders(r.fold, x.name, y.name, y.name);
    }
    forall x, y, z | cmp(x, y) <= 0 && cmp(y, z) <= 0 ensures cmp(x, z) <= 0 {
      SpecialCmpOrders(r.fold, x.name, y.name, z.name);
    }
  }

  // ---- the flat sequence

  function TracksOf(a: Album): seq<Track> {
    a.tracks
  }

  function ArtistTracks(a: Artist): seq<Track> {
    Flat(a.albums, TracksOf)
  }

  /** All tracks of the tree, in order. */
  function TreeTracks(artists: seq<Artist>): seq<Track> {
    Flat(artists, ArtistTracks)
  }

  // ---- well-formed trees

  function ArtistKey(r: Rules): Artist -> string {
    (a: Artist) => Folded(r.fold, a.name)
  }

  function AlbumKey(r: Rules): Album -> string {
    (a: Album) => Folded(r.fold, a.name)
  }

  /** An album holds tracks, and only tracks filed under its name and its artist's. */
  ghost predicate AlbumOk(r: Rules, artistKey: string, a: Album) {
    a.tracks != [] && forall i :: 0 <= i < |a.tracks| ==>
      Folded(r.fold, ArtistName(a.tracks[i])) == artistKey && Folded(r.fold, AlbumName(a.tracks[i])) == AlbumKey(r)(a)
  }

  ghost predicate ArtistOk(r: Rules, a: Artist) {
    && a.albums != [] && Apart(a.albums, AlbumKey(r))
    && forall i :: 0 <= i < |a.albums| ==> AlbumOk(r, ArtistKey(r)(a), a.albums[i])
  }

  /** No empty artist or album, and no two with the same folded name. */
  ghost predicate TreeOk(r: Rules, artists: seq<Artist>) {
    Apart(artists, ArtistKey(r)) && forall i :: 0 <= i < |artists| ==> ArtistOk(r, artists[i])
  }

  ghost predicate ArtistSorted(r: Rules, a: Artist) {
    Sorted(a.albums, ByAlbum(r)) && forall i :: 0 <= i < |a.albums| ==> Sorted(a.albums[i].tracks, r.trackCmp)
  }

  ghost predicate TreeSorted(r: Rules, artists: seq<Artist>) {
    Sorted(artists, ByArtist(r)) && forall i :: 0 <= i < |artists| ==> ArtistSorted(r, artists[i])
  }

  // ---- filing a track

  function ArtistNamed(r: Rules, name: string): Artist -> bool {
    (a: Artist) => Folded(r.fold, a.name) == Folded(r.fold, name)
  }

  function AlbumNamed(r: Rules, name: string): Album -> bool {
    (a: Album) => Folded(r.fold, a.name) == Folded(r.fold, name)
  }

  function ArtistAfter(r: Rules, a: Artist): Artist -> bool {
    (x: Artist) => ByArtist(r)(a, x) < 0
  }

  function AlbumAfter(r: Rules, a: Album): Album -> bool {
    (x: Album) => ByAlbum(r)(a, x) < 0
  }

  function TrackAfter(r: Rules, t: Track): Track -> bool {
    (x: Track) => r.trackCmp(t, x) < 0
  }

  /** album_add_track */
  function AddToAlbum(r: Rules, a: Album, t: Track): Album {
    a.(tracks := Insert(a.tracks, First(a.tracks, TrackAfter(r, t)), t))
  }

  function NewAlbum(t: Track): Album {
    Album(AlbumName(t), t.date, [t])
  }

  function NewArtist(t: Track): Artist {
    Artist(ArtistName(t), [NewAlbum(t)], false)
  }

  /** The artist's part of tree_add_track: into the album of that name, or a new one. */
  function AddToArtist(r: Rules, a: Artist, t: Track): Artist {
    var j := First(a.albums, AlbumNamed(r, AlbumName(t)));
    if j < |a.albums| then a.(albums := a.albums[j := AddToAlbum(r, a.albums[j], t)])
    else a.(albums := Insert(a.albums, First(a.albums, AlbumAfter(r, NewAlbum(t))), NewAlbum(t)))
  }

  /** tree_add_track */
  function AddTrack(r: Rules, artists: seq<Artist>, t: Track): seq<Artist> {
    var i := First(artists, ArtistNamed(r, ArtistName(t)));
    if i < |artists| then artists[i := AddToArtist(r, artists[i], t)]
    else Insert(artists, First(artists, ArtistAfter(r, NewArtist(t))), NewArtist(t))
  }

  lemma AddToArtistInserts(r: Rules, a: Artist, t: Track) returns (p: nat)
    ensures p <= |ArtistTracks(a)| && ArtistTracks(AddToArtist(r, a, t)) == Insert(ArtistTracks(a), p, t)
  {
    hide Insert, Flat;
    var j := First(a.albums, AlbumNamed(r, AlbumName(t)));
    if j < |a.albums| {
      var k := First(a.albums[j].tracks, TrackAfter(r, t));
      p := FlatInsert(a.albums, j, AddToAlbum(r, a.albums[j], t), TracksOf, k, t);
    } else {
      p := FlatInsertPart(a.albums, First(a.albums, AlbumAfter(r, NewAlbum(t))), NewAlbum(t), TracksOf, t);
    }
  }

  /** Filing a track puts it at one place among the others and moves none of them. */
  lemma AddInserts(r: Rules, artists: seq<Artist>, t: Track) returns (p: nat)
    ensures p <= |TreeTracks(artists)| && TreeTracks(AddTrack(r, artists, t)) == Insert(TreeTracks(artists), p, t)
  {
    hide Insert, Flat, AddToArtist;
    var i := First(artists, ArtistNamed(r, ArtistName(t)));
    if i < |artists| {
      var q := AddToArtistInserts(r, artists[i], t);
      p := FlatInsert(artists, i, AddToArtist(r, artists[i], t), ArtistTracks, q, t);
    } else {
      FlatOne(NewAlbum(t), TracksOf);
      p := FlatInsertPart(artists, First(artists, ArtistAfter(r, NewArtist(t))), NewArtist(t), ArtistTracks, t);
    }
  }

  lemma AddToAlbumOk(r: Rules, artistKey: string, a: Album, t: Track)
    requires AlbumOk(r, artistKey, a)
    requires Folded(r.fold, ArtistName(t)) == artistKey && Folded(r.fold, AlbumName(t)) == Folded(r.fold, a.name)
    ensures AlbumOk(r, artistKey, AddToAlbum(r, a, t))
  {
    hide Folded, ArtistName, AlbumName;
  }

  lemma AddToArtistOk(r: Rules, a: Artist, t: Track)
    requires ArtistOk(r, a) && Folded(r.fold, ArtistName(t)) == Folded(r.fold, a.name)
    ensures ArtistOk(r, AddToArtist(r, a, t))
  {
    hide Folded, ArtistName, AlbumName, AlbumOk;
    var j := First(a.albums, AlbumNamed(r, AlbumName(t)));
    if j < |a.albums| {
      AddToAlbumOk(r, ArtistKey(r)(a), a.albums[j], t);
    } else {
      InsertApart(a.albums, First(a.albums, AlbumAfter(r, NewAlbum(t))), NewAlbum(t), AlbumKey(r));
      NewAlbumOk(r, ArtistKey(r)(a), t);
    }
  }

  lemma NewAlbumOk(r: Rules, artistKey: string, t: Track)
    requires Folded(r.fold, ArtistName(t)) == artistKey
    ensures AlbumOk(r, artistKey, NewAlbum(t))
  {
  }

  /** Filing keeps the tree well-formed. */
  lemma AddKeepsOk(r: Rules, artists: seq<Artist>, t: Track)
    requires TreeOk(r, artists)
    ensures TreeOk(r, AddTrack(r, artists, t))
  {
    hide Folded, ArtistName, AlbumName, AlbumOk, ArtistOk, AddToArtist;
    var i := First(artists, ArtistNamed(r, ArtistName(t)));
    if i < |artists| {
      AddToArtistOk(r, artists[i], t);
      AddToArtistName(r, artists[i], t);
    } else {
      InsertApart(artists, First(artists, ArtistAfter(r, NewArtist(t))), NewArtist(t), ArtistKey(r));
      NewArtistOk(r, t);
    }
  }

  lemma AddToArtistName(r: Rules, a: Artist, t: Track)
    ensures AddToArtist(r, a, t).name == a.name
  {
  }

  lemma NewArtistOk(r: Rules, t: Track)
    ensures ArtistOk(r, NewArtist(t))
  {
    NewAlbumOk(r, ArtistKey(r)(NewArtist(t)), t);
  }

  lemma AddToArtistSorted(r: Rules, a: Artist, t: Track)
    requires Preorder(r.trackCmp) && ArtistSorted(r, a)
    ensures ArtistSorted(r, AddToArtist(r, a, t))
  {
    hide Folded, ArtistName, AlbumName, SpecialCmp, Preorder;
    var j := First(a.albums, AlbumNamed(r, AlbumName(t)));
    if j < |a.albums| {
      TracksStaySorted(r, a.albums[j], t);
    } else {
      AlbumsStaySorted(r, a.albums, NewAlbum(t));
    }
  }

  lemma TracksStaySorted(r: Rules, a: Album, t: Track)
    requires Preorder(r.trackCmp) && Sorted(a.tracks, r.trackCmp)
    ensures Sorted(AddToAlbum(r, a, t).tracks, r.trackCmp)
  {
    InsertSorted(a.tracks, First(a.tracks, TrackAfter(r, t)), t, r.trackCmp);
  }

  lemma AlbumsStaySorted(r: Rules, albums: seq<Album>, a: Album)
    requires Sorted(albums, ByAlbum(r))
    ensures Sorted(Insert(albums, First(albums, AlbumAfter(r, a)), a), ByAlbum(r))
  {
    hide ByAlbum;
    ByAlbumOrders(r);
    InsertSorted(albums, First(albums, AlbumAfter(r, a)), a, ByAlbum(r));
  }

  lemma ArtistsStaySorted(r: Rules, artists: seq<Artist>, a: Artist)
    requires Sorted(artists, ByArtist(r))
    ensures Sorted(Insert(artists, First(artists, ArtistAfter(r, a)), a), ByArtist(r))
  {
    hide ByArtist;
    ByArtistOrders(r);
    InsertSorted(artists, First(artists, ArtistAfter(r, a)), a, ByArtist(r));
  }

  /** Filing keeps artists, albums and tracks sorted. */
  lemma AddKeepsSorted(r: Rules, artists: seq<Artist>, t: Track)
    requires Preorder(r.trackCmp) && TreeSorted(r, artists)
    ensures TreeSorted(r, AddTrack(r, artists, t))
  {
    hide Folded, ArtistName, AlbumName, AddToArtist, ArtistSorted, Preorder, SpecialCmp;
    var i := First(artists, ArtistNamed(r, ArtistName(t)));
    if i < |artists| {
      AddToArtistSorted(r, artists[i], t);
      AddToArtistName(r, artists[i], t);
    } else {
      ArtistsStaySorted(r, artists, NewArtist(t));
      NewArtistSorted(r, t);
    }
  }

  lemma NewArtistSorted(r: Rules, t: Track)
    ensures ArtistSorted(r, NewArtist(t))
  {
  }

  // ---- removing a track

  /** A track's place: artist i, album j, track k. */
  predicate Place(artists: seq<Artist>, i: nat, j: nat, k: nat) {
    i < |artists| && j < |artists[i].albums| && k < |artists[i].albums[j].tracks|
  }

  function At(artists: seq<Artist>, i: nat, j: nat, k: nat): Track
    requires Place(artists, i, j, k)
  {
    artists[i].albums[j].tracks[k]
  }

  function RemoveFromArtist(a: Artist, j: nat, k: nat): Artist
    requires j < |a.albums| && k < |a.albums[j].tracks|
  {
    if |a.albums[j].tracks| == 1 then a.(albums := Delete(a.albums, j))
    else a.(albums := a.albums[j := a.albums[j].(tracks := Delete(a.albums[j].tracks, k))])
  }

  /** tree_remove: an album goes with its last track, and an artist with its last album. */
  function RemoveTrack(artists: seq<Artist>, i: nat, j: nat, k: nat): seq<Artist>
    requires Place(artists, i, j, k)
  {
    var a := RemoveFromArtist(artists[i], j, k);
    if a.albums == [] then Delete(artists, i) else artists[i := a]
  }

  lemma RemoveFromArtistDeletes(a: Artist, j: nat, k: nat) returns (p: nat)
    requires j < |a.albums| && k < |a.albums[j].tracks|
    ensures p < |ArtistTracks(a)| && ArtistTracks(a)[p] == a.albums[j].tracks[k]
    ensures ArtistTracks(RemoveFromArtist(a, j, k)) == Delete(ArtistTracks(a), p)
  {
    hide Delete, Flat;
    if |a.albums[j].tracks| == 1 {
      p := FlatDeletePart(a.albums, j, TracksOf);
    } else {
      p := FlatDelete(a.albums, j, a.albums[j].(tracks := Delete(a.albums[j].tracks, k)), TracksOf, k);
    }
  }

  lemma LastAlbum(a: Artist, j: nat, k: nat)
    requires j < |a.albums| && k < |a.albums[j].tracks| && RemoveFromArtist(a, j, k).albums == []
    ensures |ArtistTracks(a)| == 1
  {
    assert a.albums == [a.albums[0]];
    FlatOne(a.albums[0], TracksOf);
  }

  /** Removing takes exactly that track out of the sequence and moves no other. */
  lemma RemoveDeletes(artists: seq<Artist>, i: nat, j: nat, k: nat) returns (p: nat)
    requires Place(artists, i, j, k)
    ensures p < |TreeTracks(artists)| && TreeTracks(artists)[p] == At(artists, i, j, k)
    ensures TreeTracks(RemoveTrack(artists, i, j, k)) == Delete(TreeTracks(artists), p)
  {
    hide Delete, Flat, RemoveFromArtist;
    var a := artists[i];
    var q := RemoveFromArtistDeletes(a, j, k);
    if RemoveFromArtist(a, j, k).albums == [] {
      LastAlbum(a, j, k);
      p := FlatDeletePart(artists, i, ArtistTracks);
    } else {
      p := FlatDelete(artists, i, RemoveFromArtist(a, j, k), ArtistTracks, q);
    }
  }

  lemma RemoveFromArtistOk(r: Rules, a: Artist, j: nat, k: nat)
    requires ArtistOk(r, a) && j < |a.albums| && k < |a.albums[j].tracks|
    ensures var b := RemoveFromArtist(a, j, k); b.name == a.name && (b.albums != [] ==> ArtistOk(r, b))
  {
    hide Folded, ArtistName, AlbumName;
    if |a.albums[j].tracks| == 1 {
      DeleteApart(a.albums, j, AlbumKey(r));
    } else {
      DeletedFromAlbumOk(r, ArtistKey(r)(a), a.albums[j], k);
    }
  }

  lemma DeletedFromAlbumOk(r: Rules, artistKey: string, a: Album, k: nat)
    requires AlbumOk(r, artistKey, a) && k < |a.tracks| && |a.tracks| > 1
    ensures AlbumOk(r, artistKey, a.(tracks := Delete(a.tracks, k)))
  {
  }

  /** Removing keeps the tree well-formed: nothing empty stays behind. */
  lemma RemoveKeepsOk(r: Rules, artists: seq<Artist>, i: nat, j: nat, k: nat)
    requires TreeOk(r, artists) && Place(artists, i, j, k)
    ensures TreeOk(r, RemoveTrack(artists, i, j, k))
  {
    hide Folded, ArtistOk, RemoveFromArtist;
    RemoveFromArtistOk(r, artists[i], j, k);
    if RemoveFromArtist(artists[i], j, k).albums == [] {
      DeleteApart(artists, i, ArtistKey(r));
    }
  }

  lemma RemoveFromArtistSorted(r: Rules, a: Artist, j: nat, k: nat)
    requires ArtistSorted(r, a) && j < |a.albums| && k < |a.albums[j].tracks|
    ensures ArtistSorted(r, RemoveFromArtist(a, j, k))
  {
    hide SpecialCmp, Folded;
    if |a.albums[j].tracks| == 1 {
      DeleteSorted(a.albums, j, ByAlbum(r));
    } else {
      DeleteSorted(a.albums[j].tracks, k, r.trackCmp);
    }
  }

  lemma RemoveKeepsSorted(r: Rules, artists: seq<Artist>, i: nat, j: nat, k: nat)
    requires TreeSorted(r, artists) && Place(artists, i, j, k)
    ensures TreeSorted(r, RemoveTrack(artists, i, j, k))
  {
    hide SpecialCmp, Folded, ArtistSorted, RemoveFromArtist;
    RemoveFromArtistSorted(r, artists[i], j, k);
    RemovedName(artists[i], j, k);
    if RemoveFromArtist(artists[i], j, k).albums == [] {
      DeleteSorted(artists, i, ByArtist(r));
    }
  }

  lemma RemovedName(a: Artist, j: nat, k: nat)
    requires j < |a.albums| && k < |a.albums[j].tracks|
    ensures RemoveFromArtist(a, j, k).name == a.name
  {
  }

  // ---- finding a track's place

  lemma {:induction false} FlatHas<T, X>(s: seq<T>, f: T -> seq<X>, x: X) returns (i: nat)
    requires x in Flat(s, f)
    ensures i < |s| && x in f(s[i])
  {
    if x in f(s[0]) {
      i := 0;
    } else {
      assert x in Flat(s[1..], f);
      var j := FlatHas(s[1..], f, x);
      i := j + 1;
    }
  }

  /** Every track of the flat sequence has a place in the tree. */
  lemma HasPlace(artists: seq<Artist>, t: Track) returns (i: nat, j: nat, k: nat)
    requires t in TreeTracks(artists)
    ensures Place(artists, i, j, k) && At(artists, i, j, k) == t
  {
    i := FlatHas(artists, ArtistTracks, t);
    j := FlatHas(artists[i].albums, TracksOf, t);
    k :| 0 <= k < |artists[i].albums[j].tracks| && artists[i].albums[j].tracks[k] == t;
  }

  /** In a well-formed tree the names of a track lead to its artist and album. */
  lemma PlaceByName(r: Rules, artists: seq<Artist>, i: nat, j: nat, k: nat)
    requires TreeOk(r, artists) && Place(artists, i, j, k)
    ensures var t := At(artists, i, j, k);
            && First(artists, ArtistNamed(r, ArtistName(t))) == i
            && First(artists[i].albums, AlbumNamed(r, AlbumName(t))) == j
  {
    hide Folded, ArtistName, AlbumName;
    var t := At(artists, i, j, k);
    assert ArtistOk(r, artists[i]) && AlbumOk(r, ArtistKey(r)(artists[i]), artists[i].albums[j]);
    FirstByKey(artists, i, ArtistKey(r), ArtistNamed(r, ArtistName(t)));
    FirstByKey(artists[i].albums, j, AlbumKey(r), AlbumNamed(r, AlbumName(t)));
  }

  lemma FirstByKey<T, K>(s: seq<T>, i: nat, key: T -> K, p: T -> bool)
    requires Apart(s, key) && i < |s| && p(s[i])
    requires forall k :: 0 <= k < |s| ==> (p(s[k]) <==> key(s[k]) == key(s[i]))
    ensures First(s, p) == i
  {
    forall k | 0 <= k < i ensures !p(s[k]) {
      assert key(s[k]) != key(s[i]);
    }
    FirstIs(s, p, i);
  }
}
