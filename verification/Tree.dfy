/** tree.c: the artist, album and track lists, updated in place. */
module Tree {
  import opened StableSort
  import opened Sequences
  import opened LibraryTree
  import opened TrackInfo

  class ArtistTree {
    var artists: seq<Artist>
    var rules: Rules

    /** Well-formed and sorted. */
    ghost predicate Valid()
      reads this
    {
      TreeOk(rules, artists) && TreeSorted(rules, artists) && Preorder(rules.trackCmp)
    }

    constructor (rules: Rules)
      requires Preorder(rules.trackCmp)
      ensures Valid() && artists == [] && this.rules == rules
    {
      this.rules := rules;
      artists := [];
    }

    /** find_artist_and_album; an index past the end stands for a missing one. */
    method FindArtistAndAlbum(artistName: string, albumName: string) returns (i: nat, j: nat)
      ensures i == First(artists, ArtistNamed(rules, artistName))
      ensures i < |artists| ==> j == First(artists[i].albums, AlbumNamed(rules, albumName))
    {
      i, j := 0, 0;
      while i < |artists|
        invariant i <= |artists| && forall k :: 0 <= k < i ==> !ArtistNamed(rules, artistName)(artists[k])
      {
        if Folded(rules.fold, artists[i].name) == Folded(rules.fold, artistName) {
          FirstIs(artists, ArtistNamed(rules, artistName), i);
          j := FindAlbum(artists[i].albums, albumName);
          return;
        }
        i := i + 1;
      }
      FirstIs(artists, ArtistNamed(rules, artistName), i);
    }

    method FindAlbum(albums: seq<Album>, albumName: string) returns (j: nat)
      ensures j == First(albums, AlbumNamed(rules, albumName))
    {
      j := 0;
      while j < |albums| && Folded(rules.fold, albums[j].name) != Folded(rules.fold, albumName)
        invariant j <= |albums| && forall k :: 0 <= k < j ==> !AlbumNamed(rules, albumName)(albums[k])
      {
        j := j + 1;
      }
      FirstIs(albums, AlbumNamed(rules, albumName), j);
    }

    /** The loop of insert_artist. */
    method ArtistPosition(a: Artist) returns (i: nat)
      ensures i == First(artists, ArtistAfter(rules, a))
    {
      i := 0;
      while i < |artists|
        invariant i <= |artists| && forall k :: 0 <= k < i ==> !ArtistAfter(rules, a)(artists[k])
      {
        var b := artists[i].name;
        assert ArtistAfter(rules, a)(artists[i]) == (ByArtist(rules)(a, artists[i]) < 0);
        if SpecialCmp(rules.fold, SortKey(rules, a.name), SortKey(rules, b)) < 0 {
          break;
        }
        i := i + 1;
      }
      FirstIs(artists, ArtistAfter(rules, a), i);
    }

    /** The loop of artist_add_album. */
    method AlbumPosition(albums: seq<Album>, added: Album) returns (j: nat)
      ensures j == First(albums, AlbumAfter(rules, added))
    {
      j := 0;
      while j < |albums|
        invariant j <= |albums| && forall k :: 0 <= k < j ==> !AlbumAfter(rules, added)(albums[k])
      {
        var a := albums[j];
        assert AlbumAfter(rules, added)(a) == (ByAlbum(rules)(added, a) < 0);
        if added.date < a.date {
          break;
        }
        if !(added.date > a.date) && SpecialCmp(rules.fold, added.name, a.name) < 0 {
          break;
        }
        j := j + 1;
      }
      FirstIs(albums, AlbumAfter(rules, added), j);
    }

    /** album_add_track */
    method AlbumAddTrack(a: Album, t: Track) returns (r: Album)
      ensures r == AddToAlbum(rules, a, t)
    {
      var k := 0;
      while k < |a.tracks| && !(rules.trackCmp(t, a.tracks[k]) < 0)
        invariant k <= |a.tracks| && forall l :: 0 <= l < k ==> !TrackAfter(rules, t)(a.tracks[l])
      {
        k := k + 1;
      }
      FirstIs(a.tracks, TrackAfter(rules, t), k);
      r := a.(tracks := Insert(a.tracks, k, t));
    }

    /** tree_add_track */
    method TreeAddTrack(t: Track)
      modifies `artists
      ensures artists == AddTrack(rules, old(artists), t)
    {
      hide ArtistName, AlbumName, Insert;
      var i, j := FindArtistAndAlbum(ArtistName(t), AlbumName(t));
      if i < |artists| {
        var a := artists[i];
        if j < |a.albums| {
          var album := AlbumAddTrack(a.albums[j], t);
          artists := artists[i := a.(albums := a.albums[j := album])];
        } else {
          var p := AlbumPosition(a.albums, NewAlbum(t));
          artists := artists[i := a.(albums := Insert(a.albums, p, NewAlbum(t)))];
        }
      } else {
        var p := ArtistPosition(NewArtist(t));
        artists := Insert(artists, p, NewArtist(t));
      }
    }

    /** Filing a track keeps everything else in its order. */
    method Add(t: Track)
      requires Valid()
      modifies `artists
      ensures Valid() && multiset(TreeTracks(artists)) == multiset(old(TreeTracks(artists))) + multiset{t}
      ensures artists == AddTrack(rules, old(artists), t)
    {
      hide TreeOk, TreeSorted, AddTrack, Flat, Insert, Preorder;
      AddKeepsOk(rules, artists, t);
      AddKeepsSorted(rules, artists, t);
      ghost var p := AddInserts(rules, artists, t);
      InsertBag(TreeTracks(artists), p, t);
      TreeAddTrack(t);
    }

    /** tree_remove; the place of the track is where its album pointer leads. */
    method TreeRemove(t: Track)
      requires Valid() && t in TreeTracks(artists)
      modifies `artists
      ensures Valid() && multiset(old(TreeTracks(artists))) == multiset(TreeTracks(artists)) + multiset{t}
    {
      hide TreeOk, TreeSorted, Flat, Delete, Preorder, ArtistName, AlbumName, Folded;
      ghost var gi, gj, gk := HasPlace(artists, t);
      PlaceByName(rules, artists, gi, gj, gk);
      var i, j := FindArtistAndAlbum(ArtistName(t), AlbumName(t));
      assert t in artists[i].albums[j].tracks by { assert t == artists[i].albums[j].tracks[gk]; }
      var k: nat :| k < |artists[i].albums[j].tracks| && artists[i].albums[j].tracks[k] == t;
      RemoveKeepsOk(rules, artists, i, j, k);
      RemoveKeepsSorted(rules, artists, i, j, k);
      ghost var p := RemoveDeletes(artists, i, j, k);
      DeleteBag(TreeTracks(artists), p);
      RemoveAt(i, j, k);
    }

    /** Unlink a track, then its album and its artist if nothing is left in them. */
    method RemoveAt(i: nat, j: nat, k: nat)
      requires Place(artists, i, j, k)
      modifies `artists
      ensures artists == RemoveTrack(old(artists), i, j, k)
    {
      var a := artists[i];
      var tracks := Delete(a.albums[j].tracks, k);
      if tracks == [] {
        a := a.(albums := Delete(a.albums, j));
        if a.albums == [] {
          artists := Delete(artists, i);
          return;
        }
      } else {
        a := a.(albums := a.albums[j := a.albums[j].(tracks := tracks)]);
      }
      artists := artists[i := a];
    }

    /** tree_sort_artists, after the sorting rule for artists may have changed. */
    method TreeSortArtists(fuzzy: bool)
      requires Valid()
      modifies this
      ensures Valid() && rules == old(rules).(fuzzy := fuzzy)
      ensures IsStableSort(artists, old(artists), ByArtist(rules))
      ensures multiset(TreeTracks(artists)) == multiset(old(TreeTracks(artists)))
    {
      ghost var before := artists;
      rules := rules.(fuzzy := fuzzy);
      artists := BottomUp(artists, 1, ByArtist(rules));
      SortArtistsKeeps(old(rules), before, fuzzy);
    }
  }

  lemma SortArtistsKeeps(r: Rules, artists: seq<Artist>, fuzzy: bool)
    requires TreeOk(r, artists) && TreeSorted(r, artists)
    ensures var r' := r.(fuzzy := fuzzy);
            var sorted := BottomUp(artists, 1, ByArtist(r'));
            && IsStableSort(sorted, artists, ByArtist(r'))
            && TreeOk(r', sorted) && TreeSorted(r', sorted)
            && multiset(TreeTracks(sorted)) == multiset(TreeTracks(artists))
  {
    hide BottomUp, ByArtist, Flat, Folded, SortKey;
    var r' := r.(fuzzy := fuzzy);
    var sorted := BottomUp(artists, 1, ByArtist(r'));
    ByArtistOrders(r');
    OrdersAny(ByArtist(r'), set x | x in artists);
    MergeSortIsStable(artists, ByArtist(r'));
    FlatPermutes(sorted, artists, ArtistTracks);
    RulesDiffer(r, fuzzy, artists, sorted);
  }

  lemma RulesDiffer(r: Rules, fuzzy: bool, artists: seq<Artist>, sorted: seq<Artist>)
    requires TreeOk(r, artists) && TreeSorted(r, artists) && multiset(sorted) == multiset(artists)
    requires Sorted(sorted, ByArtist(r.(fuzzy := fuzzy)))
    ensures TreeOk(r.(fuzzy := fuzzy), sorted) && TreeSorted(r.(fuzzy := fuzzy), sorted)
  {
    hide ByArtist, Folded, ArtistOk, ArtistSorted, Apart;
    var r' := r.(fuzzy := fuzzy);
    ApartPermutes(sorted, artists, ArtistKey(r));
    SameKeys(r, fuzzy, sorted);
    forall i | 0 <= i < |sorted| ensures ArtistOk(r', sorted[i]) && ArtistSorted(r', sorted[i]) {
      assert sorted[i] in multiset(artists);
      var k := IndexOf(artists, sorted[i]);
      SameArtist(r, fuzzy, artists[k]);
    }
  }

  lemma SameKeys(r: Rules, fuzzy: bool, artists: seq<Artist>)
    requires Apart(artists, ArtistKey(r))
    ensures Apart(artists, ArtistKey(r.(fuzzy := fuzzy)))
  {
    forall i, j | 0 <= i < j < |artists|
      ensures ArtistKey(r.(fuzzy := fuzzy))(artists[i]) != ArtistKey(r.(fuzzy := fuzzy))(artists[j])
    {
      assert ArtistKey(r)(artists[i]) != ArtistKey(r)(artists[j]);
    }
  }

  lemma SameArtist(r: Rules, fuzzy: bool, a: Artist)
    requires ArtistOk(r, a) && ArtistSorted(r, a)
    ensures ArtistOk(r.(fuzzy := fuzzy), a) && ArtistSorted(r.(fuzzy := fuzzy), a)
  {
    hide Folded, SpecialCmp, ArtistName, AlbumName;
    var r' := r.(fuzzy := fuzzy);
    forall i, j | 0 <= i < j < |a.albums| ensures AlbumKey(r')(a.albums[i]) != AlbumKey(r')(a.albums[j]) {
      assert AlbumKey(r)(a.albums[i]) != AlbumKey(r)(a.albums[j]);
    }
    forall i, j | 0 <= i < j < |a.albums| ensures ByAlbum(r')(a.albums[i], a.albums[j]) <= 0 {
      assert ByAlbum(r)(a.albums[i], a.albums[j]) <= 0;
    }
  }
}
