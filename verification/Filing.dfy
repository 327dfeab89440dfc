/** Where tree.c files a track: the names its tags give it, and the order of what is shown. */
module Filing {
  import opened LibraryTree
  import opened Sequences
  import opened StableSort
  import opened Strings
  import opened TrackInfo

  // ---- names

  lemma YesInAnyCase(s: string)
    ensures IsYes(s) <==>
      || s == "1"
      || (|s| == 3 && (s[0] == 'y' || s[0] == 'Y') && (s[1] == 'e' || s[1] == 'E') && (s[2] == 's' || s[2] == 'S'))
  {
    var f := Folded(Lower, s);
    forall c: char ensures LowerCase(c) {
      LowerCases(c);
    }
    if |s| == 1 {
      assert f == [Lower(s[0])] && s == [s[0]];
    } else if |s| == 3 {
      assert f == [Lower(s[0]), Lower(s[1]), Lower(s[2])];
    }
  }

  predicate LowerCase(c: char) {
    && (Lower(c) == '1' <==> c == '1')
    && (Lower(c) == 'y' <==> c == 'y' || c == 'Y')
    && (Lower(c) == 'e' <==> c == 'e' || c == 'E')
    && (Lower(c) == 's' <==> c == 's' || c == 'S')
    && (Lower(c) == 't' <==> c == 't' || c == 'T')
    && (Lower(c) == 'h' <==> c == 'h' || c == 'H')
    && (Lower(c) == ' ' <==> c == ' ')
  }

  lemma LowerCases(c: char)
    ensures LowerCase(c)
  {
  }

  /** No tag puts a track under another artist than the ones for sorting and for the album do. */
  predicate Unsorted(t: Track) {
    && !IsUrl(t.filename)
    && "albumartistsort" !in t.comments && "albumartist" !in t.comments && "artistsort" !in t.comments
  }

  /** Part of a compilation. */
  predicate Compiled(t: Track) {
    "compilation" in t.comments && IsYes(t.comments["compilation"])
  }

  /** The artist: the tags for sorting and for the album come before the mark of a compilation, and
      that before the artist tag; streams go together. */
  lemma ArtistByTags(t: Track)
    ensures IsUrl(t.filename) ==> ArtistName(t) == "<Stream>"
    ensures !IsUrl(t.filename) && "albumartistsort" in t.comments ==> ArtistName(t) == t.StrTag("albumartistsort")
    ensures !IsUrl(t.filename) && "albumartistsort" !in t.comments && "albumartist" in t.comments ==>
              ArtistName(t) == t.StrTag("albumartist")
    ensures !IsUrl(t.filename) && "albumartistsort" !in t.comments && "albumartist" !in t.comments ==>
              "artistsort" in t.comments ==> ArtistName(t) == t.StrTag("artistsort")
    ensures Unsorted(t) && Compiled(t) ==> ArtistName(t) == "<Compilations>"
    ensures Unsorted(t) && !Compiled(t) && "artist" in t.comments ==> ArtistName(t) == t.StrTag("artist")
    ensures Unsorted(t) && !Compiled(t) && "artist" !in t.comments ==> ArtistName(t) == "<No Name>"
  {
  }

  lemma AlbumByTags(t: Track)
    ensures IsUrl(t.filename) ==> AlbumName(t) == "<Stream>"
    ensures !IsUrl(t.filename) && "album" in t.comments ==> AlbumName(t) == t.StrTag("album")
    ensures !IsUrl(t.filename) && "album" !in t.comments ==> AlbumName(t) == "<No Name>"
  {
  }

  // ---- where it is then

  ghost predicate FiledAt(r: Rules, artists: seq<Artist>, t: Track, artist: string, album: string,
                          i: nat, j: nat, k: nat)
  {
    && Place(artists, i, j, k) && At(artists, i, j, k) == t
    && Folded(r.fold, artists[i].name) == Folded(r.fold, artist)
    && Folded(r.fold, artists[i].albums[j].name) == Folded(r.fold, album)
  }

  /** A track that was added is under its artist and its album, up to case. */
  lemma Filed(r: Rules, artists: seq<Artist>, t: Track) returns (i: nat, j: nat, k: nat)
    requires TreeOk(r, artists)
    ensures FiledAt(r, AddTrack(r, artists, t), t, ArtistName(t), AlbumName(t), i, j, k)
  {
    hide TreeOk, AddTrack, Flat, Folded, ArtistName, AlbumName, Insert;
    var after := AddTrack(r, artists, t);
    AddKeepsOk(r, artists, t);
    var p := AddInserts(r, artists, t);
    assert Insert(TreeTracks(artists), p, t)[p] == t;
    i, j, k := HasPlace(after, t);
    NamesAt(r, after, i, j, k);
  }

  lemma NamesAt(r: Rules, artists: seq<Artist>, i: nat, j: nat, k: nat)
    requires TreeOk(r, artists) && Place(artists, i, j, k)
    ensures var t := At(artists, i, j, k);
            && Folded(r.fold, artists[i].name) == Folded(r.fold, ArtistName(t))
            && Folded(r.fold, artists[i].albums[j].name) == Folded(r.fold, AlbumName(t))
  {
    hide Folded, ArtistName, AlbumName;
    assert ArtistOk(r, artists[i]) && AlbumOk(r, ArtistKey(r)(artists[i]), artists[i].albums[j]);
  }

  /** A local track of a compilation goes under <Compilations>, whoever its artist is. */
  lemma CompilationFiled(r: Rules, artists: seq<Artist>, t: Track) returns (i: nat, j: nat, k: nat)
    requires TreeOk(r, artists) && Unsorted(t) && Compiled(t)
    ensures var album := if "album" in t.comments then t.StrTag("album") else "<No Name>";
            FiledAt(r, AddTrack(r, artists, t), t, "<Compilations>", album, i, j, k)
  {
    hide TreeOk, AddTrack;
    ArtistByTags(t);
    AlbumByTags(t);
    i, j, k := Filed(r, artists, t);
  }

  /** Streams are together, whatever their tags. */
  lemma StreamFiled(r: Rules, artists: seq<Artist>, t: Track) returns (i: nat, j: nat, k: nat)
    requires TreeOk(r, artists) && IsUrl(t.filename)
    ensures FiledAt(r, AddTrack(r, artists, t), t, "<Stream>", "<Stream>", i, j, k)
  {
    hide TreeOk, AddTrack;
    ArtistByTags(t);
    AlbumByTags(t);
    i, j, k := Filed(r, artists, t);
  }

  /** a with the track t at one more place. */
  ghost predicate Joins(a: Album, b: Album, t: Track) {
    b.name == a.name && b.date == a.date && exists k :: 0 <= k <= |a.tracks| && b.tracks == Insert(a.tracks, k, t)
  }

  /** The artist x with t in one of its albums, or with a new album of the name and date of t. */
  ghost predicate Grown(r: Rules, x: Artist, y: Artist, t: Track) {
    && y.name == x.name && y.expanded == x.expanded
    && exists j: nat :: GrownAt(r, x.albums, y.albums, t, j)
  }

  ghost predicate GrownAt(r: Rules, x: seq<Album>, y: seq<Album>, t: Track, j: nat) {
    || (j < |x| && Folded(r.fold, x[j].name) == Folded(r.fold, AlbumName(t)) && |y| == |x|
        && y == x[j := y[j]] && Joins(x[j], y[j], t))
    || (j <= |x| && y == Insert(x, j, Album(AlbumName(t), t.date, [t]))
        && forall k :: 0 <= k < |x| ==> Folded(r.fold, x[k].name) != Folded(r.fold, AlbumName(t)))
  }

  /** Everything else stays: an artist of the name gets the track, or a new one comes, folded up. */
  lemma OthersStay(r: Rules, artists: seq<Artist>, t: Track) returns (i: nat)
    ensures var after := AddTrack(r, artists, t);
            || (i < |artists| && Folded(r.fold, artists[i].name) == Folded(r.fold, ArtistName(t))
                && after == artists[i := after[i]] && Grown(r, artists[i], after[i], t))
            || (i <= |artists|
                && after == Insert(artists, i, Artist(ArtistName(t), [Album(AlbumName(t), t.date, [t])], false))
                && forall k :: 0 <= k < |artists| ==> Folded(r.fold, artists[k].name) != Folded(r.fold, ArtistName(t)))
  {
    hide Folded, ArtistName, AlbumName, Insert, AddToArtist;
    i := First(artists, ArtistNamed(r, ArtistName(t)));
    if i < |artists| {
      ArtistGrows(r, artists[i], t);
    } else {
      forall k | 0 <= k < |artists| ensures Folded(r.fold, artists[k].name) != Folded(r.fold, ArtistName(t)) {
        assert !ArtistNamed(r, ArtistName(t))(artists[k]);
      }
      i := First(artists, ArtistAfter(r, NewArtist(t)));
    }
  }

  lemma ArtistGrows(r: Rules, a: Artist, t: Track)
    ensures Grown(r, a, AddToArtist(r, a, t), t)
  {
    hide Folded, ArtistName, AlbumName, Insert, ByAlbum;
    var y := AddToArtist(r, a, t);
    var j := First(a.albums, AlbumNamed(r, AlbumName(t)));
    if j < |a.albums| {
      assert Joins(a.albums[j], y.albums[j], t);
      assert GrownAt(r, a.albums, y.albums, t, j);
    } else {
      forall k | 0 <= k < |a.albums| ensures Folded(r.fold, a.albums[k].name) != Folded(r.fold, AlbumName(t)) {
        assert !AlbumNamed(r, AlbumName(t))(a.albums[k]);
      }
      assert GrownAt(r, a.albums, y.albums, t, First(a.albums, AlbumAfter(r, NewAlbum(t))));
    }
  }

  // ---- order

  /** Among tracks, albums and artists that compare equal, a new one comes last. */
  lemma NewOnesLast(r: Rules, tracks: seq<Track>, albums: seq<Album>, artists: seq<Artist>,
                    t: Track, b: Album, a: Artist)
    requires Preorder(r.trackCmp) && Sorted(tracks, r.trackCmp)
    requires Sorted(albums, ByAlbum(r)) && Sorted(artists, ByArtist(r))
    ensures BehindEquals(tracks, First(tracks, TrackAfter(r, t)), t, r.trackCmp)
    ensures BehindEquals(albums, First(albums, AlbumAfter(r, b)), b, ByAlbum(r))
    ensures BehindEquals(artists, First(artists, ArtistAfter(r, a)), a, ByArtist(r))
  {
    hide ByAlbum, ByArtist, Preorder;
    ByAlbumOrders(r);
    ByArtistOrders(r);
    FirstGreater(tracks, t, r.trackCmp, TrackAfter(r, t));
    FirstGreater(albums, b, ByAlbum(r), AlbumAfter(r, b));
    FirstGreater(artists, a, ByArtist(r), ArtistAfter(r, a));
  }

  lemma Precedes<X>(s: seq<X>, i: nat, j: nat, cmp: (X, X) -> int)
    requires Sorted(s, cmp) && i < |s| && j < |s| && i != j && cmp(s[j], s[i]) > 0
    ensures i < j
  {
  }

  /** Names in angle brackets come first; other names in the order of their folded text. */
  lemma SpecialFirst(r: Rules, artists: seq<Artist>, i: nat, j: nat)
    requires TreeSorted(r, artists) && i < |artists| && j < |artists|
    requires var a, b := SortKey(r, artists[i].name), SortKey(r, artists[j].name);
             || ("<" <= a && !("<" <= b))
             || (("<" <= a <==> "<" <= b) && StrCmp(Folded(r.fold, a), Folded(r.fold, b)) < 0)
    ensures i < j
  {
    var a, b := SortKey(r, artists[i].name), SortKey(r, artists[j].name);
    SpecialStart(a);
    SpecialStart(b);
    StrCmpEqual(Folded(r.fold, a), Folded(r.fold, b));
    StrCmpEqual(Folded(r.fold, b), Folded(r.fold, a));
    assert SpecialCmp(r.fold, b, a) > 0;
    hide SpecialCmp, SortKey, Special, Folded;
    Precedes(artists, i, j, ByArtist(r));
  }

  lemma SpecialStart(s: string)
    ensures Special(s) <==> "<" <= s
  {
  }

  /** Earlier albums come first, and those of one year by name. */
  lemma EarlierFirst(r: Rules, a: Artist, i: nat, j: nat)
    requires ArtistSorted(r, a) && i < |a.albums| && j < |a.albums|
    requires a.albums[i].date < a.albums[j].date
             || (a.albums[i].date == a.albums[j].date && SpecialCmp(r.fold, a.albums[j].name, a.albums[i].name) > 0)
    ensures i < j
  {
    hide SpecialCmp;
    SpecialCmpOrders(r.fold, a.albums[i].name, a.albums[i].name, a.albums[i].name);
    Precedes(a.albums, i, j, ByAlbum(r));
  }

  /** When artists are sorted by more than their exact names, a leading "the" in any case, and the
      blanks behind it, do not count; other names are taken as they are. */
  lemma TheIsSkipped(the: string, blanks: string, name: string)
    requires |the| == 3 && (the[0] == 't' || the[0] == 'T') && (the[1] == 'h' || the[1] == 'H')
    requires the[2] == 'e' || the[2] == 'E'
    requires blanks != "" && blanks[0] == ' ' && forall i :: 0 <= i < |blanks| ==> blanks[i] == ' ' || blanks[i] == '\t'
    requires name == "" || (name[0] != ' ' && name[0] != '\t')
    ensures SkipThe(the + blanks + name) == name
  {
    var s := the + blanks + name;
    var f := Folded(Lower, s[..4]);
    assert s[0] == the[0] && s[1] == the[1] && s[2] == the[2] && s[3] == blanks[0];
    LowerCases(s[0]);
    LowerCases(s[1]);
    LowerCases(s[2]);
    LowerCases(s[3]);
    assert f[0] == Lower(s[0]) && f[1] == Lower(s[1]) && f[2] == Lower(s[2]) && f[3] == Lower(s[3]);
    assert f[0] == 't' && f[1] == 'h' && f[2] == 'e' && f[3] == ' ';
    assert f == "the ";
    assert s[4..] == blanks[1..] + name;
    BlanksSkipped(blanks[1..], name);
  }

  lemma {:induction false} BlanksSkipped(blanks: string, name: string)
    requires forall i :: 0 <= i < |blanks| ==> blanks[i] == ' ' || blanks[i] == '\t'
    requires name == "" || (name[0] != ' ' && name[0] != '\t')
    ensures SkipBlanks(blanks + name) == name
  {
    if blanks == "" {
      assert blanks + name == name;
    } else {
      assert (blanks + name)[1..] == blanks[1..] + name;
      BlanksSkipped(blanks[1..], name);
    }
  }

  lemma OtherNamesStay(s: string)
    requires |s| < 4 || (s[0] != 't' && s[0] != 'T') || (s[1] != 'h' && s[1] != 'H')
             || (s[2] != 'e' && s[2] != 'E') || s[3] != ' '
    ensures SkipThe(s) == s
  {
    if |s| >= 4 {
      var f := Folded(Lower, s[..4]);
      LowerCases(s[0]);
      LowerCases(s[1]);
      LowerCases(s[2]);
      LowerCases(s[3]);
      assert f[0] == Lower(s[0]) && f[1] == Lower(s[1]) && f[2] == Lower(s[2]) && f[3] == Lower(s[3]);
    }
  }

  /** That is how artists are compared when sorting loosely; otherwise by their exact names. */
  lemma SortKeyIs(r: Rules, name: string)
    ensures r.fuzzy ==> SortKey(r, name) == SkipThe(name)
    ensures !r.fuzzy ==> SortKey(r, name) == name
  {
  }

  // ---- removing

  /** What is left after a removal was there before, with the same names, date and fold. */
  lemma RemovalChangesNothingElse(artists: seq<Artist>, i: nat, j: nat, k: nat)
    requires Place(artists, i, j, k)
    ensures forall x :: x in RemoveTrack(artists, i, j, k) ==> StaysIn(artists, x)
  {
    hide RemoveFromArtist;
    var after, y := RemoveTrack(artists, i, j, k), RemoveFromArtist(artists[i], j, k);
    forall x | x in after ensures StaysIn(artists, x) {
      if x == y {
        LeftOfArtist(artists[i], j, k);
        assert SameHead(artists[i], x);
      } else {
        assert x in artists && SameHead(x, x);
      }
    }
  }

  ghost predicate StaysIn(artists: seq<Artist>, x: Artist) {
    exists y :: y in artists && SameHead(y, x)
  }

  ghost predicate SameHead(y: Artist, x: Artist) {
    && y.name == x.name && y.expanded == x.expanded
    && forall b :: b in x.albums ==> exists c :: c in y.albums && SameAlbum(c, b)
  }

  predicate SameAlbum(c: Album, b: Album) {
    c.name == b.name && c.date == b.date
  }

  lemma LeftOfArtist(a: Artist, j: nat, k: nat)
    requires j < |a.albums| && k < |a.albums[j].tracks|
    ensures SameHead(a, RemoveFromArtist(a, j, k))
  {
    var x := RemoveFromArtist(a, j, k);
    forall b | b in x.albums ensures exists c :: c in a.albums && SameAlbum(c, b) {
      var m :| 0 <= m < |x.albums| && x.albums[m] == b;
      var c := a.albums[if |a.albums[j].tracks| == 1 && m >= j then m + 1 else m];
      assert c in a.albums && SameAlbum(c, b);
    }
  }
}
