/** A playlist: a name and the list of songs it owns. Every operator walks
    the song chain from the head, one cell at a time, and builds its result
    with `AddSong`. */
module Playlists {
  import opened Songs
  import opened Nodes
  import opened LinkedLists
  import opened ListSpec
  import opened PlaylistSpec

  class Playlist {
    var name: string
    const songs: LinkedList<Song>

    /** The song list is well formed and does not own the playlist itself. */
    ghost predicate Valid()
      reads songs, songs.Repr
    {
      songs.Valid() && this !in songs.Repr
    }

    /** The songs, in order. */
    ghost function Songs(): seq<Song>
      reads songs
    {
      songs.contents
    }

    /** The default playlist: no name, no songs. */
    constructor ()
      ensures Valid() && fresh(songs.Repr)
      ensures name == "" && Songs() == []
    {
      name := "";
      songs := new LinkedList();
    }

    constructor Named(name: string)
      ensures Valid() && fresh(songs.Repr)
      ensures this.name == name && Songs() == []
    {
      this.name := name;
      songs := new LinkedList();
    }

    /** Copy from a pointer: the same name and new cells with the same songs. */
    constructor Copy(playlist: Playlist)
      requires playlist.Valid()
      ensures Valid() && fresh(songs.Repr)
      ensures name == playlist.name && Songs() == playlist.Songs()
    {
      name := playlist.name;
      songs := new LinkedList();
      new;
      var aux := playlist.songs.head;
      ghost var i := 0;
      while aux != null
        invariant Valid() && fresh(songs.Repr)
        invariant songs.Repr !! playlist.songs.Repr
        invariant name == playlist.name
        invariant i <= |playlist.songs.nodes| && aux == playlist.songs.NodeAt(i)
        invariant Songs() == playlist.Songs()[..i]
        decreases |playlist.songs.nodes| - i
      {
        playlist.songs.StepAt(i);
        AddSong(aux.value);
        assert aux.value == playlist.Songs()[i];
        TakeOneMore(playlist.Songs(), i);
        aux := aux.next;
        i := i + 1;
      }
      assert playlist.Songs()[..i] == playlist.Songs();
    }

    /** Counts the songs. */
    method Size() returns (n: nat)
      requires Valid()
      ensures n == |Songs()|
    {
      n := songs.GetSize();
    }

    /** Appends `song`; a song already present is appended again. */
    method AddSong(song: Song)
      requires Valid()
      modifies songs.Repr
      ensures Valid() && fresh(songs.Repr - old(songs.Repr))
      ensures Songs() == old(Songs()) + [song]
    {
      songs.Add(song);
    }

    /** Removes the first copy of `song`, if there is one. */
    method RemoveSong(song: Song)
      requires Valid()
      modifies songs.Repr
      ensures Valid() && songs.Repr <= old(songs.Repr)
      ensures Songs() == RemoveFirst(old(Songs()), song)
    {
      songs.RemoveValue(song);
    }

    /** The cell holding the first copy of `song`, or null when there is none. */
    method SearchSong(song: Song) returns (found: Node?<Song>)
      requires Valid()
      ensures found == null <==> song !in Songs()
      ensures found != null ==> found == songs.nodes[IndexOf(Songs(), song)] && found.value == song
    {
      found := songs.SearchValue(song);
    }

    /** Appends every song of `playlist`, in its order. */
    method AddPlaylist(playlist: Playlist)
      requires Valid() && playlist.Valid() && songs.Repr !! playlist.songs.Repr
      modifies songs.Repr
      ensures Valid() && fresh(songs.Repr - old(songs.Repr)) && songs.Repr !! playlist.songs.Repr
      ensures Songs() == old(Songs()) + playlist.Songs()
    {
      var aux := playlist.songs.head;
      ghost var i := 0;
      while aux != null
        invariant Valid() && fresh(songs.Repr - old(songs.Repr))
        invariant songs.Repr !! playlist.songs.Repr
        invariant i <= |playlist.songs.nodes| && aux == playlist.songs.NodeAt(i)
        invariant Songs() == old(Songs()) + playlist.Songs()[..i]
        decreases |playlist.songs.nodes| - i
      {
        playlist.songs.StepAt(i);
        AddSong(aux.value);
        assert aux.value == playlist.Songs()[i];
        TakeOneMore(playlist.Songs(), i);
        aux := aux.next;
        i := i + 1;
      }
      assert playlist.Songs()[..i] == playlist.Songs();
    }

    /** One first-match removal per song of `playlist`, in its order. */
    method RemovePlaylist(playlist: Playlist)
      requires Valid() && playlist.Valid() && songs.Repr !! playlist.songs.Repr
      modifies songs.Repr
      ensures Valid() && songs.Repr <= old(songs.Repr)
      ensures Songs() == RemoveEach(old(Songs()), playlist.Songs())
    {
      var aux := playlist.songs.head;
      ghost var i := 0;
      while aux != null
        invariant Valid() && songs.Repr <= old(songs.Repr)
        invariant songs.Repr !! playlist.songs.Repr
        invariant i <= |playlist.songs.nodes| && aux == playlist.songs.NodeAt(i)
        invariant Songs() == RemoveEach(old(Songs()), playlist.Songs()[..i])
        decreases |playlist.songs.nodes| - i
      {
        playlist.songs.StepAt(i);
        assert aux.value == playlist.Songs()[i];
        RemoveEachStep(old(Songs()), playlist.Songs(), i);
        RemoveSong(aux.value);
        aux := aux.next;
        i := i + 1;
      }
      assert playlist.Songs()[..i] == playlist.Songs();
    }

    /** Equality compares the names only. */
    predicate Equals(b: Playlist): (same: bool)
      reads this, b
      ensures same <==> b.name == name
    {
      name == b.name
    }

    /** Inequality is the negation of equality, so it too looks only at names. */
    predicate NotEquals(b: Playlist): (differ: bool)
      reads this, b
      ensures differ <==> name != b.name
    {
      !Equals(b)
    }

    /** `+ Playlist`: a new, unnamed playlist with this playlist's songs followed
        by each song of `b` that it does not yet hold. */
    method Plus(b: Playlist) returns (newPlaylist: Playlist)
      requires Valid() && b.Valid()
      ensures newPlaylist.Valid() && fresh(newPlaylist) && fresh(newPlaylist.songs.Repr)
      ensures newPlaylist.name == "" && newPlaylist.Songs() == Union(Songs(), b.Songs())
    {
      newPlaylist := new Playlist();
      ghost var outside := songs.Repr + b.songs.Repr;
      assert newPlaylist.songs.Repr !! outside;
      // the first walk adds every song of this playlist
      newPlaylist.AddPlaylist(this);
      assert fresh(newPlaylist.songs.Repr) && newPlaylist.songs.Repr !! outside;
      assert newPlaylist.Songs() == [] + Songs() == Songs();
      newPlaylist.AddNovelSongs(b);
    }

    /** The second walk of `+ Playlist`: each song of `b` is searched for in
        this playlist and appended when it is not found. */
    method AddNovelSongs(b: Playlist)
      requires Valid() && b.Valid() && songs.Repr !! b.songs.Repr
      modifies songs.Repr
      ensures Valid() && fresh(songs.Repr - old(songs.Repr)) && songs.Repr !! b.songs.Repr
      ensures Songs() == Union(old(Songs()), b.Songs())
    {
      ghost var theirs := b.Songs();
      var aux := b.songs.head;
      ghost var i := 0;
      while aux != null
        invariant Valid() && fresh(songs.Repr - old(songs.Repr))
        invariant songs.Repr !! b.songs.Repr
        invariant i <= |b.songs.nodes| && aux == b.songs.NodeAt(i)
        invariant Songs() == Union(old(Songs()), theirs[..i])
        decreases |b.songs.nodes| - i
      {
        b.songs.StepAt(i);
        assert aux.value == theirs[i];
        UnionStep(old(Songs()), theirs, i);
        var found := SearchSong(aux.value);
        if found == null {
          AddSong(aux.value);
        }
        aux := aux.next;
        i := i + 1;
      }
      assert theirs[..i] == theirs;
    }

    /** `+ Song`: a new, unnamed playlist with this playlist's songs and then
        `song`, appended even when it is already there. */
    method PlusSong(song: Song) returns (newPlaylist: Playlist)
      requires Valid()
      ensures newPlaylist.Valid() && fresh(newPlaylist) && fresh(newPlaylist.songs.Repr)
      ensures newPlaylist.name == "" && newPlaylist.Songs() == Songs() + [song]
    {
      newPlaylist := new Playlist();
      // the walk over this playlist's cells that adds each song to the new one
      newPlaylist.AddPlaylist(this);
      newPlaylist.AddSong(song);
    }

    /** `- Playlist`: a new, unnamed playlist with the songs of this one that
        `b` does not hold, in order. */
    method Minus(b: Playlist) returns (newPlaylist: Playlist)
      requires Valid() && b.Valid()
      ensures newPlaylist.Valid() && fresh(newPlaylist) && fresh(newPlaylist.songs.Repr)
      ensures newPlaylist.name == "" && newPlaylist.Songs() == Difference(Songs(), b.Songs())
    {
      newPlaylist := new Playlist();
      assert newPlaylist.songs.Repr !! songs.Repr + b.songs.Repr;
      newPlaylist.AddDifference(this, b);
    }

    /** The walk of `- Playlist`, run on the new, empty playlist: each song
        of `a`, in order, is appended unless a search of `b` finds it. */
    method AddDifference(a: Playlist, b: Playlist)
      requires Valid() && a.Valid() && b.Valid() && Songs() == []
      requires songs.Repr !! a.songs.Repr && songs.Repr !! b.songs.Repr
      modifies songs.Repr
      ensures Valid() && fresh(songs.Repr - old(songs.Repr))
      ensures Songs() == Difference(a.Songs(), b.Songs())
    {
      ghost var mine, theirs := a.Songs(), b.Songs();
      ghost var outside := a.songs.Repr + b.songs.Repr;
      var aux := a.songs.head;
      ghost var i := 0;
      while aux != null
        invariant Valid() && fresh(songs.Repr - old(songs.Repr)) && songs.Repr !! outside
        invariant a.Valid() && b.Valid() && a.Songs() == mine && b.Songs() == theirs
        invariant i <= |a.songs.nodes| && aux == a.songs.NodeAt(i)
        invariant Songs() == Difference(mine[..i], theirs)
        decreases |a.songs.nodes| - i
      {
        a.songs.StepAt(i);
        assert aux.value == mine[i];
        AddUnlessIn(aux.value, b, mine, i, outside);
        aux := aux.next;
        i := i + 1;
      }
      assert mine[..i] == mine;
    }

    /** One step of `- Playlist`: `song`, the `i`-th song of the walked
        playlist `mine`, is appended unless a search of `b` finds it, which
        takes the difference one song further. */
    method AddUnlessIn(song: Song, b: Playlist, ghost mine: seq<Song>, ghost i: nat, ghost outside: set<object>)
      requires Valid() && b.Valid() && b.songs.Repr <= outside && songs.Repr !! outside
      requires i < |mine| && song == mine[i] && Songs() == Difference(mine[..i], b.Songs())
      modifies songs.Repr
      ensures Valid() && fresh(songs.Repr - old(songs.Repr)) && songs.Repr !! outside
      ensures Songs() == if song in b.Songs() then old(Songs()) else old(Songs()) + [song]
      ensures Songs() == Difference(mine[..i + 1], b.Songs())
    {
      DifferenceStep(mine, i, b.Songs());
      var found := b.SearchSong(song);
      if found == null {
        AddSong(song);
      }
    }

    /** `- Song`: a new, unnamed playlist without any copy of `song`; the
        other songs keep their order. */
    method MinusSong(song: Song) returns (newPlaylist: Playlist)
      requires Valid()
      ensures newPlaylist.Valid() && fresh(newPlaylist) && fresh(newPlaylist.songs.Repr)
      ensures newPlaylist.name == "" && newPlaylist.Songs() == Exclude(Songs(), song)
    {
      newPlaylist := new Playlist();
      ghost var mine := Songs();
      var aux := songs.head;
      ghost var i := 0;
      while aux != null
        invariant newPlaylist.Valid() && fresh(newPlaylist.songs.Repr)
        invariant newPlaylist.songs.Repr !! songs.Repr
        invariant newPlaylist.name == "" && Songs() == mine
        invariant i <= |songs.nodes| && aux == songs.NodeAt(i)
        invariant newPlaylist.Songs() == Exclude(mine[..i], song)
        decreases |songs.nodes| - i
      {
        songs.StepAt(i);
        assert aux.value == mine[i];
        ExcludeStep(mine, i, song);
        if aux.value != song {
          newPlaylist.AddSong(aux.value);
        }
        aux := aux.next;
        i := i + 1;
      }
      assert mine[..i] == mine;
    }

    /** `>>`: walks to the last cell, hands back its song and removes the
        first copy of that song. The playlist must not be empty: the walk
        starts by following the head. */
    method PopLast() returns (song: Song)
      requires Valid() && Songs() != []
      modifies songs.Repr
      ensures Valid() && songs.Repr <= old(songs.Repr)
      ensures song == old(Songs())[|old(Songs())| - 1]
      ensures Songs() == AfterPop(old(Songs()))
    {
      var aux := songs.head;
      ghost var i := 0;
      while aux.next != null
        invariant Valid() && i < |songs.nodes| && aux == songs.nodes[i]
        decreases |songs.nodes| - i
      {
        aux := aux.next;
        i := i + 1;
      }
      assert i == |songs.nodes| - 1;
      song := aux.value;
      RemoveSong(song);
    }

    /** `<<`: appends `song`. The guard compares the song with itself and so
        always holds. */
    method PushSong(song: Song)
      requires Valid()
      modifies songs.Repr
      ensures Valid() && fresh(songs.Repr - old(songs.Repr))
      ensures Songs() == old(Songs()) + [song]
    {
      if song == song {
        AddSong(song);
      }
    }
  }

  /** Two playlists with one name compare equal even when their songs
      differ: `==` looks at the names alone. */
  method EqualsIgnoresSongs() returns (p: Playlist, q: Playlist, same: bool)
    ensures p.name == q.name && p.Songs() != q.Songs()
    ensures same && !p.NotEquals(q)
  {
    p := new Playlist.Named("rock");
    q := new Playlist.Named("rock");
    p.AddSong(Song("Thunderstruck", "AC/DC"));
    same := p.Equals(q);
  }

}
