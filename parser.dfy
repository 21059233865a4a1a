/** Reading one line of the playlist file,
      Name;Title1:Author1,Title2:Author2,...
    into a playlist. The standard stream reads are modelled on values:
    `GetLine` is one `std::getline` with a delimiter, and the rest of the
    line still unread is an explicit string. */
module Parsing {
  import opened Songs
  import opened LinkedLists
  import opened Playlists

  /** One `std::getline(stream, token, delim)` on the unread text `s`: the
      token is everything up to the first `delim`, which is consumed but not
      stored; without a `delim` the token is the whole of `s`. */
  function GetLine(s: string, delim: char): (r: (string, string))
    ensures delim !in r.0
    ensures delim in s ==> s == r.0 + [delim] + r.1
    ensures delim !in s ==> r.0 == s && r.1 == []
  {
    if s == [] then ([], [])
    else if s[0] == delim then ([], s[1..])
    else
      var (token, rest) := GetLine(s[1..], delim);
      ([s[0]] + token, rest)
  }

  /** The split `GetLine` makes is the only one whose token is free of `d`. */
  lemma {:induction false} GetLineOf(a: string, d: char, b: string)
    requires d !in a
    ensures GetLine(a + [d] + b, d) == (a, b)
  {
    if a != [] {
      assert a[0] in a;
      assert (a + [d] + b)[1..] == a[1..] + [d] + b;
      GetLineOf(a[1..], d, b);
      assert [a[0]] + a[1..] == a;
    }
  }

  /** The tokens `while (std::getline(ss, songInfo, ','))` reads from the
      unread text `rest`: the read fails only once nothing is left, so a
      trailing ',' ends the line without an empty token, while an empty
      token between two commas is read. */
  function Segments(rest: string): (segs: seq<string>)
    ensures rest == [] <==> segs == []
    decreases |rest|
  {
    if rest == [] then []
    else
      var (token, after) := GetLine(rest, ',');
      [token] + Segments(after)
  }

  /** No token holds a comma. */
  lemma {:induction false} SegmentsCommaFree(rest: string)
    ensures forall k :: 0 <= k < |Segments(rest)| ==> ',' !in Segments(rest)[k]
    decreases |rest|
  {
    if rest != [] {
      var (token, after) := GetLine(rest, ',');
      SegmentsCommaFree(after);
      assert Segments(rest) == [token] + Segments(after);
    }
  }

  /** The tokens separated by commas. */
  function Join(segs: seq<string>): string
  {
    if segs == [] then []
    else if |segs| == 1 then segs[0]
    else segs[0] + [','] + Join(segs[1..])
  }

  /** The segments joined back give the unread text, up to a trailing comma
      that produced no segment. */
  lemma {:induction false} JoinSegments(rest: string)
    ensures Join(Segments(rest)) + TrailingComma(rest) == rest
    decreases |rest|
  {
    if rest != [] {
      var (token, after) := GetLine(rest, ',');
      assert Segments(rest) == [token] + Segments(after);
      if ',' !in rest {
        JoinSegmentsLast(rest);
      } else if after != [] {
        JoinSegments(after);
        JoinSegmentsStep(token, after);
      }
    }
  }

  /** The last token, when no comma is left. */
  lemma JoinSegmentsLast(rest: string)
    requires rest != [] && ',' !in rest
    ensures Join(Segments(rest)) + TrailingComma(rest) == rest
  {
    assert Segments(rest) == [rest] + Segments([]);
    assert rest[|rest| - 1] in rest;
  }

  /** A token and its comma in front of a text that joins back. */
  lemma JoinSegmentsStep(token: string, after: string)
    requires after != [] && Join(Segments(after)) + TrailingComma(after) == after
    ensures Join([token] + Segments(after)) + TrailingComma(token + [','] + after) == token + [','] + after
  {
    JoinCons(token, Segments(after));
    TrailingCommaOfAppend(token + [','], after);
  }

  /** The comma at the end of `rest`, if there is one there. */
  function TrailingComma(rest: string): string
  {
    if rest != [] && rest[|rest| - 1] == ',' then [','] else []
  }

  /** Only the end of a text decides its trailing comma. */
  lemma TrailingCommaOfAppend(a: string, b: string)
    requires b != []
    ensures TrailingComma(a + b) == TrailingComma(b)
  {
    assert (a + b)[|a + b| - 1] == b[|b| - 1];
  }

  /** Joining a token in front of further tokens puts a comma between. */
  lemma JoinCons(token: string, later: seq<string>)
    requires later != []
    ensures Join([token] + later) == token + [','] + Join(later)
  {
    assert ([token] + later)[1..] == later;
  }

  /** Joining comma-free tokens, the last of them not empty, and splitting
      the result again gives back the tokens. */
  lemma {:induction false} SegmentsJoin(segs: seq<string>)
    requires forall k :: 0 <= k < |segs| ==> ',' !in segs[k]
    requires segs != [] ==> segs[|segs| - 1] != []
    ensures Segments(Join(segs)) == segs
  {
    if |segs| == 1 {
      assert Segments(segs[0]) == [segs[0]] + Segments([]);
    } else if |segs| > 1 {
      var tail := segs[1..];
      assert tail[|tail| - 1] == segs[|segs| - 1];
      assert forall k :: 0 <= k < |tail| ==> tail[k] == segs[k + 1];
      SegmentsJoin(tail);
      var joined := Join(tail);
      assert Join(segs) == segs[0] + [','] + joined;
      GetLineOf(segs[0], ',', joined);
      assert Segments(Join(segs)) == [segs[0]] + Segments(joined);
      assert segs == [segs[0]] + tail;
    }
  }

  /** A comma at the very end gives no token; two commas in a row give an
      empty one. */
  lemma SegmentsExamples()
    ensures Segments("a,") == ["a"]
    ensures Segments("a,,b") == ["a", "", "b"]
    ensures Segments(",") == [""]
  {
    SegmentsOfTrailingComma();
    SegmentsOfDoubleComma();
  }

  lemma SegmentsOfTrailingComma()
    ensures Segments("a,") == ["a"] && Segments(",") == [""]
  {
    GetLineOf("a", ',', "");
    GetLineOf("", ',', "");
  }

  lemma SegmentsOfDoubleComma()
    ensures Segments("a,,b") == ["a", "", "b"]
  {
    assert Segments(",b") == [""] + Segments("b") by { GetLineOf("", ',', "b"); }
    assert Segments("a,,b") == ["a"] + Segments(",b") by { GetLineOf("a", ',', ",b"); }
    assert Segments("b") == ["b"];
  }

  /** The song one token describes: the title up to the first ':', then
      the author up to the end of the token's first line. */
  function ParseSong(seg: string): (song: Song)
    ensures ':' !in song.title && '\n' !in song.author
    ensures ':' !in seg ==> song.title == seg
    ensures ':' in seg ==> song.title + [':'] <= seg
  {
    var (title, afterTitle) := GetLine(seg, ':');
    Song(title, GetLine(afterTitle, '\n').0)
  }

  /** How a song is written in the file. */
  function FormatSong(song: Song): string
  {
    song.title + [':'] + song.author
  }

  /** A token without any ':' is all title, and the author is empty. */
  lemma ParseSongWithoutColon(seg: string)
    requires ':' !in seg
    ensures ParseSong(seg) == Song(seg, [])
  {
  }

  /** A song whose title has no ':' and whose author has no line break is
      read back as written. */
  lemma ParseFormatSong(song: Song)
    requires ':' !in song.title && '\n' !in song.author
    ensures ParseSong(FormatSong(song)) == song
  {
    GetLineOf(song.title, ':', song.author);
  }

  /** Only the first ':' separates: the author keeps any later one. */
  lemma ParseSongExamples()
    ensures ParseSong("Title:Au:thor") == Song("Title", "Au:thor")
    ensures ParseSong("Title") == Song("Title", "")
    ensures ParseSong("") == Song("", "")
  {
    assert FormatSong(Song("Title", "Au:thor")) == "Title:Au:thor";
    ParseFormatSong(Song("Title", "Au:thor"));
  }

  /** A token with a ':' and no line break is exactly a written song. */
  lemma FormatParseSong(seg: string)
    requires ':' in seg && '\n' !in seg
    ensures FormatSong(ParseSong(seg)) == seg
  {
    var (title, afterTitle) := GetLine(seg, ':');
    assert forall c :: c in afterTitle ==> c in seg;
  }

  /** The song of each token, in order. */
  function SongsOf(segs: seq<string>): seq<Song>
  {
    if segs == [] then [] else [ParseSong(segs[0])] + SongsOf(segs[1..])
  }

  /** One song per token, the k-th song read from the k-th token. */
  lemma {:induction false} SongsOfAt(segs: seq<string>)
    ensures |SongsOf(segs)| == |segs|
    ensures forall k :: 0 <= k < |segs| ==> SongsOf(segs)[k] == ParseSong(segs[k])
  {
    if segs != [] {
      var later := segs[1..];
      SongsOfAt(later);
      assert SongsOf(segs) == [ParseSong(segs[0])] + SongsOf(later);
      forall k | 0 < k < |segs|
        ensures SongsOf(segs)[k] == ParseSong(segs[k])
      {
        assert SongsOf(segs)[k] == SongsOf(later)[k - 1] && later[k - 1] == segs[k];
      }
    }
  }

  /** The playlist name: the line up to its first ';'. */
  function PlaylistName(line: string): string
  {
    GetLine(line, ';').0
  }

  /** The songs of the line: one per comma-separated token after the ';'. */
  function ParsedSongs(line: string): seq<Song>
  {
    SongsOf(Segments(GetLine(line, ';').1))
  }

  /** A line without any ';' is all name and lists no song. */
  lemma LineWithoutSemicolon(line: string)
    requires ';' !in line
    ensures PlaylistName(line) == line && ParsedSongs(line) == []
  {
  }

  /** How a playlist is written as one line of the file. */
  function FormatLine(name: string, songs: seq<Song>): string
  {
    name + [';'] + Join(FormatSongs(songs))
  }

  function FormatSongs(songs: seq<Song>): (segs: seq<string>)
    ensures |segs| == |songs|
    ensures forall k :: 0 <= k < |songs| ==> segs[k] == FormatSong(songs[k])
  {
    if songs == [] then [] else [FormatSong(songs[0])] + FormatSongs(songs[1..])
  }

  /** A song that can be written on a line and read back. */
  predicate WellFormedSong(song: Song)
  {
    ':' !in song.title && ',' !in song.title && ',' !in song.author && '\n' !in song.author
  }

  /** Reading a written line gives back the name and the songs, in order,
      duplicates included. */
  lemma ParseFormatLine(name: string, songs: seq<Song>)
    requires ';' !in name
    requires forall k :: 0 <= k < |songs| ==> WellFormedSong(songs[k])
    ensures PlaylistName(FormatLine(name, songs)) == name
    ensures ParsedSongs(FormatLine(name, songs)) == songs
  {
    var segs := FormatSongs(songs);
    GetLineOf(name, ';', Join(segs));
    forall k | 0 <= k < |segs|
      ensures ',' !in segs[k] && ParseSong(segs[k]) == songs[k]
    {
      ParseFormatSong(songs[k]);
    }
    if segs != [] {
      assert ':' in segs[|segs| - 1];
    }
    SegmentsJoin(segs);
    SongsOfAt(segs);
  }

  /** One read of the loop moves the song of the first token from the
      tokens still to read to the songs already read. */
  lemma ReadStep(done: seq<Song>, rest: string)
    requires rest != []
    ensures done + SongsOf(Segments(rest))
         == (done + [ParseSong(GetLine(rest, ',').0)]) + SongsOf(Segments(GetLine(rest, ',').1))
  {
    var token, after := GetLine(rest, ',').0, GetLine(rest, ',').1;
    var segs := Segments(rest);
    assert segs == [token] + Segments(after);
    assert segs[0] == token && segs[1..] == Segments(after);
    var song, later := ParseSong(token), SongsOf(Segments(after));
    assert SongsOf(segs) == [song] + later;
    assert done + ([song] + later) == (done + [song]) + later;
  }

  /** The body of the read loop: the song goes to the system list and to the
      playlist being built, so the system list still ends with the
      playlist's songs. */
  method AddToBoth(song: Song, songs: LinkedList<Song>, playlist: Playlist, ghost before: seq<Song>)
    requires songs.Valid() && playlist.Valid()
    requires playlist !in songs.Repr && songs.Repr !! playlist.songs.Repr
    requires songs.contents == before + playlist.Songs()
    modifies songs.Repr, playlist.songs.Repr
    ensures songs.Valid() && fresh(songs.Repr - old(songs.Repr))
    ensures playlist.Valid() && fresh(playlist.songs.Repr - old(playlist.songs.Repr))
    ensures playlist !in songs.Repr && songs.Repr !! playlist.songs.Repr
    ensures playlist.Songs() == old(playlist.Songs()) + [song]
    ensures songs.contents == before + playlist.Songs()
  {
    songs.Add(song);
    playlist.AddSong(song);
  }

  /** `parsePlaylist`: a new playlist named by the text before the first
      ';', which receives, in order, one song per comma-separated token of
      the rest; every song is also appended to the system list `songs`. */
  method ParsePlaylist(line: string, songs: LinkedList<Song>) returns (playlist: Playlist)
    requires songs.Valid()
    modifies songs.Repr
    ensures songs.Valid() && fresh(songs.Repr - old(songs.Repr))
    ensures songs.contents == old(songs.contents) + ParsedSongs(line)
    ensures fresh(playlist) && playlist.Valid() && fresh(playlist.songs.Repr)
    ensures playlist.name == PlaylistName(line) && playlist.Songs() == ParsedSongs(line)
  {
    var split := GetLine(line, ';');
    var playlistName, rest := split.0, split.1;
    playlist := new Playlist.Named(playlistName);
    ReadSongs(rest, songs, playlist);
  }

  /** The read loop of `parsePlaylist`, run on the new, empty playlist: each
      comma-separated token of `rest` becomes a song appended to the system
      list and then to the playlist. */
  method ReadSongs(rest: string, songs: LinkedList<Song>, playlist: Playlist)
    requires songs.Valid() && playlist.Valid() && playlist.Songs() == []
    requires playlist !in songs.Repr && songs.Repr !! playlist.songs.Repr
    modifies songs.Repr, playlist.songs.Repr
    ensures songs.Valid() && fresh(songs.Repr - old(songs.Repr))
    ensures playlist.Valid() && fresh(playlist.songs.Repr - old(playlist.songs.Repr))
    ensures songs.contents == old(songs.contents) + SongsOf(Segments(rest))
    ensures playlist.Songs() == SongsOf(Segments(rest))
  {
    ghost var before, all := songs.contents, SongsOf(Segments(rest));
    var unread := rest;
    while unread != []
      invariant songs.Valid() && fresh(songs.Repr - old(songs.Repr))
      invariant playlist.Valid() && fresh(playlist.songs.Repr - old(playlist.songs.Repr))
      invariant playlist !in songs.Repr && songs.Repr !! playlist.songs.Repr
      invariant songs.contents == before + playlist.Songs()
      invariant playlist.Songs() + SongsOf(Segments(unread)) == all
      decreases |unread|
    {
      ReadStep(playlist.Songs(), unread);
      var token := GetLine(unread, ',');
      unread := token.1;
      AddToBoth(ParseSong(token.0), songs, playlist, before);
    }
  }

}
