# Playlist manager core, modelled in Dafny

The system manages songs and playlists in memory. There are three parts:

- A generic singly-linked list `LinkedList<T>`. It is an owning head/tail chain of `Node<T>` cells. It supports tail append, first-match search, first-match removal, clear, counted size, bulk add and remove of another list, deep copy, and `+` and `-` on lists.
- A `Playlist`: a name plus one `LinkedList<Song>`. It supports union with de-duplication (`+ Playlist`), append (`+ Song`), difference (`- Playlist`), removal of every copy of a song (`- Song`), "pop last" (`>>`), append (`<<`), and equality by name only.
- `parsePlaylist`, which reads one line `Name;Title1:Author1,Title2:Author2,...` of the playlist file.

The model is imperative where the source is:

- `LinkedList` is a class with the real `head`/`tail` pointers over `Node` objects. It also has ghost fields: `nodes` (the cells, head to tail), `contents` (their values) and `Repr` (what the list owns). `Valid()` ties the chain to the ghost fields.
- Each operation is a method with the walk from the source. Each one is proved against a function over `contents`.
- Those functions live in `ListSpec` (first-match search and removal) and `PlaylistSpec` (union, difference, exclusion, pop). The lemmas there prove what the operators promise: membership in both directions, kept order, multiset counts, and de-duplication.
- `parsePlaylist` is a method with the source's read loop. `std::getline` is modelled as the pure function `GetLine` on the unread text. The tokenizer is proved against a `Join`/`FormatLine` writer in both directions.

Files:

- `songs.dfy`: `Song`.
- `nodes.dfy`: `Node`.
- `list_spec.dfy`, `linked_list.dfy`: the list.
- `playlist_spec.dfy`, `playlist.dfy`: the playlist.
- `parser.dfy`: the line parser.

`Song.hpp` and `Node.hpp` are not part of this model. `Song` is a datatype with a title and an author, and its equality is structural. `Node` holds a value and a `next` link.

## Model

| member | source | states |
|---|---|---|
| LinkedLists.LinkedList.constructor | include/LinkedList.hpp:75-79 | a new list is well formed, empty, with null head and tail, and owns only itself |
| LinkedLists.LinkedList.Copy | include/LinkedList.hpp:297-308 | the copy is a chain of fresh cells with exactly the other list's values in order; the other list is not changed |
| LinkedLists.LinkedList.Clear | include/LinkedList.hpp:92-104 | every cell is released (the list owns nothing but itself afterwards), contents are empty, head and tail are null |
| LinkedLists.LinkedList.GetSize | include/LinkedList.hpp:111-121 | the count of cells reached from head equals the number of stored values |
| LinkedLists.LinkedList.Add | include/LinkedList.hpp:168-181 | contents become old contents plus the value; tail holds the value; a list that was empty has head == tail afterwards; only new cells are added |
| LinkedLists.LinkedList.SearchValue | include/LinkedList.hpp:190-201 | null exactly when the value is absent; otherwise the cell at the first position holding the value; nothing changes |
| LinkedLists.LinkedList.RemoveValue | include/LinkedList.hpp:209-234 | contents lose exactly the first copy of the value (unchanged when absent, as the lemma RemoveFirstAbsent shows); head and tail stay consistent; no new cell |
| LinkedLists.LinkedList.Detach | include/LinkedList.hpp:215-227 | the unlinking step: predecessor or head bypasses the cell, tail moves back when the last cell goes, the cell leaves the footprint and its value leaves contents |
| LinkedLists.LinkedList.AddList | include/LinkedList.hpp:265-273 | contents become old contents followed by the other list's values; the other list is not changed |
| LinkedLists.LinkedList.RemoveList | include/LinkedList.hpp:281-289 | one first-match removal per value of the other list, in its order |
| LinkedLists.LinkedList.Concat | include/LinkedList.hpp:317-328 | `+`: a fresh list holding this list's values then the other's, duplicates kept; neither operand changes |
| LinkedLists.LinkedList.Minus | include/LinkedList.hpp:373-385 | `-`: a fresh copy of this list with one first-match removal per value of the other; neither operand changes |
| ListSpec.IndexOf | include/LinkedList.hpp:194-199 | the position found is the first holding the value |
| ListSpec.RemoveFirstAt | include/LinkedList.hpp:214-227 | removing by first match splices out exactly the first position holding the value |
| ListSpec.RemoveFirstAbsent | include/LinkedList.hpp:214-233 | removing an absent value (in particular from an empty list) changes nothing |
| ListSpec.RemoveFirstMultiset | include/LinkedList.hpp:210-234 | exactly one copy of the value leaves the multiset of values when present; the length drops by one exactly then |
| ListSpec.RemoveEachMultiset | include/LinkedList.hpp:282-289 | bulk removal is multiset difference: one copy per value of the other list |
| ListSpec.RemoveEachKeepsOtherCopies | include/LinkedList.hpp:374-385 | a value held twice survives one removal of it |
| Playlists.Playlist.constructor | src/Playlist.cpp:15-17 | the default playlist has name "" and no songs |
| Playlists.Playlist.Named | src/Playlist.cpp:24-26 | the playlist has the given name and no songs |
| Playlists.Playlist.Copy | src/Playlist.cpp:249-256 | the copy has the same name and the same songs in order, in fresh cells |
| Playlists.Playlist.Size | src/Playlist.cpp:40-42 | the number of songs |
| Playlists.Playlist.AddSong | src/Playlist.cpp:67-69 | the song is appended, even when already present |
| Playlists.Playlist.RemoveSong | src/Playlist.cpp:76-78 | the first copy of the song is removed |
| Playlists.Playlist.SearchSong | src/Playlist.cpp:87-89 | null exactly when the song is absent; otherwise the cell at the first position holding it |
| Playlists.Playlist.AddPlaylist | src/Playlist.cpp:121-127 | the other playlist's songs are appended in order |
| Playlists.Playlist.RemovePlaylist | src/Playlist.cpp:134-140 | one first-match removal per song of the other playlist, in its order |
| Playlists.Playlist.Equals | src/Playlist.cpp:104-106 | `==` holds exactly when the two names agree; the songs play no part |
| Playlists.Playlist.NotEquals | include/Playlist.hpp:67 | `!=` holds exactly when the two names differ |
| Playlists.EqualsIgnoresSongs | src/Playlist.cpp:104-106 | two playlists with the same name and different songs compare equal, and `!=` is false for them |
| Playlists.Playlist.Plus | src/Playlist.cpp:148-163 | a fresh unnamed playlist whose songs are `Union` (receiver's songs, then each song of b not yet in the result); both operands unchanged |
| Playlists.Playlist.AddNovelSongs | src/Playlist.cpp:154-161 | the second walk of `+`: each song of b is appended when the accumulating list does not hold it |
| Playlists.Playlist.PlusSong | src/Playlist.cpp:171-180 | a fresh unnamed playlist with the receiver's songs and then the song, no de-duplication |
| Playlists.Playlist.Minus | src/Playlist.cpp:188-198 | a fresh unnamed playlist with the receiver's songs not in b, in order; both operands unchanged |
| Playlists.Playlist.AddDifference | src/Playlist.cpp:190-196 | the walk of `-`, on the new, empty playlist: it ends up holding `Difference`, each song of the walked playlist that b does not hold, in order |
| Playlists.Playlist.AddUnlessIn | src/Playlist.cpp:191-195 | one step of that walk: the song is appended exactly when a search of b does not find it, which takes the difference of the walked prefix one song further |
| Playlists.Playlist.MinusSong | src/Playlist.cpp:206-216 | a fresh unnamed playlist without any copy of the song, the rest in order |
| Playlists.Playlist.PopLast | src/Playlist.cpp:223-231 | the song handed back is the last one; the playlist becomes `AfterPop`, the first copy of that song removed |
| Playlists.Playlist.PushSong | src/Playlist.cpp:238-242 | the song is always appended |
| PlaylistSpec.UnionMembers | src/Playlist.cpp:148-163 | a song is in the union exactly when it is in either operand |
| PlaylistSpec.UnionKeepsReceiver | src/Playlist.cpp:150-153 | the receiver's songs come first, unchanged, own duplicates included; at most one song is added per song of b |
| PlaylistSpec.UnionAppendsNovel | src/Playlist.cpp:155-161 | every appended song is new to the receiver and no two appended songs are equal |
| PlaylistSpec.UnionDistinct | src/Playlist.cpp:148-163 | a receiver without repeats gives a union without repeats |
| PlaylistSpec.UnionOfContained | src/Playlist.cpp:155-161 | adding only songs the receiver already has leaves its songs as they are |
| PlaylistSpec.DifferenceMembers | src/Playlist.cpp:188-198 | a song is in the difference exactly when it is in the receiver and not in b |
| PlaylistSpec.DifferenceConcat | src/Playlist.cpp:190-196 | the difference keeps order: it distributes over concatenation of the receiver |
| PlaylistSpec.DifferenceOfDisjoint | src/Playlist.cpp:188-198 | the difference is never longer than the receiver and is the receiver when nothing is shared |
| PlaylistSpec.ExcludeIsDifference | src/Playlist.cpp:206-216 | `- Song` is the difference with the one-song playlist |
| PlaylistSpec.ExcludeCount | src/Playlist.cpp:206-216 | every copy of the song goes and nothing else: the multiset with that song's count set to zero |
| PlaylistSpec.AfterPopShrinks | src/Playlist.cpp:223-231 | `>>` shortens the playlist by exactly one copy of the last song |
| PlaylistSpec.AfterPopOfUnique | src/Playlist.cpp:223-231 | when the last song occurs once, `>>` drops the last position |
| PlaylistSpec.AfterPopTakesFirstCopy | src/Playlist.cpp:229-230 | when the last song also occurs earlier, the earlier copy is the one removed: [x, y, x] becomes [y, x] |
| Parsing.GetLine | src/main.cpp:33 | the token is the text up to the first delimiter, which is consumed; without a delimiter the token is all of the text and nothing is left |
| Parsing.GetLineOf | src/main.cpp:33 | a delimiter-free prefix followed by the delimiter is read back as exactly that token and rest |
| Parsing.Segments | src/main.cpp:38 | the read loop yields no token exactly when no text is left |
| Parsing.SegmentsCommaFree | src/main.cpp:38 | no token holds a comma |
| Parsing.JoinSegments | src/main.cpp:38 | the tokens joined with commas give back the text, up to a final comma that yields no token |
| Parsing.SegmentsJoin | src/main.cpp:38 | comma-free tokens, the last non-empty, joined and read again are the same tokens |
| Parsing.SegmentsExamples | src/main.cpp:38 | "a," gives one token, "a,,b" gives an empty middle token, "," gives one empty token |
| Parsing.ParseSong | src/main.cpp:39-44 | the title holds no ':' and the author no line break; a token without ':' is all title; otherwise the title and a ':' begin the token |
| Parsing.ParseSongWithoutColon | src/main.cpp:40-42 | a token without ':' is all title, with an empty author |
| Parsing.ParseFormatSong | src/main.cpp:40-42 | a written song whose title has no ':' and whose author has no line break is read back as itself; the author may contain ':' |
| Parsing.ParseSongExamples | src/main.cpp:40-42 | only the first ':' separates title from author |
| Parsing.FormatParseSong | src/main.cpp:40-42 | a token with a ':' and no line break is exactly title, ':' and author |
| Parsing.SongsOfAt | src/main.cpp:38-48 | one song per token, the k-th from the k-th |
| Parsing.LineWithoutSemicolon | src/main.cpp:31-35 | a line without ';' is all name and gives no song |
| Parsing.ParseFormatLine | src/main.cpp:30-51 | a line written from a name and well-formed songs reads back as that name and those songs, in order, duplicates included |
| Parsing.ReadStep | src/main.cpp:38-48 | one iteration of the read loop moves the first token's song from the songs still to read to the songs read |
| Parsing.ReadSongs | src/main.cpp:37-48 | the read loop, on the new, empty playlist: the playlist ends up with one song per token, in order, and the system list gains the same songs |
| Parsing.AddToBoth | src/main.cpp:45-47 | the song is appended both to the system list and to the playlist |
| Parsing.ParsePlaylist | src/main.cpp:30-51 | a fresh playlist named by the text before the first ';' holds the parsed songs in order; the system list gains the same songs in the same order |

## Left out

- Console and stream output: `print`/`printAux`, the list's stream operators and the playlist's `operator<<(ostream&)`.
- File reading, the menu, `setup` and `main` in src/main.cpp: file I/O and interaction.
- The list's `operator==`, `operator!=` and `operator=`: they are declared in include/LinkedList.hpp but never defined.
- `getHead`/`getTail`/`setHead`/`setTail` as a public API. The model reads `head` and `next` directly where the source walks through the getters. The setters could break the chain invariant.
- Playlist's template `operator=`: it copies the list member by member, so two playlists share one chain.
- Memory management. `delete` and the destructors are modelled only as cells leaving the ghost footprint `Repr`; there is no allocator.
- The implicit copies made when C++ returns a `Playlist` or a `LinkedList` by value: each result is modelled as the one fresh object the function builds.
- LinkedLists.LinkedList.GetSize: the count is an unbounded `nat`, so the `size_t` wrap-around of the counter is not modelled.
- LinkedLists.LinkedList.SearchValue: it returns the cell holding the value; the source returns a pointer to that cell's value.
- LinkedLists.LinkedList.AddList: requires the two lists to be distinct. `addList` of a list with itself keeps appending to the chain it walks and never ends.
- LinkedLists.LinkedList.RemoveList: requires the two lists to be distinct. The source frees the cell its own walk is standing on.
- Playlists.Playlist.AddPlaylist: requires distinct playlists, for the same reason as `addList`.
- Playlists.Playlist.RemovePlaylist: requires distinct playlists, for the same reason as `removeList`.
- Playlists.Playlist.PopLast: requires a non-empty playlist. The source dereferences the head of an empty chain, which is undefined behaviour, and the model does not give that case a result.
- `LinkedList<T>` compares values with Dafny's built-in equality. The source calls `T::operator==`, so a `LinkedList<Playlist>`, as the menu keeps, would match playlists by name only. The core stores only songs, whose equality is taken to be structural, as said above.
- `Node.value` is a constant of the cell here. No core operation rewrites a stored value in place.
- Playlists.Playlist.Plus: the first walk, over the receiver, goes through `AddPlaylist(this)`, as in `PlusSong`. The second walk is the separate method `AddNovelSongs`, and each of its steps does the same search-then-append on the accumulating playlist.
- Playlists.Playlist.Minus: its walk is the separate method `AddDifference`, run on the new playlist. Each step is `AddUnlessIn`, the same search of `b` followed by an append.
- Playlists.Playlist.PlusSong: it reuses `AddPlaylist` for the walk over the receiver. The source writes that walk inline, and the effect is the same.
- Parsing.ParsePlaylist: its read loop is the separate method `ReadSongs`, run on the new playlist once the name is read.
- Playlists.Playlist.AddDifference: requires the playlist it fills to be empty. It stands for the loop of `- Playlist`, which the source runs only on the playlist it has just created.
- Parsing.ReadSongs: requires the playlist it fills to be empty, for the same reason: `parsePlaylist` reads songs only into the playlist it has just created.
- Parsing.ParsePlaylist: the stream is modelled as the unread rest of the line. `getline` fails exactly when that rest is empty. Stream flags, locales and wide characters are not modelled.
