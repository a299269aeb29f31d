# Prefix search: a verified model

The repository answers prefix queries over Chinese text. An indexer expands every line into its
letter forms, sorts them, and packs them into a static double-array trie; a server maps the index
file and answers framed binary requests on many connections, handed to worker threads over wakeup
pipes. This project models the parts on which the answers depend and proves them correct.

**The trie** (`indexer/dastrie.h`, of which `server/dastrie.h` is a copy). `Builders.Builder` has the
source's fields and loops: a first-fit search over a doubly linked list of vacant cells, marking of
BASE values, reservation of the children's cells, and the depth-first recursion. CHECK holds a
character code and not the parent, so the array is correct only because BASE values are pairwise
distinct and nested calls leave cells in use alone; `BuildState` makes that an invariant over values
(`Coherent`, `Grows`, `Subtree`) and `Builder.Arrange` keeps it. `Tries.Trie` is the reader: exact
lookup, the prefix cursor, and `getChildren`, each specified by the plain sorted list of records that
the arrays hold. `Space` bounds what a list of records can take up. `Image` has the file format in
both directions, `Layouts` the bytes at their offsets, and `Index` puts everything together: what is
built, written and read back answers like the list.

**The connection machine** (`server/server.cpp`, `server/network.cpp`, `server/conn.cpp`). The
stream of a client is split into frames by a definition that knows nothing of buffers (`Frames`).
`Conns.Conn` has the pointers and counters of `struct conn`; `Sockets.Socket` decides arbitrarily how
much each read and each send moves and when they block or fail. The invariant `Conn.Valid` ties the
two together in every state, `DriveMachine` keeps it and ends, and `Service` reads off what a client
receives. `Clients` says the same in bytes, from the client's side. The ghost fields of the socket
record whether a call has failed or blocked, so that the contracts say why a connection was closed
and why an event ended.

**Letters** (`indexer/indexer.cpp`, `server/prefixmatch.cpp`): the Cartesian product computed in
place, and why a query's letter forms are prefixes of the stored ones. `Utf8` is the encoding as
section 3 of RFC 3629 has it, by which the walk over a text is judged.

**The hand-off** (`server/thread.cpp`): the linked queue and free list as classes (`Queues`), and
the protocol between the dispatcher and the workers as steps interleaved in any order (`Handoff`).

Each loop of the source is a `method` with the source's branches; its contract names a property or
a specification function, and the lemmas are about those functions. Where a function of the source
is long, the model cuts it into methods that call each other.

Results worth knowing before reading the code:

- Within a size that can be computed from the records, a build succeeds exactly on strictly ascending
  lists (`RoomyOutcome`), and lookup and listing through the file are right without further
  conditions (`Indexable`); outside it, too, each failure is a fact about the records (`BuildOutcome`).
- `getChildren(q)` starts from the records below `q` unless the walk along `q` stops inside the tail
  of a leaf; then it starts from the whole index, and reports every key, if there are several, with
  `q` in front of it (`MismatchExample`: the query "ab" over the keys "abc" and "b" reports "ababc" and "abb").
- Wherever it starts, it leaves out just those records whose key runs through an arc of byte 255
  (`ListsPairs`, `Byte255Example`). `ListsExactly` puts both together: when the records listed are
  just those below the query. Over keys without byte 255 the tail mismatch decides (`PlainExactly`).
- The indexer runs `convert_to_letters` on the name together with a tab and the rank, and the tab is
  a single byte; so first-letter forms, which are meant for lines of wide characters only, are never
  stored (`TabKeepsInitialsOut`).
- The letter forms of a query are prefixes of stored forms of a line that starts with it, exactly
  unless the query is ASCII, the line is not, and no choice of the line's readings begins with the
  query (`FormsAgreeExactly`; `Spells` is how to check that beforehand). `AsciiQueryExample` is a
  line of the indexer's input and a query that misses it.
- A client whose socket does not fail receives all its replies: the number of events that takes is
  at most the number of times the socket stalled plus a bound on its stream (`Serve`). That needs at
  least one request per event; with `reqs_per_event` 0 no new connection is ever answered.
- Request bodies up to 2^30 - 8 bytes keep every buffer size an `int`, and no larger ones do (`GrownSize`).

## Model

| member | source | states |
|---|---|---|
| `Bytes.LexLessTrichotomy` | indexer/dastrie.h:1695-1720 | of two different byte strings exactly one precedes the other in the order the builder demands |
| `Bytes.LexLessTransitive` | indexer/dastrie.h:1695-1720 | the order is transitive |
| `Bytes.LexLessByByte` | indexer/dastrie.h:1714-1717 | two keys with a common prefix are ordered by the values of the bytes behind it, the end of a key counting as 0 |
| `Records.SortedExactly` | indexer/dastrie.h:1714-1717 | a list is acceptable exactly when no key follows a greater one and none is repeated: the two errors cover all bad inputs |
| `Cells.Traits.SetBaseActs` | indexer/dastrie.h:123-138 | in either element layout, writing a BASE within range, negative or not, changes BASE alone |
| `Cells.Traits.SetCheckActs` | indexer/dastrie.h:198-213 | writing CHECK changes CHECK alone |
| `Cells.Traits.GetPack` | indexer/dastrie.h:123-144 | every cell within range survives packing into four or five bytes |
| `Cells.Traits.MaxBaseExact` | indexer/dastrie.h:111-114 | a BASE of 0 or more is within the limit exactly when some element of that layout can hold it |
| `Vacancy.WalkVisitsVacant` | indexer/dastrie.h:1881-1884 | following `next` visits exactly the vacant indices above the start, in ascending order |
| `Vacancy.LastVacant` | indexer/dastrie.h:1900-1912 | `elink[0].prev` names the largest vacant index, which links out of the array |
| `Builders.Builder.VlistExpand` | indexer/dastrie.h:1886-1902 | the list stays intact and gains exactly the new indices |
| `Builders.Builder.VlistUse` | indexer/dastrie.h:1904-1916 | the list stays intact and loses exactly the used index; using the last one opens another behind it |
| `Builders.Builder.FindBase` | indexer/dastrie.h:1728-1771 | the search through the list ends and finds what naive first fit finds: the least BASE from 1 on that is not marked and whose children's cells are all free; the array grows no further than these cells |
| `Children.CollectChildren` | indexer/dastrie.h:1685-1720 | the records are cut into runs by their byte, ascending, or else some byte is below the one before it; both directions |
| `Children.PartitionGroup` | indexer/dastrie.h:1695-1720 | each run is exactly the sublist of records with that byte |
| `Children.DescentOutOfOrder` | indexer/dastrie.h:1714-1717 | a descent at some depth proves two keys out of order |
| `Children.NulRunDuplicates` | indexer/dastrie.h:1810-1813 | two records below a NUL arc have equal keys |
| `Children.RunsSorted` | indexer/dastrie.h:1798-1818 | sorted runs make a sorted list, so checking along the recursion is enough |
| `CharTable.BuildTable` | indexer/dastrie.h:1930-1964 | the table is injective, and a byte that occurs more often in all the keys with their NULs has the smaller code |
| `CharTable.FrequencyIs` | indexer/dastrie.h:1930-1945 | counting byte by byte and key by key gives the multiplicity of a byte in all keys put together |
| `BuildState.ReserveKeeps` | indexer/dastrie.h:1790-1795 | reserving a free cell under a marked BASE keeps the global invariant |
| `BuildState.SubtreeFrame` | indexer/dastrie.h:1786-1806 | a complete subtree stays complete under any change that keeps the cells owned by its BASEs |
| `BuildState.BegunStep` | indexer/dastrie.h:1798-1818 | a nested call and the storing of its result keep BASEs distinct, cells owned once, and cells in use untouched |
| `BuildState.BetweenDone` | indexer/dastrie.h:1798-1821 | when every child is complete, so is the node, and its records are sorted |
| `BuildState.SubtreeIsTrie` | server/dastrie.h:1140-1164 | in a finished array an absent arc leads outside, to a foreign CHECK, or to a vacant cell, never to another node's child |
| `BuildState.RootBuilt` | indexer/dastrie.h:1583-1588 | storing the root's BASE finishes the array |
| `BuildState.ExactlyOneParent` | server/dastrie.h:1140-1164 | every used cell but the root has exactly one node that reaches it by BASE + CHECK + 1 |
| `BuildState.NodesAreBases` | indexer/dastrie.h:1784-1820 | the cells of the finished array that hold a BASE correspond one to one to the BASEs newly marked, and so are as many |
| `BuildState.UsedCellsConserved` | indexer/dastrie.h:1824-1834 | in the finished array the cells with a BASE are as many as the nodes counted, those with a tail offset as many as the leaves counted, and there are no other used cells |
| `Space.BoundsStep` | indexer/dastrie.h:1798-1818 | what the runs of a node take up adds up to what its records take up |
| `Space.NodesBelow` | indexer/dastrie.h:1802-1816 | below an arc there are no more inner nodes than key bytes left, as each takes up one |
| `Builders.Builder.TakeCell` | indexer/dastrie.h:1790-1795 | one free cell gets the tentative BASE and leaves the vacancy list |
| `Builders.Builder.Reserve` | indexer/dastrie.h:1786-1795 | exactly the children's cells are taken and nothing else changes |
| `Builders.FitsBehind` | indexer/dastrie.h:1743-1771 | every unmarked BASE behind the array fits, so first fit never goes further |
| `Builders.Builder.BeginNode` | indexer/dastrie.h:1682-1795 | up to the recursion: a node is begun with all children reserved at the first BASE that fits, or the list is out of order, or no BASE fits below the limit in the array as it was, which it is exactly in that case |
| `Builders.Builder.ArrangeLeaf` | indexer/dastrie.h:1663-1680 | a single record becomes a leaf that holds the rest of its key and its value; refused exactly when the tail is longer than the largest BASE |
| `Builders.Builder.ArrangeRun` | indexer/dastrie.h:1802-1816 | the nested call for one run; duplicates are refused and only duplicates |
| `Builders.Builder.ArrangeChild` | indexer/dastrie.h:1798-1818 | one more child complete, everything older unchanged |
| `Builders.Builder.Arrange` | indexer/dastrie.h:1653-1822 | ends; on success the records below `p` hang from fresh BASEs, cells in use are unchanged, the records are sorted and counted; on every outcome tail and array have grown by no more than the records allow |
| `Builders.Builder.Build` | indexer/dastrie.h:1575-1592 | success means a finished array for exactly these records, sorted, with the right statistics, and array and tail no larger than computed from the records; failure means that the records are out of order, have a duplicate, or exceed a size computed from them; under that size it succeeds exactly on sorted lists |
| `Builders.RoomyOutcome` | indexer/dastrie.h:1667-1776 | under the size, success is sortedness, and each of the two other errors names its defect |
| `Builders.Builder.WriteValue` | indexer/indexer.cpp:109-118 | the loop appends a value: the digits of its count, the lowest in front, and for each item the name, a NUL and the rank |
| `Records.StoredForm` | indexer/indexer.cpp:109-118 | bytes are the stored form of a value exactly when they read like that |
| `Builders.Builder.Write` | indexer/dastrie.h:1972-1996 | what is appended is the file of the arrays; under 4 GB it has, byte by byte: "SDAT", its size, 16 and the record count in little-endian digits, "TBLU" with the table, "SDA4" or "SDA5" with the packed elements, "TAIL" with the tail |
| `Layouts.FileIs` | indexer/dastrie.h:1972-2013 | these bytes at these offsets are exactly the written files under 4 GB |
| `Image.UnpackPacked` | server/dastrie.h:1319-1324 | unpacking the packed elements gives the array back |
| `Image.ChunksParse` | server/dastrie.h:1299-1333 | the chunk loop on the three written chunks sets all three arrays to what was written |
| `Image.FileParses` | server/dastrie.h:1268-1342 | reading a written file under 4 GB takes all of it and gives back count, table, array and tail |
| `Layouts.ChunkSets` | server/dastrie.h:1291-1333 | a chunk with one of these four ids and of the size its digits say sets the table, the elements, cell by cell, or the tail; any other id sets nothing |
| `Tails.StrLenOf` | server/dastrie.h:577-580 | the C string length at a stored string is its length |
| `Tails.SameString` | server/dastrie.h:589-600 | one place holds one C string |
| `Tails.ITail.MatchString` | server/dastrie.h:589-600 | true exactly when the string with its NUL stands at the read position, inside the array |
| `Tails.ITail.MatchStringPartial` | server/dastrie.h:609-624 | true exactly when the stored string is a prefix of the argument |
| `Tails.ITail.ReadValue` | indexer/indexer.cpp:93-107 | reads back the stored value and moves just past it |
| `Prefixes.DescendReaches` | server/dastrie.h:1140-1164 | descending from a node reaches the true child of the byte, or fails or lands in a vacant cell exactly when there is none |
| `Prefixes.GroupRemaining` | server/dastrie.h:1110-1117 | one step of the walk is one more byte of prefix, the final NUL asking for the whole key |
| `Tries.Trie.StepAt` | server/dastrie.h:1110-1117 | the walk keeps standing on the node of the records that start with what was read |
| `Tries.Trie.Locate` | server/dastrie.h:1085-1138 | nonzero exactly when the key is stored, and then the offset of its value |
| `Tries.Trie.Find` | server/dastrie.h:871-884 | lookup refines the map: found exactly when stored, with that record's value |
| `Tries.Trie.LookAhead` | server/dastrie.h:1200-1221 | finds exactly the key that ends at the node; neither exception can be thrown |
| `Tries.Trie.MatchLeaf` | server/dastrie.h:1226-1246 | at a leaf, its key is reported exactly when it is a prefix of the query |
| `Tries.Trie.NextPrefix` | server/dastrie.h:1166-1247 | one step reports the shortest stored key ahead that is a prefix of the query, with its value, and fails exactly when there is none |
| `Tries.Trie.LocateEx` | server/dastrie.h:951-1004 | the cell of the records below the query, the root after a tail mismatch, or none exactly when the walk falls off |
| `Tries.Trie.GetChildrenRecursive` | server/dastrie.h:1006-1049 | appends the first `n` pairs of the ordered listing and counts them off; the key string is restored while there is room |
| `Tries.Trie.ListOneArc` | server/dastrie.h:1016-1048 | one turn of the loop lists what hangs below one arc |
| `Tries.Trie.GetChildren` | server/dastrie.h:915-948 | appends exactly the first `n` pairs of that answer; false exactly when pairs are asked for and the cells along the query come to a dead end; then there is nothing to list and nothing was appended |
| `Tries.Trie.WalkFails` | server/dastrie.h:951-985 | the walk ends nowhere exactly when there are cells from the root on, each the child of the one before over the next byte of the query, of which the last is no leaf and has no child over the byte that follows |
| `Tries.ListedIs` | server/dastrie.h:915-1049 | the recursion over the arcs produces exactly the answer that the sorted list determines |
| `Tries.AnswerValues` | server/dastrie.h:915-1049 | its values are those of the records listed, in dictionary order, as many as the limit allows |
| `Tries.KeyReported` | server/dastrie.h:931-1034 | a record is reported under its own key if and only if it is the only one and its key is the query, or there are others, the walk stays on the track, and no other key goes on where this one ends |
| `Tries.ListsExactly` | server/dastrie.h:915-1049 | the records listed are just those below the query if and only if: on the track, byte 255 labels no arc on the way from the query to one of them; after a tail mismatch, it does so for just the keys that do not start with the query |
| `Tries.PlainExactly` | server/dastrie.h:995-1003 | over keys without byte 255 this is: no tail mismatch, or every key starts with the query |
| `Tries.MismatchExample` | server/dastrie.h:1000-1003 | an index and a query for which all records are listed, and the keys that are reported |
| `Tries.Byte255Example` | server/dastrie.h:1016 | an index and a query on the track for which a record below the query is missing |
| `Tries.HiddenMismatchExample` | server/dastrie.h:1000-1016 | an index and a query with a tail mismatch for which the list is right all the same |
| `Listing.ListsPairs` | server/dastrie.h:1016-1048 | the recursion over arcs 0 to 254 yields, in order, exactly one pair for every record whose key runs through no arc of byte 255: its value, and the rest of its key with a NUL behind it when the key ends at an inner node |
| `Tries.Trie.Assign` | server/dastrie.h:1268-1342 | a block with these bytes sets table, array, tail and count, and its size is returned; behind a right header the fields become what the chunks say; a block without "SDAT" in front or with another header size than 16 is refused and changes nothing |
| `Index.Open` | server/dastrie.h:1268-1342 | a reader opened on a written file has the written arrays and has used the whole file |
| `Index.FileBounded` | indexer/dastrie.h:1972-1996 | the file is no larger than a number computed from the records |
| `Index.RoomyIndexable` | indexer/dastrie.h:88-113 | with elements of four bytes, records that cannot run out of space make a file under 4 GB |
| `Index.SmallIndexable` | indexer/dastrie.h:1667-1774 | an elementary bound under which the space of records is enough: how many there are, and how long their keys, values and names |
| `Index.BuildAndOpen` | indexer/indexer.cpp:298-302 | build, write, read: the file is the written form of an array that holds these records, and under 4 GB the reader opened on it is a valid reader of exactly them; for records under a size computed from them it succeeds exactly when they are sorted, with a file under 4 GB |
| `Index.BuildThenFind` | server/dastrie.h:871-884 | for sorted records under that size, lookup through the file equals lookup in the list; for others too, whenever the build succeeds with a file under 4 GB |
| `Index.BuildThenList` | server/dastrie.h:915-948 | for sorted records under that size, listing through the file gives exactly the first `n` pairs of the answer that the list determines, keys included; for others on the same terms as lookup |
| `ScatterGather.MessagesPartition` | server/server.cpp:62-195 | message after message, the slices partition the array and concatenate to what was added |
| `ScatterGather.AppendBuilds` | server/server.cpp:181-187 | one more slice keeps the limits per message and appends its bytes |
| `ScatterGather.RepointBuilds` | server/server.cpp:121-127 | after a reallocation every message points at the same slices in the new array |
| `ScatterGather.AdvanceSends` | server/server.cpp:599-612 | a partial send of any size leaves exactly the bytes not sent yet |
| `ScatterGather.NextSends` | server/server.cpp:583-588 | skipping a finished message loses nothing |
| `Conns.Conn.EnsureIovSpace` | server/server.cpp:105-130 | there is room for a slice, and the pending bytes are the same |
| `Conns.Conn.AddIov` | server/server.cpp:139-195 | the pending bytes grow by exactly the buffer; no message exceeds 1024 slices, the first no 1400 bytes |
| `Conns.Conn.Consume` | server/server.cpp:597-612 | what is pending loses exactly its first `k` bytes |
| `Conns.Conn.Transmit` | server/server.cpp:579-641 | sent plus pending stays the same; complete means nothing is pending; soft errors mean blocked, hard ones failed |
| `Frames.SplitSnoc` | server/server.cpp:503-568 | a frame taken off what is left is the next frame of the stream |
| `Frames.SplitMeans` | server/server.cpp:503-568 | bodies taken off a part of the stream are the first frames of the whole stream |
| `Frames.FramesMonotone` | server/network.cpp:26-96 | bytes that arrive later never change the frames before them |
| `Frames.BadMagicEnds` | server/server.cpp:520-529 | behind a header with another magic byte there is no frame |
| `Clients.RequestsFramed` | server/server.cpp:503-568 | a stream of requests as a client writes them (the byte 0x80, three bytes, four length bytes with the highest in front, the body) is framed into exactly their bodies |
| `Conns.Conn.TryReadNetwork` | server/network.cpp:26-96 | buffered bytes stay and new ones follow; the buffer grows to 16 times its size at most; each result has its cause |
| `Conns.Conn.Shrink` | server/conn.cpp:249-293 | nothing buffered is lost; a buffer above 8192 is cut to 2048 when less than that is buffered, the messages to 10 above 100 and the slices to 400 above 600 |
| `Conns.Conn.BinReadKey` | server/server.cpp:437-492 | header and body will fit behind `rcurr`, and nothing buffered is lost |
| `Conns.Conn.TryReadCommand` | server/server.cpp:503-568 | waits exactly for a whole header; closes exactly on another magic byte; else begins the body |
| `Conns.Conn.ReadBody` | server/server.cpp:787-812 | a read into the body keeps the stream split into requests handed on, header, part of the body |
| `Replies.KeyRead` | server/server.cpp:366-370 | a key free of NUL is read as it is, up to the end of the body or the first NUL |
| `Replies.BodyRead` | server/server.cpp:366-370 | a body gives the number of its first four digits, the lowest in front, and the key behind them |
| `Conns.Conn.CompleteNread` | server/server.cpp:351-418 | the body is handed on as the next request, and exactly its reply is pending |
| `Conns.BuildReply` | server/server.cpp:381-414 | the reply body: the count asked for, ten by default, at most what there is, then all results |
| `Clients.ReplyTo` | server/server.cpp:351-418 | the bytes of the reply to a number and a key: for a success 0x81, status 0, padding, length, the count that is the smaller of the number, or ten for 0, and what there is, and all results; otherwise the text of the error |
| `Clients.ReplyUpToNul` | server/server.cpp:366-370 | what follows a NUL in a body changes nothing in the reply |
| `Clients.ResultsEncoded` | server/server.cpp:390-414 | the results stand one after the other, each behind its length with the lowest byte in front |
| `Conns.Conn.StepNRead` | server/server.cpp:777-843 | progress or a stop because the socket blocked; one request more when complete |
| `Conns.Conn.StepMWrite` | server/server.cpp:918-956 | the reply is sent in full before the next request; closed only when the socket failed, stopped only when it blocked |
| `Conns.Conn.StepNewCmd` | server/server.cpp:746-775 | one request off the quota; stops exactly when it is used up |
| `Conns.Conn.DriveMachine` | server/server.cpp:643-980 | ends; keeps the invariant; completes at most the quota plus one request; gives way to others only after the quota; unless the socket fails or stalls, bytes are taken or requests handled or the connection turns to reading, or else the client has all its replies; with a quota of 0 a new connection gets nowhere |
| `Conns.Conn.ValidMeans` | server/server.cpp:643-980 | requests handed on are the first frames of the stream, the client has a prefix of their replies; when waiting for a header or for the rest of a body, and when closed without a socket failure, all of both |
| `Replies.DecodeEncoded` | server/client.c:108-124 | the client's loop takes the first `n` results back out |
| `Replies.ClientSees` | server/client.c:92-124 | asked for with the digits of `n` and a key that has results, the client decodes all of them if there are at most `n`, or ten for 0, and otherwise the first that many |
| `Service.ReceivedPrefix` | server/server.cpp:643-980 | in any reachable state the client has received a prefix of the replies to its requests, one each and in order |
| `Service.Serve` | server/server.cpp:643-980 | over any number of events with any chunking the client has a prefix of its replies; it has all of them after more events than stalls plus twice the bytes and frames of its stream plus one, if the socket does not fail and an event may handle a request |
| `Clients.ServeRequests` | server/server.cpp:643-980 | a client that sends such a stream of requests receives a prefix of the replies to their bodies, and all of them after enough events |
| `Service.BufferBounds` | server/server.cpp:437-492 | no pointer passes the buffer's end; during a body `ritem` equals `rcurr` |
| `Conns.GrownSize` | server/server.cpp:446-452 | the loop doubles no further than needed, and its result is an `int` exactly for bodies up to 2^30 - 8 |
| `Service.MaxBodyExact` | server/server.cpp:446-452 | for no larger body is there any doubled size that would do |
| `Product.NumberOfDigits` | indexer/indexer.cpp:173-179 | index arithmetic: digits to number and back |
| `Product.DigitsOfNumber` | indexer/indexer.cpp:173-179 | every choice of readings has its own index below the count |
| `Product.NumberFront` | indexer/indexer.cpp:173-179 | the first list is the least significant: the number is the first digit plus the size of the first list times the number of the rest |
| `Product.ExtendAll` | indexer/indexer.cpp:163-179 | copying in place and appending gives every entry with every reading of one more list |
| `Product.GetAllResults` | server/prefixmatch.cpp:136-166 | entry `k` spells the choice whose mixed-radix number is `k`, the first list least significant |
| `Product.ProductComplete` | indexer/indexer.cpp:151-181 | a text is in the result exactly when some choice spells it |
| `Pinyin.QueryLetters` | server/prefixmatch.cpp:183-208 | the letter forms of a query: in UTF-8, the text itself if all its code points are below 128, and else exactly the choices among the readings that the table has for its code points |
| `Pinyin.IndexLetters` | indexer/indexer.cpp:198-242 | the letter forms of a line in the same terms, with the choices among first letters added when no code point is below 128 |
| `Pinyin.CharsOfText` | server/util.cpp:148-176 | cutting UTF-8 text, as RFC 3629 has it, at the lengths that the lead bytes announce gives exactly the encodings of its code points |
| `Pinyin.AsciiText` | server/prefixmatch.cpp:168-181 | no byte of the text is 128 or more exactly when no code point is |
| `Pinyin.TabKeepsInitialsOut` | indexer/indexer.cpp:263-275 | for a name that is not ASCII with a tab and a rank, only full expansions are stored |
| `Pinyin.PickExtends` | indexer/indexer.cpp:173-179 | a choice for the first lists extends to one for all, and its spelling is a prefix |
| `Pinyin.FormsAgree` | server/prefixmatch.cpp:183-208 | for a query that is not ASCII, or with a line that is ASCII too, every letter form of the query is a prefix of a stored form of a line that starts with it |
| `Product.SpellsPick` | indexer/indexer.cpp:151-181 | when readings taken one after the other can begin with a text, some choice spells a text that begins with it |
| `Product.PickSpells` | indexer/indexer.cpp:151-181 | and only then |
| `Pinyin.AsciiOnWide` | indexer/indexer.cpp:206-242 | an ASCII query is a prefix of a stored form of a line that is not ASCII if and only if the line's readings can begin with it |
| `Pinyin.FormsAgreeExactly` | server/prefixmatch.cpp:183-208 | for every query and every line that starts with it: all letter forms of the query are prefixes of stored forms if and only if the query is not ASCII, or the line is ASCII, or its readings can begin with the query |
| `Pinyin.AsciiQueryExample` | indexer/indexer.cpp:206-283 | a line with a name, a tab and a rank, and an ASCII query that it starts with and that misses it |
| `Search.QueryReachesLine` | server/prefixmatch.cpp:270-281 | on that condition each lookup of the query reaches a record of the line; if byte 255 does not hide it, which it does not in keys without that byte, its value is in the answer as soon as the limit reaches its place among the records listed |
| `Queues.ConnQueue.Push` | server/thread.cpp:129-145 | the linked queue gains the item at the end |
| `Queues.ConnQueue.Pop` | server/thread.cpp:107-124 | the linked queue gives its first item, or none when empty |
| `Queues.FreeList.AddBatch` | server/thread.cpp:182-185 | a new batch but for its first item goes in front of whatever the list holds by then |
| `Queues.FreeList.New` | server/thread.cpp:150-189 | an item that is no longer on the list, from a batch of 64 when the list was empty |
| `Queues.FreeList.Free` | server/thread.cpp:194-200 | the item is the first of the list again |
| `Handoff.OnePlaceStep` | server/thread.cpp:150-200 | after any step of any thread every item is in exactly one place: free list, dispatcher, queue or worker |
| `Handoff.AwaitedStep` | server/thread.cpp:285-324 | queue length = bytes in the pipe + pushes not signalled + wakeups not popped, kept by every step |
| `Handoff.DeliveredStep` | server/thread.cpp:334-358 | what was dispatched to a worker is what it opened and then what is on its way, in order |
| `Handoff.RunInv` | server/thread.cpp:285-358 | all of this over every interleaving |
| `Handoff.WakeupFindsItem` | server/thread.cpp:302-304 | a worker that was woken never finds its queue empty |
| `Handoff.ServedInOrder` | server/thread.cpp:334-358 | a worker opens the connections of its turn, each at most once, in order |
| `Handoff.QuietWorkerServedAll` | server/thread.cpp:334-358 | a worker with no wakeup left has opened every connection of its turn |
| `Handoff.NextEnabled` | server/thread.cpp:285-358 | in every reachable state the next step of the dispatcher and of every busy worker is possible: nothing they take for granted can be missing |
| `Handoff.RunBounded` | server/thread.cpp:285-358 | a run in which nothing is accepted is no longer than a number computed from its first state |
| `Handoff.ReachesQuiet` | server/thread.cpp:285-358 | from every reachable state the threads can go on until all is quiet |
| `Handoff.RestingIsQuiet` | server/thread.cpp:285-358 | where no thread can go on, none has anything left to do |
| `Handoff.EveryNthAt` | server/thread.cpp:334-358 | entry `k` of a worker's turn is connection number `w + k * n`, and it exists exactly when that many were accepted |
| `Handoff.AllServed` | server/thread.cpp:285-358 | then every accepted connection has been opened exactly once: entry `k` of what worker `w` of `n` has opened is connection number `w + k * n` |

## Left out

Not modelled:

- Sockets, libevent, mmap, files, signals, HTTP, configuration and logging: foreign calls. `read`, `sendmsg` and `update_event` are kept as arbitrary outcomes.
- Allocation failures, UDP, and the states `conn_swallow`, `conn_write` and `conn_listening`.
- `Reload_index`, `filter_result`, and the trimming, splitting and number parsing helpers: the lookup of a connection is a fixed function from key to results.
- Floating point: a stored rank is four bytes that are not interpreted.
- The progress callback, the trial counts and the ratios among the statistics.
- Addresses: the double array, the tail, the link array and the read buffer are sequences in fields; a slice holds its bytes and not a pointer to them; a message names its slices by the number of the array and an index.
- A second `next` after a cursor has reported a leaf, and the copy constructor of the cursor.
- A machine that is not little-endian, on which the index file would look different.
- Locks: each critical section, pipe read and pipe write is one atomic step; pipe operations succeed.

Preconditions and deliberate limits:

- `Builders.Builder.Build`: keys are free of NUL and there is at least one record; the indexer's call passes its last record as the end pointer (indexer/indexer.cpp:299), and the theorems are about the half-open range that the builder receives. The size under which space cannot run out is a bound and not the exact limit: 257 cells for every byte of every key.
- `CharTable.SortByFrequency`: bytes of equal frequency come in one of the orders that `std::sort` may choose; the contract allows any.
- `Tries.Trie.Assign`: behind a right header, chunks are taken to follow each other inside the block; the source does not check this.
- `Tries.Trie.NextPrefix`: per call, for a cursor that stands on a node, or on the root when that is a leaf.
- `Tails.ITail.ReadValue`: names are free of NUL and there are fewer than 2^32 of them.
- `Conns.Conn.Valid`: headers in the stream announce bodies of 4 to 2^30 - 8 bytes; smaller ones make `complete_nread` read outside the body, larger ones overflow the buffer size.
- `Conns.Conn.CompleteNread`: the key ends at the first NUL of the body, as the source's string constructor has it. The length of a reply body is an `int` in the source (server/server.cpp:387) and overflows from 2^31 on; the model has no such limit, and what it says of replies of that size is not what the source does.
- `Conns.Conn.WriteBinError`: the status byte is a parameter; the source squeezes a byte-swapped 16-bit value into 8 bits.
- `Replies.ClientSees`: the client's fixed buffer of 8096 bytes per result is not modelled.
- `Pinyin.QueryLetters`: the text is whole characters, as every UTF-8 text without NUL is; `getUTF8Len` returns 0 for other bytes and the source's loop would not end.
