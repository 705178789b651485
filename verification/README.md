# Verification of the S3D modeller's store, wire format, scene compiler and calendars

S3D is a modeller for implicit surfaces whose documents are replicated between clients. This project models four parts
of it in Dafny and proves what they promise.

**The timestamped store and its replication.** Every write deletes rows by one of three rules and adds one row, live or
a tombstone; reads take the greatest timestamp of a key, and live rows win ties. `LastWriterWins` treats a table as the
replay of a log of operations and compares it with the whole log; `Database` is the store as a class of six tables;
`Replication` is the traffic between a document, its store and the network; `Convergence` is a state machine of any
number of sites and a channel that reorders and repeats messages.

- In order on each key, a collected table answers as the whole log does. Out of order it may not: `EdgeAnswerWrongWhen`
  and `DocumentAnswerWrongWhen` give the exact condition, `LateConnectionComesBack` an example.
- The code is kept as it is where it is surprising: the collection of radii is never executed
  (src/db/DatabaseImpl.cpp:166), retracting a coordinate writes a live row (src/db/DatabaseImpl.cpp:157), a local
  disconnection is sent as an assertion (src/vm/ViewmodelImpl.cpp:247), and names are never sent
  (src/vm/ViewmodelImpl.cpp:224). `DisconnectionDivergesIff` and `NamesStayLocal` say what follows for replicas.
- Sites that have processed all messages agree on what exists. On an entity's type they need not, as `KindsMayDiffer`
  shows; `KindsAgreeIff` is the exact condition.

**Bit packing.** `BitWriter` and `BitReader` are the two wrappers with their scratch words, over a little-endian byte
sequence. Numbers are unbounded; the width of the scratch word, at least 16 bits and different from platform to
platform, is a parameter, and shifting beyond it is cut off explicitly. The writing loop keeps bits of the value above
the counted ones and writes them again on the next turn; `Leftover` is the invariant that makes this harmless.

**The scene graph and its surface.** `SceneGraph` is the mutable graph of shared node objects (a node with its address),
`Unfolding` counts what its forest contains, `Surface` is the compiler to minima and maxima, `UnionScenes` joins the two
and `Viewmodel` builds a graph from the store. As in src/mesh/MeshFactory.cpp:48 the magnitude of a sphere is subtracted
unsquared.

**Calendars and their texts.** `Gregorian` (against section 3.2.1 of ISO 8601:2004), `IsoWeek` (section 3.2.2 of ISO
8601:2004), `SolarHijri`, `Islamic` and `Julian` convert dates to day numbers and back; `SqliteText` is the text form of
dates and times in the database connector; `PosixZone`, `PosixZoneReader`, `PosixZonePrinter` and `PosixZoneForms` are
zone strings of section 8.3 of the POSIX.1-2017 Base Definitions. Truncating division and the narrowings to 8, 16 and
32 bits are written out in `Truncation`. The Solar Hijri conversions divide in floating point and drop the fraction,
which `FloatingDivision` shows to be integer division. Week dates accept the year -32768, whose predecessor wraps
round: `IsoWeek.FirstYearWeeks`, `IsoWeek.ToDaysInverts` and `IsoWeek.FromDaysInverts` say exactly what still holds
there. A parsed zone is compared with its rule times, which the source's own equality of rules ignores.

The functions of a module (`Replay`, `Compile`, `ParseZone`, `ToDays`, ...) are its specifications or, where the source
is made of expressions, the model itself; the methods follow the source's loops and assignments and are proved against
them. `dafny verify dfyconfig.toml` checks everything.

## Model

| member | source | states |
|---|---|---|
| LastWriterWins.WriteCollects | src/db/DatabaseImpl.cpp:37-43 | one write deletes exactly the older rows of its key and the older tombstones (for documents, all tombstones), keeps every other row as often as before and in the same order, and adds its own row last |
| LastWriterWins.Survivors | src/db/DatabaseImpl.cpp:37-43 | a collected table holds exactly the operations of its log that no later operation deletes, for each of the three deletion rules |
| LastWriterWins.LiveIsListed | src/db/DatabaseImpl.cpp:281-316 | whatever the order of delivery, a key with a live operation at its greatest timestamp is listed |
| LastWriterWins.OrderedTableIsLog | src/db/DatabaseImpl.cpp:37-43 | when the operations on each key arrive in nondecreasing time (keys interleaved anyhow), the live rows of a collected table are exactly the live operations at their key's greatest timestamp |
| LastWriterWins.OrderedAnswers | src/db/DatabaseImpl.cpp:28-43 | so for such logs the edge read, the document read and the attribute reads answer as on the whole uncollected log: a key is live iff some live operation stands at its greatest timestamp; one proof for all deletion rules |
| LastWriterWins.StandingIsLive | src/db/DatabaseImpl.cpp:126-150 | for every log, an entity is listed in a document iff some live operation on it was not followed by a newer operation on it |
| LastWriterWins.EdgeAnswerWrongWhen | src/db/DatabaseImpl.cpp:102-124 | for every log and order: no edge that the log makes live is ever lost, and the edge read disagrees with the log exactly for a late live operation all of whose newer tombstones had been collected |
| LastWriterWins.DocumentAnswerWrongWhen | src/db/DatabaseImpl.cpp:126-150 | the same for the document table, whose tombstones the next write drops: the read disagrees with the log exactly when a live operation stands that the log itself does not make live |
| LastWriterWins.LateConnectionComesBack | src/db/DatabaseImpl.cpp:102-124 | a concrete log on which the edge read is wrong: a tombstone collected by a write on another edge, then a late connection |
| LastWriterWins.LateCreationComesBack | src/db/DatabaseImpl.cpp:126-150 | a concrete log on which the document read is wrong: the late creation itself collects the newer tombstone |
| LastWriterWins.ListedValues | src/db/DatabaseImpl.cpp:126-150 | for every log, the values a collected table lists for a key are those of the live operations that no newer operation on it followed |
| LastWriterWins.ValuesOrderIrrelevantIff | src/db/DatabaseImpl.cpp:126-150 | without tombstones, every order and repetition of the same operations lists the same values for a key iff every value written for it is also written at its greatest time |
| LastWriterWins.InterferenceWhen | src/db/DatabaseImpl.cpp:102-124 | in every edge table, a write on one edge at time t changes whether another edge is listed iff that edge has a live row hidden by newer tombstones and all its rows are older than t; it can only come back, never go |
| LastWriterWins.OrderedWriteKeepsClean | src/db/DatabaseImpl.cpp:102-124 | "no live row strictly below a tombstone of its edge" is kept by every write that is not older than its own edge's rows |
| LastWriterWins.CleanMeansIsolated | src/db/DatabaseImpl.cpp:102-124 | in a table with that invariant no write changes the answer for another edge |
| LastWriterWins.OrderedTableIsClean | src/db/DatabaseImpl.cpp:102-124 | every table replayed from a per-edge ordered log has that invariant |
| LastWriterWins.StorageBound | src/db/DatabaseImpl.cpp:37-43 | over a whole run with strictly increasing timestamps, a collected table holds at most one row per key and at most one tombstone in all |
| LastWriterWins.DocumentTombstones | src/db/DatabaseImpl.cpp:132-138 | the document table never holds more than one tombstone, under any order of delivery |
| LastWriterWins.LiveLogAnswers | src/db/DatabaseImpl.cpp:28-35 | without tombstones the latest live rows of a table are those of its log, for every rule (none executed, or either that is) and every order |
| Database.DatabaseImpl.UpsertCoordI | src/db/DatabaseImpl.cpp:45-63 | one coordinate write: collection by the attribute rule, then one new row; every other table unchanged |
| Database.DatabaseImpl.UpsertSetOperationI | src/db/DatabaseImpl.cpp:65-82 | one type write: collection by the attribute rule, then one new row; every other table unchanged |
| Database.DatabaseImpl.UpsertNameI | src/db/DatabaseImpl.cpp:84-100 | one name write: collection by the attribute rule, then one new row; every other table unchanged |
| Database.DatabaseImpl.UpsertRadiusI | src/db/DatabaseImpl.cpp:160-177 | a radius write only adds its row: the collection statement is built and never executed |
| Database.DatabaseImpl.ConnectI | src/db/DatabaseImpl.cpp:102-124 | one edge write: older rows of the edge and all older tombstones go, then one new row; every other table unchanged |
| Database.DatabaseImpl.CreateI | src/db/DatabaseImpl.cpp:126-150 | one document write: older rows of the pair and every tombstone, of any age, go, then one new row; every other table unchanged |
| Database.DatabaseImpl.RetractCoord | src/db/DatabaseImpl.cpp:156-158 | retracting a coordinate writes a live row, so the entity has a coordinate afterwards |
| Database.DatabaseImpl.RetractRadius | src/db/DatabaseImpl.cpp:183-185 | a radius tombstone never changes which rows the radius read picks |
| Database.DatabaseImpl.Remove | src/db/DatabaseImpl.cpp:215-217 | removal is a tombstone of the pair, written with the sphere type |
| Database.DatabaseImpl.Edges | src/db/DatabaseImpl.cpp:281-316 | the targets returned, each once, are exactly those for which a live row stands at the edge's greatest timestamp: live wins ties |
| Database.DatabaseImpl.Entities | src/db/DatabaseImpl.cpp:257-279 | an entity and type occur in the result exactly as often as the document has live rows with them |
| Database.DatabaseImpl.SphereOf | src/db/DatabaseImpl.cpp:318-382 | a sphere is returned iff its entity is live in some document and has a live radius and a live coordinate; its radius is the largest of the latest live radii, its centre a farthest of the latest live coordinates |
| Database.DatabaseImpl.SetOpOf | src/db/DatabaseImpl.cpp:384-407 | a set operation is returned iff the entity has a live type row, with the type of some latest live row |
| Database.DatabaseImpl.Documents | src/db/DatabaseImpl.cpp:219-255 | each document with a live entity and a live name, once, with the least of its latest live names |
| Database.LatestLiveIsTop | src/db/DatabaseImpl.cpp:28-35 | the two-query read (greatest live timestamp, then the live rows at it) picks exactly the live rows that no live row of the key is newer than |
| Database.MaxTimeIsNewest | src/db/DatabaseImpl.cpp:285-288 | the grouped maximum is the greatest timestamp of any row of the edge, live or not |
| Database.NameLessIs | src/db/attribute_priority.cpp:22-27 | the order by which the preferred name is chosen is that of a dictionary: the first difference decides |
| Replication.Replica.DbCreate | src/vm/ViewmodelImpl.cpp:96-105 | creating a sphere writes its own document row, magnitude and centre, creating a set operation its document row and type, and nothing else; the sphere can then be read, and with exactly that magnitude and centre when the creation is newer than every live row of its identifier |
| Replication.Replica.DbConnect | src/vm/ViewmodelImpl.cpp:106-108 | a connection or disconnection writes its edge row and nothing else |
| Replication.Replica.DbUpsert | src/vm/ViewmodelImpl.cpp:109-116 | each of the four attributes is written to its own table with its own value, and nothing else is |
| Replication.Replica.Perform | src/vm/ViewmodelImpl.cpp:177-251 | a local action is applied to the database and its message sent: none for a name, and an assertion for a disconnection |
| Replication.Replica.Receive | src/wire/ClientImpl.cpp:25-55 | a received creation, connection, disconnection or update is applied to the database through the dispatch of the client, and nothing is sent on |
| Convergence.ActionsRebuild | src/vm/ViewmodelImpl.cpp:94-130 | whatever actions a site has made or received, its six tables are the replays of the logs of those actions under each table's own rule |
| Convergence.OrderedHistoryAnswers | src/vm/ViewmodelImpl.cpp:94-130 | for every history ordered on each key, the site's edges, document members and candidate coordinates, types and names are those of last-writer-wins over the whole history |
| Convergence.LocalKeepsInvariant | src/vm/ViewmodelImpl.cpp:177-226 | a local step keeps the invariant: tables are replays, and every action that could be sent is in the channel |
| Convergence.DeliverKeepsInvariant | src/wire/ClientImpl.cpp:25-46 | so does delivering any message, however late and however often |
| Convergence.RunKeepsInvariant | src/vm/ViewmodelImpl.cpp:177-226 | so the invariant holds after every run of creations, connections and attribute updates at any number of sites |
| Convergence.SettledSitesAgree | src/vm/ViewmodelImpl.cpp:132-165 | safety over whole runs with an unordered, duplicating channel: once every message has been processed everywhere, any two sites agree on edges, on document entities, on radii, on the coordinates' distance from the origin, on which spheres exist, and on the candidate types |
| Convergence.KindsListed | src/db/DatabaseImpl.cpp:126-150 | at any time in any run, the types a site lists for an entity are those of its creations that nothing newer on it has followed there |
| Convergence.KindsAgree | src/vm/ViewmodelImpl.cpp:134-140 | settled sites list the same types for an entity that was given all its types at its latest creation |
| Convergence.KindsAgreeIff | src/vm/ViewmodelImpl.cpp:134-140 | the exact condition: from a settled state no redelivery of messages can make two sites list an entity with different types iff every type it was created with was also given to it at its latest time |
| Convergence.KindsMayDiffer | src/db/DatabaseImpl.cpp:257-279 | a run of two sites that settles with an entity listed as a sphere at one and not at the other |
| Convergence.RunIsSound | src/vm/ViewmodelImpl.cpp:94-130 | after every run, disconnections included, each site's tables are the replays of what it has applied, and no message carries a name |
| Convergence.NamesStayLocal | src/vm/ViewmodelImpl.cpp:224 | after every run, disconnections included, a site's name table is the replay of the names it set itself: names of other sites never arrive |
| Convergence.DisconnectionDivergesIff | src/vm/ViewmodelImpl.cpp:243-250 | for all tables: after a disconnection the sender lists the edge iff it was listed with a row not older; the receiver of its message lists it iff nothing was newer or it was listed; the two differ exactly when these differ |
| Convergence.DisconnectionDiverges | src/vm/ViewmodelImpl.cpp:243-250 | a run of two sites after which a disconnection has unlisted the edge at its sender and listed it at its receiver |
| Words.WordArithmetic | thirdparty/bitsery/serializer.h:120-139 | shifting and masking words is multiplication, quotient and remainder by powers of two |
| Words.LittleEndianBits | thirdparty/bitsery/details/adapter_common.h:240-251 | the bytes the adapter writes for a value, read least significant bit first, are the value's bits |
| Words.ByteBitsInjective | thirdparty/bitsery/serializer.h:120-139 | a byte string is determined by its bits |
| Words.NumberOfBits | thirdparty/bitsery/deserializer.h:130-151 | a value is recovered from its bits |
| Words.NumberOfFields | thirdparty/bitsery/serializer.h:126-128 | a field that follows another takes the next higher bits: the wire is read least significant bit first |
| BitWriter.FilledBits | thirdparty/bitsery/serializer.h:127 | OR-ing unmasked high bits, some of which are in the scratch word already, gives the word whose upper part is the value's bits, provided the leftover of the last turn is a prefix of the value |
| BitWriter.FullChunkLeftover | thirdparty/bitsery/serializer.h:129-136 | that proviso is inductive over the turns of the writing loop |
| BitWriter.ChunkBits | thirdparty/bitsery/serializer.h:126-128 | each turn appends the next bits of the value to the counted bits of the scratch word |
| BitWriter.LastChunkFits | thirdparty/bitsery/serializer.h:126-137 | after the last turn nothing is left above the counted bits |
| BitWriter.OutputAdapter.WriteBytes | thirdparty/bitsery/details/adapter_common.h:239-244 | the adapter appends the value's little-endian bytes |
| BitWriter.BitPackingWriter.EmitByte | thirdparty/bitsery/serializer.h:129-133 | moving a byte from the scratch word to the adapter changes nothing on the wire |
| BitWriter.BitPackingWriter.WriteBitsInternal | thirdparty/bitsery/serializer.h:120-139 | the loop appends exactly the value's bits to the wire, for every bit count and scratch width, and leaves a clean scratch word |
| BitWriter.BitPackingWriter.WriteByteBitsInternal | thirdparty/bitsery/serializer.h:142-153 | so does the overload for one byte |
| BitWriter.BitPackingWriter.WriteBits | thirdparty/bitsery/serializer.h:80-88 | the wire grows by the low bits of the value, least significant first |
| BitWriter.BitPackingWriter.WriteBytes | thirdparty/bitsery/serializer.h:52-63 | the direct byte path and the scratch path append the same bits |
| BitWriter.BitPackingWriter.WriteBuffer | thirdparty/bitsery/serializer.h:65-78 | so do the two paths for buffers |
| BitWriter.BitPackingWriter.Align | thirdparty/bitsery/serializer.h:90-92 | pads with the fewer than eight zero bits that reach a byte boundary, after which nothing is held back |
| BitReader.InputAdapter.SetError | thirdparty/bitsery/adapter/buffer.h:87-99 | the first error stays; it empties the input |
| BitReader.InputAdapter.ReadChunk | thirdparty/bitsery/adapter/buffer.h:125-157 | takes the next bytes, or gives zeros and raises an overflow when there are too few |
| BitReader.InputAdapter.IsCompletedSuccessfully | thirdparty/bitsery/adapter/buffer.h:101-103 | true iff every byte was read and no error was raised |
| BitReader.RefillBits | thirdparty/bitsery/deserializer.h:137-142 | a refilled scratch word holds the old bits, then the new byte |
| BitReader.GatherChunk | thirdparty/bitsery/deserializer.h:143-148 | one turn of the reading loop moves the next bits from what is still to come to the result |
| BitReader.BitPackingReader.ReadBitsInternal | thirdparty/bitsery/deserializer.h:130-151 | takes exactly that many bits off the input and returns their number, or raises an overflow; for any input bytes, and even after an error, missing bits count as zeros |
| BitReader.BitPackingReader.ReadBytes | thirdparty/bitsery/deserializer.h:52-61 | the direct byte path and the scratch path read the same value and leave the same input; when bytes are missing the direct path gives zero and the scratch path what there was |
| BitReader.BitPackingReader.ReadBuffer | thirdparty/bitsery/deserializer.h:63-77 | so do the two paths for buffers |
| BitReader.BitPackingReader.Align | thirdparty/bitsery/deserializer.h:85-91 | skips to the byte boundary, and raises invalid data iff a skipped bit is set |
| BitPacking.InRangeIs | thirdparty/bitsery/serializer.h:83-86 | the assertions on a call are met exactly by the values below the power of two that their bits can hold; every alignment is in range |
| BitPacking.WriteItem | thirdparty/bitsery/serializer.h:52-92 | one call of a schedule appends that item's bits |
| BitPacking.Serialize | thirdparty/bitsery/serializer.h:48-153 | the bytes of any schedule are the least-significant-bit-first concatenation of its fields, alignments included, padded with fewer than eight zeros; their number is the bit total rounded up |
| BitPacking.FormatIsUnique | thirdparty/bitsery/serializer.h:48-92 | that condition fixes the bytes, so the format depends neither on the path nor on the scratch width |
| BitPacking.ReadItem | thirdparty/bitsery/deserializer.h:52-91 | reading an item of the written shape gives it back and consumes its bits only |
| BitPacking.Deserialize | thirdparty/bitsery/deserializer.h:52-159 | reading the written schedule gives the written values with no error and consumes the whole input |
| BitPacking.RoundTrip | thirdparty/bitsery/deserializer.h:52-159 | for every schedule of writeBits, writeBytes, writeBuffer and align with values in range, reading by the same schedule gives the same values with no error, whatever the two scratch widths |
| GraphPaths.FewerEdgesAcyclic | src/data/Graph.cpp:74-79 | taking edges away keeps a graph acyclic |
| GraphPaths.ConnectAcyclicIff | src/data/Graph.cpp:82-96 | a new edge keeps an acyclic graph acyclic iff its source is not reachable from its target |
| GraphPaths.DescendantsDecrease | src/data/Graph.cpp:36-44 | along an edge of an acyclic graph the set of descendants shrinks, which is why unfolding ends |
| SceneGraph.RemoveKeeps | src/data/Graph.cpp:66-80 | removing a node with its edges keeps a graph acyclic and closed |
| SceneGraph.DisconnectKeeps | src/data/Graph.cpp:98-106 | removing an edge keeps a graph acyclic and closed |
| SceneGraph.Graph.Create | src/data/Graph.cpp:62-64 | adds the node, keeps the edges and closedness |
| SceneGraph.Graph.Remove | src/data/Graph.cpp:66-80 | the nodes with the identifier and the edges that touch it go; every other node and edge stays as often as before and in the same order; acyclic and closed graphs stay so |
| SceneGraph.Graph.Disconnect | src/data/Graph.cpp:98-106 | the edges that join the two identifiers go; every other edge stays as often as before and in the same order; acyclic and closed graphs stay so |
| SceneGraph.Graph.Connect | src/data/Graph.cpp:82-96 | adds one edge between the last stored nodes with the two identifiers; an acyclic graph stays acyclic iff the source was not reachable from the target |
| SceneGraph.Graph.Roots | src/data/Graph.cpp:15-34 | in every closed graph the lookup never misses, and the result is each node of in-degree zero, once |
| SceneGraph.SubTreeUnfolds | src/data/Graph.cpp:36-44 | the tree of a node has below it, edge by edge and in the order of the edges, the trees of the targets |
| SceneGraph.UnfoldingUnique | src/data/Graph.cpp:36-44 | and that determines the tree |
| SceneGraph.Graph.SubTreeOf | src/data/Graph.cpp:36-44 | on every acyclic graph the recursion ends, and gives that tree |
| SceneGraph.Graph.Trees | src/data/Graph.cpp:46-52 | the unfoldings of the roots, in the order of the roots |
| Unfolding.ForestCovers | src/data/Graph.cpp:46-52 | the forest of every closed acyclic graph contains every node, for any order of the roots |
| Unfolding.TreeNodesStored | src/data/Graph.cpp:36-44 | and no tree contains anything that is not stored |
| Unfolding.PathsMember | src/data/Graph.cpp:36-44 | the finite set used for counting holds exactly the edge paths between two identifiers |
| Unfolding.OccurrencesArePaths | src/data/Graph.cpp:36-44 | in a node's tree an identifier occurs as often as there are edge paths to it |
| Unfolding.ForestOccurrencesArePaths | src/data/Graph.cpp:46-52 | in the whole forest a node occurs exactly as often as there are edge paths to it from a root |
| Surface.AggregateOf | src/mesh/MeshFactory.cpp:18-36 | the loop folds from the left with the given combination; nothing for no trees, the tree itself for one |
| Surface.AggregateIsExtreme | src/mesh/MeshFactory.cpp:18-36 | at every point the fold's value is one of its members' values and beats all of them: the minimum for unions, the maximum for intersections |
| Surface.ExprOfTree | src/mesh/MeshFactory.cpp:38-71 | the recursive compiler gives the compiled expression, and none for operations without solid parts |
| Surface.CompiledSolid | src/mesh/MeshFactory.cpp:38-71 | a tree compiles iff it is a sphere or has a child that does |
| Surface.CompiledMeaning | src/mesh/MeshFactory.cpp:38-71 | compilation preserves meaning: at every point the expression is at most zero iff the point is in the set that the tree denotes, with empty operations dropped |
| Surface.ShapeOf | src/mesh/MeshFactory.cpp:73-84 | the shape handed to the mesher is the union of the compiled trees, and none if no tree compiles |
| Surface.ShapeMeaning | src/mesh/MeshFactory.cpp:73-84 | the shape is at most zero exactly where some solid tree of the forest contains the point |
| Surface.ForestOrderIrrelevant | src/mesh/MeshFactory.cpp:73-82 | any permutation of the forest gives the same value everywhere, so the pointer order of the roots does not matter |
| Surface.ChildOrderIrrelevant | src/mesh/MeshFactory.cpp:54-67 | rearranging a tree, by any permutation of the children of every node at all depths at once, keeps its value everywhere |
| Surface.SceneOrderIrrelevant | src/mesh/MeshFactory.cpp:73-82 | so does permuting a forest whose trees are rearranged too |
| UnionScenes.UnionTreeLevel | src/mesh/MeshFactory.cpp:38-71 | the value of a tree of unions is the least over the spheres in it |
| UnionScenes.ShapeIsLeastSphere | src/mesh/MeshFactory.cpp:73-84 | for every closed acyclic graph of unions over leaf spheres, the shape of its trees exists iff the graph has a sphere, and its value at every point is the minimum over all sphere nodes, however shared |
| UnionScenes.ShapeOfGraph | src/mesh/MeshFactory.cpp:73-84 | the same for a graph object, through its own trees and the compiler |
| Viewmodel.ReadNode | src/vm/ViewmodelImpl.cpp:53-63 | a node is read iff the store holds a readable sphere or set operation for the entity, and carries the attributes the store answers |
| Viewmodel.EdgesOf | src/vm/ViewmodelImpl.cpp:69-76 | the edges of a node are exactly those to stored nodes whose identifiers the store lists, each once |
| Viewmodel.Open | src/vm/ViewmodelImpl.cpp:44-84 | opening a document gives a closed graph of distinct node objects: one for each live row of a readable entity, with the attributes the store answers; its edges are the listed pairs of them, each once |
| Truncation.FloorIdiom | thirdparty/date/date.h:2802 | the era idiom on truncating division is floor division |
| FloatingDivision.DoubleDivision | thirdparty/date/solar_hijri.h:1090-1091 | a floating-point quotient of a 32-bit integer, exact when it is an integer and nearly exact otherwise, truncates to the integer quotient |
| Gregorian.ToDaysCounts | thirdparty/date/date.h:2790-2807 | the closed form equals counting days one year and one month at a time with the leap rule and the table of month lengths |
| Gregorian.ToDaysIncreasing | thirdparty/date/date.h:2849-2859 | day numbers order valid dates exactly as the calendar does |
| Gregorian.YearOfEra | thirdparty/date/date.h:2915 | the year-of-era formula is right on every day of a 400-year era, split into centuries and four-year groups |
| Gregorian.CivilInverts | thirdparty/date/date.h:2903-2922 | before narrowing the year, every day number gives a valid date that counts back to it |
| Gregorian.InRange | thirdparty/date/date.h:1670-1676 | a day number lies between the first and last representable dates iff its date's year is representable |
| Gregorian.FromDaysInverts | thirdparty/date/date.h:2903-2922 | days to date and back is the identity, and the date is ok, on every day with a representable year |
| Gregorian.ToDaysInverts | thirdparty/date/date.h:2790-2807 | date to days and back is the identity on every ok date |
| IsoWeek.WeekdaysAgree | thirdparty/date/iso_week.h:436-443 | the signed and the wrap-around unsigned weekday formulas are both the floored remainder, for negative days too |
| IsoWeek.GapsAgree | thirdparty/date/iso_week.h:522-528 | the unsigned wrap-around weekday difference and the truncating one are both the difference modulo seven |
| IsoWeek.LastWeekIs52Or53 | thirdparty/date/iso_week.h:1018-1027 | a year has 53 weeks iff its first or its last day is a Thursday, and 52 otherwise |
| IsoWeek.FromDaysIsWeekOf | thirdparty/date/iso_week.h:1500-1517 | on every day whose week belongs to a year from -32767 to 32767, the conversion gives the year and week of the week's Thursday, and an ok week date |
| IsoWeek.FirstYearWeeks | thirdparty/date/iso_week.h:1018-1027 | year -32768 is accepted, but the year before it wraps round, and its number of weeks comes out as 196 |
| IsoWeek.FromDaysInverts | thirdparty/date/iso_week.h:1476-1482 | for every day whatever, days to week date and back is the identity iff the day belongs to the week years -32767 to 32767 or to the next year up to three days before its end, which is taken for the first year |
| IsoWeek.ToDaysInverts | thirdparty/date/iso_week.h:1500-1517 | on every week date that the library calls ok, to days and back is the identity iff the year is not the first 16-bit year or the day is before the last Sunday of its week 52 |
| SolarHijri.ToDaysCounts | thirdparty/date/solar_hijri.h:2214-2248 | the closed form equals counting days by the leap rule and the month lengths from 11 Dey 1348 |
| SolarHijri.SameEpoch | thirdparty/date/solar_hijri.h:42-45 | 11 Dey 1348 is day zero, as 1970-01-01 is in the Gregorian calendar |
| SolarHijri.LeapYears | thirdparty/date/solar_hijri.h:1083-1099 | the leap years of the century around it, one by one |
| SolarHijri.YearSpan | thirdparty/date/solar_hijri.h:1083-1099 | every year, measured in day numbers, has 366 days iff it is a leap year |
| SolarHijri.EraYearStep | thirdparty/date/solar_hijri.h:2233-2243 | within an era each year starts 365 or 366 days after the one before, by the leap rule, across cycles and periods |
| SolarHijri.PeriodDay | thirdparty/date/solar_hijri.h:2359-2381 | in each of the 22 full periods the nested case analysis gives the year and a day of the year in range |
| SolarHijri.EraDay | thirdparty/date/solar_hijri.h:2358-2381 | the same for every day of an era, its four closing years included |
| SolarHijri.ToDaysIncreasing | thirdparty/date/solar_hijri.h:2214-2248 | day numbers order valid dates exactly as the calendar does |
| SolarHijri.FromDaysInverts | thirdparty/date/solar_hijri.h:2341-2387 | days to date and back is the identity, and the date is ok, in positive and negative eras |
| SolarHijri.ToDaysInverts | thirdparty/date/solar_hijri.h:2214-2248 | date to days and back is the identity on every ok date |
| Islamic.ToDaysCounts | thirdparty/date/islamic.h:2139-2156 | the closed form equals counting days by the leap table and the month lengths from 22 Shawwal 1389 |
| Islamic.SameEpoch | thirdparty/date/islamic.h:2155 | 22 Shawwal 1389 is day zero, as 1970-01-01 is in the Gregorian calendar |
| Islamic.LeapCount | thirdparty/date/islamic.h:2154 | the division hidden in the day formula counts the years of the leap table |
| Islamic.YearSpan | thirdparty/date/islamic.h:1049-1074 | every year, measured in day numbers, has 355 days iff the table calls it a leap year, and 354 otherwise |
| Islamic.ToDaysIncreasing | thirdparty/date/islamic.h:2139-2156 | day numbers order valid dates exactly as the calendar does |
| Islamic.FromDaysInverts | thirdparty/date/islamic.h:2249-2267 | days to date and back is the identity, and the date is ok |
| Islamic.ToDaysInverts | thirdparty/date/islamic.h:2139-2156 | date to days and back is the identity on every ok date |
| Julian.ToDaysCounts | thirdparty/date/julian.h:2159-2176 | the closed form equals counting days by the leap rule and the month lengths from 19 December 1969 |
| Julian.SameEpoch | thirdparty/date/julian.h:2175 | 19 December 1969 is day zero, as 1970-01-01 is in the Gregorian calendar |
| Julian.YearSpan | thirdparty/date/julian.h:1062-1068 | every year, measured in day numbers, has 366 days iff it is a leap year |
| Julian.FromDaysInverts | thirdparty/date/julian.h:2269-2288 | days to date and back is the identity, and the date is ok |
| Julian.ToDaysInverts | thirdparty/date/julian.h:2159-2176 | date to days and back is the identity on every ok date |
| SqliteText.BindDateParameter | src/sqlpp11-connector-sqlite/prepared_statement.cpp:169-188 | for every day: the bound text is the printed date, and reads back as the day iff its year is between 0 and 9999 |
| SqliteText.BindDateTimeParameter | src/sqlpp11-connector-sqlite/prepared_statement.cpp:190-213 | for every time point: the bound text is the printed time point, and reads back floored to milliseconds iff its year is between 0 and 9999 |
| SqliteText.PrintedLayout | thirdparty/date/date.h:3916-3932 | for the years 0 to 9999 the text has 23 characters in one fixed layout, each field holding its own number |
| SqliteText.CheckDigits | src/sqlpp11-connector-sqlite/bind_result.cpp:113-134 | true iff the text has the pattern's digits and non-digits, without reading past the terminator |
| SqliteText.BindDateResult | src/sqlpp11-connector-sqlite/bind_result.cpp:137-165 | a column that starts with four, two and two digits between separators gives the day of those numbers, whatever follows; any other gives the epoch, as NULL does |
| SqliteText.DateTimeMeaning | src/sqlpp11-connector-sqlite/bind_result.cpp:167-218 | for every text, position by position: a date gives its day; a time that follows is added, and then the fraction iff it is one separator, exactly three digits and the end; any other ending adds nothing |
| SqliteText.BindDateTimeResult | src/sqlpp11-connector-sqlite/bind_result.cpp:167-218 | the stepwise sum with its early ends is that value |
| SqliteText.PrintedYear | thirdparty/date/date.h:1758-1772 | a year is printed with its sign and at least four digits, as many as it needs |
| SqliteText.FirstYearText | thirdparty/date/date.h:1769-1770 | the one 16-bit value that is no year is printed with a remark |
| SqliteText.PrintedRemark | thirdparty/date/date.h:2885-2901 | a leap day that a wrapped year turns into no date is printed with a remark |
| SqliteText.PrintedDateReads | thirdparty/date/date.h:2885-2901 | for every day, even one whose year wraps round in 16 bits, the printed date reads as the day of the printed date, or as the epoch where its year takes more or fewer characters than four digits |
| SqliteText.DateRoundTrip | thirdparty/date/date.h:2885-2901 | it reads back as the day itself iff the year is between 0 and 9999, and every other representable year gives the epoch |
| SqliteText.PrintedDateTimeReads | src/sqlpp11-connector-sqlite/bind_result.cpp:167-218 | the same for every time point: a wrapped date that is none of the calendar loses its time |
| SqliteText.DateTimeRoundTrip | src/sqlpp11-connector-sqlite/bind_result.cpp:167-218 | printing then parsing floors to milliseconds for the years 0 to 9999, and gives the epoch for every other representable year |
| SqliteText.DateTimeRoundTripIff | src/sqlpp11-connector-sqlite/bind_result.cpp:184-197 | for every time point, parsing gives the floored time back iff the year is between 0 and 9999 |
| PosixZoneReader.ParseZoneFrom | thirdparty/date/ptz.h:274-308 | the index-based constructor parses as the reader on remaining text does, error messages included; what it accepts is well formed, and its name reads back iff its abbreviations are alphabetic and its printed times are under 100 hours |
| PosixZoneReader.ReadUnsignedAt | thirdparty/date/ptz.h:732-744 | the digit loop reads at most the given number of digits, at least one, and their value |
| PosixZoneReader.ReadNameAt | thirdparty/date/ptz.h:650-682 | reads a bracketed or an alphabetic name of at least three characters, or gives the source's error |
| PosixZoneReader.ReadUnsignedTimeAt | thirdparty/date/ptz.h:705-730 | reads hours with optional minutes and seconds, or gives the source's error |
| PosixZoneReader.ReadSignedTimeAt | thirdparty/date/ptz.h:684-703 | after a plus sign it reads what follows as an unsigned time, after a minus sign its negation, and without a sign the text itself, or gives the source's error |
| PosixZoneReader.ReadDateAt | thirdparty/date/ptz.h:595-648 | reads a rule of any of the three forms with its optional time, or gives the source's error |
| PosixZonePrinter.PrintRule | thirdparty/date/ptz.h:153-207 | prints a rule; a well-formed rule with a short time reads back whole, its time included |
| PosixZonePrinter.PrintName | thirdparty/date/ptz.h:513-558 | prints a zone; the text reads back to the zone iff its abbreviations are alphabetic and its printed times are under 100 hours |
| PosixZoneForms.SignsRead | thirdparty/date/ptz.h:684-703 | for every text, a plus sign before it says nothing and a minus sign negates |
| PosixZoneForms.PlusSign | thirdparty/date/ptz.h:274-308 | writing a plus sign before a zone's offset does not change the zone, whatever follows |
| PosixZoneForms.StandardZone | thirdparty/date/ptz.h:280-283 | an abbreviation, plain or in brackets, with an offset of x seconds gives an offset of minus x, no daylight saving, and an hour as the saving kept |
| PosixZoneForms.SavingZone | thirdparty/date/ptz.h:283-286 | with a second abbreviation alone the saving is one hour and there are no rules |
| PosixZoneForms.SavingOffset | thirdparty/date/ptz.h:288-292 | with an offset of its own the saving is the difference of the two offsets |
| PosixZoneForms.HoursRead | thirdparty/date/ptz.h:712-716 | one or two digits are hours |
| PosixZoneForms.MinutesRead | thirdparty/date/ptz.h:717-721 | one or two digits after a colon are minutes |
| PosixZoneForms.SecondsRead | thirdparty/date/ptz.h:722-727 | and after a second colon seconds |
| PosixZoneForms.DaysRead | thirdparty/date/ptz.h:603-610 | the two forms of a day, with or without leading zeros, at two o'clock when no time follows |
| PosixZoneForms.DaysWithTimeRead | thirdparty/date/ptz.h:640-646 | and at the time that follows a slash |
| PosixZoneForms.MonthsRead | thirdparty/date/ptz.h:611-630 | the form of a month, week and weekday, where weekday 7 is 0 |
| PosixZoneForms.MonthsWithTimeRead | thirdparty/date/ptz.h:640-646 | and with the time that follows a slash |
| PosixZoneForms.NameErrors | thirdparty/date/ptz.h:654-680 | the message for each kind of malformed abbreviation |
| PosixZoneForms.TimeErrors | thirdparty/date/ptz.h:689-715 | the messages for a missing time and for a time that starts with no digit |
| PosixZoneForms.MinuteErrors | thirdparty/date/ptz.h:717-720 | the message for minutes that start with no digit |
| PosixZoneForms.SecondErrors | thirdparty/date/ptz.h:722-725 | and for such seconds |
| PosixZoneForms.DayErrors | thirdparty/date/ptz.h:601-639 | the messages for a missing rule and for each wrong start of one |
| PosixZoneForms.MonthErrors | thirdparty/date/ptz.h:616-620 | the messages for what is wrong after a month |
| PosixZoneForms.WeekErrors | thirdparty/date/ptz.h:621-625 | the messages for what is wrong after a week |
| PosixZoneForms.RuleErrors | thirdparty/date/ptz.h:295-300 | the messages for a rule without its comma |
| PosixZoneForms.TrailingError | thirdparty/date/ptz.h:298-304 | two rules give their pair at the end of the text, and a message before it |
| PosixZoneForms.PrintedTime | thirdparty/date/ptz.h:158-182 | a time is printed as its hours, and two digits each for minutes and seconds where they are needed |
| PosixZoneForms.UsualLeftOut | thirdparty/date/ptz.h:546-554 | a saving of one hour and a rule time of two o'clock are left out of a name |
| PosixZoneForms.EasternName | thirdparty/date/ptz.h:513-558 | the zone of New York as its string is usually written, in both directions |
| PosixZone.ParsedWellFormed | thirdparty/date/ptz.h:274-308 | every zone that parsing produces is well formed: long enough names, fields in their digits, both rules or none |
| PosixZone.TimeReads | thirdparty/date/ptz.h:705-730 | a printed time under 100 hours reads back whatever may follow it |
| PosixZone.LongTimeReads | thirdparty/date/ptz.h:715 | a printed time of 100 hours or more leaves digits unread |
| PosixZone.PlainTextIsAlphabetic | thirdparty/date/ptz.h:672-678 | a text without a closing bracket can only yield alphabetic names |
| PosixZone.NameRoundTrip | thirdparty/date/ptz.h:513-558 | a well-formed zone's name parses back to it, rule times included, iff its abbreviations are alphabetic and its printed times are under 100 hours |
| PosixZone.ParsedNameRoundTrip | thirdparty/date/ptz.h:513-558 | the same for every string that parses, and then the name is a fixed point of parsing and printing |
| PosixZone.QuotedNameFails | thirdparty/date/ptz.h:656-670 | a concrete zone with a quoted abbreviation whose name does not parse back to it |

## Left out

- SQL text, prepared statements and transactions beyond their atomicity: a table is a sequence of rows in order of
  insertion, and a query reads it in that order.
- Timestamps of 2^63 and more, which the database would store as negative numbers: timestamps are integers.
- Text forms of identifiers in the store: an identifier is opaque, and so are the wall clock and random identifiers.
- Rows with an unknown type number (src/db/DatabaseImpl.cpp:272-275, src/db/DatabaseImpl.cpp:401-404): types are a
  datatype, so conversion from numbers cannot fail.
- Database.DatabaseImpl.SetOpOf: promises some latest live row, because the query does not order rows of one timestamp.
- Convergence.SettledSitesAgree: on set-operation types it promises the same candidates, for the same reason; on
  coordinates it promises the same distance from the origin, because equally far points are kept in row order.
- Convergence.SettledSitesAgree: covers runs without removal, disconnection and retraction, for which replicas do not
  agree; a disconnection's effect is stated apart.
- Removal through the interactors (src/vm/ViewmodelImpl.cpp:117-125, 166-169, 227-242) and the messages that ask for it:
  the remote form re-enters the local interactor; only the store's own removal and retractions are modelled.
- The network interactor's changes of the open graph and `Graph::access` (src/data/Graph.cpp:108-114), which calls back
  with the first node whatever was asked for.
- Viewmodel.Open: asks that no entity read into the graph has a listed edge to itself, as the assertion in
  include/data/Edge.h:26 does; the unique identifiers of edges are left out.
- SceneGraph.Graph.Connect: asks for two distinct stored nodes, for the edge's constructor reads the identifiers of both
  and asserts that they differ (include/data/Edge.h:24-27).
- SceneGraph.Graph.Roots: asks for a closed graph; outside it the source's lookup throws.
- Meshing, and rounding of floating-point numbers: coordinates and magnitudes are reals, and distances are compared by
  their squares.
- BitWriter.BitPackingWriter.WriteBits: asks for a value in range, as the source's assertion does; signed values are
  written through their unsigned bit patterns, which is where the model starts.
- Byte swapping on big-endian machines, moving the read and write positions, fixed-size output buffers, and the
  configuration that switches error checks off.
- Serialization of the message types and of sizes on top of the bit-packing wrappers.
- IsoWeek.FromDaysIsWeekOf: covers the days of the week years -32767 to 32767; on days outside them the 16-bit year
  wraps round, and only what the way back gives is stated.
- Overflow of day counts: days and microseconds are unbounded.
- Overflow of `atoi` on a run of digits longer than its result can hold: numbers are unbounded. Letters and digits are
  those of the "C" locale.
- Calendar arithmetic on months and years, weekday-in-month dates, format strings and locales.
- Evaluating a zone's rules in a year (thirdparty/date/ptz.h:126-151), the lookups of offsets, the stream form of a
  zone, and the position marks in error messages.
- Interface types, futures of mesh generation, sockets and the unimplemented functions of client and server.
