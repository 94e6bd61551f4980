# A verified model of go-i2p-bt

This project models the core of a BitTorrent library in Go (bencode, the Kademlia DHT, torrent storage,
the peer wire protocol, metadata exchange, the download queues, the bandwidth limiter and the IP
blocklist) and proves what these parts promise. Each part has two layers. A layer of datatypes and
functions says what an operation does to a value or a state. A layer of classes and methods, with the
fields and loops of the source, is proved equal to it. The laws are lemmas about the first layer, so
they hold of the second.

Where the code does not do what its comments or its design say, the model follows the code, a member
shows it on an input (or on every input that fails), and an if-and-only-if says when code and intent agree:

- replacing a bad node in a full bucket keeps the old length, so the bucket grows past `k` and may store a node twice;
- purging bad nodes deletes by indexes that earlier deletions have moved, so a bad node survives or the purge panics;
- `GetFileByOffset` reads an offset past the end of a multi-file torrent again into the last file;
- `Suggest` and `AllowedFast` are written without their index and cannot be read back;
- a negative metadata size between one and two blocks counts as complete at once;
- adding a torrent that is already queued leaves an entry in the order list that has no item;
- the time a caller waits for bandwidth is credited again at the next refill;
- the verifier's piece reader returns nothing for a single-file torrent.

The modules, bottom up:

- `Prelude`, `Decimal`: shared types, facts about sequences, decimal text.
- `Bencode`, `BencodeLaws`, `BencodeCodec`: printer, parser and raw scanner; their laws; the stateful `Encoder` and `Decoder`.
- `XorMetric`, `Closest`, `Buckets`, `RoutingTable`: distance and bucket index; the nearest nodes; one bucket; whole tables over whole runs.
- `Search`, `SearchServer`: the recursive get_peers search as interleaved steps; the transaction store and the handlers.
- `Layout`, `Storage`, `PieceReader`, `Pieces`, `Transfer`, `Merge`: files as one address space; reading and writing; piece reading and completion; file pieces and blocks; writing a file block by block; merging.
- `PeerWire`, `PeerConn`: framing; the message state machine and two connected ends.
- `Metadata`, `PayloadLaws`, `Assembly`: the `ut_metadata` payload; what its decoder makes of any dictionary; assembling the metadata.
- `Queues`, `QueueLaws`, `Bandwidth`, `Blocklist`: the queue manager; where a torrent stands after any run of it; the token bucket; address ranges.

Clocks, random choices, the routing table's answer inside a search, the outcome of a send and the
outcome of an unstable sort are parameters, and the laws hold for every value of them.

## Model

| member | source | states |
|---|---|---|
| Decimal.ParseFormat | bencode/encode.go:180-206 | every number of the width is read back from its printed text, and that text is minimal |
| Decimal.FormatParse | bencode/decode.go:336-353 | of the accepted texts, exactly the minimal ones are what printing produces |
| Decimal.AcceptedTexts | bencode/decode.go:336-353 | a text is a number of the width if and only if it is digits behind at most one sign, and in range |
| Decimal.ParseInt | bencode/decode.go:382-390 | an accepted number lies in the signed range of its width |
| Bencode.SortedKeys | bencode/encode.go:234-259 | the keys of a map, each once, in strictly ascending byte order |
| Bencode.AscendingUnique | bencode/encode.go:14-16 | there is only one strictly ascending listing of a set of keys, so the encoding of a map is fixed |
| Bencode.ParseString | bencode/decode.go:375-413 | a successful string read consumes a non-empty prefix and yields fewer than 2^31 bytes |
| Bencode.ParseValue | bencode/decode.go:262-280 | a successful decode leaves a proper suffix of the input |
| Bencode.Scan | bencode/decode.go:240-257 | a successful scan in any of the four grammars leaves a proper suffix of the input |
| BencodeLaws.StringRoundTrip | bencode/encode.go:203-206 | a printed string followed by anything parses back to itself, stops at its end, and has a canonical length |
| BencodeLaws.IntRoundTrip | bencode/encode.go:180-200 | the same for every int64 |
| BencodeLaws.RoundTrip | bencode/encode.go:70-259 | decoding the encoding of any value followed by any bytes returns the value and exactly those bytes, and the encoding is canonical |
| BencodeLaws.ItemsRoundTrip | bencode/encode.go:209-231 | the same for the items of a list, with any items already collected |
| BencodeLaws.PairsRoundTrip | bencode/encode.go:234-259 | the same for the pairs of a dictionary, from any point of its ascending key list |
| BencodeLaws.SelfDelimiting | bencode/encode.go:70-259 | two encodings that agree after appending bytes are the same encoding, so none is a prefix of another |
| BencodeLaws.EncodeInjective | bencode/encode.go:70-259 | different values have different encodings |
| BencodeLaws.ScanWeaken | bencode/decode.go:682-688 | a stronger grammar accepts less, and what it accepts ends at the same byte in a weaker one |
| BencodeLaws.ParseIsScan | bencode/decode.go:262-280 | the typed decoder accepts exactly its grammar, stops where the scanner stops, and yields only encodable values |
| BencodeLaws.RawAgrees | bencode/decode.go:240-257 | whatever decodes into an interface decodes into a RawMessage over the same bytes |
| BencodeLaws.RawAcceptsAnyBody | bencode/decode.go:296-312 | on a single integer token raw mode accepts any body; the typed decoder accepts it exactly if it is an int64 |
| BencodeLaws.RawIsASuperset | bencode/decode.go:305-310 | an integer with an empty body is accepted raw and refused otherwise |
| BencodeLaws.RawIff | bencode/decode.go:240-312 | the exact converse: input that raw mode accepts is accepted by the typed decoder if and only if every integer body in it, at any depth, is an int64 |
| BencodeLaws.ParseLocal | bencode/decode.go:215-258 | the bytes a value consumed, followed by anything, decode to that value again, which lets a captured value be decoded later |
| BencodeLaws.CanonicalReencodes | bencode/decode.go:602-688 | input in the grammar of BEP 3 is the encoding of the value it decodes to |
| BencodeLaws.CanonicalIff | bencode/encode.go:70-259 | decode-then-encode reproduces an accepted input byte for byte if and only if it is canonical |
| BencodeLaws.Normalises | bencode/encode.go:70-259 | re-encoding any accepted input gives canonical bytes that decode to the same value under either key setting |
| BencodeLaws.SpelledInt | bencode/decode.go:336-343 | an int64 in any spelling is decoded, and is canonical if and only if the spelling is minimal |
| BencodeLaws.SpelledString | bencode/decode.go:375-413 | the same for the spelling of a length |
| BencodeLaws.KeysInAnyOrder | bencode/decode.go:602-688 | two keys in any order, or one key twice, are decoded with the later value winning, and are canonical if and only if the keys ascend strictly |
| BencodeLaws.OtherSpellings | bencode/decode.go:602-688 | a leading zero, a padded length, unordered keys and a repeated key: each accepted, none canonical |
| BencodeCodec.Encoder.WriteString | bencode/encode.go:203-206 | appends the length-prefixed string to the output and nothing else |
| BencodeCodec.Encoder.EncodeValue | bencode/encode.go:126-148 | appends the encoding of the value that the round-trip laws are about |
| BencodeCodec.Encoder.EncodeSlice | bencode/encode.go:209-231 | the item loop writes the encoding of the list |
| BencodeCodec.Encoder.EncodeMap | bencode/encode.go:234-259 | the loop over sorted keys writes the encoding of the dictionary |
| BencodeCodec.MapKeys | bencode/encode.go:239-242 | every key of the map exactly once |
| BencodeCodec.SortKeys | bencode/encode.go:239-243 | the same keys, strictly ascending |
| BencodeCodec.SortedMapKeys | bencode/encode.go:239-243 | the two together give the one listing that the encoding uses |
| BencodeCodec.Decoder.ReadByte | bencode/decode.go:69-76 | one byte is taken, counted and, in raw mode, captured; at the end of input the count still rises |
| BencodeCodec.Decoder.ReadBytes | bencode/decode.go:59-66 | takes everything up to the first delimiter, or everything and an error, and counts it |
| BencodeCodec.Decoder.ReadFull | bencode/decode.go:79-86 | takes exactly as many bytes as asked for, or fails with all of them counted |
| BencodeCodec.Decoder.PeekByte | bencode/decode.go:88-95 | the next byte, or end of input, without taking it |
| BencodeCodec.Decoder.DecodeString | bencode/decode.go:375-413 | succeeds, fails and stops exactly as the string grammar says, whatever the mode |
| BencodeCodec.Decoder.ReadIntegerDigits | bencode/decode.go:296-312 | takes the integer token, and hands out its body unless in raw mode |
| BencodeCodec.Decoder.DecodeInt | bencode/decode.go:285-353 | in typed mode the body must be an int64, in raw mode any body passes |
| BencodeCodec.Decoder.Dispatch | bencode/decode.go:262-280 | in typed mode computes the parser's value or error; in raw mode accepts what the raw grammar accepts; counts and captures the consumed bytes |
| BencodeCodec.Decoder.DecodeList | bencode/decode.go:415-451 | the list after its token, in whichever mode, with the token counted and captured |
| BencodeCodec.Decoder.ProcessListElements | bencode/decode.go:474-496 | the typed list loop computes the parser's list or error |
| BencodeCodec.Decoder.ProcessListInRawMode | bencode/decode.go:453-471 | the raw list loop accepts and consumes what the raw grammar says |
| BencodeCodec.Decoder.DecodeDict | bencode/decode.go:518-553 | the dictionary after its token, in whichever mode, with the token counted and captured |
| BencodeCodec.Decoder.NextPair | bencode/decode.go:638-688 | one key and value, with the key-order check against the last key |
| BencodeCodec.Decoder.ProcessDictKeyValuePairs | bencode/decode.go:602-635 | the typed dictionary loop computes the parser's map, a repeated key overwriting, or its error |
| BencodeCodec.Decoder.NextRawPair | bencode/decode.go:555-576 | one key and value captured and not interpreted |
| BencodeCodec.Decoder.ProcessDictInRawMode | bencode/decode.go:555-576 | the raw dictionary loop accepts and consumes what the raw grammar says |
| BencodeCodec.Decoder.Decode | bencode/decode.go:116-124 | value or error of the parser, with every byte taken counted even on failure |
| BencodeCodec.Decoder.DecodeRaw | bencode/decode.go:240-257 | the captured message is exactly the consumed bytes, at any nesting depth |
| XorMetric.DistCmp | dht/routing_table.go:218-229 | the byte loop compares as the recursive comparison does |
| XorMetric.CompareIsNumeric | dht/routing_table.go:218-229 | `distcmp` is the sign of the difference of the two XOR distances as 160-bit numbers |
| XorMetric.DistanceInjective | metainfo/infohash.go:176-185 | two IDs at the same distance from a target are equal, so the order is total and strict |
| XorMetric.ZeroDistance | metainfo/infohash.go:176-185 | an ID is at distance zero from itself |
| XorMetric.BucketId | dht/routing_table.go:334-371 | the nested loops compute the bucket index |
| XorMetric.BucketOf | dht/routing_table.go:334-371 | the index is always in 0..159 |
| XorMetric.BucketIsFirstDifference | dht/routing_table.go:334-371 | the bucket index is that of the first differing bit, and 159 for equal IDs |
| XorMetric.LaterBucketIsNearer | dht/routing_table.go:334-371 | an ID in a later bucket is strictly nearer to the owner than one in an earlier bucket |
| Closest.InsertAscending | dht/routing_table.go:198-213 | inserting keeps ascending distance and adds exactly the one node |
| Closest.SortedIsSorted | dht/routing_table.go:180-196 | the reference is an ascending permutation of the nodes |
| Closest.TakeInsert | dht/routing_table.go:198-213 | cutting to k before inserting loses nothing that would be kept after |
| Closest.NodesByDistance.Search | dht/routing_table.go:199-201 | binary search finds the first node farther than the new one |
| Closest.NodesByDistance.Push | dht/routing_table.go:198-213 | the list stays the nearest `maxnum` of all nodes pushed so far |
| Closest.PushAll | dht/routing_table.go:186-190 | pushing the nodes of one bucket adds them, in order, to those the list is the nearest of |
| Closest.ClosestOf | dht/routing_table.go:180-196 | the push loop over all buckets equals sort-then-take |
| Closest.ClosestAreNearest | dht/routing_table.go:180-196 | min(maxnum, N) nodes, ascending, which with the others make up the input, none of the others nearer than any kept |
| Closest.SortedUnique | dht/routing_table.go:180-196 | with distinct IDs the answer does not depend on the order of the table |
| Buckets.AddKeepsUnique | dht/routing_table.go:257-298 | adding as intended keeps IDs unique |
| Buckets.AddKeepsSmall | dht/routing_table.go:257-298 | adding as intended keeps a bucket within k |
| Buckets.AddWrittenSmallIff | dht/routing_table.go:284-293 | the code keeps a bucket within k if and only if the call does not replace a bad node |
| Buckets.AddWrittenUniqueIff | dht/routing_table.go:284-293 | the code keeps IDs unique unless it replaces a bad node that is not the last |
| Buckets.AddKeepsIds | dht/routing_table.go:257-298 | every ID in the bucket afterwards was there before or is the one added |
| Buckets.AddWithRoom | dht/routing_table.go:277-282 | a new ID in a bucket with room goes to its end, stamped with the time |
| Buckets.AddKnown | dht/routing_table.go:257-275 | a known ID at its own address has exactly its time and the bucket's time set |
| Buckets.AddRefused | dht/routing_table.go:257-298 | a known ID at another address, and a new one in a full bucket without a bad node, change nothing |
| Buckets.AddReplacing | dht/routing_table.go:284-293 | in a full bucket the first bad node makes way, in the intent and in the code, entry by entry |
| Buckets.AddedIff | dht/routing_table.go:257-298 | the answer is NodeAdded if and only if the ID is new and there is room or a bad node, and then the node ends the bucket |
| Buckets.CheckSchedule | dht/routing_table.go:304-332 | a bucket is purged once it was quiet for fifteen minutes, and the purge leaves its time alone |
| Buckets.BadNodeSurvives | dht/routing_table.go:304-332 | with two or more bad nodes, a bad node is still there after the purge |
| Buckets.PurgeExactIff | dht/routing_table.go:304-332 | the purge removes exactly the bad nodes, in order and without a panic, if and only if there is at most one |
| Buckets.GoodOnesSpec | dht/routing_table.go:304-332 | the intended purge keeps exactly the entries that are not bad |
| Buckets.GoodOnesUnique | dht/routing_table.go:304-332 | the intended purge keeps IDs unique and does not grow the bucket |
| Buckets.CheckSubset | dht/routing_table.go:304-332 | either purge keeps only entries that were there |
| Buckets.DeleteAllUnique | dht/routing_table.go:328-331 | deleting by any indexes keeps IDs unique and does not grow the bucket |
| Buckets.Bucket.Find | dht/routing_table.go:257-270 | the first node with the ID, or none |
| Buckets.Bucket.FindBad | dht/routing_table.go:284-293 | the first bad node, or none |
| Buckets.Bucket.Replace | dht/routing_table.go:284-293 | moving the tail down and appending leaves the old last entry in place as well |
| Buckets.Bucket.AddNode | dht/routing_table.go:257-298 | new bucket and status of the code, no other node object touched |
| Buckets.PingedIff | dht/routing_table.go:425-435 | the nodes to ping are exactly those last heard of more than fifteen and at most twenty minutes ago |
| Buckets.Bucket.Collect | dht/routing_table.go:308-326 | exactly the indexes of the bad nodes, ascending, and the dubious nodes to ping |
| Buckets.Bucket.CheckAllNodes | dht/routing_table.go:304-332 | the purge of the code, including whether it panics and which nodes it pings |
| RoutingTable.StepPlaced | dht/routing_table.go:171-177 | every operation keeps each node in the bucket its ID belongs to |
| RoutingTable.AddTouchesOne | dht/routing_table.go:164-177 | adding changes only the bucket of the ID, and nothing for the owner's own ID |
| RoutingTable.CheckFromReaches | dht/routing_table.go:125-135 | the check purges every bucket up to and including the first that panics, and no later one |
| RoutingTable.AddedIsFound | dht/routing_table.go:164-196 | a node that was added is the nearest to its own ID that the table knows |
| RoutingTable.StepTidy | dht/routing_table.go:257-332 | every intended operation keeps capacity and unique IDs |
| RoutingTable.StepTidyIff | dht/routing_table.go:257-332 | the code keeps a tidy table tidy if and only if the operation does not replace a bad node |
| RoutingTable.CheckFromIff | dht/routing_table.go:125-135 | the periodic check does what is intended if and only if no bucket due for it holds two bad nodes |
| RoutingTable.StepAgreesIff | dht/routing_table.go:257-332 | in a tidy table the code departs from its intent exactly on a replacement or a crowded purge |
| RoutingTable.RunPlaced | dht/routing_table.go:171-177 | placement over every run, of the code and of the intent |
| RoutingTable.RunTidy | dht/routing_table.go:257-332 | capacity and unique IDs over every run of the intent |
| RoutingTable.CalmRunsAgree | dht/routing_table.go:257-332 | a run of the code that meets no hazard is the run of the intent |
| RoutingTable.RunTidyIff | dht/routing_table.go:257-332 | from a tidy table, every table along a run of the code keeps capacity and unique IDs if and only if no operation of it replaces a bad node |
| RoutingTable.RunInvariant | dht/routing_table.go:164-190 | from the empty table: placement always; capacity and uniqueness for the intent, and for the code on runs without a hazard |
| RoutingTable.UniqueAcross | dht/routing_table.go:171-177 | placement makes uniqueness in each bucket uniqueness across the table |
| RoutingTable.ReplacementBreaks | dht/routing_table.go:284-293 | a bucket of two after one replacement: three entries, one of them twice |
| RoutingTable.PurgeBreaks | dht/routing_table.go:328-331 | two bad nodes: one is deleted, then the purge panics and the other stays |
| RoutingTable.BucketTable.constructor | dht/routing_table.go:44-73 | 160 empty buckets, all distinct objects |
| RoutingTable.BucketTable.Insert | dht/routing_table.go:171-177 | changes only the bucket that the ID belongs to, with the status that bucket gives |
| RoutingTable.BucketTable.AddNode | dht/routing_table.go:164-177 | refuses the owner's ID, else changes the one bucket the ID belongs to |
| RoutingTable.BucketTable.CheckAllBuckets | dht/routing_table.go:125-135 | purges bucket by bucket and ends the round at the first panic |
| RoutingTable.BucketTable.Closest | dht/routing_table.go:180-196 | the nearest nodes of the whole table |
| Search.SearchIsFinite | dht/dht_server.go:836-935 | under any interleaving, n nodes at depth d send at most n(1 + b + ... + b^(d-1)) queries when responses bring at most b new nodes, and the search ends within twice as many effective steps |
| Search.SearchIsSound | dht/dht_server.go:896-935 | in every reachable state no chain of queries meets an ID twice or is longer than the depth, and no transaction is completed twice or still stored once completed |
| Search.StepCosts | dht/dht_server.go:836-935 | every step lowers the measure of what the search can still do, and sent plus still possible queries never rise |
| Search.NextWeight | dht/dht_server.go:877-922 | the queries a response leads to weigh less than the transaction it answers |
| Search.FreshIsNew | dht/dht_server.go:896-915 | exactly the listed nodes that were not visited and that the routing table took are queried |
| Search.FollowUps | dht/dht_server.go:836-935 | a response adds a query, at its own address and one level less deep, for each listed node that is unvisited and that the table took, and no other; none if peers came, the target was named or the depth is used up |
| Search.FollowUpsVisited | dht/dht_server.go:883-922 | a follow-up query knows what its parent knew and all nodes it was made with, and nothing more |
| Search.SendLaw | dht/dht_server.go:794-809 | a query is sent once, and stored under its id and address exactly if the send succeeds |
| Search.CompletionLaw | dht/transaction_manager.go:162-170 | a message for a stored transaction takes it out and completes it once; any other does nothing |
| Search.StartLaw | dht/dht_server.go:951-1007 | a search starts with one query per node, at its address, with every start node visited |
| Search.NewNodesAreNew | dht/dht_server.go:883-893 | no node of either list that is queried was visited before |
| Search.NextHonest | dht/dht_server.go:883-922 | a follow-up query extends its chain by an ID that was not visited, and marks it visited |
| Search.StepAccounted | dht/transaction_manager.go:105-170 | stored transactions are distinct, not completed, and completions do not repeat |
| Search.GeometricUnfold | dht/dht_server.go:877-880 | the geometric sum satisfies the recursion of the search depth |
| SearchServer.ProcessNodeList | dht/dht_server.go:896-915 | the loop finds the target, the new nodes and the new visited IDs of one list |
| SearchServer.ProcessResponseNodes | dht/dht_server.go:883-893 | the second list is filtered against the first, and skipped if the first names the target |
| SearchServer.Server.PopTransaction | dht/transaction_manager.go:162-170 | takes the transaction out, so that no second pop finds it |
| SearchServer.Server.Request | dht/dht_server.go:794-809 | one send step; the id counter moves unless the address family is off, and only a sent query is stored |
| SearchServer.SendAt | dht/dht_server.go:794-809 | the k-th send of a handler has the id that the sends before it leave; one whose address family is off takes none |
| SearchServer.SendsDiffer | dht/transaction_manager.go:138-140 | two queries of one handler that go out have different ids |
| SearchServer.ZeroIff | dht/dht_server.go:965-969 | the zero test of an infohash holds of exactly one value |
| SearchServer.IdsDiffer | dht/transaction_manager.go:138-140 | fewer than 2^32 requests apart, two requests have different ids |
| SearchServer.Server.ContinueRecursiveSearch | dht/dht_server.go:918-922 | the loop is the sequence of send steps of the follow-up queries |
| SearchServer.Server.OnGetPeersResp | dht/dht_server.go:836-855 | completes the transaction, then stops or sends, as the response and the depth decide |
| SearchServer.Server.HandleResponse | dht/dht_server.go:530-534 | a response step followed by the handler's own sends; an unknown transaction changes nothing |
| SearchServer.Server.HandleResponseMessage | dht/dht_server.go:512-534 | a response without a sender ID, or from a known ID at another address, changes nothing; any other is handled |
| SearchServer.Server.HandleError | dht/dht_server.go:523-527 | an error completes the transaction once and sends nothing |
| SearchServer.Server.CleanupExpired | dht/transaction_manager.go:105-119 | completes exactly the expired transactions, each once, and keeps the others |
| SearchServer.Server.GetPeers | dht/dht_server.go:951-1007 | panics exactly on a zero infohash, without a change; else starts the search at every closest node with all their IDs visited |
| Layout.TotalLength | metainfo/info.go:133-142 | the sum of the file lengths, for both kinds of torrent |
| Layout.GetFileByOffset | metainfo/info.go:154-180 | the true file and offset if and only if the offset is within the total; what it answers beyond; a panic exactly past the limit |
| Layout.PastTheEnd | metainfo/info.go:154-180 | two files of four bytes together, offset 5: the answer is the second file at offset 1, flat position 2 |
| Layout.FlatAt | metainfo/info.go:154-180 | a file's bytes stand at its start offset in the flat view |
| Layout.WriteOneFile | metainfo/writer.go:95-129 | writing inside one file overwrites that range of the flat view and nothing else |
| Storage.ExtendsOnDisk | metainfo/writer.go:95-129 | a write that continues a run of stored bytes extends the run |
| Storage.Store.WriteStep | metainfo/writer.go:95-129 | one round writes a non-empty part of one file, or fails without a change, but for the empty file that a negative offset may create |
| Storage.Store.WriteAt | metainfo/writer.go:95-129 | how much is written, for every file list; with distinct paths, overwrites the flat array at the offset as far as it reaches, over any number of files, and touches no other file |
| Storage.Store.ReadFile | metainfo/reader.go:66-96 | reads what the file has from the offset, end-of-file if less than asked, nothing else in the buffer touched |
| Storage.Store.ReadStep | metainfo/reader.go:66-96 | one round reads the flat bytes of one file, and fails only where bytes are missing |
| Storage.Store.ReadAt | metainfo/reader.go:66-96 | the buffer holds the flat bytes read, is otherwise unchanged, and is filled as far as the torrent reaches if they are on disk |
| Storage.Store.WriteBlock | metainfo/writer.go:90-92 | as much of a block as fits is written at piece number times piece length plus offset, with the error that says so; with distinct paths the flat bytes there are overwritten and no others |
| Storage.PieceOffsetCovers | metainfo/info.go:147-149 | every flat position is the offset of its place in its piece |
| Storage.Store.OpenedAdds | metainfo/writer.go:61-75 | a write at a negative offset leaves at most one new, empty file |
| Storage.Store.WriteThenRead | metainfo/reader.go:66-96 | a read returns what was just written there, whatever was on disk before, also when the end of the torrent cuts it short |
| PieceReader.CalculateReadParameters | rpc/torrent_manager.go:2056-2069 | reads just the part of the piece between the file's start and end, inside the file |
| PieceReader.SegmentIsFlat | rpc/torrent_manager.go:2072-2090 | a segment, padded with zeros, is the flat range it stands for |
| PieceReader.ReadPieceFromFiles | rpc/torrent_manager.go:2003-2053 | succeeds exactly if every file it touches is readable, and then returns the flat bytes of the piece; nothing for a single-file torrent |
| PieceReader.ReadPiece | rpc/torrent_manager.go:2003-2043 | the piece's bytes in the torrent's own flat view are returned if and only if the torrent lists files and those touched are readable |
| PieceReader.SingleFileUnread | rpc/torrent_manager.go:2014-2017 | a one-file torrent of three bytes, all on disk: its piece is read as empty |
| PieceReader.FullFilesReadable | rpc/torrent_manager.go:2003-2043 | files of full length are always readable |
| PieceReader.ReadersAgree | metainfo/reader.go:66-96 | over files of full length the verifier's reader and the torrent's reader return the same bytes of a piece, without an error |
| PieceReader.PiecesTile | metainfo/piece.go:54-65 | pieces are non-empty, follow each other, and the last ends with the torrent |
| PieceReader.UpdateFileCompletion | rpc/torrent_manager.go:2094-2119 | each listed file gets its share, others keep their count |
| PieceReader.CompletionSums | rpc/torrent_manager.go:2094-2119 | the shares of the first n files add up to the completed bytes, within those files |
| Pieces.FileOffset | metainfo/file.go:65-74 | the start of the first file with that path; a panic exactly if there is none |
| Pieces.TilesSum | metainfo/file.go:83-115 | ranges that tile an interval have lengths that add up to it |
| Pieces.FilePieces | metainfo/file.go:83-115 | for every file and torrent: the ranges from the first file with its path on, each field cut to 32 bits; a panic exactly for a non-empty file that is not in the torrent or a piece length of zero |
| Pieces.PieceRangesTile | metainfo/file.go:83-115 | the ranges tile the file's bytes inside their pieces, with an empty last one exactly if the file ends on a piece boundary |
| Pieces.NarrowAllIff | metainfo/file.go:96-113 | the stored ranges are the true ones if and only if every field is below 2^32 |
| Pieces.SmallTorrentsFit | metainfo/file.go:96-113 | that is so when the piece length and the last piece number are |
| Pieces.PiecesBetween | metainfo/file.go:88-114 | the division and the loop give the ranges between two flat offsets |
| Pieces.PiecesFrom | metainfo/file.go:92-114 | the loop gives the ranges between two places in pieces, each field cut to 32 bits |
| Pieces.Blocks | metainfo/piece.go:163-176 | for every range: its blocks with the offset wrapping around at 2^32; they tile a range that ends below |
| Pieces.BlockRangesTile | metainfo/piece.go:163-176 | blocks tile the range, each of at most 16384 bytes, all but the last full |
| Pieces.FittingBlocks | metainfo/piece.go:163-176 | a range that ends below 2^32 has its true blocks stored |
| Transfer.TileStarts | metainfo/file.go:83-115 | in a tiling each range starts where the lengths before it end |
| Transfer.WriteOne | metainfo/writer.go:90-92 | a block inside the torrent overwrites the flat bytes at its total offset |
| Transfer.WriteRange | metainfo/piece.go:163-176 | writing the blocks of a range one by one overwrites exactly that range of the flat view |
| Transfer.WriteFile | metainfo/file.go:83-115 | writing a file through its pieces and their blocks overwrites exactly the file's own bytes, across files |
| Merge.Sort | metainfo/piece.go:181-190 | an ordered permutation |
| Merge.MergeGroup | metainfo/piece.go:218-258 | merging one group of equal piece index is the recursive absorption |
| Merge.MergeGroups | metainfo/piece.go:193-216 | cutting the sorted list at changes of the piece index and merging the groups is merging the list |
| Merge.Merge | metainfo/piece.go:193-216 | merging some sorted order; for ranges that end below 2^32 the multiset of covered bytes is kept, and disjoint non-empty input comes out fully coalesced |
| Merge.CoverMultiset | metainfo/piece.go:193-216 | what a list covers does not depend on its order |
| Merge.CoalesceCover | metainfo/piece.go:218-258 | merging keeps how often each byte is covered |
| Merge.SortedSeparate | metainfo/piece.go:193-216 | disjoint ranges, once sorted, stand in order without overlap |
| Merge.CoalesceSeparate | metainfo/piece.go:218-258 | merging such a list leaves nothing to merge |
| Merge.CoalescedUnique | metainfo/piece.go:193-216 | a list with nothing left to merge is determined by the bytes it covers |
| PeerWire.BigEndian | peerprotocol/message.go:273-282 | the order of two numbers is the order of their four bytes |
| PeerWire.FrameLength | peerprotocol/message.go:392-413 | the prefix counts the bytes after it, the type comes first, the payload follows |
| PeerWire.FillPayload | peerprotocol/message.go:293-379 | reading a payload sets exactly the fields that travel with the message |
| PeerWire.DecodeFrame | peerprotocol/message.go:238-270 | a frame followed by anything is read up to its end and no further, into any record |
| PeerWire.RoundTripIff | peerprotocol/message.go:238-469 | a message that fits comes back as it was if and only if it is not a Suggest or AllowedFast, which fail |
| PeerWire.AcceptsIff | peerprotocol/message.go:238-379 | for every input: a message is read if and only if the input starts with exactly the bytes that stand for it and the limit allows them; all else is refused |
| PeerWire.FormatLaw | peerprotocol/message.go:293-469 | type by type, the bytes are those of BEP 3, 5, 6 and 10, read and written, but for the missing index of Suggest and AllowedFast |
| PeerWire.StreamRoundTrip | peerprotocol/message.go:238-469 | a concatenation of encoded messages decodes to the same messages in order with nothing left over |
| PeerWire.MarshalBinaryType | peerprotocol/message.go:415-469 | appends the payload of the type |
| PeerWire.Encode | peerprotocol/message.go:392-413 | reserving and overwriting the length gives the frame |
| PeerWire.DecodeRequestLikeMessage | peerprotocol/message.go:321-329 | the three numbers of exactly the announced bytes, or a failure |
| PeerWire.DecodePieceMessage | peerprotocol/message.go:342-356 | index, offset and the rest of the announced bytes, or a failure |
| PeerWire.DecodeByMessageType | peerprotocol/message.go:293-379 | through the limited reader: the fields of exactly the announced bytes, or a failure |
| PeerWire.Decode | peerprotocol/message.go:238-290 | reads one frame from the stream as the format says, or fails |
| PeerConn.InsertAscending | peerprotocol/message.go:37-47 | adding an index keeps the list strictly ascending and adds exactly it |
| PeerConn.Append | peerprotocol/message.go:37-47 | search, append and sort give that list |
| PeerConn.SortPieces | peerprotocol/message.go:31-34 | sorting distinct indexes gives the same ones, strictly ascending |
| PeerConn.OpeningOnlyFirst | peerprotocol/peerconn.go:544-552 | BitField, HaveAll and HaveNone are refused as late if and only if a message other than a keepalive came before |
| PeerConn.HandshakeFlag | peerprotocol/peerconn.go:667-685 | the handshake flag is set if and only if one has been processed |
| PeerConn.OutcomeLaw | peerprotocol/peerconn.go:457-685 | over every run a message is refused for the one reason that applies to it, with that error, and otherwise reaches the handler, whose failure is then the outcome |
| PeerConn.HandshakeOnce | peerprotocol/peerconn.go:667-685 | at most one extended handshake is processed, and payloads are delivered only after it |
| PeerConn.StateIsLastWord | peerprotocol/peerconn.go:499-541 | PeerChoked and PeerInterested equal the last relevant message of the whole sequence |
| PeerConn.BitFieldIsFirst | peerprotocol/peerconn.go:544-552 | the stored bit field is that of the first real message if that is a BitField, and empty otherwise |
| PeerConn.SetsAreAccepted | peerprotocol/peerconn.go:591-646 | Suggests and Fasts are the accepted indexes, each once, ascending |
| PeerConn.EndsAgree | peerprotocol/peerconn.go:200-246 | over every run of two ends, with nothing under way the receiver's view is the sender's state |
| PeerConn.ReceiverKnowsChoices | peerprotocol/peerconn.go:200-246 | over every run of two ends, with nothing under way the receiver knows the sender's last choices among sends that succeeded |
| PeerConn.ReceiverLearns | peerprotocol/peerconn.go:200-246 | after any run and as many deliveries as messages are under way, the receiver has learned those choices |
| PeerConn.SetterLaw | peerprotocol/peerconn.go:200-246 | a setter has its way if the send succeeds, and sends one message if and only if that changes something |
| PeerConn.TraceAgrees | peerprotocol/peerconn.go:200-246 | the sender's state is what the receiver will see once everything under way is delivered |
| PeerConn.Connection.HandleBep3Message | peerprotocol/peerconn.go:499-560 | state and outcome for the base message types |
| PeerConn.Connection.HandleSuggestMessage | peerprotocol/peerconn.go:591-599 | an accepted index joins Suggests, before the handler is called |
| PeerConn.Connection.HandleAllowedFastMessage | peerprotocol/peerconn.go:638-646 | an accepted index joins Fasts, before the handler is called |
| PeerConn.Connection.HandleBep6Message | peerprotocol/peerconn.go:574-654 | state and outcome for the fast extension |
| PeerConn.Connection.HandleBep10Message | peerprotocol/peerconn.go:657-685 | state and outcome for extended messages |
| PeerConn.Connection.HandleMessage | peerprotocol/peerconn.go:457-480 | one step of the state machine the run laws are about, keeping both index lists ascending |
| PeerConn.Connection.Set | peerprotocol/peerconn.go:200-246 | sends only on a change, and changes only if the send succeeds |
| Metadata.ParseHeader | bencode/decode.go:592-703 | reading the header struct leaves a proper suffix |
| Metadata.PayloadRoundTrip | peerprotocol/extension.go:162-195 | a data message comes back as it was, whatever its data; another type comes back with its type and piece alone |
| PayloadLaws.PayloadReads | peerprotocol/extension.go:189-201 | any keys in any order before any data: each field is what its last pair says, the data is what follows the dictionary, and the payload is refused if and only if some value is of the wrong kind for its key |
| PayloadLaws.FieldReads | bencode/decode.go:346-363 | a field takes an integer, the message type an unsigned one of which it keeps the low byte, and nothing else |
| PayloadLaws.BytesRead | bencode/decode.go:375-497 | the key "-" takes a string or a list of unsigned integers, and nothing else |
| PayloadLaws.OtherPayloads | peerprotocol/extension.go:189-201 | a payload that does not start with a dictionary is refused |
| Metadata.DecodeField | bencode/decode.go:346-363 | a field of the header, the low byte kept for the message type |
| Metadata.DecodeBytesField | bencode/decode.go:375-497 | the value of the key "-" must be a string or a list of unsigned integers |
| Metadata.DashRefusesIntegers | bencode/decode.go:322-324 | a header in which the next key to be read is "-" with an integer is refused |
| Metadata.DecodeEntry | bencode/decode.go:652-703 | a known key fills its field, the key "-" takes a value for the data field, an unknown one is decoded and dropped |
| Metadata.DecodeFromPayload | peerprotocol/extension.go:189-201 | the stateful decoder and its byte count split the payload as the format says |
| Assembly.RunKeepsValid | downloader/torrent.go:316-380 | over every run each slot is empty or has exactly its size |
| Assembly.JoinSlot | downloader/torrent.go:393-405 | slot i stands at i * 16384 in the joined bytes |
| Assembly.CompleteSizeIff | downloader/torrent.go:316-405 | over every run, complete pieces join to the announced size if and only if that size is not negative |
| Assembly.NegativeSizeCompletes | downloader/torrent.go:316-340 | a size of -20000 is complete at once with no bytes |
| Assembly.CompletesToMetadata | downloader/torrent.go:343-405 | honest pieces in any order, with any repeats, can only complete to the metadata itself |
| Assembly.FilledIff | downloader/torrent.go:343-363 | a slot is filled if and only if it was before or a valid piece for it arrived |
| Assembly.CompleteIff | downloader/torrent.go:383-390 | after the handshake, complete if and only if a valid piece for every index arrived |
| Assembly.HandshakeLaw | downloader/torrent.go:316-340 | the first handshake stops the exchange if and only if it does not decode or has no extension id, panics if and only if the size would need a negative number of slots, and else opens as many empty slots as the size needs |
| Assembly.IgnoredBefore | downloader/torrent.go:343-350 | before the handshake everything else is ignored |
| Assembly.GoesOnIff | downloader/torrent.go:316-380 | after the handshake the loop goes on if and only if no second handshake comes, every payload decodes and every data message is for a piece there is, of its length |
| Assembly.AssemblesMetadata | downloader/torrent.go:316-405 | such messages, if honest, end in the metadata itself as soon as every piece has come, and not before |
| Assembly.MetadataExchange.ProcessExtendedHandshake | downloader/torrent.go:316-340 | opens the slots, stops or panics as the step function says |
| Assembly.MetadataExchange.ProcessMetadataPiece | downloader/torrent.go:343-380 | stores a valid piece, stops on an invalid one, panics on an index out of range |
| Assembly.MetadataExchange.IsMetadataComplete | downloader/torrent.go:383-390 | true exactly if no slot is empty |
| Assembly.MetadataExchange.FinalizeMetadata | downloader/torrent.go:393-397 | the concatenation of the slots |
| Queues.NumberSpec | rpc/queue_manager.go:355-361 | every listed item gets its index, all others stay |
| Queues.RenumberListing | rpc/queue_manager.go:355-369 | renumbering any duplicate-free listing of the keys restores the invariant |
| Queues.RemoveListing | rpc/queue_manager.go:295-327 | removing keeps the invariant, removes the one ID and keeps the order of the others |
| Queues.MoveListing | rpc/queue_manager.go:470-551 | a move succeeds if and only if the ID is queued, puts it at the clamped position and keeps the others in order |
| Queues.AddListingIff | rpc/queue_manager.go:132-184 | adding keeps the invariant if and only if the ID was not queued, however ties are sorted |
| Queues.ProcessExact | rpc/queue_manager.go:421-467 | a pass activates exactly the first min(free slots, length) IDs, keeps the others in order, and stays within the limit |
| Queues.CountExactIff | rpc/queue_manager.go:421-467 | the counter equals the size of the active set if and only if no activated ID was active before |
| Queues.StepValidIff | rpc/queue_manager.go:132-551 | every operation keeps both listings and their separation if and only if it does not re-add a queued ID |
| Queues.StepExcess | rpc/queue_manager.go:132-551 | every item stays listed, and the surplus of list entries over items grows by one with a re-addition and is changed by nothing else |
| Queues.RunValidIff | rpc/queue_manager.go:132-551 | over every run whose additions sort, from any valid manager, the invariant holds at the end if and only if no addition was of a queued ID: what one breaks is never healed |
| Queues.RunFromEmptyIff | rpc/queue_manager.go:103-129 | in particular from a new manager |
| Queues.ProcessingRespectsLimits | rpc/queue_manager.go:394-467 | processing never leaves more active than the limit or than were active, and deactivates nothing |
| Queues.ReAddLeavesGhost | rpc/queue_manager.go:154-161 | a torrent added twice and removed is still listed, and a pass activates it again |
| Queues.GoesIff | rpc/queue_manager.go:329-353 | the comparison of the sort means higher priority first, then earlier arrival |
| QueueLaws.ProcessAny | rpc/queue_manager.go:421-467 | what a pass does to any queue, also one a re-addition has broken: which IDs it activates, which leave the queue, and that an ID without an item takes the slots that are left |
| QueueLaws.ListingWakes | rpc/queue_manager.go:421-467 | in a well-formed queue every free slot is filled from the front |
| QueueLaws.ActiveIff | rpc/queue_manager.go:132-467 | over every run from every state, an ID is active as a download or a seed if and only if some pass or forced activation made it that, or it was at the start, and no later removal ended it |
| QueueLaws.QueuedIff | rpc/queue_manager.go:132-467 | over every run from every state, an ID is queued as a download or a seed if and only if it was added there, or was there at the start, and no removal, forced activation, addition to the other queue or pass took it off since |
| QueueLaws.OrderLaw | rpc/queue_manager.go:132-551 | no operation changes the place of any other ID among the rest |
| QueueLaws.ItemLaw | rpc/queue_manager.go:132-551 | priority and arrival of a queued ID are those it was last added with |
| QueueLaws.ClampNearest | rpc/queue_manager.go:484-491 | a position asked for is replaced by the nearest one there is |
| Queues.TorrentQueue.UpdatePositions | rpc/queue_manager.go:355-369 | the position loop |
| Queues.TorrentQueue.FindIndex | rpc/queue_manager.go:302-307 | the first position of the ID, or none |
| Queues.TorrentQueue.RemoveUnsafe | rpc/queue_manager.go:295-327 | removal from map and list, then renumbering |
| Queues.TorrentQueue.MoveTo | rpc/queue_manager.go:470-551 | clamping, moving and renumbering, or "not found" and no change |
| Queues.TorrentQueue.Sort | rpc/queue_manager.go:329-353 | a permutation, ordered by priority and arrival; a nil dereference exactly if a listed ID has no item and there is something to compare |
| Queues.TorrentQueue.Append | rpc/queue_manager.go:132-184 | for every queue, well-formed or not: a sorted addition, or a panic exactly if another listed ID has no item |
| Queues.TorrentQueue.ProcessQueue | rpc/queue_manager.go:421-467 | the processing loop, for any queue, well-formed or not |
| Queues.QueueManager.AddToQueue | rpc/queue_manager.go:132-184 | for every manager: one step for some order the sort may produce, or a panic exactly if the queue lists another ID without an item, which a valid manager never does |
| Queues.QueueManager.RemoveFromQueue | rpc/queue_manager.go:187-200 | one step of the manager: the ID is in no queue and no active set, nothing else becomes or stops being active |
| Queues.QueueManager.SetQueuePosition | rpc/queue_manager.go:203-218 | one step of the manager, and found exactly if either queue holds the ID |
| Queues.QueueManager.ForceActivate | rpc/queue_manager.go:245-269 | one step of the manager: the ID joins the active set of its kind, the other set is unchanged, and it is in no queue |
| Queues.QueueManager.ProcessQueues | rpc/queue_manager.go:394-419 | one step of the manager |
| Bandwidth.NewBucket | rpc/bandwidth_limiter.go:30-46 | a new limiter holds its maximum of tokens, a second's worth if it limits |
| Bandwidth.RefillValid | rpc/bandwidth_limiter.go:50-71 | a refill keeps 0 <= tokens <= maxTokens |
| Bandwidth.CallValid | rpc/bandwidth_limiter.go:75-113 | a call keeps 0 <= tokens <= maxTokens, whether it passes, takes or waits |
| Bandwidth.RecordBalanced | rpc/bandwidth_limiter.go:75-113 | every call keeps the account of granted bytes against time and waiting time |
| Bandwidth.GrantAccount | rpc/bandwidth_limiter.go:50-113 | over every run, granted bytes are paid for by the initial tokens, the time passed, the time waited and a nanosecond per granted wait |
| Bandwidth.GrantBound | rpc/bandwidth_limiter.go:50-113 | over every run, at most the initial tokens plus twice the rate over the elapsed time plus a nanosecond's worth per granted wait are granted |
| Bandwidth.FactorTwoReached | rpc/bandwidth_limiter.go:50-113 | from every limiting bucket, for any number of seconds, a run grants exactly its tokens plus twice the rate over the time |
| Bandwidth.PlainBoundWithoutWaits | rpc/bandwidth_limiter.go:50-113 | runs without a granted wait obey burst plus rate times time |
| Bandwidth.PlainBoundFails | rpc/bandwidth_limiter.go:50-113 | from every limiting bucket, and every first request above its tokens, there is a run with one granted wait that exceeds burst plus rate times time |
| Bandwidth.PlainBoundIff | rpc/bandwidth_limiter.go:50-113 | burst plus rate times time bounds every run with at most k granted waits if and only if k is zero |
| Bandwidth.RefillExact | rpc/bandwidth_limiter.go:50-71 | a refill earns exactly the whole bytes that rate times time is worth, up to a full bucket |
| Bandwidth.WaitExact | rpc/bandwidth_limiter.go:98-100 | the wait is the whole number of nanoseconds that the missing bytes take at the rate, neither more nor less |
| Bandwidth.WaitEmpties | rpc/bandwidth_limiter.go:98-113 | a call that has to wait takes every token, cancelled or not, and is granted unless it is cancelled |
| Bandwidth.AtOnceIff | rpc/bandwidth_limiter.go:75-113 | any calls at one time are all granted without a wait if and only if the tokens of that time cover them together, and the tokens left are the difference |
| Bandwidth.BandwidthLimiter.constructor | rpc/bandwidth_limiter.go:30-46 | a full bucket if limiting, an empty one otherwise |
| Bandwidth.BandwidthLimiter.UpdateTokenBucket | rpc/bandwidth_limiter.go:50-71 | the refill |
| Bandwidth.BandwidthLimiter.WaitForTokens | rpc/bandwidth_limiter.go:75-113 | decision and new state of a call, keeping the token bounds; no change when not limiting or nothing is asked for |
| Bandwidth.BandwidthLimiter.UpdateConfiguration | rpc/bandwidth_limiter.go:116-126 | keeps the tokens left, plus what the time between its two clock readings earns, up to the new maximum; none if not limiting |
| Blocklist.MappedRoundTrip | rpc/blocklist.go:335-352 | an IPv4 address survives its 16-byte form, and only such forms are shortened |
| Blocklist.CompareIsOrder | rpc/blocklist.go:392-403 | comparing is antisymmetric, is the order of the 16-byte forms whatever the lengths, and gives zero exactly for the same address |
| Blocklist.CompareTransitive | rpc/blocklist.go:392-403 | the comparison is transitive over both lengths |
| Blocklist.CompareIPs | rpc/blocklist.go:355-403 | the byte loop with normalisation and length tie-break computes that order |
| Blocklist.CidrToRange | rpc/blocklist.go:318-332 | the loop sets the host bits of every byte the mask reaches |
| Blocklist.BlockIff | rpc/blocklist.go:318-332 | for a contiguous mask, lying between the two ends is having the network part, for every address of the family |
| Blocklist.EveryPrefixIsContiguous | rpc/blocklist.go:318-332 | the mask of every prefix length is contiguous, so that these laws cover every CIDR block |
| Blocklist.CidrMembership | rpc/blocklist.go:318-352 | the same for membership, with the change between families |
| Blocklist.InsideIff | rpc/blocklist.go:335-403 | membership is that the 16-byte form of the address lies between those of the two ends, however address and range are written |
| Blocklist.IpInRange | rpc/blocklist.go:335-352 | membership in a range, false for an IPv6 address in an IPv4 range |
| Blocklist.IsBlocked | rpc/blocklist.go:104-126 | blocked exactly if enabled and unreadable or inside some range |

## Left out

- Bencode reflection, struct tags, embedded structs, Marshaler and Unmarshaler hooks: values stand for the interface target; only the `ut_metadata` header struct is modelled.
- Bencode targets other than an interface, RawMessage and that header (typed slices, unsigned and boolean fields): they only add conversions.
- Bytes a failed decode leaves in the decoder are counted but not described.
- Goroutines, locks and tickers: a locked method is one step; in the get_peers search the sends of concurrent handlers are interleaved explicitly.
- Search.SearchIsFinite: one search at a time; other queries that share the transaction store are not modelled, but the transaction id of a send is arbitrary, so they may take any ids.
- Search.SearchIsSound: `Visited` is a value; the Go slices of sibling queries may share a backing array, which the model does not capture.
- SearchServer.Server.HandleResponseMessage: the token store is left out; what the routing table makes of the sender is a parameter.
- Recursion of find_node: its depth is never set in the source, so it does not recurse.
- RoutingTable.RunInvariant: an address is its text; node events, storage of nodes and the sending of pings are left out.
- Storage.Store.WriteAt: the flat view is stated for distinct paths only, as two files with one path overwrite each other; errors of the operating system are left out, and a branch that cannot be reached is not modelled.
- Storage.Store.WriteThenRead: requires distinct paths and an offset that is not refused, for the same reason.
- Layout.GetFileByOffset: file lengths are not negative and sums do not overflow 64 bits.
- Pieces.FilePieces: requires a piece length that is not negative.
- Transfer.WriteFile: requires distinct paths, a positive piece length below 2^32 and fewer than 2^32 pieces; otherwise the stored ranges are not the true ones.
- Transfer.WriteRange: requires a range inside the torrent that ends below 2^32, as only such a range has its true blocks stored.
- PieceReader.ReadPiece: requires as many pieces as the length needs; otherwise the last piece has no sensible size.
- Merge.Merge: what is covered is stated for ranges that end below 2^32; lengths of longer ones wrap around when joined.
- PieceReader.ReadPieceFromFiles: a file is named by one path. The source joins the torrent's name twice here (rpc/torrent_manager.go:1982 and 2018), so the verifier looks under other paths than the writer used; here `disk` holds whatever stands under the paths looked at.
- Path joining otherwise, prefixes and file modes: a file is named by its joined path.
- Assembly.MetadataExchange.ProcessExtendedHandshake: whether the handshake decodes is a parameter, and running out of memory for very many slots is left out.
- SHA-1 of the joined metadata and of pieces: the model ends at the bytes that are hashed.
- PeerConn.EndsAgree: the handlers leave the connection's fields alone; timeouts and the opening handshake are left out.
- Bit field helpers, the chunked encoding of hash lists and the compact encodings of peers and addresses: easy members.
- Bandwidth.GrantBound: exact arithmetic in place of 64-bit floating point, a clock that does not run backwards, a fixed configuration.
- Bandwidth.RefillValid: exact arithmetic in place of the floating-point product of rate and elapsed seconds.
- Bandwidth.CallValid: the same.
- Bandwidth.RecordBalanced: the same, and for the quotient that gives the wait.
- Bandwidth.GrantAccount: the same.
- Bandwidth.RefillExact: the same.
- Bandwidth.WaitExact: the same.
- Bandwidth.AtOnceIff: the same.
- Bandwidth.WaitEmpties: the same.
- Bandwidth.PlainBoundWithoutWaits: the same.
- Bandwidth.PlainBoundFails: the same.
- Bandwidth.PlainBoundIff: the same.
- Bandwidth.FactorTwoReached: the same.
- Bandwidth.BandwidthLimiter.UpdateTokenBucket: the same.
- Bandwidth.BandwidthLimiter.WaitForTokens: the same.
- Bandwidth.BandwidthLimiter.UpdateConfiguration: the same.
- Queue statistics and activation callbacks: counters beside the state.
- Queues.TorrentQueue.Sort: the order that a panic inside the sort leaves is not described, only that it is a permutation.
- Blocklist.IsBlocked: parsing of lines and downloads are left out; ranges have both ends of one length, as parsing produces them.
- The HTTP and RPC server, trackers, web seeds, peer exchange, hooks, events and BEP 44 storage: plumbing or map bookkeeping.
