# HADSS storage path, modelled in Dafny

HADSS is a distributed blob store. Clients talk to a **Gateway** (Go). The
gateway hashes an object id with SHA-256, reads the digest as a big-endian
number and picks the first range of its node map that contains it. It then
tries that range's **Storage** nodes (Rust) in order through the
**StorageConnector** HTTP client.

Each storage node runs a Raft group (openraft) whose store keeps these parts:

- the replicated log, in a sled tree keyed by the big-endian bytes of the index;
- the vote and the last purged log id;
- a state machine that records the ids of the blobs it has stored;
- a snapshot counter and the current snapshot.

Applying a committed `StoreData(id, bytes)` entry writes the blob to a file.
The file path is sharded from the id: the id is cut into two-byte pieces,
the first `depth` pieces become nested directories, and the rest is the
file name.

The model follows the source file by file:

| file | module(s) | what it holds |
|---|---|---|
| common.dfy | `Common` | bytes, `u64`, `Option`, `Outcome` (a return or a panic / `log.Fatal`), decimal text |
| big_endian.dfy | `BigEndian` | `to_be_bytes`, big-endian value, sled's byte order |
| utf8.dfy | `Utf8` | the well-formedness test of `std::str::from_utf8` |
| fs.dfy | `Fs` | the filesystem as a map from path to bytes, with a fixed set of failing directories and files |
| fs_io.dfy | `FsIo` | `split_id_into_directory_and_filename`, `store_slice`, `read_slice` |
| raft_types.dfy | `RaftTypes` | log ids and their order, entries, the state machine, snapshots, snapshot ids |
| log_range.dfy | `LogRange` | `transform_range_bound` / `serialize_bound` |
| apply_spec.dfy | `ApplySpec` | what applying entries does, entry by entry and for a batch |
| log_store.dfy | `LogStore` | the class `StorageNodeFileStore` and the log-tree helpers |
| http.dfy | `Http` | status codes, headers, responses |
| legacy_server.dfy | `LegacyServer` | the direct slice server of Storage/src/server.rs |
| slice_handlers.dfy | `SliceHandlers` | the Raft-backed slice handlers of Storage/src/network/slice.rs |
| connector.dfy | `Connector` | StorageConnector/connector.go |
| gateway.dfy | `Gateway` | the routing and replica loops of Gateway/controller.go |

Several things from outside are parameters:

- **Filesystem.** The contents are a field `files` of the class `Fs.FileSystem`. Which directory creations and writes fail is fixed by its `faults`. A write to a path that ends in `/`, or whose last component is `.` or `..`, fails as "is a directory". Paths are compared as byte strings; `.` and `..` inside a path are not resolved.
- **serde_json.** The bytes of a snapshot are either the encoding of a state machine or bytes that do not decode.
- **Raft engine.** The result of `Raft::client_write` is a function from the proposed request to its outcome.
- **HTTP round trip.** It is a function from the request sent to the reply received.
- **SHA-256.** The digest is an input of 32 bytes.

A Rust panic (`panic!`, `assert!`, `unwrap`) and Go's `log.Fatal` are the outcome `Aborted`.

The class accessors `GetLastPurgedLogId`, `ReadVote`, `LastAppliedState` and `GetCurrentSnapshot` are plain reads of the store's fields. They carry no contract of their own. The methods that change those fields state their effect through them.

### Behaviour of the code worth knowing

- **Entries are applied again.** `apply_to_state_machine` has no check that skips an entry already applied. Applying a batch twice pushes its ids twice (`ApplySpec.ReapplyDuplicatesIds`).
- **The id checks are loose.** `server.rs` answers "ID should be 64 bytes long ascii.", but it rejects an id only when its length is not 64 **and** it is ASCII (server.rs:16). `slice.rs` does the same with length below 66 (slice.rs:14). So every non-ASCII id passes. A non-ASCII id whose two-byte pieces split a character makes the handler panic (`LegacyServer.NonAsciiShortIdPanics`).
- **Ids are not checked for path syntax.** No check looks at the bytes of an id, so its two-byte pieces may be `.` or `..` or hold a `/`. The ids "ab..é" and "cd..é" get the paths "/d/ab/../é" and "/d/cd/../é", which Linux resolves to one file (`FsIo.DotDotChunkPaths`). A leading `..` piece reaches above the storage location. An id whose filename is `.` cannot be stored (`FsIo.DotFilenameIsADirectory`). `FsIo.PlainId` names the ids free of this: no `/` byte and no `.` or `..` piece.
- **The connector checks connections, not handlers.** Its `GetSlice` overwrites the handler check's error with the connection check's error. `PutSlice` sends no handler at all. `NewBasicConnection` ignores its policy argument.

## Model

| member | source | states |
|---|---|---|
| Common.Decimal | Storage/src/store/mod.rs:239-242 | decimal text of a number is non-empty and all digits |
| Common.DecimalRoundTrip | Storage/src/store/mod.rs:239-242 | decimal text reads back to the number |
| Common.DecimalInjective | Storage/src/store/mod.rs:239-242 | distinct numbers have distinct decimal text |
| BigEndian.ToBeBytes | Storage/src/store/mod.rs:202-203 | the n-byte big-endian encoding has n bytes |
| BigEndian.BeValue | Gateway/controller.go:42-43 | the big-endian value of b bytes is below 256^b |
| BigEndian.KeyOf | Storage/src/store/mod.rs:302 | a log key is 8 bytes |
| BigEndian.BeRoundTrip | Storage/src/store/mod.rs:202-203 | decoding the big-endian bytes of x gives x |
| BigEndian.KeyOfInjective | Storage/src/store/mod.rs:302 | distinct indices have distinct sled keys |
| BigEndian.LexLessAppend | Storage/src/store/mod.rs:178-206 | byte order on equal-length prefixes extended by one byte |
| BigEndian.BeOrder | Storage/src/store/mod.rs:178-206 | big-endian encodings compare under byte order as the numbers do |
| BigEndian.KeyOrder | Storage/src/store/mod.rs:178-206 | one key is below another in sled's order iff its index is smaller |
| Utf8.AsciiIsUtf8 | Storage/src/store/fs_io.rs:16 | ASCII bytes are valid UTF-8 |
| Fs.IoErrorText | Storage/src/server.rs:67-69 | every I/O error has a non-empty display text |
| Fs.FileSystem.constructor | Storage/src/store/fs_io.rs:36-55 | a filesystem starts empty, with its fault set |
| Fs.FileSystem.CreateDirAll | Storage/src/store/fs_io.rs:41 | directory creation fails exactly on a faulty directory and changes no file |
| Fs.FileSystem.Write | Storage/src/store/fs_io.rs:45 | a write fails as "is a directory", changing nothing, when the path ends in "/" or its last component is "." or ".."; it fails on a faulty file; otherwise it stores the bytes at the path |
| FsIo.JoinEmptySeparator | Storage/src/store/fs_io.rs:26-31 | joining with the empty separator is concatenation |
| FsIo.ChunksConcat | Storage/src/store/fs_io.rs:14-17 | the chunks of an id concatenate back to the id |
| FsIo.ChunksShape | Storage/src/store/fs_io.rs:14-17 | every chunk has 1 to width bytes, and all but the last have exactly width |
| FsIo.SplitExample | Storage/src/store/fs_io.rs:8-9 | ("1234567890", depth 3) splits into ("12/34/56", "7890") |
| FsIo.ExampleChunks | Storage/src/store/fs_io.rs:8-9 | the chunks of "1234567890" are "12", "34", "56", "78", "90" |
| FsIo.ChunksTakeConcat | Storage/src/store/fs_io.rs:19-24 | the first k chunks concatenate to the id's first k·width bytes (or all of it) |
| FsIo.ChunksDropConcat | Storage/src/store/fs_io.rs:26-31 | the chunks after the first k concatenate to the rest of the id |
| FsIo.ChunksSuffix | Storage/src/store/fs_io.rs:26-31 | the chunks after the first k are the chunks of the rest of the id |
| FsIo.ChunksPrefix | Storage/src/store/fs_io.rs:19-24 | the first k chunks of an id are the chunks of its first k·width bytes |
| FsIo.SplitLayout | Storage/src/store/fs_io.rs:10-34 | the directory is the taken chunks joined by "/" and the filename is the rest of the id |
| FsIo.ShortIdAllInDirectory | Storage/src/store/fs_io.rs:24-31 | an id of at most depth chunks has an empty filename and every chunk in the directory |
| FsIo.AsciiChunks | Storage/src/store/fs_io.rs:14-16 | every chunk of an ASCII id is ASCII |
| FsIo.AsciiIdNeverPanics | Storage/src/store/fs_io.rs:15-16 | splitting an ASCII id never panics |
| FsIo.SplitCharacterPanics | Storage/src/store/fs_io.rs:15-16 | the valid UTF-8 id "aé" panics because a chunk cuts a character |
| FsIo.ReadSliceOn | Storage/src/store/fs_io.rs:48-55 | the read panics iff the split does, and a successful read returns stored bytes |
| FsIo.StoreSlice | Storage/src/store/fs_io.rs:36-46 | the store's effect and result are those of creating the directory, then writing the file |
| FsIo.ReadSlice | Storage/src/store/fs_io.rs:48-55 | as ReadSliceOn, on the filesystem's current files |
| FsIo.ShardedNameStep | Storage/src/store/fs_io.rs:19-33 | one level deeper: the first chunk, a "/", then the name of the rest |
| FsIo.ShardedNameCons | Storage/src/store/fs_io.rs:19-33 | with one more chunk in front, the name is that chunk, a "/" unless it is the only directory level, then the name of the rest one level shallower |
| FsIo.DirectoryCons | Storage/src/store/fs_io.rs:19-31 | a chunk in front opens the directory and leaves the filename as it was one level shallower |
| FsIo.ShardedNameZero | Storage/src/store/fs_io.rs:26-31 | at depth 0 the sharded name is "/" followed by the whole id |
| FsIo.ShardedNameInjective | Storage/src/store/fs_io.rs:19-33 | distinct ids have distinct "directory/filename" names |
| FsIo.ShortIdPathIsDirectory | Storage/src/store/fs_io.rs:43-45 | the path of an id with an empty filename ends in "/" |
| FsIo.BlobPathsDistinct | Storage/src/store/fs_io.rs:40-52 | distinct ids get distinct path strings |
| FsIo.BlobPathIsShardedName | Storage/src/store/fs_io.rs:40-43 | a blob path is the storage location, "/", then the directory, "/" and filename of the id |
| FsIo.StoreOutcome | Storage/src/store/fs_io.rs:36-46 | the store succeeds iff the split, the directory and the write succeed, the write needing a path that does not name a directory; a failure leaves the files alone; a success maps the id's path to the body |
| FsIo.DotFilenameIsADirectory | Storage/src/store/fs_io.rs:36-46 | the id "é." at depth 1 has "." as filename, so its store fails ("is a directory" unless the directory creation already failed) and changes no file |
| FsIo.DotDotChunkPaths | Storage/src/store/fs_io.rs:36-55 | the distinct ids "ab..é" and "cd..é" split without panic into paths "/d/ab/../é" and "/d/cd/../é", which differ only in the level ".." leaves; neither id is plain |
| FsIo.StoreThenRead | Storage/src/store/fs_io.rs:36-55 | after a successful store, a read of the id returns the body |
| FsIo.StoreLeavesOtherIds | Storage/src/store/fs_io.rs:36-55 | for plain ids, a store does not change what a read of another id returns |
| FsIo.StoreEachSnoc | Storage/src/store/fs_io.rs:36-46 | a sequence of stores is the first stores, then the last |
| FsIo.NeverStoredNotFound | Storage/src/store/fs_io.rs:48-55 | for plain ids, an id that no store of a sequence wrote reads as from an empty store: NotFound or a panic |
| RaftTypes.Decode | Storage/src/store/mod.rs:418-425 | snapshot bytes decode iff they encode a state machine |
| RaftTypes.DashDecimalInjective | Storage/src/store/mod.rs:239-242 | "x-N" determines x and N |
| RaftTypes.SnapshotIdInjective | Storage/src/store/mod.rs:239-242 | a snapshot id determines the log id and the counter |
| LogRange.SerializeBound | Storage/src/store/mod.rs:198-206 | a bound keeps its kind, and its key is the 8 bytes that decode to the index |
| LogRange.KeyRangeMatchesIndexRange | Storage/src/store/mod.rs:178-206 | an index's key is in the transformed key range iff the index is in the range |
| ApplySpec.AbortedStays | Storage/src/store/mod.rs:376 | after a panicking store no later entry changes anything |
| ApplySpec.ApplyAllAppend | Storage/src/store/mod.rs:366-386 | applying two batches in turn is applying their concatenation |
| ApplySpec.NotAbortedBefore | Storage/src/store/mod.rs:366-386 | a batch without a panic had none in its prefixes |
| ApplySpec.LastAppliedIsLastEntry | Storage/src/store/mod.rs:366-369 | after a batch, last_applied_log is the last entry's log id |
| ApplySpec.DataGrowsByStoredIds | Storage/src/store/mod.rs:373-375 | every StoreData id is pushed onto data, in order, whatever the store returns |
| ApplySpec.DataStep | Storage/src/store/mod.rs:369-375 | one entry that does not panic pushes its id onto data exactly when it is a StoreData entry |
| ApplySpec.MembershipFromLastChange | Storage/src/store/mod.rs:382-384 | last_membership is the batch's last membership change stamped with its log id, or unchanged |
| ApplySpec.ResponseCount | Storage/src/store/mod.rs:371-386 | the batch adds one empty response per entry less the failed stores, after the old ones |
| ApplySpec.FilesFollowStores | Storage/src/store/mod.rs:374-379 | the files end up as if each StoreData entry had been stored in turn |
| ApplySpec.ReapplyDuplicatesIds | Storage/src/store/mod.rs:358-389 | applying a batch twice pushes its ids twice |
| LogStore.AppendedLeavesOthers | Storage/src/store/mod.rs:301-303 | appending leaves every index no entry carries as it was |
| LogStore.AppendedLastWins | Storage/src/store/mod.rs:301-303 | the last entry with an index is the one kept under it |
| LogStore.AppendedKeyedByIndex | Storage/src/store/mod.rs:301-303 | appending keeps every entry under its own index |
| LogStore.GreatestKey | Storage/src/store/mod.rs:158-162 | a non-empty key set has a greatest key |
| LogStore.LeastKey | Storage/src/store/mod.rs:183-187 | a non-empty key set has a least key |
| LogStore.LastKeyExists | Storage/src/store/mod.rs:158-162 | a non-empty key set has a key last in sled's order |
| LogStore.FirstKeyExists | Storage/src/store/mod.rs:183-187 | a non-empty key set has a key first in sled's order |
| LogStore.IndicesOfSnoc | Storage/src/store/mod.rs:183-189 | the indices of entries plus one are those of the entries plus its index |
| LogStore.RemoveKeysInRange | Storage/src/store/mod.rs:315-320 | removing the keys a range selects keeps exactly the entries outside it |
| LogStore.StorageNodeFileStore.OpenCreate | Storage/src/store/mod.rs:116-140 | the store starts from the database's log and meta slots, the default state machine, counter 0 and no snapshot |
| LogStore.StorageNodeFileStore.SetLastPurgedLogId | Storage/src/store/mod.rs:149-151 | the last purged id becomes the given id, nothing else changes |
| LogStore.StorageNodeFileStore.GetLogState | Storage/src/store/mod.rs:156-175 | the last log id is the highest-index entry's log id, or the last purged id for an empty log |
| LogStore.StorageNodeFileStore.TryGetLogEntries | Storage/src/store/mod.rs:178-190 | the entries returned are exactly the log's entries with index in range, in ascending index order |
| LogStore.GatherStep | Storage/src/store/mod.rs:183-186 | taking the first pending key in byte order keeps the gathered entries in ascending index order and below every pending key |
| LogStore.GatherDone | Storage/src/store/mod.rs:183-186 | a finished scan of the key range holds exactly the entries whose index is in the index range |
| LogStore.StorageNodeFileStore.SaveVote | Storage/src/store/mod.rs:276-280 | read_vote then returns the saved vote, nothing else changes |
| LogStore.StorageNodeFileStore.AppendToLog | Storage/src/store/mod.rs:296-305 | each entry is stored under its index, later ones overwriting earlier ones |
| LogStore.StorageNodeFileStore.DeleteConflictLogsSince | Storage/src/store/mod.rs:308-323 | exactly the entries below the index remain; metadata unchanged |
| LogStore.StorageNodeFileStore.PurgeLogsUpto | Storage/src/store/mod.rs:326-348 | panics iff last purged > Some(id); otherwise last purged becomes id and exactly the entries above the index remain |
| LogStore.StorageNodeFileStore.ApplyToStateMachine | Storage/src/store/mod.rs:358-389 | the state machine, the files and the responses are those of applying the entries in order |
| LogStore.StorageNodeFileStore.BuildSnapshot | Storage/src/store/mod.rs:211-264 | panics iff nothing was applied; otherwise the counter grows by 1, the snapshot is named after the last applied log id and the counter, holds the state machine, and is cached |
| LogStore.StorageNodeFileStore.InstallSnapshot | Storage/src/store/mod.rs:401-437 | undecodable data is an error that changes nothing; otherwise the state machine is the decoded one, the snapshot is cached and last_applied is meta's last log id |
| LogStore.SnapshotIdsDistinct | Storage/src/store/mod.rs:233-242 | snapshots built with different counters have different ids |
| LegacyServer.TransformIdIntoChunks | Storage/src/server.rs:5-10 | panics iff a piece is not UTF-8; the 1- or 2-byte pieces concatenate back to the id |
| LegacyServer.GetSlice | Storage/src/server.rs:13-45 | 406 for a rejected id; 200 with the blob store's bytes exactly when the id's blob can be read; 404 otherwise |
| LegacyServer.PutSlice | Storage/src/server.rs:47-89 | 406 and no change for a rejected id; otherwise the blob store's effect, 200 "Write finished" iff it succeeds, 500 with the directory or write error text |
| LegacyServer.GetAfterPut | Storage/src/server.rs:21-37 | GET and PUT use the same path: after a successful PUT, GET answers 200 with the body |
| LegacyServer.GetOfMissingBlob | Storage/src/server.rs:40-44 | GET of an accepted id whose file is absent answers 404 |
| LegacyServer.AcceptedIds | Storage/src/server.rs:16 | 64-byte ids and every non-ASCII id pass the check |
| LegacyServer.AcceptedAsciiIdNeverPanics | Storage/src/server.rs:16-19 | an accepted ASCII id has 64 bytes and never panics |
| LegacyServer.NonAsciiShortIdPanics | Storage/src/server.rs:16-19 | the 3-byte id "aé" passes the check and GET panics |
| SliceHandlers.GetSlice | Storage/src/network/slice.rs:12-21 | 406 for a rejected id; 200 with the file of the id's blob path iff it exists; 404 otherwise |
| SliceHandlers.PutSlice | Storage/src/network/slice.rs:24-55 | a rejected id gets 406 with nothing proposed; otherwise StoreData(id, body) is proposed; 200 on success, 307 to the leader iff a leader node is known, else 500 |
| SliceHandlers.AcceptedAsciiIdNeverPanics | Storage/src/network/slice.rs:14-17 | an accepted ASCII id has at least 66 bytes and GET never panics |
| SliceHandlers.RedirectKeepsId | Storage/src/network/slice.rs:39 | the redirect URL is "http://" + leader address + "/slice/" + the exact id |
| SliceHandlers.CommittedPutIsReadable | Storage/src/network/slice.rs:17-32 | once the proposed entry is applied with a successful store, GET answers 200 with the body |
| Connector.NewConnectionValidity | StorageConnector/connector.go:123-130 | a new connection is valid iff its address is non-empty, and prints as its address |
| Connector.Itoa | StorageConnector/connector.go:69 | the decimal text of the policy is non-empty |
| Connector.HexEncode | StorageConnector/connector.go:71 | two hex digits per byte |
| Connector.HexEncodeDigits | StorageConnector/connector.go:71 | byte i becomes its lower-case high then low nibble |
| Connector.HexRoundTrip | StorageConnector/connector.go:71 | the hex text decodes back to the handler |
| Connector.HexEncodeInjective | StorageConnector/connector.go:71 | distinct handlers have distinct hex text |
| Connector.GetUrlCarriesHandler | StorageConnector/connector.go:65-72 | the GET URL is the PUT URL, "&handler=", then the hex handler, which reads back from its end |
| Connector.GetUrlIdentifiesHandler | StorageConnector/connector.go:65-72 | two GET URLs of one connection are equal iff their handlers are |
| Connector.GetSlice | StorageConnector/connector.go:57-96 | aborts iff the connection is invalid, whatever the handler; a 200 reply gives its body, another status an error carrying the body |
| Connector.PutSlice | StorageConnector/connector.go:98-121 | aborts iff the connection is invalid; POSTs the bytes without the handler; 200 is success, another status an error carrying the body |
| Gateway.LookupFirstMatch | Gateway/controller.go:45-53 | the first range containing the digest gives its replicas; later ranges do not matter |
| Gateway.LookupNoMatch | Gateway/controller.go:44-56 | with no containing range the result is empty |
| Gateway.LookupSound | Gateway/controller.go:44-56 | a result is either the first containing range's replicas, or empty when none contains the digest |
| Gateway.HandlerInjective | Gateway/controller.go:61-67 | the handler, the 32-byte digest followed by the id, gives back both: equal handlers iff equal digests and ids |
| Gateway.GatewayHandlerCheck | StorageConnector/connector.go:48-59 | the connector's 64-byte handler check passes on a gateway handler iff the id has 32 bytes; its error is overwritten by the connection check |
| Gateway.GatewayController.constructor | Gateway/controller.go:27-31 | the controller holds the node map |
| Gateway.GatewayController.GetStorageNodeAddr | Gateway/controller.go:40-57 | the replicas of the first range containing the digest read big-endian |
| Gateway.GatewayController.GetId | Gateway/controller.go:59-80 | replicas tried in order; 200 with the first slice received and none contacted after it; 404 with no replicas; 502 when all fail |
| Gateway.GatewayController.PutId | Gateway/controller.go:82-111 | an unreadable body gives 502 with no replica contacted; replicas tried in order until one accepts ("Upload finished."); 502 when none does; an early 502 for a non-positive length stays first |
| Gateway.GetFromReplicas | Gateway/controller.go:65-73 | replicas asked in order; the first slice received ends the loop and is returned; an empty address panics; nothing is returned only when every replica was asked and failed |
| Gateway.PutAnswer | Gateway/controller.go:100-110 | after the statuses already recorded: 200 with "Upload finished." exactly when the last replica contacted accepted the body, 502 with every replica contacted when none did, a panic on an empty address |
| Gateway.PutToReplicas | Gateway/controller.go:100-107 | replicas posted to in order until one accepts; an empty address panics; a refusal by all means every replica was asked |

## Left out

- Concurrency is not modelled. This covers the locks around the state machine, the snapshot counter and the cache, the gateway's node-map mutex, and request concurrency. Each operation is one sequential step.
- The openraft engine is not modelled: elections, replication and `client_write` itself. Only the outcome of `client_write` enters the model, as a parameter.
- The node-to-node transport and dispatch files are not part of this model: Storage/src/network/mod.rs, raft_network_impl.rs, raft.rs and management.rs.
- sled is not modelled; the log tree is a map from index to entry. The JSON encoding of entries, votes and last purged ids is not modelled; the values are stored directly. Neither is the `unwrap` on their decoding, which cannot fail for bytes the store wrote itself.
- serde_json is not modelled. A snapshot's bytes are either an encoded state machine or bytes that do not decode. Serializing a state machine is taken never to fail, so the error path of `build_snapshot` at mod.rs:219-220 is not modelled.
- LogStore.StorageNodeFileStore.BuildSnapshot: the snapshot counter is a `nat`. The `u64` wrap-around after 2^64 snapshots is not modelled.
- RaftTypes.LeaderIdLess, RaftTypes.LogIdLe and RaftTypes.OptionLogIdLe: the order of leader ids and log ids is taken to be the one openraft derives (term, then node id; then index; `None` below every `Some`). openraft is not part of this model, and the panic condition of `PurgeLogsUpto` depends on that order.
- RaftTypes.LeaderIdText: the display of a leader id is taken as "{term}-{node_id}". openraft's `Display` is not part of this model.
- Blank and membership entries take their payload from the `EntryPayload` shapes. The membership is an opaque list of voter sets; joint-consensus rules belong to openraft.
- Fs.FileSystem.Write: paths are compared as byte strings. Two paths that Linux resolves to one file through `.`, `..` or repeated `/` (such as "/d/ab/../é" and "/d/é") are two files here. A NUL byte in a path and names over the length limits are accepted here, while Linux refuses them. Directories are not tracked, so a path through a missing or non-directory component is written here too.
- FsIo.ReadSliceOn: a read of a path that names an existing directory is NotFound here; Linux answers "Is a directory". A path with `..` is looked up as written, not resolved.
- FsIo.StoreOutcome: a NUL byte in the id, a name over the length limits, and a `..` path through a directory that does not exist still count as success here.
- FsIo.BlobPathsDistinct: distinct ids get distinct path strings. For ids that are not plain, two such strings can name one file (`FsIo.DotDotChunkPaths`).
- FsIo.StoreLeavesOtherIds: holds only for plain ids. Storing "ab..é" overwrites what "cd..é" reads on Linux.
- FsIo.NeverStoredNotFound: holds only for plain ids, for the same reason.
- The filesystem keeps only file contents. Directories are not tracked. Creating a directory fails exactly on a fixed set of faulty paths. Reading a missing file is NotFound. I/O errors are NotFound, PermissionDenied and IsADirectory, with their Linux display texts.
- The argument parsing of Storage/src/main.rs is not modelled. `storage_location` (trailing `/` removed) and `storage_directory_depth` are the fields of `FsIo.Config`.
- The `println!` / `log.Printf` output is not modelled.
- Gateway/main.go, the Monitor, Storage/src/app.rs, Storage/src/testing.rs and the end-to-end tests are not part of this model.
- StorageConnector/connector_test.go and constants.go are not part of this model. The tests expect errors that connector.go never returns, and constants.go redeclares the policy type.
- The gateway's node-map refresher goroutine is not modelled. It polls the monitor, decodes JSON and replaces the node map. The node map is a plain field, so the nil-pointer case of an unset map is not modelled.
- Gateway.GatewayController.GetStorageNodeAddr: requires the range bounds to be hex numerals. `big.Int.SetString` leaves the value unspecified for text that is not. A range with fewer than two bounds is modelled: it panics.
- SHA-256 is an input of 32 bytes; its computation is not modelled.
- Connector.GetSlice: when reading a body fails, Go also returns the bytes read so far. The model returns only the error, which is all the gateway looks at.
- The JSON bodies that slice.rs sends on PUT are the `client_write` result itself, not its text. gin's error bodies for `AbortWithError` are empty.
- The storage-node side of the connector's URL (the `consistency_policy` and `handler` query) is not modelled, because no handler in the repository reads it.
