# Verified core of interchaintest

interchaintest starts blockchains and relayers in Docker containers so that they can be tried together. Six of its parts
have logic of their own. This project models them in Dafny, in the form they have in Go, and proves
what they are for.

**08-wasm wire codec** (`Varint`, `Wire`, `Message`, `Codecs`). Marshalling fills an exactly sized
buffer from the back; unmarshalling is a forward cursor loop with a skipper for unknown fields.
`Codecs` has one class per message (the two one-field messages share one), with its in-place methods.
They are proved against `Message`, which says what bytes mean: a record tree (`Wire.Record`) for any
well-formed input, and a fold of what each record does to the message. An input decodes if and only
if it is a sequence of well-formed records that fold without error; round trip, last one wins and
transparency of unknown fields follow for every message and every input. Tags, lengths and values may
be padded varints, groups nest to any depth, and messages left half-filled by an error are covered.

**Block store and collector** (`Tables`, `BlockSchema`, `Queries`, `BlockStore`, `Collector`). Six
tables with autoincrement ids, foreign keys, cascading deletes, insert-or-replace, and one transaction
per block with a fault possible at every statement. They refine a map from (chain, height) to a list of
transactions with events and attributes. The ordered join and the aggregate view, defined as the
joins, grouping and ordering they are, are proved equal to what that map says, after any run. A
collector shares the database with others, whose operations come between its own in any order.

**Host ports** (`Ports`). Any number of container lifecycles interleave one step at a time around a
read-write lock. The state has the reader count, the writer flag, the ports listened on and the ports
bound. That ports are promised to one container only and are free when Docker binds them is proved,
not required, for every schedule, and no schedule gets stuck even when waiting writers hold readers back.

**TOML override** (`Toml`). The recursion over nested maps takes keys in any order, carries Go's dynamic
map types, and leaves a partly modified configuration when it fails.

**Interchain builder** (`Interchain`). Registration with rejection; the relayer-to-chains relation, the
wallets and the genesis amounts worked out by loops that take map entries in any order.

**Block poller** (`Poller`). The loop over a cursor and a chain that reports heights, with a closure that
captures state; which heights are polled at which turns, and which runs end, is stated exactly.

`Collections` holds optional values and lists without repetition, shared by the others.

Where the code differs from what it says or seems to say, the model follows the code:

- `testutil/toml.go:25-31` announces that a missing section is populated fresh, but makes a map of
  another dynamic type, which the next conversion refuses. `Toml.FreshSectionFails` is the instance;
  `Toml.RecursiveModifyToml` with `Toml.FitsIff` is the exact condition.
- `chain/cosmos/08-wasm-types/tx.pb.go:372` cuts field numbers to 32 bits. `Message.LongFieldNumbers` says
  for every longer number whether it is ignored, illegal, or taken for a field of the message;
  `Message.LongNumberTakenForOne` is an instance.
- `internal/blockdb/migrate.go:106` and `:117` constrain `length(height > 0)` and `length(data > 0)`, which
  hold of every row; the model has no constraint there, and `BlockStore.HeightZeroIsSaved` is an instance.
- `internal/blockdb/query.go:190-199` and `:75-101` do not ask why the rows ended, so when delivery stops early
  the first rows are returned without an error; `BlockStore.BlockDb.Transactions` and `RecentTestCases` say which,
  and `BlockStore.EarlyEndIsNotNoticed` is an instance.
- `testutil/poll_for_state.go:24` does not bound the last height. For the largest uint64 the cursor wraps
  to zero, so that a search may never end (`Poller.FailingStopsIff`) or return something from below its range
  (`Poller.FoundBelowTheRange`); `Poller.LargestRangeIff` says exactly when it has wrapped.

## Model

| member | source | states |
|---|---|---|
| Varint.SovIsEncodedLength | chain/cosmos/08-wasm-types/tx.pb.go:346-348 | the closed form (Len64(v\|1)+6)/7 is the number of 7-bit groups of v, for every v |
| Varint.EncodeVarint | chain/cosmos/08-wasm-types/tx.pb.go:305-315 | fills exactly the bytes that end at the offset with the encoding of v, returns where they start, changes no other byte |
| Varint.EncodeIsVarint | chain/cosmos/08-wasm-types/tx.pb.go:305-315 | what is written for a uint64 is a complete varint of at most ten bytes that denotes it |
| Varint.EncodeIsShortest | chain/cosmos/08-wasm-types/tx.pb.go:305-315 | no byte string denoting the same number is shorter, padded or not |
| Varint.ReadVarint | chain/cosmos/08-wasm-types/tx.pb.go:357-371 | the shift-by-7 loop computes the word, next index and error of the varint at the index, for every input |
| Varint.AddGroup | chain/cosmos/08-wasm-types/tx.pb.go:367 | joining a shifted group keeps the 64-bit word, also for the tenth group, of which all but one bit is cut off |
| Varint.DecodesVarint | chain/cosmos/08-wasm-types/tx.pb.go:357-371 | a complete varint, canonical or padded, is read as its word and consumed exactly, whatever follows |
| Varint.DecodedIsVarint | chain/cosmos/08-wasm-types/tx.pb.go:357-371 | conversely whatever is read without error is a complete varint with that word |
| Varint.DecodeEnds | chain/cosmos/08-wasm-types/tx.pb.go:358-371 | reading ends well, with an overflow or at the end of the input according to which of the next ten bytes are below 0x80 |
| Varint.RoundTrip | chain/cosmos/08-wasm-types/wasm.pb.go:377-387 | between any prefix and suffix the encoding of v is read back as v and sov(v) bytes are consumed |
| Wire.Skip | chain/cosmos/08-wasm-types/tx.pb.go:552-629 | the loop with its depth counter computes the recursive skip, with its error for every malformed input, and always ends |
| Wire.SkipsByWireType | chain/cosmos/08-wasm-types/tx.pb.go:576-626 | by the bytes alone, what each of the eight wire types makes the skipper do: lengths stepped over, and the errors |
| Wire.SkipsRecord | chain/cosmos/08-wasm-types/tx.pb.go:552-629 | any well-formed record, with groups nested to any depth, is stepped over exactly |
| Wire.SkipsFields | chain/cosmos/08-wasm-types/tx.pb.go:609-626 | inside open groups any sequence of well-formed records is stepped over and the depth is as before |
| Wire.ClosesGroup | chain/cosmos/08-wasm-types/tx.pb.go:609-626 | a successful skip with groups open has read well-formed fields and the end tag of the innermost, then goes on one level up |
| Wire.RecordOfSkip | chain/cosmos/08-wasm-types/tx.pb.go:552-629 | whatever is skipped within the input is one well-formed record with the tag read first |
| Wire.SkipIffRecord | chain/cosmos/08-wasm-types/wasm.pb.go:912-989 | skipping succeeds with n if and only if the first n bytes are one well-formed record |
| Message.TurnIsApply | chain/cosmos/08-wasm-types/tx.pb.go:355-461 | one turn of the decode loop does to the message what the record at the index means, with the same error, and advances by its length |
| Message.UnmarshalsRecords | chain/cosmos/08-wasm-types/tx.pb.go:352-467 | decoding the bytes of any records is the fold of their meanings, also in the error and the message left by it |
| Message.RecordsOf | chain/cosmos/08-wasm-types/tx.pb.go:352-467 | whatever decodes without error is a concatenation of well-formed records, so it was consumed exactly |
| Message.RefusedTags | chain/cosmos/08-wasm-types/tx.pb.go:374-384 | by the bytes alone: an end-group tag, number zero and a wrong wire type are refused with their own errors, and the message is kept |
| Message.RefusedUnknown | chain/cosmos/08-wasm-types/tx.pb.go:447-460 | an unknown field that cannot be skipped gives the skipper's error, and one that passes the end an unexpected end |
| Message.ExtentBounds | chain/cosmos/08-wasm-types/tx.pb.go:400-410 | by the length as read: when a payload is in bounds, cut off by the end, or refused as negative or wrapping |
| Message.SetsField | chain/cosmos/08-wasm-types/tx.pb.go:380-446 | a record for a known field sets that field to its payload, word or merged value, and keeps the others |
| Message.UnmarshalIff | chain/cosmos/08-wasm-types/wasm.pb.go:457-607 | m decodes to m' if and only if the input is a sequence of well-formed records whose meanings take m to m' |
| Message.KnownOnlyApplies | chain/cosmos/08-wasm-types/tx.pb.go:447-460 | dropping unknown records from any sequence changes neither result nor error |
| Message.UnknownFieldsIgnored | chain/cosmos/08-wasm-types/tx.pb.go:447-460 | unknown fields of every wire type, groups included, before, between or after the known ones are transparent |
| Message.LongFieldNumbers | chain/cosmos/08-wasm-types/tx.pb.go:372-380 | a number beyond the message's fields is ignored, illegal, or decoded as field k, according to its low 32 bits as an int32, which is all that counts |
| Message.LongNumberTakenForOne | chain/cosmos/08-wasm-types/tx.pb.go:372-380 | field number 2^32 + 1 sets field 1 |
| Message.MessageIsRecords | chain/cosmos/08-wasm-types/tx.pb.go:253-273 | the marshalled bytes are well-formed records, one per field that is not default |
| Message.MessageOverrides | chain/cosmos/08-wasm-types/tx.pb.go:411-446 | the records of fields k, k + 1, ... of b override just these fields of a |
| Message.UnmarshalOverrides | chain/cosmos/08-wasm-types/wasm.pb.go:671-689 | the encoding of b decodes into any message of its type, overriding it by the non-default fields of b |
| Message.RoundTrip | chain/cosmos/08-wasm-types/wasm.pb.go:225-270 | a marshalled message decodes into a fresh one as itself, nested heights included, also zero ones |
| Message.LastOneWins | chain/cosmos/08-wasm-types/tx.pb.go:411-446 | two encodings in a row decode to the first overridden field by field by the second |
| Codecs.FlatRoundTrip | chain/cosmos/08-wasm-types/tx.pb.go:238-303 | the round trip for messages without a nested one, with no assumption |
| Codecs.PatchBefore | chain/cosmos/08-wasm-types/tx.pb.go:253-273 | writing in front of what was written last is one write of the concatenation |
| Codecs.PutDelimited | chain/cosmos/08-wasm-types/tx.pb.go:258-264 | payload, length and tag written backwards are the forward block, and nothing else changes |
| Codecs.PutNumber | chain/cosmos/08-wasm-types/wasm.pb.go:292-296 | number and tag written backwards are the forward block, and nothing else changes |
| Codecs.PutNested | chain/cosmos/08-wasm-types/wasm.pb.go:245-254 | the nested marshaller writes into the buffer's prefix, length and tag go in front, also for a zero height; its error is passed on and nothing behind the prefix changes |
| Codecs.SizeDelimited | chain/cosmos/08-wasm-types/tx.pb.go:322-329 | 1 + l + sov(l) is the exact length of the block |
| Codecs.ReadExtent | chain/cosmos/08-wasm-types/tx.pb.go:385-410 | bounds of a delimited payload, with lengths that are negative as int, sums that wrap and payloads past the end refused |
| Codecs.SkipUnknown | chain/cosmos/08-wasm-types/tx.pb.go:447-460 | the default branch steps over the unknown field that starts at its tag, or fails as the source does |
| Codecs.MsgStoreCode.constructor | chain/cosmos/08-wasm-types/tx.pb.go:30-35 | a fresh message has empty fields |
| Codecs.MsgStoreCode.Size | chain/cosmos/08-wasm-types/tx.pb.go:316-331 | exactly the length of the marshalled bytes |
| Codecs.MsgStoreCode.WireBytesAre | chain/cosmos/08-wasm-types/tx.pb.go:258-271 | the wire bytes tag by tag: 0x0a, length and signer unless empty, then 0x12, length and code unless empty |
| Codecs.MsgStoreCode.MarshalToSizedBuffer | chain/cosmos/08-wasm-types/tx.pb.go:253-273 | the tail of the buffer becomes these bytes, all earlier bytes stay, and the count written is returned |
| Codecs.MsgStoreCode.Marshal | chain/cosmos/08-wasm-types/tx.pb.go:238-246 | returns exactly these bytes, so the backward writing ends at index 0 |
| Codecs.MsgStoreCode.Unmarshal | chain/cosmos/08-wasm-types/tx.pb.go:352-467 | error and fields, also after a failure, are those of the specified decoder on the old message; a record numbered 1 sets the signer and keeps the code, one numbered 2 the converse |
| Codecs.MsgStoreCodeRoundTrip | chain/cosmos/08-wasm-types/tx.pb.go:238-467 | what Marshal returns, Unmarshal on a new object reads without error as the same signer and code |
| Codecs.BytesMessage.constructor | chain/cosmos/08-wasm-types/tx.pb.go:83-87 | a fresh message has an empty field |
| Codecs.BytesMessage.Size | chain/cosmos/08-wasm-types/tx.pb.go:333-345 | exactly the length of the marshalled bytes |
| Codecs.BytesMessage.WireBytesAre | chain/cosmos/08-wasm-types/tx.pb.go:295-301 | the wire bytes: 0x0a, length and payload unless empty |
| Codecs.BytesMessage.MarshalToSizedBuffer | chain/cosmos/08-wasm-types/wasm.pb.go:362-376 | the tail of the buffer becomes these bytes, all earlier bytes stay |
| Codecs.BytesMessage.Marshal | chain/cosmos/08-wasm-types/wasm.pb.go:347-355 | returns exactly the wire bytes |
| Codecs.BytesMessage.Unmarshal | chain/cosmos/08-wasm-types/wasm.pb.go:828-911 | error and field are those of the specified decoder on the old message; a record numbered 1 sets the field |
| Codecs.BytesMessageRoundTrip | chain/cosmos/08-wasm-types/tx.pb.go:275-551 | the same for the code id or data |
| Codecs.ConsensusState.constructor | chain/cosmos/08-wasm-types/wasm.pb.go:68-74 | a fresh message has no data and timestamp zero |
| Codecs.ConsensusState.Size | chain/cosmos/08-wasm-types/wasm.pb.go:407-422 | exactly the length of the marshalled bytes |
| Codecs.ConsensusState.WireBytesAre | chain/cosmos/08-wasm-types/wasm.pb.go:292-303 | the wire bytes tag by tag: 0x0a, length and data unless empty, then 0x10 and the timestamp unless zero |
| Codecs.ConsensusState.MarshalToSizedBuffer | chain/cosmos/08-wasm-types/wasm.pb.go:287-305 | the tail of the buffer becomes these bytes, all earlier bytes stay |
| Codecs.ConsensusState.Marshal | chain/cosmos/08-wasm-types/wasm.pb.go:272-280 | returns exactly the wire bytes |
| Codecs.ConsensusState.Unmarshal | chain/cosmos/08-wasm-types/wasm.pb.go:608-710 | error and fields are those of the specified decoder, also a timestamp read in part before an error; a record numbered 1 sets the data alone, one numbered 2 the timestamp alone |
| Codecs.ConsensusStateRoundTrip | chain/cosmos/08-wasm-types/wasm.pb.go:272-710 | the same for data and timestamp |
| Codecs.ClientState.constructor | chain/cosmos/08-wasm-types/wasm.pb.go:25-33 | a fresh message has empty fields and the zero height |
| Codecs.ClientState.Size | chain/cosmos/08-wasm-types/wasm.pb.go:388-406 | exactly the length of the marshalled bytes |
| Codecs.ClientState.WireBytesAre | chain/cosmos/08-wasm-types/wasm.pb.go:245-268 | the wire bytes tag by tag: 0x0a and data, 0x12 and code id, each with its length and unless empty, then always 0x1a, length and height |
| Codecs.ClientState.MarshalToSizedBuffer | chain/cosmos/08-wasm-types/wasm.pb.go:240-270 | fails exactly when the nested marshaller does; else the tail of the buffer becomes these bytes, all earlier bytes stay |
| Codecs.ClientState.Marshal | chain/cosmos/08-wasm-types/wasm.pb.go:225-233 | returns exactly the wire bytes, or the nested marshaller's error and no bytes |
| Codecs.ClientState.Unmarshal | chain/cosmos/08-wasm-types/wasm.pb.go:457-607 | error and fields are those of the specified decoder; a nested height merges into the old one and is kept when its decoder fails; records numbered 1, 2 and 3 set data, code id and height alone |
| Codecs.ClientStateRoundTrip | chain/cosmos/08-wasm-types/wasm.pb.go:225-607 | the same for data, code id and height, unless the height cannot be marshalled, which is the only error |
| Codecs.Header.constructor | chain/cosmos/08-wasm-types/wasm.pb.go:107-113 | a fresh message has no data and the zero height |
| Codecs.Header.Size | chain/cosmos/08-wasm-types/wasm.pb.go:423-437 | exactly the length of the marshalled bytes |
| Codecs.Header.WireBytesAre | chain/cosmos/08-wasm-types/wasm.pb.go:327-343 | the wire bytes tag by tag: 0x0a, length and data unless empty, then always 0x12, length and height |
| Codecs.Header.MarshalToSizedBuffer | chain/cosmos/08-wasm-types/wasm.pb.go:322-345 | fails exactly when the nested marshaller does; else the tail of the buffer becomes these bytes, all earlier bytes stay |
| Codecs.Header.Marshal | chain/cosmos/08-wasm-types/wasm.pb.go:307-315 | returns exactly the wire bytes, or the nested marshaller's error and no bytes |
| Codecs.Header.Unmarshal | chain/cosmos/08-wasm-types/wasm.pb.go:711-827 | error and fields are those of the specified decoder on the old message; records numbered 1 and 2 set data and height alone |
| Codecs.HeaderRoundTrip | chain/cosmos/08-wasm-types/wasm.pb.go:307-827 | the same for data and height |
| Tables.SelectInsert | internal/blockdb/migrate.go:115-120 | a row with a new autoincrement id comes last among its parent's children and changes no other parent's |
| Tables.GatherIds | internal/blockdb/query.go:184-184 | reading children by ascending id lists each exactly once |
| BlockSchema.AttrsPut | internal/blockdb/chain.go:77-82 | inserted attributes are read back for their event in order; constraints hold and everything else reads as before |
| BlockSchema.EventsPut | internal/blockdb/chain.go:66-83 | the same for events with their attributes |
| BlockSchema.TxsPut | internal/blockdb/chain.go:56-84 | the same for transactions with their events |
| BlockSchema.AttrRows | internal/blockdb/chain.go:77-82 | each attribute is a row of its own, in order, with its key, value and event id, and no other row changes |
| BlockSchema.EventRows | internal/blockdb/chain.go:67-75 | an event is a row with its type and tx id, and its attributes refer to it |
| BlockSchema.TxRows | internal/blockdb/chain.go:57-64 | a transaction is a row with its data and block id |
| BlockSchema.CascadeKeeps | internal/blockdb/migrate.go:104-146 | after a cascading delete no reference dangles, and surviving blocks keep their transactions, events and attributes |
| BlockSchema.BlockReplaced | internal/blockdb/chain.go:47-50 | insert-or-replace leaves one block for chain and height, new and empty, and the others as they were |
| BlockSchema.ContentsReplaced | internal/blockdb/chain.go:40-87 | on tables, replacing a block is a map update |
| BlockSchema.SaveRefines | internal/blockdb/chain.go:40-87 | a save keeps every constraint and refines the map update (chain, height) := txs |
| Queries.ResultUnique | internal/blockdb/query.go:180-184 | the ordering is total on the rows, so the query has one answer |
| Queries.IdsBelowShape | internal/blockdb/query.go:180-184 | the rows gathered height by height are those of the join, in its order |
| Queries.ResultIsLedger | internal/blockdb/query.go:179-200 | any answer to the query is the stored lists by ascending height, each in its submitted order |
| Queries.ResultExists | internal/blockdb/query.go:180-184 | every valid database has such an answer |
| Queries.ShownBelow | internal/blockdb/query.go:184-184 | the rows of a chain are the same for every bound above its heights |
| Queries.ShownAtHeight | internal/blockdb/query.go:172-184 | the rows of a height are the data of the transactions stored there, in order, whatever their events, and none where nothing is stored |
| Queries.ShownAscends | internal/blockdb/query.go:184-184 | the heights of the rows ascend |
| Queries.GroupIsChain | internal/blockdb/migrate.go:262-266 | filtering the whole left join by test case and chain leaves exactly that chain's rows |
| Queries.ChainTotals | internal/blockdb/migrate.go:260-265 | in these rows each transaction of the chain occurs once and the top height is the chain's |
| Queries.AggregateIsLedger | internal/blockdb/migrate.go:251-267 | the view reports the highest saved height, 0 if none, and the length of the transactions result, although its joins repeat blocks |
| BlockStore.BlockDb.constructor | internal/blockdb/migrate.go:84-148 | the freshly migrated tables are empty |
| BlockStore.BlockDb.CreateTestCase | internal/blockdb/test_case.go:15-28 | succeeds exactly when the constraints allow it and the statement does not fail, hands out an unused id, and stores nothing else |
| BlockStore.BlockDb.AddChain | internal/blockdb/test_case.go:33-46 | succeeds exactly for a non-empty chain id new in its test case, a non-empty type and a statement that does not fail; a refused one changes nothing |
| BlockStore.BlockDb.InsertAttrs | internal/blockdb/chain.go:77-82 | succeeds exactly when no key is empty and no statement fails, and then has inserted all in order |
| BlockStore.BlockDb.InsertEvents | internal/blockdb/chain.go:66-83 | the same for events, with the statement that fails counted exactly |
| BlockStore.BlockDb.InsertTxs | internal/blockdb/chain.go:56-84 | the same for transactions |
| BlockStore.CostIsRows | internal/blockdb/chain.go:56-84 | one statement is executed for each transaction, event and attribute row added |
| BlockStore.BlockDb.SaveBlock | internal/blockdb/chain.go:40-87 | atomic: it succeeds exactly when the chain exists, no event type or attribute key is empty and no statement from begin to commit fails, then updates the map at (chain, height), and otherwise leaves every table unchanged |
| BlockStore.BlockDb.Transactions | internal/blockdb/query.go:179-200 | fails exactly when the query or the scan of a delivered row does; else returns the stored lists by ascending height, as many rows as were delivered |
| Queries.TextLessIff | internal/blockdb/query.go:70-70 | the order of texts: a proper beginning, or the smaller character where they first differ |
| Queries.NoTies | internal/blockdb/migrate.go:94-100 | as chain ids differ within a test case, the order by test case and chain id is total on the chains |
| Queries.RecentExists | internal/blockdb/query.go:66-70 | so the query for recent test cases has an answer in every valid database |
| Queries.RecentUnique | internal/blockdb/query.go:66-70 | and only one, also when it is cut off |
| BlockStore.BlockDb.RecentTestCases | internal/blockdb/query.go:65-102 | fails exactly when the query, a scan or a timestamp does; else returns as many rows as chains, limit and delivery allow, newest test case first and then by chain id, each with the columns of its test case and chain, its top saved height and the length of its transactions result |
| BlockStore.SaveIdempotent | internal/blockdb/chain.go:29-31 | saving the same block again leaves blocks, transactions, events and attributes as they are, up to ids |
| BlockStore.BlocksCounted | internal/blockdb/migrate.go:110-110 | block rows and (chain, height) pairs correspond one to one |
| BlockStore.StepRefines | internal/blockdb/test_case.go:15-46 | every operation keeps the constraints, and only a successful save changes what is stored |
| BlockStore.RunRefines | internal/blockdb/chain.go:40-87 | over any run, in any height order and with repeats and failures, what is stored is the last successful save of each chain and height |
| BlockStore.TransactionsAfterRun | internal/blockdb/query.go:179-200 | from an empty database, the query returns by ascending height the lists last saved for the chain |
| BlockStore.TransactionsAfterAnyRun | internal/blockdb/query.go:179-200 | the same for every run, with no bound on its heights asked for |
| BlockStore.HeightZeroIsSaved | internal/blockdb/migrate.go:104-120 | a block at height 0 with an empty transaction is stored |
| BlockStore.EarlyEndIsNotNoticed | internal/blockdb/query.go:190-199 | of two stored transactions, delivery that ends after one row returns the first alone and no error |
| Collector.SaveTxsForHeight | internal/blockdb/collect.go:105-115 | completes exactly when the finder answers, no event type or attribute key is empty and no statement fails, and then stores what was found |
| Collector.Interfere | chainset.go:156-178 | what another collector or a registration does to the shared database is one step of the block store |
| Collector.OthersKeep | chainset.go:156-178 | such a step, unless it saves to this chain, keeps what has been collected |
| Collector.Collect | internal/blockdb/collect.go:70-95 | for every schedule of failures, with others using the database in between: as the chain's only writer it stores the lists found by the completed ticks at 1, 2, 3, ..., leaves the chain's other heights as they were, and stands one height further |
| Collector.EveryTickCompletes | internal/blockdb/collect.go:76-93 | when the finder always answers such lists and nothing fails, every tick completes, also for empty blocks |
| Collector.FailingTickIsRepeated | internal/blockdb/collect.go:82-91 | a tick without an answer, or with a failing statement, completes nothing |
| Collector.CollectedRows | internal/blockdb/query.go:179-200 | then the transactions shown for a chain that was empty are exactly the concatenation of the lists found: no gap, none twice |
| Ports.LocksKept | internal/dockerutil/container_lifecycle.go:99-103 | every step keeps: the reader count is the number of starting containers, one writer at most, never both |
| Ports.FreePortIsUnclaimed | internal/dockerutil/ports.go:22-36 | a port the system finds free under the write lock is nobody's, also not of a container whose listeners are closed already |
| Ports.PortsKept | internal/dockerutil/container_lifecycle.go:54-115 | every step keeps: ports held by distinct lifecycles are disjoint, and listened and bound ports are exactly those held |
| Ports.RunKeeps | internal/dockerutil/container_lifecycle.go:36-115 | every schedule keeps both |
| Ports.BindFindsFree | internal/dockerutil/container_lifecycle.go:105-110 | a promised port is neither listened on nor bound when Docker binds it |
| Ports.AskedAsRequested | internal/dockerutil/container_lifecycle.go:54-57 | over any schedule, a lifecycle looks for as many ports as its create step asks for |
| Ports.PromisesHold | internal/dockerutil/container_lifecycle.go:99-115 | in every interleaving promised ports of distinct containers are disjoint, each bind finds its port free, a container created has as many ports as its create step in the schedule asks for, and a running one has all of them |
| Ports.CanRun | internal/dockerutil/container_lifecycle.go:36-115 | from any reachable state with the lock free, a container that asks for n ports can come to run with n ports, if as many are free |
| Ports.FailureFails | internal/dockerutil/ports.go:62-66 | a failed listen, create or start leads to failure |
| Ports.FailureIsFinal | internal/dockerutil/ports.go:62-66 | and whatever others do, it stays a failure |
| Ports.LocksExclude | internal/dockerutil/ports.go:11-30 | in every interleaving no port is chosen while a container starts, nor by two at once |
| Ports.NoDeadlock | internal/dockerutil/container_lifecycle.go:99-115 | in every interleaving with a create or start under way, some lifecycle can go on without failure of Docker, nor of listening while a port is free, and without a read lock while somebody may be waiting for the write lock |
| Ports.Host.ListenTCP | internal/dockerutil/ports.go:22-36 | opens one port that nobody uses, or none |
| Ports.Host.CloseAll | internal/dockerutil/ports.go:15-19 | closes exactly the given listeners |
| Ports.Host.GeneratePortBindings | internal/dockerutil/ports.go:57-72 | for any key order, and whatever others open, bind or close between two ports: every requested port gets its own host port with an open listener, which nobody else uses; on failure no listener is left open |
| Toml.RecursiveModifyToml | testutil/toml.go:20-43 | for every key order at every level: it succeeds exactly when the modifications fit, the result is the merge, and a failure has its reason and leaves each key as it was or as modified |
| Toml.FitsIff | testutil/toml.go:22-35 | it fails exactly when a section is missing or a nested modification has the wrong map type |
| Toml.OneSection | testutil/toml.go:22-35 | one section of leaves goes through exactly when it exists as a plain map and is given as a Toml, and else fails for the reason that applies |
| Toml.LeavesFit | testutil/toml.go:37-40 | leaves alone always go through |
| Toml.FreshSectionFails | testutil/toml.go:23-32 | a new section is refused although the comment announces it, and an empty existing one is filled |
| Toml.PathLaw | testutil/toml.go:18-43 | every path shows the modifications' leaf if they set one, else the original, and merged sections in between |
| Toml.PartialPathLaw | testutil/toml.go:20-43 | after a failure half way every path shows the original or, at a leaf of the modifications, that leaf, and sections stay sections |
| Toml.Idempotent | testutil/toml.go:20-43 | modifying again succeeds and changes nothing |
| Toml.Composes | testutil/toml.go:20-43 | applying a then b is applying their combination |
| Interchain.Builder.constructor | interchain.go:59-68 | a new builder is empty |
| Interchain.Builder.AddChain | interchain.go:80-112 | rejects exactly nil and a reference, id or name already there; otherwise adds the chain with its additional wallets |
| Interchain.Builder.AddRelayer | interchain.go:115-131 | rejects exactly nil and a reference or name already there |
| Interchain.Builder.AddLink | interchain.go:159-191 | rejects exactly unknown ends or relayer, equal ends and a used path; links then always join two registered chains |
| Interchain.Builder.UniqueChains | interchain.go:445-454 | the sets gathered over links in any order are the chains touched by each relayer's links |
| Interchain.Builder.RelayerChains | interchain.go:442-467 | exactly the relayers with a link, each with the chains its links touch, each once |
| Interchain.ChainsOfOneMore | interchain.go:447-454 | one more link adds its two ends to its relayer and nothing to others |
| Interchain.Builder.GenerateRelayerWallets | interchain.go:377-397 | each relayer and chain it touches is asked for once, by a call of its own under relayer name, hyphen and chain id, and the wallets are the answers; it ends at the first refusal and keeps what was built; a second call panics |
| Interchain.Builder.GenesisWalletAmounts | interchain.go:337-374 | fails exactly when the faucet accounts do; else each chain gets the faucet's 100T entry, its additional wallets in order, then one 1T entry per relayer with a link touching it, and nothing else, for every map order |
| Interchain.OneMorePaid | interchain.go:364-371 | paying one more wallet keeps every chain exactly paid for the pairs seen |
| Interchain.FundedMeans | interchain.go:347-371 | these amounts entry by entry: 100,000,000,000,000 for the faucet, the additional wallets as given, and 1,000,000,000,000 for each wallet of a relayer with a link that touches the chain, each once |
| Interchain.FundingTotal | interchain.go:337-374 | each chain's total is 100T, its additional wallets, and 1T per relayer with a link that touches it, whatever the order |
| Poller.SearchedAfter | testutil/poll_for_state.go:29-50 | after any number of turns, start, start+1, ... were polled once each at turns in that order, each when the chain had just reported that height or more, and all but possibly the last failed |
| Poller.NotedHeights | testutil/poll_for_state.go:29-50 | a closure that notes its heights notes start, start + 1, ... in order; the value found is that of the least height that succeeds, and else the error is a failed report or the answer at the last height |
| Poller.NeverWraps | testutil/poll_for_state.go:42-42 | below the largest last height the cursor never wraps |
| Poller.DoPoll | testutil/poll_for_state.go:20-51 | panics exactly on an empty range; otherwise ends after n calls of CurrentHeight with the value at the least successful height, the error of the last height, or a failure to report, unless the cursor has wrapped, and then every height of the range has failed |
| Poller.LargestRangeIff | testutil/poll_for_state.go:28-50 | with the largest last height, an ended run has not wrapped if and only if some height of the range succeeds or a report fails first |
| Poller.LargestRangeWithoutFailure | testutil/poll_for_state.go:28-50 | and on a chain whose reports never fail, if and only if some height of the range succeeds |
| Poller.FoundBelowTheRange | testutil/poll_for_state.go:28-50 | an input for which the value comes from a height below the range |
| Poller.StopsIff | testutil/poll_for_state.go:29-49 | below the largest last height, the loop runs for ever if and only if it comes to a cursor that the chain, still answering, never reaches |
| Poller.GrowingStopsIff | testutil/poll_for_state.go:29-49 | on a chain that never shrinks: if and only if it stalls below a height before which every height of the range fails |
| Poller.FailingStopsIff | testutil/poll_for_state.go:24-49 | on a chain that keeps reaching the last height, a search that fails everywhere ends if and only if the last height is below 2^64 - 1 |
| Poller.LookAt | testutil/poll_for_state.go:62-75 | the loop over one height's list computes the closure's answer and what it adds to the searched items |
| Poller.LookFinds | testutil/poll_for_state.go:62-75 | a height succeeds if and only if it lists the packet, with the first such item; otherwise the whole list has been searched |
| Poller.PollForPacket | testutil/poll_for_state.go:60-121 | the outcome of its own n turns: the earliest item for the packet, or an error with exactly the items listed at the heights polled, none for the packet, which is a report that failed at one of these turns or comes after the whole range; once the cursor has wrapped, the range lacks the packet and the item is the earliest below it |
| Poller.FoundMeans | testutil/poll_for_state.go:62-81 | a found item is in the list of its height, at the first place with the packet, and no lower height of the range lists it |
| Poller.ErrorMeans | testutil/poll_for_state.go:62-84 | without a failed report, an error means that no height of the range lists the packet, and exactly the items listed there were searched |

## Left out

- Docker, RPC, gRPC, files, keys and wallets, the terminal interface, presenters and command lines: input and output over libraries that are not part of this model.
- Shifts, masks and the bitwise or of the varint loops are written as division, remainder and addition; groups joined by the or do not overlap.
- Message.RoundTrip, Message.UnmarshalOverrides and Message.LastOneWins: `types.Height` is not part of this model; its codec is a parameter with the contract `Message.Lawful` (own output decodes, and into the zero height as itself).
- Codecs.PutNested: for the same reason `Codecs.MarshalNested` has the contract assumed of the height's own `MarshalToSizedBuffer`: it fills the end of the prefix it is given with exactly its size, or fails.
- Codecs.MsgStoreCode.Unmarshal: nil and empty byte slices are identified, and inputs are shorter than 2^63 bytes, as for all messages; sharing between an input and the message read from it is not modelled, and error values carry no text. `MarshalTo` only forwards and is not repeated.
- Wire.Record: a group may end with the end tag of another field number, since the skipper does not compare them.
- BlockStore.BlockDb.SaveBlock: saves are sequential, as there is one connection; concurrent equal saves collapsed by singleflight (`internal/blockdb/chain.go:33`) and `created_at` of blocks are not modelled. Heights are unbounded naturals, below 2^63 in the database.
- BlockStore.BlockDb.CreateTestCase: the clock is a parameter, and a text is empty when it has no characters (SQLite's `length` stops at a NUL).
- BlockStore.BlockDb.RecentTestCases: parsing a timestamp is a parameter, and texts are ordered by characters.
- `v_cosmos_messages` and `CosmosMessages` rest on SQLite's JSON functions; the other views, schema versions and repeated migration are left out.
- Collector.Collect: a run is the finite list of its ticks, and of what others do, until cancellation; logging and `Stop` are left out.
- Ports.PromisesHold: the operating system is assumed never to hand out a used port, nothing outside the process takes ports, and a lifecycle is created once and started once; a start that fails gives up its ports.
- Ports.LocksKept: that a waiting writer holds back new readers is not required here, so that safety is proved for more interleavings than Go has; `Ports.NoDeadlock` takes it into account. `Ports.Host` is the host as one create sees it, with everybody else's ports as one set.
- Toml.RecursiveModifyToml: nested maps are values, so a map shared by two keys is not captured, and a leaf may be a nil or any non-map value. Which of two reasons a failing call reports may depend on the key order, as in Go.
- Interchain.Builder.AddChain: a chain is its reference with id, name and denomination, which do not change; `AdditionalGenesisWallets` is only set through this method, and options of links are left out.
- Interchain.Builder.AddLink: the same path under another relayer is another link, as in the source; a nil chain or relayer is one that was never added.
- Poller.DoPoll: contexts and waiting are left out; runs that never end are described by `Poller.StopsIff` instead. The initial nil error is never returned. A closure asked again for a height, after the cursor has wrapped, answers from what it has captured and the height alone.
- Poller.PollForPacket: the text of the error is left out, and packets are compared by equality of values.
- `ibc.GetTransferChannel`, chain sets beyond their shared database, waiting for blocks, name condensing, reporter messages and packet validation.
