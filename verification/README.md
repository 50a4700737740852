# Verification of nftp-codec

A Dafny model of a small file transfer protocol written in C, and proofs about it. The sender splits a file into
blocks, announces it with HELLO and sends FILE and END messages, in any order; the receiver reassembles them in a
part file, checks a CRC-32C, renames the file and runs a callback. GIVEME asks for a block again.

## How the model is laid out

| file | what it models |
|---|---|
| `Crc.dfy`, `Crc32c.dfy`, `Crc32.dfy`, `CrcBurst.dfy`, `CrcSamples.dfy` | the two checksums, their bit-serial definitions, burst detection, sample values |
| `HashTable.dfy` | the chained hash table: cost model, and a class over linked nodes |
| `Vec.dfy`, `Iovs.dfy` | the circular deque and the gather vector, as classes over arrays |
| `Message.dfy`, `WireFormat.dfy`, `Codec.dfy` | the five messages as bytes, place by place, and the codec that writes them through shared scratch space |
| `Blocks.dfy` | block arithmetic over an abstract file |
| `Reassembly.dfy` | the FILE and END branch as a function on one session, over all delivery histories |
| `Protocol.dfy` | every call of `src/proto.c` as a function on one state: sessions, registry, sender table, files |
| `Transfer.dfy`, `EndToEnd.dfy`, `Recovery.dfy` | one transfer: its blocks in any order, from sender to receiver, and the rounds that pull missing blocks |
| `Interleaving.dfy`, `Naming.dfy`, `Refusal.dfy` | several transfers at once: what keeps them apart, and what HELLO's guard lets through |
| `Places.dfy`, `Outcomes.dfy` | what the calls answer and touch, in numbers, bytes and paths |
| `Registry.dfy`, `Runs.dfy` | every run of calls: the registry and its bindings, and every session as the reassembly of its blocks |
| `Tables.dfy`, `Proto.dfy` | `src/proto.c` as it runs, on the verified hash tables, deque, codec and checksum; each method is proved to do what the state machine says |
| `Bytes.dfy`, `Names.dfy`, `Options.dfy`, `Status.dfy` | bytes and big-endian fields, names and paths, constants |

The file system is a map from paths to contents, and the calls of the C library on it succeed unless the path is
missing. Allocation succeeds, including of zero bytes. A null receive directory is the empty one. Callbacks are numbers, 0 being
null, and running one is recorded. Checksums of names are treated as file ids as in the code; nothing assumes that
they do not collide. The hash and the comparison of a hash table are any function and any equivalence it respects.

## What the code does that its documentation does not say

- HELLO's test for a transfer under way looks up the wrong id (`src/proto.c:429`): a second HELLO for a transfer
  restarts it (`Interleaving.LiveHello`), and once a HELLO with an empty name has come, every HELLO is refused
  (`Refusal.EmptyNameRefusesAll`) until that session ends (`Refusal.RefusalLasts`).
- Two live sessions can be given one working name, or one the part name of the other (`Naming.NumberedNameShared`,
  `Naming.PartNameTaken`). `Naming.NewNameApart` says exactly when a HELLO keeps them apart, as a check of two paths.
- A transfer of an unregistered name leaves an entry in the registry: `EndToEnd.EntryAfterTransfer`.
- `len` counts a replaced empty block twice: `Reassembly.DoubleCount`, and exactly when: `EndToEnd.CountOfFile`.
- A tail push on a full gather vector writes past its buffer: `GatherVectors.Iovs.Push`.
- A GIVEME for a block past the end is answered with success and nothing: `Outcomes.GivemeAnswers`.
- The read offset wraps at 4 GiB: `Blocks.ReadsRightExactly`.
- The table never shrinks before it is empty, and erasing tells nothing: `TableShape.ShrinksExactly`,
  `HashTables.HashTable.Erase`.

## What callers must provide

Streams reach the end of the fields their type reads; a HELLO announces at least one block and some numbered name is
free if its own is taken; block numbers of a live session lie below its capacity; the block size is positive; a
message fits in the 31-bit length of its C interface; a name is only unregistered while no session is bound to it.
Where these hold of the maker's own messages, that is proved.

## Model

The main results come first; the rows after `Blocks.ReadsRightExactly` support them.

| member | source | states |
|---|---|---|
| `EndToEnd.Transfers` | `src/proto.c:398-600` | After HELLO and any stream of a sendable file's blocks (any order, loss, repeats): the part file is the file up to the first gap; with no gap the file stands whole, the session is gone, its entry released, its callback run once (its name's, or slot 0's); no other file, session or sender path changes |
| `EndToEnd.InterleavedTransfer` | `src/proto.c:398-600` | The same with other sessions' blocks, ACKs and noise between its own, if its HELLO passed the check of its name: the file stands whole, or its part file is the file up to the first gap |
| `Runs.RunsTrack` | `src/proto.c:195-731` | Over every run of register, unregister, handle, make and stop from no sessions, each accepted HELLO passing the check: names are apart, and each session is the reassembly of its blocks since its last HELLO, or complete with a failed hash |
| `Runs.RunsInterleave` | `src/proto.c:487-599` | After any such run from init, each session moves on through any interleaving as its own messages alone would take it |
| `Interleaving.Interleave` | `src/proto.c:487-599` | With separate working names, any interleaving of all sessions' messages leaves each session's context, part file and final file as its own messages alone would |
| `Outcomes.Demo` | `test/proto.c:148-263` | The transfer of the test suite, for any contents of "./demo.txt" and any order and repetition of its blocks: "./build/demo.txt" holds the same, no session is left, the callback of "*" ran once |
| `Outcomes.RegisteredRuns` | `src/proto.c:579-590` | Register a name, then transfer it: (cb, arg) has been run exactly once, and the registry is what it was before |
| `Outcomes.StarRuns` | `src/proto.c:658-676` | Register "*", then transfer any name without an entry: that callback has been run exactly once |
| `Outcomes.StatusOfTransfer` | `src/proto.c:262-287` | At any moment of a transfer, asked by any path to the name: the number of its blocks and the least not yet come, 0 right after HELLO; once whole, 17 and -1 |
| `Outcomes.MakerSays` | `src/proto.c:289-392` | From a path d/b or b: the message made, read by its receiver, names b by its bytes or its checksum, and carries the key and number, modulo 256 and 65536, the block count, checksum or block |
| `Places.RunsInside` | `src/proto.c:195-731` | Over any run of calls, whatever is received, every path made, changed or removed begins with the receive directory |
| `Naming.HelloKeepsApart` | `src/proto.c:453-471` | The check: no part file but its own bears the working name or that name's part name, nor is it another's part name. HELLO keeps all live names apart if it passes, and, with no stray part file, only if |
| `Naming.NewNameApart` | `src/proto.c:453-471` | For a new transfer, each session having its part file and no other part file being there: names stay apart exactly when two paths, computed before the call, are free on disk |
| `Naming.NumberedNameShared` | `src/proto.c:453-461` | An input: "a" is on disk; HELLOs for "a" and "a_01" both get the working name "a_01" |
| `Naming.PartNameTaken` | `src/proto.c:462-471` | An input: while "a.part" is received, a HELLO for "a" gets a part file at the other's final path |
| `Recovery.Recovers` | `src/proto.c:262-287` | From any open session, however much was lost, "read nextid, send GIVEME, deliver the answer" ends within cap - nextid rounds with the sender's file in place |
| `Recovery.BurstRejected` | `src/proto.c:555-565` | If what the completing message leaves differs from the announced file within 32 consecutive bits, the reply is ERR_PROTO, no callback runs and the session stays |
| `Reassembly.RunTracks` | `src/proto.c:499-535` | Over every history: nextid is the least block not delivered, slots past it hold the last message for their block, and the part file is the committed contents, each fixed by the delivery that first made all earlier blocks available |
| `Reassembly.Confluence` | `src/proto.c:499-533` | Two deliveries of the same set of blocks, in any order and multiplicity, give the same nextid and the same buffered slots |
| `Reassembly.SamePart` | `src/proto.c:499-533` | ... and, the contents being the true ones, the same part file |
| `Reassembly.FinishesExactly` | `src/proto.c:507-509` | The session is complete exactly when every block has come, so at the very message that completes them |
| `Reassembly.WrittenStays` | `src/proto.c:499-533` | Later messages, duplicates included, never change bytes already written |
| `EndToEnd.CountOfFile` | `src/proto.c:499-535` | On the way, len counts the blocks appended and the slots in use, exactly unless the file is a whole number of blocks and its empty last block came more than once |
| `EndToEnd.EntryAfterTransfer` | `src/proto.c:436-451` | A whole transfer, HELLO to last block, takes out an entry registered for its name, but leaves behind the entry HELLO made for a name nobody registered |
| `Registry.RunsKeep` | `src/proto.c:637-731` | In every state reachable from init by register, unregister, handle, make and stop: slot 0 is "*", other names are distinct and never "*", and every session is bound to an entry of its own or to slot 0 |
| `Registry.UnregisterKeeps` | `src/proto.c:704-731` | Unregistering keeps order and bindings exactly when the name is "*", which is refused, or no session is bound to it |
| `Registry.RegisterAll` | `src/proto.c:658-676` | Registering "*" succeeds, is what every name without an entry runs from then on, and affects no other name |
| `Registry.RegisterOne` | `src/proto.c:677-695` | 17 if the name has an entry, 9 with 32 in use, both changing nothing; else 0, it runs (cb, arg) from then on, and no other name is affected |
| `Registry.UnregisterOne` | `src/proto.c:704-731` | 3 for "*", 17 for a name without an entry, both changing nothing; else 0, the name falls to slot 0, and no other name is affected |
| `Refusal.RefusalLasts` | `src/proto.c:429-434` | Over any run with session 0 live: it stays live, and every HELLO is refused and changes nothing, until a stop whose base name has checksum 0 or the block that completes its file |
| `Refusal.EmptyNameRefusesAll` | `src/proto.c:423-434` | A HELLO with an empty name opens session 0, and the HELLO after it is refused whatever it announces |
| `Interleaving.HelloSucceeds` | `src/proto.c:423-481` | HELLO succeeds and is answered exactly when neither its own file id nor id 0 is live |
| `Interleaving.LiveHello` | `src/proto.c:429-434` | The guard looks up fileid, which decode leaves 0: a HELLO for a transfer under way reports an error but restarts it, its progress surviving exactly when id 0 is live |
| `Interleaving.StopUndoesHello` | `src/proto.c:195-260` | Stopping a transfer just opened, by any path to its file id, gives back the sessions as before its HELLO, and the files exactly when no part file of the working name was there; the registry is as after a whole transfer |
| `ProtocolCode.Proto.constructor` | `src/proto.c:111-126` | Fresh hash tables, deque and CRC tables that stand for the initial state, "*" registered |
| `ProtocolCode.Proto.Handler` | `src/proto.c:397-631` | The in-place handler, on hash tables, deque, codec and CRC, does to state, result and reply exactly what the state machine says |
| `ProtocolCode.Proto.Maker` | `src/proto.c:289-392` | The maker refines the state machine for every type, known or not |
| `ProtocolCode.Proto.Register` | `src/proto.c:637-702` | The registry scan and update refine the state machine |
| `ProtocolCode.Proto.Unregister` | `src/proto.c:704-731` | The scan and delete refine the state machine |
| `ProtocolCode.Proto.RecvStatus` | `src/proto.c:262-287` | Capacity and nextid of the session, or ERR_HT and -1 |
| `ProtocolCode.Proto.RecvStop` | `src/proto.c:195-260` | Session, part file and entry go, in the code's order, with its error results |
| `Crc32cCode.Crc32c.Checksum` | `src/hash.c:210-219` | nftp_crc32c, tables built on first use, is the bit-serial CRC-32C of section 12.1 of RFC 3720, for every string and alignment |
| `Crc32Code.Checksum` | `src/hash.c:121-141` | nftp_crc32, unrolled loop and tail, is the bit-serial CRC-32 of section 8 of RFC 1952 |
| `CrcAlgebra.FoldIsBitSerial` | `src/hash.c:153-163` | A reflected table fold computes the unreflected bit-serial division, for every generator |
| `CrcBurst.BurstDetected` | `src/hash.c:177-208` | Equal-length messages that differ only within 32 consecutive bits have different CRC-32C values |
| `HashTables.HashTable.Insert` | `hashtable/hashtable.c:119-148` | The map gains or replaces one key; size, capacity and relinked nodes change as the cost model says; the result tells new from old |
| `HashTables.HashTable.Erase` | `hashtable/hashtable.c:210-246` | The map loses the key; the result is 0 either way, HT_SUCCESS and HT_NOT_FOUND being equal |
| `HashTables.HashTable.Rehash` | `hashtable/hashtable.c:422-439` | In-place relinking preserves the node set exactly, each node ending in one chain, that of its own bucket, for any two capacities |
| `HashTables.HashTable.Copy` | `hashtable/hashtable.c:36-65` | A table with the same map, size and capacity that shares no node |
| `HashTables.HashTable.Iterate` | `hashtable/hashtable.c:441-452` | Every entry is visited once, and nothing else |
| `TableShape.AmortisedBound` | `hashtable/hashtable.c:119-148` | Over any run without reserve, rehashing relinks at most two nodes per new insertion, and size <= capacity, capacity >= 8 |
| `TableShape.ShrinksExactly` | `hashtable/hashtable.c:337-340` | The shrink threshold (1 / 4) being 0, capacity falls exactly on clear and on erasing the last entry |
| `Messages.RoundTrip` | `src/codec.c:61-227` | Decoding what was encoded gives back every field, for all five types |
| `Messages.ReverseRoundTrip` | `src/codec.c:61-227` | Encoding what was decoded gives the stream back exactly when its length is that of its fields |
| `WireFormat.HelloImage` | `src/codec.c:139-154` | HELLO byte by byte: type 1, length, id, block count, name length, name, hash, numbers highest digit first |
| `WireFormat.AckImage` | `src/codec.c:155-160` | ACK byte by byte: type 2, length 10, id, file id |
| `WireFormat.BlockImage` | `src/codec.c:161-178` | FILE and END byte by byte: type 3 or 4, length, file id, block number, content length, content |
| `WireFormat.GivemeImage` | `src/codec.c:179-186` | GIVEME byte by byte: type 5, length 11, file id, block number |
| `WireFormat.ParseRefuses` | `src/codec.c:61-82` | Empty streams are refused with 10, short or misstated ones with 16, types other than 1 to 5 with 18, and nothing else is |
| `Codec.Nftp.Decode` | `src/codec.c:61-127` | The fields are those of the parsed message, or the code's error; a HELLO leaves fileid as it was |
| `Codec.Nftp.EncodeIovs` | `src/codec.c:129-204` | The slices read as type, stated length and body, in order, though all scratch fields share one buffer; dirty vector and unknown type are refused |
| `Codec.Nftp.Encode` | `src/codec.c:206-227` | The stream is the type byte, the stated length digit by digit, and the body; with the true length it is the message's encoding |
| `Blocks.Partition` | `src/file.c:149-206` | The blocks concatenate to the file; all but the last are full, the last strictly shorter |
| `Blocks.ReadsRightExactly` | `src/file.c:184-192` | Block n is read right, whatever the file holds, exactly when it starts below 4 GiB: the offset is computed in 32 bits |
| `EndToEnd.HelloGreets` | `src/proto.c:423-481` | HELLO opens a session with nothing delivered, bound as HELLO binds, is answered by an ACK carrying the session's file id, and touches no other session or file |
| `EndToEnd.MakesBlock` | `src/proto.c:345-382` | The FILE or END stream made for block n decodes to exactly that file id, number and contents |
| `EndToEnd.MakesHello` | `src/proto.c:304-336` | The HELLO stream decodes to the block count, base name and checksum of the file, and the sender table then maps the id to the path |
| `EndToEnd.FaithfulStep` | `src/proto.c:487-600` | One true block either moves the session on, or, exactly when it completes the blocks, closes it with the file under its working name, its callback run and its entry released |
| `EndToEnd.Stream` | `src/proto.c:487-600` | After any stream of true blocks the session is where its history of deliveries puts it, or closed with the file |
| `EndToEnd.PartOfFile` | `src/proto.c:499-522` | While a session is open its part file is the file up to the first byte of the first missing block |
| `Transfer.BlockStep` | `src/proto.c:487-599` | One block on a session with any history: it continues while a block is missing; the completing message renames the part file, and the hash comparison alone decides between release and ERR_PROTO |
| `Transfer.FinishCloses` | `src/proto.c:543-599` | Completion moves the part file to the final name and, only on equal checksums, runs the callback, releases the entry and ends the session |
| `Transfer.HandleContinues` | `src/proto.c:398-600` | Noise, ACKs and blocks never open a session nor change what HELLO fixed in one |
| `Recovery.RoundGains` | `src/proto.c:499-522` | Each round strictly raises nextid or closes the session with the file |
| `Recovery.Answers` | `src/proto.c:602-622` | The answer to GIVEME n is block n, as END exactly when n is the last block |
| `Recovery.MakesGiveme` | `src/proto.c:363-371` | A GIVEME made from any path with the file's base name asks the right file for the right block |
| `Interleaving.InterleaveStep` | `src/proto.c:487-599` | ... and each of its own messages gets the same result and the same reply in both runs |
| `Interleaving.OwnMessage` | `src/proto.c:494-599` | What a session's message does depends on that session and its two files only |
| `Interleaving.OtherMessage` | `src/proto.c:494-599` | Another session's message changes none of the three |
| `Refusal.ZeroStays` | `src/proto.c:398-631` | One call of any kind ends session 0 exactly if it is one of those two |
| `Refusal.EmptyNameArrives` | `src/codec.c:82-98` | Such a HELLO comes in as a stream of fourteen bytes, which every receiver without session 0 accepts |
| `Interleaving.SharedName` | `src/proto.c:453-471` | A HELLO for the very name that another session's HELLO was numbered to is given that name too |
| `Naming.LiveNamesApart` | `src/proto.c:453-471` | Live names that are apart are the hypothesis of Interleaving.Interleave, both ways |
| `Runs.StepStands` | `src/proto.c:195-731` | One call of any kind leaves each session where its own deliveries put it |
| `Runs.FailedStep` | `src/proto.c:499-549` | A session that failed its hash check stores further blocks, reports its missing part file, and changes nothing else |
| `Interleaving.HelloEffect` | `src/proto.c:423-481` | The whole new state after a HELLO that is not refused |
| `Reassembly.PartIsPrefix` | `src/proto.c:499-522` | With true contents the part file is the first nextid blocks, whatever the order |
| `Reassembly.Accounting` | `src/proto.c:499-535` | len is nextid plus the slots in use plus the number of times an empty buffered block was replaced |
| `Reassembly.CountsRight` | `src/proto.c:499-535` | For true contents, incomplete, with only the last block possibly empty: the intended count holds exactly unless that block is empty and came more than once |
| `Reassembly.DoubleCount` | `src/proto.c:524-535` | An input: the empty last block of two, sent twice, uses one slot and makes len 2 |
| `Reassembly.DrainStops` | `src/proto.c:506-522` | The draining loop stops at the first gap and empties exactly the slots before it |
| `Reassembly.DrainAppends` | `src/proto.c:506-522` | It appends the blocks of those slots in order |
| `Registry.HelloBinds` | `src/proto.c:436-451` | HELLO binds the unique entry with its name, or slot 0 when there is none |
| `Registry.BindReleased` | `src/proto.c:436-451` | What HELLO binds is the entry of that name or slot 0: its callback is the one run, and releasing it takes out that entry alone |
| `Registry.RegisterKeeps` | `src/proto.c:637-702` | Registering keeps the registry in order and every session bound |
| `Registry.ReleasedKeeps` | `src/proto.c:579-590` | Releasing one session's entry leaves every other session bound |
| `ProtocolCode.Proto.HandleHello` | `src/proto.c:423-481` | The HELLO branch refines the state machine |
| `ProtocolCode.Proto.HandleBlock` | `src/proto.c:487-600` | The FILE and END branch refines the state machine |
| `ProtocolCode.Proto.ReceiveBlock` | `src/proto.c:499-535` | Append and drain, or store: context and part file become what one reassembly step gives |
| `ProtocolCode.Proto.DrainBuffered` | `src/proto.c:506-522` | The do-while loop over entries computes the drain |
| `ProtocolCode.Proto.FinishSession` | `src/proto.c:543-599` | The completion branch refines the state machine, other sessions staying bound |
| `ProtocolCode.Proto.HandleGiveme` | `src/proto.c:602-622` | The GIVEME branch refines the state machine |
| `ProtocolCode.Proto.Hash` | `src/hash.c:210-219` | NFTP_HASH through the slicing tables is the CRC-32C of the bytes, at any address |
| `ProtocolCode.Proto.FreeName` | `src/file.c:84-110` | The loop finds the first free numbered name, or none |
| `ProtocolCode.Proto.LastEntry` | `src/proto.c:436-444` | The iterator loop ends with the last entry of that name |
| `Tables.TableSet.constructor` | `src/proto.c:116-123` | Three separate empty tables under any hash function |
| `Tables.TableSet.InsertFile` | `src/proto.c:473-477` | The session table gains or replaces one key, the other tables untouched |
| `Crc32cCode.Crc32c.Sw` | `src/hash.c:177-208` | Prologue, 64-bit words and tail continue a checksum; the accumulator's upper half is zero between steps |
| `Crc32cCode.Crc32c.InitSw` | `src/hash.c:149-172` | The loops fill all eight tables with division by their index |
| `Crc32cCode.Crc32c.EightBytes` | `src/hash.c:190-203` | Eight simultaneous look-ups take in eight bytes |
| `Crc32cCode.Crc32c.OneByte` | `src/hash.c:184-187` | One look-up takes in one byte and keeps the upper half zero |
| `Crc32cCode.ResumeIsBitSerial` | `src/hash.c:177-208` | The byte-wise fold over the reflected register is the bit-serial definition |
| `Crc32cCode.ResumeConcat` | `src/hash.c:177-208` | crc32c_sw(crc32c_sw(c, a), b) = crc32c_sw(c, a ++ b) |
| `CrcSlicing.LanesIsFold` | `src/hash.c:194-201` | Folding bytes one by one equals summing each byte's own table entry |
| `CrcWord.WordLookup` | `src/hash.c:190-201` | The word loop's eight terms sum to those entries |
| `CrcSamples.SamplesDiffer` | `src/hash.c:210-219` | The checksums of "a", "a_01" and "a.part" worked out, so that the inputs above are inputs |
| `Crc32Code.Table` | `src/hash.c:66-119` | Each of the 256 constants is bit-wise division of its index |
| `HashTables.HashTable.constructor` | `hashtable/hashtable.c:11-34` | An empty table of capacity at least 8, under any hash and any equivalence |
| `HashTables.HashTable.Contains` | `hashtable/hashtable.c:150-168` | Found exactly when an equal key is in the map |
| `HashTables.HashTable.Lookup` | `hashtable/hashtable.c:170-188` | The mapped value, or nothing |
| `HashTables.HashTable.Reserve` | `hashtable/hashtable.c:272-285` | The map is unchanged; capacity as the code computes it |
| `HashTables.HashTable.Clear` | `hashtable/hashtable.c:248-260` | The map is empty, the capacity 8 |
| `HashTables.HashTable.Take` | `hashtable/hashtable.c:210-236` | The found node leaves the map, and size drops by one |
| `HashTables.HashTable.Relocate` | `hashtable/hashtable.c:409-420` | Resizing to any positive capacity keeps the node set and counts each node moved once |
| `HashTables.HashTable.Unlink` | `hashtable/hashtable.c:224-231` | Bypassing a node keeps every chain well formed |
| `TableShape.AmortisedFrom` | `hashtable/hashtable.c:380-439` | The same with reserve, charging only what reserve itself relinked |
| `TableShape.StepPaid` | `hashtable/hashtable.c:332-340` | Every operation keeps both asserted size bounds and the potential invariant |
| `Codec.Nftp.AppendPut32` | `src/codec.c:151-164` | Writing a field and appending its slice leaves every earlier slice reading what it read |
| `Codec.Nftp.PushHead` | `src/codec.c:194-198` | Length and type go in front and spoil no body slice |
| `Codec.PutAt32` | `src/nftp.h:186-192` | The four digits in base 256 at one place, highest first, all other ranges unchanged |
| `Bytes.GetPut32` | `src/nftp.h:186-198` | A 32-bit field read where it was put gives its value |
| `Bytes.PutGet32` | `src/nftp.h:186-198` | Putting a value read restores its bytes |
| `GatherVectors.Iovs.constructor` | `src/iovs.c:35-58` | An empty vector of 32 slots starting at a third |
| `GatherVectors.Iovs.Push` | `src/iovs.c:94-127` | One slice at either end, with the code's results; a tail push with low + len == cap, and no other, leaves the buffer |
| `GatherVectors.Iovs.Pop` | `src/iovs.c:129-160` | The slice at either end, with the errors in the code's order |
| `GatherVectors.Iovs.Cat` | `src/iovs.c:174-198` | The other vector's slices after this one's, or overflow |
| `GatherVectors.Iovs.ToStream` | `src/iovs.c:213-234` | The bytes the slices refer to at that moment, end to end |
| `Vectors.Vec.constructor` | `src/vector.c:32-51` | An empty deque of the asked capacity, or 32 |
| `Vectors.Vec.Push` | `src/vector.c:111-142` | Either end of the sequence grows, through every wrap-around |
| `Vectors.Vec.Pop` | `src/vector.c:144-174` | Either end of the sequence is taken |
| `Vectors.Vec.Insert` | `src/vector.c:69-90` | The element stands at pos, those after it shifted |
| `Vectors.Vec.Delete` | `src/vector.c:92-109` | The element at pos goes, those after it shifted |
| `Vectors.Vec.Get` | `src/vector.c:176-186` | The element at a logical index, or overflow |
| `Vectors.Vec.GetIdx` | `src/vector.c:188-198` | The first index of an element, or ERR_EMPTY |
| `Vectors.Walk` | `src/vector.c:213-227` | The forward iterator yields the sequence once, in order |
| `Blocks.LastEmpty` | `src/file.c:149-161` | The last block is empty exactly when the size is a multiple of the block size |
| `Blocks.ReadBlk` | `src/file.c:163-206` | The buffer holds what that offset yields; absent files and larger indices are refused |
| `Blocks.FileBlocks` | `src/file.c:149-161` | The number of blocks of the partition |
| `Names.CrcOfNothing` | `src/hash.c:210-219` | The file id of the empty name is 0 |
| `Names.BasenameOfBasename` | `src/file.c:46-63` | A base name is its own base name, so the ACK's file id is the session's |
| `Places.StepInside` | `src/proto.c:195-731` | The same for one call of any kind |
| `Places.HelloPlaces` | `src/nftp.h:108-122` | HELLO touches one path, receive directory, working name and ".part" spelled out, and leaves an empty file there |
| `Places.BlockPlaces` | `src/proto.c:487-600` | A block touches its session's part path and final path alone; for an unknown session it is refused with 17 and touches nothing |
| `Places.StopPlaces` | `src/proto.c:195-260` | Stop ends the session, takes its part path away and touches no other; 17 without a session, 2 without a part file, and the entry is then kept |
| `Outcomes.MakerRefuses` | `src/proto.c:289-392` | Every result of the maker, in numbers, and that a refusal makes and changes nothing; HELLO alone records the path |
| `Outcomes.GivemeAnswers` | `src/proto.c:602-622` | Unknown file 17, file gone 2; past the end the result is 0 and nothing is sent; else the block asked for, as END exactly if it is the last |
| `Outcomes.AsideAnswers` | `src/proto.c:413-486` | Noise is refused with the decoder's code and an ACK accepted; neither changes or answers anything |
| `Outcomes.StatusTells` | `src/proto.c:262-287` | For any session and history: its capacity, and the least block number not delivered |
| `Outcomes.StatusUnknown` | `src/proto.c:270-276` | Without a session: 17, -1, and the capacity left alone |
| `Outcomes.HelloMarks` | `src/proto.c:479` | An accepted HELLO marks the session 1 |
| `Outcomes.BlockMarks` | `src/proto.c:538-565` | A block marks it 3 or 4, a failed hash check 5; a block for a session is answered with 0, 2 or 11 only |
| `Registry.InitServes` | `src/proto.c:111-126` | After init no name runs anything; after registering "*" every name runs its callback |
| `Naming.WorkingNameIs` | `src/file.c:84-110` | The file's own name if free in the directory, else the least of "_01" to "_99" that is, else none |
| `Names.BasenameOf` | `src/file.c:46-63` | The base name of d/b, with any slashes after it, is b |
| `Names.BasenamePlain` | `src/file.c:46-63` | It is never empty and holds no slash, unless the path is slashes only; that of the empty path is "." |
| `Names.CStrIs` | `src/codec.c:86-89` | What C sees of a name is all before its first zero byte |
| `WireFormat.ParseHello` | `src/codec.c:83-98` | The fields of any accepted HELLO as weighted sums of bytes at their places, whatever follows them |
| `WireFormat.ParseBlock` | `src/codec.c:106-116` | The same for FILE and END |
| `WireFormat.ParseShort` | `src/codec.c:100-123` | The same for ACK and GIVEME |
| `WireFormat.SampleHello` | `test/codec.c:39-71` | The HELLO stream of the test suite |
| `WireFormat.SampleAck` | `test/codec.c:75-104` | Its ACK stream |
| `WireFormat.SampleBlock` | `test/codec.c:107-176` | Its FILE and END streams |
| `WireFormat.SampleGiveme` | `test/codec.c:179-211` | Its GIVEME stream |
| `Bytes.Put32Digits` | `src/nftp.h:186-192` | The four bytes are the digits in base 256, highest first |
| `CrcSamples.SampleCrcs` | `test/hash.c:26-30` | The five checksum values the test suite expects, of both checksums |
| `CrcSamples.SampleHashes` | `test/hash.c:27-30` | The same as the numbers that serve as file ids |
| `TableShape.SizesAre` | `hashtable/hashtable.c:272-420` | In numbers: a full table doubles, erasing the last entry falls back to 8, reserve asks for a fifth, clear gives 8 |

## Left out

- Real file I/O, its errors other than a missing file, and directories: the file system is a map.
- The fixed-size path buffers of `src/proto.c`: names and paths have any length.
- The width of `int` and `size_t` counters: `len` of a session and the sizes of a hash table are unbounded.
- Allocation failure, freeing, mutexes and `nftp_proto_fini`.
- Codec.Nftp.Encode: a content length of 2^32 or more, which the code truncates, is excluded by its precondition.
- GatherVectors.Iovs.Push: the memory past the buffer is modelled as one more slot, not as whatever else lives there.
- Vectors.Vec.Insert: a negative pos, which the code does not refuse: it then takes stale slots into the sequence, or writes before the array.
- Registry.RunsKeep: no run that unregisters a name a live session is bound to (Registry.UnregisterKeeps says exactly when that is): the session is left with a freed entry, and what the code does with it then is undefined.
- Runs.RunsTrack: no run with a HELLO that fails the check of its name, after which two sessions write one file.
- EndToEnd.InterleavedTransfer: says nothing of the registry and the callbacks, which the sessions share; EndToEnd.Transfers does, for a transfer on its own.
- EndToEnd.Transfers: blocks only of the announced contents; altered contents are the subject of Recovery.BurstRejected.
- Interleaving.Interleave: FILE and END messages, ACKs and noise; HELLOs and the other calls between them are the subject of Runs.RunsTrack.
- ProtocolCode.Proto.RunCallback: a callback is recorded, not run, so one that calls back into the library is not modelled.
- Tables.TableSet.LookupFile: the table stores the context object itself, where the code stores a pointer to it in a copied cell.
- `nftp_iovs_insert` and `ht_swap`, which the code gets wrong in ways no caller meets, and `ht_move`, `ht_destroy`.
- Backward iterators and the dispatch of `src/iter.c`.
- The other hashes of `src/hash.c` (djb, FNV-1a, CRC-8) and the default hash of the hash table.
- `nftp_decode_iovs`, `nftp_proto_hello_get_fname`, and the setters of receive directory and block size.
- Windows branches and logging.
