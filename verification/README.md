# PolyCache, modelled and proved in Dafny

PolyCache is an in-memory cache that speaks RESP2. This project models its stateful parts as they are written (the
incremental parser, the three eviction policies, the storage, the deadline table and its sweeper thread, the append-only
log, the client event handlers with their outboxes) and proves what each one promises, up to one statement about a
whole connection (whatever way requests are fragmented and sends fall short, the bytes a client has received and is
about to receive read back as one reply per command, in order) and one about the program's whole life (what its log
restores at the next start agrees with what it held at its end).

`dafny verify dfyconfig.toml` checks everything.

## How it is laid out

| file | what is in it |
|---|---|
| `Bytes.dfy`, `Sequences.dfy` | byte strings, decimal numerals, list and map arithmetic |
| `RespMachine.dfy` | the request grammar, and a byte-at-a-time machine proved to accept exactly its frames |
| `RespStream.dfy` | pipelined streams: fragmentation, and the round trip with the encoder |
| `Parser.dfy` | the `Parser` class, whose `consume` refines the machine although payloads are block-copied |
| `Lru.dfy`, `SieveOrder.dfy`, `Sieve.dfy`, `Lfu.dfy` | each policy's order as a value, its theorems, and the class that implements it (SIEVE over heap nodes) |
| `Policies.dfy` | the policies' common contract, the objects that meet it, and storage over any policy from that contract alone |
| `Ttl.dfy`, `Cache.dfy`, `Storage.dfy` | deadlines, the cache as a value with its invariants, the `Storage` class that refines it |
| `Sweeper.dfy` | the sweeper thread against client operations, as interleaved atomic steps under a scheduler |
| `Base64.dfy`, `Aof.dfy` | the log's codec, the log as a fold over records, replay as a machine with the sweeper among its steps |
| `Replies.dfy`, `Commands.dfy` | replies and the client's reader, SET's options, what each command answers, does and logs |
| `Outbox.dfy`, `Server.dfy` | partly sent responses, the socket as an oracle, and the server's event handlers |
| `Meaning.dfy` | what each request means, told from its bytes: letters, texts and figures, for every event of a server's history |

A method that changes state is specified by a function on values (`Abs`, `Items`, `At`), and the theorems are about
that function. Each policy object also records its operations: from its construction on, its value is the one that the
history theorems speak of (`Recorded`). Time is a parameter in nanoseconds. The allocator shows as a parameter: a
string's capacity is any number not below its length, and the hash table's bucket count changes only on insertion and
never falls. A socket is an oracle that may accept any part of a send, refuse it, be interrupted or fail, and may
deliver a stream in any chunks.

## What the code decides differently from a first reading

These are proved, with the exact condition where there is one.

- **SIEVE can evict a visited tail.** The walk wraps to the tail without testing its bit. It happens exactly when the hand
  is not at the tail, the tail is visited and so is everything from the hand to the head (`WhenVisitedIsEvicted`).
- **A fresh value can be swept.** Between the sweeper's collection of a key and its callback a SET can store a new
  value, which the callback then removes (`FreshValueCanBeSwept`). A callback removes an expired value exactly when no SET
  overlapped the wait, or that SET's own deadline has passed too (`SweepIsTimely`). In the same window a GET can return a
  value past its deadline (`LateHitHappens`), and only then (`HitIsTimely`).
- **An accepted SET can evict itself.** `can_store` does not count the bucket array, the eviction loop does. The new key
  survives exactly when its own cost and the bucket array fit the limit (`NewKeySurvives`, `AcceptedSetCanEvictItself`
  at a limit of 1 MiB).
- **A reply can be cut short by what it echoes.** An unknown verb that holds CRLF, or an unsupported SET option that holds
  it before its own end, is echoed as it is; the client then reads a reply that ends inside the answer, and goes on
  reading there: a second reply (`SplitVerb`) or nothing it can read (`UnreadableVerb`). A response is one reply if and
  only if the echoed text is safe (`OneReply`).
- **An array whose first string is empty is not answered**, just like an empty array (`BlankCommands`).
- **A GET of an expired key counts an expiration even when nothing is stored under the key**, so insertions balance
  only up to such phantom expirations, which happen (`Conservation`, `PhantomExpiration`); with atomic sweeps there are
  none (`AtomicConservation`).
- **A protocol error bypasses the outbox**, so the stream a client sees is exact up to that step (`Reject`).
- README.md:58 of the repository says that the memory limit is enforced after each write; the code reaches it by
  evicting the key just acknowledged, when it must. README.md:46 says that the log holds applied commands; the code
  logs a SET before it applies it, after checking that it will be accepted.

## Model

| member | source | states |
|---|---|---|
| `Decimal.ValueOfPrint` | tests/test_protocol.cpp:15-21 | printing a number and reading its digits gives the number back |
| `Decimal.ValueByPlace` | src/protocol.cpp:38-51 | digits count by their place, the first for the highest power of ten |
| `RespMachine.RunConcat` | src/protocol.cpp:94-217 | running over a concatenation is running over the first part and, unless it stopped, on over the second |
| `RespMachine.RunSound` | src/protocol.cpp:94-217 | wherever the machine stops, the bytes it took have the concrete syntax that its state stands for |
| `RespMachine.RunFront` | src/protocol.cpp:94-217 | a count line and any well-formed bulks drive the machine to having exactly those bulks |
| `RespMachine.AcceptsExactlyFrames` | src/protocol.cpp:94-217 | sound and complete: `args` are ready after exactly `n` bytes iff those bytes are a frame of the lenient grammar (1 to 18 digits, CRLF or bare LF, at most 1024 arguments, bulks within the limit) that carries `args` |
| `RespMachine.FramesArePrefixFree` | src/protocol.cpp:94-217 | no frame is a proper prefix of another and no frame carries two argument lists, so pipelined decoding is unique |
| `RespMachine.HeaderErrors` | src/protocol.cpp:106-165 | the error text of every bad header line: longer than 32 bytes, not a tag and 1 to 18 digits, more than 1024 arguments, or a bulk over the limit |
| `RespMachine.TrailerErrors` | src/protocol.cpp:183-214 | the error text of a payload that is not followed by a line end |
| `RespStream.FeedOneCall` | src/protocol.cpp:94-217 | the bytes that one call of `consume` takes off a stream lead the byte-at-a-time reader exactly where the call ends |
| `RespStream.FeedFrame` | src/protocol.cpp:94-217 | a frame at the front of a stream delivers its arguments and leaves the reader fresh on what follows |
| `RespStream.EncodeIsFrame` | tests/test_protocol.cpp:15-21 | an encoded command is a frame carrying that command iff it is within the parser's limits |
| `RespStream.RoundTrip` | tests/test_protocol.cpp:15-21 | the concatenated encodings of any commands within the limits deliver exactly those commands in order and leave the reader fresh |
| `RespStream.EncodableMeans` | src/protocol.cpp:38-51 | the limits in figures: 1024 arguments, each within the bulk limit and below 10^18 bytes |
| `RespStream.DeliveredOrRefused` | src/protocol.cpp:94-217 | an encoded command at the front of a stream is delivered iff it is within the limits, and otherwise is an error, with nothing of it delivered |
| `Protocol.BlankCommands` | src/protocol.cpp:53-82 | a command is skipped without a reply iff its array is empty or its first string is |
| `Protocol.VerbMeans` | src/protocol.cpp:53-82 | which command a verb is, letter by letter in either case, with the arguments after it in order |
| `Protocol.ReadLine` | src/protocol.cpp:19-36 | the line reader agrees with the machine: more needed, a whole line without its line end, or too long |
| `Protocol.ParseUint` | src/protocol.cpp:38-51 | succeeds iff the text is 1 to 18 digits, with their value, which a 64-bit integer holds |
| `Protocol.Parser.HeaderValue` | src/protocol.cpp:114-120 | the number of a header line, if it has the tag and the digits |
| `Protocol.Parser.ConsumeArrayLen` | src/protocol.cpp:106-134 | the array header refines the machine, with its errors |
| `Protocol.Parser.ConsumeBulkLen` | src/protocol.cpp:136-165 | the bulk header refines the machine, with its errors |
| `Protocol.Parser.ConsumePayload` | src/protocol.cpp:167-181 | copying a block of payload at once is what the machine does byte by byte |
| `Protocol.Parser.ConsumeTrailer` | src/protocol.cpp:183-214 | the line end after a payload refines the machine, also when it is cut between CR and LF |
| `Protocol.Parser.Consume` | src/protocol.cpp:94-217 | one call takes exactly the bytes the machine takes and ends in its state: ready with its arguments classified and the parser fresh again, more needed with nothing left, or its error |
| `Protocol.ReadChunk` | tests/test_protocol.cpp:23-38 | the loop around `consume` takes every command off one chunk, and stops at the first error |
| `Protocol.ReadChunks` | src/server.cpp:252-273 | a parser object fed any partition of a byte stream, chunk by chunk through `consume`, delivers the commands and ends in the state or the first error of the byte-at-a-time reading of the whole stream |
| `LruOrder.OrderIsRecency` | src/eviction/lru.cpp:5-47 | over any history the list is the live keys by their last add or touch, with the sizes last added |
| `LruOrder.LastUseIsLatest` | src/eviction/lru.cpp:5-25 | the recency above is the latest add or touch in the history, and nothing later uses the key |
| `LruOrder.OpContents` | src/eviction/lru.cpp:5-47 | what each operation adds and drops, and that it leaves every other key as it was |
| `LruOrder.EvictTakesOldest` | src/eviction/lru.cpp:37-47 | an eviction takes the one live key whose last use in the whole history is oldest |
| `LruOrder.FrontIsRecent` | src/eviction/lru.cpp:5-47 | the front of the list up to an item costs what all the items cost that have been used since that item was |
| `LruPolicy.LRU.Touch` | src/eviction/lru.cpp:5-11 | list and index refine the order: the key's node moves to the front |
| `LruPolicy.LRU.Add` | src/eviction/lru.cpp:13-25 | likewise for insertion and for overwriting a size, with the memory counter exact |
| `LruPolicy.LRU.Remove` | src/eviction/lru.cpp:27-35 | likewise for removal |
| `LruPolicy.LRU.Evict` | src/eviction/lru.cpp:37-47 | takes the last node and returns its key, or the empty string from an empty list |
| `LruPolicy.LRU.MemoryUsed` | src/eviction/lru.cpp:49-51 | the counter is the total cost of the list |
| `SieveOrder.EvictTakesNearestUnvisited` | src/eviction/sieve.cpp:67-95 | the victim is the nearest unvisited entry at or headward of the start, or the tail if there is none |
| `SieveOrder.EvictClearsPassed` | src/eviction/sieve.cpp:67-95 | exactly the entries passed lose their bit, nothing else changes, and the hand stops headward of the victim |
| `SieveOrder.WhenVisitedIsEvicted` | src/eviction/sieve.cpp:71-78 | the exact condition under which the victim still has its visited bit |
| `SieveOrder.NullHandEvictsUnvisited` | src/eviction/sieve.cpp:71-78 | from a null hand the victim's bit is clear when it is taken |
| `SieveOrder.VisitedTailCanBeEvicted` | src/eviction/sieve.cpp:76-78 | a run from an empty policy after which a visited tail is evicted |
| `SieveOrder.ApplyValid` | src/eviction/sieve.cpp:14-95 | every operation keeps keys distinct and the hand null or in the list |
| `SieveOrder.TouchMarks` | src/eviction/sieve.cpp:14-20 | a touch marks its key visited, whether it was or not, and nothing else |
| `SieveOrder.AddPlaces` | src/eviction/sieve.cpp:22-41 | a new key goes to the head unvisited, with the hand on its old entry; a known key only changes its size |
| `SieveOrder.RemoveDrops` | src/eviction/sieve.cpp:43-65 | a removal drops one entry; the hand stays on its own, or moves headward from the one dropped |
| `SieveOrder.StepWaits` | src/eviction/sieve.cpp:14-95 | no operation on other keys moves an unvisited entry further from the hand, and an eviction brings it nearer or takes it |
| `SieveOrder.BoundedWait` | src/eviction/sieve.cpp:67-95 | an unvisited entry is evicted within its distance from the start plus one evictions, whatever is added, removed and touched in between |
| `SievePolicy.SIEVE.Touch` | src/eviction/sieve.cpp:14-20 | the pointer list refines the slots: one bit is set |
| `SievePolicy.SIEVE.Add` | src/eviction/sieve.cpp:22-41 | a new node is linked at the head, or a size overwritten; links stay inverse and acyclic, the index a bijection, the counter exact |
| `SievePolicy.SIEVE.Remove` | src/eviction/sieve.cpp:43-65 | a node is unlinked wherever it is, and a hand on it moves headward |
| `SievePolicy.SIEVE.Walk` | src/eviction/sieve.cpp:71-75 | the walk ends at the nearest unvisited node or off the head, having cleared exactly the bits it passed |
| `SievePolicy.SIEVE.FindVictim` | src/eviction/sieve.cpp:71-78 | the victim is the one the slot order names, tail included |
| `SievePolicy.SIEVE.Evict` | src/eviction/sieve.cpp:67-95 | refines the slot order's eviction and returns the victim's key, or the empty string from an empty list |
| `SievePolicy.SIEVE.MemoryUsed` | src/eviction/sieve.cpp:97-99 | the counter is the total cost of the slots |
| `LfuOrder.TableIsHistory` | src/eviction/lfu.cpp:5-62 | over any history the table holds exactly the live keys, each with one more than its touches since insertion and when it got there |
| `LfuOrder.VictimByHistory` | src/eviction/lfu.cpp:49-62 | the victim rule read off the history alone: the live key least by count, then by when the count was reached |
| `LfuPolicy.LFU.Touch` | src/eviction/lfu.cpp:5-18 | moving a node to the next bucket refines the table; iterators stay in their own buckets and `min_freq_` stays a lower bound |
| `LfuPolicy.LFU.Add` | src/eviction/lfu.cpp:20-33 | likewise for insertion at count 1 and for overwriting a size |
| `LfuPolicy.LFU.Remove` | src/eviction/lfu.cpp:35-47 | likewise for removal, with `min_freq_` left lazy |
| `LfuPolicy.LFU.Search` | src/eviction/lfu.cpp:53-55 | the bucket search ends, at the least count in use |
| `LfuPolicy.LFU.Evict` | src/eviction/lfu.cpp:49-62 | takes the key that the victim rule names and nothing else, or returns the empty string from an empty policy |
| `LfuPolicy.LFU.MemoryUsed` | src/eviction/lfu.cpp:64-66 | the counter is the cost of the entries |
| `PolicyContract.TouchContract` | src/eviction/policy.h:10-10 | for all three policies, a touch changes neither what is held nor any size |
| `PolicyContract.AddContract` | src/eviction/policy.h:11-11 | an add sets one key's size and changes no other |
| `PolicyContract.RemoveContract` | src/eviction/policy.h:12-12 | a remove drops exactly its key |
| `PolicyContract.EvictContract` | src/eviction/policy.h:13-13 | an eviction drops exactly the key it returns, which the policy held |
| `PolicyContract.EvictDecided` | src/eviction/policy.h:13-13 | a policy that holds anything has a victim, and only one |
| `PolicyContract.MemoryContract` | src/eviction/policy.h:14-14 | the memory reported is the cost of what is held |
| `PolicyObjects.ValidIsOk` | src/eviction/policy.h:6-15 | every LRU, LFU and SIEVE object in order satisfies what the contract assumes |
| `PolicyObjects.Touch` | src/eviction/policy.h:10-10 | a touch of any of the three objects is the touch of the contract |
| `PolicyObjects.Add` | src/eviction/policy.h:11-11 | likewise an add |
| `PolicyObjects.Remove` | src/eviction/policy.h:12-12 | likewise a remove |
| `PolicyObjects.Evict` | src/eviction/policy.h:13-13 | an eviction returns the contract's victim and leaves its remainder, or returns the empty string from an empty object |
| `PolicyObjects.MemoryUsed` | src/eviction/policy.h:14-14 | the counter any of the three objects reports is the cost of what it holds |
| `AnyPolicyStorage.UnshelveKeeps` | src/storage.cpp:159-169 | with any policy, erasing a key keeps table and policy together, and neither byte counter goes below zero |
| `AnyPolicyStorage.LoopKeeps` | src/storage.cpp:145-157 | with any policy the loop ends empty or within the limit, removes exactly its victims, one a turn, and never meets a victim the table does not hold |
| `AnyPolicyStorage.LoopEnds` | src/storage.cpp:145-157 | with any policy the loop reaches its exit |
| `AnyPolicyStorage.LoopDecided` | src/storage.cpp:145-157 | the policy's state decides the victims and the outcome |
| `AnyPolicyStorage.AnyPolicyAnyRun` | src/storage.cpp:31-169 | over any run with any policy: keys and sizes agree, memory used is the cost of what is stored with the bucket array, and the cache is empty or within its limit |
| `AnyPolicyStorage.CacheLoop` | src/storage.cpp:15-18 | the cache over LRU modelled below is an instance |
| `AnyPolicyStorage.SetIsStore` | src/storage.cpp:31-74 | an accepted SET of the cache over LRU is a store step of storage over any policy, eviction loop included |
| `AnyPolicyStorage.GetIsHitOrDrop` | src/storage.cpp:76-99 | a GET is a hit or a drop there, or leaves table and policy alone |
| `AnyPolicyStorage.DelIsDrop` | src/storage.cpp:101-112 | a DEL is a drop |
| `AnyPolicyStorage.ExpireIsDrop` | src/storage.cpp:159-169 | so is the sweeper's callback |
| `TtlTable.TTLManager.SetTtl` | src/ttl.cpp:20-27 | sets one deadline, or drops it for a duration that is not positive |
| `TtlTable.TTLManager.IsExpired` | src/ttl.cpp:29-40 | answers whether the deadline has passed, and drops it just then |
| `TtlTable.TTLManager.CollectExpired` | src/ttl.cpp:42-55 | collects exactly the passed deadlines, each key once, and keeps every other |
| `CacheModel.SetKeeps` | src/storage.cpp:31-74 | a SET keeps table and policy in agreement and payload bytes exact, and ends empty or within the limit |
| `CacheModel.GetKeeps` | src/storage.cpp:76-99 | so does a GET, expired or not |
| `CacheModel.DelKeeps` | src/storage.cpp:101-112 | so does a DEL |
| `CacheModel.ExpireKeeps` | src/storage.cpp:159-169 | so does the sweeper's callback |
| `CacheModel.UsedIsSum` | src/storage.cpp:137-143 | what the policy has charged is the key length and accounted size of every stored key |
| `CacheModel.EvictLoopEffect` | src/storage.cpp:145-157 | the loop only drops keys, with their deadlines, and counts each |
| `CacheModel.Survivors` | src/storage.cpp:145-157 | the survivors are the longest prefix of the recency order that fits the limit with the bucket array |
| `CacheModel.SurvivorsByUse` | src/storage.cpp:145-157 | the same read off the policy's history: an item survives iff it fits the limit together with the bucket array and every item used since it was |
| `CacheModel.SetSurvivors` | src/storage.cpp:31-74 | which keys are left after an accepted SET, by the history of use that ends with the SET's own |
| `CacheModel.NewKeySurvives` | src/storage.cpp:20-74 | an accepted SET's own key survives, with its value, iff its cost and the bucket array fit |
| `CacheModel.SetEntries` | src/storage.cpp:31-74 | after an accepted SET its key, if it stays, has the new value and the deadline of its duration, and every other key that stays its own |
| `CacheModel.AcceptedSetCanEvictItself` | src/storage.cpp:20-29 | with a limit of 1 MiB and a bucket array of any size, a SET of a value of 129 bytes less than that is accepted and does not survive |
| `StorageEngine.Storage.OrderIsHistory` | src/storage.cpp:31-169 | between operations, the policy object's list is the live keys by their last use among all the operations the storage asked it for |
| `StorageEngine.Storage.UsedMemory` | src/storage.cpp:137-143 | the policy's counter and the bucket array |
| `StorageEngine.Storage.EvictVictim` | src/storage.cpp:145-157 | one turn of the loop is one eviction; the victim is always in the table, even if its key is the empty string |
| `StorageEngine.Storage.EvictIfOverLimit` | src/storage.cpp:145-157 | the loop ends, empty or within the limit, and is the cache's eviction loop |
| `StorageEngine.Storage.Set` | src/storage.cpp:31-74 | the object's whole new state is the cache's SET, accepted iff it may be stored, and its invariant holds again |
| `StorageEngine.Storage.Get` | src/storage.cpp:76-99 | likewise for GET and what it returns, on the expired, missing and found paths |
| `StorageEngine.Storage.Del` | src/storage.cpp:101-112 | likewise for DEL |
| `StorageEngine.Storage.CollectExpired` | src/ttl.cpp:42-55 | the sweeper's first phase changes nothing but deadlines, and hands over exactly the expired keys |
| `StorageEngine.Storage.Expire` | src/storage.cpp:159-169 | likewise for the sweeper's callback |
| `SweeperProtocol.StepKeeps` | src/ttl.cpp:20-83 | every step of every operation, of the sweeper and of the clock keeps the invariant |
| `SweeperProtocol.DeadlineOfLastSet` | src/ttl.cpp:20-83 | in every reachable state, a stored key that the sweeper does not hold has the deadline its last SET gave it |
| `SweeperProtocol.HitIsTimely` | src/storage.cpp:76-99 | a GET that will return a value checked it past its deadline iff the sweeper then held the key |
| `SweeperProtocol.LapseIsTimely` | src/storage.cpp:78-88 | a GET drops a value only after its deadline |
| `SweeperProtocol.SweepIsTimely` | src/ttl.cpp:76-81 | the next callback removes a value whose deadline has passed iff no SET of the key overlapped its wait, or that SET's own deadline has passed too |
| `SweeperProtocol.FreshValueCanBeSwept` | src/ttl.cpp:76-81 | for any bucket count to start with and any least string capacity: if the limit admits one least entry with the bucket array, and only then, a run leads to a callback that removes a value that never expires |
| `SweeperProtocol.LateHitHappens` | src/storage.cpp:76-99 | under the same exact condition a run leads to a GET that returns a value it found past its deadline |
| `SweeperProtocol.PhantomExpiration` | src/storage.cpp:78-88 | under the same exact condition a run counts more departures than keys were inserted, so plain conservation fails |
| `SweeperProtocol.Conservation` | src/storage.cpp:31-169 | in every reachable state insertions and phantom expirations equal live keys, deletions, evictions and expirations, so departures are overcounted iff there are phantoms; hits and misses equal gets |
| `SweeperProtocol.AtomicConservation` | src/storage.cpp:31-169 | with atomic sweeps there are no phantoms |
| `SweeperProtocol.SetAlone` | src/storage.cpp:31-74 | a SET that begins and is not interrupted (no step of the clock, of the sweeper or of another operation) does, step by step, what `Storage.Set` does |
| `SweeperProtocol.GetAlone` | src/storage.cpp:76-99 | likewise GET |
| `SweeperProtocol.DelAlone` | src/storage.cpp:101-112 | likewise DEL |
| `Base64.DecodeInvertsEncode` | src/aof.cpp:17-107 | decoding an encoding gives the bytes back, for every byte string |
| `Base64.DecodesExactlyWellFormed` | src/aof.cpp:72-107 | decoding succeeds iff the text is four-aligned, of the alphabet, and padded only at its end |
| `Base64.EncodeInvertsDecode` | src/aof.cpp:17-107 | encoding a decoding gives the text back iff its unused trailing bits are zero |
| `Base64.LetterRoundTrip` | src/aof.cpp:50-70 | the letter table and its inverse agree on all 64 values, and no other character has a value |
| `Base64.StandardLetters` | src/aof.cpp:14-15 | the letters are those of RFC 4648, table 1, in its order |
| `Base64.TestVectors` | src/aof.cpp:17-48 | the first test vectors of RFC 4648, section 10 |
| `Base64.Base64Encode` | src/aof.cpp:17-48 | the loop computes the encoding |
| `Base64.Base64Decode` | src/aof.cpp:72-107 | the loop computes the decoding, and fails exactly where it does |
| `AofLog.LineReadsBack` | src/aof.cpp:109-150 | a logged SET or DEL reads back as that SET or DEL, whatever bytes its fields hold |
| `AofLog.SetValues` | src/storage.cpp:31-74 | an accepted SET changes its own key's value and no other, and takes keys away only by counted evictions |
| `AofLog.SetCovered` | src/server.cpp:353-365 | a logged SET keeps every stored value the one last logged for its key |
| `AofLog.SetAccounted` | src/server.cpp:353-365 | a logged SET keeps the log covering the cache, and exact as long as nothing was evicted or expired |
| `AofLog.DelAccounted` | src/server.cpp:379-388 | so does a logged DEL |
| `AofLog.SweepAccounted` | src/storage.cpp:159-169 | so do the sweeper's steps |
| `AofLogging.AOFLogger.LogSet` | src/aof.cpp:133-143 | appends one SET line with its fields encoded |
| `AofLogging.AOFLogger.LogDel` | src/aof.cpp:145-150 | appends one DEL line |
| `AofLogging.ReadField` | src/aof.cpp:109-120 | reads an encoded field, an old plain one, or none |
| `AofReplay.LineAccounted` | src/aof.cpp:160-183 | a line applied to a cache, or refused by it, keeps the values logged so far, less those refused, accounting for the cache |
| `AofReplay.ReplayAccounted` | src/aof.cpp:152-186 | in every run of a replay with the sweeper, every stored value is the last that the lines done give its key, those refused passed over; and nothing is missing that was not evicted or expired |
| `AofReplay.ReplayedSet` | src/aof.cpp:160-173 | a readable, accepted SET line gives its key, if it stays, its value and its whole duration from now on, and leaves every other key that stays as it was |
| `AofReplay.ReplayedDel` | src/aof.cpp:174-179 | a DEL line takes its key away and leaves every other as it was |
| `AofReplay.ReplayedNothing` | src/aof.cpp:158-183 | a line that cannot be read, or lacks a field, is passed over |
| `AofReplay.ReplayDeadlines` | src/aof.cpp:152-186 | over every run of a replay with the sweeper, a stored key that the sweeper does not hold has the deadline that its last accepted SET line gave it: its whole duration from when the line was applied |
| `AofReplay.SameKept` | src/aof.cpp:152-186 | two replays that refuse the same of a log's first records keep the same of them |
| `AofReplay.KeptOnward` | src/aof.cpp:152-186 | records of which a replay refuses none are all applied, in order, to what it kept before them |
| `AofLogging.Replay` | src/aof.cpp:152-186 | replaying any log into an empty storage, with the sweeper running all the while, is a run that applies every line once and in order, from an empty cache to the storage's; so the values that the log leaves, records refused by the storage passed over, account for what is stored, with the deadlines that its lines gave |
| `AofLogging.SweeperRuns` | src/ttl.cpp:67-83 | any number of the sweeper's steps between two log records, each collection before its callbacks, carry the run on |
| `ClientServer.Restart` | src/main.cpp:95-101 | the log of a running server, at any point, replayed into a fresh storage, stores what the log keeps; if the replay keeps of the log's beginning what the server began with, and refuses nothing logged since, no key comes back with another value than the server has, and exactly the server's values do if neither evicted or expired anything |
| `ClientServer.NoneSinceRefused` | src/server.cpp:353-365 | a replay whose memory limit exceeds the server's by its strings' spare capacity refuses nothing that the server has logged |
| `ClientServer.Lifetime` | src/main.cpp:95-123 | the program's whole life and the next start: the log replayed, the event loop run on whatever happens, each event treated in its turn, and the log replayed again; the log is the old one and then what the history has logged, and the storage restored agrees with the server's at its end, if both replays refuse the same of the old log and the second leaves its strings room |
| `SetOptions.ParseInt` | src/server.cpp:27-46 | succeeds iff the text is an optional sign and digits that fit an `int`, with their value |
| `SetOptions.ScanOptions` | src/server.cpp:320-351 | the option loop agrees with the recursive reading of the options, errors included |
| `SetOptions.OptionsAccepted` | src/server.cpp:320-351 | options are accepted with a duration iff they are an optional leading integer and then EX or PX pairs with positive amounts, the last of which counts |
| `SetOptions.AcceptedMeans` | src/server.cpp:320-351 | the accepted forms spelt out: integers by sign, digits and value, EX and PX by their letters, EX in seconds, PX in milliseconds rounded up |
| `SetOptions.IntegerMeans` | src/server.cpp:27-46 | what is read as an integer, and which: an optional sign and digits with a value of 32 bits |
| `SetOptions.SecondsMean` | src/server.cpp:332-336 | EX counts seconds; milliseconds round up to whole seconds, so a positive amount never means no expiry |
| `SetOptions.OptionsRefused` | src/server.cpp:320-351 | options that are not accepted are refused for the first that cannot follow those before it: one that is not EX or PX, one without an amount, or one with a bad amount |
| `Replies.StreamReads` | blob_bench.py:98-115 | a stream of replies is read back reply by reply, none lost, split or merged |
| `Replies.BulkBytesRead` | blob_bench.py:91-115 | a bulk reply reads back as its own bytes, line ends among them, and takes exactly its own length |
| `Replies.TextReads` | blob_bench.py:98-106 | a text line reads back as itself up to its first line end |
| `Commands.EchoReply` | src/server.cpp:350-402 | a reply with an echoed text is one reply, unless that text holds CRLF, not counting one at the very end of an option: then the reply read ends early |
| `Commands.OneReply` | src/server.cpp:291-421 | what is queued for a command reads back as exactly one reply iff the text it echoes is safe, and is cut short iff it is not |
| `Commands.GetPayloadIntact` | src/server.cpp:368-377 | a GET's reply reads back as exactly the stored bytes, or nil |
| `Commands.SetOutcome` | src/server.cpp:309-366 | a SET that is refused changes nothing and logs nothing, and one that proceeds is logged and stored |
| `Commands.EffectKeeps` | src/server.cpp:291-403 | whatever a command finds that it could find, table and policy stay together and the cache within its budget |
| `Commands.SplitVerb` | src/server.cpp:396-402 | a concrete verb whose one answer reads back as two replies |
| `Commands.UnreadableVerb` | src/server.cpp:396-402 | a concrete verb whose answer leaves a stream that the client cannot read |
| `Outbox.PendingSnoc` | src/server.cpp:413-415 | a queued response adds its bytes at the end of what is pending |
| `Outbox.AdvanceSends` | src/server.cpp:437-465 | sending part of the next part of a chunk takes exactly those bytes off the front of what is unsent |
| `Outbox.DoneIsSent` | src/server.cpp:449-452 | a chunk is dropped iff nothing of it is unsent |
| `ClientServer.StreamGoesOn` | src/server.cpp:252-273 | what a call of `consume` adds to the commands that get an answer |
| `ClientServer.AnsweredInTurn` | src/server.cpp:291-403 | a client's exchanges stand in the server's one history in order, each answered from the cache which that history had led to |
| `ClientServer.SerialAnswer` | src/server.cpp:291-403 | answering a command extends the history by its effect |
| `ClientServer.SerialSweep` | src/ttl.cpp:67-83 | so does a step of the sweeper |
| `ClientServer.HistoryKeeps` | src/storage.cpp:31-169 | along any history, of commands and sweeper steps in any order, table and policy stay together and the cache within its budget |
| `ClientServer.LoggedAccepted` | src/server.cpp:353-365 | every record that a history logs was accepted, so a replay with room enough refuses none of them |
| `ClientServer.PendingIsLatest` | src/server.cpp:413-415 | what is pending is the rest of the front answer and all the answers after it |
| `ClientServer.NotBehind` | src/server.cpp:416-419 | a client with at most 1024 chunks queued has been sent all its answers but the latest 1024 |
| `ClientServer.PushedBehind` | src/server.cpp:416-419 | one answer more for a client with 1024 chunks queued, and it has not |
| `Meaning.GetMeans` | src/server.cpp:368-377 | a GET, from its bytes: the answer's bytes, what becomes of values, deadlines and counters, whether the key is there, past its deadline or absent; nothing is logged |
| `Meaning.DelMeans` | src/server.cpp:379-388 | likewise a DEL, whose log line reads back as the key taken away |
| `Meaning.SetMeans` | src/server.cpp:309-366 | an accepted SET is answered OK and logs one line that reads back as its key set to its value with its duration; the key, if it stays, has that value and deadline, and every other key that stays is as it was |
| `Meaning.SetTallies` | src/storage.cpp:31-74 | the key of an accepted SET stays iff its length, its string's capacity, 128 bytes and 8 bytes a bucket fit the limit; what goes is counted, and the largest value noted |
| `Meaning.OkIsAccepted` | src/server.cpp:309-366 | OK is what accepted SETs are answered, and no others: a key of at most 1 MiB, a value within its limit, good options, and room in memory |
| `Meaning.SetRefused` | src/server.cpp:309-358 | any other SET changes and logs nothing, and is answered with the error of the first check that fails |
| `Meaning.GetAfterSet` | src/server.cpp:309-377 | a GET right after an accepted SET of its key answers with the value, if the key stays and is not yet due |
| `Meaning.PingMeans` | src/server.cpp:295-303 | PING is answered PONG, or with its argument, and does nothing else |
| `Meaning.SelectMeans` | src/server.cpp:304-307 | SELECT is answered OK and does nothing else |
| `Meaning.MetricsMeans` | src/server.cpp:390-394 | METRICS is answered with the rendered text as one bulk and does nothing else |
| `Meaning.UnknownMeans` | src/server.cpp:395-402 | any other verb is answered with an error that echoes it, and does nothing else |
| `Meaning.ArityMeans` | src/server.cpp:309-382 | GET and DEL without a key, and SET without a value, are answered with their errors and do nothing else |
| `Meaning.SweepMeans` | src/ttl.cpp:42-83 | a collection takes exactly the deadlines that have passed; a callback takes its key away, and counts it, if it is stored |
| `ClientServer.Server.AdmittedMeans` | src/server.cpp:222-226 | what a client may send, in figures: 1024 arguments, none longer than 1 MiB above the smaller of the value and memory limits |
| `ClientServer.Server.AdmittedOrRefused` | src/server.cpp:222-273 | a command that is admitted is read in full; one that is not is a protocol error, whatever comes after it |
| `ClientServer.Server.AdmittedAllArrive` | src/server.cpp:222-273 | a client that sends admitted commands is never in error, wherever its stream is cut, and all of them arrive in order |
| `ClientServer.Startup` | src/main.cpp:95-103 | empty storage, the whole log replayed, a new server over both: the server's invariant holds, and its log stands from then on for the values that the replay kept |
| `ClientServer.Server.constructor` | src/server.cpp:58-62 | starts valid over any valid storage, with no clients |
| `ClientServer.Server.Accept` | src/server.cpp:199-229 | a new client has a fresh parser with a bulk limit of 1 MiB above the smaller of the two limits, nothing owed, sent or pending, and is watched for reading; the others are as they were |
| `ClientServer.Server.CloseClient` | src/server.cpp:231-237 | every table forgets the client, and every other client stays in order |
| `ClientServer.Server.UpdateWatch` | src/server.cpp:482-497 | a client is watched for writability iff it has an outbox |
| `ClientServer.Server.SendTurn` | src/server.cpp:430-473 | one turn of the send loop leaves sent and pending bytes together what is owed, and makes progress |
| `ClientServer.Server.TrySend` | src/server.cpp:423-480 | through partial sends, full sockets, interruptions and failures: the stream stays exact; the client is closed iff its connection broke, with a prefix of its stream sent, and keeps an outbox only if the last send would have blocked |
| `ClientServer.Server.QueueResponse` | src/server.cpp:405-421 | adds one answer to what is owed; the client is closed iff its connection broke or it has not been sent all its answers but the latest 1024, which is so iff 1024 chunks were queued already |
| `ClientServer.Server.ReadSet` | src/server.cpp:309-353 | the arguments, the options and the storage's limits are checked in the specified order, and what passes is a SET the storage accepts |
| `ClientServer.Server.ExecuteSet` | src/server.cpp:309-366 | the checks decide the answer; an accepted SET is logged and then stored, with exactly the specified effect, for a capacity not below the value's length and a bucket count not below the table's |
| `ClientServer.Server.ExecuteGet` | src/server.cpp:368-377 | answers with the stored bytes or nil; with a log, with the value the log now stands for or nil |
| `ClientServer.Server.ExecuteDel` | src/server.cpp:379-388 | answers whether the key was there, and logs exactly then |
| `ClientServer.Server.ExecuteCommand` | src/server.cpp:291-403 | every command's answer, effect and log lines are the specified ones, for surroundings it could have found |
| `ClientServer.Server.Answer` | src/server.cpp:266-269 | executes and queues: one more event in the history, answered from the cache as it was, and the log is still its beginning followed by what the history has logged |
| `ClientServer.Server.Parse` | src/server.cpp:252-256 | a call of the parser extends the commands read by the byte-at-a-time reading of the client's bytes |
| `ClientServer.Server.NextCommand` | src/server.cpp:252-256 | likewise, with any number of the sweeper's steps before the command is answered |
| `ClientServer.Server.Conclude` | src/server.cpp:257-272 | tells an error and closes, answers a command unless it is blank, and says whether the client is gone |
| `ClientServer.Server.Reject` | src/server.cpp:259-265 | the protocol error is sent in one call, as far as the socket takes it, and the client is closed |
| `ClientServer.Server.ReadCommand` | src/server.cpp:252-273 | one turn of the parse loop, whatever the sweeper does meanwhile, keeps the server's whole invariant; it rejects iff the client's bytes so far are in error, and then tells the client of that error; otherwise it closes the client iff its connection broke or it has fallen more than 1024 answers behind |
| `ClientServer.Server.ReadChunk` | src/server.cpp:242-276 | all of a received chunk is read, unless the client is closed for one of those reasons; without one it is not closed |
| `ClientServer.Server.ReceiveTurn` | src/server.cpp:241-288 | one turn of the receive loop calls `recv` once and goes on iff bytes came or the call was interrupted, and the client is still there |
| `ClientServer.Server.HandleReadable` | src/server.cpp:239-289 | `recv` is called until it would block or the client is gone, and every delivered byte is read; the client goes iff its connection ended or failed, it has fallen more than 1024 answers behind, or its bytes are in error, and unless they are it was sent a prefix of what it was owed |
| `ClientServer.Server.HandleWritable` | src/server.cpp:171-173 | a writable event keeps the invariant and closes the client iff its connection broke; if an outbox is left, the last send would have blocked |
| `ClientServer.Server.HandleEvent` | src/server.cpp:160-178 | any combination of readable, writable and hung up: the same holds, each part is carried out, and a client that hung up is closed |
| `ClientServer.Server.Attend` | src/server.cpp:160-178 | the same as a relation between the clients and the kernel's calls before and after |
| `ClientServer.Server.LoopTurn` | src/server.cpp:147-178 | after any number of the sweeper's steps, a connection on a free descriptor becomes a new client and changes nothing else, and a client's event is treated as just said; the server's whole invariant is kept |
| `ClientServer.Server.EventLoop` | src/server.cpp:138-180 | everything the kernel reports is so treated, in order |
| `ClientServer.Server.SweeperCollects` | src/ttl.cpp:67-83 | the sweeper's collection, while a client is being served or between events, keeps the server's invariant and extends the history |
| `ClientServer.Server.SweeperCallsBack` | src/ttl.cpp:67-83 | so does its callback |
| `ClientServer.Server.SweeperRuns` | src/ttl.cpp:67-83 | any number of them do, before every command that is answered |
| `ClientServer.Server.OneReplyPerCommand` | src/server.cpp:239-480 | whenever the loop waits, the bytes sent to a client followed by those pending read back as one reply for each command among the bytes it sent, blank ones aside, in order, if the echoed texts are safe |

## Left out

- The virtual interface: Dafny traits are not used here, so `PolicyContract` closes the interface over its three implementations, and the `Storage` class is proved over LRU, the only policy the program constructs (src/storage.cpp:16).
- Machine integers: `size_t` arithmetic, `steady_clock` and `chrono` overflow are unbounded here; underflow is proved impossible, and `int` and `long` parsing keep their ranges.
- Allocation failure: the `bad_alloc` branches of the parser, of PING and of SET.
- Hash table growth, string growth and destruction: only a capacity not below the length and a bucket count that does not fall are assumed. Whether a logged value near the limit is refused at a restart depends on its new capacity, so `Restart` says when the values agree by which records are refused.
- `shared_ptr` blobs: values are immutable byte strings, so a response keeps its bytes by value; that a blob outlives its eviction holds here by construction.
- List iterators: an iterator into an LRU or LFU list is the address of a node object, so invalidation is not modelled.
- LRU and LFU lists: `std::list` is a sequence of nodes reassigned by the methods; its own links are not modelled. SIEVE's links, which the source maintains itself, are.
- Log files: a log is its lines as records with base64 or plain fields, JSON text and unreadable lines are not spelt out, and crashes, torn tails and flushing are not modelled.
- Remaining lifetimes on replay: as in the source, a replayed SET gets its full duration again; deadlines after a replay are not claimed.
- The sweeper's timing: when it wakes and stops is up to the scheduler of `Sweeper.dfy`; no claim is made on how soon a key is swept.
- The sweeper inside one command: in `Server.dfy` its steps come before any command, and `Sweeper.dfy` interleaves them with the steps of one storage operation; that a log line is written before or after the operation it records, with a callback in between, is not modelled.
- Sockets and `epoll`: the kernel is an oracle for `send` and `recv` and a table of watched descriptors; a received chunk may have any length, not at most 64 KiB, and registration calls do not fail.
- Events: `HandleEvent` takes a descriptor that names a client, and `Accept` one that does not, and `EventLoop` passes over anything else; the listening socket, the wake pipe, signals and shutdown are left out.
- `METRICS`: the rendered text is any bytes; its counters are those of the cache, its rates are not modelled.
- The admin HTTP server, the command line, the poll shim, the benchmark (other than its reader) and the demo tool.
- The client's reader: a number is read from plain decimal digits with an optional minus, where the benchmark's `int()` also takes spaces, plus signs and underscores; no server reply contains those.
- Argument buffers: an argument is a byte string that `consume` overwrites block by block, so that a payload is copied in place into one allocation is not captured.
