# A model of the reliable multicast library

The library sends numbered messages to a multicast group. A receiver that notices a gap asks
the sender for the missing numbers (a NACK) and keeps early messages in a cache until the gap
is filled. A sender keeps what it sent in a buffer, which it trims by a window of three
heartbeats and, if acknowledgements are switched on, by what every member has acknowledged.
The daemon relies on two data structures of its own: a chained hash table with int and string
keys, and a linked queue with a cached cursor. Both recycle their nodes through a pool.

The project models these three parts and proves

* that a whole network of daemons delivers every sender's log in order, without gap or repeat,
  in every run over a network that loses, duplicates and reorders packets, and recovers from
  loss in one round exactly when what is missing is still buffered;
* that the delivery holds of daemons on the heap, whose buffers, caches and member tables are the
  hash tables and whose member queues are the linked queues of the other two parts;
* that the heap hash table is a finite map, through every run of operations including rehash;
* that the heap queue is a sequence, through every run, whatever the cursor and the pool do;
* what every step does to every host and to the network, field by field and packet by packet, for all
  systems and in either reading of the code.

## How the files are laid out

| file | content |
|---|---|
| `Text.dfy` | the two readings of the code, optional values |
| `MQueue.dfy`, `QueueRuns.dfy` | the linked queue on the heap, and whole runs of it |
| `EntryPool.dfy`, `Buckets.dfy`, `HashTable.dfy`, `Rehash.dfy`, `Cleanup.dfy`, `TableRuns.dfy` | the hash table on the heap, and whole runs of it |
| `Rows.dfy`, `RowSums.dfy`, `Spread.dfy` | the table as plain values: placement, counting, enumeration, how int keys spread |
| `Receiver.dfy`, `Sessions.dfy`, `Words.dfy`, `WordRuns.dfy`, `Managers.dfy` | one receiver's stream, session changes, 32-bit words, the manager's copy |
| `SenderWindow.dfy`, `Nacks.dfy` | the sender's buffer, the scan for missing numbers |
| `Hosts.dfy` | one daemon as step functions |
| `Protocol.dfy`, `Recovery.dfy`, `DataRound.dfy`, `Roster.dfy`, `Acks.dfy`, `AckWitness.dfy`, `Windows.dfy` | any number of daemons over a network, through whole runs |
| `Steps.dfy`, `StepRuns.dfy` | what each step does, in fields and packets, and what that means in a run |
| `IntTable.dfy`, `Queue.dfy` | a table and a queue with all they may write to, as parts of larger structures |
| `MemberRoster.dfy` | the member table and the member queue side by side, and whole runs of them |
| `Outbox.dfy`, `Members.dfy`, `Daemon.dfy`, `DaemonRuns.dfy` | the control block on the heap and its handlers, and whole runs of one daemon |
| `NetRuns.dfy` | a network of daemons on the heap, over whole runs |

`Hosts.dfy` holds the step functions of the daemon's handlers, and the theorems about the network are
stated over those steps. `Steps.dfy` says what each step changes and sends without naming the functions
that define it. `Daemon.dfy` is the control block with its tables, its queue and its loops;
each of its methods is proved to take the step its function describes, `DaemonRuns.dfy` carries that
over runs of one daemon, and `NetRuns.dfy` over runs of a whole network.

Some predicates are closed: they have the form `forall d :: OpenX(d) ==> P`, where the key `OpenX` of
the module is trivially true. A proof that does not mention the key passes such a predicate on as a
whole; `assert OpenX(0)` looks into it. This keeps the proofs about larger structures small.

## Where the code departs from its intent

The repository's own notes call the code incomplete. Nine places in it do not do what the
surrounding conditions and comments intend. The type `Reading` tells the two apart: `AsWritten` follows
the text, `AsMeant` the intent. For each departure there is an input on which the text fails and
the exact condition under which it does not.

1. The drain after an in-order message looks up the number just handed up instead of the next one
   (`src/v0.1/rmcast.c:410`, against the condition at 383). `Receiver.AsWrittenExact` and
   `Receiver.AsWrittenAgreesExactly` say exactly when that goes unnoticed: a run hands up an
   orderly log if and only if no arrival is both next in order and a repeat, and until then the
   receiver gets no further than one with no cache at all.
2. The manager's scan for missing numbers stops one short of the arriving number, and the scan of
   version 0.1 stops behind its own start and so goes around the whole ring of 32-bit words
   (`Nacks.ManagerRounds`, `Nacks.ManagerScan`, `Nacks.FirstVersionScan`).
3. A NACK's count includes its own slot but is read as if it did not (`Nacks.DecodeEncode`), and is
   read without converting its byte order (`Nacks.CountUnconverted`). Its header names the host
   asked, so the replies go to that host itself (`Recovery.NobodyIsAnswered`).
4. Giving a node back to a pool that is not empty does not advance the pool's tail pointer
   (`MQueues.NodePool.Release`, `Entries.EntryPool.Release`). `QueueRuns.Execute` and
   `TableRuns.Execute` say exactly which runs lose the tail, and `QueueRuns.WrongAnswer` is a run
   that then answers wrongly. The sender's buffer is set up with a pool of 20, so its first removal
   already loses the tail (`TableRuns.PoolTailLost`). The member table, the member queue and every
   cache have pool size 0 and are not affected.
5. Removal by position resets the cursor before using it, and removal by content never looks at
   the last node (`MQueues.MQueue.RemoveAtAsWritten`, `MQueues.MQueue.RemoveItemAsWritten`).
   `MemberRosters.ExecuteAsWritten` says exactly which runs of registrations and leaves keep member
   table and member queue together.
6. A stray semicolon makes the sender take the last member's acknowledgement instead of the least
   (`SenderWindow.AckTrimAsWrittenExact`). Without the semicolon the least one would still include
   its own last value, so with the start value 0 nothing would ever be trimmed
   (`SenderWindow.RunningLeastNeverTrims`). Meant is the least of each round.
7. A new session restarts the numbering but keeps the old cache (`Sessions.RestartExact`).
8. A first heartbeat numbered 0 leaves the last number handed up at the unsigned word for -1
   (`Words.ClassifyWordExact`, `WordRuns.WordReceiverExact`). Everywhere else numbers are whole
   numbers, with -1 before the first.
9. The manager drains its cache by the number last heard, which does not move while draining, so at
   most one cached message goes (`src/rms_manager.c:208`, `Managers.ManagerExact`).

In the daemon two departures are taken as meant whatever the reading, because as written there is
soon no structure left to go on with: the pool of the sender's buffer (4) and the removal from the
member queue (5).

## Conventions

Sequence numbers are whole numbers; the model describes the code as long as they stay below 2^31,
because the tables' keys are of type `int`. `log` (all a sender ever sent), `base` (where a member's
numbering started) and `handed` (what was written to the application) are histories. The network, the
clock and the application are inputs: a run is any sequence of actions, and besides the daemons' own
steps it may at any point lose a packet, duplicate one, or make up a NACK.

## Model

| member | source | states |
|---|---|---|
| `MQueues.LinkedDistinct` | src/lib/util/mqueue.c:97-156 | a chain that ends in null visits no node twice, so the queue's and the pool's chains are acyclic |
| `MQueues.NodePool.constructor` | src/lib/util/mqueue.c:4-32 | a new pool is a list of exactly the given number of spare nodes that ends at the tail pointer |
| `MQueues.NodePool.Alloc` | src/lib/util/mqueue.c:48-61 | a node handed out was in use nowhere; it is the pool's or new, and the pool stays a list ending at its tail |
| `MQueues.NodePool.Release` | src/lib/util/mqueue.c:63-77 | the pool is still a list of unused nodes ending at its tail, at most three times its parameter, if and only if the text is as meant, the parameter is 0, the pool is full, or it was empty |
| `MQueues.MQueue.constructor` | src/lib/util/mqueue.c:4-32 | a new queue is empty, with a consistent cursor and pool |
| `MQueues.MQueue.Add` | src/lib/util/mqueue.c:97-115 | front insertion on the abstract sequence; chain, `last`, `count`, cursor and pool stay consistent |
| `MQueues.MQueue.Append` | src/lib/util/mqueue.c:118-136 | insertion at the end of the abstract sequence; everything else stays consistent |
| `MQueues.MQueue.Remove` | src/lib/util/mqueue.c:139-156 | removal from the front, nothing from an empty queue; the list survives in any case, the pool exactly as for `Release` |
| `MQueues.MQueue.PeekAt` | src/lib/util/mqueue.c:165-181 | equals plain indexing although the walk starts at the cached cursor; the cursor index is then that position, and unchanged past the end |
| `MQueues.MQueue.RemoveAt` | src/lib/util/mqueue.c:184-243 | as meant: exactly the node at the position goes, with `first`, `last`, `count` and cursor consistent |
| `MQueues.MQueue.RemoveAtAsWritten` | src/lib/util/mqueue.c:221-240 | as written: the front's content is returned whatever the position; what is left is a chain of nodes in use if and only if the position is past the end, or is the front of two or more; chain and cursor are both in order if and only if there was nothing to remove, for else the cursor is left on the freed node |
| `MQueues.MQueue.RemoveItem` | src/lib/util/mqueue.c:246-267 | as meant: the first node with the content goes, wherever it is, with chain, cursor, pool and footprint accounted for |
| `MQueues.MQueue.RemoveItemAsWritten` | src/lib/util/mqueue.c:251-266 | as written: the queue ends up without the item if and only if the item was absent, or was at the front of two or more; returned is the front's content, and nothing was ever set if the item was not found before the last node |
| `QueueRuns.Execute` | src/lib/util/mqueue.c:97-181 | every run of insertions, removals and peeks on the heap, with any pool and in either reading, gives the content and the answers of a plain sequence up to and including the first operation that loses the pool's tail; the queue is in order at the end if and only if, as written, no removal found the pool neither empty nor full |
| `QueueRuns.AnswersTell` | src/lib/util/mqueue.c:139-181 | every answer of a run tells what was in the queue at that point |
| `QueueRuns.FinalTells` | src/lib/util/mqueue.c:97-181 | what each operation makes of the queue, at any point of a run |
| `QueueRuns.TailAlwaysKept` | src/lib/util/mqueue.c:63-77 | as meant, or without a pool, no run loses the tail |
| `QueueRuns.FirstInFirstOut` | src/lib/util/mqueue.c:118-156 | without front insertion, what was taken followed by what is left is what was there followed by what was appended |
| `QueueRuns.LastInFirstOut` | src/lib/util/mqueue.c:97-156 | with front insertion and removal alone, a removal returns the latest insertion not yet taken |
| `QueueRuns.PoolTailLost` | src/lib/util/mqueue.c:65-73 | as written, two removals in a row from a queue with a pool leave a pool that does not end at its tail |
| `QueueRuns.WrongAnswer` | src/lib/util/mqueue.c:48-77 | as written, with a pool of one: after five right answers and four more operations the last removal finds the queue empty and returns an item a second time |
| `QueueRuns.MiddleRemovalLost` | src/lib/util/mqueue.c:227-238 | as written, removing the second of three items leaves no chain that holds the other two |
| `QueueRuns.StalePeek` | src/lib/util/mqueue.c:227-238 | as written, peeking after removing the front of two returns the item that was removed |
| `Entries.HashString` | src/lib/util/hashtable.c:3-8 | the loop computes the bucket of a string key: its number in base 131, reduced to 32 bits and to the number of buckets |
| `Entries.StringCodeIsBase131` | src/lib/util/hashtable.c:3-8 | the 32-bit accumulator is the string read in base 131, reduced once |
| `Entries.EntryPool.constructor` | src/lib/util/hashtable.c:55-71 | a new pool is a list of exactly the given number of spare entries that ends at the tail pointer |
| `Entries.EntryPool.Alloc` | src/lib/util/hashtable.c:15-28 | an entry handed out was in use nowhere, and the pool stays a list ending at its tail |
| `Entries.EntryPool.Release` | src/lib/util/hashtable.c:30-44 | the pool survives if and only if the text is as meant, the parameter is 0, the pool is full, or it was empty |
| `BucketArrays.Buckets.constructor` | src/lib/util/hashtable.c:46-53 | all buckets are empty with stored length 0 |
| `BucketArrays.Buckets.Walk` | src/lib/util/hashtable.c:224-244 | the walk finds the entry of a key, and the one before it, if and only if the bucket holds the key |
| `BucketArrays.Buckets.Push` | src/lib/util/hashtable.c:253-264 | one pair more at the front of one bucket, its stored length one more, all other buckets untouched |
| `BucketArrays.Buckets.Drop` | src/lib/util/hashtable.c:320-339 | exactly one pair less in one bucket, its stored length one less, all other buckets untouched |
| `BucketArrays.Buckets.EmptySlots` | src/lib/util/hashtable.c:106-115 | the number of buckets less the number of non-empty ones |
| `BucketArrays.Buckets.LongestChain` | src/lib/util/hashtable.c:117-130 | the maximum chain length and the first bucket that has it, none for an empty table; no table holds more entries than that times its non-empty buckets |
| `BucketArrays.Buckets.EnumIntKeys` | src/lib/util/hashtable.c:176-197 | the keys written for a given capacity, with the inner break that does not stop the outer loop |
| `HashTables.HTable.constructor` | src/lib/util/hashtable.c:46-73 | a new table stands for the empty map |
| `HashTables.HTable.Put` | src/lib/util/hashtable.c:247-287 | adds a new key to the map, in front of the bucket of its remainder, of its unsigned word if negative, or of its number in base 131 if a string; a present key is refused and nothing changes |
| `HashTables.HTable.Get` | src/lib/util/hashtable.c:289-309 | the map's value for the key, if there is one |
| `HashTables.HTable.Remove` | src/lib/util/hashtable.c:311-374 | takes the key from the map and hands back its data; the table survives in any case, the pool exactly as for `Release` |
| `HashTables.HTable.Replace` | src/lib/util/hashtable.c:376-410 | overwrites or adds the key and hands back what it replaced |
| `Rehashes.Rehash` | src/lib/util/hashtable.c:132-174 | for any positive size the whole map and the count are kept, every entry in its new bucket, although the old chains are consumed; as meant with any pool, as written with at most one pooled entry or nothing to move |
| `Rehashes.LosesTail` | src/lib/util/hashtable.c:132-174 | as written, with more than one entry in the pool and one to move, the first entry moved loses the pool's tail |
| `HashTables.HTable.LengthsAddUp` | src/lib/util/hashtable.c:247-287 | the stored chain lengths are the real ones and add up to the number of entries |
| `Cleanups.AllIntKeys` | src/lib/util/hashtable.c:176-197 | with any capacity of at least the count the enumeration lists every key exactly once, an int key as itself and a string key as 0; with int keys alone no number is written twice |
| `Cleanups.Cleanup` | src/v0.1/rmcast.c:510-518 | count, enumerate, remove each: all int keys go, each stored buffer is handed back exactly once, string keys stay |
| `RowSums.FlatIsMap` | src/lib/util/hashtable.c:176-197 | bucket after bucket, a table lists every key of its map exactly once |
| `RowSums.TotalIsCount` | src/lib/util/hashtable.c:247-287 | the lengths of all chains add up to the size of the map |
| `RowSums.TotalBound` | src/lib/util/hashtable.c:106-130 | entries are at most the longest chain times the non-empty buckets |
| `RowSums.EnumeratesAll` | src/lib/util/hashtable.c:176-197 | a capacity of at least the number of entries lists them all |
| `RowSums.EnumeratesEachOnce` | src/lib/util/hashtable.c:176-197 | with a capacity of at least the number of entries, plain rows are listed key by key, each once, and no number twice if all keys are ints |
| `RowSums.EnumerationFits` | src/lib/util/hashtable.c:176-197 | the enumeration stays within its capacity if and only if every non-empty bucket is reached with room left |
| `Spreads.IntKeyAt` | src/lib/util/hashtable.c:10-12 | an int key is in the bucket of its remainder, or of its unsigned word if negative, and in no other |
| `Spreads.ConsecutiveApart` | src/lib/util/hashtable.c:10-12 | consecutive non-negative numbers, at most as many as there are buckets, never share one |
| `TableRuns.Execute` | src/lib/util/hashtable.c:132-410 | every run of put, get, remove, replace and rehash on int and string keys, with any pool and in either reading, gives the answers of a finite map up to the first operation that loses the pool's tail; the table is in order at the end, and then is the final map, if and only if, as written, no removal found the pool neither empty nor full and no rehash moved entries with more than one pooled |
| `TableRuns.LastTouchCounts` | src/lib/util/hashtable.c:247-410 | after any run, what is under a key is decided by the last put, removal or replacement of it |
| `TableRuns.AnswersTell` | src/lib/util/hashtable.c:247-410 | every answer of a run tells what was under the key at that point, with the return code that goes with it |
| `TableRuns.TailAlwaysKept` | src/lib/util/hashtable.c:30-44 | as meant, or without a pool, no run loses the tail |
| `TableRuns.PoolTailLost` | src/v0.1/rmcast.c:664-664 | as written, the first removal from a table set up like the sender's buffer loses the pool's tail |
| `Receiver.DrainSettles` | src/v0.1/rmcast.c:409-419 | as meant, draining hands up everything that has become due |
| `Receiver.DrainTakesRun` | src/v0.1/rmcast.c:409-419 | the drain hands up, in order, the cached messages with consecutive numbers, as meant from the next one on and as written from the last one, up to the first that is not there |
| `Receiver.OnDataSettles` | src/v0.1/rmcast.c:383-420 | as meant, one arrival keeps the state the function of the arrived numbers that it is |
| `Receiver.ReceiveSettles` | src/v0.1/rmcast.c:375-422 | as meant, after any arrivals the last number handed up is the largest up to which everything arrived, the cache is exactly the arrivals beyond, and the log is everything up to it, once and in order |
| `Receiver.OrderIrrelevant` | src/v0.1/rmcast.c:383-420 | as meant, order and multiplicity of the arrivals do not matter |
| `Receiver.OnDataSteady` | src/v0.1/rmcast.c:383-419 | as written, the number rises by exactly one for each payload handed up and every cached number stays above it |
| `Receiver.ReceiveSteady` | src/v0.1/rmcast.c:383-419 | as written, the same over every run |
| `Receiver.OnDataExact` | src/v0.1/rmcast.c:407-419 | as written, an arrival keeps the log in order if and only if it is not the next number with that number already cached |
| `Receiver.AsWrittenExact` | src/v0.1/rmcast.c:383-419 | as written, a run's log is in order if and only if no arrival is both next in order and a repeat; then the receiver is where one without a cache would be and every early message is stuck |
| `Receiver.AsWrittenRepeats` | src/v0.1/rmcast.c:410-418 | arrivals 1, 3, 2, 3 are handed up as 1, 2, 3, 3 as written, and as 1, 2, 3 as meant |
| `Receiver.AsWrittenAgreesExactly` | src/v0.1/rmcast.c:410-419 | both readings end in the same state if and only if no in-order arrival ever finds its successor cached |
| `Managers.PeerRecord.Receive` | src/rms_manager.c:182-218 | the manager's data branch in place: the drain looks up the same number until it is gone, so at most one cached message goes |
| `Managers.ManagerExact` | src/rms_manager.c:182-218 | over every run the manager's log is in order if and only if no arrival is both next in order and a repeat; until then it is in the state of version 0.1 and every early message is stuck |
| `Managers.ManagerStopsShort` | src/rms_manager.c:207-216 | an arrival after which version 0.1 drains one message more than the manager |
| `Sessions.RestartExact` | src/v0.1/rmcast.c:443-447 | in either reading of the drain, after a session restart the receiver hands up, on every later run, what a newly joined one would, if and only if its kept cache holds nothing above the new start; as written, nothing from the new start on |
| `Sessions.StaleHandedUp` | src/v0.1/rmcast.c:443-447 | a message of the old session is handed up as one of the new |
| `Words.ClassifyWordExact` | src/v0.1/rmcast.c:383-395 | on 32-bit words a message is classed as it should be if and only if something was handed up before or it is number 0; otherwise it is dropped instead of cached |
| `WordRuns.WordReceiverExact` | src/v0.1/rmcast.c:383-419 | on 32-bit words the receiver does, over every run and in either reading, what one on whole numbers does with the arrivals from the first message 0 on, if it joined at number 0, and with all arrivals otherwise |
| `WordRuns.GapWordExact` | src/v0.1/rmcast.c:478-480 | on words the gap test fires if and only if there is a gap and the last number handed up is not still the word for -1 |
| `WordRuns.FirstLostForGood` | src/v0.1/rmcast.c:383-395 | a receiver that joined at number 0 and lost message 0 never hands up, caches or asks for anything |
| `SenderWindow.IntervalExact` | src/v0.1/rmcast.c:293-302 | through sends, heartbeats and both trims, whatever the rule for acknowledgements, the buffer is always exactly the interval from the oldest to the next number, with the heartbeat marks in order, if and only if no acknowledgement runs ahead of what was sent |
| `SenderWindow.ThirdHeartbeatDrops` | src/v0.1/rmcast.c:292-302 | for every interleaving of sends and heartbeats, a message is buffered under its number if and only if fewer than three heartbeats followed it |
| `SenderWindow.AckTrimWindow` | src/v0.1/rmcast.c:616-631 | one trim by acknowledgements keeps the interval if and only if it is not driven past the next number |
| `SenderWindow.AckTrimExact` | src/v0.1/rmcast.c:616-631 | as meant, a message goes if and only if there are members, all of them acknowledged more, and it is not older than the oldest kept |
| `SenderWindow.RunningLeastNeverTrims` | src/v0.1/rmcast.c:616-631 | without the semicolon but with the running minimum, started at 0: in every run the buffer is what it is without acknowledgements |
| `SenderWindow.RunningLeastOnlyFalls` | src/v0.1/rmcast.c:616-631 | the running minimum never rises above its start: a round of any run takes only messages that every member has acknowledged, and none at or above the start |
| `SenderWindow.AckTrimAsWrittenExact` | src/v0.1/rmcast.c:619-630 | as written, only acknowledged messages go if and only if the last acknowledgement reaches nothing buffered or is above no other |
| `SenderWindow.AckTrimAsWrittenDrops` | src/v0.1/rmcast.c:621-622 | with acknowledgements 0 and 1, message 0 goes although the first member lacks it |
| `Nacks.MissingExactly` | src/v0.1/rmcast.c:210-217 | the list is strictly rising and holds exactly the uncached numbers of the gap |
| `Nacks.ScanGap` | src/v0.1/rmcast.c:208-217 | the scan over the range that is meant lists the gap and counts as lost what it lists |
| `Nacks.ScanPartitions` | src/rms_manager.c:182-192 | between base and the highest number heard, every number is handed up, cached or listed, and never two of these |
| `Nacks.ScanRing` | src/rms_manager.c:14-23 | the scan as written ends, lists the uncached words from its start to its stop around the ring, and counts them as lost |
| `Nacks.RingRises` | src/rms_manager.c:14-23 | the scan as written lists every word once, in the order of the ring |
| `Nacks.ManagerRounds` | src/rms_manager.c:9-16 | the manager's scan covers just the gap if and only if two or more numbers lie ahead; otherwise it goes around nearly half the ring or more |
| `Nacks.ManagerScan` | src/rms_manager.c:9-23 | in range it lists exactly the missing numbers up to two before the arriving one, and all of them if and only if the one before is cached |
| `Nacks.FirstVersionScan` | src/v0.1/rmcast.c:203-217 | the scan of version 0.1 asks for every uncached word except the last number handed up and the one before it, also for -1 and 0 |
| `Nacks.DecodeEncode` | src/v0.1/rmcast.c:208-219 | as meant the request round-trips; as written one word too many is read |
| `Nacks.CountUnconverted` | src/v0.1/rmcast.c:491-493 | read without converting the byte order the count is right if and only if its bytes read the same both ways, and a count that fits into a request comes out beyond any request |
| `MemberLists.MemberRecord.constructor` | src/v0.1/rmcast.c:148-162 | a new record has an empty hash table for its cache and nothing acknowledged |
| `MemberLists.MemberRecord.Receive` | src/v0.1/rmcast.c:383-420 | caching, dropping or handing up and draining, on the cache in its hash table, takes the receiver's step in either reading |
| `MemberLists.MemberRecord.DrainCache` | src/v0.1/rmcast.c:409-419 | removing the wanted number from the table as long as it is there is the drain, in either reading |
| `MemberLists.Members.Register` | src/v0.1/rmcast.c:431-447 | over table, queue and records on the heap: an unknown member is registered at the front with the number before the heartbeat's, a new session restarts a known one; all other members stay as they were |
| `MemberLists.Members.Leave` | src/v0.1/rmcast.c:506-523 | over table, queue and records on the heap: the member's cache is emptied and its record goes from table and queue; all other members stay as they were |
| `MemberLists.StrikeAt` | src/v0.1/rmcast.c:508-521 | emptying the leaving member's cache hands back every buffer in it exactly once |
| `Outboxes.Outbox.TrimTo` | src/v0.1/rmcast.c:297-302 | removing number after number from the table drops exactly the numbers from the oldest up to the bound |
| `Outboxes.Outbox.Put` | src/v0.1/rmcast.c:569-573 | since no number to come is buffered, the table never refuses, and the message is kept under its number |
| `Outboxes.Outbox.ShortChains` | src/v0.1/rmcast.c:664-664 | a buffer of at most 50 messages, an interval, has no two of them in one bucket |
| `Daemons.Daemon.SendData` | src/v0.1/rmcast.c:557-574 | with the buffer in a hash table that refuses a present key: a message the network took is numbered, buffered and sent; otherwise nothing changes |
| `Daemons.Daemon.SendHeartbeat` | src/v0.1/rmcast.c:230-304 | walking the member queue by position, shifting the marks and trimming the table is one heartbeat step |
| `Daemons.Daemon.TrimByAcks` | src/v0.1/rmcast.c:616-631 | walking the member queue by position and trimming the table is one trim step, in either reading |
| `Daemons.Daemon.OnDataPacket` | src/v0.1/rmcast.c:375-422 | a data packet from a member updates its record and reports a gap; an unknown sender's is dropped |
| `Daemons.Daemon.Register` | src/v0.1/rmcast.c:431-447 | registration on table, queue and records is the greeting step |
| `Daemons.Daemon.OnHeartbeat` | src/v0.1/rmcast.c:424-487 | registration, acknowledgement and gap report are one step |
| `Daemons.Daemon.OnNack` | src/v0.1/rmcast.c:489-504 | reading the words of a gap report, in either reading of its count, the reply holds every number read that is still in the buffer's table |
| `Daemons.Daemon.OnLeave` | src/v0.1/rmcast.c:506-523 | a leave on table, queue and records, with removal from the queue as meant, is the leave step |
| `Daemons.Daemon.Report` | src/v0.1/rmcast.c:198-228 | the NACK for a gap, from a scan that looks up the cache's table, in either reading of its header and its scan |
| `DaemonRuns.Execute` | src/v0.1/rmcast.c:329-632 | for every run of inputs the daemon on the heap ends in the state of the step functions and has sent the same packets in the same order |
| `Steps.DataStep` | src/v0.1/rmcast.c:375-422 | a data packet from a member is handed up, with what follows in the cache, or kept unless it is kept already, or dropped as old; a packet is sent if and only if it is ahead of the stream, and then it is one gap report to the sender: as meant from this host, rising, with exactly the uncached numbers before it; as written in the name of the sender, around the ring; an unknown sender's is dropped; nothing else changes |
| `Steps.HeartbeatStep` | src/v0.1/rmcast.c:424-487 | a heartbeat registers an unknown member at the front and restarts one with another session, both at the number before its own, the latter with its old cache; it notes the first acknowledgement for this host; it is answered by that gap report if and only if the member was known with the session and has fallen behind; nothing else changes |
| `Steps.NackStep` | src/v0.1/rmcast.c:489-504 | a gap report changes no host; each number read from it that is still buffered is sent to the host it names, as often as it was asked for, and nothing else is |
| `Steps.LeaveStep` | src/v0.1/rmcast.c:506-523 | a leave takes the member from the table and its place from the queue, and nothing else |
| `Steps.SendStep` | src/v0.1/rmcast.c:557-574 | a message the network took goes out once, to the group, under the next number and is buffered under it, whatever acknowledgements are for; one not taken changes nothing |
| `Steps.TimerStep` | src/v0.1/rmcast.c:230-304 | a heartbeat goes out once, with the next number, the session and, if acknowledgements are on, the last number of every member in the order of the queue; the marks move on, and exactly what is older than three heartbeats goes |
| `Steps.TrimStep` | src/v0.1/rmcast.c:614-631 | trimming sends nothing and takes exactly what is below the bound: as meant the least acknowledgement, as written the last one in the queue or, without members, the number noted before |
| `Steps.QuitStep` | src/v0.1/rmcast.c:633-645 | quitting sends one leave to everybody and changes no host |
| `Steps.IdlePacket` | src/v0.1/rmcast.c:329-632 | a packet that is not there or is for another host changes nothing |
| `StepRuns.SentInRun` | src/v0.1/rmcast.c:557-574 | as meant, in every run: a message the network took changes the network by exactly one packet of that host, for everybody, numbered with the length of its log; one not taken changes nothing |
| `StepRuns.SentIsHandedUp` | src/v0.1/rmcast.c:383-407 | as meant, in every run, whatever has happened since: as long as the packet is under way, a host that holds the sender at the number before hands the message up when it arrives |
| `StepRuns.SentArrives` | src/v0.1/rmcast.c:383-407 | as meant, in every run: a member that is up to date hands up the message just sent, and nothing besides |
| `StepRuns.NewSessionExact` | src/v0.1/rmcast.c:443-447 | after a heartbeat with a new session a host hands up, whatever arrives, what it would if it had not known the member, if and only if the kept cache holds nothing above the heartbeat's number; as written, nothing from it on |
| `StepRuns.LeaverForgotten` | src/v0.1/rmcast.c:506-523 | as meant, in every run: after a leave has arrived the member is in neither table nor queue, and trimming waits for exactly the other members |
| `Protocol.NextKeeps` | src/v0.1/rmcast.c:374-580 | every step of every host or of the network keeps all logs, buffers, packets and members true to what was sent |
| `Protocol.RunKeeps` | src/v0.1/rmcast.c:329-632 | the same over every run from the start |
| `Protocol.StreamDelivered` | src/v0.1/rmcast.c:375-447 | in every run, what a host has handed up of a stream is exactly the sender's log from its base on, in order, without gap or repeat |
| `Protocol.ReceiversAgree` | src/v0.1/rmcast.c:375-447 | any two hosts agree on every number both have handed up |
| `NetRuns.Execute` | src/v0.1/rmcast.c:329-632 | for every run of the protocol, daemons on the heap, any number of them, and the network between them end in the state the run ends in |
| `NetRuns.ExecuteDelivers` | src/v0.1/rmcast.c:375-447 | as meant, after every run of daemons on the heap that started together, what each has handed up of another's stream is that one's log from the base on, in order, without gap or repeat |
| `NetRuns.NetShortChains` | src/v0.1/rmcast.c:664-664 | as meant, after every run of daemons on the heap: a daemon that buffers at most 50 messages has no two of them in one bucket |
| `NetRuns.Start` | src/v0.1/rmcast.c:649-714 | any number of daemons can be started side by side so that the run theorems apply |
| `Recovery.RoundIsHandlers` | src/v0.1/rmcast.c:478-504 | the packets of a round are what the handlers send one another |
| `Recovery.OneRound` | src/v0.1/rmcast.c:478-504 | after heartbeat, NACK and replies in any order and multiplicity, the receiver is at the sender's last number with an empty cache if and only if all it lacked was still buffered |
| `Recovery.BufferedByAge` | src/v0.1/rmcast.c:292-302 | what is lacking is still buffered if and only if it was sent at or after the heartbeat before the last |
| `Recovery.OneRoundInRun` | src/v0.1/rmcast.c:478-504 | in every run: heartbeat, gap report and replies as steps of the network, with replies delivered, duplicated and lost in any order as long as each arrives once, bring the receiver to the sender's last number with an empty cache if and only if all it lacked was still buffered |
| `Recovery.RoundRuns` | src/v0.1/rmcast.c:478-504 | after the round's first three steps the receiver has not moved and every reply is on the network |
| `DataRound.DataRoundInRun` | src/v0.1/rmcast.c:383-395 | in every run: after a data packet ahead of its stream, the gap report and the replies as steps of the network, in any order as long as each reply arrives once, the receiver has come as far as it has everything cached or the sender buffers it, and no further; so to the packet's number if and only if all it lacked was still buffered |
| `Windows.WindowInRun` | src/v0.1/rmcast.c:293-302 | as meant, in every run, leaves included: every host buffers exactly the interval from its oldest to its next number, each message as it was sent, and no acknowledgement is beyond what was sent |
| `Windows.RecoverableByAge` | src/v0.1/rmcast.c:292-302 | as meant, in every run: a round makes up for all a member lacks if and only if it was sent at or after the heartbeat before the last and not trimmed since |
| `Recovery.NobodyIsAnswered` | src/v0.1/rmcast.c:206-206 | as written, in every run in which gap reports come from the hosts alone, every reply is addressed to its own sender, so only originals ever reach another host |
| `Acks.RunKeepsAcks` | src/v0.1/rmcast.c:456-466 | in every run without leaves, what members are noted to have acknowledged, and what heartbeats under way say, is true |
| `Acks.TrimTakesOnlyDelivered` | src/v0.1/rmcast.c:616-631 | as meant, in every such run, trimming takes a message only when every registered member has handed it up or joined after it |
| `Acks.TrimExactInRun` | src/v0.1/rmcast.c:616-631 | as meant, in every run, leaves included, trimming takes a message if and only if there are members, all acknowledged more, and it is not older than what is kept |
| `AckWitness.TrimHappens` | src/v0.1/rmcast.c:616-631 | two hosts that have just started have a run after which trimming takes a message |
| `Rosters.RunKeepsRoster` | src/v0.1/rmcast.c:506-522 | as meant, in every run, leaves included, every host's member queue lists exactly its member table, each member once |
| `MemberRosters.Roster.constructor` | src/v0.1/rmcast.c:668-669 | member table and member queue start empty, without a pool and apart from everything else |
| `MemberRosters.Roster.Register` | src/v0.1/rmcast.c:431-442 | on the heap, a first heartbeat puts the new record into table and queue; both hold the same records, each under one id and each once |
| `MemberRosters.Roster.Leave` | src/v0.1/rmcast.c:506-522 | on the heap, with removal by content as meant, a leave takes exactly that member's record from both, wherever it is in the queue, and both still hold the same records |
| `MemberRosters.Roster.LeaveAsWritten` | src/v0.1/rmcast.c:506-522 | on the heap, with removal by content as written, the table loses the record and the queue still lists the table's members in order if and only if the member was unknown, or was at the front of two or more |
| `MemberRosters.Execute` | src/v0.1/rmcast.c:431-522 | through every run of first heartbeats and leaves, table and queue on the heap hold the same records, each once, and are what a map and a sequence would be |
| `MemberRosters.LastHeardCounts` | src/v0.1/rmcast.c:431-522 | after any run, whether somebody is a member, and with which record, is decided by the last thing heard from it |
| `MemberRosters.QueueFollows` | src/v0.1/rmcast.c:431-522 | the queue changes only by a first heartbeat, in front, and by a leave, which takes out that record and keeps the order |
| `MemberRosters.ExecuteAsWritten` | src/v0.1/rmcast.c:431-522 | with removal by content as written, a run, stopped once it has gone wrong, ends with table and queue together, and as they should be, if and only if every leave was of an unknown member or of one at the front of two or more |

## Left out

- Socket set-up, `select`, group joining, name lookup, threads and the clock: packet arrival, application messages and timers are actions of a run.
- The framing between daemon and application: the drain path writes a bare length where the reader expects a full record.
- The byte layout of heartbeats, which does not round-trip (the name's length counts the terminator, the write cursor does not); heartbeats are records.
- The byte order of a NACK's count in runs: `Nacks.CountUnconverted` is about one count; the daemon's replies are about a host in network byte order.
- The message-buffer pool: several paths never return their buffer to it. A buffer filed in a table is identified with its payload.
- The heartbeat rate and its floating-point arithmetic.
- The `lost` counters of heartbeats, and what is piggybacked on them; the counter is kept in the scans only.
- `htbl_enum_str_keys`, `htbl_remove_next`, `htbl_free`, `mqueue_free`, and changing a pool's parameter later on.
- `src/rms_receiver.c`, `src/rms_sender.c`, the manager's branches other than its data branch and its scan, and the thread and socket wrappers.
- A host that leaves, resets its numbers and joins again in the same session, and the race of leaving with the daemon thread.
- Numbers beyond 2^31, apart from the scans and the receiver that joined at number 0.
- Steps.TimerStep: for hosts whose queue lists members of the table, as `Rosters.RunKeepsRoster` proves of every run as meant; the same for `Steps.TrimStep`.
- Steps.NackStep: for buffers that keep each message under its own number, as `Protocol.RunKeeps` proves of every run as meant.
- QueueRuns.Execute: removal by position or content is not among its operations; `MemberRosters.Execute` has runs with removal by content.
- TableRuns.Execute: a rehash to size 0 divides by zero in the code and is not among its operations.
- Cleanups.Cleanup: as written only for pool size 0, the one the caches have.
- Daemons.Daemon.OnLeave: removal from the queue as meant in both readings; `MemberRosters.ExecuteAsWritten` is about the text.
- Outboxes.Outbox.Put: the pool of the buffer as meant in both readings; `TableRuns.Execute` is about the text.
- Protocol.StreamDelivered: for one session; `Sessions.RestartExact` says what a new session keeps. A member that leaves and is heard again is a new registration with a new base.
- Acks.TrimTakesOnlyDelivered: for runs in which no leave arrives, since a member that registers anew may start behind what it once acknowledged.
- Recovery.OneRoundInRun: for a host and another one, since no host hears its own packets (`src/v0.1/rmcast.c:118`).
