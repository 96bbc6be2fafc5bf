# Verified models of the containers and decimals in `include/`

This project models five headers whose code is an algorithm rather than an interface, and proves what that code is
meant to guarantee. `dafny verify dfyconfig.toml` checks everything.

**The Swiss-table hash map** (`include/FlatHashmap.h`). `GroupBits` and `Group` hold the eight-byte portable group and
prove its bit formulas equal to bytewise definitions. `ProbeSequence` and `Windows` prove that triangular probing by
whole groups visits every control position exactly once, cloned bytes and sentinel included. `ProbeChains` says what a
change of one control byte does to the searches that pass it, and `Probing` contains the loops that look at control
bytes only. `SwissModel` gives the arrays their meaning as a finite map, `Squeeze` treats the in-place rehash that
squeezes tombstones out, and `SwissTable` is the table itself: a class over arrays that insert, erase, resize and
rehash change in place. `FlatHashmap` is the public map. Its method `Run` is the main theorem: any sequence of
operations, under any hash function, from any reachable table, answers and ends as the same operations on a
mathematical finite map (`MapSpec`); `MapLaws` says what such a run makes of each key.

**The Left-Right maps** (`include/LocklessContainer.h`, with the counter of `include/HashmapUtil.h`). `LeftRight` is a
state machine of any number of readers and one writer, one atomic action a step, including a counter whose buckets are
read one at a time; `LeftRightRuns` proves exclusion, linearizability and the outcome of every write, over every run.

**The multi-producer multi-consumer queue with hazard pointers** (same two headers). `HazardQueue` is a state machine
over nodes that are really freed and whose addresses are reused at once, hazard records, wait lists and scans.
`HazardQueueSteps`, `HazardQueueRecords` and `HazardQueueNodes` prove one invariant for every kind of step,
`HazardQueueFrames` collects what a step leaves alone, `HazardQueueGarbage` bounds the wait lists, and `HazardQueueRuns`
states the results over whole runs. `HazardQueueCalls` says what a whole push or pop has done when it returns.
`HazardQueueEmpty` says exactly when a pop answers that the queue is empty and when
that is wrong; `HazardQueueWrong` has runs with such answers, put together from the undisturbed operations of
`HazardQueueSolo`. `BoundedQueue` is the bounded wrapper, a machine whose threads take the steps of the linked queue
between their own, with whole calls in `BoundedQueueCalls` and a run beyond its capacity in `BoundedQueueExcess`; and
`RingQueue` is the single-producer ring, with whole calls in `RingCalls`.

**Decimals** (`include/DecimalUtil.h`). `DecimalArith` has checked arithmetic with the least value reserved for NULL,
`DecimalScale` the changes of scale, `DecimalText` printer and parser, `DecimalMeaning` what the parser makes of every
well-formed text and that it inverts the printer, and `DecimalInput` what it answers for any text whatever.

**Smaller pieces.** `Primes` is `nextPrime`; `ProbingModel`, `HashsetTable` and `FlatHashset` are the set with bounded
linear probing and its growth loop; `MonitorQueues` are the two queues on a mutex and condition variables
(`include/Concurrent.h`). `Arithmetic` holds facts about division, powers of two and counting that several modules use,
and `Options` the optional values.

## How the code is rendered

- Offsets are masked with `capacity` in the code; the model takes remainders by `capacity + 1`. A valid capacity is one
  less than a power of two, so these agree.
- The hash function is arbitrary, and the seed taken from the control array's address is an arbitrary number chosen at
  each allocation. Keys can therefore collide in any way.
- `find_first_non_full` takes the lowest free byte of a group, or in debug builds of large tables sometimes the
  highest. The model leaves that choice open, so the proofs hold for both builds.
- Every table without slots gets its own copy of the shared sixteen-byte empty group.
- In the state machines one step is one atomic action on shared memory, under sequential consistency. Attempts that
  change nothing are not steps: a test-and-set of a record somebody holds, a compare-and-swap on the list of records
  that fails and is repeated. In `LeftRight` the copies are abstract maps (the Swiss-table part proves that such a map
  is one), and while the writer changes a copy anything at all may stand in it.
- In `MonitorQueues` one method is one critical section, from taking the lock, or waking up with it, to releasing it.
  A condition variable is the set of threads that sleep on it and have not been notified; the two sides of the
  no-lost-wake-up property are part of `Valid`. `pushed` and `popped` are ghost histories.
- Raw decimals are integers bounded by the width; C++ division truncates toward zero and is modelled so.

## Where the comments and the code differ

- `include/FlatHashmap.h:803-808` and `:892-894` describe a `probe_limit_` and an `INSERT_NO_VACANCY` answer of the
  Swiss table. The code has neither: insertion always succeeds or finds the key, and the model says so.
- `include/DecimalUtil.h:300-304` promises "overflow or not" of the quotient. The code reports overflow when the reduced
  product of the two factors does not fit, which can happen although the quotient would: `DecimalArith.FalseOverflow`
  gives such operands, `DecimalArith.MulDivOverflow` states exactly when overflow is reported, and
  `DecimalArith.ExactQuotient` that this is right whenever the division is exact.
- `include/DecimalUtil.h:573-577` promises that strict parsing refuses a number followed by other characters. The loop
  stops at the first digit beyond the scale (`:536-540`) and reads nothing behind it, so such a text is then accepted
  even in strict mode: `DecimalInput.StrictAccepts` gives two texts, and `DecimalInput.NumberRest` states exactly when
  such a text is refused.
- `nextPrime` (`include/FlatHashmap.h:36-51`) answers 1, not a prime, when asked for the prime above 0.
- `GenericBoundedQueue::clear` (`include/Concurrent.h:743-748`) makes room without notifying the threads that wait for
  room. `MonitorQueues.GenericBoundedQueue.Clear` states that the no-lost-wake-up invariant survives it if and only if
  nobody sleeps on `full_` or the capacity is not positive, and `MonitorQueues.ClearLosesWakeup` runs into the other
  case with three calls.
- `insert` of the Left-Right maps undoes itself when the second copy fails; `upsert` does not
  (`include/LocklessContainer.h:1170-1184`). `LeftRightRuns.UpsertUncaught` states that an upsert that fails at the
  second copy leaves the copies equal if and only if the key already had the value, and `LeftRightRuns.UpsertSplits`
  is a run from the empty map to such a failure that leaves a key in one copy only.
- `pop` of the lock-free queue may answer that the queue is empty while it is not. The comment at
  `include/LocklessContainer.h:668-669` admits this while a node is installed and not yet linked. There is a second
  case: the winner of a pop clears the link of the node it took off (`:698`), and another pop that validated the same
  node before reads that as the end of the queue, even if pushes that returned long ago are still queued.
  `HazardQueueEmpty.EmptyAnswer` states exactly when the answer is given and when it is wrong;
  `HazardQueueWrong.UnlinkedRun` and `HazardQueueWrong.ClearedRun` are runs of the two cases.
- The counter of `NonblockingBoundedQueue` is not initialised by its constructor
  (`include/LocklessContainer.h:796, 840`). The model lets it start at any number, and the bound of
  `BoundedQueue.NeverMore` depends on it: `BoundedQueueExcess.Exceeds` is a run in which one producer alone fills a
  queue of capacity one with two items.
- The counters of the single-producer ring wrap around after 2^64 operations, and comparing them then goes wrong
  (`include/LocklessContainer.h:615`). `RingQueue.RingExact` states that the head is not ahead of the tail exactly as
  long as fewer than 2^64 items were pushed, `RingQueue.NothingMore` that no pop which begins after that delivers
  anything, and `RingQueue.WrapHides` is, for every ring, a run to such a moment with an item in the ring.
- The copying loops of the sets assert that the new table has more slots than the old one, the probe limits counted
  (`include/FlatHashmap.h:2626, 2643`). `ProbingModel.MoreSlots` and `ProbingModel.MoreSlotsThen` state exactly when
  that holds. It can fail only after a table whose probe limit is its whole capacity and which is more than a tenth full:
  `FlatHashset.NoMoreSlots` reaches two tables with 16 slots each, with powers of two, colliding keys and a factor of
  one tenth. Nothing depends on it: `FlatHashset.Rehash` copies into a table of any size.

## Model

| member | source | states |
|---|---|---|
| `GroupBits.XorBytesIsXor` | include/FlatHashmap.h:606 | xor with the 64-bit product of hash and ones acts on each of the eight bytes by itself |
| `GroupBits.MatchExact` | include/FlatHashmap.h:590-608 | for every word and hash, the mask the 64-bit expression computes reports exactly the bytes that equal the hash or are the byte above a reported one that differs from the hash in the last bit |
| `GroupBits.FalsePositive` | include/FlatHashmap.h:595-598 | a reported byte is full, and one that is not the hash has a real match below it |
| `GroupBits.MatchEmptyExact` | include/FlatHashmap.h:610-613 | `MatchEmpty` reports exactly the empty bytes of every control word |
| `GroupBits.MatchEmptyOrDeletedExact` | include/FlatHashmap.h:615-618 | `MatchEmptyOrDeleted` reports exactly the empty and the deleted bytes |
| `GroupBits.ConvertExact` | include/FlatHashmap.h:625-631 | the conversion turns every full byte into deleted and every other byte into empty |
| `GroupBits.MaskLowest` | include/FlatHashmap.h:413-415 | trailing zeroes divided by eight are the index of the first reported byte |
| `GroupBits.MaskHighest` | include/FlatHashmap.h:419-434 | leading zeroes and the highest bit both locate the last reported byte |
| `GroupBits.MaskClearLowest` | include/FlatHashmap.h:407-410 | `mask & (mask - 1)` drops the first reported byte and keeps the others |
| `Group.Match` | include/FlatHashmap.h:590-608 | iterating over the mask lists the reported bytes, each once, in rising order |
| `Group.MatchFull` | include/FlatHashmap.h:590-608 | no real match is missed and only full bytes are listed, which is what lookups rely on |
| `Group.Iterate` | include/FlatHashmap.h:407-424 | looping over a mask yields exactly the marked bytes, rising |
| `Group.MatchEmpty` | include/FlatHashmap.h:426-434 | says whether a byte is empty, and its trailing and leading counts are the distances to the first and the last empty byte |
| `Group.MatchEmptyOrDeleted` | include/FlatHashmap.h:615-618 | says whether a byte is free, and which is the first and which the last |
| `Group.ConvertSpecialToEmptyAndFullToDeleted` | include/FlatHashmap.h:625-631 | converts the eight bytes in place and touches no other |
| `ProbeSequence.NormalizeCapacity` | include/FlatHashmap.h:670-671 | the result is a valid capacity, at least `n` and less than twice it |
| `ProbeSequence.SevenEighths` | include/FlatHashmap.h:673-681 | exactly seven of eight positions of a large table may be used, all slots of one with fewer than seven, and six of seven |
| `ProbeSequence.GrowthSuffices` | include/FlatHashmap.h:683-701 | a capacity asked for through the lower bound of a growth does allow that growth |
| `ProbeSequence.TriangularInjective` | include/FlatHashmap.h:346-350 | triangular numbers below a power of two differ modulo it, so no group is probed twice |
| `ProbeSequence.TriangularSurjective` | include/FlatHashmap.h:346-350 | every group is probed at exactly one step of a round |
| `Windows.OffsetNext` | include/FlatHashmap.h:346-350 | `next` moves from the window of one probe to the window of the following one |
| `Windows.ProbesCover` | include/FlatHashmap.h:335-358 | for every legal capacity, every control position lies in exactly one window of a round of probes |
| `Windows.ProbeIsGroup` | include/FlatHashmap.h:1121-1124 | the probe index of a position tells which probe's window it lies in |
| `Windows.WindowReads` | include/FlatHashmap.h:642-644 | the byte of a window at a slot's distance shows that slot, through the cloned bytes where the window wraps |
| `Windows.WindowSlot` | include/FlatHashmap.h:344 | a full byte of any window, and a free one in large tables, is the slot at offset plus index modulo the table |
| `Windows.SmallHasEmpty` | include/FlatHashmap.h:725-730 | every window of a small table shows an empty byte, and beyond the cloned slots nothing but empty bytes |
| `Windows.IndexBound` | include/FlatHashmap.h:910 | the assertion on the index of a probe inside the first round cannot fail |
| `ProbeChains.RoundHasEmpty` | include/FlatHashmap.h:823-824 | if some slot is empty, one of the windows of a round shows it: lookups end |
| `ProbeChains.SetCtrl` | include/FlatHashmap.h:1309-1314 | writing a control byte and its clone keeps the layout and changes what no other slot shows |
| `ProbeChains.MirrorIs` | include/FlatHashmap.h:1312-1313 | the masked index names the clone of the first seven slots and the slot itself otherwise |
| `ProbeChains.FillKeeps` | include/FlatHashmap.h:1309-1314 | filling a slot cuts no probe chain |
| `ProbeChains.EraseWindow` | include/FlatHashmap.h:963-969 | when the counts around a slot sum below the width, every circular window over the slot already shows another empty byte |
| `ProbeChains.EraseKeeps` | include/FlatHashmap.h:966-971 | so erasing to empty then cuts no probe chain |
| `ProbeChains.NeverFullExact` | include/FlatHashmap.h:959-969 | for every capacity the erasure test of a slot in use holds exactly if every circular window over the slot shows an empty byte |
| `ProbeChains.TinyNeverFull` | include/FlatHashmap.h:959-971 | for capacities 1, 3 and 7 the erasure test always holds: no tombstone is ever written |
| `Probing.CandidateSlots` | include/FlatHashmap.h:899-902 | the candidates of a group are full slots and include every slot of the window that carries the hash |
| `Probing.GroupHasEmpty` | include/FlatHashmap.h:907-908 | a lookup stops at a group exactly if its window shows an empty byte |
| `Probing.ChosenSlot` | include/FlatHashmap.h:751-762 | the chosen free byte is a free slot of the probe's own window; only a small table without free slots answers the sentinel's position |
| `Probing.SmallChoice` | include/FlatHashmap.h:761 | with a free slot in a small table the lowest free byte is a real slot, not padding |
| `Probing.Next` | include/FlatHashmap.h:346-350 | advances offset and index to the following probe, and the index stays below the capacity inside a round |
| `Probing.FindFirstNonFull` | include/FlatHashmap.h:746-766 | terminates on every table with an empty byte and returns a free slot with no free byte in any window before its own |
| `Probing.StoreCtrl` | include/FlatHashmap.h:1309-1314 | writes the byte and its clone and nothing else |
| `Probing.ConvertDeletedToEmptyAndFullToDeleted` | include/FlatHashmap.h:659-668 | afterwards every full slot is marked deleted, every other slot empty, and clones and sentinel are right |
| `Probing.NeverFull` | include/FlatHashmap.h:959-969 | the test of `erase`: it answers yes exactly if every window over the slot shows an empty byte, and no only above capacity 7 |
| `Probing.NextFull` | include/FlatHashmap.h:1356-1358 | moves to the next full slot or to the end, skipping no full slot |
| `SwissModel.GrowthLeavesEmpty` | include/FlatHashmap.h:673-691 | a table with no more used slots than its growth limit has an empty byte, small tables and capacity 0 included |
| `SwissModel.LookupComplete` | include/FlatHashmap.h:907-908 | a key unseen up to a window with an empty byte is not in the table |
| `SwissModel.PutValid` | include/FlatHashmap.h:832-844 | placing an absent key where the probe says keeps the invariant, adds exactly that entry and accounts for growth |
| `SwissModel.RemoveValid` | include/FlatHashmap.h:957-972 | removing a key under either mark keeps the invariant and every other entry, and accounts for growth |
| `SwissModel.FullTable` | include/FlatHashmap.h:1296-1306 | a half-empty table without growth left is not small, so the assertion of the squeezing path holds; and doubling makes room |
| `SwissModel.SpotIsTarget` | include/FlatHashmap.h:827-832 | when no rehash is called for, the slot found is a real slot, a tombstone or paid for by growth |
| `SwissModel.PrefixStep` | include/FlatHashmap.h:1239-1253 | walking the old slots in order meets every entry once, and each as a new key |
| `Squeeze.StartSqueeze` | include/FlatHashmap.h:1108 | after the conversion every entry is pending and the contents are unchanged |
| `Squeeze.SqueezingHasEmpty` | include/FlatHashmap.h:1115 | at every turn the search for a free slot has an empty byte to find |
| `Squeeze.Kept` | include/FlatHashmap.h:1126-1130 | leaving an entry in its group keeps the contents and the invariant and settles one pending entry |
| `Squeeze.Moved` | include/FlatHashmap.h:1131-1145 | moving an entry to an empty slot keeps the contents and the invariant and settles one pending entry |
| `Squeeze.Swapped` | include/FlatHashmap.h:1146-1154 | swapping with a pending entry keeps the contents and the invariant and settles one pending entry, so repeating the index ends |
| `Squeeze.EndSqueeze` | include/FlatHashmap.h:1185 | at the end the probe-chain invariant holds, no tombstone is left, and the growth count is the limit less the entries |
| `SwissTable.SwissTable.constructor` | include/FlatHashmap.h:780-783 | a new table is valid and empty, with capacity 0 |
| `SwissTable.SwissTable.FindIndex` | include/FlatHashmap.h:933-949 | terminates, finds a key exactly if the map has it, and then returns its slot |
| `SwissTable.SwissTable.FindPointer` | include/FlatHashmap.h:914-931 | finds a key exactly if the map has it, and points to its value |
| `SwissTable.SwissTable.Insert` | include/FlatHashmap.h:852-890 | adds exactly an absent key, never overwrites, and points to the value now under the key; the arrays stay while growth is left, and when the key is present |
| `SwissTable.SwissTable.PrepareInsert` | include/FlatHashmap.h:826-832 | with or without rehashing, keeps the contents and ends at a slot where the key may go; it rehashes only when no growth is left |
| `SwissTable.SwissTable.InsertAt` | include/FlatHashmap.h:832-844 | fills the slot, the tag and both counts, adding exactly that entry |
| `SwissTable.SwissTable.Erase` | include/FlatHashmap.h:952-976 | removes exactly the key, and answers whether it was there; growth comes back exactly if every window over the slot showed an empty byte |
| `SwissTable.SwissTable.DropDeletesWithoutResize` | include/FlatHashmap.h:1029-1186 | for every capacity from 7 on: terminates, keeps contents, size and capacity, leaves no tombstone, and sets the growth count |
| `SwissTable.SwissTable.PlaceEntry` | include/FlatHashmap.h:1111-1155 | one turn keeps the contents, and places a pending entry or passes a slot |
| `SwissTable.SwissTable.PlaceEntries` | include/FlatHashmap.h:1111-1155 | the loop that may repeat an index terminates with every entry placed and the contents unchanged |
| `SwissTable.SwissTable.Resize` | include/FlatHashmap.h:1188-1294 | keeps contents and size, takes the new capacity, leaves no tombstone, and sets the growth count |
| `SwissTable.SwissTable.Allocate` | include/FlatHashmap.h:1233-1234 | a fresh allocation is an empty table, under a new arbitrary seed |
| `SwissTable.SwissTable.TransferAll` | include/FlatHashmap.h:1239-1253 | copies every entry of the old arrays and no other, leaving the old arrays alone |
| `SwissTable.SwissTable.RehashAndGrowIfNecessary` | include/FlatHashmap.h:1296-1306 | keeps contents and size, leaves room to grow and no tombstone; the capacity is 1 at first, stays if at most half of the allowed slots hold entries, and doubles and one more otherwise |
| `SwissTable.SwissTable.Clear` | include/FlatHashmap.h:978-1019 | empties the map and returns to capacity 0 |
| `SwissTable.SwissTable.SetValueAt` | include/FlatHashmap.h:1940 | writing through a pointer to a key's value changes that entry only |
| `SwissTable.SwissIterator.constructor` | include/FlatHashmap.h:1333-1336 | starts at the first entry, or at the end |
| `SwissTable.SwissIterator.Advance` | include/FlatHashmap.h:1337-1340 | moves to the next entry, skipping none |
| `SwissTable.Entries` | include/FlatHashmap.h:1364-1369 | iterating from begin to end yields every entry of the map exactly once and nothing else |
| `FlatHashmap.FlatHashmap.constructor` | include/FlatHashmap.h:1905-1908 | a new map is empty, with a legal capacity of at least what is asked for and less than twice that |
| `FlatHashmap.FlatHashmap.Find` | include/FlatHashmap.h:1910-1912 | returns the value of the key, or nothing if the map does not have it |
| `FlatHashmap.FlatHashmap.Insert` | include/FlatHashmap.h:1918-1925 | answers true exactly if the key was absent, and never overwrites |
| `FlatHashmap.FlatHashmap.Subscript` | include/FlatHashmap.h:1927-1934 | points to the key's value, creating a blank one only for an absent key |
| `FlatHashmap.FlatHashmap.Read` | include/FlatHashmap.h:1927-1934 | reading through `operator[]` returns the value the map then has |
| `FlatHashmap.FlatHashmap.Assign` | include/FlatHashmap.h:1927-1934 | assigning through `operator[]` sets that key and no other |
| `FlatHashmap.FlatHashmap.Upsert` | include/FlatHashmap.h:1936-1947 | sets the key, and answers true exactly if it was absent |
| `FlatHashmap.FlatHashmap.Erase` | include/FlatHashmap.h:1949-1951 | removes the key, and answers whether it was there |
| `FlatHashmap.FlatHashmap.Clear` | include/FlatHashmap.h:1953-1955 | leaves an empty map |
| `FlatHashmap.FlatHashmap.Size` | include/FlatHashmap.h:1957-1959 | the size is the number of keys of the map |
| `FlatHashmap.FlatHashmap.Write` | include/FlatHashmap.h:1918-1955 | each changing operation, as a finite map has it: an insertion keeps a present key and reports false, an upsert replaces, an erasure removes |
| `FlatHashmap.FlatHashmap.Run` | include/FlatHashmap.h:1897-1999 | every sequence of operations from every valid map gives the answers and the contents of the same operations on a finite map |
| `MapLaws.Presence` | include/FlatHashmap.h:1910-1959 | after any run a key is there exactly if some operation brought it and none after took it away, or it was there at first and none took it away |
| `MapLaws.Origin` | include/FlatHashmap.h:1910-1959 | its value is that of the last upsert or assignment, or of the insertion or subscript that created it if none came since, or the one at first |
| `MapLaws.Answers` | include/FlatHashmap.h:1910-1959 | what each operation of a run answers, in terms of the map it finds |
| `LeftRight.ReaderCount` | include/LocklessContainer.h:979-993 | a reader changes only its own bucket of its own counter, by one up on arrival and one down on departure |
| `LeftRight.ZeroIsEmpty` | include/HashmapUtil.h:719-725 | a bucket read as zero, after earlier ones, means no reader left over from the other copy is counted in the buckets read so far, though they are read one at a time |
| `LeftRight.ReaderStale` | include/LocklessContainer.h:1010-1016 | no step of a reader undoes what the waiting writer already knows |
| `LeftRight.WriterStale` | include/LocklessContainer.h:1147-1150 | both waits together establish that no reader is in the copy about to change |
| `LeftRight.WriterExcluded` | include/LocklessContainer.h:1142-1168 | a writer's step never changes the copy readers are sent to, and changes the other only when no reader is in it |
| `LeftRight.NextInv` | include/LocklessContainer.h:1110-1209 | every step of every thread keeps the invariant |
| `LeftRightRuns.RunInv` | include/LocklessContainer.h:1000-1102 | the invariant holds at every moment of every run |
| `LeftRightRuns.Exclusion` | include/LocklessContainer.h:1120-1126 | in every run, the copy a reader is inside is not being changed and is the map that stood when it loaded the toggle |
| `LeftRightRuns.Linearized` | include/LocklessContainer.h:1120-1126 | what a reader returns is the abstract map of one moment between its arrival and its return |
| `LeftRightRuns.AbsChanges` | include/LocklessContainer.h:1147 | the abstract map changes only at the store to the toggle, and there by exactly the operation: an insertion keeps a present key, an upsert replaces it |
| `LeftRightRuns.IdleEqual` | include/LocklessContainer.h:1110-1209 | when no writer is active both copies are the abstract map |
| `LeftRightRuns.WriterDone` | include/LocklessContainer.h:1140-1209 | a write that succeeds has taken effect in both copies: an insertion of a present key reports false and changes nothing, one of an absent key reports true and adds it, an upsert sets, an erasure removes; both copies gave the same answer; one that failed leaves the old map |
| `LeftRightRuns.FailureUndone` | include/LocklessContainer.h:1154-1165 | a second insertion fails only for a new key, and the rollback erases just that key |
| `LeftRightRuns.UpsertUncaught` | include/LocklessContainer.h:1170-1184 | an upsert that fails at the second copy leaves the copies equal exactly if the key already had the value |
| `LeftRightRuns.UpsertSplits` | include/LocklessContainer.h:1170-1184 | a run from the empty map to a second copy at which failing leaves a new key in one copy and not in the other |
| `LeftRightRuns.DrainShrinks` | include/LocklessContainer.h:1148-1150 | while the writer waits, the number of readers that hold it up never grows: new readers do not add to it |
| `LeftRightRuns.DrainEnds` | include/LocklessContainer.h:1148-1150 | once none of them is left, the scan goes through every bucket and the writer goes on |
| `HazardQueueSteps.StaysProtected` | include/HashmapUtil.h:623-659 | a protected node stays live and visible to every scan, whatever other threads do |
| `HazardQueueSteps.OtherKeeps` | include/LocklessContainer.h:650-704 | a step of one thread keeps what every other thread relies on |
| `HazardQueueRecords.RecordStep` | include/HashmapUtil.h:530-545 | taking a record from the list, counting a new one, putting it on the list, setting and giving back records each keep the invariant |
| `HazardQueueFrames.StepFrame` | include/LocklessContainer.h:650-704 | what every step leaves alone: other threads, wait lists that are not its own, holders, and the history except at the two swaps and the read |
| `HazardQueueNodes.InstallStep` | include/LocklessContainer.h:666-673 | the swap of the tail keeps the invariant although the link is still missing |
| `HazardQueueNodes.LinkStep` | include/LocklessContainer.h:671 | the winner's link reaches a node nobody freed and completes the chain |
| `HazardQueueNodes.AdvanceEvolves` | include/LocklessContainer.h:688-697 | when the swap of the head succeeds, the next node read earlier is the true successor |
| `HazardQueueNodes.RetireStep` | include/HashmapUtil.h:635-641 | retiring puts the node on one wait list, once |
| `HazardQueueNodes.FreeStep` | include/HashmapUtil.h:651-658 | freeing a node not found in any hazard pointer keeps every other thread's guarantees |
| `HazardQueueNodes.StepInv` | include/LocklessContainer.h:640-724 | every step of every thread keeps the invariant of queue, records and wait lists |
| `HazardQueueRuns.RunInv` | include/LocklessContainer.h:640-724 | the invariant holds at every moment of every run |
| `HazardQueueRuns.NoUseAfterFree` | include/LocklessContainer.h:650-704 | in every run, whatever node a thread is about to touch is live, with addresses reused immediately |
| `HazardQueueRuns.FreesOnlyRetired` | include/HashmapUtil.h:651-656 | what a scan frees is live, was retired to that record, and is on its list once: no node is freed twice |
| `HazardQueueRuns.ValidatedStaysLive` | include/LocklessContainer.h:683-696 | from a successful validation to the end of the use, the node is live, in the hazard pointer, and missed by no scan |
| `HazardQueueRuns.ValuesMove` | include/LocklessContainer.h:666 | the list of pushed values grows by the new node's value at a successful swap of the tail, and at no other step |
| `HazardQueueRuns.AnswersMove` | include/LocklessContainer.h:696-697 | the list of answers grows at a successful swap of the head, and is filled in when that pop reads the value |
| `HazardQueueRuns.FirstInFirstOut` | include/LocklessContainer.h:677-704 | in every run the values popped, in the order of swaps of the head, are a prefix of those pushed, in the order of swaps of the tail |
| `HazardQueueRuns.DeliveredOnce` | include/LocklessContainer.h:696-700 | an answer given is never changed, and no other pop reads for the same position |
| `HazardQueueCalls.PushReturns` | include/LocklessContainer.h:650-675 | in every run, a push that has returned has appended its value at exactly one moment of the call, and done nothing else to the queue |
| `HazardQueueCalls.PopReturns` | include/LocklessContainer.h:677-704 | in every run, a pop that has returned took and delivered the oldest value at exactly one moment of the call, or took nothing and read at one moment that there is no successor |
| `HazardQueueCalls.RecordsTidy` | include/HashmapUtil.h:490-498 | in every run, a record nobody holds shows no node, and a thread between two calls holds no record |
| `HazardQueueEmpty.StepLinks` | include/LocklessContainer.h:671-698 | every step keeps what the links say: a node off the queue has lost its link exactly from the clearing on, and a pop that validated a node that is still queued holds the head |
| `HazardQueueEmpty.EmptyAnswer` | include/LocklessContainer.h:688-698 | in every run a pop answers empty exactly if the queue is empty, the head's successor is not linked yet, or its node was popped meanwhile and the link cleared; the answer is wrong exactly in the second case, and in the third if something is queued |
| `HazardQueueEmpty.EmptyOnly` | include/LocklessContainer.h:681-703 | in every run, a pop gives up without having moved the head only at that read, in one of those three cases: a lost race makes it try again |
| `HazardQueueWrong.UnlinkedRun` | include/LocklessContainer.h:668-671 | a run in which a pop answers empty, beside a node not yet linked, although a push that returned before it began is queued |
| `HazardQueueWrong.ClearedRun` | include/LocklessContainer.h:688-698 | a run in which a pop answers empty, its node popped and the link cleared, although two pushes returned before it began, nobody else was active then, and one value is still queued |
| `HazardQueueGarbage.ScanKeepsFew` | include/HashmapUtil.h:645-659 | a finished scan keeps at most as many nodes as there were records when it began, below the threshold |
| `HazardQueueGarbage.StepGarbage` | include/HashmapUtil.h:593-641 | every step keeps the bounds on all wait lists |
| `HazardQueueRuns.RecordsCounted` | include/HashmapUtil.h:536-543 | in every run, the count of records is the length of their list plus the threads between counting a record and adding it |
| `HazardQueueRuns.WaitListsBounded` | include/HashmapUtil.h:593-596 | in every run, a wait list not being scanned is shorter than 2R + R/4 for a count of R records |
| `HazardQueueRuns.ScansFreeEnough` | include/HashmapUtil.h:635-659 | a scan triggered at a count of R records frees at least R + R/4 nodes if it found no more records than that |
| `RingQueue.SlotsDiffer` | include/LocklessContainer.h:607 | two counters less than the capacity apart name different slots |
| `RingQueue.StepInv` | include/LocklessContainer.h:602-620 | every step of producer and consumer keeps the invariant |
| `RingQueue.RingSafe` | include/LocklessContainer.h:597-632 | in every run with fewer than 2^64 pushes head ≤ tail ≤ head + capacity, the items popped are a prefix of those pushed, and nobody reads the slot being written |
| `RingCalls.PushReturns` | include/LocklessContainer.h:602-610 | in every run, a push is refused exactly if the ring was full when it loaded the head, and otherwise appends its item |
| `RingCalls.PopReturns` | include/LocklessContainer.h:612-620 | a pop delivers nothing exactly if everything was popped when it loaded the tail, and otherwise the oldest item |
| `RingQueue.RingExact` | include/LocklessContainer.h:602-620 | in every run the head is not ahead of the tail exactly as long as fewer than 2^64 items were pushed, and never more are pushed than 2^64 and the capacity less one |
| `RingQueue.NothingMore` | include/LocklessContainer.h:612-616 | from a moment with 2^64 pushes and no pop under way, no item is delivered any more |
| `RingQueue.WrapHides` | include/LocklessContainer.h:612-616 | for every ring and item, a run to a moment with 2^64 pushes, one pop fewer, and no pop under way |
| `BoundedQueue.InnerPc` | include/LocklessContainer.h:798-827 | a step of the linked queue agrees with where the wrapper thinks the thread is, before and after its operation took effect |
| `BoundedQueue.NextInv` | include/LocklessContainer.h:798-827 | whatever the counter held at first, it goes on to count the items of the linked queue and the operations half done |
| `BoundedQueueCalls.PushRefused` | include/LocklessContainer.h:798-800 | in every run, a push is refused exactly if the first value of the counter, the items, and the operations counted before or after they take effect reach the capacity |
| `BoundedQueueCalls.PushReturns` | include/LocklessContainer.h:798-804 | a push that is not refused and has returned has added one item at exactly one moment |
| `BoundedQueueCalls.PopReturns` | include/LocklessContainer.h:820-827 | a pop that has returned took one item at exactly one moment and lowers the counter, or took none, leaves the counter, and met one of the three cases |
| `BoundedQueue.NeverMore` | include/LocklessContainer.h:794-841 | in every run of the linked queue under the wrapper in which P threads ever pushed, whether they also pop or not, it holds at most capacity + P - 1 items, less what the counter held at first |
| `BoundedQueueExcess.Exceeds` | include/LocklessContainer.h:796-812 | a run with a counter that starts at minus one, capacity one and one producer, at whose end two items are held |
| `DecimalArith.TruncLaw` | include/DecimalUtil.h:326 | quotient and remainder of C++ division: they recompose, and the remainder has the dividend's sign |
| `DecimalArith.AddExact` | include/DecimalUtil.h:233-244 | for all machine values addition reports overflow exactly if the sum is outside [min + 1, max], except that NULL + 0 passes |
| `DecimalArith.SubExact` | include/DecimalUtil.h:246-257 | the same for subtraction |
| `DecimalArith.MulExact` | include/DecimalUtil.h:264-270 | for operands other than NULL, multiplication reports overflow exactly if the product is outside ±max |
| `DecimalArith.SignedGcd` | include/DecimalUtil.h:222-231 | the loop with truncated remainders terminates on all signs and yields ± the greatest common divisor |
| `DecimalArith.GcdGreatest` | include/DecimalUtil.h:219-231 | every common divisor divides the result |
| `DecimalArith.Euclid` | include/DecimalUtil.h:305-328 | a divisor without common factor with one factor divides the other |
| `DecimalArith.Reduce` | include/DecimalUtil.h:307-314 | dividing by the gcd is exact, makes the two coprime and enlarges neither |
| `DecimalArith.Reduced` | include/DecimalUtil.h:307-322 | reducing one factor and then the other takes out all that product and divisor share, and keeps the truncated quotient |
| `DecimalArith.MulDivOverflow` | include/DecimalUtil.h:305-328 | the result is value1 * value2 / divisor truncated toward zero; overflow is reported exactly if the product divided by its gcd with the divisor exceeds max |
| `DecimalArith.ExactQuotient` | include/DecimalUtil.h:300-304 | when the divisor divides the product, that is exactly when the true quotient is outside ±max |
| `DecimalArith.FalseOverflow` | include/DecimalUtil.h:324-325 | operands for which overflow is reported although the quotient fits |
| `DecimalScale.PrecisionFits` | include/DecimalUtil.h:97-101 | ten to the maximal precision fits the raw type, for all three widths, and ten times that does not |
| `DecimalScale.TruncIs` | include/DecimalUtil.h:893-912 | truncating to a smaller scale leaves the multiple next to the value on the side of zero, with its sign, and never overflows |
| `DecimalScale.TruncCompose` | include/DecimalUtil.h:894-913 | truncating from a to b and then to c is truncating from a to c |
| `DecimalScale.UpAndDown` | include/DecimalUtil.h:894-943 | scaling up overflows exactly if the product does not fit, and is exact otherwise; scaling down again, by truncating or rounding, gives the value back |
| `DecimalScale.RoundNearest` | include/DecimalUtil.h:920-943 | rounding down in scale gives a nearest value, ties away from zero, and never overflows |
| `DecimalScale.NearestUnique` | include/DecimalUtil.h:920-943 | there is only one such value |
| `DecimalScale.RoundOdd` | include/DecimalUtil.h:920-943 | rounding is odd: it fails for x and -x alike and negates with its argument |
| `DecimalScale.FloorIs` | include/DecimalUtil.h:986-1013 | floor is the greatest integer not above the value and never overflows |
| `DecimalScale.CeilIs` | include/DecimalUtil.h:951-978 | ceil is the least integer not below the value and never overflows |
| `DecimalScale.FloorCeil` | include/DecimalUtil.h:951-1013 | floor(x) = -ceil(-x) |
| `DecimalScale.NullStays` | include/DecimalUtil.h:894-1013 | NULL stays NULL under all four operations |
| `DecimalText.StepKeeps` | include/DecimalUtil.h:462-560 | after every character of any text the value has at most as many digits as were counted, and those fit the precision |
| `DecimalText.Parse` | include/DecimalUtil.h:393-611 | for every text and context the answer is NULL or at most ten to the precision in magnitude, which the raw type holds |
| `DecimalText.DigitIs` | include/DecimalUtil.h:475-500 | the ten digits are the characters from 0 to 9, and their values are in that order |
| `DecimalText.SignificantBound` | include/DecimalUtil.h:455-456 | the digit count leaves leading zeros out and brackets the value between powers of ten |
| `DecimalText.ScanInteger` | include/DecimalUtil.h:485-529 | integer digits accumulate to their number, and overflow exactly beyond the precision |
| `DecimalText.ScanFraction` | include/DecimalUtil.h:530-549 | fraction digits within the scale append to the number, and overflow exactly beyond the precision |
| `DecimalText.ScanLongFraction` | include/DecimalUtil.h:536-540 | of a longer fraction the first digit dropped decides about rounding |
| `DecimalMeaning.ParseMeaning` | include/DecimalUtil.h:393-611 | for every well-formed text: overflow exactly if its integer digits without leading zeros plus the scale exceed the precision, under one code if the digits there are too many and another if only the missing ones are; else its value at that scale, exact, rounded half away from zero, or truncated |
| `DecimalMeaning.PrintedForm` | include/DecimalUtil.h:332-353 | the printer puts a minus sign before negative values and nothing before others, an integer part without leading zeros, and behind one point exactly scale digits, or no point; the digits are the magnitude |
| `DecimalMeaning.PrintsText` | include/DecimalUtil.h:332-353 | the printer's output is a sign, the integer part, and exactly scale fraction digits |
| `DecimalMeaning.PrintParse` | include/DecimalUtil.h:332-611 | printing and parsing back returns scale and value, with the scale given or determined |
| `DecimalInput.TakeText` | include/DecimalUtil.h:462-560 | every text at all is a longest beginning of blanks, sign, digits, point and digits, and a rest that cannot extend it |
| `DecimalInput.NumberRest` | include/DecimalUtil.h:572-606 | whatever follows a number changes nothing, except that strict parsing refuses it, and only if the fraction has not used up the scale |
| `DecimalInput.StrictAccepts` | include/DecimalUtil.h:536-540 | two texts with more behind a number that strict parsing accepts |
| `DecimalInput.DateSample` | include/DecimalUtil.h:366-369 | the date the comments give as an example, parsed up to its second point or refused in strict mode |
| `DecimalInput.Samples` | include/DecimalUtil.h:368-369 | the text they give for one without a number is NULL, and blanks, tab and sign before a number are taken |
| `DecimalInput.NoDigits` | include/DecimalUtil.h:448-453 | a text without digits is NULL, or zero if it has a sign |
| `DecimalInput.NoDigitsRest` | include/DecimalUtil.h:578-606 | the same if something follows, except that strict parsing refuses it behind a sign or a point |
| `DecimalInput.ParseAny` | include/DecimalUtil.h:393-611 | the answer for every text and every context: bad scale, refusal, NULL, zero, overflow under its code, or the value at the wanted scale |
| `Primes.IsCandidate` | include/FlatHashmap.h:40-48 | trial division up to the square root decides primality, and passes 1 |
| `Primes.SquareRoot` | include/FlatHashmap.h:42 | a number without divisor up to its square root is prime |
| `Primes.PrimeAbove` | include/FlatHashmap.h:38-50 | there is a prime above every number, so the search ends |
| `Primes.NextPrime` | include/FlatHashmap.h:36-51 | for n ≥ 1 terminates with the least prime greater than n; for 0 answers 1 |
| `ProbingModel.NextPower2` | include/FlatHashmap.h:57-65 | the least power of two above n |
| `ProbingModel.Capacity` | include/FlatHashmap.h:26-35 | the least power of two above the request, or the least prime above it or, without a prediction, above its double; one if nothing is asked for |
| `ProbingModel.LogIs` | include/FlatHashmap.h:2658 | the rounded-up logarithm is at most k exactly if n is at most two to the k |
| `ProbingModel.LimitGrows` | include/FlatHashmap.h:2654-2661 | for every scaling factor and every number there is a capacity beyond which the probe limit exceeds the number |
| `ProbingModel.ShortfallFalls` | include/FlatHashmap.h:2557-2569 | a larger table after one with too small a probe limit is nearer to a sufficient one, whether or not the first table used the factor |
| `ProbingModel.MoreSlots` | include/FlatHashmap.h:2624-2643 | the table after one that refused a key has more slots if and only if the old probe limit is not the whole capacity, or at most a tenth was used, or twice the old capacity is below the new one with its probe limit |
| `ProbingModel.MoreSlotsThen` | include/FlatHashmap.h:2542-2572 | after such a table a prime capacity that was not predicted suffices, and among powers of two exactly those beyond the double or with a probe limit above zero; a factor of one or more always suffices with powers of two or without a prediction |
| `ProbingModel.FullWindow` | include/FlatHashmap.h:2463-2473 | a window without a free slot holds as many keys as the probe limit |
| `HashsetTable.HomeIsMod` | include/FlatHashmap.h:22-24 | the home slot is the hash modulo the capacity |
| `HashsetTable.ScanWindow` | include/FlatHashmap.h:2483-2496 | looking at the whole window decides membership |
| `HashsetTable.ScanToHole` | include/FlatHashmap.h:2498-2510 | stopping at the first hole decides it too when no hole separates a key from its home |
| `HashsetTable.ScanForSlot` | include/FlatHashmap.h:2451-2481 | finds the key, or the first free slot, or proves there are at least probe-limit keys |
| `HashsetTable.FlatHashsetImpl.constructor` | include/FlatHashmap.h:2404-2408 | an empty table with the granted capacity and its scaled probe limit |
| `HashsetTable.FlatHashsetImpl.Find` | include/FlatHashmap.h:2483-2496 | true exactly for the keys of the set |
| `HashsetTable.FlatHashsetImpl.FindNoErase` | include/FlatHashmap.h:2498-2510 | the early-stopping lookup agrees with membership in tables without holes |
| `HashsetTable.FlatHashsetImpl.Insert` | include/FlatHashmap.h:2451-2481 | adds an absent key or changes nothing; there is no vacancy exactly if the key is absent and its window full, and then the set has at least probe-limit keys |
| `HashsetTable.FlatHashsetImpl.InsertNoErase` | include/FlatHashmap.h:2428-2449 | the same, and no hole ever separates a key from its home |
| `HashsetTable.FlatHashsetImpl.Erase` | include/FlatHashmap.h:2512-2528 | removes exactly the key, and answers whether it was there |
| `HashsetTable.FlatHashsetImpl.Clear` | include/FlatHashmap.h:2530-2539 | empties the set |
| `FlatHashset.Rehash` | include/FlatHashmap.h:2624-2653 | copies the whole set, or fails only because the new probe limit is below the number of keys |
| `FlatHashset.NoMoreSlots` | include/FlatHashmap.h:2626 | a table reached by insertions, and the one made to replace it, with the same number of slots |
| `FlatHashset.Try` | include/FlatHashmap.h:2557-2569 | one turn of the growth loop: a table with all keys, or a capacity still below the one that must suffice |
| `FlatHashset.FirstCapacity` | include/FlatHashmap.h:2542-2552 | one more than before, or the whole part of hint * capacity / insertions if that is more, and only from 50000 insertions on |
| `FlatHashset.GrowFrom` | include/FlatHashmap.h:2541-2572 | terminates for every hash, factor and hint with a table that holds exactly the old keys, a capacity granted for more than the old one, and the scaled probe limit exactly if more than a tenth was used |
| `FlatHashset.FlatHashset.constructor` | include/FlatHashmap.h:2718-2721 | an empty set with the capacity granted for the one asked for, whose first table does not use the factor |
| `FlatHashset.FlatHashset.Scaled` | include/FlatHashmap.h:2722-2725 | an empty set, whose first table does |
| `FlatHashset.FlatHashset.Insert` | include/FlatHashmap.h:2731-2745 | the recursion terminates for every factor; adds the key, and answers true exactly if it was absent |
| `FlatHashset.FlatHashset.Find` | include/FlatHashmap.h:2727-2729 | membership |
| `FlatHashset.FlatHashset.Erase` | include/FlatHashmap.h:2747-2749 | removes the key, and answers whether it was there |
| `FlatHashset.FlatHashset.Size` | include/FlatHashmap.h:2755-2757 | the number of keys of the set |
| `FlatHashset.FlatHashset.Grow` | include/FlatHashmap.h:2738-2742 | a full table is replaced by one with the same keys that is nearer to a sufficient one |
| `FlatHashset.IrremovableFlatHashset.constructor` | include/FlatHashmap.h:2812-2815 | an empty set without a hint |
| `FlatHashset.IrremovableFlatHashset.Hinted` | include/FlatHashmap.h:2816-2819 | an empty set with a hint and a factor |
| `FlatHashset.IrremovableFlatHashset.Attempt` | include/FlatHashmap.h:2826-2832 | counts the insertion; without a vacancy the set is as it was, and not empty if anything was inserted before, so the prediction divides by no zero |
| `FlatHashset.IrremovableFlatHashset.Insert` | include/FlatHashmap.h:2825-2841 | the recursion terminates for every hint and factor; adds the key, answers true exactly if it was absent, and counts one insertion however often it grows |
| `FlatHashset.IrremovableFlatHashset.Find` | include/FlatHashmap.h:2821-2823 | membership, with the early-stopping lookup |
| `FlatHashset.IrremovableFlatHashset.Clear` | include/FlatHashmap.h:2843-2845 | empties the set |
| `MonitorQueues.RingPush` | include/Concurrent.h:403-405 | writing at the tail of the ring appends to the sequence it stands for |
| `MonitorQueues.RingPop` | include/Concurrent.h:416-419 | advancing the head takes the first item off |
| `MonitorQueues.BoundedBlockingQueue.constructor` | include/Concurrent.h:391-393 | an empty queue, for every capacity |
| `MonitorQueues.BoundedBlockingQueue.Push` | include/Concurrent.h:399-410 | appends exactly if there is room, else sleeps; nobody is left asleep on an occasion that has come |
| `MonitorQueues.BoundedBlockingQueue.Pop` | include/Concurrent.h:412-424 | takes the oldest item exactly if there is one, else sleeps; nobody is left asleep on an occasion that has come |
| `MonitorQueues.GenericBoundedQueue.constructor` | include/Concurrent.h:599 | an empty queue |
| `MonitorQueues.GenericBoundedQueue.Push` | include/Concurrent.h:601-614 | appends exactly if the size is positive and there is room or the item is mandatory |
| `MonitorQueues.GenericBoundedQueue.BlockingPush` | include/Concurrent.h:616-646 | appends, ignores or sleeps, each exactly when the code says, losing no wake-up |
| `MonitorQueues.GenericBoundedQueue.GiveUp` | include/Concurrent.h:637-638 | a wait that times out leaves the queue as it is and the thread awake |
| `MonitorQueues.GenericBoundedQueue.Pop` | include/Concurrent.h:675-687 | takes the oldest item if there is one, and wakes pushers when it makes room |
| `MonitorQueues.GenericBoundedQueue.BlockingPop` | include/Concurrent.h:697-724 | takes the oldest item or sleeps |
| `MonitorQueues.GenericBoundedQueue.PopBatch` | include/Concurrent.h:648-673 | takes the first item and the longest further prefix within the budget, in order |
| `MonitorQueues.GenericBoundedQueue.RemoveItem` | include/Concurrent.h:750-770 | keeps exactly the items not selected, in order, and the size is their total |
| `MonitorQueues.KeptExact` | include/Concurrent.h:758-764 | the items kept are those of exactly the places not selected, in order |
| `MonitorQueues.GenericBoundedQueue.Clear` | include/Concurrent.h:743-748 | empties the queue; the no-lost-wake-up invariant survives exactly if nobody waits for room or the capacity is not positive |
| `MonitorQueues.ClearLosesWakeup` | include/Concurrent.h:743-748 | a push, a blocking push and a clear after which the queue is empty and a thread still sleeps for room |

## Left out

- The SSE2 group, the compiler built-in branches for bit counting, and `CountLeadingEmptyOrDeleted`: the tables here read groups through the portable functions alone, and nothing calls the last one.
- `FlatHashmapImpl`, `FlatBitmap`, `FlatBitset` and combined keys: other structures of the same header. `FlatHashmap` is built on the Swiss table and the sets on `FlatHashsetImpl`, so no result here depends on them.
- `LocklessHashmap` over `ht_cas`, `ht_get`, `ht_remove` and `hti_help_copy`: their bodies are not part of this model.
- Allocation, alignment, object construction and destruction, and the paths that restore a table after an exception. A failed allocation is modelled only in the Left-Right maps, where a new key may fail to be inserted in either copy or upserted in the first.
- `LeftRightRuns.IdleEqual`: an upsert that fails at the second copy is not a step of the machine; it would leave the copies different, as `LeftRightRuns.UpsertUncaught` says.
- `LeftRightRuns.WriterDone`: speaks of upserts that do not fail at the second copy, for the same reason.
- The loop of `SwissTableImpl::clear` that marks slots empty before the arrays are freed: its effect is gone when the arrays are.
- `ProbingModel.LogIs`: the logarithm is exact, and so is the scaled probe limit; the code computes both in floating point.
- `ProbingModel.LimitGrows`: the scaled probe limit is exact, for the same reason.
- `HashsetTable.FlatHashsetImpl.constructor`: its probe limit is that exact one.
- `FlatHashset.FirstCapacity`: the prediction is computed in real numbers, without the rounding of doubles.
- The 32-bit words of the presence bitmap: they are an array of booleans here, one for each slot.
- Weak memory: relaxed loads, plain writes of hazard pointers and fences are all sequentially consistent steps.
- `help_scan`, which nothing calls, and the destructors of the queue and the hazard manager.
- `LeftRight.NextInv`: the writer's two loads happen with taking the lock, since only the holder of the lock writes them, and a reader's whole lookup in a copy is one step; exclusion makes that the same.
- `RingQueue.RingSafe`: runs with 2^64 pushes or more, in which it fails, and rings of capacity zero, which refuse every push.
- `RingQueue.NothingMore`: what the one pop delivers that may be under way when the counter wraps.
- `RingCalls.PopReturns`: pops that return after 2^64 pushes, for the same reason.
- `BoundedQueueCalls.PushReturns`: which value the item has is left to the push of the linked queue, `HazardQueueCalls.PushReturns`.
- `MonitorQueues.GenericBoundedQueue.PopBatch`: the sizes come from a function of the item alone, and sums do not wrap around.
- `BlockingBoundedQueue` and `BlockingBoundlessQueue`: they add waiting to nonblocking queues, and no result here says when their waits end. The `peek`, `count` and `occupancyLevel` readers change nothing.
- The text of the parser's error messages; that one was set is modelled.
- `DecimalArith.MulExact`: NULL operands, for which the code negates the least value of its type; the callers modelled here pass none.
- `DecimalScale.TruncCompose`: powers of ten are mathematical, so scales beyond the tables of `scaleMultiplier`, where the code asserts, are covered as well.
- `DecimalMeaning.PrintParse`: takes printing a 128-bit integer to a stream to be decimal, as for the other widths.
- Choice of decimal result types, type-name parsing and vector operators: they call the functions modelled here with widths and scales chosen elsewhere, and the results hold for every width and scale.
- `nextPrime`, `next_power2` and the doubling of capacities near the top of the 64-bit range, where the code would wrap around.
