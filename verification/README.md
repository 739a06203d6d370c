# Verified models of FatP's vendored data structures, algorithms and state machine

FatP builds and benchmarks against a few third-party headers. This project models five of them in Dafny and proves
what their users rely on.

- **`ankerl::unordered_dense`** (`DenseIndex`, `DenseEntries`, `DenseTable`): a circular Robin Hood array of
  (distance, fingerprint, value index) buckets over a dense vector of entries. The bucket invariant is kept by every
  insertion, removal, rehash and replacement; every search that has no stopping condition of its own is shown to stop
  at the right bucket; and each operation of the class refines an operation on a plain map. `WideMultiply` has the
  64 x 64 to 128 bit product of its hash, `HashBytes` the bytes that hash reads.
- **`robin_hood`** (`InfoBytes`, `Slots`, `ByteLanes`, `HashMixing`, `RobinHoodNodes`, `Crowding`, `RobinHoodTable`): info
  bytes that mix distance and hash bits, without wrap-around, in front of a sentinel. No byte is ever truncated, the search
  for an empty slot stops before the sentinel, and `try_increase_info`, eight bytes at a time, keeps the whole table.
  Which keys fill the bytes, and so stop a rehash, is characterised exactly. The multiplier sequence keeps the hash
  mixing injective. `BulkPool` is the pool allocator with its free list threaded through the memory it hands out.
- `MapRuns` puts the operations of both tables together: any sequence of them does to the table what it does to a
  plain map, reply by reply.
- **`etl/algorithm.h`** (`Rotation`, `Gcd`, `Heaps`, `Stability`, `InsertionSort`, `ShellSort`, `Selection`,
  `Permutation`): the in-place rotations, the heap algorithms and heap sort, the stable insertion sort, shell sort,
  `nth_element` and `is_permutation`, on arrays.
- **`ankerl::svector`** (`ObjectStorage`, `InlineCapacity`, `SmallVector`): a vector whose elements live in the object
  or in one block. Memory cells are raw, hold a value, or hold a husk that was moved from; every placement, assignment
  and destruction is only allowed on cells in the right state, so that the contracts speak about lifetimes.
- **`boost::sml`** (`Transitions`, `Dispatching`, `RunToCompletion`, `FlatRun`, `StateMachine`): which row an event takes
  and what that does, and the run-to-completion loop with anonymous transitions, the defer queue and the process queue,
  which is shown to be one flat sequence of dispatches.

`Words`, `Entries`, `Collections`, `Ordering` and `Ranges` hold what several of these share.
`dafny verify dfyconfig.toml` checks everything.

## Assumptions

- The hash is an arbitrary function from keys to 64-bit words, and keys are compared by equality. For
  `unordered_dense` it stands for the mixed hash, for `robin_hood` for the hash before its own mixing.
- In `unordered_dense` the capacity for a bucket count is an arbitrary function below that count that never falls as
  the count rises; it stands for the product with the floating-point load factor. Tables hold at most 2^24 - 2 entries, for which
  alone the 24-bit distances have room (`DenseIndex.DistanceRoom`), in up to 2^32 buckets.
- In `robin_hood` the load factor is a percentage strictly between 10 and 100, as its static assertion demands, and
  nodes are stored flat. Taking the low bits with the mask is written as a remainder.
- Comparisons are strict weak orders in the sense of ISO/IEC 14882:2020, section 25.8.
- The slots of a pool, and the header of a block, have room for a pointer of eight bytes, as the source's sizes ensure.
- Addresses that an allocator returns, and whether it has memory, are parameters.
- A machine of `boost::sml` is flat, with one or more regions. A table has no unexpected-event or exception
  transitions. Guards are functions of the event and the machine's data; actions update the data, defer the event, or
  push events to the process queue; leaving and entering a state may change the data and push events.

## What the code does not do

Seven properties that a caller might expect do not hold for all inputs. Each has its condition; the one for insertion
leaves a middle ground that the last section names.

- `rotate` returns the position that ISO/IEC 14882:2020, section 25.7.11, asks for except when the first part is empty
  and the second is not (`Rotation.Rotate`; a single element is the one exception to the exception, in C++20 and for
  iterators that are not exactly forward iterators).
- Opening a gap of no elements in an `svector`, as inserting an empty range of forward iterators or a count of zero
  does, moves the tail onto itself, element by element; so does erasing an empty range. Elements whose type does not
  keep its value on self-move lose it (`SmallVector.UndisturbedExactly`, `SmallVector.SVector.Insert`,
  `SmallVector.SVector.Erase`).
- The test for growth in `make_uninitialized_space` adds in 64-bit words and is right exactly as long as the sum does
  not wrap around (`SmallVector.GrowsExactly`).
- Draining the defer queue returns if and only if it relapses only finitely often, that is, goes back to the front
  with the event deferred again (`RunToCompletion.DrainingEndsExactly`). `RunToCompletion.RestlessCallNeverReturns` has
  a machine with two states for which a call of `process_event` never returns; `RunToCompletion.OneRegionSteady` and
  `RunToCompletion.InPlaceIsSteady` are conditions on the rows of a table that rule this out.
- Moving the nodes of a `robin_hood` table to new arrays fails if and only if the keys, without that of the last
  occupied slot, are crowded there: some buckets a to b are home to at least b - a + 127 of them
  (`RobinHoodTable.Table.RehashPowerOfTwo`, `Crowding.OverfullExactly`).
- Inserting a new key into a `robin_hood` table never fails unless the table is full, its bytes cannot be narrowed, and
  its keys, at least 127, are crowded in the arrays that it would move to next; it always fails if that rehash fails,
  if the keys are crowded in all of the next 255 arrays, or if 127 of them have the hash of the new one
  (`RobinHoodTable.Table.TryEmplace`). Of keys of a single hash exactly the first 127 are taken
  (`RobinHoodTable.FillWithOneHash`).
- The 24-bit distances of `unordered_dense` have room in every table of at most 2^24 - 2 entries and in no larger
  number: 2^24 - 1 entries of one home make a probe lose its distance (`DenseIndex.DistanceRoom`,
  `DenseIndex.DistanceLost`).

## Model

| member | source | states |
|---|---|---|
| DenseIndex.DistanceRoom | ThirdParty/ankerl/unordered_dense.h:434-440 | In every index of k values, whatever its size, every probe that is not stopped can take its next distance step in the 32-bit word if and only if k is at most 2^24 - 2; otherwise 2^24 - 1 values of one home are a counterexample |
| DenseIndex.DistanceLost | ThirdParty/ankerl/unordered_dense.h:970-972 | A step that has no room leaves the bare fingerprint, so the distance is gone |
| DenseIndex.ProbeBound | ThirdParty/ankerl/unordered_dense.h:1225-1240 | A probe that is not stopped is no further from home than there are values |
| DenseIndex.HasEmpty | ThirdParty/ankerl/unordered_dense.h:1013-1032 | A valid index over fewer values than buckets has an empty bucket; every unguarded probe and shift rests on it |
| DenseIndex.Dominates | ThirdParty/ankerl/unordered_dense.h:1013-1023 | Going back from an occupied bucket the words fall by at most one distance step each, down to its home bucket |
| DenseIndex.BeforeEmpty | ThirdParty/ankerl/unordered_dense.h:1220-1241 | A probe that has not been stopped has not yet walked round to an empty bucket, so its distance does not wrap |
| DenseIndex.NotStopped | ThirdParty/ankerl/unordered_dense.h:1225-1240 | The stopping test never stops a probe before the bucket it is looking for |
| DenseIndex.Advance | ThirdParty/ankerl/unordered_dense.h:1238-1239 | A probe that is not stopped may take the next step: its word stays the one its tag would have there |
| DenseIndex.StoreOrdered | ThirdParty/ankerl/unordered_dense.h:1025-1032 | Storing a bucket where a probe stopped keeps the order between neighbours |
| DenseIndex.StoreIndexes | ThirdParty/ankerl/unordered_dense.h:1025-1032 | Storing a bucket keeps the one-to-one correspondence between buckets and values, with the displaced value left out |
| DenseIndex.SwapUp | ThirdParty/ankerl/unordered_dense.h:1025-1030 | One exchange of the upward shift keeps the whole invariant, with the displaced bucket pending one place on |
| DenseIndex.Settle | ThirdParty/ankerl/unordered_dense.h:1031-1032 | Storing into an empty bucket completes the invariant |
| DenseIndex.SlideDown | ThirdParty/ankerl/unordered_dense.h:1037-1041 | One step of the downward shift keeps the invariant around a moving hole |
| DenseIndex.Vacate | ThirdParty/ankerl/unordered_dense.h:1042-1043 | Clearing the hole where the shift stops restores the invariant without a hole |
| DenseIndex.Retarget | ThirdParty/ankerl/unordered_dense.h:1158-1165 | Pointing the last value's bucket at the freed index restores the bijection for one value fewer |
| DenseIndex.Seek | ThirdParty/ankerl/unordered_dense.h:1159-1164 | From the home bucket of a value the first bucket with its index is its own, never an empty one whose index is zero, and it lies ahead |
| DenseEntries.SwapRemoveMap | ThirdParty/ankerl/unordered_dense.h:1154-1167 | Moving the last entry into the place of an erased one removes exactly the erased key |
| DenseEntries.FilledStep | ThirdParty/ankerl/unordered_dense.h:1844-1849 | After k erasures from the left the last k entries stand, reversed, in the range |
| DenseEntries.FilledCut | ThirdParty/ankerl/unordered_dense.h:1851-1855 | The erasures from the right leave exactly the result of the range erase |
| DenseEntries.RangeMap | ThirdParty/ankerl/unordered_dense.h:1836-1858 | What is left after a range erase: all entries outside the range, as a multiset and as a map |
| DenseEntries.ScanStep | ThirdParty/ankerl/unordered_dense.h:2222-2231 | One step of erase_if, with the last entry moved into the hole, tests one original entry and keeps or drops exactly it |
| DenseEntries.KeptMap | ThirdParty/ankerl/unordered_dense.h:2215-2234 | erase_if leaves the map restricted to the entries that the predicate refuses |
| DenseEntries.RekeyMap | ThirdParty/ankerl/unordered_dense.h:1776-1793 | Changing one key in place is removing the old key and adding the new one with the same value |
| DenseEntries.DedupDrop | ThirdParty/ankerl/unordered_dense.h:1583-1588 | Dropping a duplicate by overwriting it from the back keeps the key set and takes entries only from the container |
| DenseEntries.DedupEnd | ThirdParty/ankerl/unordered_dense.h:1543-1594 | At the end the keys are distinct, are those of the container, and every entry is one of the container's |
| DenseEntries.SubmapEqual | ThirdParty/ankerl/unordered_dense.h:2067-2098 | Two tables of equal size are equal as maps if every entry of one is found in the other |
| DenseTable.Table.constructor | ThirdParty/ankerl/unordered_dense.h:945-949 | A fresh table is valid and represents the empty map |
| DenseTable.Table.PlaceAndShiftUp | ThirdParty/ankerl/unordered_dense.h:1025-1032 | Placing a bucket and shifting its run up keeps the index invariant and terminates |
| DenseTable.Table.EraseAndShiftDown | ThirdParty/ankerl/unordered_dense.h:1034-1043 | Removing a bucket by shifting the run back keeps the index invariant for the other values and terminates |
| DenseTable.Table.NextWhileLess | ThirdParty/ankerl/unordered_dense.h:1013-1023 | The unguarded search stops, at a position where a bucket for the key may be placed or found |
| DenseTable.Table.ClearAndFillBucketsFromValues | ThirdParty/ankerl/unordered_dense.h:1120-1130 | Rebuilding the buckets establishes the invariant for all values |
| DenseTable.Table.IncreaseSize | ThirdParty/ankerl/unordered_dense.h:1132-1144 | Doubling the buckets re-establishes the invariant for all values, including the one just appended |
| DenseTable.Table.CalcShiftsForSize | ThirdParty/ankerl/unordered_dense.h:1049-1055 | The largest shift, that is the smallest bucket count from four on, whose capacity suffices |
| DenseTable.Table.DoPlaceElement | ThirdParty/ankerl/unordered_dense.h:1199-1217 | A new entry is appended and indexed; the buckets double exactly if there are now more entries than the load factor allows |
| DenseTable.Table.TryEmplace | ThirdParty/ankerl/unordered_dense.h:1219-1241 | Inserts if and only if the key is absent; returns the index of the key's entry either way; grows exactly when an insertion exceeds the load factor |
| DenseTable.Table.InsertOrAssign | ThirdParty/ankerl/unordered_dense.h:1190-1197 | The map with the key set to the value; tells whether the key was new |
| DenseTable.Table.Emplace | ThirdParty/ankerl/unordered_dense.h:1661-1692 | Appends first and takes the entry back if its key is present; otherwise the map gains exactly this entry |
| DenseTable.Table.DoFind | ThirdParty/ankerl/unordered_dense.h:1243-1282 | Returns an index below the size exactly for keys of the map, and then that of the key's entry; the two unrolled probes need no stopping test |
| DenseTable.Table.SeekValue | ThirdParty/ankerl/unordered_dense.h:1159-1164 | The search for a value's bucket without a stopping condition terminates at that bucket |
| DenseTable.Table.DoErase | ThirdParty/ankerl/unordered_dense.h:1146-1167 | Removes exactly the entry of the bucket: shift back, move the last value into the hole, re-target its bucket |
| DenseTable.Table.DoEraseKey | ThirdParty/ankerl/unordered_dense.h:1169-1188 | Removes the key if present and hands out its entry, else changes nothing |
| DenseTable.Table.EraseKey | ThirdParty/ankerl/unordered_dense.h:1860-1863 | The map without the key; the count tells whether it was there |
| DenseTable.Table.ExtractAt | ThirdParty/ankerl/unordered_dense.h:1810-1824 | Extracting by position returns that entry and removes exactly its key |
| DenseTable.Table.EraseAt | ThirdParty/ankerl/unordered_dense.h:1796-1808 | Erasing by position removes exactly the key of that entry |
| DenseTable.Table.EraseRange | ThirdParty/ankerl/unordered_dense.h:1836-1858 | Removes exactly the entries at the original positions of the range, as a multiset and as a map |
| DenseTable.Table.EraseIf | ThirdParty/ankerl/unordered_dense.h:2215-2234 | Removes exactly the entries the predicate accepts, testing every original entry once, from the back |
| DenseTable.Table.ReplaceKey | ThirdParty/ankerl/unordered_dense.h:1749-1794 | On a fresh key the map loses the old key and gains the new one with the same value at the same index; on a present key nothing changes |
| DenseTable.Table.Replace | ThirdParty/ankerl/unordered_dense.h:1543-1594 | Terminates with distinct keys, the key set of the container and only entries of the container, the first of which stays first; grows only to the smallest bucket count with capacity for it |
| DenseTable.Table.Clear | ThirdParty/ankerl/unordered_dense.h:1492-1495 | The empty map |
| DenseTable.Table.Rehash | ThirdParty/ankerl/unordered_dense.h:2028-2038 | Keeps the map with the smallest bucket count, from four on, that has room for the entries and the size asked for |
| DenseTable.Table.Reserve | ThirdParty/ankerl/unordered_dense.h:2040-2053 | Keeps the map, never shrinks, has capacity for the size asked for and for the entries, and grows only to the smallest bucket count that has |
| DenseTable.Table.Equals | ThirdParty/ankerl/unordered_dense.h:2067-2098 | True if and only if the two tables represent the same map |
| MapRuns.DenseRun | ThirdParty/ankerl/unordered_dense.h:1190-1282 | Any run of all operations that stays within 2^24 - 2 entries takes the map through the same operations, with the same replies and the same map at the end |
| MapRuns.StepSize | ThirdParty/ankerl/unordered_dense.h:1199-1217 | No operation enlarges the map by more entries than it was given; with DenseRun this bounds the capacity a run needs |
| WideMultiply.LongMultiplication | ThirdParty/ankerl/unordered_dense.h:165-181 | Long multiplication by two limbs each |
| WideMultiply.CarryDetected | ThirdParty/ankerl/unordered_dense.h:176-179 | A 64-bit sum wrapped around if and only if it is less than its first operand |
| WideMultiply.Carries | ThirdParty/ankerl/unordered_dense.h:165-181 | The limb products, shifts and detected carries add up to the exact product, and the high word does not overflow |
| WideMultiply.Mum | ThirdParty/ankerl/unordered_dense.h:158-185 | The two words hold the exact 128-bit product of any two 64-bit words |
| WideMultiply.Mix | ThirdParty/ankerl/unordered_dense.h:187-191 | The exclusive or of the high and low words of the exact product |
| HashBytes.ReadUpTo3 | ThirdParty/ankerl/unordered_dense.h:209-212 | Three byte reads cover one to three bytes |
| HashBytes.HashReads | ThirdParty/ankerl/unordered_dense.h:214-262 | For every length the reads stay within the input and leave no byte of it unread |
| HashMixing.XorShiftInjective | ThirdParty/ankerl/robin_hood.h:1356 | The exclusive or with the own upper bits loses nothing |
| HashMixing.OddCancel | ThirdParty/ankerl/robin_hood.h:1355 | An odd factor can be cancelled modulo a power of two |
| HashMixing.MultiplierOdd | ThirdParty/ankerl/robin_hood.h:2458-2462 | Every multiplier that nextHashMultiplier can reach is odd |
| HashMixing.MixedInjective | ThirdParty/ankerl/robin_hood.h:1346-1360 | For every reachable multiplier the mixing of keyToIdx maps different hashes to different words |
| ByteLanes.HalveLanes | ThirdParty/ankerl/robin_hood.h:2410-2415 | One shift and mask of eight bytes halves every byte; no bit crosses into its neighbour |
| ByteLanes.HalveEight | ThirdParty/ankerl/robin_hood.h:2410-2415 | The loaded, shifted, masked and stored bytes are the halves of the eight bytes |
| InfoBytes.InfoRange | ThirdParty/ankerl/robin_hood.h:1346-1360 | An info byte grows by at least two per place from home and shows by its size whether the place is the home |
| InfoBytes.InfoHalve | ThirdParty/ankerl/robin_hood.h:2399-2425 | Halving an info byte gives the byte that keyToIdx and next compute after the increment and the shift have changed |
| InfoBytes.EmptyBeforeLast | ThirdParty/ankerl/robin_hood.h:2377-2380 | While the count is below the maximum there is an empty slot before the last one, in both regimes of the overflow buffer |
| InfoBytes.NotTruncated | ThirdParty/ankerl/robin_hood.h:1477-1479 | No info byte that an insertion stores exceeds 255 |
| InfoBytes.NotStopped | ThirdParty/ankerl/robin_hood.h:1419-1442 | The stopping test never stops a probe before the key it is looking for |
| InfoBytes.InsertWf | ThirdParty/ankerl/robin_hood.h:1375-1394 | Shifting the bytes up and storing a new one keeps order, placement and count |
| InfoBytes.SlideDown | ThirdParty/ankerl/robin_hood.h:1396-1414 | One step of the shift down keeps the bytes in order around a moving hole |
| InfoBytes.Vacate | ThirdParty/ankerl/robin_hood.h:1396-1414 | Clearing the hole completes the removal of one byte |
| InfoBytes.HalveWf | ThirdParty/ankerl/robin_hood.h:2399-2425 | Halving all bytes keeps the order, the placement, the empty slots and leaves room for another step in every byte |
| InfoBytes.HomesSorted | ThirdParty/ankerl/robin_hood.h:1375-1394 | Along a run of occupied slots the home buckets never fall |
| InfoBytes.FarIsFull | ThirdParty/ankerl/robin_hood.h:1384-1393 | A byte is too large for another step at increment two exactly if its slot is 126 or more from home, and no slot is that far at a greater increment |
| InfoBytes.FullRun | ThirdParty/ankerl/robin_hood.h:1384-1393 | With a full byte, the occupied slots from some bucket a to 126 slots behind the home b of that byte are all at home in a to b |
| Slots.UpMap | ThirdParty/ankerl/robin_hood.h:1375-1394 | Shifting nodes up and filling the gap adds exactly the new entry to the map |
| Slots.DownMap | ThirdParty/ankerl/robin_hood.h:1396-1414 | Shifting nodes down over one of them removes exactly its key |
| RobinHoodNodes.MaxAllowedBelow | ThirdParty/ankerl/robin_hood.h:2136-2143 | The maximum is below the number of buckets, also for sizes where the percentage is computed by dividing first |
| RobinHoodNodes.MaxAllowedPercentage | ThirdParty/ankerl/robin_hood.h:2136-2143 | The maximum is the percentage of the buckets rounded down; where the source divides first it is less by less than the percentage |
| RobinHoodNodes.BucketsExactly | ThirdParty/ankerl/robin_hood.h:2193-2204 | The size that doubling finds is the least power of two from eight on whose percentage covers the elements; there is none exactly if 2^63 buckets do not |
| Crowding.AfterExactly | ThirdParty/ankerl/robin_hood.h:2442-2453 | A rehash keeps the size and takes the next multiplier exactly if twice the elements are below the percentage of the buckets; else it doubles the buckets |
| RobinHoodNodes.MaxAllowedDouble | ThirdParty/ankerl/robin_hood.h:2136-2143 | Doubling the buckets does not lower the maximum |
| RobinHoodNodes.MaxAllowedStrict | ThirdParty/ankerl/robin_hood.h:2136-2143 | From eight buckets on, doubling them raises the maximum, also where the percentage starts to be computed by dividing first |
| RobinHoodNodes.Halved | ThirdParty/ankerl/robin_hood.h:2399-2425 | The re-encoded bytes describe the same nodes under the new increment and hash shift |
| RobinHoodNodes.HoleStep | ThirdParty/ankerl/robin_hood.h:1399-1405 | Moving a node and its byte down one place keeps the table sound around the hole |
| Crowding.FullExactly | ThirdParty/ankerl/robin_hood.h:1384-1393 | The bytes of a table are full at increment two if and only if some buckets a to b are home to at least b - a + 127 of its keys |
| Crowding.OverfullExactly | ThirdParty/ankerl/robin_hood.h:2231-2240 | The keys in front of some node are crowded if and only if all keys but that of the last node are |
| RobinHoodTable.Table.constructor | ThirdParty/ankerl/robin_hood.h:2483-2495 | A fresh table is valid and represents the empty map |
| RobinHoodTable.Table.KeyToIdx | ThirdParty/ankerl/robin_hood.h:1346-1360 | The home bucket of a key and the info byte it has there |
| RobinHoodTable.Table.FindIdx | ThirdParty/ankerl/robin_hood.h:1418-1442 | Finds the slot of a key if and only if the map has the key; two probes per round, stopped by the sentinel at the latest |
| RobinHoodTable.Table.ShiftInfoUp | ThirdParty/ankerl/robin_hood.h:1384-1393 | Every byte of the run moves up by one slot and grows by one increment without truncation; the maximum is zeroed exactly if one of them could not grow once more |
| RobinHoodTable.Table.SpotExists | ThirdParty/ankerl/robin_hood.h:1475-1482 | The search for an empty slot ends strictly before the sentinel, and the byte to be stored fits |
| RobinHoodTable.Table.OpenSpot | ThirdParty/ankerl/robin_hood.h:1468-1487 | An insertion opens exactly one slot and keeps all other nodes; afterwards the maximum is zero exactly if some byte could not grow once more |
| RobinHoodTable.Table.InsertMove | ThirdParty/ankerl/robin_hood.h:1450-1491 | Inserts a new key into a table with room; fails exactly when the maximum is zero at increment two; afterwards that is so exactly if the keys are crowded |
| RobinHoodTable.Table.HalveInfo | ThirdParty/ankerl/robin_hood.h:2408-2416 | The loop over words of eight bytes halves every byte of the table |
| RobinHoodTable.Table.TryIncreaseInfo | ThirdParty/ankerl/robin_hood.h:2399-2425 | Re-encodes the whole table in place with the same map, or changes nothing when the increment is already two |
| RobinHoodTable.Table.RehashPowerOfTwo | ThirdParty/ankerl/robin_hood.h:2216-2249 | Moves every node to new arrays and keeps the map; succeeds if and only if in the new arrays the keys in front of no node are crowded |
| RobinHoodTable.Table.IncreaseSize | ThirdParty/ankerl/robin_hood.h:2427-2456 | The same map after exactly one of: narrowing the bytes, the next multiplier in a table less than half full, twice the buckets; fails if and only if it rehashes into arrays where the keys in front of some node are crowded |
| RobinHoodTable.Table.Relocate | ThirdParty/ankerl/robin_hood.h:2442-2453 | Next multiplier or twice the buckets; the new arrays are full again exactly if the keys are crowded there, and otherwise an insertion is nearer |
| RobinHoodTable.Table.NextFits | ThirdParty/ankerl/robin_hood.h:2427-2456 | The next arrays have a multiplier of the sequence and a power of two of buckets that allows all elements |
| RobinHoodTable.Table.Nearer | ThirdParty/ankerl/robin_hood.h:2427-2456 | After a rehash the table is full again exactly if its keys are crowded there; otherwise fewer of at most 4 attempts are left |
| RobinHoodTable.Table.InsertKeyPrepareEmptySpot | ThirdParty/ankerl/robin_hood.h:2346-2397 | Finds exactly the keys of the map, and else opens a slot, growing the table as often as needed. A new key is always taken unless the table is full and the keys crowded in the next arrays; it overflows only if they are crowded in each of the next 254 arrays, is never taken if they are in the next 255, and throws at once if the next rehash breaks |
| RobinHoodTable.Table.FindRoom | ThirdParty/ankerl/robin_hood.h:2346-2377 | The attempts themselves: with room the arrays stay as they are; without, the bytes are narrowed if they can be, and else the next arrays are taken, exactly once if the keys are not crowded there |
| RobinHoodTable.Table.TryEmplace | ThirdParty/ankerl/robin_hood.h:2259-2286 | Finds exactly the keys of the map and else inserts; fails under the conditions of InsertKeyPrepareEmptySpot, and always once 127 other keys have the hash of the new one |
| RobinHoodTable.Table.InsertOrAssign | ThirdParty/ankerl/robin_hood.h:2288-2316 | The map with the key set to the value; fails under the same conditions as TryEmplace |
| RobinHoodTable.Table.KinBound | ThirdParty/ankerl/robin_hood.h:1346-1360 | No table holds more than 127 keys of one hash, whatever the multiplier and the size |
| RobinHoodTable.FillWithOneHash | ThirdParty/ankerl/robin_hood.h:2346-2397 | Of keys that share one hash a new table takes exactly the first 127; the next is refused with an overflow |
| RobinHoodTable.Table.ShiftDown | ThirdParty/ankerl/robin_hood.h:1396-1414 | Removes one node by shifting its run down; the freed slot is destroyed |
| RobinHoodTable.Table.EraseAt | ThirdParty/ankerl/robin_hood.h:2033-2048 | Removes exactly the node's key and tells whether another node has moved into its slot |
| RobinHoodTable.Table.EraseKey | ThirdParty/ankerl/robin_hood.h:2050-2068 | The map without the key; the count tells whether it was there |
| RobinHoodTable.Table.Clear | ThirdParty/ankerl/robin_hood.h:1682-1700 | The empty map, all nodes destroyed |
| RobinHoodTable.Table.SizeFor | ThirdParty/ankerl/robin_hood.h:2193-2204 | The least power of two from eight on whose percentage covers the elements; zero exactly if 2^63 buckets do not |
| RobinHoodNodes.MaxAllowedPowers | ThirdParty/ankerl/robin_hood.h:2136-2143 | Among powers of two more buckets never allow fewer elements |
| RobinHoodTable.Table.SizeIsModel | ThirdParty/ankerl/robin_hood.h:2105-2108 | The stored size is the number of keys |
| RobinHoodTable.Table.Reserve | ThirdParty/ankerl/robin_hood.h:2193-2211 | Keeps the map; moves, if forced or too small, to the least power of two from eight on whose percentage covers the elements, and else changes nothing; fails, without a change, for too many elements, and else if and only if the rehash breaks |
| RobinHoodTable.Table.Compact | ThirdParty/ankerl/robin_hood.h:2086-2103 | Keeps the map; moves, if that is smaller, to the least power of two from eight on whose percentage covers the elements, and else changes nothing; fails, without a change, for too many elements, and else if and only if the rehash breaks |
| MapRuns.RobinHoodRun | ThirdParty/ankerl/robin_hood.h:1418-1442 | Any run of insertions, searches, both ways to erase, clear, rehash and reserve takes the map through the same operations with the same replies. It completes if no map on the way is crowded in arrays the table could use for it (or meets an excessive size), and in particular while no more than 127 keys can have been put in |
| BulkPool.RunChain | ThirdParty/ankerl/robin_hood.h:486-498 | The slots of a new block form a chain in front of the old free list |
| BulkPool.Pool.NoOverlap | ThirdParty/ankerl/robin_hood.h:417-425 | No two slots of the pool overlap, within one block or across blocks |
| BulkPool.Pool.ClientWritesHarmless | ThirdParty/ankerl/robin_hood.h:427-434 | Whatever is written into the bytes of live slots leaves the free list and the list of blocks intact |
| BulkPool.Pool.AddChains | ThirdParty/ankerl/robin_hood.h:476-502 | Threading a block gives one acyclic free list of its slots and the old ones, and one list of all blocks |
| BulkPool.Pool.AddApart | ThirdParty/ankerl/robin_hood.h:476-502 | The slots of a foreign block are new to the pool and pairwise different |
| BulkPool.Pool.NumToAllocRange | ThirdParty/ankerl/robin_hood.h:462-473 | The number of elements to allocate lies between the two configured numbers |
| BulkPool.Pool.NumToAllocExactly | ThirdParty/ankerl/robin_hood.h:462-473 | The number is the smallest one doubled once for each owned block, or as often as the greatest allows |
| BulkPool.Pool.CalcNumElementsToAlloc | ThirdParty/ankerl/robin_hood.h:462-473 | Walking the block list gives the smallest number times two to the number of owned blocks, or to the last power that the greatest allows |
| BulkPool.Pool.Add | ThirdParty/ankerl/robin_hood.h:476-502 | Threads all slots of a block onto the free list, each once |
| BulkPool.Pool.AddOrFree | ThirdParty/ankerl/robin_hood.h:436-449 | Adds a block that has room for a slot and frees any other at once |
| BulkPool.Pool.Allocate | ThirdParty/ankerl/robin_hood.h:414-425 | Returns a slot that was not live, whether from the list or from a new block |
| BulkPool.Pool.PerformAllocation | ThirdParty/ankerl/robin_hood.h:505-515 | A new block with exactly as many slots as the smallest number doubled once for each owned block, or as often as the greatest allows |
| BulkPool.Pool.Deallocate | ThirdParty/ankerl/robin_hood.h:427-434 | A live slot becomes the head of the free list; all other slots stay as they were |
| BulkPool.Pool.Reset | ThirdParty/ankerl/robin_hood.h:403-412 | Frees every block exactly once |
| Gcd.EuclidGreatest | ThirdParty/etl/gcd.h:65-87 | Every common divisor divides the computed one |
| Gcd.Compute | ThirdParty/etl/gcd.h:65-87 | The loop computes the greatest common divisor |
| Rotation.StepsToDivisor | ThirdParty/etl/algorithm.h:1189-1234 | Some number of steps of the cycle amounts to a step of the divisor |
| Rotation.CoversClass | ThirdParty/etl/algorithm.h:1211-1226 | A closed cycle visits every position of its residue class |
| Rotation.CycleStep | ThirdParty/etl/algorithm.h:1211-1225 | A cycle comes to no position twice before it is back at its start |
| Rotation.RotateCycle | ThirdParty/etl/algorithm.h:1206-1230 | One cycle terminates and gives exactly the positions of one residue class their elements |
| Rotation.RotateRandomAccess | ThirdParty/etl/algorithm.h:1189-1234 | The gcd cycles exchange the two parts of the range |
| Rotation.ReversePointers | ThirdParty/etl/algorithm.h:369-383 | Reverses the range |
| Rotation.ReverseIterators | ThirdParty/etl/algorithm.h:386-398 | Reverses the range |
| Rotation.ThreeReversals | ThirdParty/etl/algorithm.h:1300-1304 | Reversing both parts and then the whole exchanges the parts |
| Rotation.RotateBidirectional | ThirdParty/etl/algorithm.h:1286-1307 | The three reversals exchange the two parts of the range |
| Rotation.SwapOutcome | ThirdParty/etl/algorithm.h:1327-1330 | One swap of the forward algorithm brings one element to its final place and keeps what is still to come |
| Rotation.RotateForward | ThirdParty/etl/algorithm.h:1310-1343 | The block swaps terminate and exchange the two parts of the range |
| Rotation.RotateLeftByOne | ThirdParty/etl/algorithm.h:1347-1363 | The first element goes to the end |
| Rotation.RotateRightByOne | ThirdParty/etl/algorithm.h:1367-1384 | The last element goes to the front |
| Rotation.Rotate | ThirdParty/etl/algorithm.h:1388-1413 | Exchanges the parts for every iterator category; the returned position is the standard's exactly unless the first part is empty and the second is not, but for single elements of C++20 |
| Heaps.RiseStep | ThirdParty/etl/algorithm.h:953-957 | One step up restores the order everywhere but one level higher |
| Heaps.SinkStep | ThirdParty/etl/algorithm.h:971-981 | Moving the greater child up keeps the order everywhere but one level lower |
| Heaps.TopGreatest | ThirdParty/etl/algorithm.h:1010-1019 | The top of a heap is not less than any element |
| Heaps.PushHeapHelper | ThirdParty/etl/algorithm.h:949-961 | The hole rises to where the value completes the heap |
| Heaps.AdjustHeap | ThirdParty/etl/algorithm.h:964-991 | Sinking the hole to a leaf and letting the value rise extends the heap by one parent, rearranging nothing else |
| Heaps.IsHeap | ThirdParty/etl/algorithm.h:994-1013 | True if and only if the range is a heap |
| Heaps.PopHeap | ThirdParty/etl/algorithm.h:1018-1026 | The greatest element goes to the end and the others form a heap |
| Heaps.PushHeap | ThirdParty/etl/algorithm.h:1038-1045 | The last element joins the heap |
| Heaps.MakeHeap | ThirdParty/etl/algorithm.h:1057-1079 | Any range becomes a heap of the same elements |
| Heaps.SortHeap | ThirdParty/etl/algorithm.h:1121-1129 | A heap becomes the sorted range of the same elements |
| Heaps.HeapSort | ThirdParty/etl/algorithm.h:3181-3193 | Any range is sorted and keeps its elements, for any strict weak order |
| InsertionSort.UpperBound | ThirdParty/etl/algorithm.h:444-471 | The boundary between the elements not above the value and those above it |
| InsertionSort.InsertSorted | ThirdParty/etl/algorithm.h:3071-3077 | Inserting at the upper bound keeps a sequence sorted |
| InsertionSort.InsertionSort | ThirdParty/etl/algorithm.h:3071-3077 | Sorts the range, and elements that are equivalent keep their order |
| Stability.StableMove | ThirdParty/etl/algorithm.h:3075 | Taking an element past greater ones does not change the order within any class of equivalent elements |
| Stability.StableRearranges | ThirdParty/etl/algorithm.h:3071-3077 | Keeping every class in order keeps all elements |
| Stability.StableSortUnique | ThirdParty/etl/algorithm.h:3071-3077 | There is only one sorted and stable rearrangement, so the result is determined |
| ShellSort.BubbleStep | ThirdParty/etl/algorithm.h:3034-3048 | Comparing and swapping one pair moves the only disorder one gap down |
| ShellSort.Bubble | ThirdParty/etl/algorithm.h:3032-3049 | The inner loop extends the order at distance gap by one element |
| ShellSort.Sort | ThirdParty/etl/algorithm.h:3014-3052 | Any range is sorted and keeps its elements |
| Selection.NthPartition | ThirdParty/etl/algorithm.h:3444-3473 | Partitions around the last element and returns its place |
| Selection.BracketKept | ThirdParty/etl/algorithm.h:3498-3514 | Rearranging the part that is left keeps the separation from the rest |
| Selection.NthElement | ThirdParty/etl/algorithm.h:3485-3515 | The element at the position is where sorting would put it, with no greater one before and no smaller one after |
| Permutation.IsPermutation | ThirdParty/etl/algorithm.h:1844-1872 | True if and only if the two ranges hold the same elements equally often |
| InlineCapacity.RoundUpLeast | ThirdParty/ankerl/svector.h:61-63 | The least multiple that is not below the number |
| InlineCapacity.VectorSizeLeast | ThirdParty/ankerl/svector.h:80-89 | The size of the vector is the least common multiple of a pointer's and the elements' alignment with room for the elements asked for and the size byte |
| InlineCapacity.VectorSizeAligned | ThirdParty/ankerl/svector.h:80-89 | It is such a multiple |
| InlineCapacity.CapacityFits | ThirdParty/ankerl/svector.h:80-98 | The inline elements, placed at the first aligned offset after the size byte, fit into the object |
| InlineCapacity.CapacityGreatest | ThirdParty/ankerl/svector.h:96-98 | No further element would fit, unless the size byte is exhausted |
| InlineCapacity.CapacityEnough | ThirdParty/ankerl/svector.h:96-98 | At least the requested number fits |
| InlineCapacity.CapacityCounted | ThirdParty/ankerl/svector.h:96-98 | The size byte gives back every size that the inline capacity allows |
| SmallVector.SVector.DirectSizeExact | ThirdParty/ankerl/svector.h:206-217 | The size of an inline vector can always be read back from its byte, next to the mode bit |
| SmallVector.CalculateNewCapacity | ThirdParty/ankerl/svector.h:299-321 | Refuses exactly sizes above the maximum; else the first capacity that suffices in doubling from the start; never less than the start |
| SmallVector.LeastChain | ThirdParty/ankerl/svector.h:299-321 | Growing in several steps goes through the same capacities as growing at once |
| SmallVector.LeastExactly | ThirdParty/ankerl/svector.h:299-321 | The capacity is the start, or one, times the least sufficient power of two, or the maximum |
| SmallVector.GrowsExactly | ThirdParty/ankerl/svector.h:493-497 | The 64-bit test for growth is right if and only if size plus count does not wrap around |
| SmallVector.UndisturbedExactly | ThirdParty/ankerl/svector.h:465-473 | Opening an empty gap is harmless exactly if there is a gap after all, the type keeps its value on self-move, or no tail element has one |
| SmallVector.ShiftSteps | ThirdParty/ankerl/svector.h:465-473 | Uninitialised move, backward move and destruction together shift the elements and leave exactly the gap unconstructed |
| SmallVector.ShiftRight | ThirdParty/ankerl/svector.h:465-473 | Never constructs over an object nor assigns to raw memory, and leaves nothing behind in the gap |
| SmallVector.MoveAround | ThirdParty/ankerl/svector.h:476-487 | The elements arrive in new storage around a gap of exactly the requested size |
| SmallVector.FillGap | ThirdParty/ankerl/svector.h:875-893 | Constructing the values in the gap completes the sequence insertion |
| SmallVector.SVector.Realloc | ThirdParty/ankerl/svector.h:263-294 | All elements move between the inline storage and blocks; none is lost, and no object is left in the storage that is given up |
| SmallVector.SVector.Reserve | ThirdParty/ankerl/svector.h:663-669 | Keeps the elements, none left behind; the capacity becomes the first sufficient one in doubling; fails exactly when the size is too large or memory is refused |
| SmallVector.SVector.ShrinkToFit | ThirdParty/ankerl/svector.h:857-873 | Keeps the elements; the capacity does not grow, and becomes the least one on the way of doubling that suffices unless memory is refused |
| SmallVector.SVector.EmplaceBack | ThirdParty/ankerl/svector.h:697-729 | Appends the value, or leaves the elements as they were; the capacity doubles when full; storage given up is left without objects |
| SmallVector.SVector.DestroyAll | ThirdParty/ankerl/svector.h:513-532 | Destroys every object, inline or in the block, and returns to an empty inline vector |
| SmallVector.SVector.DoMoveAssign | ThirdParty/ankerl/svector.h:439-453 | Takes over the other vector's elements, by block or one by one, and leaves it empty |
| SmallVector.SVector.MoveFrom | ThirdParty/ankerl/svector.h:626-634 | Destroys the own elements, leaving nothing in a block given up, and takes over the other's; assigning a vector to itself changes nothing |
| SmallVector.SVector.MakeUninitializedSpaceNew | ThirdParty/ankerl/svector.h:475-489 | In new storage: the old elements with exactly the gap unconstructed, and nothing left in the old storage; on failure nothing changes |
| SmallVector.SVector.MoveToNew | ThirdParty/ankerl/svector.h:475-486 | The elements stand around exactly the gap in the block of a new vector whose capacity doubles from the inline one |
| SmallVector.SVector.MakeUninitializedSpace | ThirdParty/ankerl/svector.h:492-511 | In place exactly where there is room, else in new storage: the old elements with exactly the gap unconstructed, and nothing left in storage given up |
| SmallVector.SVector.Insert | ThirdParty/ankerl/svector.h:875-920 | Refines sequence insertion with exact lifetimes, in place and into new storage |
| SmallVector.SVector.Erase | ThirdParty/ankerl/svector.h:404-416 | Removes exactly the range, clipped to the size, and destroys what it vacates |
| Transitions.Dispatched | ThirdParty/boost/sml.hpp:1904-1921 | An event that no region handles changes nothing; a handled one only appends to the queues, or while draining only raises the flag |
| Dispatching.RegionsExactly | ThirdParty/boost/sml.hpp:1904-1921 | All regions get the event in order, each as the one before left the machine; it is handled if and only if one of them handles it |
| Dispatching.RegionExactly | ThirdParty/boost/sml.hpp:1236-1253 | A region takes exactly the first row in the table, among those of its own state for that kind of event and only then among those of any state, whose guard holds; without one it does nothing |
| Dispatching.TakenExactly | ThirdParty/boost/sml.hpp:2906-2962 | A taken row pushes what leaving pushes, then the events of its actions in order, then what entering pushes; it defers one copy of the event per deferral, or in a drain raises the flag; the data pass through the hooks and updates in this order |
| Dispatching.OrderOfEffects | ThirdParty/boost/sml.hpp:2906-2962 | With hooks and updates that leave labels, the data record leaving first, then the actions in order, then entering; an internal transition only acts |
| Transitions.UnhandledRegions | ThirdParty/boost/sml.hpp:1236-1253 | Whether an event is handled depends on states and data alone |
| Transitions.PoliciesAgree | ThirdParty/boost/sml.hpp:1457-1526 | Jump table, branches, switch and fold dispatch alike, for every table without unexpected-event handlers |
| RunToCompletion.DrainingKeepsOrder | ThirdParty/boost/sml.hpp:1984-2008 | Draining never adds to the defer queue and keeps the order of what stays |
| RunToCompletion.DrainingConserves | ThirdParty/boost/sml.hpp:1972-2008 | The drain removes exactly the events that were not deferred again |
| RunToCompletion.DrainingSurvivors | ThirdParty/boost/sml.hpp:1972-2008 | What is left was deferred again, one by one, since the loop last went back to the front |
| RunToCompletion.DrainingEndsExactly | ThirdParty/boost/sml.hpp:1984-2008 | A drain returns if and only if it goes back to the front with an event deferred again only finitely often |
| RunToCompletion.DrainingEnds | ThirdParty/boost/sml.hpp:1984-2008 | If every region keeps to its states and deferring again never changes region 0, every drain of k events returns within k * k + k steps |
| RunToCompletion.InPlaceIsSteady | ThirdParty/boost/sml.hpp:2479-2487 | That holds if in region 0 every row that defers keeps the state, and no other region defers a kind of event on which region 0 can change its state |
| RunToCompletion.OneRegionSteady | ThirdParty/boost/sml.hpp:2479-2487 | With one region it holds if every row that defers keeps its state, however the event is handled in other states |
| RunToCompletion.RestlessCallNeverReturns | ThirdParty/boost/sml.hpp:1784-1801 | A machine with two states for which a call of process_event in the first state never returns, as deferring changes the state |
| RunToCompletion.SettledQuiet | ThirdParty/boost/sml.hpp:1791-1799 | After the inner loop no anonymous transition is enabled |
| FlatRun.RunExactly | ThirdParty/boost/sml.hpp:1784-1801 | process_event returns, with a machine and an answer, if and only if the flat sequence of single dispatches that the source prescribes comes to an end with them |
| FlatRun.TakesOne | ThirdParty/boost/sml.hpp:2024-2035 | Each event taken from the process queue is dispatched, removed from the front afterwards and logged; its result joins the answer; no other step does any of this |
| FlatRun.AnswerExactly | ThirdParty/boost/sml.hpp:1784-1801 | process_event answers true if and only if the event itself was handled and so was every event taken from the process queue during the run |
| FlatRun.RunsToCompletion | ThirdParty/boost/sml.hpp:1784-1801 | When process_event returns, the process queue is empty, everything pushed was taken from its front once and in order and dispatched, and no anonymous transition is enabled |
| RunToCompletion.ProcessedMore | ThirdParty/boost/sml.hpp:1784-1801 | The bound on the rounds only cuts runs off: a run that returns does the same under every greater bound |
| RunToCompletion.PlainRunsReturn | ThirdParty/boost/sml.hpp:1784-1801 | Without anonymous transitions and pushes, and with steady deferring, process_event returns |
| RunToCompletion.StartsQuiet | ThirdParty/boost/sml.hpp:1816-1819 | A started machine has an empty process queue, a complete history and no enabled anonymous transition |
| FlatRun.StartExactly | ThirdParty/boost/sml.hpp:1816-1819 | Starting enters the initial states of all regions in order and goes on with the same sequence of dispatches as an event |
| StateMachine.Sm.constructor | ThirdParty/boost/sml.hpp:1802-1815 | The regions are in their initial states and the queues are empty; start comes after |
| StateMachine.Sm.Start | ThirdParty/boost/sml.hpp:1816-1819 | Enters the initial states of all regions in order and runs the loops of process_event; on return the process queue is empty and no anonymous transition enabled |
| StateMachine.Sm.Execute | ThirdParty/boost/sml.hpp:2906-2962 | Guard, leaving, state change, action and entering, in this order, as the value function says |
| StateMachine.Sm.DispatchRegion | ThirdParty/boost/sml.hpp:1236-1253 | The first row for the state, or else for any state, whose guard holds is taken |
| StateMachine.Sm.ProcessInternalEvents | ThirdParty/boost/sml.hpp:1904-1921 | Every region gets the event; handled if any region handled it |
| StateMachine.Sm.ProcessEventNoDefer | ThirdParty/boost/sml.hpp:1972-1983 | An event deferred again stays and is passed over, any other leaves the queue |
| StateMachine.Sm.ProcessDeferEvents | ThirdParty/boost/sml.hpp:1984-2008 | The loop over the defer queue refines the drain on values |
| StateMachine.Sm.ProcessQueuedEvents | ThirdParty/boost/sml.hpp:2024-2035 | Dispatches and takes the events of the process queue from the front until it is empty, as the value function of FlatRun.TakesOne does |
| StateMachine.Sm.Finish | ThirdParty/boost/sml.hpp:1791-1800 | The three nested loops refine the run on values |
| StateMachine.Sm.ProcessEvent | ThirdParty/boost/sml.hpp:1784-1801 | Refines the run on values, so that it ends as the flat sequence of dispatches does; on return queue empty, history accounted for, no anonymous transition enabled; never true for an event that was not handled |

## Left out

- DenseTable.Table.TryEmplace: requires that there are fewer than 2^24 - 2 entries or that the key is present; beyond
  that distances are lost. The error that the source raises at 2^32 buckets is therefore not modelled. The same holds
  for InsertOrAssign, Emplace and Replace.
- DenseTable.Table.Rehash: requires that the load factor lets 2^32 buckets hold the entries and the size asked for;
  greater requests, which the source clamps, are not modelled. The same holds for Reserve and Replace.
- RobinHoodTable.Table.TryEmplace: when the keys are crowded in the next arrays but not in all of the next 255, and the
  first rehash succeeds, nothing is said but that an overflow needs the next 254 to be crowded; a later rehash may
  throw, depending on the order of the nodes.
- RobinHoodTable.Table.InsertKeyPrepareEmptySpot: when the source throws while it moves nodes to new arrays, the model
  only says `Thrown` and nothing about the table, as nodes have been lost by then. The same holds for Reserve and
  Compact, which return `false`.
- RobinHoodTable.Table.IncreaseSize: bucket counts are unbounded; the source's would wrap around at 2^64 buckets.
- Rotation.RotateRandomAccess: indices are unbounded, while the source computes them in `int`; its sums stay in range
  for ranges of up to half the greatest `int`.
- SmallVector.SVector.Insert: values are passed by value, so inserting a reference to one of the vector's own elements
  is not modelled; nor is the insertion of a range of single-pass iterators, which collects the values first.
- SmallVector.SVector.MakeUninitializedSpace: requires that size plus count does not wrap around 64 bits.
- StateMachine.Sm.ProcessEvent: has a bound on the rounds of each loop and gives no result when one is exceeded,
  because the source's loops need not end; `RunToCompletion.ProcessedMore` shows that the bound does nothing else, and
  `FlatRun.RunExactly` that some bound is large enough wherever the unbounded run ends.
- Floating-point load factors and their setters; statistical quality of the hashes.
- Exceptions thrown by element, hash or comparison operations; allocator propagation; the byte arithmetic of
  `storage::alloc`.
- Iterator classes, `fastForward`, hints, transparent lookup overloads, and the set variants of both tables, which
  differ only in having no mapped value.
- Node-based storage of `robin_hood`, its `unordered_node_map`, and its copy and move operations.
- The index arithmetic of `segmented_vector`, and tables after they were moved from.
- The four-iterator and predicate forms of `is_permutation`; `selection_sort`; the remaining algorithms of
  `etl/algorithm.h`.
- The C++20 builds in which `move` and `move_backward` are those of the standard library; the loops modelled are the
  ones written out in the header.
- Resizing, copying, assigning and comparing small vectors; the bytes of the block pointer in its storage.
- Composite and history states, unexpected events, exceptions, logging, locks and type lists of `boost::sml`; deferring
  from entry and exit actions.
- The repository's own tools, headers outside `ThirdParty`, documentation and slides.
