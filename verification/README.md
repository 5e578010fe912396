# go-chash partition table, modelled in Dafny

go-chash keeps a consistent-hashing partition table. The configuration fixes
a hasher, a partition count (at least 10) and a replication factor.

- **Ring.** Each member of the cluster puts `int(2000 × capacity)` virtual
  entries on a ring. That count is truncated, so it is 0 below a capacity of
  1/2000; the model uses the larger of 1 and that count (see Findings).
  Entry `i` of member `id` sits at the hash of `id` followed by `i` in
  decimal. The ring is sorted by hash, and ties are broken by member id.
- **Partitions.** Partition `i` sits at the hash of `"p"` followed by `i`.
  `distribute` gives every member a piece count in proportion to its share
  of the total capacity: `int(pc·rf / (total/capacity)) + 1`. Then, for each
  partition, `fillClosest` starts at the first ring entry at or above the
  partition's hash. It walks clockwise and collects `min(rf, members)`
  distinct members. A member is taken only while its piece count is above
  minus the number of already-chosen members passed over so far.
- **Operations.** `AddMembers`, `RemoveMembers` and `Reconfigure` are
  all-or-nothing: a failed check leaves the table as it was. A successful
  call rebuilds the ring and every partition list. `GetMembers`,
  `GetPartition`, `GetPartitionMembers` and `PartitionCount` read the table.

The model is purely functional:

- A table is a `CHash.Table` value.
- A mutation returns an `Update`: the new table and an `Outcome`.
- Construction and partition lookups return a `Result`.
- `CHash.Valid` is the invariant every table reachable through the API
  satisfies: the partition lists are exactly what `distribute` computes from
  the store and the ring.

The modules follow the source's structure:

| module | file | models |
|---|---|---|
| `Outcomes` | outcomes.dfy | the error values and Go's `(T, error)` pair |
| `Strings` | strings.dfy | Go's `<` on strings, and `fmt.Sprint` of an int |
| `Sums` | sums.dfy | order-independent sums over a set of ids (the loops over the members map) |
| `Ring` | ring.dfy | `member`/`members`, `Less`, `sort.Sort`, the `discard` compaction, `sort.Search` |
| `Fill` | fill.dfy | `fillClosest` |
| `Distributor` | distributor.dfy | `distribute` |
| `Batch` | batch.dfy | the virtual entries and store updates of `addMembers` |
| `CHash` | chash.dfy | `Config`, `New`, `init` and the `CHash` interface |
| `Properties` | properties.dfy | lemmas relating several operations |

`fillClosest` is modelled twice. `Fill.Walk` is the loop as a function,
terminating by a lexicographic measure. `Fill.FillClosestLoop` is the loop
as the source writes it, proved to compute the same result.

## Model

| member | source | states |
|---|---|---|
| CHash.Validate | chash.go:81-89 | passes exactly when the replication factor is at least 1 and the partition count is at least 10; a bad replication factor is reported before a bad partition count |
| CHash.New | chash.go:26-38 | succeeds exactly when the replication factor is non-negative and the partition count at least 10; gives the matching error otherwise; on success the table is valid and empty, a factor of 0 becomes 1, and every partition list is empty |
| CHash.PartitionHash | chash.go:111 | partition `i`'s ring position is the hash of "p" followed by `i` in decimal; `PartitionHashes` lists them for every partition |
| CHash.PartitionHashes | chash.go:108-112 | one ring position per partition |
| Strings.Decimal | chash.go:111 | the decimal rendering of an index is a non-empty string of digits |
| CHash.ValidPartitions | chash.go:222-250 | in a valid table there is one list per partition, and each list holds `min(rf, members)` distinct stored members |
| CHash.CheckAdd | chash.go:119-126 | passes exactly when every batch member has a positive capacity and a new id; otherwise the error is that of the first refused member (`InvalidCapacity` for its capacity, else `MemberExists`) |
| CHash.AddMembers | chash.go:116-128 | the outcome is `CheckAdd`'s; a failure leaves the table unchanged; the configuration is kept |
| CHash.AddUnchecked | chash.go:130-144 | the table stays structurally sound and keeps its configuration |
| CHash.AddUncheckedValid | chash.go:130-144 | after `addMembers` the table is valid, its store holds the old ids plus the batch's ids, and its ring holds the old entries plus the batch's |
| CHash.AddMembersSucceeds | chash.go:116-144 | after a successful `AddMembers` the table is valid, the store gains exactly the batch's ids, every existing member is kept as it was, and the ring gains exactly the batch's entries |
| CHash.StoreWithWellFormed | chash.go:139 | members with positive capacity keep the store well formed |
| CHash.AddedRingIds | chash.go:131-141 | the sorted ring carries exactly the ids of the grown store |
| CHash.LastWithId | chash.go:139 | finds the last batch member with a given id, which is the one the store keeps |
| CHash.CheckRemove | chash.go:150-154 | passes exactly when every id is stored; otherwise the error is `MemberNotExists` |
| CHash.RemoveMembers | chash.go:146-171 | the outcome is `CheckRemove`'s; a failure leaves the table unchanged |
| CHash.DiscardIds | chash.go:155-165 | the ids left on the ring are the old ring's ids minus the removed ones |
| CHash.RemoveMembersSucceeds | chash.go:146-171 | after a successful removal the table is valid, the store is the old store without exactly the removed ids, and no partition lists a removed member |
| CHash.RemoveMembersKeepsOthers | chash.go:155-165 | removal drops every ring entry of a removed id and keeps every other entry, with its multiplicity and in its relative order |
| CHash.CheckCapacities | chash.go:176-180 | passes exactly when every capacity is positive; otherwise the error is `InvalidCapacity` |
| CHash.CheckAddNewIds | chash.go:119-126 | when no batch id is stored, `AddMembers` refuses exactly the batches `Reconfigure` refuses |
| CHash.CheckCapacitiesSkip | chash.go:176-180 | members with positive capacities ahead of a batch do not change the outcome of the capacity check |
| CHash.Cleared | chash.go:181-182 | the emptied table has no members and no ring, and stays structurally sound |
| CHash.Reconfigure | chash.go:173-184 | the outcome is `CheckCapacities`'; a failure leaves the table unchanged |
| CHash.ReconfigureSucceeds | chash.go:173-184 | after a successful `Reconfigure` the table is valid, its store holds exactly the batch's ids, and its ring exactly the batch's entries |
| CHash.RebuildValid | chash.go:222-250 | recomputing the partitions over a sound store and a sorted ring gives a valid table |
| CHash.Redistribute | chash.go:216-220 | the result is valid and differs from the input at most in its partition lists |
| CHash.GetPartition | chash.go:202-205 | the partition number is below the partition count |
| CHash.GetMembers | chash.go:186-190 | the key's partition list: `min(rf, members)` distinct stored members |
| CHash.GetPartitionMembers | chash.go:207-214 | an error exactly for a number outside `[0, pc)`, and that error is `PartitionNotExists`; otherwise the partition's list, with `min(rf, members)` distinct members |
| CHash.PartitionCount | chash.go:198-200 | in a valid table, the number of partition lists, which is at least 10 |
| Distributor.EffectiveRF | chash.go:230-233 | the replicas per partition: never above the factor or the member count, and equal to one of them |
| Distributor.TotalCapacity | chash.go:234-236 | the sum of the stored capacities; `TotalCapacityPositive` shows it is positive for a non-empty store and `ShareSumsToDemand` that the exact shares it defines add up to the demand |
| Distributor.TotalCapacityPositive | chash.go:229-236 | a non-empty store of positive capacities has a positive total |
| Distributor.Pieces | chash.go:239 | one member's count, the floor of `pc·rf` over `total/cap`, plus one; `PiecesAboveShare` proves it exceeds the member's exact share |
| Distributor.PiecesAboveShare | chash.go:239 | each piece count exceeds the member's exact share of the `pc·rf` replica slots |
| Distributor.InitialPieces | chash.go:237-241 | every live member, and no other id, gets a piece count |
| Distributor.QuotaAboveShare | chash.go:237-241 | every member's initial count is above its exact share |
| Distributor.ShareSumsToDemand | chash.go:229-241 | the exact shares add up to `pc·rf` |
| Distributor.QuotaExceedsDemand | chash.go:229-241 | the initial counts together exceed the `pc·rf` slots that all partitions need |
| Distributor.FillAll | chash.go:243-249 | every partition, walked in order with the shared counts, gets `rf` distinct members from the ring |
| Distributor.PrependPartition | chash.go:244-249 | a filled partition in front of filled partitions keeps every partition filled |
| Distributor.PositiveQuotaOnRing | chash.go:272 | while counts exceed demand, some ring member still has a piece |
| Distributor.Distribute | chash.go:222-250 | with no ring every list is empty; otherwise every list holds `min(rf, members)` distinct stored members |
| Fill.Quota | chash.go:272 | a Go map read: an id without a count reads as 0; `WalkChargesPicked` and `WalkLeavesOthers` state how the walk changes it |
| Fill.Wrap | chash.go:264-266 | the index the body reads: `len(m)` wraps to 0, so on a non-empty ring it is always a valid index |
| Fill.Step | chash.go:263-279 | one pass of the loop body moves the index, never lowers the overflow, and adds at most one member |
| Fill.StopExists | chash.go:263-279 | while replicas are missing, some ring position lets the walk progress |
| Fill.MoveOnly | chash.go:267-278 | a pass that only moves the index brings the walk closer to a progress position |
| Fill.StepProgress | chash.go:263-279 | each pass keeps the loop invariant and lowers the termination measure |
| Fill.Walk | chash.go:263-279 | the loop ends with exactly `need` distinct ring members, extending what was already chosen |
| Fill.WalkLeavesOthers | chash.go:272-273 | members the walk does not pick keep their piece count |
| Fill.WalkChargesPicked | chash.go:272-276 | each picked member pays exactly one piece |
| Fill.WalkSpendsExactly | chash.go:263-279 | the walk spends exactly one piece per replica it adds |
| Fill.StepSpends | chash.go:272-273 | a picking pass spends one piece and any other pass none |
| Fill.MaxDeficit | chash.go:272 | a bound on how far below zero any member's count is |
| Fill.SumQuotaUpdate | chash.go:273 | changing one count changes the total by the difference |
| Fill.StartReady | chash.go:253-258 | the loop invariant holds at the start, from any starting index |
| Fill.FillClosest | chash.go:252-280 | the walk from the first entry at or above the partition hash yields `need` distinct ring members, and the counts cover the same ids |
| Fill.FillClosestSpends | chash.go:252-280 | one call spends exactly `need` pieces in total |
| Fill.FillClosestAccounting | chash.go:272-276 | each picked member pays one piece, and every other count is unchanged |
| Fill.PassKeepsInvariant | chash.go:263-279 | one pass keeps the invariant and the walk's eventual result, and shortens the remaining walk |
| Fill.FillClosestStart | chash.go:252-257 | the walk starts at the first entry at or above the hash with nothing chosen, no overflow and the invariant in place |
| Fill.LoopBody | chash.go:264-278 | the loop body written with the source's statements (wrap to the start, skip a chosen id and count the overflow, else take the member if its piece count beats the negated overflow) keeps the invariant, keeps the walk's eventual result, and shortens the remaining walk |
| Fill.FillClosestLoop | chash.go:252-280 | the source's loop, with bisection for the start, computes `FillClosest` |
| Fill.Steps | chash.go:263-279 | `n` passes of the loop body without its exit test; `OneIdRingStalls` states the stall over it |
| Fill.OneIdRingStalls | chash.go:263-279 | on a ring with one id no number of passes gathers a second replica |
| Ring.Less | chash.go:293-299 | used by the order lemmas below |
| Ring.LessIrreflexive | chash.go:293-299 | no entry is below itself |
| Ring.LessAsymmetric | chash.go:293-299 | the order is asymmetric |
| Ring.NotLessTransitive | chash.go:293-299 | "not below" is transitive |
| Ring.NotLessBothWays | chash.go:293-299 | entries unordered both ways share hash and id |
| Strings.StrLess | chash.go:295 | Go's `<` on strings, byte by byte with a proper prefix first; the four lemmas below show it is a strict total order |
| Strings.StrLessIrreflexive | chash.go:295 | Go's string `<` is irreflexive |
| Strings.StrLessTransitive | chash.go:295 | Go's string `<` is transitive |
| Strings.StrLessTotal | chash.go:295 | Go's string `<` is total on different strings |
| Strings.StrLessAsymmetric | chash.go:295 | Go's string `<` is asymmetric |
| Ring.Insert | chash.go:141 | insertion adds exactly the one entry |
| Ring.InsertSorted | chash.go:141 | inserting into a sorted ring keeps it sorted |
| Ring.Sort | chash.go:141 | `sort.Sort` leaves a sorted permutation of its input |
| Ring.SortedHeadIsLeast | chash.go:141 | the head of a sorted ring is not above any entry |
| Ring.SortedUnique | chash.go:141 | when equal keys mean equal entries, there is only one sorted arrangement of a collection |
| Ring.HeadTailMultiset | chash.go:141 | the tail of a ring is the ring minus its head, and stays sorted |
| Ring.SortedHashes | chash.go:253-255 | hashes never decrease along a sorted ring |
| Ring.Discard | chash.go:155-165 | the compaction keeps exactly the entries whose id is not removed |
| Ring.PrependSorted | chash.go:155-165 | an entry not above the rest may lead a sorted ring |
| Ring.DiscardKeepsOrder | chash.go:155-165 | the compaction copies survivors forward in order: two surviving entries appear in the result in the order they had on the ring, whether or not ids repeat |
| Ring.DiscardHas | chash.go:155-165 | every surviving entry is somewhere in the compaction |
| Ring.DiscardKeepsSorted | chash.go:155-165 | the compaction keeps the ring sorted |
| Ring.FirstAtOrAbove | chash.go:253-255 | the least index whose hash is at least `h`, or the ring length |
| Ring.FirstAtOrAboveUnique | chash.go:253-255 | only one index satisfies `sort.Search`'s contract |
| Ring.SearchFirstAtOrAbove | chash.go:253-255 | bisection on a sorted ring finds that index |
| Batch.VirtualCountAsWritten | chash.go:133 | the source's count truncates `2000·capacity`; it is 0 for non-positive capacities |
| Batch.VirtualCount | chash.go:133 | the corrected count is at least 1 and never below the source's |
| Batch.VirtualCountAgrees | chash.go:133 | the correction changes nothing once `2000·capacity` is at least 1 |
| Batch.VirtualKey | chash.go:135 | the key of a member's `i`-th entry: the id followed by `i` in decimal, as `fmt.Sprint` joins a string and an int; `MemberEntries` hashes it |
| Batch.MemberEntries | chash.go:133-137 | one member's `count` entries, entry `i` at the hash of `VirtualKey(id, i)`; `BatchEntries` and its lemmas state what the whole batch contributes |
| Batch.BatchEntries | chash.go:131-138 | every entry stands for a batch member |
| Batch.BatchEntriesConcat | chash.go:131-138 | the entries of two batches together are the entries of their concatenation |
| Batch.RingIdsConcat | chash.go:134 | the ids on two joined rings are the union of their ids |
| Batch.RingIdsPermutation | chash.go:141 | reordering the ring keeps its ids |
| Batch.EntriesCoverBatch | chash.go:131-141 | with the corrected count, exactly the batch's ids reach the ring |
| Batch.StoreWith | chash.go:139 | the store gains exactly the batch's ids, and ids outside the batch keep their members |
| Batch.StoreWithHolds | chash.go:139 | the stored member for an id is the last batch member carrying it |
| Batch.StoreWithConcat | chash.go:139 | storing two batches in turn equals storing their concatenation |
| Batch.OneMemberPerIdKeys | chash.go:293-299 | when each id has one member, the sort key identifies the entry |
| Batch.OneMemberPerIdPermutation | chash.go:141 | reordering keeps one member per id |
| Batch.EntriesOneMemberPerId | chash.go:131-138 | a batch with distinct ids puts one member per id on the ring |
| Sums.SumRemove | chash.go:234-236 | the total does not depend on the order in which the members are summed |
| Sums.SumFrame | chash.go:234-236 | the total depends only on the values at the summed ids |
| Sums.SumUpdate | chash.go:234-236 | changing one value changes the total by the difference |
| Sums.SumStrictlyAbove | chash.go:234-241 | pointwise larger values give a larger total |
| Sums.SumScale | chash.go:239 | scaling every value scales the total |
| Sums.SumPositive | chash.go:234-236 | positive values give a positive total |
| Sums.SumPositiveWitness | chash.go:272 | a positive total has a positive term |
| Properties.NewRejectsBadConfigs | chash_test.go:30-39 | the constructor cases the tests exercise: partition count 0 and replication factor -1 are refused, and factor 0 becomes 1 |
| Properties.ReconfigureForgetsHistory | chash.go:181-183 | `Reconfigure` depends on the table only through its configuration |
| Properties.ReconfigureMatchesFreshAdd | chash.go:173-184 | on a table without members, `AddMembers` and `Reconfigure` give the same outcome and table |
| Properties.IncrementalAddMatchesReconfigure | chash.go:116-184 | adding a second batch of new members to a reconfigured table gives the table that reconfiguring with both batches gives |
| Properties.IncrementalTables | chash.go:130-144 | both routes give the same table |
| Properties.ValidDetermined | chash.go:222-250 | a valid table is fixed by its configuration, store and ring |
| Properties.OneRound | chash.go:173-184 | the store and ring one `Reconfigure` leaves |
| Properties.SecondRound | chash.go:116-144 | the store and ring the second round leaves equal those of one round with both batches |
| Properties.FirstRound | chash.go:173-184 | what the first round leaves behind |
| Properties.SecondBatchIsNew | chash.go:123-125 | with distinct ids across both batches, the second batch passes the existing-id check |
| Properties.SameRingEitherWay | chash.go:141 | sorting in two rounds or in one gives the same ring |
| Properties.TwoRoundsMatchReconfigure | chash_test.go:78-102 | the reconfigure test's scenario: two `AddMembers` rounds, and one round followed by `Reconfigure` with both batches, leave the same partitions |
| Properties.RemoveAllEmptiesPartitions | chash.go:146-171 | removing every member leaves an empty store and every partition empty |
| Properties.SingleSurvivorServesAll | chash_test.go:105-129 | with one member left, it is the single replica of every partition |
| Properties.OneMemberServesAll | chash.go:230-233 | a valid table with one member lists it alone in every partition |
| Properties.ErrorsTheTestsExpect | chash_test.go:52-129 | the errors the tests expect: a zero capacity is refused by `AddMembers` and `Reconfigure`, adding a stored id gives `MemberExists`, and removing an id twice gives `MemberNotExists` on the second call |
| Properties.StoredAfterAdd | chash_test.go:59-66 | adding a new member succeeds and stores it, and adding it again gives `MemberExists` |
| Properties.RemovedTwice | chash_test.go:121-129 | removing a stored id succeeds, and removing it again gives `MemberNotExists` |
| Properties.GetMembersAgreesWithPartition | chash.go:186-214 | a key's replicas are its partition's replicas, looked up by number without error |
| Properties.RedistributeChangesNothing | chash.go:216-220 | with capacities fixed, `Distribute` on a distributed table changes nothing |
| Properties.RedistributeIgnoresPriorPartitions | chash.go:243-248 | the old partition lists never influence `Distribute` |
| Properties.PartitionCountNeverChanges | chash.go:198-200 | no operation alters the partition count |
| Properties.BatchDuplicatesAccepted | chash.go:119-126 | two batch members with one new id pass `AddMembers`' checks |
| Properties.SmallMemberOffRingAsWritten | chash.go:131-139 | as written, a member of capacity 0.0001 is stored but gets no ring entry |
| Properties.SmallMemberStallsAsWritten | chash.go:252-279 | as written, that batch makes `distribute` seek two replicas on a ring with one id, and the walk never finds the second |
| Properties.CorrectedCountKeepsMembersOnRing | chash.go:133 | with the corrected count, every member of a reconfigured batch reaches the ring |

## Left out

- The `sync.RWMutex` and every lock: the model is sequential.
- Byte strings: each `char` of an id, a key or the hasher's input stands for one byte of the Go string, so ids that are not UTF-8 are covered. The model does not bound a `char` by 255, so it also admits strings Go cannot form.
- The default hasher (xxhash) and a nil `Hasher`: the hasher is always a parameter, a function from strings to 64-bit values, and `Config` has no nil case.
- Floating point: capacities, the total capacity and the piece counts are exact reals. Go's rounding, and the map-order float sum it depends on, are not modelled, so a piece count that rounding would move by one is not captured.
- `sort.Sort` is not stable and not specified for equal keys. The model sorts with one fixed algorithm (`Ring.Sort`). When every id has one member, `Ring.SortedUnique` shows that all sorted arrangements agree. With duplicate ids in a batch, equal-key entries may differ in capacity, and which one lands first is not modelled.
- Changing a member's capacity in place behind the table's back, the case `Distribute` exists for: members are immutable values. So `CHash.Redistribute` is the identity on a valid table.
- Slice aliasing: the returned partition slices share storage with the table; `buf` reuse; the in-place reuse of `c.partitions[i]`.
- `int(...)` conversions of 64-bit values: a partition count at or above 2^63 in `getPartition`, `PartitionCount` and `GetPartitionMembers`, and the overflow of `int(2000·capacity)` for huge capacities.
- The error texts of `Validate`: the model has two error kinds, `BadReplicationFactor` and `BadPartitionCount`.
- The statistical distribution tests and the benchmarks in chash_test.go. The removal test's check loop runs zero times (`i < 0`), so only its scenario is modelled.
- CHash.GetMembers: requires a valid table, which every table the API produces is; the source returns whatever list the table holds.
- CHash.GetPartitionMembers: requires a valid table, for the same reason.
- CHash.AddMembers: does not give the source's ring for a member whose capacity is below 1/2000. The source gives such a member no entry. The model gives it one (the corrected count under Findings), so partition lists can differ even where the source's loop ends. For example, take a hasher sending "b0" and "p0" to 0 and every other string to 1, partition count 10, replication factor 1, and members a (capacity 0.001) and b (capacity 0.0001). Then a gets 10 pieces, one for each partition. The source's ring is [a, a] and partition 0 is [a]; the model's ring is [b, a, a] and partition 0 is [b]. From partition count 12 on, a has fewer pieces than there are partitions, and the source's loop does not end on this input either.
- CHash.Reconfigure: the same divergence as `CHash.AddMembers`, since it rebuilds the ring with the same count.
- A NaN or `+Inf` capacity passes the source's checks `m.Capacity() <= 0` (chash.go:120 and chash.go:177) and is accepted; for `+Inf`, `int(virtualMembers*m.Capacity())` at chash.go:133 is implementation-defined in Go. Capacities here are finite reals, so neither path is modelled.
- Distributor.Distribute: it requires a well-formed store whose ids are exactly the ring's ids. With the source's count this can fail (see Findings), so the model uses the corrected count throughout.

## Findings

| source | as written | input that shows it | evidently intended | confidence | as-written member | corrected member |
|---|---|---|---|---|---|---|
| chash.go:133 | `int(virtualMembers*m.Capacity())` virtual entries: 0 when the capacity is below 1/2000, yet the member is still stored (line 139) and counted by `distribute` (line 231) | `AddMembers(Member("a", 1.0), Member("b", 0.0001))` with replication factor 2: the ring holds only "a", two distinct replicas are sought, and `fillClosest`'s loop never ends | every accepted member gets at least one ring entry, so every stored id is on the ring and each walk can finish (this also changes the partition lists of some inputs the source handles, see `CHash.AddMembers` under Left out) | not executed | Properties.SmallMemberStallsAsWritten | Properties.CorrectedCountKeepsMembersOnRing |
