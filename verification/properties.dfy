/** Properties that relate several operations of the partition table. */
module Properties {
  import opened Outcomes
  import opened Ring
  import opened Fill
  import opened Distributor
  import opened Batch
  import opened CHash

  /** The construction cases the source's tests exercise. */
  lemma NewRejectsBadConfigs(hasher: string -> Hash64)
    ensures New(hasher, 0, 0) == Err(BadPartitionCount)
    ensures New(hasher, 10, -1) == Err(BadReplicationFactor)
    ensures New(hasher, 10, 0).Ok? && New(hasher, 10, 0).value.config.replicationFactor == 1
  {
  }

  /** `Reconfigure` depends on the table only through its configuration. */
  lemma ReconfigureForgetsHistory(t1: Table, t2: Table, batch: seq<Member>)
    requires Structural(t1) && Structural(t2) && t1.config == t2.config
    ensures Reconfigure(t1, batch).outcome == Reconfigure(t2, batch).outcome
    ensures Reconfigure(t1, batch).outcome == Pass ==> Reconfigure(t1, batch).table == Reconfigure(t2, batch).table
  {
    if CheckCapacities(batch) == Pass {
      ReconfigureParts(t1, batch);
      ReconfigureParts(t2, batch);
    }
  }

  /** On a table without members, `AddMembers` and `Reconfigure` coincide,
      duplicates within the batch included. */
  lemma ReconfigureMatchesFreshAdd(t: Table, empty: Table, batch: seq<Member>)
    requires Structural(t) && Structural(empty) && empty.config == t.config
    requires empty.store == map[] && empty.ring == []
    ensures AddMembers(empty, batch).outcome == Reconfigure(t, batch).outcome
    ensures Reconfigure(t, batch).outcome == Pass ==> AddMembers(empty, batch).table == Reconfigure(t, batch).table
  {
    CheckAddNewIds(empty.store, batch);
    if CheckCapacities(batch) == Pass {
      AddMembersParts(empty, batch);
      ReconfigureParts(t, batch);
      assert AddUnchecked(empty, batch) == AddUnchecked(Cleared(t), batch);
    }
  }

  /** Adding a batch of new members to a reconfigured table gives the
      table that reconfiguring with both batches at once gives. */
  lemma IncrementalAddMatchesReconfigure(t: Table, b1: seq<Member>, b2: seq<Member>)
    requires Structural(t)
    requires forall k :: 0 <= k < |b1| ==> b1[k].capacity > 0.0
    requires Distinct(IdsOf(b1 + b2))
    ensures Reconfigure(t, b1).outcome == Pass
    ensures AddMembers(Reconfigure(t, b1).table, b2).outcome == Reconfigure(t, b1 + b2).outcome
    ensures Reconfigure(t, b1 + b2).outcome == Pass ==>
      AddMembers(Reconfigure(t, b1).table, b2).table == Reconfigure(t, b1 + b2).table
  {
    var t1 := Reconfigure(t, b1).table;
    assert Structural(t1) && t1.store.Keys == BatchIds(b1) by {
      ReconfigureSucceeds(t, b1);
    }
    SecondBatchIsNew(b1, b2, t1.store);
    CheckAddNewIds(t1.store, b2);
    CheckCapacitiesSkip(b1, b2);
    if CheckCapacities(b2) == Pass {
      forall k | 0 <= k < |b1 + b2|
        ensures (b1 + b2)[k].capacity > 0.0
      {
        if k < |b1| {
          assert (b1 + b2)[k] == b1[k];
        } else {
          assert (b1 + b2)[k] == b2[k - |b1|];
        }
      }
      IncrementalTables(t, b1, b2);
    }
  }

  lemma IncrementalTables(t: Table, b1: seq<Member>, b2: seq<Member>)
    requires Structural(t)
    requires forall k :: 0 <= k < |b1 + b2| ==> (b1 + b2)[k].capacity > 0.0
    requires Distinct(IdsOf(b1 + b2))
    requires Reconfigure(t, b1).outcome == Pass
    requires Structural(Reconfigure(t, b1).table)
    requires CheckAdd(Reconfigure(t, b1).table.store, b2) == Pass
    ensures AddMembers(Reconfigure(t, b1).table, b2).table == Reconfigure(t, b1 + b2).table
  {
    SecondRound(t, b1, b2);
    OneRound(t, b1 + b2);
    ValidDetermined(AddMembers(Reconfigure(t, b1).table, b2).table, Reconfigure(t, b1 + b2).table);
  }

  /** A valid table is fixed by its configuration, store and ring. */
  lemma ValidDetermined(u1: Table, u2: Table)
    requires Valid(u1) && Valid(u2)
    requires u1.config == u2.config && u1.store == u2.store && u1.ring == u2.ring
    ensures u1 == u2
  {
  }

  /** What `Reconfigure` with a batch of positive capacities leaves. */
  lemma OneRound(t: Table, b: seq<Member>)
    requires Structural(t)
    requires forall k :: 0 <= k < |b| ==> b[k].capacity > 0.0
    ensures var u := Reconfigure(t, b).table;
      && Valid(u) && u.config == t.config
      && u.store == StoreWith(map[], b) && u.ring == Sort(Entries(t.config.hasher, b))
  {
    ReconfigureParts(t, b);
    AddUncheckedValid(Cleared(t), b);
    assert Cleared(t).ring + Entries(t.config.hasher, b) == Entries(t.config.hasher, b);
  }

  /** What the second round leaves: the store and ring of one round with both batches. */
  lemma SecondRound(t: Table, b1: seq<Member>, b2: seq<Member>)
    requires Structural(t)
    requires forall k :: 0 <= k < |b1 + b2| ==> (b1 + b2)[k].capacity > 0.0
    requires Distinct(IdsOf(b1 + b2))
    requires Reconfigure(t, b1).outcome == Pass
    requires Structural(Reconfigure(t, b1).table)
    requires CheckAdd(Reconfigure(t, b1).table.store, b2) == Pass
    ensures var u := AddMembers(Reconfigure(t, b1).table, b2).table;
      && Valid(u) && u.config == t.config
      && u.store == StoreWith(map[], b1 + b2) && u.ring == Sort(Entries(t.config.hasher, b1 + b2))
  {
    var t1 := Reconfigure(t, b1).table;
    FirstRound(t, b1, b2);
    AddMembersParts(t1, b2);
    AddUncheckedValid(t1, b2);
    SameRingEitherWay(t, b1, b2);
    StoreWithConcat(map[], b1, b2);
  }

  /** What the first round leaves behind. */
  lemma FirstRound(t: Table, b1: seq<Member>, b2: seq<Member>)
    requires Structural(t)
    requires forall k :: 0 <= k < |b1 + b2| ==> (b1 + b2)[k].capacity > 0.0
    ensures forall k :: 0 <= k < |b1| ==> b1[k].capacity > 0.0
    ensures var t1 := Reconfigure(t, b1).table;
      && t1.config == t.config && t1.partitionHashes == t.partitionHashes
      && t1.store == StoreWith(map[], b1) && t1.ring == Sort(Entries(t.config.hasher, b1))
  {
    assert forall k :: 0 <= k < |b1| ==> b1[k] == (b1 + b2)[k];
    ReconfigureParts(t, b1);
    assert Cleared(t).ring + Entries(t.config.hasher, b1) == Entries(t.config.hasher, b1);
  }

  /** Ids distinct across both batches keep the second batch out of a store
      holding the first. */
  lemma SecondBatchIsNew(b1: seq<Member>, b2: seq<Member>, store: map<string, Member>)
    requires Distinct(IdsOf(b1 + b2)) && store.Keys == BatchIds(b1)
    ensures forall k :: 0 <= k < |b2| ==> b2[k].id !in store
  {
    forall k | 0 <= k < |b2|
      ensures b2[k].id !in store
    {
      forall j | 0 <= j < |b1|
        ensures b1[j].id != b2[k].id
      {
        assert IdsOf(b1 + b2)[j] == b1[j].id;
        assert IdsOf(b1 + b2)[|b1| + k] == b2[k].id;
      }
    }
  }

  /** The ring after two rounds is the ring after one: both sort the same
      entries, and their keys identify them. */
  lemma SameRingEitherWay(t: Table, b1: seq<Member>, b2: seq<Member>)
    requires Structural(t)
    requires forall k :: 0 <= k < |b1 + b2| ==> (b1 + b2)[k].capacity > 0.0
    requires Distinct(IdsOf(b1 + b2))
    ensures forall k :: 0 <= k < |b1| ==> b1[k].capacity > 0.0
    ensures Sort(Sort(Entries(t.config.hasher, b1)) + Entries(t.config.hasher, b2))
      == Sort(Entries(t.config.hasher, b1 + b2))
  {
    assert forall k :: 0 <= k < |b1| ==> b1[k] == (b1 + b2)[k];
    var hasher := t.config.hasher;
    var e1, e2 := Entries(hasher, b1), Entries(hasher, b2);
    BatchEntriesConcat(hasher, b1, b2, VirtualCount);
    var left := Sort(Sort(e1) + e2);
    var right := Sort(e1 + e2);
    assert multiset(left) == multiset(e1) + multiset(e2) == multiset(right);
    EntriesOneMemberPerId(hasher, b1 + b2);
    OneMemberPerIdPermutation(e1 + e2, left);
    OneMemberPerIdKeys(left);
    SortedUnique(left, right);
  }

  /** The scenario of the source's reconfigure test: adding members in two
      rounds, or adding the first round and then reconfiguring with both,
      leaves every partition with the same replicas. */
  lemma TwoRoundsMatchReconfigure(empty: Table, b1: seq<Member>, b2: seq<Member>)
    requires Structural(empty) && empty.store == map[] && empty.ring == []
    requires forall k :: 0 <= k < |b1 + b2| ==> (b1 + b2)[k].capacity > 0.0
    requires Distinct(IdsOf(b1 + b2))
    ensures AddMembers(empty, b1).outcome == Pass
    ensures var h1 := AddMembers(empty, b1).table;
      && AddMembers(h1, b2).outcome == Pass
      && Reconfigure(h1, b1 + b2).outcome == Pass
      && AddMembers(h1, b2).table.partitions == Reconfigure(h1, b1 + b2).table.partitions
  {
    assert forall k :: 0 <= k < |b1| ==> b1[k] == (b1 + b2)[k];
    ReconfigureMatchesFreshAdd(empty, empty, b1);
    var h1 := AddMembers(empty, b1).table;
    IncrementalAddMatchesReconfigure(empty, b1, b2);
    ReconfigureForgetsHistory(empty, h1, b1 + b2);
  }

  /** Removing every member leaves every partition without replicas. */
  lemma RemoveAllEmptiesPartitions(t: Table, ids: seq<string>)
    requires Structural(t) && IdSet(ids) == t.store.Keys
    ensures RemoveMembers(t, ids).outcome == Pass
    ensures var u := RemoveMembers(t, ids).table;
      u.store == map[] && forall p :: 0 <= p < |u.partitions| ==> u.partitions[p] == []
  {
    assert forall k :: 0 <= k < |ids| ==> ids[k] in IdSet(ids);
    var u := RemoveMembers(t, ids).table;
    assert u.store.Keys == {};
    assert u.store == map[];
  }

  /** With one member left, that member is the single replica of every partition. */
  lemma SingleSurvivorServesAll(t: Table, ids: seq<string>, x: string)
    requires Structural(t) && x in t.store && IdSet(ids) == t.store.Keys - {x}
    ensures RemoveMembers(t, ids).outcome == Pass
    ensures var u := RemoveMembers(t, ids).table;
      forall p :: 0 <= p < |u.partitions| ==> |u.partitions[p]| == 1 && u.partitions[p][0].id == x
  {
    assert forall k :: 0 <= k < |ids| ==> ids[k] in IdSet(ids);
    RemoveMembersSucceeds(t, ids);
    OneMemberServesAll(RemoveMembers(t, ids).table, x);
  }

  lemma OneMemberServesAll(u: Table, x: string)
    requires Valid(u) && u.store.Keys == {x}
    ensures forall p :: 0 <= p < |u.partitions| ==> |u.partitions[p]| == 1 && u.partitions[p][0].id == x
  {
    assert |u.store| == |u.store.Keys| == 1;
    ValidPartitions(u);
    forall p | 0 <= p < |u.partitions|
      ensures |u.partitions[p]| == 1 && u.partitions[p][0].id == x
    {
      assert u.partitions[p][0].id in u.store;
    }
  }

  /** The error cases of the source's tests, on a table without members. */
  lemma ErrorsTheTestsExpect(t: Table)
    requires Structural(t) && t.store == map[]
    ensures AddMembers(t, [Member("1", 0.0)]).outcome == Fail(InvalidCapacity)
    ensures Reconfigure(t, [Member("1", 0.0)]).outcome == Fail(InvalidCapacity)
    ensures var u := AddMembers(t, [Member("1", 1.0)]);
      && u.outcome == Pass
      && AddMembers(u.table, [Member("1", 1.0)]).outcome == Fail(MemberExists)
      && RemoveMembers(u.table, ["1"]).outcome == Pass
      && RemoveMembers(RemoveMembers(u.table, ["1"]).table, ["1"]).outcome == Fail(MemberNotExists)
  {
    var m := Member("1", 1.0);
    assert CheckAdd(t.store, [m]) == Pass;
    StoredAfterAdd(t, m);
    RemovedTwice(AddMembers(t, [m]).table, "1");
  }

  lemma StoredAfterAdd(t: Table, m: Member)
    requires Structural(t) && m.capacity > 0.0 && m.id !in t.store
    ensures AddMembers(t, [m]).outcome == Pass
    ensures m.id in AddMembers(t, [m]).table.store
    ensures AddMembers(AddMembers(t, [m]).table, [m]).outcome == Fail(MemberExists)
  {
    assert CheckAdd(t.store, [m]) == Pass;
    AddMembersParts(t, [m]);
    var u := AddMembers(t, [m]).table;
    assert u.store == StoreWith(t.store, [m]);
    assert m.id in BatchIds([m]);
    assert CheckAdd(u.store, [m]) == Fail(MemberExists);
  }

  /** Removing a stored id succeeds once and then fails. */
  lemma RemovedTwice(u: Table, id: string)
    requires Structural(u) && id in u.store
    ensures RemoveMembers(u, [id]).outcome == Pass
    ensures RemoveMembers(RemoveMembers(u, [id]).table, [id]).outcome == Fail(MemberNotExists)
  {
    RemoveMembersSucceeds(u, [id]);
    assert id !in RemoveMembers(u, [id]).table.store;
  }

  /** Looking a key up, or looking up its partition by number, gives the same replicas. */
  lemma GetMembersAgreesWithPartition(t: Table, key: string)
    requires Valid(t)
    ensures GetPartitionMembers(t, GetPartition(t, key)) == Ok(GetMembers(t, key))
  {
  }

  /** With capacities fixed, recomputing the partitions of a table that is
      already distributed changes nothing. */
  lemma RedistributeChangesNothing(t: Table)
    requires Valid(t)
    ensures Redistribute(t) == t
  {
  }

  /** The partition lists a table held before never influence `Distribute`. */
  lemma RedistributeIgnoresPriorPartitions(t: Table, prior: seq<seq<Member>>)
    requires Structural(t)
    ensures Redistribute(t.(partitions := prior)) == Redistribute(t)
  {
  }

  /** No operation alters the configured partition count. */
  lemma PartitionCountNeverChanges(t: Table, batch: seq<Member>, ids: seq<string>)
    requires Structural(t)
    ensures PartitionCount(AddMembers(t, batch).table) == PartitionCount(t)
    ensures PartitionCount(RemoveMembers(t, ids).table) == PartitionCount(t)
    ensures PartitionCount(Reconfigure(t, batch).table) == PartitionCount(t)
    ensures PartitionCount(Redistribute(t)) == PartitionCount(t)
  {
  }

  /** Two batch members with one id, both new, pass `AddMembers`' checks:
      only the existing members are compared against. */
  lemma BatchDuplicatesAccepted(t: Table, m: Member)
    requires Structural(t) && m.capacity > 0.0 && m.id !in t.store
    ensures AddMembers(t, [m, m]).outcome == Pass
  {
  }

  /** A batch with one member of capacity 1 and one of capacity 0.0001. */
  const SmallBatch: seq<Member> := [Member("a", 1.0), Member("b", 0.0001)]

  /** As written, a member of capacity below 1/2000 earns no ring entry:
      after adding `SmallBatch` the store holds both ids but the ring only "a". */
  lemma SmallMemberOffRingAsWritten(hasher: string -> Hash64)
    ensures VirtualCountAsWritten(SmallBatch[1].capacity) == 0
    ensures StoreWith(map[], SmallBatch).Keys == {"a", "b"}
    ensures |BatchEntries(hasher, SmallBatch, VirtualCountAsWritten)| == 2000
    ensures RingIds(BatchEntries(hasher, SmallBatch, VirtualCountAsWritten)) == {"a"}
  {
    var a, b := SmallBatch[0], SmallBatch[1];
    var ea := MemberEntries(hasher, a, VirtualCountAsWritten(1.0));
    assert VirtualCountAsWritten(1.0) == 2000;
    assert VirtualCountAsWritten(0.0001) == 0;
    assert SmallBatch[1..] == [b] && SmallBatch[1..][1..] == [];
    var eb := BatchEntries(hasher, [b], VirtualCountAsWritten);
    assert eb == MemberEntries(hasher, b, 0) + BatchEntries(hasher, [], VirtualCountAsWritten);
    assert eb == [];
    assert BatchEntries(hasher, SmallBatch, VirtualCountAsWritten) == ea;
    assert ea[0].member.id == "a";
    assert RingIds(ea) == {"a"};
    assert BatchIds(SmallBatch) == {"a", "b"} by {
      assert SmallBatch[0].id == "a" && SmallBatch[1].id == "b";
    }
  }

  /** With a replication factor of 2 both members count, so `distribute`
      asks for two distinct members from a ring with one id: whatever the
      piece counts, no number of passes of the walk gathers a second one,
      and the loop never ends. */
  lemma SmallMemberStallsAsWritten(hasher: string -> Hash64, h: Hash64, pieces: map<string, int>, n: nat)
    ensures EffectiveRF(2, |StoreWith(map[], SmallBatch)|) == 2
    ensures var ring := Sort(BatchEntries(hasher, SmallBatch, VirtualCountAsWritten));
      0 < |ring| && |Steps(ring, WalkState(FirstAtOrAbove(ring, h), [], 0, pieces), n).chosen| <= 1
  {
    SmallMemberOffRingAsWritten(hasher);
    var store := StoreWith(map[], SmallBatch);
    assert |store| == |store.Keys| == 2;
    var entries := BatchEntries(hasher, SmallBatch, VirtualCountAsWritten);
    var ring := Sort(entries);
    assert |ring| == |multiset(ring)| == |multiset(entries)| == 2000;
    RingIdsPermutation(ring, entries);
    forall j | 0 <= j < |ring|
      ensures ring[j].member.id == "a"
    {
      assert ring[j].member.id in RingIds(ring);
    }
    OneIdRingStalls(ring, "a", WalkState(FirstAtOrAbove(ring, h), [], 0, pieces), n);
  }

  /** Corrected, every member of the batch reaches the ring, which is what
      `distribute` needs to finish. */
  lemma CorrectedCountKeepsMembersOnRing(t: Table, batch: seq<Member>)
    requires Structural(t)
    requires forall k :: 0 <= k < |batch| ==> batch[k].capacity > 0.0
    ensures Reconfigure(t, batch).outcome == Pass
    ensures RingIds(Reconfigure(t, batch).table.ring) == BatchIds(batch)
  {
  }
}
