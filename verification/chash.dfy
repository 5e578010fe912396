/** The partition table: configuration, membership changes and lookups. */
module CHash {
  import opened Outcomes
  import opened Strings
  import opened Ring
  import opened Fill
  import opened Distributor
  import opened Batch

  /** `Config`, with the hasher always supplied (the default one is xxhash). */
  datatype Config = Config(hasher: string -> Hash64, partitionCount: Hash64, replicationFactor: int)

  /** `cHash`: the store of members by id, the sorted ring of virtual
      entries, one hash and one replica list per partition. */
  datatype Table = Table(
    config: Config,
    store: map<string, Member>,
    ring: seq<Entry>,
    partitionHashes: seq<Hash64>,
    partitions: seq<seq<Member>>)

  /** A mutation's new table together with its error return. */
  datatype Update = Update(table: Table, outcome: Outcome)

  const MinPartitionCount: nat := 10

  /** `Config.Validate`: the replication factor is checked first. */
  function Validate(c: Config): (r: Outcome)
    ensures r == Pass <==> c.replicationFactor >= 1 && c.partitionCount >= MinPartitionCount
    ensures r == Fail(BadReplicationFactor) <==> c.replicationFactor < 1
    ensures r.Fail? ==> r.error in {BadReplicationFactor, BadPartitionCount}
  {
    if c.replicationFactor < 1 then Fail(BadReplicationFactor)
    else if c.partitionCount < MinPartitionCount then Fail(BadPartitionCount)
    else Pass
  }

  /** Partition `i` sits on the ring at the hash of "p" followed by `i`. */
  function PartitionHash(hasher: string -> Hash64, i: nat): Hash64 {
    hasher("p" + Decimal(i))
  }

  function PartitionHashes(hasher: string -> Hash64, pc: nat): (hs: seq<Hash64>)
    ensures |hs| == pc
  {
    seq(pc, i requires 0 <= i < pc => PartitionHash(hasher, i))
  }

  /** What every table satisfies apart from its partition lists. */
  ghost predicate Structural(t: Table) {
    && Validate(t.config) == Pass
    && t.partitionHashes == PartitionHashes(t.config.hasher, t.config.partitionCount)
    && WellFormedStore(t.store)
    && RingIds(t.ring) == t.store.Keys
    && Sorted(t.ring)
  }

  /** A table whose partition lists are what `distribute` computes for it. */
  ghost predicate Valid(t: Table) {
    && Structural(t)
    && t.partitions == Distribute(t.config.replicationFactor, t.config.partitionCount, t.store, t.ring, t.partitionHashes)
  }

  /** What `distribute` guarantees of the partition lists of a valid table. */
  lemma ValidPartitions(t: Table)
    requires Valid(t)
    ensures |t.partitions| == t.config.partitionCount
    ensures forall p :: 0 <= p < |t.partitions| ==>
      |t.partitions[p]| == EffectiveRF(t.config.replicationFactor, |t.store|) && Distinct(IdsOf(t.partitions[p]))
    ensures forall p, k :: 0 <= p < |t.partitions| && 0 <= k < |t.partitions[p]| ==> t.partitions[p][k].id in t.store
  {
  }

  /** `New` followed by `init`: a replication factor of 0 means 1. */
  function New(hasher: string -> Hash64, partitionCount: Hash64, replicationFactor: int): (r: Result<Table>)
    ensures r.Ok? <==> replicationFactor >= 0 && partitionCount >= MinPartitionCount
    ensures r.Err? ==> r.error == if replicationFactor < 0 then BadReplicationFactor else BadPartitionCount
    ensures r.Ok? ==> var t := r.value;
      && Valid(t)
      && t.config.replicationFactor == (if replicationFactor == 0 then 1 else replicationFactor)
      && t.store == map[] && t.ring == []
      && |t.partitionHashes| == |t.partitions| == partitionCount
      && (forall p :: 0 <= p < partitionCount ==> t.partitions[p] == [])
  {
    var config := Config(hasher, partitionCount, if replicationFactor == 0 then 1 else replicationFactor);
    match Validate(config)
    case Fail(e) => Err(e)
    case Pass => Ok(Table(config, map[], [], PartitionHashes(hasher, partitionCount), seq(partitionCount, p => [])))
  }

  /** The table with new members and ring, and the partition lists
      `distribute` computes for them. */
  ghost function Rebuild(t: Table, store: map<string, Member>, ring: seq<Entry>): Table
    requires Validate(t.config) == Pass && |t.partitionHashes| == t.config.partitionCount
    requires WellFormedStore(store) && RingIds(ring) == store.Keys
  {
    Table(t.config, store, ring, t.partitionHashes,
      Distribute(t.config.replicationFactor, t.config.partitionCount, store, ring, t.partitionHashes))
  }

  lemma RebuildValid(t: Table, store: map<string, Member>, ring: seq<Entry>)
    requires Structural(t)
    requires WellFormedStore(store) && RingIds(ring) == store.Keys && Sorted(ring)
    ensures Valid(Rebuild(t, store, ring))
    ensures Rebuild(t, store, ring).config == t.config
  {
  }

  /** A store grown by a batch of members with positive capacities is well formed. */
  lemma StoreWithWellFormed(store: map<string, Member>, batch: seq<Member>)
    requires WellFormedStore(store)
    requires forall k :: 0 <= k < |batch| ==> batch[k].capacity > 0.0
    ensures WellFormedStore(StoreWith(store, batch))
  {
    var r := StoreWith(store, batch);
    forall id | id in r
      ensures r[id].id == id && r[id].capacity > 0.0
    {
      if id in BatchIds(batch) {
        var k := LastWithId(batch, id);
        StoreWithHolds(store, batch, k);
      }
    }
  }

  /** The ring `addMembers` sorts carries exactly the ids of the grown store. */
  lemma AddedRingIds(t: Table, batch: seq<Member>)
    requires RingIds(t.ring) == t.store.Keys
    ensures RingIds(Sort(t.ring + Entries(t.config.hasher, batch))) == StoreWith(t.store, batch).Keys
  {
    var entries := Entries(t.config.hasher, batch);
    RingIdsPermutation(Sort(t.ring + entries), t.ring + entries);
    RingIdsConcat(t.ring, entries);
    EntriesCoverBatch(t.config.hasher, batch);
  }

  /** `addMembers`: new entries join the ring, which is sorted again, the
      members join the store, and the partitions are recomputed. */
  ghost function AddUnchecked(t: Table, batch: seq<Member>): (r: Table)
    requires Structural(t)
    requires forall k :: 0 <= k < |batch| ==> batch[k].capacity > 0.0
    ensures Structural(r) && r.config == t.config
  {
    StoreWithWellFormed(t.store, batch);
    AddedRingIds(t, batch);
    Rebuild(t, StoreWith(t.store, batch), Sort(t.ring + Entries(t.config.hasher, batch)))
  }

  /** What `addMembers` leaves: a valid table over the grown store whose
      ring holds the old entries and the batch's. */
  lemma AddUncheckedValid(t: Table, batch: seq<Member>)
    requires Structural(t)
    requires forall k :: 0 <= k < |batch| ==> batch[k].capacity > 0.0
    ensures var r := AddUnchecked(t, batch);
      && Valid(r)
      && r.config == t.config
      && r.store.Keys == t.store.Keys + BatchIds(batch)
      && multiset(r.ring) == multiset(t.ring) + multiset(Entries(t.config.hasher, batch))
  {
    StoreWithWellFormed(t.store, batch);
    AddedRingIds(t, batch);
    RebuildValid(t, StoreWith(t.store, batch), Sort(t.ring + Entries(t.config.hasher, batch)));
  }

  /** The last batch position holding `id`. */
  lemma LastWithId(batch: seq<Member>, id: string) returns (k: nat)
    requires id in BatchIds(batch)
    ensures k < |batch| && batch[k].id == id
    ensures forall j :: k < j < |batch| ==> batch[j].id != id
  {
    var i :| 0 <= i < |batch| && batch[i].id == id;
    k := i;
    while k + 1 < |batch| && exists j :: k < j < |batch| && batch[j].id == id
      invariant k < |batch| && batch[k].id == id
      decreases |batch| - k
    {
      var j :| k < j < |batch| && batch[j].id == id;
      k := j;
    }
  }

  /** Member `k` is the first of the batch that `AddMembers` refuses, and
      `e` is the reason. */
  predicate FirstRejected(store: map<string, Member>, batch: seq<Member>, k: int, e: Error) {
    && 0 <= k < |batch|
    && (forall j :: 0 <= j < k ==> batch[j].capacity > 0.0 && batch[j].id !in store)
    && !(batch[k].capacity > 0.0 && batch[k].id !in store)
    && (e == InvalidCapacity <==> batch[k].capacity <= 0.0)
    && (e == MemberExists <==> batch[k].capacity > 0.0 && batch[k].id in store)
  }

  /** `AddMembers`' validation: the first member with a non-positive
      capacity or an id already in the store decides the error; two members
      of the batch with the same id are not an error. */
  function CheckAdd(store: map<string, Member>, batch: seq<Member>): (r: Outcome)
    ensures r == Pass <==> forall k :: 0 <= k < |batch| ==> batch[k].capacity > 0.0 && batch[k].id !in store
    ensures r.Fail? ==> exists k :: FirstRejected(store, batch, k, r.error)
    decreases |batch|
  {
    if |batch| == 0 then Pass
    else if batch[0].capacity <= 0.0 then
      assert FirstRejected(store, batch, 0, InvalidCapacity);
      Fail(InvalidCapacity)
    else if batch[0].id in store then
      assert FirstRejected(store, batch, 0, MemberExists);
      Fail(MemberExists)
    else
      var r := CheckAdd(store, batch[1..]);
      assert forall k :: 1 <= k < |batch| ==> batch[k] == batch[1..][k - 1];
      if r.Fail? then
        var k :| FirstRejected(store, batch[1..], k, r.error);
        assert FirstRejected(store, batch, k + 1, r.error);
        r
      else r
  }

  /** `Reconfigure`'s validation loop: capacities only, returning at the
      first member that is not positive. */
  function CheckCapacities(batch: seq<Member>): (r: Outcome)
    ensures r == Pass <==> forall k :: 0 <= k < |batch| ==> batch[k].capacity > 0.0
    ensures r.Fail? ==> r.error == InvalidCapacity
    decreases |batch|
  {
    if |batch| == 0 then Pass
    else if batch[0].capacity <= 0.0 then Fail(InvalidCapacity)
    else
      var r := CheckCapacities(batch[1..]);
      assert forall k :: 1 <= k < |batch| ==> batch[k] == batch[1..][k - 1];
      r
  }

  /** With no batch id stored, `AddMembers`' check is `Reconfigure`'s. */
  lemma CheckAddNewIds(store: map<string, Member>, batch: seq<Member>)
    requires forall k :: 0 <= k < |batch| ==> batch[k].id !in store
    ensures CheckAdd(store, batch) == CheckCapacities(batch)
  {
  }

  /** A prefix of positive capacities does not change the capacity check. */
  lemma {:induction false} CheckCapacitiesSkip(b1: seq<Member>, b2: seq<Member>)
    requires forall k :: 0 <= k < |b1| ==> b1[k].capacity > 0.0
    ensures CheckCapacities(b1 + b2) == CheckCapacities(b2)
    decreases |b1|
  {
    if |b1| > 0 {
      assert (b1 + b2)[0] == b1[0];
      assert (b1 + b2)[1..] == b1[1..] + b2;
      CheckCapacitiesSkip(b1[1..], b2);
    } else {
      assert b1 + b2 == b2;
    }
  }

  /** `RemoveMembers`' validation loop: returns at the first id not stored. */
  function CheckRemove(store: map<string, Member>, ids: seq<string>): (r: Outcome)
    ensures r == Pass <==> forall k :: 0 <= k < |ids| ==> ids[k] in store
    ensures r.Fail? ==> r.error == MemberNotExists
    decreases |ids|
  {
    if |ids| == 0 then Pass
    else if ids[0] !in store then Fail(MemberNotExists)
    else
      var r := CheckRemove(store, ids[1..]);
      assert forall k :: 1 <= k < |ids| ==> ids[k] == ids[1..][k - 1];
      r
  }

  /** `AddMembers`: all or nothing. */
  ghost function AddMembers(t: Table, batch: seq<Member>): (r: Update)
    requires Structural(t)
    ensures r.outcome == CheckAdd(t.store, batch)
    ensures r.outcome.Fail? ==> r.table == t
    ensures Structural(r.table) && r.table.config == t.config
  {
    match CheckAdd(t.store, batch)
    case Fail(e) => Update(t, Fail(e))
    case Pass => Update(AddUnchecked(t, batch), Pass)
  }

  /** A successful `AddMembers` is `addMembers`. */
  lemma AddMembersParts(t: Table, batch: seq<Member>)
    requires Structural(t)
    requires CheckAdd(t.store, batch) == Pass
    ensures forall k :: 0 <= k < |batch| ==> batch[k].capacity > 0.0
    ensures AddMembers(t, batch).table == AddUnchecked(t, batch)
  {
  }

  /** After a successful `AddMembers` the table is valid, holds every new
      id, keeps every old member as it was, and its ring is the old ring
      with the batch's entries added. */
  lemma AddMembersSucceeds(t: Table, batch: seq<Member>)
    requires Structural(t)
    requires AddMembers(t, batch).outcome == Pass
    ensures var u := AddMembers(t, batch).table;
      && Valid(u)
      && u.config == t.config
      && u.store.Keys == t.store.Keys + BatchIds(batch)
      && (forall id :: id in t.store ==> u.store[id] == t.store[id])
      && multiset(u.ring) == multiset(t.ring) + multiset(Entries(t.config.hasher, batch))
  {
    AddMembersParts(t, batch);
    AddUncheckedValid(t, batch);
    assert forall id :: id in t.store ==> id !in BatchIds(batch);
  }

  lemma DiscardIds(ring: seq<Entry>, ids: seq<string>)
    ensures RingIds(Discard(ring, ids)) == RingIds(ring) - IdSet(ids)
  {
    var d := Discard(ring, ids);
    forall id | id in RingIds(d)
      ensures id in RingIds(ring) - IdSet(ids)
    {
      var j :| 0 <= j < |d| && d[j].member.id == id;
      assert multiset(d)[d[j]] > 0;
      assert d[j] in ring;
    }
    forall id | id in RingIds(ring) - IdSet(ids)
      ensures id in RingIds(d)
    {
      var j :| 0 <= j < |ring| && ring[j].member.id == id;
      assert multiset(ring)[ring[j]] > 0;
      assert id !in ids;
      assert ring[j] in d;
    }
  }

  /** `RemoveMembers`: all or nothing. */
  ghost function RemoveMembers(t: Table, ids: seq<string>): (r: Update)
    requires Structural(t)
    ensures r.outcome == CheckRemove(t.store, ids)
    ensures r.outcome.Fail? ==> r.table == t
    ensures Structural(r.table) && r.table.config == t.config
  {
    match CheckRemove(t.store, ids)
    case Fail(e) => Update(t, Fail(e))
    case Pass =>
      DiscardIds(t.ring, ids);
      DiscardKeepsSorted(t.ring, ids);
      Update(Rebuild(t, t.store - IdSet(ids), Discard(t.ring, ids)), Pass)
  }

  /** After a successful `RemoveMembers` the table is valid, exactly the
      removed ids have left the store, and no replica carries one. */
  lemma RemoveMembersSucceeds(t: Table, ids: seq<string>)
    requires Structural(t)
    requires RemoveMembers(t, ids).outcome == Pass
    ensures var u := RemoveMembers(t, ids).table;
      && Valid(u)
      && u.config == t.config
      && u.store == t.store - IdSet(ids)
      && (forall p, k :: 0 <= p < |u.partitions| && 0 <= k < |u.partitions[p]| ==> u.partitions[p][k].id !in ids)
  {
    var store := t.store - IdSet(ids);
    DiscardIds(t.ring, ids);
    DiscardKeepsSorted(t.ring, ids);
    RebuildValid(t, store, Discard(t.ring, ids));
    var u := RemoveMembers(t, ids).table;
    assert u == Rebuild(t, store, Discard(t.ring, ids));
    ValidPartitions(u);
  }

  /** A successful `RemoveMembers` drops exactly the entries of the removed
      ids from the ring and leaves every other entry in place. */
  lemma RemoveMembersKeepsOthers(t: Table, ids: seq<string>)
    requires Structural(t)
    requires RemoveMembers(t, ids).outcome == Pass
    ensures var u := RemoveMembers(t, ids).table;
      forall e :: multiset(u.ring)[e] == if e.member.id in ids then 0 else multiset(t.ring)[e]
  ensures var u := RemoveMembers(t, ids).table;
      forall i, j :: 0 <= i < j < |t.ring| && t.ring[i].member.id !in ids && t.ring[j].member.id !in ids ==>
        InOrder(u.ring, t.ring[i], t.ring[j])
  {
    DiscardIds(t.ring, ids);
    assert RemoveMembers(t, ids).table.ring == Discard(t.ring, ids);
    forall i, j | 0 <= i < j < |t.ring| && t.ring[i].member.id !in ids && t.ring[j].member.id !in ids
      ensures InOrder(Discard(t.ring, ids), t.ring[i], t.ring[j])
    {
      DiscardKeepsOrder(t.ring, ids, i, j);
    }
  }

  /** The table `Reconfigure` starts from: no members and an empty ring. */
  function Cleared(t: Table): (r: Table)
    ensures Structural(t) ==> Structural(r)
    ensures r.store == map[] && r.ring == []
  {
    t.(store := map[], ring := [])
  }

  /** `Reconfigure`: replaces every member by the batch, or changes nothing. */
  ghost function Reconfigure(t: Table, batch: seq<Member>): (r: Update)
    requires Structural(t)
    ensures r.outcome == CheckCapacities(batch)
    ensures r.outcome.Fail? ==> r.table == t
    ensures Structural(r.table) && r.table.config == t.config
  {
    match CheckCapacities(batch)
    case Fail(e) => Update(t, Fail(e))
    case Pass => Update(AddUnchecked(Cleared(t), batch), Pass)
  }

  /** A successful `Reconfigure` is `addMembers` on the emptied table. */
  lemma ReconfigureParts(t: Table, batch: seq<Member>)
    requires Structural(t)
    requires forall k :: 0 <= k < |batch| ==> batch[k].capacity > 0.0
    ensures Reconfigure(t, batch).table == AddUnchecked(Cleared(t), batch)
  {
    assert CheckCapacities(batch) == Pass;
  }

  /** After a successful `Reconfigure` the store holds exactly the batch's
      ids and the ring exactly the batch's entries. */
  lemma ReconfigureSucceeds(t: Table, batch: seq<Member>)
    requires Structural(t)
    requires Reconfigure(t, batch).outcome == Pass
    ensures var u := Reconfigure(t, batch).table;
      && Valid(u)
      && u.config == t.config
      && u.store.Keys == BatchIds(batch)
      && multiset(u.ring) == multiset(Entries(t.config.hasher, batch))
  {
    ReconfigureParts(t, batch);
    AddUncheckedValid(Cleared(t), batch);
  }

  /** `Distribute`: recomputes every partition list from the members. */
  ghost function Redistribute(t: Table): (r: Table)
    requires Structural(t)
    ensures Valid(r)
    ensures r.(partitions := t.partitions) == t
  {
    Rebuild(t, t.store, t.ring)
  }

  /** `getPartition`: the key's hash modulo the partition count. */
  function GetPartition(t: Table, key: string): (p: nat)
    requires t.config.partitionCount > 0
    ensures p < t.config.partitionCount
  {
    t.config.hasher(key) % t.config.partitionCount
  }

  /** `GetMembers`: the replica list of the key's partition. */
  function GetMembers(t: Table, key: string): (r: seq<Member>)
    requires Valid(t)
    ensures r == t.partitions[GetPartition(t, key)]
    ensures |r| == EffectiveRF(t.config.replicationFactor, |t.store|)
    ensures Distinct(IdsOf(r))
    ensures forall k :: 0 <= k < |r| ==> r[k].id in t.store
  {
    t.partitions[GetPartition(t, key)]
  }

  /** `GetPartitionMembers`: an error for a number outside the partition range. */
  function GetPartitionMembers(t: Table, p: int): (r: Result<seq<Member>>)
    requires Valid(t)
    ensures r.Err? <==> p < 0 || p >= t.config.partitionCount
    ensures r.Err? ==> r.error == PartitionNotExists
    ensures r.Ok? ==> r.value == t.partitions[p]
    ensures r.Ok? ==> |r.value| == EffectiveRF(t.config.replicationFactor, |t.store|) && Distinct(IdsOf(r.value))
  {
    if p < 0 || p >= t.config.partitionCount then Err(PartitionNotExists) else Ok(t.partitions[p])
  }

  /** `PartitionCount`: the configured count, which is how many replica lists a valid table holds. */
  function PartitionCount(t: Table): (n: nat)
    ensures Valid(t) ==> n == |t.partitions| && n >= MinPartitionCount
  {
    t.config.partitionCount
  }
}
