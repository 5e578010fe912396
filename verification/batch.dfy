/** What `addMembers` builds from a batch of members: their virtual ring
    entries and the updated id-to-member store. */
module Batch {
  import opened Strings
  import opened Ring
  import opened Fill

  /** `virtualMembers`: ring entries per unit of capacity. */
  const VirtualMembers: int := 2000

  /** `int(virtualMembers*Capacity())` as the source computes it: truncation
      toward zero, and a loop that runs no times for a non-positive bound. */
  function VirtualCountAsWritten(cap: real): (n: nat)
    ensures cap >= 0.0 ==> n as real <= VirtualMembers as real * cap < n as real + 1.0
    ensures cap <= 0.0 ==> n == 0
  {
    var f := (VirtualMembers as real * cap).Floor;
    if f < 0 then 0 else f
  }

  /** The corrected count: as written, but never fewer than one entry, so
      that every member with a positive capacity is on the ring. */
  function VirtualCount(cap: real): (n: nat)
    ensures n >= 1
    ensures n >= VirtualCountAsWritten(cap)
  {
    var f := VirtualCountAsWritten(cap);
    if f < 1 then 1 else f
  }

  /** Whenever the source's count is already positive the correction does not alter it. */
  lemma VirtualCountAgrees(cap: real)
    requires VirtualMembers as real * cap >= 1.0
    ensures VirtualCount(cap) == VirtualCountAsWritten(cap)
  {
  }

  /** The key hashed for the `i`-th virtual entry: the id followed by `i` in decimal. */
  function VirtualKey(id: string, i: nat): string {
    id + Decimal(i)
  }

  /** The inner loop of `addMembers`: entry `i` of a member sits at the
      hash of its `i`-th key. */
  function MemberEntries(hasher: string -> Hash64, m: Member, count: nat): seq<Entry> {
    seq(count, i requires 0 <= i < count => Entry(hasher(VirtualKey(m.id, i)), m))
  }

  /** The virtual entries of a whole batch, member by member, `count`
      giving how many each capacity earns. */
  function BatchEntries(hasher: string -> Hash64, batch: seq<Member>, count: real -> nat): (r: seq<Entry>)
    ensures forall j :: 0 <= j < |r| ==> r[j].member in batch
    decreases |batch|
  {
    if |batch| == 0 then []
    else MemberEntries(hasher, batch[0], count(batch[0].capacity)) + BatchEntries(hasher, batch[1..], count)
  }

  /** The entries the model puts on the ring for a batch. */
  function Entries(hasher: string -> Hash64, batch: seq<Member>): seq<Entry> {
    BatchEntries(hasher, batch, VirtualCount)
  }

  function BatchIds(batch: seq<Member>): set<string> {
    set k | 0 <= k < |batch| :: batch[k].id
  }

  function IdSet(ids: seq<string>): set<string> {
    set k | 0 <= k < |ids| :: ids[k]
  }

  /** The entries of two batches side by side are the entries of their concatenation. */
  lemma {:induction false} BatchEntriesConcat(hasher: string -> Hash64, b1: seq<Member>, b2: seq<Member>, count: real -> nat)
    ensures BatchEntries(hasher, b1 + b2, count) == BatchEntries(hasher, b1, count) + BatchEntries(hasher, b2, count)
    decreases |b1|
  {
    if |b1| == 0 {
      assert b1 + b2 == b2;
    } else {
      assert (b1 + b2)[0] == b1[0];
      assert (b1 + b2)[1..] == b1[1..] + b2;
      BatchEntriesConcat(hasher, b1[1..], b2, count);
    }
  }

  lemma RingIdsConcat(a: seq<Entry>, b: seq<Entry>)
    ensures RingIds(a + b) == RingIds(a) + RingIds(b)
  {
    forall id | id in RingIds(a + b)
      ensures id in RingIds(a) + RingIds(b)
    {
      var j :| 0 <= j < |a + b| && (a + b)[j].member.id == id;
      if j >= |a| {
        assert b[j - |a|].member.id == id;
      }
    }
    forall id | id in RingIds(a)
      ensures id in RingIds(a + b)
    {
      var j :| 0 <= j < |a| && a[j].member.id == id;
      assert (a + b)[j] == a[j];
    }
    forall id | id in RingIds(b)
      ensures id in RingIds(a + b)
    {
      var j :| 0 <= j < |b| && b[j].member.id == id;
      assert (a + b)[|a| + j] == b[j];
    }
  }

  /** A rearrangement of the ring has the same ids on it. */
  lemma RingIdsPermutation(a: seq<Entry>, b: seq<Entry>)
    requires multiset(a) == multiset(b)
    ensures RingIds(a) == RingIds(b)
  {
    forall id | id in RingIds(a)
      ensures id in RingIds(b)
    {
      var j :| 0 <= j < |a| && a[j].member.id == id;
      assert a[j] in multiset(b);
    }
    forall id | id in RingIds(b)
      ensures id in RingIds(a)
    {
      var j :| 0 <= j < |b| && b[j].member.id == id;
      assert b[j] in multiset(a);
    }
  }

  /** With a count of at least one per member, exactly the batch's ids reach the ring. */
  lemma {:induction false} EntriesCoverBatch(hasher: string -> Hash64, batch: seq<Member>)
    ensures RingIds(Entries(hasher, batch)) == BatchIds(batch)
    decreases |batch|
  {
    if |batch| > 0 {
      var head := MemberEntries(hasher, batch[0], VirtualCount(batch[0].capacity));
      EntriesCoverBatch(hasher, batch[1..]);
      RingIdsConcat(head, Entries(hasher, batch[1..]));
      assert head[0].member.id == batch[0].id;
      assert RingIds(head) == {batch[0].id};
      assert batch == [batch[0]] + batch[1..];
      forall id | id in BatchIds(batch)
        ensures id in {batch[0].id} + BatchIds(batch[1..])
      {
        var k :| 0 <= k < |batch| && batch[k].id == id;
        if k > 0 {
          assert batch[1..][k - 1].id == id;
        }
      }
      forall id | id in BatchIds(batch[1..])
        ensures id in BatchIds(batch)
      {
        var k :| 0 <= k < |batch[1..]| && batch[1..][k].id == id;
        assert batch[k + 1].id == id;
      }
    }
  }

  /** `c.members[m.Id()] = m` for each batch member in turn: a later member
      with the same id replaces an earlier one. */
  function StoreWith(store: map<string, Member>, batch: seq<Member>): (r: map<string, Member>)
    ensures r.Keys == store.Keys + BatchIds(batch)
    ensures forall id :: id in store && id !in BatchIds(batch) ==> r[id] == store[id]
    decreases |batch|
  {
    if |batch| == 0 then store
    else
      var rest := batch[1..];
      assert BatchIds(batch) == {batch[0].id} + BatchIds(rest) by {
        forall id | id in BatchIds(batch)
          ensures id in {batch[0].id} + BatchIds(rest)
        {
          var k :| 0 <= k < |batch| && batch[k].id == id;
          if k > 0 {
            assert rest[k - 1].id == id;
          }
        }
        forall id | id in BatchIds(rest)
          ensures id in BatchIds(batch)
        {
          var k :| 0 <= k < |rest| && rest[k].id == id;
          assert batch[k + 1].id == id;
        }
      }
      StoreWith(store[batch[0].id := batch[0]], rest)
  }

  /** Every stored value is the last batch member carrying its id. */
  lemma {:induction false} StoreWithHolds(store: map<string, Member>, batch: seq<Member>, k: nat)
    requires k < |batch|
    requires forall j :: k < j < |batch| ==> batch[j].id != batch[k].id
    ensures StoreWith(store, batch)[batch[k].id] == batch[k]
    decreases |batch|
  {
    var s := store[batch[0].id := batch[0]];
    if k == 0 {
      assert batch[0].id !in BatchIds(batch[1..]);
      assert StoreWith(store, batch) == StoreWith(s, batch[1..]);
    } else {
      StoreWithHolds(s, batch[1..], k - 1);
    }
  }

  /** Adding two batches one after the other stores what adding their
      concatenation stores. */
  lemma {:induction false} StoreWithConcat(store: map<string, Member>, b1: seq<Member>, b2: seq<Member>)
    ensures StoreWith(StoreWith(store, b1), b2) == StoreWith(store, b1 + b2)
    decreases |b1|
  {
    if |b1| == 0 {
      assert b1 + b2 == b2;
    } else {
      assert (b1 + b2)[0] == b1[0];
      assert (b1 + b2)[1..] == b1[1..] + b2;
      StoreWithConcat(store[b1[0].id := b1[0]], b1[1..], b2);
    }
  }

  /** Each entry on a ring stands for the only member with its id. */
  ghost predicate OneMemberPerId(s: seq<Entry>) {
    forall i, j :: 0 <= i < |s| && 0 <= j < |s| && s[i].member.id == s[j].member.id ==> s[i].member == s[j].member
  }

  /** One member per id makes the sort key identify the entry. */
  lemma OneMemberPerIdKeys(s: seq<Entry>)
    requires OneMemberPerId(s)
    ensures KeysDetermine(s)
  {
  }

  lemma OneMemberPerIdPermutation(a: seq<Entry>, b: seq<Entry>)
    requires multiset(a) == multiset(b) && OneMemberPerId(a)
    ensures OneMemberPerId(b)
  {
    forall i, j | 0 <= i < |b| && 0 <= j < |b| && b[i].member.id == b[j].member.id
      ensures b[i].member == b[j].member
    {
      assert b[i] in multiset(a) && b[j] in multiset(a);
      var x :| 0 <= x < |a| && a[x] == b[i];
      var y :| 0 <= y < |a| && a[y] == b[j];
    }
  }

  /** A batch with distinct ids puts one member per id on the ring. */
  lemma EntriesOneMemberPerId(hasher: string -> Hash64, batch: seq<Member>)
    requires Distinct(IdsOf(batch))
    ensures OneMemberPerId(Entries(hasher, batch))
  {
    var e := Entries(hasher, batch);
    forall i, j | 0 <= i < |e| && 0 <= j < |e| && e[i].member.id == e[j].member.id
      ensures e[i].member == e[j].member
    {
      var x :| 0 <= x < |batch| && batch[x] == e[i].member;
      var y :| 0 <= y < |batch| && batch[y] == e[j].member;
      assert IdsOf(batch)[x] == IdsOf(batch)[y];
    }
  }
}
