/** `distribute`: piece counts from capacities, then one walk per partition. */
module Distributor {
  import opened Ring
  import opened Fill
  import opened Sums

  /** Every stored member sits under its own id and has a positive capacity. */
  ghost predicate WellFormedStore(store: map<string, Member>) {
    forall id :: id in store ==> store[id].id == id && store[id].capacity > 0.0
  }

  /** `min(ReplicationFactor, len(members))`. */
  function EffectiveRF(rf: int, live: nat): (r: nat)
    requires rf >= 1
    ensures r <= rf && r <= live
    ensures r == rf || r == live
  {
    if live < rf then live else rf
  }

  function CapacityOf(store: map<string, Member>): string -> real {
    id => if id in store then store[id].capacity else 0.0
  }

  /** The sum of the live members' capacities, in no particular order. */
  ghost function TotalCapacity(store: map<string, Member>): real {
    SumOf(CapacityOf(store), store.Keys)
  }

  lemma TotalCapacityPositive(store: map<string, Member>)
    requires WellFormedStore(store) && store != map[]
    ensures TotalCapacity(store) > 0.0
  {
    assert store.Keys != {} by {
      var id :| id in store;
    }
    SumPositive(CapacityOf(store), store.Keys);
  }

  /** One member's piece count, `int(PartitionCount*rf / (total/capacity)) + 1`,
      over exact reals. */
  ghost function Pieces(pc: nat, rf: nat, cap: real, total: real): int
    requires cap > 0.0 && total > 0.0
  {
    ((pc * rf) as real / (total / cap)).Floor + 1
  }

  /** The `+1` puts every count strictly above the member's exact share. */
  lemma PiecesAboveShare(pc: nat, rf: nat, cap: real, total: real)
    requires cap > 0.0 && total > 0.0
    ensures Pieces(pc, rf, cap, total) as real > ((pc * rf) as real / total) * cap
  {
    var a := (pc * rf) as real;
    var x := a / (total / cap);
    assert x == (a / total) * cap;
  }

  /** The piece counts `distribute` starts every pass from. */
  ghost function InitialPieces(pc: nat, rf: nat, store: map<string, Member>): (pieces: map<string, int>)
    requires WellFormedStore(store) && store != map[]
    ensures pieces.Keys == store.Keys
  {
    TotalCapacityPositive(store);
    map id | id in store :: Pieces(pc, rf, store[id].capacity, TotalCapacity(store))
  }

  /** The counts together exceed the `pc * rf` replica slots to be filled,
      so no partition's walk can find every count exhausted. */
  lemma QuotaExceedsDemand(pc: nat, rf: nat, store: map<string, Member>)
    requires WellFormedStore(store) && store != map[]
    ensures SumQuota(InitialPieces(pc, rf, store), store.Keys) > (pc * rf) as real
  {
    TotalCapacityPositive(store);
    var share := ShareOf(store, (pc * rf) as real / TotalCapacity(store));
    assert store.Keys != {} by {
      var id :| id in store;
    }
    QuotaAboveShare(pc, rf, store);
    SumStrictlyAbove(QuotaOf(InitialPieces(pc, rf, store)), share, store.Keys);
    ShareSumsToDemand((pc * rf) as real, store);
  }

  /** A member's exact share of `c` times its capacity. */
  function ShareOf(store: map<string, Member>, c: real): string -> real {
    x => c * CapacityOf(store)(x)
  }

  lemma QuotaAboveShare(pc: nat, rf: nat, store: map<string, Member>)
    requires WellFormedStore(store) && store != map[]
    ensures TotalCapacity(store) > 0.0
    ensures forall id :: id in store.Keys ==>
      QuotaOf(InitialPieces(pc, rf, store))(id) > ShareOf(store, (pc * rf) as real / TotalCapacity(store))(id)
  {
    TotalCapacityPositive(store);
    var total := TotalCapacity(store);
    forall id | id in store.Keys
      ensures QuotaOf(InitialPieces(pc, rf, store))(id) > ShareOf(store, (pc * rf) as real / total)(id)
    {
      PiecesAboveShare(pc, rf, store[id].capacity, total);
    }
  }

  /** The exact shares add up to the demand. */
  lemma ShareSumsToDemand(a: real, store: map<string, Member>)
    requires WellFormedStore(store) && store != map[]
    ensures TotalCapacity(store) > 0.0
    ensures SumOf(ShareOf(store, a / TotalCapacity(store)), store.Keys) == a
  {
    TotalCapacityPositive(store);
    var c := a / TotalCapacity(store);
    SumScale(CapacityOf(store), ShareOf(store, c), c, store.Keys);
  }

  /** The loop over partition hashes; the piece counts carry over from one
      partition to the next. */
  ghost function FillAll(ring: seq<Entry>, hashes: seq<Hash64>, rf: nat, pieces: map<string, int>): (r: seq<seq<Member>>)
    requires 0 < |ring| && rf <= |RingIds(ring)| && pieces.Keys == RingIds(ring)
    requires SumQuota(pieces, RingIds(ring)) > (|hashes| * rf) as real
    ensures |r| == |hashes|
    ensures Filled(ring, rf, r)
    decreases |hashes|
  {
    if |hashes| == 0 then []
    else
      PositiveQuotaOnRing(ring, pieces, |hashes|, rf);
      var f := FillClosest(ring, hashes[0], rf, pieces);
      FillClosestSpends(ring, hashes[0], rf, pieces);
      assert |hashes| * rf == (|hashes| - 1) * rf + rf;
      var rest := FillAll(ring, hashes[1..], rf, f.pieces);
      PrependPartition(ring, rf, f.chosen, rest);
      [f.chosen] + rest
  }

  /** Every partition has `rf` distinct members taken from the ring. */
  ghost predicate Filled(ring: seq<Entry>, rf: nat, parts: seq<seq<Member>>) {
    (forall p :: 0 <= p < |parts| ==> |parts[p]| == rf && Distinct(IdsOf(parts[p]))) &&
    (forall p, k :: 0 <= p < |parts| && 0 <= k < |parts[p]| ==> parts[p][k] in RingMembers(ring))
  }

  lemma PrependPartition(ring: seq<Entry>, rf: nat, x: seq<Member>, rest: seq<seq<Member>>)
    requires |x| == rf && Distinct(IdsOf(x))
    requires forall k :: 0 <= k < |x| ==> x[k] in RingMembers(ring)
    requires Filled(ring, rf, rest)
    ensures Filled(ring, rf, [x] + rest)
  {
    var r := [x] + rest;
    assert forall p :: 1 <= p < |r| ==> r[p] == rest[p - 1];
  }

  /** A positive total leaves some ring member with a piece to give. */
  lemma PositiveQuotaOnRing(ring: seq<Entry>, pieces: map<string, int>, n: nat, rf: nat)
    requires SumQuota(pieces, RingIds(ring)) > (n * rf) as real
    ensures exists j :: 0 <= j < |ring| && Quota(pieces, ring[j].member.id) > 0
  {
    var id := SumPositiveWitness(QuotaOf(pieces), RingIds(ring));
    var j :| 0 <= j < |ring| && ring[j].member.id == id;
  }

  /** `distribute`: no ring means no replicas; otherwise every partition gets
      `min(rf, live)` distinct live members. */
  ghost function Distribute(rf: int, pc: nat, store: map<string, Member>, ring: seq<Entry>, hashes: seq<Hash64>)
    : (r: seq<seq<Member>>)
    requires rf >= 1 && |hashes| == pc
    requires WellFormedStore(store) && RingIds(ring) == store.Keys
    ensures |r| == pc
    ensures forall p :: 0 <= p < pc ==> |r[p]| == EffectiveRF(rf, |store|) && Distinct(IdsOf(r[p]))
    ensures forall p, k :: 0 <= p < pc && 0 <= k < |r[p]| ==> r[p][k].id in store
  {
    if |ring| == 0 then
      assert store.Keys == {};
      seq(pc, p => [])
    else
      assert ring[0].member.id in store;
      assert |store.Keys| == |store|;
      var live := EffectiveRF(rf, |store|);
      QuotaExceedsDemand(pc, live, store);
      var r := FillAll(ring, hashes, live, InitialPieces(pc, live, store));
      assert forall p, k :: 0 <= p < pc && 0 <= k < |r[p]| ==> r[p][k].id in RingIds(ring);
      r
  }
}
