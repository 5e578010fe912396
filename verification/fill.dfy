/** `fillClosest`: the walk around the ring that picks the replicas of one
    partition, gated by the members' remaining piece counts. */
module Fill {
  import opened Ring
  import opened Sums

  /** The pieces a member has left; a missing key reads as 0, as in a Go map. */
  function Quota(pieces: map<string, int>, id: string): int {
    if id in pieces then pieces[id] else 0
  }

  function QuotaOf(pieces: map<string, int>): string -> real {
    id => Quota(pieces, id) as real
  }

  /** The total of the pieces left over a set of member ids. */
  ghost function SumQuota(pieces: map<string, int>, keys: set<string>): real {
    SumOf(QuotaOf(pieces), keys)
  }

  lemma SumQuotaUpdate(pieces: map<string, int>, keys: set<string>, id: string, v: int)
    requires id in keys
    ensures SumQuota(pieces[id := v], keys) == SumQuota(pieces, keys) - Quota(pieces, id) as real + v as real
  {
    SumUpdate(QuotaOf(pieces), QuotaOf(pieces[id := v]), keys, id);
  }

  /** The ids of the chosen members, in order (`foundId`). The two
      `ensures` only expose the comprehension to the solver. */
  function IdsOf(ms: seq<Member>): (ids: seq<string>)
    ensures |ids| == |ms|
    ensures forall k :: 0 <= k < |ms| ==> ids[k] == ms[k].id
  {
    seq(|ms|, k requires 0 <= k < |ms| => ms[k].id)
  }

  predicate Distinct(ids: seq<string>) {
    forall i, j :: 0 <= i < j < |ids| ==> ids[i] != ids[j]
  }

  function Min(a: int, b: int): int {
    if a <= b then a else b
  }

  /** The loop variables of `fillClosest`: the ring index, the members
      found so far, the overflow counter and the shared piece counts. */
  datatype WalkState = WalkState(idx: nat, chosen: seq<Member>, overflow: nat, pieces: map<string, int>)

  /** The index the loop body looks at: `len(m)` wraps to 0. */
  function Wrap(ring: seq<Entry>, idx: nat): (i: nat)
    requires idx <= |ring|
    ensures 0 < |ring| ==> i < |ring|
    ensures i == idx || i == 0
  {
    if idx == |ring| then 0 else idx
  }

  /** One pass through the body of the `fillClosest` loop. */
  function Step(ring: seq<Entry>, s: WalkState): (r: WalkState)
    requires 0 < |ring| && s.idx <= |ring|
    ensures 0 < r.idx <= |ring|
    ensures r.overflow >= s.overflow
    ensures |r.chosen| <= |s.chosen| + 1
  {
    var i := Wrap(ring, s.idx);
    var m := ring[i].member;
    if m.id in IdsOf(s.chosen) then
      s.(idx := i + 1, overflow := s.overflow + 1)
    else if Quota(s.pieces, m.id) > -(s.overflow as int) then
      s.(idx := i + 1, chosen := s.chosen + [m], pieces := s.pieces[m.id := Quota(s.pieces, m.id) - 1])
    else
      s.(idx := i + 1)
  }

  /** Position `j` is where the walk makes progress: a pick, or (while the
      overflow is below the bound `d`) a pass over an already chosen member. */
  ghost predicate IsStop(ring: seq<Entry>, j: int, s: WalkState, d: nat)
    requires 0 <= j < |ring|
  {
    var id := ring[j].member.id;
    if s.overflow >= d then id !in IdsOf(s.chosen)
    else id in IdsOf(s.chosen) || Quota(s.pieces, id) > -(s.overflow as int)
  }

  /** 0 when a progress position lies ahead before the ring end, else 1. */
  ghost function Behind(ring: seq<Entry>, s: WalkState, d: nat): nat
    requires s.idx <= |ring|
  {
    if exists j :: Wrap(ring, s.idx) <= j < |ring| && IsStop(ring, j, s, d) then 0 else 1
  }

  /** What holds of the loop variables on every iteration. `d` bounds the
      overflow beyond which every member not yet chosen passes the gate. */
  ghost predicate WalkPre(ring: seq<Entry>, need: nat, s: WalkState, d: nat) {
    && 0 < |ring| && s.idx <= |ring|
    && need <= |RingIds(ring)|
    && |s.chosen| <= need
    && Distinct(IdsOf(s.chosen))
    && (forall k :: 0 <= k < |s.chosen| ==> s.chosen[k] in RingMembers(ring))
    && RingIds(ring) <= s.pieces.Keys
    && (forall j :: 0 <= j < |ring| && ring[j].member.id !in IdsOf(s.chosen) ==>
          Quota(s.pieces, ring[j].member.id) > -(d as int))
    && (|s.chosen| > 0 || exists j :: 0 <= j < |ring| && Quota(s.pieces, ring[j].member.id) > -(s.overflow as int))
  }

  lemma DistinctCard(ids: seq<string>)
    requires Distinct(ids)
    ensures |set x | x in ids| == |ids|
    decreases |ids|
  {
    if |ids| > 0 {
      var init := ids[..|ids| - 1];
      assert ids == init + [ids[|ids| - 1]];
      DistinctCard(init);
      assert (set x | x in ids) == (set x | x in init) + {ids[|ids| - 1]};
    }
  }

  lemma SubsetCard(a: set<string>, b: set<string>)
    requires a <= b
    ensures |a| <= |b|
  {
    assert b == a + (b - a);
    assert a * (b - a) == {};
  }

  /** While replicas are missing some position of the ring makes progress. */
  lemma StopExists(ring: seq<Entry>, need: nat, s: WalkState, d: nat) returns (j: nat)
    requires WalkPre(ring, need, s, d) && |s.chosen| < need
    ensures j < |ring| && IsStop(ring, j, s, d)
  {
    var found := set x | x in IdsOf(s.chosen);
    if s.overflow >= d {
      DistinctCard(IdsOf(s.chosen));
      if RingIds(ring) <= found {
        SubsetCard(RingIds(ring), found);
        assert false;
      }
      var x :| x in RingIds(ring) && x !in found;
      var k :| 0 <= k < |ring| && ring[k].member.id == x;
      j := k;
    } else if |s.chosen| > 0 {
      assert s.chosen[0] in RingMembers(ring);
      var k :| 0 <= k < |ring| && ring[k].member == s.chosen[0];
      assert IdsOf(s.chosen)[0] == ring[k].member.id;
      j := k;
    } else {
      var k :| 0 <= k < |ring| && Quota(s.pieces, ring[k].member.id) > -(s.overflow as int);
      j := k;
    }
  }

  /** A step that only moves the index brings the next progress position closer. */
  lemma MoveOnly(ring: seq<Entry>, need: nat, s: WalkState, t: WalkState, d: nat)
    requires WalkPre(ring, need, s, d) && |s.chosen| < need
    requires !IsStop(ring, Wrap(ring, s.idx), s, d)
    requires t.idx == Wrap(ring, s.idx) + 1 && t.chosen == s.chosen && t.pieces == s.pieces
    requires s.overflow >= d ==> t.overflow >= d
    requires s.overflow < d ==> t.overflow == s.overflow
    ensures forall j :: 0 <= j < |ring| ==> (IsStop(ring, j, t, d) <==> IsStop(ring, j, s, d))
    ensures Behind(ring, t, d) < Behind(ring, s, d)
      || (Behind(ring, t, d) == Behind(ring, s, d) && |ring| - Wrap(ring, t.idx) < |ring| - Wrap(ring, s.idx))
  {
    var i := Wrap(ring, s.idx);
    var stop := StopExists(ring, need, s, d);
    if i + 1 == |ring| {
      assert IsStop(ring, stop, t, d);
      assert Behind(ring, t, d) == 0;
      assert forall j :: i <= j < |ring| ==> !IsStop(ring, j, s, d);
    } else {
      if Behind(ring, s, d) == 0 {
        var j :| i <= j < |ring| && IsStop(ring, j, s, d);
        assert j != i;
        assert IsStop(ring, j, t, d);
      }
    }
  }

  /** Each pass keeps the loop invariant and decreases the walk's measure. */
  lemma StepProgress(ring: seq<Entry>, need: nat, s: WalkState, d: nat)
    requires WalkPre(ring, need, s, d) && |s.chosen| < need
    ensures WalkPre(ring, need, Step(ring, s), d)
    ensures var t := Step(ring, s);
      || need - |t.chosen| < need - |s.chosen|
      || (|t.chosen| == |s.chosen| &&
          (|| d - Min(t.overflow, d) < d - Min(s.overflow, d)
           || (Min(t.overflow, d) == Min(s.overflow, d) &&
               (|| Behind(ring, t, d) < Behind(ring, s, d)
                || (Behind(ring, t, d) == Behind(ring, s, d) &&
                    |ring| - Wrap(ring, t.idx) < |ring| - Wrap(ring, s.idx))))))
  {
    var t := Step(ring, s);
    var i := Wrap(ring, s.idx);
    var m := ring[i].member;
    if m.id in IdsOf(s.chosen) {
      if s.overflow >= d {
        MoveOnly(ring, need, s, t, d);
      }
    } else if Quota(s.pieces, m.id) > -(s.overflow as int) {
      assert IdsOf(t.chosen) == IdsOf(s.chosen) + [m.id];
      assert m in RingMembers(ring);
      assert m.id in RingIds(ring);
    } else {
      MoveOnly(ring, need, s, t, d);
    }
  }

  /** The `fillClosest` loop run to completion from state `s`. */
  function Walk(ring: seq<Entry>, need: nat, s: WalkState, ghost d: nat): (r: WalkState)
    requires WalkPre(ring, need, s, d)
    ensures |r.chosen| == need
    ensures r.chosen[..|s.chosen|] == s.chosen
    ensures Distinct(IdsOf(r.chosen))
    ensures forall k :: 0 <= k < need ==> r.chosen[k] in RingMembers(ring)
    ensures r.pieces.Keys == s.pieces.Keys
    decreases need - |s.chosen|, d - Min(s.overflow, d), Behind(ring, s, d), |ring| - Wrap(ring, s.idx)
  {
    if |s.chosen| == need then s
    else
      StepProgress(ring, need, s, d);
      var t := Step(ring, s);
      assert t.pieces.Keys == s.pieces.Keys by {
        assert RingIds(ring) <= s.pieces.Keys;
        assert ring[Wrap(ring, s.idx)].member.id in RingIds(ring);
      }
      Walk(ring, need, t, d)
  }

  /** The number of passes through the loop body the walk still makes. */
  ghost function Remaining(ring: seq<Entry>, need: nat, s: WalkState, d: nat): nat
    requires WalkPre(ring, need, s, d)
    decreases need - |s.chosen|, d - Min(s.overflow, d), Behind(ring, s, d), |ring| - Wrap(ring, s.idx)
  {
    if |s.chosen| == need then 0
    else
      StepProgress(ring, need, s, d);
      1 + Remaining(ring, need, Step(ring, s), d)
  }

  /** Members the walk does not pick keep their piece count. */
  lemma {:induction false} WalkLeavesOthers(ring: seq<Entry>, need: nat, s: WalkState, d: nat, id: string)
    requires WalkPre(ring, need, s, d)
    requires forall k :: |s.chosen| <= k < need ==> Walk(ring, need, s, d).chosen[k].id != id
    ensures Quota(Walk(ring, need, s, d).pieces, id) == Quota(s.pieces, id)
    decreases Remaining(ring, need, s, d)
  {
    if |s.chosen| < need {
      StepProgress(ring, need, s, d);
      var t := Step(ring, s);
      var r := Walk(ring, need, t, d);
      assert r == Walk(ring, need, s, d);
      if |t.chosen| > |s.chosen| {
        assert r.chosen[..|t.chosen|] == t.chosen;
        assert r.chosen[|s.chosen|] == ring[Wrap(ring, s.idx)].member;
      }
      WalkLeavesOthers(ring, need, t, d, id);
    }
  }

  /** Each member the walk picks pays exactly one piece. */
  lemma {:induction false} WalkChargesPicked(ring: seq<Entry>, need: nat, s: WalkState, d: nat, k: nat)
    requires WalkPre(ring, need, s, d)
    requires |s.chosen| <= k < need
    ensures var r := Walk(ring, need, s, d);
      Quota(r.pieces, r.chosen[k].id) == Quota(s.pieces, r.chosen[k].id) - 1
    decreases Remaining(ring, need, s, d)
  {
    StepProgress(ring, need, s, d);
    var t := Step(ring, s);
    var r := Walk(ring, need, t, d);
    assert r == Walk(ring, need, s, d);
    if |t.chosen| > |s.chosen| {
      var m := ring[Wrap(ring, s.idx)].member;
      assert r.chosen[..|t.chosen|] == t.chosen;
      assert r.chosen[|s.chosen|] == m;
      if k == |s.chosen| {
        forall j | |t.chosen| <= j < need
          ensures IdsOf(r.chosen)[j] != m.id
        {
          assert IdsOf(r.chosen)[j] != IdsOf(r.chosen)[|s.chosen|];
        }
        WalkLeavesOthers(ring, need, t, d, m.id);
      } else {
        WalkChargesPicked(ring, need, t, d, k);
        assert IdsOf(r.chosen)[k] != IdsOf(r.chosen)[|s.chosen|];
      }
    } else {
      WalkChargesPicked(ring, need, t, d, k);
    }
  }

  /** The walk spends exactly one piece per replica it still had to find. */
  lemma {:induction false} WalkSpendsExactly(ring: seq<Entry>, need: nat, s: WalkState, d: nat)
    requires WalkPre(ring, need, s, d)
    ensures SumQuota(Walk(ring, need, s, d).pieces, RingIds(ring))
      == SumQuota(s.pieces, RingIds(ring)) - (need - |s.chosen|) as real
    decreases Remaining(ring, need, s, d)
  {
    if |s.chosen| < need {
      StepProgress(ring, need, s, d);
      StepSpends(ring, need, s, d);
      WalkSpendsExactly(ring, need, Step(ring, s), d);
    }
  }

  /** A pass that picks a member spends one piece; any other pass spends none. */
  lemma StepSpends(ring: seq<Entry>, need: nat, s: WalkState, d: nat)
    requires WalkPre(ring, need, s, d) && |s.chosen| < need
    ensures var t := Step(ring, s);
      SumQuota(t.pieces, RingIds(ring)) == SumQuota(s.pieces, RingIds(ring)) - (|t.chosen| - |s.chosen|) as real
  {
    var t := Step(ring, s);
    var m := ring[Wrap(ring, s.idx)].member;
    if |t.chosen| > |s.chosen| {
      assert m.id in RingIds(ring);
      SumQuotaUpdate(s.pieces, RingIds(ring), m.id, Quota(s.pieces, m.id) - 1);
    }
  }

  /** How far below zero any ring member's count is, at most. */
  function MaxDeficit(ring: seq<Entry>, pieces: map<string, int>): (r: nat)
    ensures forall j :: 0 <= j < |ring| ==> Quota(pieces, ring[j].member.id) >= -(r as int)
    decreases |ring|
  {
    if |ring| == 0 then 0
    else
      var rest := MaxDeficit(ring[1..], pieces);
      var here := Quota(pieces, ring[0].member.id);
      assert forall j :: 1 <= j < |ring| ==> ring[j] == ring[1..][j - 1];
      if -here > rest then -here else rest
  }

  /** What `distribute` guarantees before each call of `fillClosest`: the
      ring holds at least `need` distinct ids, every ring id has a count,
      and some ring member has a piece left. */
  ghost predicate FillPre(ring: seq<Entry>, need: nat, pieces: map<string, int>) {
    && 0 < |ring|
    && need <= |RingIds(ring)|
    && RingIds(ring) <= pieces.Keys
    && exists j :: 0 <= j < |ring| && Quota(pieces, ring[j].member.id) > 0
  }

  /** The walk starts with the loop invariant in place, at any index. */
  lemma StartReady(ring: seq<Entry>, need: nat, pieces: map<string, int>, idx: nat)
    requires FillPre(ring, need, pieces) && idx <= |ring|
    ensures WalkPre(ring, need, WalkState(idx, [], 0, pieces), MaxDeficit(ring, pieces) + 1)
  {
  }

  /** `fillClosest`: the walk from the first ring entry with hash at least `h`. */
  function FillClosest(ring: seq<Entry>, h: Hash64, need: nat, pieces: map<string, int>): (r: WalkState)
    requires FillPre(ring, need, pieces)
    ensures |r.chosen| == need
    ensures Distinct(IdsOf(r.chosen))
    ensures forall k :: 0 <= k < need ==> r.chosen[k] in RingMembers(ring)
    ensures r.pieces.Keys == pieces.Keys
  {
    StartReady(ring, need, pieces, FirstAtOrAbove(ring, h));
    Walk(ring, need, WalkState(FirstAtOrAbove(ring, h), [], 0, pieces), MaxDeficit(ring, pieces) + 1)
  }

  /** One call spends exactly `need` pieces in total over the ring's members. */
  lemma FillClosestSpends(ring: seq<Entry>, h: Hash64, need: nat, pieces: map<string, int>)
    requires FillPre(ring, need, pieces)
    ensures SumQuota(FillClosest(ring, h, need, pieces).pieces, RingIds(ring))
      == SumQuota(pieces, RingIds(ring)) - need as real
  {
    StartReady(ring, need, pieces, FirstAtOrAbove(ring, h));
    WalkSpendsExactly(ring, need, WalkState(FirstAtOrAbove(ring, h), [], 0, pieces), MaxDeficit(ring, pieces) + 1);
  }

  /** Each picked member pays one piece; every other count is unchanged. */
  lemma FillClosestAccounting(ring: seq<Entry>, h: Hash64, need: nat, pieces: map<string, int>)
    requires FillPre(ring, need, pieces)
    ensures var r := FillClosest(ring, h, need, pieces);
      && (forall k :: 0 <= k < need ==> Quota(r.pieces, r.chosen[k].id) == Quota(pieces, r.chosen[k].id) - 1)
      && (forall id :: id !in IdsOf(r.chosen) ==> Quota(r.pieces, id) == Quota(pieces, id))
  {
    var s := WalkState(FirstAtOrAbove(ring, h), [], 0, pieces);
    var d := MaxDeficit(ring, pieces) + 1;
    StartReady(ring, need, pieces, s.idx);
    var r := Walk(ring, need, s, d);
    forall k | 0 <= k < need
      ensures Quota(r.pieces, r.chosen[k].id) == Quota(pieces, r.chosen[k].id) - 1
    {
      WalkChargesPicked(ring, need, s, d, k);
    }
    forall id | id !in IdsOf(r.chosen)
      ensures Quota(r.pieces, id) == Quota(pieces, id)
    {
      WalkLeavesOthers(ring, need, s, d, id);
    }
  }

  /** The three outcomes of one pass, stated for the loop's use. */
  lemma StepCases(ring: seq<Entry>, s: WalkState)
    requires 0 < |ring| && s.idx <= |ring|
    ensures var i := Wrap(ring, s.idx); var m := ring[i].member;
      && (m.id in IdsOf(s.chosen) ==> Step(ring, s) == WalkState(i + 1, s.chosen, s.overflow + 1, s.pieces))
      && (m.id !in IdsOf(s.chosen) && Quota(s.pieces, m.id) > -(s.overflow as int) ==>
            Step(ring, s) == WalkState(i + 1, s.chosen + [m], s.overflow, s.pieces[m.id := Quota(s.pieces, m.id) - 1]))
      && (m.id !in IdsOf(s.chosen) && Quota(s.pieces, m.id) <= -(s.overflow as int) ==>
            Step(ring, s) == WalkState(i + 1, s.chosen, s.overflow, s.pieces))
  {
  }

  /** One pass keeps the loop's invariant and brings the walk closer to its end. */
  lemma PassKeepsInvariant(ring: seq<Entry>, need: nat, s: WalkState, d: nat, goal: WalkState)
    requires WalkPre(ring, need, s, d) && |s.chosen| < need
    requires Walk(ring, need, s, d) == goal
    ensures WalkPre(ring, need, Step(ring, s), d)
    ensures Walk(ring, need, Step(ring, s), d) == goal
    ensures Remaining(ring, need, Step(ring, s), d) < Remaining(ring, need, s, d)
  {
    StepProgress(ring, need, s, d);
  }

  /** The walk `FillClosest` runs, with its invariant in place at the start. */
  lemma FillClosestStart(ring: seq<Entry>, h: Hash64, need: nat, pieces: map<string, int>)
    requires FillPre(ring, need, pieces)
    ensures var s := WalkState(FirstAtOrAbove(ring, h), [], 0, pieces);
      && WalkPre(ring, need, s, MaxDeficit(ring, pieces) + 1)
      && FillClosest(ring, h, need, pieces) == Walk(ring, need, s, MaxDeficit(ring, pieces) + 1)
  {
    StartReady(ring, need, pieces, FirstAtOrAbove(ring, h));
  }

  /** One pass through the body of the `fillClosest` loop, with the
      source's statements: it keeps the loop invariant, does not change
      where the walk ends, and brings that end closer. */
  method LoopBody(ring: seq<Entry>, ghost need: nat, ghost d: nat,
                  idx0: nat, chosen0: seq<Member>, overflow0: nat, pieces0: map<string, int>)
    returns (idx: nat, chosen: seq<Member>, overflow: nat, pieces: map<string, int>)
    requires WalkPre(ring, need, WalkState(idx0, chosen0, overflow0, pieces0), d) && |chosen0| < need
    ensures WalkPre(ring, need, WalkState(idx, chosen, overflow, pieces), d)
    ensures Walk(ring, need, WalkState(idx, chosen, overflow, pieces), d)
      == Walk(ring, need, WalkState(idx0, chosen0, overflow0, pieces0), d)
    ensures Remaining(ring, need, WalkState(idx, chosen, overflow, pieces), d)
      < Remaining(ring, need, WalkState(idx0, chosen0, overflow0, pieces0), d)
  {
    ghost var s := WalkState(idx0, chosen0, overflow0, pieces0);
    PassKeepsInvariant(ring, need, s, d, Walk(ring, need, s, d));
    StepCases(ring, s);
    idx, chosen, overflow, pieces := idx0, chosen0, overflow0, pieces0;
    if idx == |ring| {
      idx := 0;
    }
    var m := ring[idx].member;
    if m.id in IdsOf(chosen) {
      overflow := overflow + 1;
    } else if Quota(pieces, m.id) > -(overflow as int) {
      pieces := pieces[m.id := Quota(pieces, m.id) - 1];
      chosen := chosen + [m];
    }
    idx := idx + 1;
    assert WalkState(idx, chosen, overflow, pieces) == Step(ring, s);
  }

  /** `fillClosest`: bisect for the start, then pass through the loop body
      until `need` distinct members are found. */
  method FillClosestLoop(ring: seq<Entry>, h: Hash64, need: nat, pieces0: map<string, int>)
    returns (chosen: seq<Member>, pieces: map<string, int>)
    requires Sorted(ring)
    requires FillPre(ring, need, pieces0)
    ensures chosen == FillClosest(ring, h, need, pieces0).chosen
    ensures pieces == FillClosest(ring, h, need, pieces0).pieces
  {
    var idx: nat := SearchFirstAtOrAbove(ring, h);
    var overflow: nat := 0;
    chosen := [];
    pieces := pieces0;
    ghost var d := MaxDeficit(ring, pieces0) + 1;
    ghost var start := WalkState(idx, [], 0, pieces0);
    FillClosestStart(ring, h, need, pieces0);
    while |chosen| < need
      invariant WalkPre(ring, need, WalkState(idx, chosen, overflow, pieces), d)
      invariant Walk(ring, need, WalkState(idx, chosen, overflow, pieces), d) == Walk(ring, need, start, d)
      decreases Remaining(ring, need, WalkState(idx, chosen, overflow, pieces), d)
    {
      idx, chosen, overflow, pieces := LoopBody(ring, need, d, idx, chosen, overflow, pieces);
    }
  }

  /** `n` passes through the loop body, with no exit test. */
  function Steps(ring: seq<Entry>, s: WalkState, n: nat): (r: WalkState)
    requires 0 < |ring| && s.idx <= |ring|
    ensures r.idx <= |ring|
    decreases n
  {
    if n == 0 then s else Steps(ring, Step(ring, s), n - 1)
  }

  /** On a ring whose every entry carries one id, no number of passes
      gathers more than one replica: a walk that needs two distinct members
      never leaves its loop. */
  lemma {:induction false} OneIdRingStalls(ring: seq<Entry>, id: string, s: WalkState, n: nat)
    requires 0 < |ring| && s.idx <= |ring|
    requires forall j :: 0 <= j < |ring| ==> ring[j].member.id == id
    requires |s.chosen| <= 1 && forall k :: 0 <= k < |s.chosen| ==> s.chosen[k].id == id
    ensures |Steps(ring, s, n).chosen| <= 1
    decreases n
  {
    if n > 0 {
      var t := Step(ring, s);
      if |s.chosen| == 1 {
        assert IdsOf(s.chosen) == [id];
      }
      assert forall k :: 0 <= k < |t.chosen| ==> t.chosen[k].id == id;
      OneIdRingStalls(ring, id, t, n - 1);
    }
  }
}
