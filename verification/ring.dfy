/** The ring of virtual member positions, kept sorted by (hash, id). */
module Ring {
  import opened Strings

  /** An unsigned 64-bit hash value. */
  type Hash64 = h: nat | h < 0x1_0000_0000_0000_0000

  /** A cluster member: its identity and its capacity (relative weight). */
  datatype Member = Member(id: string, capacity: real)

  /** A virtual position on the ring: a hash and the member it stands for. */
  datatype Entry = Entry(hash: Hash64, member: Member)

  /** `members.Less`: ascending by hash, ties broken by member id. */
  predicate Less(a: Entry, b: Entry) {
    if a.hash == b.hash then StrLess(a.member.id, b.member.id) else a.hash < b.hash
  }

  predicate SameKey(a: Entry, b: Entry) {
    a.hash == b.hash && a.member.id == b.member.id
  }

  /** The order `sort.Sort` leaves behind: no entry is Less than an earlier one. */
  predicate Sorted(ring: seq<Entry>) {
    forall i, j :: 0 <= i < j < |ring| ==> !Less(ring[j], ring[i])
  }

  /** Entries with the same sort key are the same entry. */
  predicate KeysDetermine(s: seq<Entry>) {
    forall i, j :: 0 <= i < |s| && 0 <= j < |s| && SameKey(s[i], s[j]) ==> s[i] == s[j]
  }

  function RingIds(ring: seq<Entry>): set<string> {
    set j | 0 <= j < |ring| :: ring[j].member.id
  }

  function RingMembers(ring: seq<Entry>): set<Member> {
    set j | 0 <= j < |ring| :: ring[j].member
  }

  lemma LessIrreflexive(a: Entry)
    ensures !Less(a, a)
  {
    StrLessIrreflexive(a.member.id);
  }

  /** "Not less than" is transitive. */
  lemma NotLessTransitive(a: Entry, b: Entry, c: Entry)
    requires !Less(b, a) && !Less(c, b)
    ensures !Less(c, a)
  {
    if a.hash == b.hash == c.hash {
      StrLessTotal(a.member.id, b.member.id);
      StrLessTotal(b.member.id, c.member.id);
      if StrLess(c.member.id, a.member.id) {
        if a.member.id != b.member.id && b.member.id != c.member.id {
          StrLessTransitive(a.member.id, b.member.id, c.member.id);
          StrLessAsymmetric(a.member.id, c.member.id);
        } else {
          StrLessAsymmetric(c.member.id, a.member.id);
        }
      }
    }
  }

  lemma LessAsymmetric(a: Entry, b: Entry)
    requires Less(a, b)
    ensures !Less(b, a)
  {
    if a.hash == b.hash {
      StrLessAsymmetric(a.member.id, b.member.id);
    }
  }

  /** Two entries neither of which is Less than the other share their key. */
  lemma NotLessBothWays(a: Entry, b: Entry)
    requires !Less(a, b) && !Less(b, a)
    ensures SameKey(a, b)
  {
    StrLessTotal(a.member.id, b.member.id);
  }

  /** On a sorted ring the hashes never decrease. */
  lemma SortedHashes(ring: seq<Entry>, i: int, j: int)
    requires Sorted(ring) && 0 <= i <= j < |ring|
    ensures ring[i].hash <= ring[j].hash
  {
    if i < j {
      assert !Less(ring[j], ring[i]);
    }
  }

  /** Puts `e` in front of the first entry that is not Less than it. */
  function Insert(e: Entry, s: seq<Entry>): (r: seq<Entry>)
    ensures multiset(r) == multiset(s) + multiset{e}
    decreases |s|
  {
    if |s| == 0 || !Less(s[0], e) then [e] + s
    else
      assert s == [s[0]] + s[1..];
      [s[0]] + Insert(e, s[1..])
  }

  lemma {:induction false} InsertSorted(e: Entry, s: seq<Entry>)
    requires Sorted(s)
    ensures Sorted(Insert(e, s))
    decreases |s|
  {
    if |s| == 0 || !Less(s[0], e) {
      var r := [e] + s;
      forall i, j | 0 <= i < j < |r|
        ensures !Less(r[j], r[i])
      {
        if i == 0 {
          if j > 1 {
            NotLessTransitive(e, s[0], s[j - 1]);
          }
        }
      }
    } else {
      InsertSorted(e, s[1..]);
      var t := Insert(e, s[1..]);
      var r := [s[0]] + t;
      forall i, j | 0 <= i < j < |r|
        ensures !Less(r[j], r[i])
      {
        if i == 0 {
          var x := r[j];
          assert x in multiset(t);
          assert x in multiset(s[1..]) + multiset{e};
          if x == e {
            LessAsymmetric(s[0], e);
          } else {
            assert x in s[1..];
            var k :| 0 <= k < |s[1..]| && s[1..][k] == x;
            assert s[k + 1] == x;
          }
        } else {
          assert r[i] == t[i - 1] && r[j] == t[j - 1];
        }
      }
    }
  }

  /** The ring `sort.Sort` produces: a sorted permutation of its input. */
  function Sort(s: seq<Entry>): (r: seq<Entry>)
    ensures Sorted(r)
    ensures multiset(r) == multiset(s)
    decreases |s|
  {
    if |s| == 0 then []
    else
      var init := s[..|s| - 1];
      assert s == init + [s[|s| - 1]];
      InsertSorted(s[|s| - 1], Sort(init));
      Insert(s[|s| - 1], Sort(init))
  }

  /** The head of a sorted sequence is not above any of its elements. */
  lemma SortedHeadIsLeast(a: seq<Entry>, x: Entry)
    requires Sorted(a) && x in multiset(a)
    ensures |a| > 0 && !Less(x, a[0])
  {
    var k :| 0 <= k < |a| && a[k] == x;
    if k > 0 {
      assert !Less(a[k], a[0]);
    } else {
      LessIrreflexive(x);
    }
  }

  /** When equal keys mean equal entries, the sorted arrangement of a
      collection of entries is unique, whatever order they arrived in. */
  lemma {:induction false} SortedUnique(a: seq<Entry>, b: seq<Entry>)
    requires Sorted(a) && Sorted(b)
    requires multiset(a) == multiset(b)
    requires KeysDetermine(a)
    ensures a == b
    decreases |a|
  {
    if |a| > 0 {
      assert a[0] in multiset(a);
      SortedHeadIsLeast(b, a[0]);
      SortedHeadIsLeast(a, b[0]);
      NotLessBothWays(a[0], b[0]);
      var m :| 0 <= m < |a| && a[m] == b[0];
      assert a[0] == b[0];
      HeadTailMultiset(a);
      HeadTailMultiset(b);
      SortedUnique(a[1..], b[1..]);
      forall i | 0 <= i < |a|
        ensures a[i] == b[i]
      {
        if i > 0 {
          assert a[i] == a[1..][i - 1] && b[i] == b[1..][i - 1];
        }
      }
    }
  }

  lemma HeadTailMultiset(a: seq<Entry>)
    requires |a| > 0
    ensures multiset(a[1..]) == multiset(a) - multiset{a[0]}
    ensures Sorted(a) ==> Sorted(a[1..])
    ensures KeysDetermine(a) ==> KeysDetermine(a[1..])
  {
    assert a == [a[0]] + a[1..];
  }

  /** `RemoveMembers`' in-place compaction: keeps, in order, the entries
      whose member id is not in `ids`. */
  function Discard(ring: seq<Entry>, ids: seq<string>): (r: seq<Entry>)
    ensures forall k :: 0 <= k < |r| ==> r[k].member.id !in ids
    ensures forall e :: multiset(r)[e] == if e.member.id in ids then 0 else multiset(ring)[e]
    decreases |ring|
  {
    if |ring| == 0 then []
    else
      assert ring == [ring[0]] + ring[1..];
      (if ring[0].member.id in ids then [] else [ring[0]]) + Discard(ring[1..], ids)
  }

  /** A surviving entry of the ring is somewhere in the compaction. */
  lemma DiscardHas(ring: seq<Entry>, ids: seq<string>, j: nat) returns (q: nat)
    requires j < |ring| && ring[j].member.id !in ids
    ensures q < |Discard(ring, ids)| && Discard(ring, ids)[q] == ring[j]
  {
    assert ring[j] in multiset(ring);
    assert ring[j] in multiset(Discard(ring, ids));
    q :| q < |Discard(ring, ids)| && Discard(ring, ids)[q] == ring[j];
  }

  /** `x` occurs in `r` at some position before an occurrence of `y`. */
  ghost predicate InOrder(r: seq<Entry>, x: Entry, y: Entry) {
    exists p, q :: 0 <= p < q < |r| && r[p] == x && r[q] == y
  }

  lemma InOrderCons(x0: Entry, t: seq<Entry>, x: Entry, y: Entry)
    requires InOrder(t, x, y)
    ensures InOrder([x0] + t, x, y)
  {
    var p, q :| 0 <= p < q < |t| && t[p] == x && t[q] == y;
    assert ([x0] + t)[p + 1] == x && ([x0] + t)[q + 1] == y;
  }

  lemma InOrderHead(x: Entry, t: seq<Entry>, y: Entry, q: nat)
    requires q < |t| && t[q] == y
    ensures InOrder([x] + t, x, y)
  {
    assert ([x] + t)[0] == x && ([x] + t)[q + 1] == y;
  }

  /** One step of the compaction: the head stays exactly when its id is kept. */
  lemma DiscardStep(ring: seq<Entry>, ids: seq<string>)
    requires |ring| > 0
    ensures ring[0].member.id in ids ==> Discard(ring, ids) == Discard(ring[1..], ids)
    ensures ring[0].member.id !in ids ==> Discard(ring, ids) == [ring[0]] + Discard(ring[1..], ids)
  {
  }

  /** A dropped head leaves the order of the later survivors as it was. */
  lemma OrderPastDropped(ring: seq<Entry>, ids: seq<string>, x: Entry, y: Entry)
    requires |ring| > 0 && ring[0].member.id in ids
    requires InOrder(Discard(ring[1..], ids), x, y)
    ensures InOrder(Discard(ring, ids), x, y)
  {
    DiscardStep(ring, ids);
  }

  /** A kept head goes in front of the later survivors. */
  lemma OrderPastKept(ring: seq<Entry>, ids: seq<string>, x: Entry, y: Entry)
    requires |ring| > 0 && ring[0].member.id !in ids
    requires InOrder(Discard(ring[1..], ids), x, y)
    ensures InOrder(Discard(ring, ids), x, y)
  {
    DiscardStep(ring, ids);
    InOrderCons(ring[0], Discard(ring[1..], ids), x, y);
  }

  /** A kept head comes before every later survivor. */
  lemma OrderFromKept(ring: seq<Entry>, ids: seq<string>, j: nat)
    requires 0 < j < |ring| && ring[0].member.id !in ids && ring[j].member.id !in ids
    ensures InOrder(Discard(ring, ids), ring[0], ring[j])
  {
    DiscardStep(ring, ids);
    assert ring[1..][j - 1] == ring[j];
    var q := DiscardHas(ring[1..], ids, j - 1);
    InOrderHead(ring[0], Discard(ring[1..], ids), ring[j], q);
  }

  /** The compaction keeps the survivors' relative order: two surviving
      entries appear in the result in the order they had on the ring. */
  lemma {:induction false} DiscardKeepsOrder(ring: seq<Entry>, ids: seq<string>, i: nat, j: nat)
    requires i < j < |ring|
    requires ring[i].member.id !in ids && ring[j].member.id !in ids
    ensures InOrder(Discard(ring, ids), ring[i], ring[j])
    decreases |ring|
  {
    if i == 0 {
      OrderFromKept(ring, ids, j);
    } else {
      assert ring[1..][i - 1] == ring[i] && ring[1..][j - 1] == ring[j];
      DiscardKeepsOrder(ring[1..], ids, i - 1, j - 1);
      if ring[0].member.id in ids {
        OrderPastDropped(ring, ids, ring[i], ring[j]);
      } else {
        OrderPastKept(ring, ids, ring[i], ring[j]);
      }
    }
  }

  /** An entry not above any element of a sorted sequence may lead it. */
  lemma PrependSorted(x: Entry, t: seq<Entry>)
    requires Sorted(t)
    requires forall y :: y in multiset(t) ==> !Less(y, x)
    ensures Sorted([x] + t)
  {
    var r := [x] + t;
    forall i, j | 0 <= i < j < |r|
      ensures !Less(r[j], r[i])
    {
      assert r[j] == t[j - 1];
      if i > 0 {
        assert r[i] == t[i - 1];
      } else {
        assert r[j] in multiset(t);
      }
    }
  }

  /** The surviving entries keep their relative order, so the ring stays sorted. */
  lemma {:induction false} DiscardKeepsSorted(ring: seq<Entry>, ids: seq<string>)
    requires Sorted(ring)
    ensures Sorted(Discard(ring, ids))
    decreases |ring|
  {
    if |ring| > 0 {
      HeadTailMultiset(ring);
      var t := Discard(ring[1..], ids);
      DiscardKeepsSorted(ring[1..], ids);
      if ring[0].member.id !in ids {
        forall y | y in multiset(t)
          ensures !Less(y, ring[0])
        {
          assert y in multiset(ring[1..]);
          var k :| 0 <= k < |ring[1..]| && ring[1..][k] == y;
          assert ring[k + 1] == y;
        }
        PrependSorted(ring[0], t);
      }
    }
  }

  /** The least index whose hash is at least `h`, or `|ring|` if there is none. */
  function FirstAtOrAbove(ring: seq<Entry>, h: Hash64): (r: nat)
    ensures r <= |ring|
    ensures forall j :: 0 <= j < r ==> ring[j].hash < h
    ensures r < |ring| ==> ring[r].hash >= h
    decreases |ring|
  {
    if |ring| == 0 || ring[0].hash >= h then 0 else 1 + FirstAtOrAbove(ring[1..], h)
  }

  /** Only one index has all smaller hashes before it and a hash at least `h` at it. */
  lemma {:induction false} FirstAtOrAboveUnique(ring: seq<Entry>, h: Hash64, i: nat)
    requires i <= |ring|
    requires forall j :: 0 <= j < i ==> ring[j].hash < h
    requires i < |ring| ==> ring[i].hash >= h
    ensures i == FirstAtOrAbove(ring, h)
    decreases |ring|
  {
    if |ring| > 0 && ring[0].hash < h {
      assert i >= 1;
      FirstAtOrAboveUnique(ring[1..], h, i - 1);
    }
  }

  /** `sort.Search` for the first entry with hash at least `h`, by bisection. */
  method SearchFirstAtOrAbove(ring: seq<Entry>, h: Hash64) returns (idx: nat)
    requires Sorted(ring)
    ensures idx == FirstAtOrAbove(ring, h)
  {
    var lo, hi := 0, |ring|;
    while lo < hi
      invariant 0 <= lo <= hi <= |ring|
      invariant forall j :: 0 <= j < lo ==> ring[j].hash < h
      invariant forall j :: hi <= j < |ring| ==> ring[j].hash >= h
      decreases hi - lo
    {
      var mid := lo + (hi - lo) / 2;
      if ring[mid].hash < h {
        forall j | 0 <= j <= mid
          ensures ring[j].hash < h
        {
          SortedHashes(ring, j, mid);
        }
        lo := mid + 1;
      } else {
        forall j | mid <= j < |ring|
          ensures ring[j].hash >= h
        {
          SortedHashes(ring, mid, j);
        }
        hi := mid;
      }
    }
    idx := lo;
    FirstAtOrAboveUnique(ring, h, idx);
  }
}
