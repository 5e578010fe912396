/** Sums of a real-valued function over a finite set of keys, independent of
    the order in which the keys are visited (a Go map is visited in an
    unspecified order). */
module Sums {

  /** Some key of a non-empty set: the map's next key in iteration order. */
  ghost function Pick(keys: set<string>): string
    requires keys != {}
  {
    var k :| k in keys; k
  }

  ghost function SumOf(f: string -> real, keys: set<string>): real
    decreases keys
  {
    if keys == {} then 0.0 else f(Pick(keys)) + SumOf(f, keys - {Pick(keys)})
  }

  /** Any key may be taken out first: the sum does not depend on the order. */
  lemma {:induction false} SumRemove(f: string -> real, keys: set<string>, k: string)
    requires k in keys
    ensures SumOf(f, keys) == f(k) + SumOf(f, keys - {k})
    decreases keys
  {
    var j := Pick(keys);
    if j != k {
      SumRemove(f, keys - {j}, k);
      SumRemove(f, keys - {k}, j);
      assert keys - {j} - {k} == keys - {k} - {j};
    }
  }

  lemma {:induction false} SumFrame(f: string -> real, g: string -> real, keys: set<string>)
    requires forall k :: k in keys ==> f(k) == g(k)
    ensures SumOf(f, keys) == SumOf(g, keys)
    decreases keys
  {
    if keys != {} {
      var k := Pick(keys);
      SumFrame(f, g, keys - {k});
    }
  }

  /** Changing the value at one key changes the sum by the difference. */
  lemma SumUpdate(f: string -> real, g: string -> real, keys: set<string>, k: string)
    requires k in keys
    requires forall x :: x in keys && x != k ==> f(x) == g(x)
    ensures SumOf(g, keys) == SumOf(f, keys) - f(k) + g(k)
  {
    SumRemove(f, keys, k);
    SumRemove(g, keys, k);
    SumFrame(f, g, keys - {k});
  }

  lemma {:induction false} SumStrictlyAbove(f: string -> real, g: string -> real, keys: set<string>)
    requires keys != {}
    requires forall k :: k in keys ==> f(k) > g(k)
    ensures SumOf(f, keys) > SumOf(g, keys)
    decreases keys
  {
    var k := Pick(keys);
    if keys - {k} != {} {
      SumStrictlyAbove(f, g, keys - {k});
    }
  }

  lemma {:induction false} SumScale(f: string -> real, g: string -> real, c: real, keys: set<string>)
    requires forall k :: k in keys ==> g(k) == c * f(k)
    ensures SumOf(g, keys) == c * SumOf(f, keys)
    decreases keys
  {
    if keys != {} {
      var k := Pick(keys);
      SumScale(f, g, c, keys - {k});
    }
  }

  lemma {:induction false} SumPositive(f: string -> real, keys: set<string>)
    requires keys != {}
    requires forall k :: k in keys ==> f(k) > 0.0
    ensures SumOf(f, keys) > 0.0
    decreases keys
  {
    var k := Pick(keys);
    if keys - {k} != {} {
      SumPositive(f, keys - {k});
    }
  }

  /** A positive sum has a positive term. */
  lemma {:induction false} SumPositiveWitness(f: string -> real, keys: set<string>) returns (k: string)
    requires SumOf(f, keys) > 0.0
    ensures k in keys && f(k) > 0.0
    decreases keys
  {
    var j := Pick(keys);
    if f(j) > 0.0 {
      k := j;
    } else {
      k := SumPositiveWitness(f, keys - {j});
    }
  }
}
