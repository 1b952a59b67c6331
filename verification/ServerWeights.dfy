/** What both weighted schedulers are built from: weights by server id, and the ids in order. */
module ServerWeights {
  import opened Bytes
  import opened ByteOrder

  type Id = Bytes

  ghost predicate Distinct(keys: seq<Id>) {
    forall i, j :: 0 <= i < j < |keys| ==> keys[i] != keys[j]
  }

  ghost predicate Ascending(keys: seq<Id>) {
    forall i, j :: 0 <= i < j < |keys| ==> Below(keys[i], keys[j])
  }

  ghost predicate Lists(keys: seq<Id>, ids: set<Id>) {
    forall k :: k in keys <==> k in ids
  }

  /** A map read as the program reads it: a missing key has weight zero. */
  function Get(m: map<Id, int>, k: Id): int {
    if k in m then m[k] else 0
  }

  function Sum(keys: seq<Id>, m: map<Id, int>): int {
    if keys == [] then 0 else Get(m, keys[0]) + Sum(keys[1..], m)
  }

  lemma {:induction false} SumSame(keys: seq<Id>, m: map<Id, int>, m': map<Id, int>)
    requires forall k | k in keys :: Get(m', k) == Get(m, k)
    ensures Sum(keys, m') == Sum(keys, m)
  {
    if keys == [] {
    } else {
      SumSame(keys[1..], m, m');
    }
  }

  /** Changing one entry changes the sum by as much. */
  lemma {:induction false} SumUpdate(keys: seq<Id>, m: map<Id, int>, k: Id, v: int)
    requires Distinct(keys) && k in keys
    ensures Sum(keys, m[k := v]) == Sum(keys, m) - Get(m, k) + v
  {
    if keys[0] == k {
      SumSame(keys[1..], m, m[k := v]);
    } else {
      SumUpdate(keys[1..], m, k, v);
    }
  }

  lemma {:induction false} SumAdds(keys: seq<Id>, a: map<Id, int>, b: map<Id, int>, c: map<Id, int>)
    requires forall k | k in keys :: Get(c, k) == Get(a, k) + Get(b, k)
    ensures Sum(keys, c) == Sum(keys, a) + Sum(keys, b)
  {
    if keys == [] {
    } else {
      SumAdds(keys[1..], a, b, c);
    }
  }

  /** Some entry is positive when the sum is. */
  lemma {:induction false} PositiveSum(keys: seq<Id>, m: map<Id, int>) returns (k: Id)
    requires Sum(keys, m) > 0
    ensures k in keys && Get(m, k) > 0
  {
    if Get(m, keys[0]) > 0 {
      k := keys[0];
    } else {
      k := PositiveSum(keys[1..], m);
    }
  }

  lemma {:induction false} SumAtLeast(keys: seq<Id>, m: map<Id, int>, low: int)
    requires forall k | k in keys :: Get(m, k) >= low
    ensures Sum(keys, m) >= low * |keys|
  {
    if keys == [] {
    } else {
      SumAtLeast(keys[1..], m, low);
    }
  }

  /** When nothing is below `low`, one entry holds at most what the others leave of the sum. */
  lemma {:induction false} SumLeaves(keys: seq<Id>, m: map<Id, int>, low: int, k: Id)
    requires (forall j | j in keys :: Get(m, j) >= low) && k in keys
    ensures Get(m, k) + low * (|keys| - 1) <= Sum(keys, m)
  {
    if keys[0] == k {
      SumAtLeast(keys[1..], m, low);
    } else {
      SumLeaves(keys[1..], m, low, k);
    }
  }

  /** All entries are zero when the sum is and none is negative. */
  lemma ZeroSum(keys: seq<Id>, m: map<Id, int>, k: Id)
    requires (forall j | j in keys :: Get(m, j) >= 0) && Sum(keys, m) == 0 && k in keys
    ensures Get(m, k) == 0
  {
    SumLeaves(keys, m, 0, k);
  }

  /** The ids of a weight map in ascending order. */
  method SortKeys(weights: map<Id, int>) returns (keys: seq<Id>)
    ensures Lists(keys, weights.Keys) && Ascending(keys) && Distinct(keys)
  {
    var rest := weights.Keys;
    keys := [];
    while rest != {}
      invariant rest <= weights.Keys && Lists(keys, weights.Keys - rest) && Ascending(keys)
    {
      var k :| k in rest;
      rest := rest - {k};
      keys := InsertKey(keys, k);
    }
    forall i, j | 0 <= i < j < |keys| ensures keys[i] != keys[j] {
      BelowTotal(keys[i], keys[j]);
    }
  }

  method InsertKey(keys: seq<Id>, k: Id) returns (r: seq<Id>)
    requires Ascending(keys) && k !in keys
    ensures Ascending(r) && forall j :: j in r <==> j == k || j in keys
  {
    var i := 0;
    while i < |keys| && Below(keys[i], k)
      invariant 0 <= i <= |keys|
      invariant forall j | 0 <= j < i :: Below(keys[j], k)
    {
      i := i + 1;
    }
    r := keys[..i] + [k] + keys[i..];
    forall j | i <= j < |keys| ensures Below(k, keys[j]) {
      BelowTotal(k, keys[i]);
      if i < j {
        BelowTransitive(k, keys[i], keys[j]);
      }
    }
    assert forall j :: j in keys <==> j in keys[..i] || j in keys[i..];
  }

  method AddWeights(weights: map<Id, int>, ghost keys: seq<Id>) returns (sum: int)
    requires Lists(keys, weights.Keys) && Distinct(keys)
    ensures sum == Sum(keys, weights)
  {
    var rest := weights.Keys;
    sum := 0;
    ghost var counted := map k | k in weights :: 0;
    SumOfZeros(keys, counted);
    while rest != {}
      invariant rest <= weights.Keys && counted.Keys == weights.Keys
      invariant forall k | k in weights :: counted[k] == if k in rest then 0 else weights[k]
      invariant sum == Sum(keys, counted)
    {
      var k :| k in rest;
      SumUpdate(keys, counted, k, weights[k]);
      counted := counted[k := weights[k]];
      sum := sum + weights[k];
      rest := rest - {k};
    }
    SumSame(keys, weights, counted);
  }

  lemma {:induction false} SumOfZeros(keys: seq<Id>, m: map<Id, int>)
    requires forall k | k in keys :: Get(m, k) == 0
    ensures Sum(keys, m) == 0
  {
    if keys == [] {
    } else {
      SumOfZeros(keys[1..], m);
    }
  }

  datatype Verdict = Accepted | EmptyWeights | WrongSum

  /** What the weights are worth, given their ids in order. */
  function VerdictOn(weights: map<Id, int>, keys: seq<Id>): Verdict {
    if weights == map[] then EmptyWeights else if Sum(keys, weights) != 100 then WrongSum else Accepted
  }

  /** What both constructors check before they sort the ids. */
  method CheckWeights(weights: map<Id, int>) returns (verdict: Verdict, keys: seq<Id>)
    ensures Lists(keys, weights.Keys) && Distinct(keys) && Ascending(keys)
    ensures verdict == VerdictOn(weights, keys)
    ensures verdict.EmptyWeights? <==> weights == map[]
    ensures verdict.Accepted? <==> Sum(keys, weights) == 100
  {
    keys := SortKeys(weights);
    if |weights| == 0 {
      return EmptyWeights, keys;
    }
    var sum := AddWeights(weights, keys);
    verdict := if sum != 100 then WrongSum else Accepted;
  }
}
