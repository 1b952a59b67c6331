/** Counting arguments the booking protocols share. */
module Counting {
  /** The numbers below `n`. */
  function Below(n: nat): (s: set<nat>)
    ensures forall i: nat :: i in s <==> i < n
    ensures |s| == n
  {
    if n == 0 then {} else Below(n - 1) + {n - 1}
  }

  lemma AllButOne(n: nat, w: nat)
    requires w < n
    ensures |Below(n) - {w}| == n - 1
  {
    assert Below(n) == (Below(n) - {w}) + {w};
  }

  ghost predicate Injects(f: map<nat, nat>, a: set<nat>, b: set<nat>) {
    && (forall x | x in a :: x in f && f[x] in b)
    && (forall x, y | x in a && y in a && f[x] == f[y] :: x == y)
  }

  /** A set that maps one to one into another is no larger. */
  lemma {:induction false} InjectionBounds(f: map<nat, nat>, a: set<nat>, b: set<nat>)
    requires Injects(f, a, b)
    ensures |a| <= |b|
    decreases a
  {
    if a != {} {
      var x :| x in a;
      InjectionBounds(f, a - {x}, b - {f[x]});
    }
  }

  lemma SubsetBounds(a: set<nat>, b: set<nat>)
    requires a <= b
    ensures |a| <= |b| && (|a| == |b| ==> a == b)
  {
    assert |b| == |a| + |b - a| by {
      assert b == a + (b - a);
    }
    if |a| == |b| {
      assert b - a == {};
    }
  }

  function Total(ns: seq<nat>): nat {
    if ns == [] then 0 else ns[0] + Total(ns[1..])
  }

  /** Lowering one entry lowers the total by as much. */
  lemma {:induction false} TotalUpdate(ns: seq<nat>, i: nat, v: nat)
    requires i < |ns|
    ensures Total(ns[i := v]) == Total(ns) - ns[i] + v
  {
    if i == 0 {
      assert ns[0 := v][1..] == ns[1..];
    } else {
      assert ns[i := v][1..] == ns[1..][i - 1 := v];
      TotalUpdate(ns[1..], i - 1, v);
    }
  }

  lemma {:induction false} TotalOfSame(ns: seq<nat>, v: nat)
    requires forall i | 0 <= i < |ns| :: ns[i] == v
    ensures Total(ns) == |ns| * v
  {
    if ns == [] {
    } else {
      TotalOfSame(ns[1..], v);
    }
  }
}
