/** Smooth weighted round robin: every call raises each server's current weight by its fixed
    weight, picks the largest, and lowers that one by the total. */
module SmoothRoundRobin {
  import opened ServerWeights
  import opened Wrappers
  import Windows

  const MIN_INT := -0x8000_0000_0000_0000

  /** A scheduler and the servers it hands out; neither changes between calls. */
  datatype Config = Config(weights: map<Id, int>, keys: seq<Id>, servers: seq<Id>)

  /** What the constructor makes sure of. */
  ghost predicate WellFormed(c: Config) {
    Lists(c.keys, c.weights.Keys) && Distinct(c.keys) && Sum(c.keys, c.weights) == 100
  }

  function Raised(c: Config, cw: map<Id, int>): map<Id, int> {
    map k | k in c.weights :: Get(cw, k) + c.weights[k]
  }

  /** The first of the largest weights seen, starting from `max` held by `maxKey`. */
  function Largest(keys: seq<Id>, m: map<Id, int>, max: int, maxKey: Id): Id {
    if keys == [] then maxKey
    else if Get(m, keys[0]) > max then Largest(keys[1..], m, Get(m, keys[0]), keys[0])
    else Largest(keys[1..], m, max, maxKey)
  }

  /** The weights after a call and the server picked. A pick that is no configured server is
      an error, and then the weights stay raised. */
  function Step(c: Config, cw: map<Id, int>): (map<Id, int>, Option<Id>) {
    if c.servers == [] then (cw, None)
    else
      var raised := Raised(c, cw);
      var k := Largest(c.keys, raised, MIN_INT, []);
      if k !in c.servers || k !in raised then (raised, None)
      else (raised[k := raised[k] - 100], Some(k))
  }

  /** The current weights after `n` calls. */
  function Weights(c: Config, n: nat): (cw: map<Id, int>)
    ensures cw.Keys == c.weights.Keys
  {
    if n == 0 then map k | k in c.weights :: 0 else Step(c, Weights(c, n - 1)).0
  }

  /** What call number `n`, counted from zero, picks. */
  function Choice(c: Config, n: nat): Option<Id> {
    Step(c, Weights(c, n)).1
  }

  /** How often `k` is picked in the calls from `from` up to, not including, `until`. */
  function Picks(c: Config, k: Id, from: nat, until: nat): nat {
    Windows.Picks(Calls(c), k, from, until)
  }

  function Calls(c: Config): Windows.Schedule {
    (n: nat) => Choice(c, n)
  }

  /** No weight is negative, and every server with a share is configured. */
  ghost predicate Fair(c: Config) {
    forall k | k in c.keys :: Get(c.weights, k) >= 0 && (Get(c.weights, k) > 0 ==> k in c.servers)
  }

  // ---------- One call ----------

  lemma {:induction false} LargestIsLargest(keys: seq<Id>, m: map<Id, int>, max: int, maxKey: Id)
    ensures var r := Largest(keys, m, max, maxKey);
      || (r in keys && Get(m, r) > max && forall k | k in keys :: Get(m, k) <= Get(m, r))
      || (r == maxKey && forall k | k in keys :: Get(m, k) <= max)
  {
    if keys == [] {
    } else if Get(m, keys[0]) > max {
      LargestIsLargest(keys[1..], m, Get(m, keys[0]), keys[0]);
    } else {
      LargestIsLargest(keys[1..], m, max, maxKey);
    }
  }

  /** What key number `i` comes to when its fixed weight is added to its current one. */
  function RaisedAt(keys: seq<Id>, weights: map<Id, int>, cw: map<Id, int>, i: nat): int
    requires i < |keys|
  {
    Get(cw, keys[i]) + Get(weights, keys[i])
  }

  /** Every key before number `i` comes to less than it does, and none after it to more. */
  ghost predicate FirstLargest(keys: seq<Id>, weights: map<Id, int>, cw: map<Id, int>, i: nat) {
    && i < |keys|
    && (forall j: nat | j < i :: RaisedAt(keys, weights, cw, j) < RaisedAt(keys, weights, cw, i))
    && (forall j: nat | i < j < |keys| :: RaisedAt(keys, weights, cw, j) <= RaisedAt(keys, weights, cw, i))
  }

  /** The largest is the first of those there are, or what the search started with. */
  lemma {:induction false} LargestIsFirst(keys: seq<Id>, m: map<Id, int>, max: int, maxKey: Id) returns (i: nat)
    requires exists k :: k in keys && Get(m, k) > max
    ensures i < |keys| && Largest(keys, m, max, maxKey) == keys[i] && Get(m, keys[i]) > max
    ensures forall j | 0 <= j < i :: Get(m, keys[j]) < Get(m, keys[i])
    ensures forall j | i <= j < |keys| :: Get(m, keys[j]) <= Get(m, keys[i])
  {
    var head := Get(m, keys[0]);
    if head > max {
      LargestIsLargest(keys[1..], m, head, keys[0]);
      if exists k :: k in keys[1..] && Get(m, k) > head {
        i := LargestIsFirst(keys[1..], m, head, keys[0]);
        i := i + 1;
      } else {
        i := 0;
        assert forall j | 0 < j < |keys| :: keys[j] == keys[1..][j - 1];
      }
    } else {
      i := LargestIsFirst(keys[1..], m, max, maxKey);
      i := i + 1;
    }
  }

  /** The key a call picks, or fails on, is the first with the largest raised weight. */
  lemma LargestIsFirstLargest(c: Config, cw: map<Id, int>) returns (i: nat)
    requires WellFormed(c) && Sum(c.keys, cw) >= 0
    ensures FirstLargest(c.keys, c.weights, cw, i) && Largest(c.keys, Raised(c, cw), MIN_INT, []) == c.keys[i]
  {
    PickIsPositive(c, cw);
    i := LargestIsFirst(c.keys, Raised(c, cw), MIN_INT, []);
    forall j: nat | j < |c.keys| ensures RaisedAt(c.keys, c.weights, cw, j) == Get(Raised(c, cw), c.keys[j]) {
      assert c.keys[j] in c.weights;
    }
  }

  /** The pick is a largest raised weight, and it is positive: the raised weights add up to at
      least the total. */
  lemma PickIsPositive(c: Config, cw: map<Id, int>)
    requires WellFormed(c) && Sum(c.keys, cw) >= 0
    ensures var raised := Raised(c, cw);
      var k := Largest(c.keys, raised, MIN_INT, []);
      k in c.keys && k in raised && raised[k] > 0 && forall j | j in c.keys :: Get(raised, j) <= raised[k]
    ensures Sum(c.keys, Raised(c, cw)) == Sum(c.keys, cw) + 100
  {
    var raised := Raised(c, cw);
    SumAdds(c.keys, cw, c.weights, raised);
    var p := PositiveSum(c.keys, raised);
    LargestIsLargest(c.keys, raised, MIN_INT, []);
  }

  lemma FairHasServers(c: Config)
    requires WellFormed(c) && Fair(c)
    ensures c.servers != []
  {
    var k := PositiveSum(c.keys, c.weights);
  }

  // ---------- The invariant ----------

  /** `n` times a weight, added up call by call. */
  function Owed(w: int, n: nat): int {
    if n == 0 then 0 else Owed(w, n - 1) + w
  }

  lemma {:induction false} OwedIsProduct(w: int, n: nat)
    ensures Owed(w, n) == n * w
  {
    if n == 0 {
    } else {
      OwedIsProduct(w, n - 1);
      assert n * w == (n - 1) * w + w;
    }
  }

  lemma {:induction false} OwedNothing(n: nat)
    ensures Owed(0, n) == 0
  {
    if n != 0 {
      OwedNothing(n - 1);
    }
  }

  /** The weight is what the server is owed less what it got, and not a whole request behind
      zero. */
  predicate Even(c: Config, n: nat, k: Id) {
    && Get(Weights(c, n), k) == Owed(Get(c.weights, k), n) - 100 * Picks(c, k, 0, n)
    && Get(Weights(c, n), k) > -100
  }

  /** What holds after `n` calls. */
  ghost predicate Balanced(c: Config, n: nat) {
    Sum(c.keys, Weights(c, n)) == 0 && forall k | k in c.keys :: Even(c, n, k)
  }

  /** A server whose raised weight is positive has a positive share. */
  lemma RaisedHasShare(c: Config, n: nat, k: Id)
    requires k in c.weights && Even(c, n, k) && c.weights[k] >= 0
    requires Raised(c, Weights(c, n))[k] > 0
    ensures c.weights[k] > 0
  {
    OwedNothing(n);
    RaisedIsShared(c.weights[k], Owed(c.weights[k], n), Get(Weights(c, n), k), Picks(c, k, 0, n));
  }

  lemma RaisedIsShared(share: int, owed: int, weight: int, picks: nat)
    requires weight == owed - 100 * picks && weight > -100 && weight + share > 0 && share >= 0
    requires share == 0 ==> owed == 0
    ensures share > 0
  {
  }

  /** The total taken off the weight of the server that is picked. */
  function Taken(cw: map<Id, int>, p: Id): map<Id, int> {
    cw[p := Get(cw, p) - 100]
  }

  lemma StepTakes(c: Config, cw: map<Id, int>, p: Id)
    requires c.servers != [] && p == Largest(c.keys, Raised(c, cw), MIN_INT, [])
    requires p in c.servers && p in c.weights
    ensures Step(c, cw) == (Taken(Raised(c, cw), p), Some(p))
  {
  }

  /** In a balanced state the pick is a configured server, so the call succeeds. */
  lemma BalancedPicks(c: Config, n: nat) returns (p: Id)
    requires WellFormed(c) && Fair(c) && Balanced(c, n)
    ensures p in c.keys && p in c.weights && Raised(c, Weights(c, n))[p] > 0
    ensures Step(c, Weights(c, n)) == (Taken(Raised(c, Weights(c, n)), p), Some(p))
    ensures Sum(c.keys, Raised(c, Weights(c, n))) == 100
  {
    var cw := Weights(c, n);
    p := PositivePick(c, cw);
    assert Even(c, n, p);
    RaisedHasShare(c, n, p);
    FairHasServers(c);
    StepTakes(c, cw, p);
  }

  lemma PositivePick(c: Config, cw: map<Id, int>) returns (p: Id)
    requires WellFormed(c) && Sum(c.keys, cw) == 0
    ensures p == Largest(c.keys, Raised(c, cw), MIN_INT, [])
    ensures p in c.keys && p in c.weights && p in Raised(c, cw) && Raised(c, cw)[p] > 0
    ensures Sum(c.keys, Raised(c, cw)) == 100
  {
    p := Largest(c.keys, Raised(c, cw), MIN_INT, []);
    PickIsPositive(c, cw);
  }

  lemma NextCall(c: Config, n: nat, k: Id)
    ensures Weights(c, n + 1) == Step(c, Weights(c, n)).0
    ensures Picks(c, k, 0, n + 1) == Picks(c, k, 0, n) + (if Step(c, Weights(c, n)).1 == Some(k) then 1 else 0)
  {
  }

  lemma StepIsEven(c: Config, n: nat, k: Id, p: Id)
    requires k in c.weights && c.weights[k] >= 0 && Even(c, n, k)
    requires p in c.weights && Raised(c, Weights(c, n))[p] > 0
    requires Step(c, Weights(c, n)) == (Taken(Raised(c, Weights(c, n)), p), Some(p))
    ensures Even(c, n + 1, k)
  {
    NextCall(c, n, k);
    assert Raised(c, Weights(c, n))[k] == Weights(c, n)[k] + c.weights[k];
    assert Owed(c.weights[k], n + 1) == Owed(c.weights[k], n) + c.weights[k];
  }

  lemma StepIsBalanced(c: Config, n: nat)
    requires WellFormed(c) && Fair(c) && Balanced(c, n)
    ensures Balanced(c, n + 1)
  {
    var raised := Raised(c, Weights(c, n));
    var p := BalancedPicks(c, n);
    SumUpdate(c.keys, raised, p, raised[p] - 100);
    NextCall(c, n, p);
    forall k | k in c.keys ensures Even(c, n + 1, k) {
      assert Even(c, n, k);
      StepIsEven(c, n, k, p);
    }
  }

  lemma StartIsBalanced(c: Config)
    ensures Balanced(c, 0)
  {
    SumOfZeros(c.keys, Weights(c, 0));
    forall k | k in c.keys ensures Even(c, 0, k) {
    }
  }

  lemma AlwaysBalanced(c: Config, n: nat)
    requires WellFormed(c) && Fair(c)
    ensures Balanced(c, n)
  {
    StartIsBalanced(c);
    for i := 0 to n
      invariant Balanced(c, i)
    {
      StepIsBalanced(c, i);
    }
  }

  /** After every call the weights add up to zero, each is calls times weight less a hundred
      times picks, no server is a full request ahead of its share, and with `m` servers no
      weight exceeds 99 * (m - 1). */
  lemma NeverRunsAhead(c: Config, n: nat, k: Id)
    requires WellFormed(c) && Fair(c) && k in c.keys
    ensures k in c.weights && k in Weights(c, n)
    ensures Sum(c.keys, Weights(c, n)) == 0
    ensures Weights(c, n)[k] == n * c.weights[k] - 100 * Picks(c, k, 0, n)
    ensures 100 * Picks(c, k, 0, n) < n * c.weights[k] + 100
    ensures -100 < Weights(c, n)[k] <= 99 * (|c.keys| - 1)
  {
    AlwaysBalanced(c, n);
    OwedIsProduct(c.weights[k], n);
    forall j | j in c.keys ensures Get(Weights(c, n), j) >= -99 {
      assert Even(c, n, j);
    }
    SumLeaves(c.keys, Weights(c, n), -99, k);
    assert Even(c, n, k);
  }

  // ---------- A hundred calls ----------

  /** After a hundred calls a weight is a multiple of a hundred and above minus a hundred. */
  lemma NoneIsNegative(c: Config, n: nat, k: Id)
    requires n == 100 && Even(c, n, k)
    ensures Get(Weights(c, n), k) == 100 * (Get(c.weights, k) - Picks(c, k, 0, n)) >= 0
  {
    OwedIsProduct(Get(c.weights, k), n);
  }

  lemma HundredCallsReturn(c: Config, n: nat, k: Id)
    requires WellFormed(c) && Fair(c) && k in c.keys && n == 100
    ensures Get(Weights(c, n), k) == 0 && Picks(c, k, 0, n) == Get(c.weights, k)
  {
    AlwaysBalanced(c, n);
    forall j | j in c.keys ensures Get(Weights(c, n), j) >= 0 {
      assert Even(c, n, j);
      NoneIsNegative(c, n, j);
    }
    ZeroSum(c.keys, Weights(c, n), k);
    assert Even(c, n, k);
    NoneIsNegative(c, n, k);
  }

  /** A hundred calls after call `n` the weights are what they were. */
  predicate Returns(c: Config, n: nat) {
    Weights(c, n + 100) == Weights(c, n)
  }

  lemma BackAfter(c: Config, n: nat)
    requires WellFormed(c) && Fair(c) && n == 100
    ensures Weights(c, n) == Weights(c, 0)
  {
    forall k | k in c.weights ensures Weights(c, n)[k] == Weights(c, 0)[k] {
      HundredCallsReturn(c, n, k);
    }
  }

  lemma BackAtTheStart(c: Config)
    requires WellFormed(c) && Fair(c)
    ensures Returns(c, 0)
  {
    BackAfter(c, 100);
  }

  lemma ReturnsAgain(c: Config, n: nat)
    requires Returns(c, n)
    ensures Returns(c, n + 1) && Choice(c, n + 100) == Choice(c, n)
  {
    NextCall(c, n, []);
    NextCall(c, n + 100, []);
  }

  lemma {:induction false} AlwaysReturns(c: Config, n: nat)
    requires Returns(c, 0)
    ensures Returns(c, n)
  {
    if n != 0 {
      AlwaysReturns(c, n - 1);
      ReturnsAgain(c, n - 1);
    }
  }

  /** The state repeats every hundred calls, and so do the choices. */
  lemma Periodic(c: Config, n: nat)
    requires WellFormed(c) && Fair(c)
    ensures Weights(c, n + 100) == Weights(c, n) && Choice(c, n + 100) == Choice(c, n)
  {
    BackAtTheStart(c);
    AlwaysReturns(c, n);
    ReturnsAgain(c, n);
  }

  predicate AtStart(c: Config, n: nat) {
    Weights(c, n) == Weights(c, 0)
  }

  lemma AnotherRound(c: Config, n: nat)
    requires Returns(c, 0) && AtStart(c, n)
    ensures AtStart(c, n + 100)
  {
    AlwaysReturns(c, n);
  }

  lemma {:induction false} RoundsReturn(c: Config, rounds: nat, n: nat)
    requires Returns(c, 0) && n == rounds * 100
    ensures AtStart(c, n)
    decreases rounds
  {
    if rounds != 0 {
      RoundsReturn(c, rounds - 1, n - 100);
      AnotherRound(c, n - 100);
    }
  }

  /** After any multiple of a hundred calls every weight is zero again. */
  lemma ZeroAgain(c: Config, rounds: nat, k: Id)
    requires WellFormed(c) && Fair(c)
    ensures Get(Weights(c, rounds * 100), k) == 0
  {
    BackAtTheStart(c);
    RoundsReturn(c, rounds, rounds * 100);
  }

  /** In the hundred calls from number `from` on the server is picked as its weight says. */
  predicate ExactWindow(c: Config, k: Id, from: nat) {
    Windows.Exact(Calls(c), k, Get(c.weights, k), from)
  }

  lemma FirstWindow(c: Config, k: Id, n: nat)
    requires WellFormed(c) && Fair(c) && k in c.keys && n == 100
    ensures Windows.Picks(Calls(c), k, 0, n) == Get(c.weights, k)
  {
    HundredCallsReturn(c, n, k);
  }

  lemma WindowIsExact(c: Config, k: Id, from: nat)
    requires WellFormed(c) && Fair(c) && k in c.keys
    ensures ExactWindow(c, k, from)
  {
    FirstWindow(c, k, 100);
    forall n: nat ensures Calls(c)(n) == Calls(c)(n + 100) {
      Periodic(c, n);
    }
    Windows.AllExact(Calls(c), k, Get(c.weights, k), from);
  }

  lemma UnconfiguredIsNeverPicked(c: Config, k: Id, from: nat, until: nat)
    requires k !in c.servers
    ensures Picks(c, k, from, until) == 0
  {
    Windows.NeverPicked(Calls(c), k, from, until);
  }

  /** In any hundred consecutive calls, aligned or not, every server is picked exactly as often
      as its weight says, if and only if no weight is negative and every server with a share is
      configured. */
  lemma ExactSharesIffFair(c: Config)
    requires WellFormed(c)
    ensures Fair(c) <==> forall k, from: nat | k in c.keys :: ExactWindow(c, k, from)
  {
    if Fair(c) {
      forall k, from: nat | k in c.keys ensures ExactWindow(c, k, from) {
        WindowIsExact(c, k, from);
      }
    }
    forall k | k in c.keys && ExactWindow(c, k, 0)
      ensures Get(c.weights, k) >= 0 && (Get(c.weights, k) > 0 ==> k in c.servers)
    {
      Windows.ExactShareIsFair(Calls(c), k, Get(c.weights, k), k in c.servers);
    }
  }

  /** The constructor accepts a negative weight, and then the shares are not exact. */
  lemma NegativeWeightIsAccepted() returns (c: Config)
    ensures WellFormed(c) && c.weights == map[[1] := 150, [2] := -50] && c.servers == c.keys == [[1], [2]]
    ensures exists k, from: nat :: k in c.keys && !ExactWindow(c, k, from)
  {
    c := Config(map[[1] := 150, [2] := -50], [[1], [2]], [[1], [2]]);
    assert c.keys[1..] == [[2]] && c.keys[0] == [1] && c.keys[1] == [2];
    assert c.keys[1..][1..] == [];
    assert Sum(c.keys, c.weights) == 150 + Sum(c.keys[1..], c.weights);
    assert Sum(c.keys[1..], c.weights) == -50 + Sum([], c.weights);
    forall k ensures k in c.keys <==> k in c.weights.Keys {
    }
    assert [2] in c.keys && Get(c.weights, [2]) < 0;
    ExactSharesIffFair(c);
  }

  // ---------- The scheduler ----------

  /** The weights once the servers `done` have been raised. */
  function RaisedFor(weights: map<Id, int>, cw: map<Id, int>, done: seq<Id>): map<Id, int> {
    map k | k in weights :: if k in done then Get(cw, k) + weights[k] else Get(cw, k)
  }

  lemma RaiseNext(weights: map<Id, int>, keys: seq<Id>, cw: map<Id, int>, i: nat, key: Id, weight: int)
    requires Lists(keys, weights.Keys) && Distinct(keys) && cw.Keys == weights.Keys && i < |keys| && key == keys[i]
    requires weight == Get(RaisedFor(weights, cw, keys[..i]), key) + Get(weights, key)
    ensures RaisedFor(weights, cw, keys[..i])[key := weight] == RaisedFor(weights, cw, keys[..i + 1])
    ensures weight == Get(cw, key) + Get(weights, key)
  {
    assert keys[..i + 1] == keys[..i] + [keys[i]];
    assert keys[i] !in keys[..i];
  }

  /** The largest after the servers up to `i` have been raised is the largest so far of all. */
  ghost predicate SoFar(weights: map<Id, int>, keys: seq<Id>, cw: map<Id, int>, i: nat, max: int, maxKey: Id)
    requires i <= |keys|
  {
    var raised := RaisedFor(weights, cw, keys);
    Largest(keys, raised, MIN_INT, []) == Largest(keys[i..], raised, max, maxKey)
  }

  lemma NoneRaised(weights: map<Id, int>, keys: seq<Id>, cw: map<Id, int>)
    requires cw.Keys == weights.Keys
    ensures cw == RaisedFor(weights, cw, keys[..0]) && SoFar(weights, keys, cw, 0, MIN_INT, [])
  {
    assert keys[0..] == keys;
  }

  lemma EachRaised(weights: map<Id, int>, keys: seq<Id>, cw: map<Id, int>, max: int, maxKey: Id)
    requires SoFar(weights, keys, cw, |keys|, max, maxKey)
    ensures keys[..|keys|] == keys && maxKey == Largest(keys, RaisedFor(weights, cw, keys), MIN_INT, [])
  {
  }

  lemma RaiseStep(weights: map<Id, int>, keys: seq<Id>, cw: map<Id, int>, i: nat, weight: int, max: int, maxKey: Id)
    requires Lists(keys, weights.Keys) && Distinct(keys) && cw.Keys == weights.Keys && i < |keys|
    requires weight == Get(RaisedFor(weights, cw, keys[..i]), keys[i]) + Get(weights, keys[i])
    requires SoFar(weights, keys, cw, i, max, maxKey)
    ensures RaisedFor(weights, cw, keys[..i])[keys[i] := weight] == RaisedFor(weights, cw, keys[..i + 1])
    ensures weight > max ==> SoFar(weights, keys, cw, i + 1, weight, keys[i])
    ensures weight <= max ==> SoFar(weights, keys, cw, i + 1, max, maxKey)
  {
    RaiseNext(weights, keys, cw, i, keys[i], weight);
    assert Get(RaisedFor(weights, cw, keys), keys[i]) == weight;
    LargestFrom(keys, i, RaisedFor(weights, cw, keys), max, maxKey);
  }

  lemma AllRaised(c: Config, cw: map<Id, int>)
    requires Lists(c.keys, c.weights.Keys)
    ensures RaisedFor(c.weights, cw, c.keys) == Raised(c, cw)
  {
  }

  lemma LargestFrom(keys: seq<Id>, i: nat, m: map<Id, int>, max: int, maxKey: Id)
    requires i < |keys|
    ensures Get(m, keys[i]) > max ==>
      Largest(keys[i..], m, max, maxKey) == Largest(keys[i + 1..], m, Get(m, keys[i]), keys[i])
    ensures Get(m, keys[i]) <= max ==> Largest(keys[i..], m, max, maxKey) == Largest(keys[i + 1..], m, max, maxKey)
  {
    assert keys[i..][0] == keys[i] && keys[i..][1..] == keys[i + 1..];
  }

  /** What a call does when there are servers: every weight is raised by its fixed weight, and
      the first key that comes to most loses a hundred if it is configured; if it is not, the call
      fails and the weights stay raised. */
  ghost predicate Called(keys: seq<Id>, weights: map<Id, int>, servers: seq<Id>,
                         before: map<Id, int>, after: map<Id, int>, picked: Option<Id>) {
    && (forall k | k in keys ::
          Get(after, k) == Get(before, k) + Get(weights, k) - (if picked == Some(k) then 100 else 0))
    && (exists i: nat | FirstLargest(keys, weights, before, i) ::
          picked == if keys[i] in servers then Some(keys[i]) else None)
  }

  lemma StepIsCalled(c: Config, before: map<Id, int>, after: map<Id, int>, picked: Option<Id>)
    requires WellFormed(c) && Sum(c.keys, before) >= 0 && c.servers != []
    requires (after, picked) == Step(c, before)
    ensures Called(c.keys, c.weights, c.servers, before, after, picked)
  {
    var i := LargestIsFirstLargest(c, before);
    assert c.keys[i] in Raised(c, before);
  }

  class SmoothWeightedRoundRobin {
    const serverWeights: map<Id, int>
    const keys: seq<Id>
    var currentWeights: map<Id, int>

    ghost predicate Valid()
      reads this
    {
      && Lists(keys, serverWeights.Keys) && Distinct(keys) && Sum(keys, serverWeights) == 100
      && currentWeights.Keys == serverWeights.Keys && Sum(keys, currentWeights) >= 0
    }

    constructor (serverWeights: map<Id, int>, keys: seq<Id>)
      requires Lists(keys, serverWeights.Keys) && Distinct(keys) && Sum(keys, serverWeights) == 100
      ensures Valid() && this.serverWeights == serverWeights && this.keys == keys
      ensures forall servers :: currentWeights == Weights(Config(serverWeights, keys, servers), 0)
      ensures currentWeights == map k | k in serverWeights :: 0
    {
      this.serverWeights, this.keys := serverWeights, keys;
      currentWeights := map k | k in serverWeights :: 0;
      SumOfZeros(keys, map k | k in serverWeights :: 0);
    }

    /** Raises every weight, picks the largest, and takes the total off it. */
    method GetNext(servers: seq<Id>) returns (picked: Option<Id>)
      requires Valid()
      modifies this
      ensures Valid()
      ensures (currentWeights, picked) == Step(Config(serverWeights, keys, servers), old(currentWeights))
      ensures servers == [] ==> picked == None && currentWeights == old(currentWeights)
      ensures servers != [] ==> Called(keys, serverWeights, servers, old(currentWeights), currentWeights, picked)
    {
      if |servers| == 0 {
        return None;
      }
      ghost var c := Config(serverWeights, keys, servers);
      ghost var raised := Raised(c, currentWeights);
      PickIsPositive(c, currentWeights);

      AllRaised(c, currentWeights);
      var maxKey := RaiseAll();
      ghost var before := old(currentWeights);
      if maxKey !in servers {
        StepIsCalled(c, before, currentWeights, None);
        return None;
      }
      SumUpdate(keys, raised, maxKey, raised[maxKey] - 100);
      currentWeights := currentWeights[maxKey := currentWeights[maxKey] - 100];
      picked := Some(maxKey);
      StepIsCalled(c, before, currentWeights, picked);
    }

    /** One round of that loop. */
    method RaiseOne(i: nat, max0: int, maxKey0: Id, ghost before: map<Id, int>) returns (max: int, maxKey: Id)
      requires Lists(keys, serverWeights.Keys) && Distinct(keys) && before.Keys == serverWeights.Keys && i < |keys|
      requires currentWeights == RaisedFor(serverWeights, before, keys[..i])
      requires SoFar(serverWeights, keys, before, i, max0, maxKey0)
      modifies this`currentWeights
      ensures currentWeights == RaisedFor(serverWeights, before, keys[..i + 1])
      ensures SoFar(serverWeights, keys, before, i + 1, max, maxKey)
    {
      var key := keys[i];
      var weight := currentWeights[key] + serverWeights[key];
      RaiseStep(serverWeights, keys, before, i, weight, max0, maxKey0);
      currentWeights := currentWeights[key := weight];
      max, maxKey := max0, maxKey0;
      if weight > max {
        max, maxKey := weight, key;
      }
    }

    /** Raises every weight in place while keeping track of the largest. */
    method RaiseAll() returns (maxKey: Id)
      requires Lists(keys, serverWeights.Keys) && Distinct(keys) && currentWeights.Keys == serverWeights.Keys
      modifies this`currentWeights
      ensures currentWeights == RaisedFor(serverWeights, old(currentWeights), keys)
      ensures maxKey == Largest(keys, currentWeights, MIN_INT, [])
    {
      ghost var before := currentWeights;
      NoneRaised(serverWeights, keys, before);
      var max := MIN_INT;
      maxKey := [];
      var i := 0;
      while i < |keys|
        invariant 0 <= i <= |keys| && currentWeights == RaisedFor(serverWeights, before, keys[..i])
        invariant SoFar(serverWeights, keys, before, i, max, maxKey)
      {
        max, maxKey := RaiseOne(i, max, maxKey, before);
        i := i + 1;
      }
      EachRaised(serverWeights, keys, before, max, maxKey);
    }
  }

  /** Makes a scheduler of a weight map, unless the map is empty or its weights do not add up
      to a hundred. */
  method NewSmoothWeightedRoundRobin(weights: map<Id, int>)
    returns (verdict: Verdict, scheduler: SmoothWeightedRoundRobin?)
    ensures exists keys :: Lists(keys, weights.Keys) && Ascending(keys) && verdict == VerdictOn(weights, keys)
    ensures verdict.EmptyWeights? <==> weights == map[]
    ensures verdict.Accepted? <==> scheduler != null
    ensures scheduler != null ==> fresh(scheduler) && scheduler.serverWeights == weights
    ensures scheduler != null ==> Lists(scheduler.keys, weights.Keys) && Ascending(scheduler.keys)
    ensures scheduler != null ==> Sum(scheduler.keys, weights) == 100 && scheduler.Valid()
    ensures scheduler != null ==> forall servers ::
      scheduler.currentWeights == Weights(Config(weights, scheduler.keys, servers), 0)
    ensures scheduler != null ==> scheduler.currentWeights == map k | k in weights :: 0
  {
    var keys: seq<Id>;
    verdict, keys := CheckWeights(weights);
    scheduler := null;
    if verdict.Accepted? {
      scheduler := new SmoothWeightedRoundRobin(weights, keys);
    }
  }
}
