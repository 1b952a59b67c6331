/** Classic weighted round robin: of every hundred requests each server takes as many in a row
    as its weight says. It serves as the reference for the smooth scheduler's shares. */
module ClassicRoundRobin {
  import opened ServerWeights
  import opened Wrappers
  import Smooth = SmoothRoundRobin
  import Windows

  /** The first server at which the weights, added up from `sum` on, reach the request's
      number. */
  function Reach(keys: seq<Id>, weights: map<Id, int>, sum: int, request: int): Option<Id> {
    if keys == [] then None
    else if sum + Get(weights, keys[0]) >= request then Some(keys[0])
    else Reach(keys[1..], weights, sum + Get(weights, keys[0]), request)
  }

  /** The weights added up to and including that of key number `i`. */
  function UpTo(keys: seq<Id>, weights: map<Id, int>, i: nat): int
    requires i < |keys|
  {
    Sum(keys[..i + 1], weights)
  }

  lemma UpToNext(keys: seq<Id>, weights: map<Id, int>, i: nat)
    requires i < |keys|
    ensures UpTo(keys, weights, i) == Get(weights, keys[0]) + if i == 0 then 0 else UpTo(keys[1..], weights, i - 1)
  {
    var first := keys[..i + 1];
    assert first[0] == keys[0] && first[1..] == keys[1..][..i];
    assert Sum(first, weights) == Get(weights, keys[0]) + Sum(first[1..], weights);
  }

  /** At key number `i` the weights added up first reach the request's number; if `i` is the
      number of keys they never do. */
  ghost predicate FirstReached(keys: seq<Id>, weights: map<Id, int>, request: int, i: nat) {
    && i <= |keys|
    && (forall j: nat | j < i :: UpTo(keys, weights, j) < request)
    && (i < |keys| ==> UpTo(keys, weights, i) >= request)
  }

  lemma {:induction false} ReachIsFirst(keys: seq<Id>, weights: map<Id, int>, sum: int, request: int) returns (i: nat)
    ensures FirstReached(keys, weights, request - sum, i)
    ensures Reach(keys, weights, sum, request) == if i < |keys| then Some(keys[i]) else None
  {
    i := 0;
    if keys != [] {
      UpToNext(keys, weights, 0);
      if sum + Get(weights, keys[0]) < request {
        var rest := ReachIsFirst(keys[1..], weights, sum + Get(weights, keys[0]), request);
        i := rest + 1;
        forall j: nat | j < |keys|
          ensures UpTo(keys, weights, j)
               == Get(weights, keys[0]) + if j == 0 then 0 else UpTo(keys[1..], weights, j - 1)
        {
          UpToNext(keys, weights, j);
        }
      }
    }
  }

  /** The counter after a call, and the server the call picks. */
  function Step(c: Smooth.Config, count: nat): (nat, Option<Id>) {
    if c.servers == [] then (count, None)
    else
      var request := count % 100 + 1;
      match Reach(c.keys, c.weights, 0, request)
      case None => (request, if [] in c.servers then Some([]) else None)
      case Some(k) => (request, if k in c.servers then Some(k) else None)
  }

  function Count(c: Smooth.Config, n: nat): nat {
    if n == 0 then 0 else Step(c, Count(c, n - 1)).0
  }

  /** What call number `n`, counted from zero, picks. */
  function Choice(c: Smooth.Config, n: nat): Option<Id> {
    Step(c, Count(c, n)).1
  }

  function Picks(c: Smooth.Config, k: Id, from: nat, until: nat): nat {
    Windows.Picks(Calls(c), k, from, until)
  }

  function Calls(c: Smooth.Config): Windows.Schedule {
    (n: nat) => Choice(c, n)
  }

  /** How many of the requests `low` up to, not including, `high` reach `k`. */
  function Hits(keys: seq<Id>, weights: map<Id, int>, sum: int, k: Id, low: int, high: int): nat
    decreases high - low
  {
    if high <= low then 0
    else Hits(keys, weights, sum, k, low, high - 1) + (if Reach(keys, weights, sum, high - 1) == Some(k) then 1 else 0)
  }

  lemma {:induction false} HitsSplit(keys: seq<Id>, weights: map<Id, int>, sum: int, k: Id, low: int, mid: int, high: int)
    requires low <= mid <= high
    ensures Hits(keys, weights, sum, k, low, high)
         == Hits(keys, weights, sum, k, low, mid) + Hits(keys, weights, sum, k, mid, high)
    decreases high - mid
  {
    if mid == high {
    } else {
      HitsSplit(keys, weights, sum, k, low, mid, high - 1);
    }
  }

  /** The requests up to the first server's weight all reach it. */
  lemma {:induction false} FirstTakesItsBlock(keys: seq<Id>, weights: map<Id, int>, sum: int, k: Id, high: int)
    requires keys != [] && sum < high <= sum + Get(weights, keys[0]) + 1
    ensures Hits(keys, weights, sum, k, sum + 1, high) == if k == keys[0] then high - sum - 1 else 0
    decreases high - sum
  {
    if high == sum + 1 {
    } else {
      FirstTakesItsBlock(keys, weights, sum, k, high - 1);
    }
  }

  /** The requests after it reach the servers after it. */
  lemma {:induction false} RestTakesTheRest(keys: seq<Id>, weights: map<Id, int>, sum: int, k: Id, high: int)
    requires keys != []
    ensures var next := sum + Get(weights, keys[0]);
      Hits(keys, weights, sum, k, next + 1, high) == Hits(keys[1..], weights, next, k, next + 1, high)
    decreases high - sum - Get(weights, keys[0])
  {
    if high > sum + Get(weights, keys[0]) + 1 {
      RestTakesTheRest(keys, weights, sum, k, high - 1);
    }
  }

  lemma {:induction false} ReachIsAKey(keys: seq<Id>, weights: map<Id, int>, sum: int, request: int)
    ensures Reach(keys, weights, sum, request).Some? ==> Reach(keys, weights, sum, request).value in keys
  {
    if keys == [] {
    } else {
      ReachIsAKey(keys[1..], weights, sum + Get(weights, keys[0]), request);
    }
  }

  lemma {:induction false} StrangerIsNotHit(keys: seq<Id>, weights: map<Id, int>, sum: int, k: Id, low: int, high: int)
    requires k !in keys
    ensures Hits(keys, weights, sum, k, low, high) == 0
    decreases high - low
  {
    if high > low {
      StrangerIsNotHit(keys, weights, sum, k, low, high - 1);
      ReachIsAKey(keys, weights, sum, high - 1);
    }
  }

  /** Over the whole cycle every server is hit as often as its weight says. */
  lemma {:induction false} HitsAreWeights(keys: seq<Id>, weights: map<Id, int>, sum: int, k: Id)
    requires Distinct(keys) && k in keys && forall j | j in keys :: Get(weights, j) >= 0
    ensures Hits(keys, weights, sum, k, sum + 1, sum + Sum(keys, weights) + 1) == Get(weights, k)
    decreases keys
  {
    var first := Get(weights, keys[0]);
    var next := sum + first;
    var end := sum + Sum(keys, weights) + 1;
    SumAtLeast(keys[1..], weights, 0);
    HitsSplit(keys, weights, sum, k, sum + 1, next + 1, end);
    FirstTakesItsBlock(keys, weights, sum, k, next + 1);
    RestTakesTheRest(keys, weights, sum, k, end);
    if k == keys[0] {
      StrangerIsNotHit(keys[1..], weights, next, k, next + 1, end);
    } else {
      HitsAreWeights(keys[1..], weights, next, k);
    }
  }

  // ---------- Calls ----------

  lemma StepCounts(c: Smooth.Config, count: nat)
    requires c.servers != []
    ensures Step(c, count).0 == count % 100 + 1
  {
  }

  lemma SamePlaceInCycle(c: Smooth.Config, count: nat, count': nat)
    requires count % 100 == count' % 100
    ensures Step(c, count).1 == Step(c, count').1
  {
  }

  lemma {:induction false} CountCycles(c: Smooth.Config, n: nat)
    requires c.servers != []
    ensures Count(c, n) % 100 == n % 100
  {
    if n != 0 {
      CountCycles(c, n - 1);
      CountsOn(c, n - 1);
      NextInCycle(Count(c, n - 1), n - 1);
    }
  }

  lemma CountsOn(c: Smooth.Config, n: nat)
    requires c.servers != []
    ensures Count(c, n + 1) == Count(c, n) % 100 + 1
  {
    StepCounts(c, Count(c, n));
  }

  lemma NextInCycle(count: nat, n: nat)
    requires count % 100 == n % 100
    ensures (count % 100 + 1) % 100 == (n + 1) % 100
  {
  }

  /** Call `n` handles request `n % 100 + 1` of the cycle. */
  lemma ChoiceReaches(c: Smooth.Config, n: nat, k: Id)
    requires c.servers != [] && k in c.servers && Reach(c.keys, c.weights, 0, n % 100 + 1).Some?
    ensures Choice(c, n) == Some(k) <==> Reach(c.keys, c.weights, 0, n % 100 + 1) == Some(k)
  {
    CountCycles(c, n);
  }

  lemma {:induction false} ReachSucceeds(keys: seq<Id>, weights: map<Id, int>, sum: int, request: int)
    requires sum < request <= sum + Sum(keys, weights)
    ensures Reach(keys, weights, sum, request).Some?
  {
    var next := sum + Get(weights, keys[0]);
    if next < request {
      ReachSucceeds(keys[1..], weights, next, request);
    }
  }

  lemma {:induction false} FirstCycle(c: Smooth.Config, k: Id, n: nat)
    requires Smooth.WellFormed(c) && c.servers != [] && k in c.servers && n <= 100
    ensures Picks(c, k, 0, n) == Hits(c.keys, c.weights, 0, k, 1, n + 1)
    decreases n
  {
    if n != 0 {
      FirstCycle(c, k, n - 1);
      ReachSucceeds(c.keys, c.weights, 0, n);
      ChoiceReaches(c, n - 1, k);
      Windows.PicksLast(Calls(c), k, 0, n - 1);
    }
  }

  predicate ExactWindow(c: Smooth.Config, k: Id, from: nat) {
    Windows.Exact(Calls(c), k, Get(c.weights, k), from)
  }

  lemma ChoicesRepeat(c: Smooth.Config, n: nat)
    requires c.servers != []
    ensures Choice(c, n + 100) == Choice(c, n)
  {
    SameChoice(c, n, n + 100);
  }

  lemma SameChoice(c: Smooth.Config, n: nat, m: nat)
    requires c.servers != [] && n % 100 == m % 100
    ensures Choice(c, m) == Choice(c, n)
  {
    CountCycles(c, n);
    CountCycles(c, m);
    SamePlaceInCycle(c, Count(c, n), Count(c, m));
  }

  lemma FirstWindow(c: Smooth.Config, k: Id, n: nat)
    requires Smooth.WellFormed(c) && Smooth.Fair(c) && k in c.keys && n == 100
    ensures Picks(c, k, 0, n) == Get(c.weights, k)
  {
    Smooth.FairHasServers(c);
    if k in c.servers {
      FirstCycle(c, k, n);
      HitsAreWeights(c.keys, c.weights, 0, k);
    } else {
      Windows.NeverPicked(Calls(c), k, 0, n);
    }
  }

  /** In any hundred consecutive calls every server is picked as its weight says. */
  lemma WindowIsExact(c: Smooth.Config, k: Id, from: nat)
    requires Smooth.WellFormed(c) && Smooth.Fair(c) && k in c.keys
    ensures ExactWindow(c, k, from)
  {
    Smooth.FairHasServers(c);
    FirstWindow(c, k, 100);
    forall n: nat ensures Calls(c)(n) == Calls(c)(n + 100) {
      ChoicesRepeat(c, n);
    }
    Windows.AllExact(Calls(c), k, Get(c.weights, k), from);
  }

  /** In any hundred consecutive calls every server is picked exactly as often as its weight
      says, if and only if no weight is negative and every server with a share is configured. */
  lemma ExactSharesIffFair(c: Smooth.Config)
    requires Smooth.WellFormed(c)
    ensures Smooth.Fair(c) <==> forall k, from: nat | k in c.keys :: ExactWindow(c, k, from)
  {
    if Smooth.Fair(c) {
      forall k, from: nat | k in c.keys ensures ExactWindow(c, k, from) {
        WindowIsExact(c, k, from);
      }
    }
    forall k | k in c.keys && ExactWindow(c, k, 0)
      ensures Get(c.weights, k) >= 0 && (Get(c.weights, k) > 0 ==> k in c.servers)
    {
      Windows.ExactShareIsFair(Calls(c), k, Get(c.weights, k), k in c.servers);
    }
  }

  /** In every window of a hundred calls, whatever the two windows, both schedulers give every
      server the same number of requests. */
  lemma SchedulersAgree(c: Smooth.Config, k: Id, from: nat, from': nat)
    requires Smooth.WellFormed(c) && Smooth.Fair(c) && k in c.keys
    ensures Picks(c, k, from, from + 100) == Smooth.Picks(c, k, from', from' + 100)
  {
    WindowIsExact(c, k, from);
    Smooth.WindowIsExact(c, k, from');
    assert Smooth.ExactWindow(c, k, from') && ExactWindow(c, k, from);
  }

  class ClassicWeightedRoundRobin {
    const serverWeights: map<Id, int>
    const keys: seq<Id>
    var requestCount: nat

    constructor (serverWeights: map<Id, int>, keys: seq<Id>)
      requires Lists(keys, serverWeights.Keys) && Distinct(keys) && Sum(keys, serverWeights) == 100
      ensures requestCount == 0 && this.serverWeights == serverWeights && this.keys == keys
    {
      this.serverWeights, this.keys, requestCount := serverWeights, keys, 0;
    }

    /** Advances the counter and adds the weights up until they reach it. */
    method GetNext(servers: seq<Id>) returns (picked: Option<Id>)
      requires Lists(keys, serverWeights.Keys)
      modifies this
      ensures (requestCount, picked) == Step(Smooth.Config(serverWeights, keys, servers), old(requestCount))
      ensures servers == [] ==> picked == None && requestCount == old(requestCount)
      ensures servers != [] ==> requestCount == old(requestCount) % 100 + 1
      ensures servers != [] ==> exists i: nat | FirstReached(keys, serverWeights, requestCount, i) ::
        var k := if i < |keys| then keys[i] else [];
        picked == if k in servers then Some(k) else None
    {
      if |servers| == 0 {
        return None;
      }
      requestCount := requestCount % 100 + 1;
      ghost var first := ReachIsFirst(keys, serverWeights, 0, requestCount);
      assert FirstReached(keys, serverWeights, requestCount, first);
      var weightSum := 0;
      var backend: Id := [];
      ghost var found := false;
      var i := 0;
      while i < |keys|
        invariant 0 <= i <= |keys| && backend == [] && !found
        invariant Reach(keys, serverWeights, 0, requestCount) == Reach(keys[i..], serverWeights, weightSum, requestCount)
      {
        assert keys[i..][0] == keys[i] && keys[i..][1..] == keys[i + 1..];
        weightSum := weightSum + serverWeights[keys[i]];
        if weightSum >= requestCount {
          backend, found := keys[i], true;
          break;
        }
        i := i + 1;
      }
      assert Reach(keys, serverWeights, 0, requestCount) == if found then Some(backend) else None;
      picked := if backend in servers then Some(backend) else None;
    }
  }

  /** Makes a scheduler of a weight map, unless the map is empty or its weights do not add up
      to a hundred. */
  method NewClassicWeightedRoundRobin(weights: map<Id, int>)
    returns (verdict: Verdict, scheduler: ClassicWeightedRoundRobin?)
    ensures exists keys :: Lists(keys, weights.Keys) && Ascending(keys) && verdict == VerdictOn(weights, keys)
    ensures verdict.EmptyWeights? <==> weights == map[]
    ensures verdict.Accepted? <==> scheduler != null
    ensures scheduler != null ==> fresh(scheduler) && scheduler.serverWeights == weights
    ensures scheduler != null ==> Lists(scheduler.keys, weights.Keys) && Ascending(scheduler.keys)
    ensures scheduler != null ==> Sum(scheduler.keys, weights) == 100 && scheduler.requestCount == 0
  {
    var keys: seq<Id>;
    verdict, keys := CheckWeights(weights);
    scheduler := null;
    if verdict.Accepted? {
      scheduler := new ClassicWeightedRoundRobin(weights, keys);
    }
  }
}
