/** How many attempts are enough: exactly as many as there are workers, and one more for each
    fault of the worker's own. */
module OptimisticLimit {
  import opened Wrappers
  import opened Counting
  import opened OptimisticBooking
  import opened OptimisticProgress

  /** Nothing fails but statements of worker 0. */
  predicate OnlyFirstFails(es: seq<Event>) {
    forall e | e in es :: NoFault(e) || e == Fail(0)
  }

  /** Worker 0 after `f` faults and losing seats 0 to `n` - 1. */
  function First(limit: nat, f: nat, n: nat): Worker {
    Worker(if f + n < limit then Ready else GaveUp, f + n, Below(n), f, 0)
  }

  /** The system then, with the seats lost to workers 1 to `n`. */
  function Scene(limit: nat, workers: nat, seats: nat, f: nat, n: nat): System {
    System(limit,
           seq(seats, i requires 0 <= i => if i < n then Row(Some(i + 1), 2, None) else Row(None, 1, None)),
           SceneWorkers(limit, workers, f, n),
           seq(n, i requires 0 <= i => (i + 1, i)))
  }

  function SceneWorkers(limit: nat, workers: nat, f: nat, n: nat): seq<Worker> {
    seq(workers, i requires 0 <= i =>
      if i == 0 then First(limit, f, n)
      else if i <= n then Worker(Booked(i - 1), 0, {}, 0, 0)
      else Worker(if limit > 0 then Ready else GaveUp, 0, {}, 0, 0))
  }

  // ---------- One more fault, one more seat lost ----------

  lemma SceneFails(limit: nat, workers: nat, seats: nat, f: nat)
    requires f < limit && 0 < workers
    ensures var s := Scene(limit, workers, seats, f, 0);
      Enabled(s, Fail(0)) && Next(s, Fail(0)) == Scene(limit, workers, seats, f + 1, 0)
  {
    var t, end := RolledBack(Scene(limit, workers, seats, f, 0), 0, Fault), Scene(limit, workers, seats, f + 1, 0);
    assert t.rows == end.rows && t.bookings == end.bookings;
    assert t.workers == end.workers;
  }

  lemma SceneStarts(limit: nat, workers: nat, seats: nat)
    ensures Init(limit, workers, seats) == Scene(limit, workers, seats, 0, 0)
  {
    var s0, s := Init(limit, workers, seats), Scene(limit, workers, seats, 0, 0);
    assert |Below(0)| == 0;
    assert First(limit, 0, 0) == Fresh(limit) == Worker(if limit > 0 then Ready else GaveUp, 0, {}, 0, 0);
    assert s.workers == s0.workers;
    assert s.rows == s0.rows && s.bookings == s0.bookings;
  }

  lemma {:induction false} FaultsFirst(limit: nat, workers: nat, seats: nat, f: nat) returns (es: seq<Event>)
    requires f <= limit && 0 < workers
    ensures Run(Init(limit, workers, seats), es) && OnlyFirstFails(es)
    ensures After(Init(limit, workers, seats), es) == Scene(limit, workers, seats, f, 0)
    decreases f
  {
    var s0 := Init(limit, workers, seats);
    if f == 0 {
      SceneStarts(limit, workers, seats);
      es := [];
    } else {
      var before := FaultsFirst(limit, workers, seats, f - 1);
      SceneFails(limit, workers, seats, f - 1);
      RunAppend(s0, before, Fail(0));
      es := before + [Fail(0)];
    }
  }

  lemma LastUpdatesStay(ws: seq<Worker>, j: nat, a: Worker, b: Worker, c: Worker, d: Worker)
    requires 0 < j < |ws|
    ensures ws[0 := a][j := b][j := c][0 := d] == ws[j := c][0 := d]
  {
  }

  lemma SceneWorkersMove(limit: nat, workers: nat, f: nat, n: nat, losing: Worker, choosing: Worker)
    requires n + 1 < workers
    ensures SceneWorkers(limit, workers, f, n + 1)
         == SceneWorkers(limit, workers, f, n)
            [0 := losing][n + 1 := choosing][n + 1 := Worker(Booked(n), 0, {}, 0, 0)][0 := First(limit, f, n + 1)]
  {
    var ws, done := SceneWorkers(limit, workers, f, n), Worker(Booked(n), 0, {}, 0, 0);
    LastUpdatesStay(ws, n + 1, losing, choosing, done, First(limit, f, n + 1));
    TwoUpdates(ws, SceneWorkers(limit, workers, f, n + 1), n + 1, First(limit, f, n + 1), done);
  }

  lemma TwoUpdates(ws: seq<Worker>, next: seq<Worker>, j: nat, first: Worker, done: Worker)
    requires 0 < j < |ws| == |next| && next[0] == first && next[j] == done
    requires forall i | 0 < i < |ws| && i != j :: next[i] == ws[i]
    ensures next == ws[j := done][0 := first]
  {
  }

  /** Worker 0 about to lose the seat it has selected. */
  function Losing(f: nat, n: nat): Worker {
    Worker(Selected(n, 1), f + n, Below(n), f, 0)
  }

  lemma BothSelect(limit: nat, workers: nat, seats: nat, f: nat, n: nat) returns (t: System)
    requires f + n < limit && n + 1 < workers && n < seats
    ensures var s := Scene(limit, workers, seats, f, n);
      && Enabled(s, Select(0, n)) && Enabled(Next(s, Select(0, n)), Select(n + 1, n))
      && t == Next(Next(s, Select(0, n)), Select(n + 1, n))
      && t == s.(workers := s.workers[0 := Losing(f, n)][n + 1 := Worker(Selected(n, 1), 0, {}, 0, 0)])
  {
    var s := Scene(limit, workers, seats, f, n);
    t := Next(Next(s, Select(0, n)), Select(n + 1, n));
  }

  lemma OtherBooks(s: System, n: nat) returns (t: System)
    requires n + 1 < |s.workers| && n < |s.rows| && s.workers[n + 1] == Worker(Selected(n, 1), 0, {}, 0, 0)
    requires s.rows[n] == Row(None, 1, None)
    ensures Enabled(s, Update(n + 1)) && Enabled(Next(s, Update(n + 1)), Commit(n + 1))
    ensures t == Next(Next(s, Update(n + 1)), Commit(n + 1))
    ensures t == s.(rows := s.rows[n := Row(Some(n + 1), 2, None)],
                    workers := s.workers[n + 1 := Worker(Booked(n), 0, {}, 0, 0)],
                    bookings := s.bookings + [(n + 1, n)])
  {
    t := Next(Next(s, Update(n + 1)), Commit(n + 1));
  }

  lemma FirstLoses(s: System, f: nat, n: nat)
    requires 0 < |s.workers| && n < |s.rows| && s.rows[n] == Row(Some(n + 1), 2, None)
    requires s.workers[0] == Losing(f, n)
    requires forall i | 0 <= i < |s.rows| :: s.rows[i].owner.None?
    ensures Enabled(s, Update(0)) && Next(s, Update(0)) == s.(workers := s.workers[0 := First(s.limit, f, n + 1)])
  {
    var u := RolledBack(s, 0, LostTo(n));
    assert u.rows == s.rows;
    assert Below(n) + {n} == Below(n + 1);
  }

  lemma SceneCloses(limit: nat, workers: nat, seats: nat, f: nat, n: nat, both: System, booked: System)
    requires n + 1 < workers && n < seats
    requires var s := Scene(limit, workers, seats, f, n);
      both == s.(workers := s.workers[0 := Losing(f, n)][n + 1 := Worker(Selected(n, 1), 0, {}, 0, 0)])
    requires booked == both.(rows := both.rows[n := Row(Some(n + 1), 2, None)],
                             workers := both.workers[n + 1 := Worker(Booked(n), 0, {}, 0, 0)],
                             bookings := both.bookings + [(n + 1, n)])
    ensures Scene(limit, workers, seats, f, n + 1) == booked.(workers := booked.workers[0 := First(limit, f, n + 1)])
  {
    var end := Scene(limit, workers, seats, f, n + 1);
    assert end.rows == booked.rows;
    assert end.bookings == booked.bookings;
    SceneWorkersMove(limit, workers, f, n, Losing(f, n), Worker(Selected(n, 1), 0, {}, 0, 0));
  }

  lemma RunTwoMore(s0: System, es: seq<Event>, s: System, e1: Event, e2: Event)
    requires Run(s0, es) && After(s0, es) == s && Enabled(s, e1) && Enabled(Next(s, e1), e2)
    ensures var es' := es + [e1] + [e2]; Run(s0, es') && After(s0, es') == Next(Next(s, e1), e2)
  {
    RunAppend(s0, es, e1);
    RunAppend(s0, es + [e1], e2);
  }

  lemma RoundRuns(s0: System, es: seq<Event>, both: System, booked: System, end: System, n: nat) returns (es': seq<Event>)
    requires Run(s0, es) && OnlyFirstFails(es)
    requires var s := After(s0, es); Enabled(s, Select(0, n)) && Enabled(Next(s, Select(0, n)), Select(n + 1, n))
    requires both == Next(Next(After(s0, es), Select(0, n)), Select(n + 1, n))
    requires Enabled(both, Update(n + 1)) && Enabled(Next(both, Update(n + 1)), Commit(n + 1))
    requires booked == Next(Next(both, Update(n + 1)), Commit(n + 1))
    requires Enabled(booked, Update(0)) && end == Next(booked, Update(0))
    ensures Run(s0, es') && After(s0, es') == end && OnlyFirstFails(es')
  {
    RunTwoMore(s0, es, After(s0, es), Select(0, n), Select(n + 1, n));
    var es1 := es + [Select(0, n)] + [Select(n + 1, n)];
    RunTwoMore(s0, es1, both, Update(n + 1), Commit(n + 1));
    var es2 := es1 + [Update(n + 1)] + [Commit(n + 1)];
    RunAppend(s0, es2, Update(0));
    es' := es2 + [Update(0)];
  }

  /** A run that ends in `s` and in which only worker 0 has faults. */
  ghost predicate LeadsTo(s0: System, es: seq<Event>, s: System) {
    Run(s0, es) && After(s0, es) == s && OnlyFirstFails(es)
  }

  ghost predicate CanReach(s0: System, s: System) {
    exists es :: LeadsTo(s0, es, s)
  }

  lemma SceneMoves(limit: nat, workers: nat, seats: nat, f: nat, n: nat, s0: System)
    requires f + n < limit && n + 1 < workers && n < seats
    requires CanReach(s0, Scene(limit, workers, seats, f, n))
    ensures CanReach(s0, Scene(limit, workers, seats, f, n + 1))
  {
    var es :| LeadsTo(s0, es, Scene(limit, workers, seats, f, n));
    var both := BothSelect(limit, workers, seats, f, n);
    var booked := OtherBooks(both, n);
    SceneCloses(limit, workers, seats, f, n, both, booked);
    FirstLoses(booked, f, n);
    var es' := RoundRuns(s0, es, both, booked, Scene(limit, workers, seats, f, n + 1), n);
    assert LeadsTo(s0, es', Scene(limit, workers, seats, f, n + 1));
  }

  lemma {:induction false} SceneIsReached(limit: nat, workers: nat, seats: nat, f: nat, n: nat, s0: System)
    requires f + n <= limit && n < workers <= seats
    requires CanReach(s0, Scene(limit, workers, seats, f, 0))
    ensures CanReach(s0, Scene(limit, workers, seats, f, n))
    decreases n
  {
    if n != 0 {
      SceneIsReached(limit, workers, seats, f, n - 1, s0);
      SceneMoves(limit, workers, seats, f, n - 1, s0);
    }
  }

  // ---------- The limit is tight ----------

  /** With fewer attempts than workers and own faults, some run leaves worker 0 without a seat. */
  lemma LosingRun(limit: nat, workers: nat, seats: nat, f: nat) returns (es: seq<Event>)
    requires limit < workers + f && 0 < workers <= seats
    ensures Run(Init(limit, workers, seats), es) && OnlyFirstFails(es) && FaultsOf(es, 0) <= f
    ensures 0 < |After(Init(limit, workers, seats), es).workers|
    ensures PhaseOf(After(Init(limit, workers, seats), es), 0).GaveUp?
  {
    var failing := if f < limit then f else limit;
    var faults := FaultsFirst(limit, workers, seats, failing);
    var s0, n := Init(limit, workers, seats), limit - failing;
    assert LeadsTo(s0, faults, Scene(limit, workers, seats, failing, 0));
    SceneIsReached(limit, workers, seats, failing, n, s0);
    es :| LeadsTo(s0, es, Scene(limit, workers, seats, failing, n));
    RunCounts(s0, es, 0);
  }

  /** In every run, a worker with at most `f` faults of its own, whose transactions begin, has
      attempts left until it books. */
  ghost predicate NeverRunsOut(limit: nat, workers: nat, seats: nat, f: nat) {
    forall es, w: nat |
      w < workers && Run(Init(limit, workers, seats), es) && FaultsOf(es, w) <= f && Quit(w) !in es ::
      |After(Init(limit, workers, seats), es).workers| == workers
      && !PhaseOf(After(Init(limit, workers, seats), es), w).GaveUp?
  }

  /** Given a seat for every worker, attempts never run out if and only if they are at least the
      number of workers and the faults together. */
  lemma AttemptsMustCoverFaults(limit: nat, workers: nat, seats: nat, f: nat)
    requires 0 < workers <= seats
    ensures NeverRunsOut(limit, workers, seats, f) <==> workers + f <= limit
  {
    var s0 := Init(limit, workers, seats);
    if workers + f <= limit {
      forall es, w: nat | w < workers && Run(s0, es) && FaultsOf(es, w) <= f && Quit(w) !in es
        ensures |After(s0, es).workers| == workers && !PhaseOf(After(s0, es), w).GaveUp?
      {
        EveryWorkerBooks(limit, workers, seats, es, w);
      }
    } else {
      var es := LosingRun(limit, workers, seats, f);
      assert Quit(0) !in es;
    }
  }

  lemma {:induction false} NoneFails(es: seq<Event>)
    requires OnlyFirstFails(es) && FaultsOf(es, 0) == 0
    ensures NoFaults(es)
  {
    if es != [] {
      assert es[0] in es && OnlyFirstFails(es[1..]);
      NoneFails(es[1..]);
    }
  }

  ghost predicate NobodyGaveUp(s: System) {
    forall w: nat | w < |s.workers| :: !PhaseOf(s, w).GaveUp?
  }

  /** Given a seat for every worker, nobody gives up in any fault-free run if and only if the
      limit is at least the number of workers. The shipped limit of 50 for 100 workers is below
      it. */
  lemma AttemptsMustCoverWorkers(limit: nat, workers: nat, seats: nat)
    requires workers <= seats
    ensures workers <= limit <==> forall es ::
      Run(Init(limit, workers, seats), es) && NoFaults(es) ==> NobodyGaveUp(After(Init(limit, workers, seats), es))
  {
    var s0 := Init(limit, workers, seats);
    if workers <= limit {
      forall es | Run(s0, es) && NoFaults(es) ensures NobodyGaveUp(After(s0, es)) {
        NobodyGivesUp(limit, workers, seats, es);
      }
    } else {
      var es := LosingRun(limit, workers, seats, 0);
      NoneFails(es);
      assert !NobodyGaveUp(After(s0, es));
    }
  }

  lemma NobodyGivesUp(limit: nat, workers: nat, seats: nat, es: seq<Event>)
    requires workers <= seats && workers <= limit && Run(Init(limit, workers, seats), es) && NoFaults(es)
    ensures NobodyGaveUp(After(Init(limit, workers, seats), es))
  {
    var s0 := Init(limit, workers, seats);
    RunFromStart(limit, workers, seats, es);
    forall w: nat | w < workers ensures !PhaseOf(After(s0, es), w).GaveUp? {
      NoFaultsOf(es, w);
      EveryWorkerBooks(limit, workers, seats, es, w);
    }
  }
}
