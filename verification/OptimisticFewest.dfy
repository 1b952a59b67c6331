/** How few seats a finished fault-free run can book: exactly as many as there are attempts,
    workers or seats, whichever are fewest. The run that books no more goes in rounds: every
    worker that is left selects the same seat, one books it, and the others lose an attempt. */
module OptimisticFewest {
  import opened Wrappers
  import opened Counting
  import opened OptimisticBooking
  import opened OptimisticProgress

  // ---------- A round ----------

  /** A worker that has lost the first `n` seats, and goes on if it has attempts left. */
  function Waiting(limit: nat, n: nat): Worker {
    Worker(if n < limit then Ready else GaveUp, n, Below(n), 0, 0)
  }

  function Choosing(n: nat): Worker {
    Worker(Selected(n, 1), n, Below(n), 0, 0)
  }

  function Done(n: nat): Worker {
    Worker(Booked(n), n, Below(n), 0, 0)
  }

  /** Worker `i` in round `n`: before the booking the workers below `k` have selected, after it
      they have lost. */
  function WorkerAt(limit: nat, n: nat, booked: bool, k: nat, i: nat): Worker {
    if i < n then Done(i)
    else if !booked then (if i < k then Choosing(n) else Waiting(limit, n))
    else if i == n then Done(n)
    else if i < k then Waiting(limit, n + 1)
    else Choosing(n)
  }

  function WorkersAt(limit: nat, workers: nat, n: nat, booked: bool, k: nat): seq<Worker> {
    seq(workers, i requires 0 <= i => WorkerAt(limit, n, booked, k, i))
  }

  /** The first `taken` seats are booked, each by the worker of its number. */
  function RowsAt(seats: nat, taken: nat): seq<Row> {
    seq(seats, i requires 0 <= i => if i < taken then Row(Some(i), 2, None) else Row(None, 1, None))
  }

  function Bookings(taken: nat): seq<(nat, nat)> {
    seq(taken, i requires 0 <= i => (i, i))
  }

  function Round(limit: nat, workers: nat, seats: nat, n: nat, booked: bool, k: nat): System {
    var taken := if booked then n + 1 else n;
    System(limit, RowsAt(seats, taken), WorkersAt(limit, workers, n, booked, k), Bookings(taken))
  }

  predicate HasRound(limit: nat, workers: nat, seats: nat, n: nat) {
    n < limit && n < workers && n < seats
  }

  lemma WorkersSelect(limit: nat, workers: nat, n: nat, k: nat)
    requires n <= k < workers
    ensures WorkersAt(limit, workers, n, false, k)[k := Choosing(n)] == WorkersAt(limit, workers, n, false, k + 1)
  {
  }

  lemma WorkersBook(limit: nat, workers: nat, n: nat)
    requires n < workers
    ensures WorkersAt(limit, workers, n, false, workers)[n := Done(n)] == WorkersAt(limit, workers, n, true, n + 1)
  {
  }

  lemma WorkersLose(limit: nat, workers: nat, n: nat, k: nat)
    requires n < k < workers
    ensures WorkersAt(limit, workers, n, true, k)[k := Waiting(limit, n + 1)]
         == WorkersAt(limit, workers, n, true, k + 1)
  {
  }

  lemma SelectMoves(limit: nat, workers: nat, seats: nat, n: nat, k: nat)
    requires HasRound(limit, workers, seats, n) && n <= k < workers
    ensures var s := Round(limit, workers, seats, n, false, k);
      Enabled(s, Select(k, n)) && Next(s, Select(k, n)) == Round(limit, workers, seats, n, false, k + 1)
  {
    var s := Round(limit, workers, seats, n, false, k);
    assert s.rows[n] == Row(None, 1, None) && s.workers[k] == Waiting(limit, n);
    WorkersSelect(limit, workers, n, k);
  }

  lemma UpdateMoves(limit: nat, workers: nat, seats: nat, n: nat)
    requires HasRound(limit, workers, seats, n)
    ensures var s := Round(limit, workers, seats, n, false, workers);
      && Enabled(s, Update(n)) && s.workers[n] == Choosing(n)
      && Next(s, Update(n)) == Moved(s.(rows := s.rows[n := Row(None, 1, Some(n))]), n, Updated(n))
  {
    var s := Round(limit, workers, seats, n, false, workers);
    assert s.rows[n] == Row(None, 1, None) && s.workers[n] == Choosing(n);
  }

  lemma SeatIsBooked(seats: nat, n: nat)
    requires n < seats
    ensures RowsAt(seats, n)[n := Row(Some(n), 2, None)] == RowsAt(seats, n + 1)
    ensures Bookings(n) + [(n, n)] == Bookings(n + 1)
  {
  }

  lemma CommitMoves(limit: nat, workers: nat, seats: nat, n: nat)
    requires HasRound(limit, workers, seats, n)
    ensures var s := Round(limit, workers, seats, n, false, workers);
      var u := Moved(s.(rows := s.rows[n := Row(None, 1, Some(n))]), n, Updated(n));
      Enabled(u, Commit(n)) && Next(u, Commit(n)) == Round(limit, workers, seats, n, true, n + 1)
  {
    var s := Round(limit, workers, seats, n, false, workers);
    var u := Moved(s.(rows := s.rows[n := Row(None, 1, Some(n))]), n, Updated(n));
    var t, end := Next(u, Commit(n)), Round(limit, workers, seats, n, true, n + 1);
    assert s.workers[n] == Choosing(n);
    assert t.workers == s.workers[n := Done(n)];
    WorkersBook(limit, workers, n);
    assert t.rows == s.rows[n := Row(Some(n), 2, None)] && t.bookings == s.bookings + [(n, n)];
    SeatIsBooked(seats, n);
    assert t.rows == end.rows && t.bookings == end.bookings;
  }

  lemma LoserWaits(limit: nat, n: nat)
    ensures Charge(Choosing(n), if n + 1 < limit then Ready else GaveUp, LostTo(n)) == Waiting(limit, n + 1)
  {
    assert Below(n) + {n} == Below(n + 1);
  }

  /** Rolling back a worker that holds no lock moves that worker only. */
  lemma NothingToRelease(s: System, k: nat, cause: Cause)
    requires k < |s.workers| && forall i | 0 <= i < |s.rows| :: s.rows[i].owner.None?
    ensures var me := s.workers[k];
      RolledBack(s, k, cause)
        == s.(workers := s.workers[k := Charge(me, if me.attempts + 1 < s.limit then Ready else GaveUp, cause)])
  {
    assert RolledBack(s, k, cause).rows == s.rows;
  }

  lemma LosingMoves(limit: nat, workers: nat, seats: nat, n: nat, k: nat)
    requires HasRound(limit, workers, seats, n) && n < k < workers
    ensures var s := Round(limit, workers, seats, n, true, k);
      && Enabled(s, Update(k)) && Next(s, Update(k)) == RolledBack(s, k, LostTo(n))
      && RolledBack(s, k, LostTo(n)) == Round(limit, workers, seats, n, true, k + 1)
  {
    var s := Round(limit, workers, seats, n, true, k);
    assert s.rows[n] == Row(Some(n), 2, None) && s.workers[k] == Choosing(n);
    NothingToRelease(s, k, LostTo(n));
    LoserWaits(limit, n);
    WorkersLose(limit, workers, n, k);
  }

  lemma RoundEnds(limit: nat, workers: nat, seats: nat, n: nat)
    requires HasRound(limit, workers, seats, n)
    ensures Round(limit, workers, seats, n, true, workers) == Round(limit, workers, seats, n + 1, false, n + 1)
  {
    assert WorkersAt(limit, workers, n, true, workers) == WorkersAt(limit, workers, n + 1, false, n + 1);
  }

  // ---------- All rounds ----------

  /** Some fault-free run leads from the one state to the other. */
  ghost predicate Reaches(s: System, t: System) {
    exists es :: Run(s, es) && NoFaults(es) && After(s, es) == t
  }

  lemma ReachesItself(s: System)
    ensures Reaches(s, s)
  {
    assert Run(s, []) && NoFaults([]) && After(s, []) == s;
  }

  lemma ReachesNext(s: System, t: System, e: Event)
    requires Reaches(s, t) && Enabled(t, e) && NoFault(e)
    ensures Reaches(s, Next(t, e))
  {
    var es :| Run(s, es) && NoFaults(es) && After(s, es) == t;
    RunAppend(s, es, e);
    assert NoFaults(es + [e]);
  }

  lemma {:induction false} AllSelect(s0: System, limit: nat, workers: nat, seats: nat, n: nat, k: nat)
    requires HasRound(limit, workers, seats, n) && n <= k <= workers
    requires Reaches(s0, Round(limit, workers, seats, n, false, n))
    ensures Reaches(s0, Round(limit, workers, seats, n, false, k))
    decreases k
  {
    if k > n {
      AllSelect(s0, limit, workers, seats, n, k - 1);
      SelectMoves(limit, workers, seats, n, k - 1);
      ReachesNext(s0, Round(limit, workers, seats, n, false, k - 1), Select(k - 1, n));
    }
  }

  lemma OneBooks(s0: System, limit: nat, workers: nat, seats: nat, n: nat)
    requires HasRound(limit, workers, seats, n)
    requires Reaches(s0, Round(limit, workers, seats, n, false, workers))
    ensures Reaches(s0, Round(limit, workers, seats, n, true, n + 1))
  {
    var s := Round(limit, workers, seats, n, false, workers);
    UpdateMoves(limit, workers, seats, n);
    CommitMoves(limit, workers, seats, n);
    ReachesNext(s0, s, Update(n));
    ReachesNext(s0, Next(s, Update(n)), Commit(n));
  }

  lemma {:induction false} OthersLose(s0: System, limit: nat, workers: nat, seats: nat, n: nat, k: nat)
    requires HasRound(limit, workers, seats, n) && n < k <= workers
    requires Reaches(s0, Round(limit, workers, seats, n, true, n + 1))
    ensures Reaches(s0, Round(limit, workers, seats, n, true, k))
    decreases k
  {
    if k > n + 1 {
      OthersLose(s0, limit, workers, seats, n, k - 1);
      LosingMoves(limit, workers, seats, n, k - 1);
      ReachesNext(s0, Round(limit, workers, seats, n, true, k - 1), Update(k - 1));
    }
  }

  lemma {:induction false} RoundIsReached(s0: System, limit: nat, workers: nat, seats: nat, n: nat)
    requires n <= Least(limit, workers, seats) && s0 == Round(limit, workers, seats, 0, false, 0)
    ensures Reaches(s0, Round(limit, workers, seats, n, false, n))
    decreases n
  {
    if n == 0 {
      ReachesItself(s0);
    } else {
      RoundIsReached(s0, limit, workers, seats, n - 1);
      AllSelect(s0, limit, workers, seats, n - 1, workers);
      OneBooks(s0, limit, workers, seats, n - 1);
      OthersLose(s0, limit, workers, seats, n - 1, workers);
      RoundEnds(limit, workers, seats, n - 1);
    }
  }

  lemma RoundsStart(limit: nat, workers: nat, seats: nat)
    ensures Init(limit, workers, seats) == Round(limit, workers, seats, 0, false, 0)
  {
    var s, t := Init(limit, workers, seats), Round(limit, workers, seats, 0, false, 0);
    assert |Below(0)| == 0;
    assert Waiting(limit, 0) == Fresh(limit);
    assert s.rows == t.rows && s.bookings == t.bookings;
    assert s.workers == t.workers;
  }

  // ---------- The end ----------

  /** Any run can go on to an end without a fault. */
  lemma {:induction false} RunToEnd(s0: System, s: System)
    requires Inv(s) && AllCharged(s) && Reaches(s0, s)
    ensures exists t :: Reaches(s0, t) && Stuck(t)
    decreases Total(Efforts(s))
  {
    if !Stuck(s) {
      var e :| NoFault(e) && Enabled(s, e);
      NextKeepsInv(s, e);
      NextCharged(s, e);
      StepCostsEffort(s, e);
      ReachesNext(s0, s, e);
      RunToEnd(s0, Next(s, e));
    }
  }

  lemma RoundIsCounted(limit: nat, workers: nat, seats: nat, n: nat)
    requires n <= seats
    ensures |BookedSeats(Round(limit, workers, seats, n, false, n))| == n
  {
    assert BookedSeats(Round(limit, workers, seats, n, false, n)) == Below(n);
  }

  /** With no attempt or no worker left over, the rounds are at their end. */
  lemma RoundIsStuck(limit: nat, workers: nat, seats: nat, n: nat)
    requires n <= workers && n <= seats && (n == limit || n == workers)
    ensures Stuck(Round(limit, workers, seats, n, false, n))
  {
    var s := Round(limit, workers, seats, n, false, n);
    forall e | NoFault(e) ensures !Enabled(s, e) {
      if e.w < workers {
        assert s.workers[e.w] == WorkerAt(limit, n, false, n, e.w);
        assert s.workers[e.w].phase.Booked? || s.workers[e.w].phase.GaveUp?;
      }
    }
  }

  lemma FewestHappens(limit: nat, workers: nat, seats: nat) returns (es: seq<Event>)
    ensures Run(Init(limit, workers, seats), es) && NoFaults(es) && Stuck(After(Init(limit, workers, seats), es))
    ensures |BookedSeats(After(Init(limit, workers, seats), es))| == Least(limit, workers, seats)
  {
    var s0, n := Init(limit, workers, seats), Least(limit, workers, seats);
    var s := Round(limit, workers, seats, n, false, n);
    RoundsStart(limit, workers, seats);
    RoundIsReached(s0, limit, workers, seats, n);
    if n == limit || n == workers {
      RoundIsStuck(limit, workers, seats, n);
      RoundIsCounted(limit, workers, seats, n);
      es :| Run(s0, es) && NoFaults(es) && After(s0, es) == s;
    } else {
      es := EndWithAllSeats(limit, workers, seats);
    }
  }

  lemma EndWithAllSeats(limit: nat, workers: nat, seats: nat) returns (es: seq<Event>)
    requires Least(limit, workers, seats) == seats
    ensures Run(Init(limit, workers, seats), es) && NoFaults(es) && Stuck(After(Init(limit, workers, seats), es))
    ensures |BookedSeats(After(Init(limit, workers, seats), es))| == seats
  {
    var s0 := Init(limit, workers, seats);
    InitInv(limit, workers, seats);
    InitCharged(limit, workers, seats);
    ReachesItself(s0);
    RunToEnd(s0, s0);
    var t :| Reaches(s0, t) && Stuck(t);
    es :| Run(s0, es) && NoFaults(es) && After(s0, es) == t;
    FinishedRunBooks(limit, workers, seats, es);
    RunFromStart(limit, workers, seats, es);
    SubsetBounds(BookedSeats(t), Below(seats));
  }

  /** Every finished fault-free run books at least `k` seats if and only if `k` is at most the
      number of attempts, of workers and of seats. */
  lemma FewestBookings(limit: nat, workers: nat, seats: nat, k: nat)
    ensures k <= Least(limit, workers, seats) <==> forall es ::
      Run(Init(limit, workers, seats), es) && NoFaults(es) && Stuck(After(Init(limit, workers, seats), es))
      ==> |BookedSeats(After(Init(limit, workers, seats), es))| >= k
  {
    var s0 := Init(limit, workers, seats);
    forall es | Run(s0, es) && NoFaults(es) && Stuck(After(s0, es))
      ensures |BookedSeats(After(s0, es))| >= Least(limit, workers, seats)
    {
      FinishedRunBooks(limit, workers, seats, es);
    }
    var es := FewestHappens(limit, workers, seats);
  }
}
