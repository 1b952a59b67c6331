/** What attempts are used up on, that every run comes to an end, and how many seats are booked
    by then. */
module OptimisticProgress {
  import opened Wrappers
  import opened Counting
  import opened OptimisticBooking

  predicate NoFault(e: Event) {
    !e.Fail? && !e.Quit?
  }

  predicate NoFaults(es: seq<Event>) {
    forall e | e in es :: NoFault(e)
  }

  predicate Active(p: Phase) {
    p.Ready? || p.Selected? || p.Updated?
  }

  ghost predicate AllTaken(s: System) {
    forall i: nat | i < |s.rows| :: s.rows[i].user.Some?
  }

  /** Every attempt the worker used up went to a fault of its own, to a different seat that
      another worker booked, or to finding every seat booked. */
  ghost predicate Charged(s: System, w: nat)
    requires w < |s.workers|
  {
    var me := s.workers[w];
    && me.attempts == |me.lost| + me.faults + me.misses
    && (forall seat | seat in me.lost :: seat < |s.rows| && s.rows[seat].user.Some? && s.rows[seat].user != Some(w))
    && (me.misses > 0 ==> AllTaken(s))
    && (Active(me.phase) ==> me.attempts < s.limit)
    && (me.phase.GaveUp? ==> me.attempts >= s.limit)
    && (me.phase.Selected? ==> me.phase.seat !in me.lost)
  }

  ghost predicate AllCharged(s: System) {
    forall w: nat | w < |s.workers| :: Charged(s, w)
  }

  function UserOf(s: System, seat: nat): nat {
    if seat < |s.rows| && s.rows[seat].user.Some? then s.rows[seat].user.value else 0
  }

  lemma UsersDiffer(s: System, a: nat, b: nat)
    requires Inv(s) && a < |s.rows| && b < |s.rows| && s.rows[a].user.Some? && s.rows[b].user.Some?
    ensures UserOf(s, a) < |s.workers| && PhaseOf(s, UserOf(s, a)) == Booked(a)
    ensures UserOf(s, a) == UserOf(s, b) ==> a == b
  {
    assert RowOk(s, a) && RowOk(s, b);
  }

  /** Booked seats are fewer than the workers while one worker has not booked. */
  lemma BookedSeatsBound(s: System, seats: set<nat>, w: nat)
    requires Inv(s) && w < |s.workers| && !PhaseOf(s, w).Booked?
    requires forall seat | seat in seats :: seat < |s.rows| && s.rows[seat].user.Some?
    ensures |seats| <= |s.workers| - 1
  {
    var f := map seat | seat in seats :: UserOf(s, seat);
    var others := Below(|s.workers|) - {w};
    forall a, b | a in seats && b in seats
      ensures f[a] in others && (f[a] == f[b] ==> a == b)
    {
      UsersDiffer(s, a, b);
    }
    InjectionBounds(f, seats, others);
  }

  /** A worker that has not booked yet finds a free seat. */
  lemma FreeSeatExists(s: System, w: nat) returns (seat: nat)
    requires Inv(s) && |s.workers| <= |s.rows| && w < |s.workers| && !PhaseOf(s, w).Booked?
    ensures seat < |s.rows| && s.rows[seat].user.None?
  {
    if forall i: nat | i < |s.rows| :: s.rows[i].user.Some? {
      BookedSeatsBound(s, Below(|s.rows|), w);
      assert false;
    }
    seat :| seat < |s.rows| && s.rows[seat].user.None?;
  }

  lemma InitCharged(limit: nat, workers: nat, seats: nat)
    ensures AllCharged(Init(limit, workers, seats))
  {
  }

  lemma TakenStays(s: System, e: Event)
    requires Inv(s) && Enabled(s, e) && AllTaken(s)
    ensures AllTaken(Next(s, e))
  {
    var t := Next(s, e);
    assert |t.rows| == |s.rows|;
    forall i: nat | i < |t.rows| ensures t.rows[i].user.Some? {
      BookedStays(s, e, i);
    }
  }

  lemma OthersStayCharged(s: System, e: Event, v: nat)
    requires Inv(s) && Enabled(s, e) && v < |s.workers| && v != e.w && Charged(s, v)
    ensures |Next(s, e).workers| == |s.workers| && Charged(Next(s, e), v)
  {
    var t := Next(s, e);
    assert t.workers[v] == s.workers[v] && t.limit == s.limit && |t.rows| == |s.rows|;
    forall seat | seat in s.workers[v].lost ensures t.rows[seat].user == s.rows[seat].user {
      BookedStays(s, e, seat);
    }
    if s.workers[v].misses > 0 {
      TakenStays(s, e);
    }
  }

  /** A version conflict is charged to the seat another worker has booked meanwhile. */
  lemma ConflictIsCharged(s: System, w: nat)
    requires Inv(s) && Enabled(s, Update(w)) && Charged(s, w)
    requires s.rows[PhaseOf(s, w).seat].version != PhaseOf(s, w).version
    ensures Charged(Next(s, Update(w)), w)
  {
    var seat := PhaseOf(s, w).seat;
    var t := Next(s, Update(w));
    assert WorkerOk(s, w) && RowOk(s, seat);
    assert s.rows[seat].user.Some?;
    assert |s.workers[w].lost + {seat}| == |s.workers[w].lost| + 1;
    forall x | x in t.workers[w].lost ensures x < |t.rows| && t.rows[x].user.Some? && t.rows[x].user != Some(w) {
      UsersDiffer(s, seat, seat);
    }
    if s.workers[w].misses > 0 {
      TakenStays(s, Update(w));
    }
  }

  lemma MissIsCharged(s: System, w: nat)
    requires Inv(s) && Enabled(s, SelectNone(w)) && Charged(s, w)
    ensures Charged(Next(s, SelectNone(w)), w)
  {
    assert AllTaken(s);
    TakenStays(s, SelectNone(w));
  }

  lemma FaultIsCharged(s: System, w: nat)
    requires Inv(s) && Enabled(s, Fail(w)) && Charged(s, w)
    ensures Charged(Next(s, Fail(w)), w)
  {
    if s.workers[w].misses > 0 {
      TakenStays(s, Fail(w));
    }
  }

  lemma CommitIsCharged(s: System, w: nat)
    requires Inv(s) && Enabled(s, Commit(w)) && Charged(s, w)
    ensures Charged(Next(s, Commit(w)), w)
  {
    assert WorkerOk(s, w);
    forall x | x in s.workers[w].lost ensures x != PhaseOf(s, w).seat {
    }
    if s.workers[w].misses > 0 {
      TakenStays(s, Commit(w));
    }
  }

  lemma OwnStepCharged(s: System, e: Event)
    requires Inv(s) && Enabled(s, e) && e.w < |s.workers| && Charged(s, e.w)
    ensures Charged(Next(s, e), e.w)
  {
    var w := e.w;
    match e
    case Select(_, seat) =>
    case SelectNone(_) => MissIsCharged(s, w);
    case Update(_) =>
      if s.rows[PhaseOf(s, w).seat].version != PhaseOf(s, w).version {
        ConflictIsCharged(s, w);
      } else if s.workers[w].misses > 0 {
        TakenStays(s, e);
      }
    case Commit(_) => CommitIsCharged(s, w);
    case Fail(_) => FaultIsCharged(s, w);
    case Quit(_) =>
  }

  lemma NextCharged(s: System, e: Event)
    requires Inv(s) && Enabled(s, e) && AllCharged(s)
    ensures AllCharged(Next(s, e))
  {
    assert Charged(s, e.w);
    OwnStepCharged(s, e);
    forall v: nat | v < |s.workers| ensures Charged(Next(s, e), v) {
      assert Charged(s, v);
      if v != e.w {
        OthersStayCharged(s, e, v);
      }
    }
  }

  lemma {:induction false} RunCharged(s: System, es: seq<Event>)
    requires Inv(s) && AllCharged(s) && Run(s, es)
    ensures Inv(After(s, es)) && AllCharged(After(s, es))
    ensures |After(s, es).workers| == |s.workers| && |After(s, es).rows| == |s.rows|
    ensures After(s, es).limit == s.limit
    decreases es
  {
    if es != [] {
      NextKeepsInv(s, es[0]);
      NextCharged(s, es[0]);
      RunCharged(Next(s, es[0]), es[1..]);
    }
  }

  // ---------- Runs are bounded ----------

  /** Steps a worker can still take: three an attempt. */
  function Effort(limit: nat, me: Worker): nat {
    var left := if me.attempts < limit then 3 * (limit - me.attempts) else 0;
    match me.phase
    case Ready => left + 2
    case Selected(_, _) => left + 1
    case Updated(_) => left
    case _ => 0
  }

  function Efforts(s: System): seq<nat> {
    seq(|s.workers|, i requires 0 <= i < |s.workers| => Effort(s.limit, s.workers[i]))
  }

  lemma StepCostsEffort(s: System, e: Event)
    requires Inv(s) && Enabled(s, e) && AllCharged(s)
    ensures Total(Efforts(Next(s, e))) < Total(Efforts(s))
  {
    var t := Next(s, e);
    assert Charged(s, e.w);
    var effort := Effort(s.limit, t.workers[e.w]);
    assert effort < Effort(s.limit, s.workers[e.w]);
    assert Efforts(t) == Efforts(s)[e.w := effort];
    TotalUpdate(Efforts(s), e.w, effort);
  }

  lemma {:induction false} RunIsBounded(s: System, es: seq<Event>)
    requires Inv(s) && AllCharged(s) && Run(s, es)
    ensures |es| <= Total(Efforts(s))
    decreases es
  {
    if es != [] {
      NextKeepsInv(s, es[0]);
      NextCharged(s, es[0]);
      StepCostsEffort(s, es[0]);
      RunIsBounded(Next(s, es[0]), es[1..]);
    }
  }

  /** No worker waits for ever: whoever holds a lock can commit. */
  lemma SomeoneCanStep(s: System, w: nat) returns (e: Event)
    requires Inv(s) && w < |s.workers| && Active(PhaseOf(s, w))
    ensures Enabled(s, e) && NoFault(e)
  {
    assert WorkerOk(s, w);
    match PhaseOf(s, w)
    case Ready =>
      if seat: nat :| seat < |s.rows| && s.rows[seat].user.None? {
        e := Select(w, seat);
      } else {
        e := SelectNone(w);
      }
    case Selected(seat, _) =>
      assert RowOk(s, seat);
      if s.rows[seat].owner.None? {
        e := Update(w);
      } else {
        e := Commit(s.rows[seat].owner.value);
      }
    case Updated(_) =>
      e := Commit(w);
  }

  ghost predicate Stuck(s: System) {
    forall e | NoFault(e) :: !Enabled(s, e)
  }

  /** How often an event occurs. */
  function Times(es: seq<Event>, e: Event): nat {
    if es == [] then 0 else (if es[0] == e then 1 else 0) + Times(es[1..], e)
  }

  /** How many of a worker's own statements failed. */
  function FaultsOf(es: seq<Event>, w: nat): nat {
    Times(es, Fail(w))
  }

  /** How often a worker found no free seat. */
  function MissesOf(es: seq<Event>, w: nat): nat {
    Times(es, SelectNone(w))
  }

  lemma {:induction false} RunCounts(s: System, es: seq<Event>, w: nat)
    requires Run(s, es) && w < |s.workers|
    ensures |After(s, es).workers| == |s.workers|
    ensures After(s, es).workers[w].faults == s.workers[w].faults + FaultsOf(es, w)
    ensures After(s, es).workers[w].misses == s.workers[w].misses + MissesOf(es, w)
    ensures !PhaseOf(s, w).Failed? && Quit(w) !in es ==> !PhaseOf(After(s, es), w).Failed?
    decreases es
  {
    if es != [] {
      assert es[0] in es;
      RunCounts(Next(s, es[0]), es[1..], w);
    }
  }

  lemma {:induction false} NoFaultsOf(es: seq<Event>, w: nat)
    requires NoFaults(es)
    ensures FaultsOf(es, w) == 0 && Quit(w) !in es
  {
    if es != [] {
      assert es[0] in es && NoFaults(es[1..]);
      NoFaultsOf(es[1..], w);
    }
  }

  /** What holds at the end of any run from the start. */
  lemma RunFromStart(limit: nat, workers: nat, seats: nat, es: seq<Event>)
    requires Run(Init(limit, workers, seats), es)
    ensures var s := After(Init(limit, workers, seats), es);
      Inv(s) && AllCharged(s) && |s.workers| == workers && |s.rows| == seats && s.limit == limit
  {
    InitInv(limit, workers, seats);
    InitCharged(limit, workers, seats);
    RunCharged(Init(limit, workers, seats), es);
  }

  /** Every run comes to an end, however many seats there are and whatever fails. */
  lemma RunsEnd(limit: nat, workers: nat, seats: nat, es: seq<Event>)
    requires Run(Init(limit, workers, seats), es)
    ensures |es| <= workers * (3 * limit + 2)
  {
    InitInv(limit, workers, seats);
    InitCharged(limit, workers, seats);
    RunIsBounded(Init(limit, workers, seats), es);
    EffortsAtStart(limit, workers, seats);
  }

  lemma EffortsAtStart(limit: nat, workers: nat, seats: nat)
    ensures Total(Efforts(Init(limit, workers, seats))) <= workers * (3 * limit + 2)
  {
    var efforts := Efforts(Init(limit, workers, seats));
    var each := if limit > 0 then 3 * limit + 2 else 0;
    forall i | 0 <= i < |efforts| ensures efforts[i] == each {
    }
    TotalOfSame(efforts, each);
  }

  /** Each attempt a worker used up is accounted for: by a fault of its own, by finding no free
      seat, or by losing a seat, every time another one, which every time another worker booked;
      and it finds none only when every seat is booked. */
  lemma ConflictsAreCharged(limit: nat, workers: nat, seats: nat, es: seq<Event>, w: nat)
    requires w < workers && Run(Init(limit, workers, seats), es)
    ensures var s := After(Init(limit, workers, seats), es);
      && |s.workers| == workers
      && s.workers[w].attempts == |s.workers[w].lost| + FaultsOf(es, w) + MissesOf(es, w)
      && (forall seat | seat in s.workers[w].lost ::
            seat < |s.rows| && s.rows[seat].user.Some? && s.rows[seat].user != Some(w))
      && (forall a, b | a in s.workers[w].lost && b in s.workers[w].lost && UserOf(s, a) == UserOf(s, b) :: a == b)
      && (MissesOf(es, w) > 0 ==> AllTaken(s))
  {
    var s := After(Init(limit, workers, seats), es);
    RunFromStart(limit, workers, seats, es);
    RunCounts(Init(limit, workers, seats), es, w);
    assert Charged(s, w);
    forall a, b | a in s.workers[w].lost && b in s.workers[w].lost && UserOf(s, a) == UserOf(s, b) ensures a == b {
      UsersDiffer(s, a, b);
    }
  }

  // ---------- How many are booked ----------

  function BookedSeats(s: System): set<nat> {
    set i | i in Below(|s.rows|) && s.rows[i].user.Some?
  }

  /** A worker gives up only when its attempts went to faults and to booked seats, or every seat
      is booked. */
  lemma GivingUpTakesBookings(s: System, w: nat)
    requires Inv(s) && w < |s.workers| && Charged(s, w) && PhaseOf(s, w).GaveUp?
    ensures |BookedSeats(s)| + s.workers[w].faults >= s.limit || |BookedSeats(s)| == |s.rows|
  {
    if s.workers[w].misses > 0 {
      assert BookedSeats(s) == Below(|s.rows|);
    } else {
      SubsetBounds(s.workers[w].lost, BookedSeats(s));
    }
  }

  lemma AttemptsSuffice(s: System, w: nat)
    requires Inv(s) && w < |s.workers| <= |s.rows| && Charged(s, w)
    requires |s.workers| + s.workers[w].faults <= s.limit
    ensures !PhaseOf(s, w).GaveUp?
  {
    if PhaseOf(s, w).GaveUp? {
      GivingUpTakesBookings(s, w);
      BookedSeatsBound(s, BookedSeats(s), w);
    }
  }

  /** With at least as many seats as workers a worker has booked one in the end, if its
      transactions began and its attempts cover the workers and its own faults; the faults of
      others cost it nothing. */
  lemma EveryWorkerBooks(limit: nat, workers: nat, seats: nat, es: seq<Event>, w: nat)
    requires w < workers <= seats && Run(Init(limit, workers, seats), es)
    requires Quit(w) !in es && workers + FaultsOf(es, w) <= limit
    ensures var s := After(Init(limit, workers, seats), es);
      && |s.workers| == workers && !PhaseOf(s, w).GaveUp? && !PhaseOf(s, w).Failed?
      && (Stuck(s) ==> PhaseOf(s, w).Booked?)
  {
    var s := After(Init(limit, workers, seats), es);
    RunFromStart(limit, workers, seats, es);
    RunCounts(Init(limit, workers, seats), es, w);
    assert Charged(s, w);
    AttemptsSuffice(s, w);
    StuckMeansDone(s, w);
  }

  lemma StuckMeansDone(s: System, w: nat)
    requires Inv(s) && w < |s.workers|
    ensures Stuck(s) ==> !Active(PhaseOf(s, w))
  {
    if Stuck(s) && Active(PhaseOf(s, w)) {
      var e := SomeoneCanStep(s, w);
    }
  }

  lemma BookedWorkersBound(s: System)
    requires Inv(s) && forall w: nat | w < |s.workers| :: PhaseOf(s, w).Booked?
    ensures |BookedSeats(s)| >= |s.workers|
  {
    var ws := Below(|s.workers|);
    var seatOf := map w: nat | w in ws :: PhaseOf(s, w).seat;
    forall v, w | v in ws && w in ws ensures seatOf[v] in BookedSeats(s) && (seatOf[v] == seatOf[w] ==> v == w) {
      assert WorkerOk(s, v) && WorkerOk(s, w);
    }
    InjectionBounds(seatOf, ws, BookedSeats(s));
  }

  function Least(limit: nat, workers: nat, seats: nat): nat {
    if limit <= workers && limit <= seats then limit else if workers <= seats then workers else seats
  }

  /** A fault-free run that has come to its end has booked at least as many seats as there are
      attempts, workers or seats, whichever are fewest; at least 50 with the shipped 50 attempts, 100
      workers and 100 seats. */
  lemma FinishedRunBooks(limit: nat, workers: nat, seats: nat, es: seq<Event>)
    requires Run(Init(limit, workers, seats), es) && NoFaults(es) && Stuck(After(Init(limit, workers, seats), es))
    ensures |BookedSeats(After(Init(limit, workers, seats), es))| >= Least(limit, workers, seats)
  {
    var s := After(Init(limit, workers, seats), es);
    RunFromStart(limit, workers, seats, es);
    if w: nat :| w < |s.workers| && PhaseOf(s, w).GaveUp? {
      RunCounts(Init(limit, workers, seats), es, w);
      NoFaultsOf(es, w);
      assert Charged(s, w);
      GivingUpTakesBookings(s, w);
    } else {
      forall w: nat | w < |s.workers| ensures PhaseOf(s, w).Booked? {
        RunCounts(Init(limit, workers, seats), es, w);
        NoFaultsOf(es, w);
        StuckMeansDone(s, w);
      }
      BookedWorkersBound(s);
    }
  }
}
