/** Booking seats with SELECT ... FOR UPDATE SKIP LOCKED, one attempt a worker: take the lock on
    some free row nobody has locked, put the user in it, commit. Every statement sent to the
    database is one step; the lock is held to commit or rollback. */
module SkipLockedBooking {
  import opened Wrappers
  import opened Counting

  /** A committed row, and which worker's transaction has it locked. */
  datatype Row = Row(user: Option<nat>, owner: Option<nat>)

  datatype Phase =
    | Ready
    | Holding(seat: nat)
    | Updated(seat: nat)
    | Booked(seat: nat)
    | Failed

  datatype System = System(rows: seq<Row>, workers: seq<Phase>)

  datatype Event =
    | Select(w: nat, seat: nat)
    | SelectNone(w: nat)
    | Update(w: nat)
    | Commit(w: nat)
    | Fail(w: nat)

  function Init(workers: nat, seats: nat): System {
    System(seq(seats, _ => Row(None, None)), seq(workers, _ => Ready))
  }

  /** What SKIP LOCKED can return. */
  predicate Open(row: Row) {
    row.user.None? && row.owner.None?
  }

  predicate Active(p: Phase) {
    p.Ready? || p.Holding? || p.Updated?
  }

  function Moved(s: System, w: nat, phase: Phase): System
    requires w < |s.workers|
  {
    s.(workers := s.workers[w := phase])
  }

  /** The transaction is rolled back and its lock released; there is no other attempt. */
  function RolledBack(s: System, w: nat): System
    requires w < |s.workers|
  {
    s.(rows := seq(|s.rows|, i requires 0 <= i < |s.rows| =>
                 if s.rows[i].owner == Some(w) then s.rows[i].(owner := None) else s.rows[i]),
       workers := s.workers[w := Failed])
  }

  predicate Enabled(s: System, e: Event) {
    && e.w < |s.workers|
    && match e
       case Select(w, seat) => s.workers[w].Ready? && seat < |s.rows| && Open(s.rows[seat])
       case SelectNone(w) => s.workers[w].Ready? && forall i | 0 <= i < |s.rows| :: !Open(s.rows[i])
       case Update(w) => s.workers[w].Holding?
       case Commit(w) => s.workers[w].Updated? && s.workers[w].seat < |s.rows|
       case Fail(w) => Active(s.workers[w])
  }

  /** The update names the row by its id, so it changes no row only if there is none. */
  function Next(s: System, e: Event): System
    requires Enabled(s, e)
  {
    match e
    case Select(w, seat) =>
      Moved(s.(rows := s.rows[seat := s.rows[seat].(owner := Some(w))]), w, Holding(seat))
    case SelectNone(w) => RolledBack(s, w)
    case Update(w) =>
      if s.workers[w].seat < |s.rows| then Moved(s, w, Updated(s.workers[w].seat)) else RolledBack(s, w)
    case Commit(w) =>
      var seat := s.workers[w].seat;
      Moved(s.(rows := s.rows[seat := Row(Some(w), None)]), w, Booked(seat))
    case Fail(w) => RolledBack(s, w)
  }

  // ---------- Safety ----------

  ghost predicate RowOk(s: System, seat: nat)
    requires seat < |s.rows|
  {
    var row := s.rows[seat];
    && (row.user.Some? ==> row.owner.None?)
    && (row.user.Some? ==> row.user.value < |s.workers| && s.workers[row.user.value] == Booked(seat))
    && (row.owner.Some? ==> row.owner.value < |s.workers|)
    && (row.owner.Some? ==> s.workers[row.owner.value] in {Holding(seat), Updated(seat)})
  }

  ghost predicate WorkerOk(s: System, w: nat)
    requires w < |s.workers|
  {
    match s.workers[w]
    case Holding(seat) => seat < |s.rows| && s.rows[seat] == Row(None, Some(w))
    case Updated(seat) => seat < |s.rows| && s.rows[seat] == Row(None, Some(w))
    case Booked(seat) => seat < |s.rows| && s.rows[seat] == Row(Some(w), None)
    case _ => true
  }

  ghost predicate Inv(s: System) {
    && (forall seat: nat | seat < |s.rows| :: RowOk(s, seat))
    && (forall w: nat | w < |s.workers| :: WorkerOk(s, w))
  }

  lemma InitInv(workers: nat, seats: nat)
    ensures Inv(Init(workers, seats))
  {
  }

  lemma NextKeepsInv(s: System, e: Event)
    requires Inv(s) && Enabled(s, e)
    ensures Inv(Next(s, e))
    ensures |Next(s, e).rows| == |s.rows| && |Next(s, e).workers| == |s.workers|
  {
    var t := Next(s, e);
    assert WorkerOk(s, e.w);
    forall seat: nat | seat < |t.rows| ensures RowOk(t, seat) {
      assert RowOk(s, seat);
    }
    forall v: nat | v < |t.workers| ensures WorkerOk(t, v) {
      assert WorkerOk(s, v);
    }
  }

  // ---------- Runs ----------

  ghost predicate Run(s: System, es: seq<Event>)
    decreases es
  {
    es == [] || (Enabled(s, es[0]) && Run(Next(s, es[0]), es[1..]))
  }

  ghost function After(s: System, es: seq<Event>): System
    requires Run(s, es)
    decreases es
  {
    if es == [] then s else After(Next(s, es[0]), es[1..])
  }

  lemma {:induction false} RunKeepsInv(s: System, es: seq<Event>)
    requires Inv(s) && Run(s, es)
    ensures Inv(After(s, es))
    ensures |After(s, es).rows| == |s.rows| && |After(s, es).workers| == |s.workers|
    decreases es
  {
    if es != [] {
      NextKeepsInv(s, es[0]);
      RunKeepsInv(Next(s, es[0]), es[1..]);
    }
  }

  lemma {:induction false} RunKeepsBooking(s: System, es: seq<Event>, seat: nat)
    requires Inv(s) && Run(s, es) && seat < |s.rows| && s.rows[seat].user.Some?
    ensures |After(s, es).rows| == |s.rows| && After(s, es).rows[seat] == s.rows[seat]
    decreases es
  {
    if es != [] {
      assert RowOk(s, seat) && WorkerOk(s, es[0].w);
      NextKeepsInv(s, es[0]);
      RunKeepsBooking(Next(s, es[0]), es[1..], seat);
    }
  }

  /** Whatever the interleaving and whatever fails: two workers never hold or book the same
      seat, and no user is on two seats. */
  lemma NoDoubleBooking(workers: nat, seats: nat, es: seq<Event>)
    requires Run(Init(workers, seats), es)
    ensures var s := After(Init(workers, seats), es);
      && (forall v: nat, w: nat | v < w < |s.workers| && !s.workers[v].Ready? && !s.workers[v].Failed?
                                  && !s.workers[w].Ready? && !s.workers[w].Failed? ::
            s.workers[v].seat != s.workers[w].seat)
      && (forall i, j | 0 <= i < j < |s.rows| && s.rows[i].user.Some? :: s.rows[i].user != s.rows[j].user)
      && (forall w: nat, i: nat | w < |s.workers| && i < |s.rows| ::
            s.rows[i].user == Some(w) <==> s.workers[w] == Booked(i))
  {
    InitInv(workers, seats);
    RunKeepsInv(Init(workers, seats), es);
    var s := After(Init(workers, seats), es);
    forall v: nat, w: nat | v < w < |s.workers| && !s.workers[v].Ready? && !s.workers[v].Failed?
                            && !s.workers[w].Ready? && !s.workers[w].Failed?
      ensures s.workers[v].seat != s.workers[w].seat
    {
      assert WorkerOk(s, v) && WorkerOk(s, w);
    }
    forall i, j | 0 <= i < j < |s.rows| && s.rows[i].user.Some? ensures s.rows[i].user != s.rows[j].user {
      assert RowOk(s, i) && RowOk(s, j);
    }
    forall w: nat, i: nat | w < |s.workers| && i < |s.rows|
      ensures s.rows[i].user == Some(w) <==> s.workers[w] == Booked(i)
    {
      assert RowOk(s, i) && WorkerOk(s, w);
    }
  }

  /** A booked seat keeps its user for ever. */
  lemma BookingIsFinal(workers: nat, seats: nat, es: seq<Event>, es': seq<Event>, seat: nat)
    requires Run(Init(workers, seats), es) && Run(After(Init(workers, seats), es), es')
    requires var s := After(Init(workers, seats), es); seat < |s.rows| && s.rows[seat].user.Some?
    ensures var s := After(Init(workers, seats), es);
      seat < |After(s, es').rows| && After(s, es').rows[seat] == s.rows[seat]
  {
    InitInv(workers, seats);
    RunKeepsInv(Init(workers, seats), es);
    RunKeepsBooking(After(Init(workers, seats), es), es', seat);
  }

  // ---------- Progress ----------

  function TakerOf(s: System, seat: nat): nat
    requires seat < |s.rows| && !Open(s.rows[seat])
  {
    if s.rows[seat].user.Some? then s.rows[seat].user.value else s.rows[seat].owner.value
  }

  lemma TakersDiffer(s: System, i: nat, j: nat)
    requires Inv(s) && i < |s.rows| && j < |s.rows| && !Open(s.rows[i]) && !Open(s.rows[j])
    ensures TakerOf(s, i) < |s.workers| && !s.workers[TakerOf(s, i)].Ready? && !s.workers[TakerOf(s, i)].Failed?
    ensures TakerOf(s, i) == TakerOf(s, j) ==> i == j
  {
    assert RowOk(s, i) && RowOk(s, j);
  }

  /** If no row is open, every seat has been taken by a worker of its own. */
  lemma TakersAreDistinct(s: System, w: nat)
    requires Inv(s) && w < |s.workers| && (s.workers[w].Ready? || s.workers[w].Failed?)
    requires forall i | 0 <= i < |s.rows| :: !Open(s.rows[i])
    ensures |s.rows| < |s.workers|
  {
    var seats := Below(|s.rows|);
    var takers := map i: nat | i in seats :: TakerOf(s, i);
    var others := Below(|s.workers|) - {w};
    forall i, j | i in seats && j in seats
      ensures takers[i] in others && (takers[i] == takers[j] ==> i == j)
    {
      TakersDiffer(s, i, j);
    }
    InjectionBounds(takers, seats, others);
    AllButOne(|s.workers|, w);
  }

  /** With a seat for every worker a worker about to select always finds an open row. */
  lemma OpenSeatExists(s: System, w: nat) returns (seat: nat)
    requires Inv(s) && w < |s.workers| && s.workers[w].Ready? && |s.workers| <= |s.rows|
    ensures Enabled(s, Select(w, seat))
  {
    if forall i | 0 <= i < |s.rows| :: !Open(s.rows[i]) {
      TakersAreDistinct(s, w);
      assert false;
    }
    seat :| seat < |s.rows| && Open(s.rows[seat]);
  }

  function StepsLeft(p: Phase): nat {
    match p
    case Ready => 3
    case Holding(_) => 2
    case Updated(_) => 1
    case _ => 0
  }

  function Remaining(s: System): seq<nat> {
    seq(|s.workers|, i requires 0 <= i < |s.workers| => StepsLeft(s.workers[i]))
  }

  lemma StepUsesOne(s: System, e: Event)
    requires Enabled(s, e)
    ensures Total(Remaining(Next(s, e))) < Total(Remaining(s))
  {
    var t := Next(s, e);
    assert Remaining(t) == Remaining(s)[e.w := StepsLeft(t.workers[e.w])];
    TotalUpdate(Remaining(s), e.w, StepsLeft(t.workers[e.w]));
  }

  lemma {:induction false} RunIsBounded(s: System, es: seq<Event>)
    requires Run(s, es)
    ensures |es| <= Total(Remaining(s))
    decreases es
  {
    if es != [] {
      StepUsesOne(s, es[0]);
      RunIsBounded(Next(s, es[0]), es[1..]);
    }
  }

  predicate NoFault(e: Event) {
    !e.Fail?
  }

  /** Nothing is left to do but fail. */
  ghost predicate Stuck(s: System) {
    forall e | NoFault(e) :: !Enabled(s, e)
  }

  /** No worker waits: whatever its next statement is, the database can run it. */
  lemma CanStep(s: System, w: nat) returns (e: Event)
    requires Inv(s) && w < |s.workers| && Active(s.workers[w])
    ensures Enabled(s, e) && NoFault(e) && e.w == w
  {
    assert WorkerOk(s, w);
    match s.workers[w]
    case Ready =>
      if forall i | 0 <= i < |s.rows| :: !Open(s.rows[i]) {
        e := SelectNone(w);
      } else {
        var seat: nat :| seat < |s.rows| && Open(s.rows[seat]);
        e := Select(w, seat);
      }
    case Holding(_) => e := Update(w);
    case Updated(_) => e := Commit(w);
  }

  lemma StuckMeansDone(s: System, w: nat)
    requires Inv(s) && Stuck(s) && w < |s.workers|
    ensures s.workers[w].Booked? || s.workers[w].Failed?
  {
    if Active(s.workers[w]) {
      var e := CanStep(s, w);
    }
  }

  /** A worker fails only by a fault of its own. */
  lemma {:induction false} RunLosesNobody(s: System, es: seq<Event>, w: nat)
    requires Inv(s) && Run(s, es) && |s.workers| <= |s.rows| && w < |s.workers| && !s.workers[w].Failed?
    requires Fail(w) !in es
    ensures w < |After(s, es).workers| && !After(s, es).workers[w].Failed?
    decreases es
  {
    if es != [] {
      assert WorkerOk(s, es[0].w);
      assert es[0] in es;
      if es[0].SelectNone? {
        var seat := OpenSeatExists(s, es[0].w);
        assert false;
      }
      NextKeepsInv(s, es[0]);
      RunLosesNobody(Next(s, es[0]), es[1..], w);
    }
  }

  /** With at least as many seats as workers, every run comes to an end, and in the end every
      worker whose own statements did not fail has a seat, even if other workers' did. */
  lemma EveryWorkerBooks(workers: nat, seats: nat, es: seq<Event>, w: nat)
    requires workers <= seats && w < workers
    requires Run(Init(workers, seats), es) && Fail(w) !in es
    ensures var s := After(Init(workers, seats), es);
      && |es| <= 3 * workers && |s.workers| == workers && !s.workers[w].Failed?
      && (Stuck(s) ==> s.workers[w].Booked?)
  {
    var s0 := Init(workers, seats);
    InitInv(workers, seats);
    RunKeepsInv(s0, es);
    RunIsBounded(s0, es);
    TotalOfSame(Remaining(s0), 3);
    RunLosesNobody(s0, es, w);
    if Stuck(After(s0, es)) {
      StuckMeansDone(After(s0, es), w);
    }
  }

  // ---------- Without faults, exactly as many bookings as there can be ----------

  predicate NoFaults(es: seq<Event>) {
    forall e | e in es :: NoFault(e)
  }

  /** A worker is turned away only once every row is booked or about to be. */
  ghost predicate FailedOnlyWhenFull(s: System) {
    (exists w: nat :: w < |s.workers| && s.workers[w].Failed?) ==> forall i | 0 <= i < |s.rows| :: !Open(s.rows[i])
  }

  lemma NextFailedOnlyWhenFull(s: System, e: Event)
    requires Inv(s) && Enabled(s, e) && NoFault(e) && FailedOnlyWhenFull(s)
    ensures FailedOnlyWhenFull(Next(s, e))
  {
    var t := Next(s, e);
    assert WorkerOk(s, e.w);
    if v: nat :| v < |t.workers| && t.workers[v].Failed? {
      if e.SelectNone? {
        forall i: nat | i < |t.rows| ensures !Open(t.rows[i]) {
          assert RowOk(s, i);
        }
      } else {
        assert s.workers[v].Failed?;
      }
    }
  }

  lemma {:induction false} RunFailedOnlyWhenFull(s: System, es: seq<Event>)
    requires Inv(s) && Run(s, es) && NoFaults(es) && FailedOnlyWhenFull(s)
    ensures FailedOnlyWhenFull(After(s, es))
    decreases es
  {
    if es != [] {
      NextKeepsInv(s, es[0]);
      NextFailedOnlyWhenFull(s, es[0]);
      RunFailedOnlyWhenFull(Next(s, es[0]), es[1..]);
    }
  }

  function BookedWorkers(s: System): set<nat> {
    set w | w in Below(|s.workers|) && s.workers[w].Booked?
  }

  function BookedSeats(s: System): set<nat> {
    set i | i in Below(|s.rows|) && s.rows[i].user.Some?
  }

  /** As many workers have booked as seats are booked. */
  lemma BookingsMatch(s: System)
    requires Inv(s)
    ensures |BookedWorkers(s)| == |BookedSeats(s)|
  {
    var seatOf := map w: nat | w in BookedWorkers(s) :: s.workers[w].seat;
    var userOf := map i: nat | i in BookedSeats(s) :: s.rows[i].user.value;
    forall w | w in BookedWorkers(s) ensures seatOf[w] in BookedSeats(s) && userOf[seatOf[w]] == w {
      assert WorkerOk(s, w);
    }
    forall i | i in BookedSeats(s) ensures userOf[i] in BookedWorkers(s) && seatOf[userOf[i]] == i {
      assert RowOk(s, i);
    }
    InjectionBounds(seatOf, BookedWorkers(s), BookedSeats(s));
    InjectionBounds(userOf, BookedSeats(s), BookedWorkers(s));
  }

  lemma StuckBooksAll(s: System)
    requires Inv(s) && Stuck(s) && FailedOnlyWhenFull(s)
    ensures BookedWorkers(s) == Below(|s.workers|) || BookedSeats(s) == Below(|s.rows|)
  {
    if w: nat :| w < |s.workers| && s.workers[w].Failed? {
      forall i: nat | i < |s.rows| ensures i in BookedSeats(s) {
        assert RowOk(s, i) && !Open(s.rows[i]);
        if s.rows[i].user.None? {
          StuckMeansDone(s, s.rows[i].owner.value);
        }
      }
    } else {
      forall w: nat | w < |s.workers| ensures w in BookedWorkers(s) {
        StuckMeansDone(s, w);
      }
    }
  }

  /** A fault-free run that has come to its end has booked every worker or every seat,
      whichever are fewer. */
  lemma EndIsFull(workers: nat, seats: nat, es: seq<Event>)
    requires Run(Init(workers, seats), es) && NoFaults(es) && Stuck(After(Init(workers, seats), es))
    ensures |BookedWorkers(After(Init(workers, seats), es))| == if workers <= seats then workers else seats
  {
    var s0 := Init(workers, seats);
    var s := After(s0, es);
    InitInv(workers, seats);
    RunKeepsInv(s0, es);
    RunFailedOnlyWhenFull(s0, es);
    BookingsMatch(s);
    SubsetBounds(BookedWorkers(s), Below(workers));
    SubsetBounds(BookedSeats(s), Below(seats));
    StuckBooksAll(s);
  }

  /** Some fault-free run goes on to an end. */
  lemma {:induction false} RunToEnd(s: System) returns (es: seq<Event>)
    ensures Run(s, es) && NoFaults(es) && Stuck(After(s, es))
    decreases Total(Remaining(s))
  {
    if Stuck(s) {
      es := [];
    } else {
      var e :| NoFault(e) && Enabled(s, e);
      StepUsesOne(s, e);
      var rest := RunToEnd(Next(s, e));
      es := [e] + rest;
      assert es[1..] == rest;
    }
  }

  /** Every worker books in every finished fault-free run if and only if there are at least as
      many seats as workers. */
  lemma SeatsMustCoverWorkers(workers: nat, seats: nat)
    ensures workers <= seats <==> forall es ::
      Run(Init(workers, seats), es) && NoFaults(es) && Stuck(After(Init(workers, seats), es))
      ==> BookedWorkers(After(Init(workers, seats), es)) == Below(workers)
  {
    var s0 := Init(workers, seats);
    if workers <= seats {
      forall es | Run(s0, es) && NoFaults(es) && Stuck(After(s0, es))
        ensures BookedWorkers(After(s0, es)) == Below(workers)
      {
        EndIsFull(workers, seats, es);
        InitInv(workers, seats);
        RunKeepsInv(s0, es);
        SubsetBounds(BookedWorkers(After(s0, es)), Below(workers));
      }
    } else {
      var es := RunToEnd(s0);
      EndIsFull(workers, seats, es);
    }
  }
}
