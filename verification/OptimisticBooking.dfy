/** Booking seats with a version column: read a free seat and its version, update the row if
    the version is still the same, and otherwise try again a bounded number of times. Every
    statement sent to the database is one step; a read sees committed rows, an update takes the
    row's lock and checks the latest committed version, and the lock is held to the end of the
    transaction. */
module OptimisticBooking {
  import opened Wrappers

  /** A committed row, and which worker's transaction has it locked. */
  datatype Row = Row(user: Option<nat>, version: nat, owner: Option<nat>)

  datatype Phase =
    | Ready
    | Selected(seat: nat, version: nat)
    | Updated(seat: nat)
    | Booked(seat: nat)
    | GaveUp
    | Failed

  /** What an attempt was used up on: a seat another worker had taken meanwhile, a fault of the
      worker's own statement, or finding no free seat. */
  datatype Cause = LostTo(seat: nat) | Fault | NoSeat

  /** Where a worker is, how many attempts it has used up, and on what: the seats it lost to
      others, and how often it met a fault or no seat. */
  datatype Worker = Worker(phase: Phase, attempts: nat, lost: set<nat>, faults: nat, misses: nat)

  /** `bookings` records every commit, as a pair of worker and seat. */
  datatype System = System(limit: nat, rows: seq<Row>, workers: seq<Worker>, bookings: seq<(nat, nat)>)

  datatype Event =
    | Select(w: nat, seat: nat)
    | SelectNone(w: nat)
    | Update(w: nat)
    | Commit(w: nat)
    | Fail(w: nat)
    | Quit(w: nat)

  function Fresh(limit: nat): Worker {
    Worker(if limit > 0 then Ready else GaveUp, 0, {}, 0, 0)
  }

  function Init(limit: nat, workers: nat, seats: nat): System {
    System(limit,
           seq(seats, _ => Row(None, 1, None)),
           seq(workers, _ => Fresh(limit)),
           [])
  }

  function PhaseOf(s: System, w: nat): Phase
    requires w < |s.workers|
  {
    s.workers[w].phase
  }

  function Moved(s: System, w: nat, phase: Phase): System
    requires w < |s.workers|
  {
    s.(workers := s.workers[w := s.workers[w].(phase := phase)])
  }

  function Charge(me: Worker, next: Phase, cause: Cause): Worker {
    Worker(next, me.attempts + 1,
           if cause.LostTo? then me.lost + {cause.seat} else me.lost,
           if cause.Fault? then me.faults + 1 else me.faults,
           if cause.NoSeat? then me.misses + 1 else me.misses)
  }

  /** The attempt is rolled back: its lock is released, and the worker goes on to the next
      attempt if one is left. */
  function RolledBack(s: System, w: nat, cause: Cause): System
    requires w < |s.workers|
  {
    var me := s.workers[w];
    var next := if me.attempts + 1 < s.limit then Ready else GaveUp;
    s.(rows := seq(|s.rows|, i requires 0 <= i < |s.rows| =>
                 if s.rows[i].owner == Some(w) then s.rows[i].(owner := None) else s.rows[i]),
       workers := s.workers[w := Charge(me, next, cause)])
  }

  predicate Enabled(s: System, e: Event) {
    && e.w < |s.workers|
    && match e
       case Select(w, seat) => PhaseOf(s, w).Ready? && seat < |s.rows| && s.rows[seat].user.None?
       case SelectNone(w) => PhaseOf(s, w).Ready? && forall i | 0 <= i < |s.rows| :: s.rows[i].user.Some?
       case Update(w) =>
         PhaseOf(s, w).Selected? && PhaseOf(s, w).seat < |s.rows| && s.rows[PhaseOf(s, w).seat].owner.None?
       case Commit(w) => PhaseOf(s, w).Updated? && PhaseOf(s, w).seat < |s.rows|
       case Fail(w) => PhaseOf(s, w).Ready? || PhaseOf(s, w).Selected? || PhaseOf(s, w).Updated?
       case Quit(w) => PhaseOf(s, w).Ready?
  }

  function Next(s: System, e: Event): System
    requires Enabled(s, e)
  {
    match e
    case Select(w, seat) => Moved(s, w, Selected(seat, s.rows[seat].version))
    case SelectNone(w) => RolledBack(s, w, NoSeat)
    case Update(w) =>
      var (seat, version) := (PhaseOf(s, w).seat, PhaseOf(s, w).version);
      if s.rows[seat].version == version
      then Moved(s.(rows := s.rows[seat := s.rows[seat].(owner := Some(w))]), w, Updated(seat))
      else RolledBack(s, w, LostTo(seat))
    case Commit(w) =>
      var seat := PhaseOf(s, w).seat;
      Moved(s.(rows := s.rows[seat := Row(Some(w), s.rows[seat].version + 1, None)],
               bookings := s.bookings + [(w, seat)]),
            w, Booked(seat))
    case Fail(w) => RolledBack(s, w, Fault)
    case Quit(w) => Moved(s, w, Failed)
  }

  // ---------- Safety ----------

  function BookingsOf(bookings: seq<(nat, nat)>, seat: nat): nat {
    if bookings == [] then 0
    else BookingsOf(bookings[..|bookings| - 1], seat) + (if bookings[|bookings| - 1].1 == seat then 1 else 0)
  }

  /** A row is free with version one, or booked by a worker that knows it, with version two. */
  ghost predicate RowOk(s: System, seat: nat)
    requires seat < |s.rows|
  {
    var row := s.rows[seat];
    && row.version == 1 + BookingsOf(s.bookings, seat)
    && (row.user.None? ==> row.version == 1)
    && (row.user.Some? ==> row.version == 2 && row.owner.None?)
    && (row.user.Some? ==> row.user.value < |s.workers| && PhaseOf(s, row.user.value) == Booked(seat))
    && (row.owner.Some? ==> row.owner.value < |s.workers| && PhaseOf(s, row.owner.value) == Updated(seat))
  }

  ghost predicate WorkerOk(s: System, w: nat)
    requires w < |s.workers|
  {
    match PhaseOf(s, w)
    case Selected(seat, version) => seat < |s.rows| && version == 1
    case Updated(seat) => seat < |s.rows| && s.rows[seat].owner == Some(w) && s.rows[seat].user.None?
    case Booked(seat) => seat < |s.rows| && s.rows[seat].user == Some(w)
    case _ => true
  }

  ghost predicate Inv(s: System) {
    && (forall seat: nat | seat < |s.rows| :: RowOk(s, seat))
    && (forall w: nat | w < |s.workers| :: WorkerOk(s, w))
  }

  lemma InitInv(limit: nat, workers: nat, seats: nat)
    ensures Inv(Init(limit, workers, seats))
  {
  }

  lemma RollbackKeepsInv(s: System, w: nat, cause: Cause)
    requires Inv(s) && w < |s.workers| && !PhaseOf(s, w).Booked?
    ensures Inv(RolledBack(s, w, cause))
  {
    var t := RolledBack(s, w, cause);
    forall seat: nat | seat < |t.rows| ensures RowOk(t, seat) {
      assert RowOk(s, seat);
    }
    forall v: nat | v < |t.workers| ensures WorkerOk(t, v) {
      assert WorkerOk(s, v);
    }
  }

  lemma CommitKeepsInv(s: System, w: nat)
    requires Inv(s) && Enabled(s, Commit(w))
    ensures Inv(Next(s, Commit(w)))
  {
    var t := Next(s, Commit(w));
    var mine := PhaseOf(s, w).seat;
    assert WorkerOk(s, w) && RowOk(s, mine);
    assert t.bookings[..|s.bookings|] == s.bookings;
    forall seat: nat | seat < |t.rows| ensures RowOk(t, seat) {
      assert RowOk(s, seat);
    }
    forall v: nat | v < |t.workers| ensures WorkerOk(t, v) {
      assert WorkerOk(s, v);
    }
  }

  lemma UpdateKeepsInv(s: System, w: nat)
    requires Inv(s) && Enabled(s, Update(w))
    ensures Inv(Next(s, Update(w)))
  {
    var t := Next(s, Update(w));
    var mine := PhaseOf(s, w).seat;
    assert WorkerOk(s, w) && RowOk(s, mine);
    if s.rows[mine].version == PhaseOf(s, w).version {
      forall seat: nat | seat < |t.rows| ensures RowOk(t, seat) {
        assert RowOk(s, seat);
      }
      forall v: nat | v < |t.workers| ensures WorkerOk(t, v) {
        assert WorkerOk(s, v);
      }
    } else {
      RollbackKeepsInv(s, w, LostTo(mine));
    }
  }

  lemma MoveKeepsInv(s: System, w: nat, phase: Phase)
    requires Inv(s) && w < |s.workers| && PhaseOf(s, w).Ready?
    requires phase.Failed? || (phase.Selected? && phase.seat < |s.rows| && phase.version == 1)
    ensures Inv(Moved(s, w, phase))
  {
    var t := Moved(s, w, phase);
    forall seat: nat | seat < |t.rows| ensures RowOk(t, seat) {
      assert RowOk(s, seat);
    }
    forall v: nat | v < |t.workers| ensures WorkerOk(t, v) {
      assert WorkerOk(s, v);
    }
  }

  lemma NextKeepsInv(s: System, e: Event)
    requires Inv(s) && Enabled(s, e)
    ensures Inv(Next(s, e))
  {
    match e
    case Select(w, seat) =>
      assert RowOk(s, seat);
      MoveKeepsInv(s, w, Selected(seat, s.rows[seat].version));
    case SelectNone(w) => RollbackKeepsInv(s, w, NoSeat);
    case Update(w) => UpdateKeepsInv(s, w);
    case Commit(w) => CommitKeepsInv(s, w);
    case Fail(w) => RollbackKeepsInv(s, w, Fault);
    case Quit(w) => MoveKeepsInv(s, w, Failed);
  }

  // ---------- Runs ----------

  ghost predicate Run(s: System, es: seq<Event>)
    decreases es
  {
    es == [] || (Enabled(s, es[0]) && Run(Next(s, es[0]), es[1..]))
  }

  ghost function After(s: System, es: seq<Event>): System
    requires Run(s, es)
    decreases es
  {
    if es == [] then s else After(Next(s, es[0]), es[1..])
  }

  lemma {:induction false} RunKeepsInv(s: System, es: seq<Event>)
    requires Inv(s) && Run(s, es)
    ensures Inv(After(s, es))
    decreases es
  {
    if es != [] {
      NextKeepsInv(s, es[0]);
      RunKeepsInv(Next(s, es[0]), es[1..]);
    }
  }

  lemma RunAppend(s: System, es: seq<Event>, e: Event)
    requires Run(s, es) && Enabled(After(s, es), e)
    ensures Run(s, es + [e]) && After(s, es + [e]) == Next(After(s, es), e)
    decreases es
  {
    if es == [] {
      assert [e][1..] == [];
      assert After(Next(s, e), []) == Next(s, e);
    } else {
      assert (es + [e])[1..] == es[1..] + [e];
      RunAppend(Next(s, es[0]), es[1..], e);
    }
  }

  lemma BookedStays(s: System, e: Event, seat: nat)
    requires Inv(s) && Enabled(s, e) && seat < |s.rows| && s.rows[seat].user.Some?
    ensures |Next(s, e).rows| == |s.rows| && Next(s, e).rows[seat].user == s.rows[seat].user
  {
    assert RowOk(s, seat);
    assert WorkerOk(s, e.w);
  }

  lemma {:induction false} RunKeepsBooking(s: System, es: seq<Event>, seat: nat)
    requires Inv(s) && Run(s, es) && seat < |s.rows| && s.rows[seat].user.Some?
    ensures |After(s, es).rows| == |s.rows| && After(s, es).rows[seat].user == s.rows[seat].user
    decreases es
  {
    if es != [] {
      NextKeepsInv(s, es[0]);
      BookedStays(s, es[0], seat);
      RunKeepsBooking(Next(s, es[0]), es[1..], seat);
    }
  }

  /** Whatever the interleaving, and whatever attempts fail: two workers that booked hold
      different seats, no worker holds two, and every seat's version is one more than the
      bookings committed for it, so two exactly when it is booked. */
  lemma NoDoubleBooking(limit: nat, workers: nat, seats: nat, es: seq<Event>)
    requires Run(Init(limit, workers, seats), es)
    ensures var s := After(Init(limit, workers, seats), es);
      && (forall v: nat, w: nat | v < w < |s.workers| && PhaseOf(s, v).Booked? && PhaseOf(s, w).Booked? ::
            PhaseOf(s, v).seat != PhaseOf(s, w).seat)
      && (forall i, j | 0 <= i < j < |s.rows| && s.rows[i].user.Some? :: s.rows[i].user != s.rows[j].user)
      && (forall i: nat | i < |s.rows| :: s.rows[i].version == 1 + BookingsOf(s.bookings, i))
      && (forall i: nat | i < |s.rows| :: s.rows[i].version == 2 <==> s.rows[i].user.Some?)
  {
    InitInv(limit, workers, seats);
    RunKeepsInv(Init(limit, workers, seats), es);
    var s := After(Init(limit, workers, seats), es);
    forall v: nat, w: nat | v < w < |s.workers| && PhaseOf(s, v).Booked? && PhaseOf(s, w).Booked?
      ensures PhaseOf(s, v).seat != PhaseOf(s, w).seat
    {
      assert WorkerOk(s, v) && WorkerOk(s, w);
    }
    forall i, j | 0 <= i < j < |s.rows| && s.rows[i].user.Some?
      ensures s.rows[i].user != s.rows[j].user
    {
      assert RowOk(s, i) && RowOk(s, j);
    }
    forall i: nat | i < |s.rows|
      ensures s.rows[i].version == 1 + BookingsOf(s.bookings, i)
      ensures s.rows[i].version == 2 <==> s.rows[i].user.Some?
    {
      assert RowOk(s, i);
    }
  }

  /** A booked seat keeps its user for ever. */
  lemma BookingIsFinal(limit: nat, workers: nat, seats: nat, es: seq<Event>, es': seq<Event>, seat: nat)
    requires Run(Init(limit, workers, seats), es) && Run(After(Init(limit, workers, seats), es), es')
    requires var s := After(Init(limit, workers, seats), es); seat < |s.rows| && s.rows[seat].user.Some?
    ensures var s := After(Init(limit, workers, seats), es);
      seat < |After(s, es').rows| && After(s, es').rows[seat].user == s.rows[seat].user
  {
    InitInv(limit, workers, seats);
    RunKeepsInv(Init(limit, workers, seats), es);
    RunKeepsBooking(After(Init(limit, workers, seats), es), es', seat);
  }
}
