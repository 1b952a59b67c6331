/** The booking loop as the program runs it: one worker's own statements in sequence, each of
    which may fail, with any number of the other workers' steps between any two of them. */
module OptimisticLock {
  import opened Wrappers
  import opened OptimisticBooking
  import opened OptimisticProgress

  /** How `bookSeat` ends: with a seat, out of attempts, or in a panic when a transaction could
      not begin and the one that is missing is rolled back. */
  datatype Outcome = Success(seat: nat) | OutOfAttempts | Panicked

  /** How one attempt ends. */
  datatype Attempted = Done(seat: nat) | Again | Panic

  predicate ByOthers(w: nat, es: seq<Event>) {
    forall e | e in es :: e.w != w
  }

  /** Others may book, fail or give up; the worker itself stays where it is. */
  ghost predicate Apart(s: System, t: System, w: nat)
    requires w < |s.workers|
  {
    exists es :: ByOthers(w, es) && Run(s, es) && After(s, es) == t
  }

  /** What the worker can rely on about itself. */
  ghost predicate Mine(s: System, w: nat) {
    Inv(s) && w < |s.workers| && Charged(s, w)
  }

  lemma {:induction false} OthersKeepMine(s: System, es: seq<Event>, w: nat)
    requires Mine(s, w) && ByOthers(w, es) && Run(s, es)
    ensures var t := After(s, es);
      && Mine(t, w) && t.workers[w] == s.workers[w]
      && |t.workers| == |s.workers| && |t.rows| == |s.rows| && t.limit == s.limit
    decreases es
  {
    if es != [] {
      NextKeepsInv(s, es[0]);
      OthersStayCharged(s, es[0], w);
      OthersKeepMine(Next(s, es[0]), es[1..], w);
    }
  }

  lemma ApartKeepsMine(s: System, t: System, w: nat)
    requires Mine(s, w) && Apart(s, t, w)
    ensures Mine(t, w) && t.workers[w] == s.workers[w]
    ensures |t.workers| == |s.workers| && |t.rows| == |s.rows| && t.limit == s.limit
  {
    var es :| ByOthers(w, es) && Run(s, es) && After(s, es) == t;
    OthersKeepMine(s, es, w);
  }

  lemma OneStepApart(s: System, e: Event, w: nat)
    requires w < |s.workers| && Enabled(s, e) && e.w != w
    ensures Apart(s, Next(s, e), w)
  {
    var t := Next(s, e);
    assert [e][1..] == [] && Run(t, []) && After(t, []) == t;
    assert Run(s, [e]) && After(s, [e]) == After(t, [e][1..]);
    assert ByOthers(w, [e]);
  }

  /** The worker's own steps keep its account, whatever the others do. */
  lemma OwnStepKeepsMine(s: System, e: Event)
    requires Mine(s, e.w) && Enabled(s, e)
    ensures Mine(Next(s, e), e.w)
  {
    NextKeepsInv(s, e);
    OwnStepCharged(s, e);
  }

  class Database {
    var rows: seq<Row>
    ghost var system: System
    /** How many transactions the database refused to begin, and how many statements it refused
        within a transaction. */
    ghost var refusedBegins: nat
    ghost var refused: nat

    ghost predicate Valid(w: nat)
      reads `rows, `system
    {
      rows == system.rows && Mine(system, w)
    }

    /** Any number of steps of the other workers. The caller learns no more than that. */
    method OthersRun(ghost w: nat)
      requires Valid(w)
      modifies `rows, `system
      ensures Valid(w) && Apart(old(system), system, w)
      ensures system.workers[w] == old(system.workers[w])
      ensures |system.workers| == old(|system.workers|) && |rows| == old(|rows|) && system.limit == old(system.limit)
    {
      assert ByOthers(w, []) && Run(system, []) && After(system, []) == system;
    }

    /** An update waits until the row's lock is free; its owner can always commit. */
    method WaitForLock(ghost w: nat, seat: nat)
      requires Valid(w) && PhaseOf(system, w).Selected? && PhaseOf(system, w).seat == seat
      modifies `rows, `system
      ensures Valid(w) && Apart(old(system), system, w)
      ensures seat < |rows| && rows[seat].owner.None?
      ensures system.workers[w] == old(system.workers[w])
      ensures |system.workers| == old(|system.workers|) && |rows| == old(|rows|) && system.limit == old(system.limit)
    {
      assert WorkerOk(system, w) && RowOk(system, seat);
      assert ByOthers(w, []) && Run(system, []) && After(system, []) == system;
      if rows[seat].owner.Some? {
        var owner := rows[seat].owner.value;
        OneStepApart(system, Commit(owner), w);
        ApartKeepsMine(system, Next(system, Commit(owner)), w);
        rows := rows[seat := Row(Some(owner), rows[seat].version + 1, None)];
        system := Next(system, Commit(owner));
      }
    }

    /** Reads some free seat with its version. Without one the transaction is rolled back. */
    method SelectFree(ghost w: nat) returns (found: bool, seat: nat, version: nat)
      requires Valid(w) && PhaseOf(system, w).Ready?
      modifies `system
      ensures Valid(w)
      ensures found ==> seat < |rows| && rows[seat].user.None? && version == rows[seat].version
      ensures found ==> old(Enabled(system, Select(w, seat))) && system == Next(old(system), Select(w, seat))
      ensures !found ==> old(Enabled(system, SelectNone(w))) && system == Next(old(system), SelectNone(w))
      ensures system.workers[w].faults == old(system.workers[w].faults)
    {
      seat, version := 0, 0;
      while seat < |rows|
        invariant seat <= |rows|
        invariant forall i: nat | i < seat :: rows[i].user.Some?
      {
        if rows[seat].user.None? {
          OwnStepKeepsMine(system, Select(w, seat));
          system := Next(system, Select(w, seat));
          return true, seat, rows[seat].version;
        }
        seat := seat + 1;
      }
      OwnStepKeepsMine(system, SelectNone(w));
      NoRowsLeftAlone(system, w);
      system := Next(system, SelectNone(w));
      return false, seat, version;
    }

    /** Rolling back before any update changes no row. */
    lemma NoRowsLeftAlone(s: System, w: nat)
      requires Inv(s) && w < |s.workers| && !PhaseOf(s, w).Updated?
      ensures forall cause :: RolledBack(s, w, cause).rows == s.rows
    {
      forall cause ensures RolledBack(s, w, cause).rows == s.rows {
        forall i: nat | i < |s.rows| ensures s.rows[i].owner != Some(w) {
          assert RowOk(s, i);
        }
      }
    }

    /** Takes the seat if its version is still the one read, and tells how many rows that
        changed; if none, the transaction is rolled back. */
    method UpdateSeat(w: nat, seat: nat, version: nat) returns (affected: nat)
      requires Valid(w) && PhaseOf(system, w) == Selected(seat, version) && seat < |rows| && rows[seat].owner.None?
      modifies `rows, `system
      ensures Valid(w) && affected <= 1
      ensures affected == 1 ==> PhaseOf(system, w) == Updated(seat)
      ensures old(Enabled(system, Update(w))) && system == Next(old(system), Update(w))
      ensures affected == 0 <==> old(rows[seat].version != version)
      ensures rows == if affected == 0 then old(rows) else old(rows)[seat := old(rows[seat]).(owner := Some(w))]
      ensures system.workers[w].faults == old(system.workers[w].faults)
    {
      OwnStepKeepsMine(system, Update(w));
      NoRowsLeftAlone(system, w);
      if rows[seat].version == version {
        rows := rows[seat := rows[seat].(owner := Some(w))];
        affected := 1;
      } else {
        affected := 0;
      }
      system := Next(system, Update(w));
    }

    method CommitSeat(w: nat, seat: nat)
      requires Valid(w) && PhaseOf(system, w) == Updated(seat)
      modifies `rows, `system
      ensures Valid(w) && PhaseOf(system, w) == Booked(seat)
      ensures seat < |rows| && rows[seat].user == Some(w) && rows[seat].version == 2
      ensures |rows| == old(|rows|) && rows == old(rows)[seat := Row(Some(w), 2, None)]
      ensures system.workers[w].faults == old(system.workers[w].faults)
      ensures old(Enabled(system, Commit(w))) && system == Next(old(system), Commit(w))
    {
      assert WorkerOk(system, w) && RowOk(system, seat);
      OwnStepKeepsMine(system, Commit(w));
      rows := rows[seat := Row(Some(w), rows[seat].version + 1, None)];
      system := Next(system, Commit(w));
      assert RowOk(system, seat);
    }

    /** Whether the database begins a transaction. */
    method Begins() returns (ok: bool)
      modifies `refusedBegins
      ensures refusedBegins == old(refusedBegins) + if ok then 0 else 1
    {
      ok := *;
      refusedBegins := refusedBegins + if ok then 0 else 1;
    }

    /** Whether the database runs the next statement of a transaction. */
    method Accepts() returns (ok: bool)
      modifies `refused
      ensures refused == old(refused) + if ok then 0 else 1
    {
      ok := *;
      refused := refused + if ok then 0 else 1;
    }

    /** Ends the attempt without effect and releases its lock. */
    method Rollback(w: nat)
      requires Valid(w) && Active(PhaseOf(system, w))
      modifies `rows, `system
      ensures Valid(w) && old(Enabled(system, Fail(w))) && system == Next(old(system), Fail(w))
      ensures system.workers[w].faults == old(system.workers[w].faults) + 1
      ensures |rows| == old(|rows|)
      ensures forall i | 0 <= i < |rows| ::
        rows[i] == if old(rows)[i].owner == Some(w) then old(rows)[i].(owner := None) else old(rows)[i]
    {
      OwnStepKeepsMine(system, Fail(w));
      var before := rows;
      var i := 0;
      while i < |rows|
        invariant 0 <= i <= |rows| == |before| && system == old(system)
        invariant forall k | i <= k < |rows| :: rows[k] == before[k]
        invariant forall k | 0 <= k < i ::
          rows[k] == if before[k].owner == Some(w) then before[k].(owner := None) else before[k]
      {
        if rows[i].owner == Some(w) {
          rows := rows[i := rows[i].(owner := None)];
        }
        i := i + 1;
      }
      system := Next(system, Fail(w));
      assert rows == system.rows;
    }

    /** The transaction could not begin, and rolling it back panics; the worker is gone. */
    method Stop(ghost w: nat)
      requires Valid(w) && PhaseOf(system, w).Ready?
      modifies `system
      ensures Valid(w) && system == Next(old(system), Quit(w))
      ensures system.workers[w].faults == old(system.workers[w].faults)
    {
      OwnStepKeepsMine(system, Quit(w));
      system := Next(system, Quit(w));
    }

    /** Tries to book a seat for a worker. A seat reported is the worker's own. With a seat for
        every worker, attempts run out only if they do not cover the workers and the worker's
        own faults, whatever the others do. */
    method BookSeat(w: nat, limit: nat) returns (outcome: Outcome)
      requires Valid(w) && limit == system.limit
      requires system.workers[w] == Fresh(limit)
      modifies this
      ensures Valid(w) && |system.workers| == old(|system.workers|) && |rows| == old(|rows|)
      ensures outcome.Success? ==> PhaseOf(system, w) == Booked(outcome.seat)
      ensures outcome.Success? ==> outcome.seat < |rows| && rows[outcome.seat] == Row(Some(w), 2, None)
      ensures outcome.OutOfAttempts? ==> PhaseOf(system, w).GaveUp? && system.workers[w].attempts == limit
      ensures outcome.Panicked? ==> PhaseOf(system, w).Failed?
      ensures !outcome.Success? ==> forall i | 0 <= i < |rows| :: rows[i].user != Some(w) && rows[i].owner != Some(w)
      ensures system.workers[w].faults == refused - old(refused)
      ensures refusedBegins == old(refusedBegins) + if outcome.Panicked? then 1 else 0
      ensures outcome.OutOfAttempts? ==>
        |BookedSeats(system)| + (refused - old(refused)) >= limit || |BookedSeats(system)| == |rows|
      ensures |system.workers| <= |rows| && |system.workers| + (refused - old(refused)) <= limit ==>
        !outcome.OutOfAttempts?
      ensures refused == old(refused) && refusedBegins == old(refusedBegins) ==>
        |system.workers| <= |rows| && |system.workers| <= limit ==> outcome.Success?
    {
      outcome := Attempts(w, limit);
      if outcome.OutOfAttempts? {
        GivingUpTakesBookings(system, w);
      }
      assert WorkerOk(system, w);
      forall i: nat | i < |rows|
        ensures rows[i].user == Some(w) || rows[i].owner == Some(w) ==> outcome.Success?
        ensures rows[i].user == Some(w) ==> rows[i].version == 2 && rows[i].owner.None?
      {
        assert RowOk(system, i);
      }
      if |system.workers| <= |rows| && |system.workers| + system.workers[w].faults <= limit {
        AttemptsSuffice(system, w);
      }
    }

    method Attempts(w: nat, limit: nat) returns (outcome: Outcome)
      requires Valid(w) && limit == system.limit
      requires system.workers[w] == Fresh(limit)
      modifies this
      ensures Valid(w) && system.limit == limit
      ensures |system.workers| == old(|system.workers|) && |rows| == old(|rows|)
      ensures PhaseOf(system, w) == match outcome
                                    case Success(seat) => Booked(seat)
                                    case OutOfAttempts => GaveUp
                                    case Panicked => Failed
      ensures outcome.OutOfAttempts? ==> system.workers[w].attempts == limit
      ensures system.workers[w].faults == refused - old(refused)
      ensures refusedBegins == old(refusedBegins) + if outcome.Panicked? then 1 else 0
    {
      var j := 0;
      while j < limit
        invariant 0 <= j <= limit && Valid(w) && system.limit == limit
        invariant system.workers[w].attempts == j
        invariant system.workers[w].faults == refused - old(refused) && refusedBegins == old(refusedBegins)
        invariant PhaseOf(system, w) == if j < limit then Ready else GaveUp
        invariant |system.workers| == old(|system.workers|) && |rows| == old(|rows|)
      {
        var attempted := Attempt(w);
        match attempted {
          case Done(seat) => return Success(seat);
          case Panic => return Panicked;
          case Again =>
        }
        j := j + 1;
      }
      return OutOfAttempts;
    }

    /** One transaction: begin, select, update, commit. */
    method Attempt(w: nat) returns (attempted: Attempted)
      requires Valid(w) && PhaseOf(system, w).Ready?
      modifies this
      ensures Valid(w) && system.limit == old(system.limit)
      ensures |system.workers| == old(|system.workers|) && |rows| == old(|rows|)
      ensures attempted.Done? ==> PhaseOf(system, w) == Booked(attempted.seat)
      ensures attempted.Panic? ==> PhaseOf(system, w).Failed?
      ensures attempted.Again? ==> system.workers[w].attempts == old(system.workers[w].attempts) + 1
      ensures attempted.Again? ==>
        PhaseOf(system, w) == if system.workers[w].attempts < system.limit then Ready else GaveUp
      ensures system.workers[w].faults - old(system.workers[w].faults) == refused - old(refused)
      ensures refusedBegins == old(refusedBegins) + if attempted.Panic? then 1 else 0
    {
      OthersRun(w);
      var ok := Begins();
      if !ok {
        Stop(w);
        return Panic;
      }
      OthersRun(w);
      ok := Accepts();
      if !ok {
        Rollback(w);
        return Again;
      }
      var found, chosen, version := SelectFree(w);
      if !found {
        return Again;
      }
      attempted := Claim(w, chosen, version);
    }

    /** The second half of a transaction: the version-checked update and the commit. */
    method Claim(w: nat, seat: nat, version: nat) returns (attempted: Attempted)
      requires Valid(w) && PhaseOf(system, w) == Selected(seat, version)
      modifies this
      ensures Valid(w) && system.limit == old(system.limit)
      ensures |system.workers| == old(|system.workers|) && |rows| == old(|rows|)
      ensures attempted == Done(seat) || attempted == Again
      ensures attempted.Done? ==> PhaseOf(system, w) == Booked(seat)
      ensures attempted.Again? ==> system.workers[w].attempts == old(system.workers[w].attempts) + 1
      ensures attempted.Again? ==>
        PhaseOf(system, w) == if system.workers[w].attempts < system.limit then Ready else GaveUp
      ensures system.workers[w].faults - old(system.workers[w].faults) == refused - old(refused)
      ensures refusedBegins == old(refusedBegins)
    {
      OthersRun(w);
      WaitForLock(w, seat);
      var ok := Accepts();
      if !ok {
        Rollback(w);
        return Again;
      }
      var affected := UpdateSeat(w, seat, version);
      if affected == 0 {
        return Again;
      }
      OthersRun(w);
      ok := Accepts();
      if !ok {
        Rollback(w);
        return Again;
      }
      CommitSeat(w, seat);
      return Done(seat);
    }
  }
}
