/** The single booking attempt as the program runs it: one worker's own statements in sequence,
    each of which may fail, with any number of the other workers' steps between them. */
module SkipLock {
  import opened Wrappers
  import opened SkipLockedBooking

  /** What `bookSeat` reports: the seat, that none was available, or a database error. */
  datatype Outcome = Success(seat: nat) | NoSeat | DatabaseError

  predicate ByOthers(w: nat, es: seq<Event>) {
    forall e | e in es :: e.w != w
  }

  ghost predicate Apart(s: System, t: System, w: nat)
    requires w < |s.workers|
  {
    exists es :: ByOthers(w, es) && Run(s, es) && After(s, es) == t
  }

  lemma {:induction false} OthersLeaveAlone(s: System, es: seq<Event>, w: nat)
    requires Inv(s) && w < |s.workers| && ByOthers(w, es) && Run(s, es)
    ensures var t := After(s, es);
      Inv(t) && |t.workers| == |s.workers| && |t.rows| == |s.rows| && t.workers[w] == s.workers[w]
    decreases es
  {
    if es != [] {
      NextKeepsInv(s, es[0]);
      OthersLeaveAlone(Next(s, es[0]), es[1..], w);
    }
  }

  /** A worker keeps what it holds or has booked, whatever the others do meanwhile. */
  lemma ApartKeepsMine(s: System, t: System, w: nat)
    requires Inv(s) && w < |s.workers| && Apart(s, t, w)
    ensures Inv(t) && |t.workers| == |s.workers| && |t.rows| == |s.rows| && t.workers[w] == s.workers[w]
    ensures var p := t.workers[w];
      p.Holding? || p.Updated? || p.Booked? ==> p.seat < |t.rows| && t.rows[p.seat] == s.rows[p.seat]
  {
    var es :| ByOthers(w, es) && Run(s, es) && After(s, es) == t;
    OthersLeaveAlone(s, es, w);
    assert WorkerOk(s, w) && WorkerOk(t, w);
  }

  class Database {
    var rows: seq<Row>
    ghost var system: System
    /** How many statements the database refused. */
    ghost var refused: nat

    ghost predicate Valid(w: nat)
      reads `rows, `system
    {
      rows == system.rows && Inv(system) && w < |system.workers|
    }

    /** Any number of steps of the other workers. The caller learns no more than that. */
    method OthersRun(ghost w: nat)
      requires Valid(w)
      modifies `rows, `system
      ensures Valid(w) && Apart(old(system), system, w)
      ensures |system.workers| == old(|system.workers|) && |rows| == old(|rows|)
      ensures system.workers[w] == old(system.workers[w])
    {
      assert ByOthers(w, []) && Run(system, []) && After(system, []) == system;
    }

    /** Whether the database runs the next statement. */
    method Accepts() returns (ok: bool)
      modifies `refused
      ensures refused == old(refused) + if ok then 0 else 1
    {
      ok := *;
      refused := refused + if ok then 0 else 1;
    }

    /** Ends the transaction without effect and releases its lock. */
    method Rollback(w: nat)
      requires Valid(w) && Active(system.workers[w])
      modifies `rows, `system
      ensures Valid(w) && old(Enabled(system, Fail(w))) && system == Next(old(system), Fail(w))
      ensures |rows| == old(|rows|)
      ensures forall i | 0 <= i < |rows| ::
        rows[i] == if old(rows)[i].owner == Some(w) then old(rows)[i].(owner := None) else old(rows)[i]
    {
      NextKeepsInv(system, Fail(w));
      var before := rows;
      var i := 0;
      while i < |rows|
        invariant 0 <= i <= |rows| == |before| && system == old(system)
        invariant forall k | i <= k < |rows| :: rows[k] == before[k]
        invariant forall k | 0 <= k < i ::
          rows[k] == if before[k].owner == Some(w) then before[k].(owner := None) else before[k]
      {
        if rows[i].owner == Some(w) {
          rows := rows[i := rows[i].(owner := None)];
        }
        i := i + 1;
      }
      system := Next(system, Fail(w));
      assert rows == system.rows;
    }

    /** Locks some free row that nobody has locked. */
    method SelectForUpdate(w: nat) returns (found: bool, seat: nat)
      requires Valid(w) && system.workers[w].Ready?
      modifies `rows, `system
      ensures Valid(w)
      ensures found ==> old(Enabled(system, Select(w, seat))) && system == Next(old(system), Select(w, seat))
      ensures found ==> seat < old(|rows|) && old(rows)[seat] == Row(None, None)
      ensures found ==> rows == old(rows)[seat := old(rows)[seat].(owner := Some(w))]
      ensures !found ==> old(Enabled(system, SelectNone(w))) && system == old(system)
      ensures !found ==> rows == old(rows) && forall i | 0 <= i < |rows| :: rows[i] != Row(None, None)
      ensures |system.workers| <= |rows| ==> found
    {
      seat := 0;
      while seat < |rows|
        invariant seat <= |rows|
        invariant forall i: nat | i < seat :: !Open(rows[i])
      {
        if Open(rows[seat]) {
          NextKeepsInv(system, Select(w, seat));
          system := Next(system, Select(w, seat));
          rows := rows[seat := rows[seat].(owner := Some(w))];
          return true, seat;
        }
        seat := seat + 1;
      }
      if |system.workers| <= |rows| {
        TakersAreDistinct(system, w);
      }
      return false, seat;
    }

    /** Puts the user in the row, by its id; tells how many rows that changed. The change is
        not committed yet. */
    method UpdateSeat(w: nat, seat: nat) returns (affected: int)
      requires Valid(w) && system.workers[w] == Holding(seat)
      modifies `system
      ensures Valid(w) && affected == 1 && system.workers[w] == Updated(seat)
      ensures old(Enabled(system, Update(w))) && system == Next(old(system), Update(w))
    {
      assert WorkerOk(system, w);
      NextKeepsInv(system, Update(w));
      affected := if seat < |rows| then 1 else 0;
      system := Next(system, Update(w));
    }

    method CommitSeat(w: nat, seat: nat)
      requires Valid(w) && system.workers[w] == Updated(seat)
      modifies `rows, `system
      ensures Valid(w) && system.workers[w] == Booked(seat) && seat < |rows| && rows[seat] == Row(Some(w), None)
      ensures |rows| == old(|rows|) && rows == old(rows)[seat := Row(Some(w), None)]
      ensures old(Enabled(system, Commit(w))) && system == Next(old(system), Commit(w))
    {
      assert WorkerOk(system, w);
      NextKeepsInv(system, Commit(w));
      rows := rows[seat := Row(Some(w), None)];
      system := Next(system, Commit(w));
    }

    /** Success names a seat that is now the worker's own; any other outcome leaves the worker
        with no seat and no lock. An error is reported exactly when the database refused a
        statement, "no seat" only when every row is locked or booked, and so never with a seat
        for every worker. */
    method BookSeat(w: nat) returns (outcome: Outcome)
      requires Valid(w) && system.workers[w].Ready?
      modifies this
      ensures Valid(w) && |system.workers| == old(|system.workers|) && |rows| == old(|rows|)
      ensures outcome.Success? ==> system.workers[w] == Booked(outcome.seat)
      ensures outcome.Success? ==> outcome.seat < |rows| && rows[outcome.seat] == Row(Some(w), None)
      ensures !outcome.Success? ==> system.workers[w].Failed?
      ensures !outcome.Success? ==> forall i | 0 <= i < |rows| :: rows[i].user != Some(w) && rows[i].owner != Some(w)
      ensures |system.workers| <= |rows| ==> !outcome.NoSeat?
      ensures outcome.NoSeat? ==> forall i | 0 <= i < |rows| :: rows[i] != Row(None, None)
      ensures refused == old(refused) + if outcome.DatabaseError? then 1 else 0
    {
      outcome := Transaction(w);
      forall i: nat | i < |rows| && !outcome.Success? ensures rows[i].user != Some(w) && rows[i].owner != Some(w) {
        assert RowOk(system, i);
      }
      assert WorkerOk(system, w);
    }

    /** A worker that holds nothing owns no row. */
    lemma NoneIsMine(w: nat)
      requires Valid(w) && system.workers[w].Ready?
      ensures forall i | 0 <= i < |rows| :: rows[i].owner != Some(w)
    {
      forall i: nat | i < |rows| ensures rows[i].owner != Some(w) {
        assert RowOk(system, i);
      }
    }

    method Transaction(w: nat) returns (outcome: Outcome)
      requires Valid(w) && system.workers[w].Ready?
      modifies this
      ensures Valid(w) && |system.workers| == old(|system.workers|) && |rows| == old(|rows|)
      ensures system.workers[w] == if outcome.Success? then Booked(outcome.seat) else Failed
      ensures |system.workers| <= |rows| ==> !outcome.NoSeat?
      ensures outcome.NoSeat? ==> forall i | 0 <= i < |rows| :: rows[i] != Row(None, None)
      ensures refused == old(refused) + if outcome.DatabaseError? then 1 else 0
    {
      OthersRun(w);
      var ok := Accepts();
      if !ok {
        Rollback(w);
        return DatabaseError;
      }
      var found, seat := SelectForUpdate(w);
      if !found {
        NoneIsMine(w);
        Rollback(w);
        return NoSeat;
      }
      OthersRun(w);
      ok := Accepts();
      if !ok {
        Rollback(w);
        return DatabaseError;
      }
      var affected := UpdateSeat(w, seat);
      if affected == 0 {
        assert false;
      }
      OthersRun(w);
      ok := Accepts();
      if !ok {
        Rollback(w);
        return DatabaseError;
      }
      CommitSeat(w, seat);
      return Success(seat);
    }
  }
}
