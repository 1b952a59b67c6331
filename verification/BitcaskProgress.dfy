/** A merge comes to an end whatever the clients do meanwhile: no client operation adds to the
    work it has left, and every step of its own takes some away. */
module BitcaskProgress {
  import opened BitcaskModel
  import opened BitcaskInvariant
  import opened BitcaskRuns
  import opened BitcaskMerge

  predicate ByClient(e: Event) {
    e.Put? || e.Delete? || e.Get?
  }

  /** A step the merge takes once it has begun. */
  predicate ByMerge(e: Event) {
    !ByClient(e) && !e.MergeBegin?
  }

  /** No other merge begins. */
  predicate OneMerge(es: seq<Event>) {
    forall e | e in es :: !e.MergeBegin?
  }

  function TodoWork(s: Store, fs: seq<FileId>): nat {
    if fs == [] then 0
    else 2 + 2 * (if fs[0] in s.files then TotalSize(s.files[fs[0]]) else 0) + TodoWork(s, fs[1..])
  }

  /** A bound on the steps left: at most two a byte of what is left to scan, two a file, and the
      end. */
  function Work(s: Store): nat {
    match s.task
    case Idle => 0
    case Picking(todo, _) => 1 + TodoWork(s, todo)
    case Scanning(todo, _, _, _, _) => 2 + 2 * (if Left(s) > 0 then Left(s) else 0) + TodoWork(s, todo)
    case Copying(todo, _, _, _, _) => 1 + 2 * (if Left(s) > 0 then Left(s) else 0) + TodoWork(s, todo)
  }

  lemma {:induction false} TodoWorkSame(s: Store, t: Store, fs: seq<FileId>)
    requires forall f | f in fs :: f in s.files && f in t.files && t.files[f] == s.files[f]
    ensures TodoWork(t, fs) == TodoWork(s, fs)
  {
    if fs == [] {
    } else {
      assert fs[0] in fs;
      TodoWorkSame(s, t, fs[1..]);
    }
  }

  lemma WriteKeepsWork(s: Store, r: Record)
    requires Inv(s)
    ensures var t := Write(s, r);
      && t.task == s.task && Work(t) == Work(s)
      && (s.task.Scanning? ==> (AtEnd(t) <==> AtEnd(s)))
  {
    if Accepts(s) {
      WrittenKeepsRecords(s, r);
      var t := Written(s, r);
      assert t.task == s.task;
      if !s.task.Idle? {
        forall f | f in s.task.todo ensures f in s.files && f in t.files && t.files[f] == s.files[f] {
          assert Closed(s, f);
        }
        TodoWorkSame(s, t, s.task.todo);
        if s.task.Scanning? || s.task.Copying? {
          assert Closed(s, s.task.file);
        }
      }
    }
  }

  /** What a client does leaves the merge where it is. */
  lemma ClientKeepsWork(s: Store, e: Event)
    requires Inv(s) && Enabled(s, e) && ByClient(e)
    ensures var t := Next(s, e);
      && t.task == s.task && Work(t) == Work(s)
      && (s.task.Scanning? ==> (AtEnd(t) <==> AtEnd(s)))
  {
    match e
    case Put(ts, k, v) => WriteKeepsWork(s, Record(ts, k, v, false));
    case Delete(ts, k) => WriteKeepsWork(s, Record(ts, k, [], true));
    case Get(_) =>
  }

  lemma ScanTakesWork(s: Store)
    requires Inv(s) && Enabled(s, MergeScan)
    ensures Work(Scanned(s)) < Work(s)
  {
    ScanProgresses(s);
    forall f | f in s.task.todo ensures f in s.files {
      assert Closed(s, f);
    }
    TodoWorkSame(s, Scanned(s), s.task.todo);
  }

  lemma CopyTakesWork(s: Store)
    requires Inv(s) && Enabled(s, MergeCopy)
    ensures Work(Copied(s)) < Work(s)
  {
    CopyProgresses(s);
    CopyKeepsTodo(s);
    TodoWorkSame(s, Copied(s), s.task.todo);
    ScanningWork(Copied(s));
  }

  lemma ScanningWork(s: Store)
    requires s.task.Scanning?
    ensures Work(s) == 2 + 2 * (if Left(s) > 0 then Left(s) else 0) + TodoWork(s, s.task.todo)
  {
  }

  lemma CopyKeepsTodo(s: Store)
    requires Inv(s) && Enabled(s, MergeCopy)
    ensures forall f | f in s.task.todo :: f in s.files && f in Copied(s).files && Copied(s).files[f] == s.files[f]
  {
    forall f | f in s.task.todo ensures f in s.files && f in Copied(s).files && Copied(s).files[f] == s.files[f] {
      assert Closed(s, f) && CurrentSegmentOk(s, s.task.segment);
      CopyKeepsFile(s, f);
    }
  }

  lemma CopyKeepsFile(s: Store, f: FileId)
    requires Enabled(s, MergeCopy) && s.task.segment.id == s.mergeFileCnt && Closed(s, f)
    ensures f in Copied(s).files && Copied(s).files[f] == s.files[f]
  {
    var t := WithCapacity(s, Size(Current(s)));
    assert f in t.files && t.files[f] == s.files[f] && f != Merge(t.task.segment.id);
  }

  lemma InstallTakesWork(s: Store)
    requires Inv(s) && AtEnd(s)
    ensures Work(Installed(s)) < Work(s)
  {
    forall f | f in s.task.todo ensures f in s.files && f in Installed(s).files {
      assert Closed(s, f);
    }
    TodoWorkSame(s, Installed(s), s.task.todo);
  }

  lemma AbandonTakesWork(s: Store)
    requires Inv(s) && Enabled(s, MergeAbandon)
    ensures Work(Abandoned(s)) < Work(s)
  {
    forall f | f in s.task.todo ensures f in s.files {
      assert Closed(s, f);
    }
    TodoWorkSame(s, Abandoned(s), s.task.todo);
    if s.task.Copying? {
      CopyProgresses(s);
    }
  }

  lemma OpenTakesWork(s: Store)
    requires Inv(s) && Enabled(s, MergeOpen)
    ensures Work(FileOpened(s)) < Work(s)
  {
    OpenedKeepsInv(s);
    forall f | f in s.task.todo ensures f in s.files {
      assert Closed(s, f);
    }
    TodoWorkSame(s, FileOpened(s), s.task.todo[1..]);
  }

  /** Every step of the merge takes some of its work away. */
  lemma MergeTakesWork(s: Store, e: Event)
    requires Inv(s) && Enabled(s, e) && ByMerge(e)
    ensures Work(Next(s, e)) < Work(s)
  {
    match e
    case MergeOpen => OpenTakesWork(s);
    case MergeScan => ScanTakesWork(s);
    case MergeCopy => CopyTakesWork(s);
    case MergeInstall => InstallTakesWork(s);
    case MergeAbandon => AbandonTakesWork(s);
    case MergeEnd =>
  }

  function MergeSteps(es: seq<Event>): nat {
    if es == [] then 0 else (if ByMerge(es[0]) then 1 else 0) + MergeSteps(es[1..])
  }

  lemma {:induction false} RunIsBounded(s: Store, es: seq<Event>)
    requires Inv(s) && Run(s, es) && OneMerge(es)
    ensures MergeSteps(es) + Work(After(s, es)) <= Work(s)
    decreases es
  {
    if es == [] {
    } else {
      assert es[0] in es;
      NextKeepsInv(s, es[0]);
      if ByMerge(es[0]) {
        MergeTakesWork(s, es[0]);
      } else {
        ClientKeepsWork(s, es[0]);
      }
      RunIsBounded(Next(s, es[0]), es[1..]);
    }
  }

  /** However many client operations run between them, a merge takes at most one step for its
      end and, for each file of its snapshot, two and two a byte. */
  lemma MergeStepsAreBounded(s: Store, order: seq<FileId>, es: seq<Event>)
    requires Inv(s) && Enabled(s, MergeBegin(order)) && Run(Begun(s, order), es) && OneMerge(es)
    ensures MergeSteps(es) <= 1 + TodoWork(s, order)
  {
    var t := Begun(s, order);
    BegunKeepsInv(s, order);
    assert s.(mergeFileCnt := s.mergeFileCnt) == s;
    SegmentReady(s, s.mergeFileCnt);
    TodoWorkSame(s, t, order);
    RunIsBounded(t, es);
  }

  /** A merge under way can always take a step of its own. */
  lemma MergeCanStep(s: Store) returns (e: Event)
    requires Inv(s) && !s.task.Idle?
    ensures Enabled(s, e) && ByMerge(e) && !e.MergeAbandon?
  {
    match s.task
    case Picking(todo, _) => e := if todo == [] then MergeEnd else MergeOpen;
    case Scanning(_, _, _, _, _) =>
      assert Closed(s, s.task.file);
      e := if AtEnd(s) then MergeInstall else MergeScan;
    case Copying(_, _, _, _, _) => e := MergeCopy;
  }

  // ---------- Traces ----------

  /** The events lead from the one store to the other. */
  ghost predicate Leads(s: Store, es: seq<Event>, t: Store) {
    Run(s, es) && After(s, es) == t
  }

  lemma Stays(s: Store)
    ensures Leads(s, [], s)
  {
  }

  lemma {:induction false} LeadsOn(s: Store, es: seq<Event>, t: Store, es': seq<Event>, u: Store)
    requires Leads(s, es, t) && Leads(t, es', u)
    ensures Leads(s, es + es', u)
    decreases es
  {
    if es == [] {
      assert es + es' == es';
    } else {
      assert (es + es')[0] == es[0] && (es + es')[1..] == es[1..] + es';
      LeadsOn(Next(s, es[0]), es[1..], t, es', u);
    }
  }

  lemma StepLeads(s: Store, e: Event)
    requires Enabled(s, e)
    ensures Leads(s, [e], Next(s, e))
  {
    var t := Next(s, e);
    assert [e][1..] == [] && Run(t, []) && After(t, []) == t;
    assert Run(s, [e]) && After(s, [e]) == After(t, [e][1..]);
  }

  predicate AllByClients(es: seq<Event>) {
    forall e | e in es :: ByClient(e)
  }

  lemma {:induction false} ClientsKeepMerge(s: Store, es: seq<Event>, t: Store)
    requires Inv(s) && Leads(s, es, t) && AllByClients(es)
    ensures Inv(t) && t.task == s.task && Work(t) == Work(s)
    ensures s.task.Scanning? ==> (AtEnd(t) <==> AtEnd(s))
    decreases es
  {
    if es != [] {
      assert es[0] in es;
      NextKeepsInv(s, es[0]);
      ClientKeepsWork(s, es[0]);
      ClientsKeepMerge(Next(s, es[0]), es[1..], t);
    }
  }
}
