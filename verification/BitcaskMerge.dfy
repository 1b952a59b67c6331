/** What one merge does to the disk, undisturbed and with clients writing meanwhile. */
module BitcaskMerge {
  import opened Bytes
  import opened BitcaskModel
  import opened BitcaskLayout
  import opened BitcaskInvariant
  import opened BitcaskRuns

  predicate NamedAt(keyDir: map<Bytes, Entry>, file: FileId, r: Record, at: nat) {
    !r.deleted && r.key in keyDir && keyDir[r.key] == Entry(file, at, |r.value|)
  }

  /** Bytes of the records of `rs`, the first of which starts at `from`, that the index names
      and that start at `cursor` or after it. */
  function LiveFrom(keyDir: map<Bytes, Entry>, file: FileId, rs: seq<Record>, from: nat, cursor: nat): nat {
    if rs == [] then 0
    else
      (if from >= cursor && NamedAt(keyDir, file, rs[0], from) then Size(rs[0]) else 0)
      + LiveFrom(keyDir, file, rs[1..], from + Size(rs[0]), cursor)
  }

  function LiveBytes(s: Store, f: FileId): nat {
    if f in s.files then LiveFrom(s.keyDir, f, s.files[f], 0, 0) else 0
  }

  function LiveBytesOf(s: Store, fs: seq<FileId>): nat {
    if fs == [] then 0 else LiveBytes(s, fs[0]) + LiveBytesOf(s, fs[1..])
  }

  function FileSize(s: Store, f: FileId): nat {
    if f in s.files then TotalSize(s.files[f]) else 0
  }

  /** Bytes in the merge segments numbered from `low` up to, not including, `high`. */
  function SegmentBytes(s: Store, low: nat, high: nat): nat
    decreases high
  {
    if high <= low then 0 else SegmentBytes(s, low, high - 1) + FileSize(s, Merge(high - 1))
  }

  /** Bytes in segments opened since the merge began with segment `low`. */
  function Produced(s: Store, low: nat): nat {
    SegmentBytes(s, low, s.mergeFileCnt + 1)
  }

  /** Bytes the merge has still to copy: those the index names, and the record it has decided
      to copy, whatever has become of that since. */
  function Outstanding(s: Store): nat {
    match s.task
    case Idle => 0
    case Picking(todo, _) => LiveBytesOf(s, todo)
    case Scanning(todo, _, file, cursor, _) =>
      (if file in s.files then LiveFrom(s.keyDir, file, s.files[file], 0, cursor) else 0) + LiveBytesOf(s, todo)
    case Copying(todo, _, file, cursor, _) =>
      (if AtRecord(s)
       then Size(Current(s)) + LiveFrom(s.keyDir, file, s.files[file], 0, cursor + Size(Current(s))) else 0)
      + LiveBytesOf(s, todo)
  }

  /** The files a merge that began with segment `low` has still to process are older. */
  predicate Older(low: nat, f: FileId) {
    f.Merge? ==> f.n < low
  }

  /** Holds throughout a merge that began with segment `low`. */
  ghost predicate UnderWay(s: Store, low: nat) {
    && Inv(s) && low <= s.mergeFileCnt
    && match s.task
       case Idle => true
       case Picking(todo, _) => forall f | f in todo :: Older(low, f)
       case Scanning(todo, _, file, _, _) => Older(low, file) && forall f | f in todo :: Older(low, f)
       case Copying(todo, _, file, _, _) => Older(low, file) && forall f | f in todo :: Older(low, f)
  }

  predicate MergeStep(e: Event) {
    e.MergeOpen? || e.MergeScan? || e.MergeCopy? || e.MergeInstall? || e.MergeEnd? || e.Get?
  }

  // ---------- Sums ----------

  lemma {:induction false} SegmentBytesSame(s: Store, t: Store, low: nat, high: nat)
    requires forall n | low <= n < high :: FileSize(s, Merge(n)) == FileSize(t, Merge(n))
    ensures SegmentBytes(s, low, high) == SegmentBytes(t, low, high)
    decreases high
  {
    if high <= low {
    } else {
      SegmentBytesSame(s, t, low, high - 1);
    }
  }

  /** Passing the record at the cursor takes its bytes out of what remains, if it is live. */
  lemma {:induction false} LivePast(keyDir: map<Bytes, Entry>, file: FileId, rs: seq<Record>, from: nat, cursor: nat)
    requires cursor >= from && RecordAt(rs, cursor - from).Some?
    ensures var r := RecordAt(rs, cursor - from).value;
      LiveFrom(keyDir, file, rs, from, cursor)
        == (if NamedAt(keyDir, file, r, cursor) then Size(r) else 0)
           + LiveFrom(keyDir, file, rs, from, cursor + Size(r))
  {
    var r := RecordAt(rs, cursor - from).value;
    if cursor == from {
      LiveBeyond(keyDir, file, rs[1..], from + Size(r), cursor, cursor + Size(r));
    } else {
      LivePast(keyDir, file, rs[1..], from + Size(rs[0]), cursor);
    }
  }

  lemma {:induction false} LiveBeyond(keyDir: map<Bytes, Entry>, file: FileId, rs: seq<Record>, from: nat, c: nat, d: nat)
    requires c <= from && d <= from
    ensures LiveFrom(keyDir, file, rs, from, c) == LiveFrom(keyDir, file, rs, from, d)
  {
    if rs == [] {
    } else {
      LiveBeyond(keyDir, file, rs[1..], from + Size(rs[0]), c, d);
    }
  }

  lemma {:induction false} LiveAtEnd(keyDir: map<Bytes, Entry>, file: FileId, rs: seq<Record>, from: nat, cursor: nat)
    requires cursor >= from + TotalSize(rs)
    ensures LiveFrom(keyDir, file, rs, from, cursor) == 0
  {
    if rs == [] {
    } else {
      LiveAtEnd(keyDir, file, rs[1..], from + Size(rs[0]), cursor);
    }
  }

  lemma {:induction false} LiveSame(d: map<Bytes, Entry>, d': map<Bytes, Entry>, file: FileId, rs: seq<Record>,
                                    from: nat, cursor: nat)
    requires forall k, e: Entry | e.file == file :: (k in d && d[k] == e) <==> (k in d' && d'[k] == e)
    ensures LiveFrom(d, file, rs, from, cursor) == LiveFrom(d', file, rs, from, cursor)
  {
    if rs == [] {
    } else {
      assert NamedAt(d, file, rs[0], from) <==> NamedAt(d', file, rs[0], from) by {
        var e := Entry(file, from, |rs[0].value|);
        assert e.file == file;
      }
      LiveSame(d, d', file, rs[1..], from + Size(rs[0]), cursor);
    }
  }

  lemma {:induction false} LiveBytesOfSame(s: Store, t: Store, fs: seq<FileId>)
    requires forall f | f in fs :: LiveBytes(s, f) == LiveBytes(t, f)
    ensures LiveBytesOf(s, fs) == LiveBytesOf(t, fs)
  {
    if fs == [] {
    } else {
      LiveBytesOfSame(s, t, fs[1..]);
    }
  }

  // ---------- One step ----------

  lemma OpenConserves(s: Store, low: nat)
    requires UnderWay(s, low) && Enabled(s, MergeOpen)
    ensures UnderWay(Next(s, MergeOpen), low)
    ensures Produced(Next(s, MergeOpen), low) == Produced(s, low)
    ensures Outstanding(Next(s, MergeOpen)) == Outstanding(s)
  {
    var todo := s.task.todo;
    OpenedKeepsInv(s);
    assert Older(low, todo[0]) && forall f | f in todo[1..] :: f in todo;
    TaskStepProduces(s, FileOpened(s), low);
    OpenKeepsOutstanding(s);
  }

  lemma TaskStepProduces(s: Store, t: Store, low: nat)
    requires t == s.(task := t.task)
    ensures Produced(t, low) == Produced(s, low)
  {
    SegmentBytesSame(s, t, low, s.mergeFileCnt + 1);
  }

  lemma OpenKeepsOutstanding(s: Store)
    requires TaskOk(s) && Enabled(s, MergeOpen)
    ensures Outstanding(FileOpened(s)) == Outstanding(s)
  {
    assert Closed(s, s.task.todo[0]);
    LiveBytesOfSame(s, FileOpened(s), s.task.todo[1..]);
  }

  lemma ScanConserves(s: Store, low: nat)
    requires UnderWay(s, low) && Enabled(s, MergeScan)
    ensures UnderWay(Next(s, MergeScan), low)
    ensures Produced(Next(s, MergeScan), low) == Produced(s, low)
    ensures Outstanding(Next(s, MergeScan)) == Outstanding(s)
  {
    ScannedKeepsInv(s);
    TaskStepProduces(s, Scanned(s), low);
    ScanKeepsOutstanding(s);
  }

  lemma ScanKeepsOutstanding(s: Store)
    requires TaskOk(s) && Enabled(s, MergeScan)
    ensures Outstanding(Scanned(s)) == Outstanding(s)
  {
    LiveBytesOfSame(s, Scanned(s), s.task.todo);
    LivePast(s.keyDir, s.task.file, s.files[s.task.file], 0, s.task.cursor);
  }

  lemma SegmentOpenedProduces(s: Store, low: nat)
    requires FilesOk(s)
    ensures var id := s.mergeFileCnt + 1; var t := WithSegment(s.(mergeFileCnt := id), id);
      Produced(t, low) == Produced(s, low)
  {
    var id := s.mergeFileCnt + 1;
    var t := WithSegment(s.(mergeFileCnt := id), id);
    assert Merge(id) !in s.files;
    SegmentBytesSame(s, t, low, id);
    assert FileSize(t, Merge(id)) == 0;
  }

  lemma CapacityProduces(s: Store, low: nat, size: nat)
    requires FilesOk(s) && s.task.Copying?
    ensures Produced(WithCapacity(s, size), low) == Produced(s, low)
  {
    var t := WithCapacity(s, size);
    if t != s {
      var id := s.mergeFileCnt + 1;
      SegmentOpenedProduces(s, low);
      SegmentBytesSame(WithSegment(s.(mergeFileCnt := id), id), t, low, id + 1);
    }
  }

  lemma CapacityKeepsOutstanding(s: Store, size: nat)
    requires FilesOk(s) && TaskOk(s) && s.task.Copying?
    ensures Outstanding(WithCapacity(s, size)) == Outstanding(s)
  {
    var t := WithCapacity(s, size);
    assert Closed(s, s.task.file);
    assert forall f | f in s.files :: f in t.files && t.files[f] == s.files[f];
    TodoBytesKept(s, t);
  }

  lemma CapacityConserves(s: Store, low: nat, size: nat)
    requires UnderWay(s, low) && s.task.Copying?
    ensures Produced(WithCapacity(s, size), low) == Produced(s, low)
    ensures Outstanding(WithCapacity(s, size)) == Outstanding(s)
    ensures UnderWay(WithCapacity(s, size), low)
  {
    CapacityKeepsInv(s, size);
    CapacityProduces(s, low, size);
    CapacityKeepsOutstanding(s, size);
  }

  /** Appending to the current segment changes nothing in the files still to be merged. */
  lemma TodoBytesKept(s: Store, t: Store)
    requires TaskOk(s) && !s.task.Idle? && t.keyDir == s.keyDir
    requires forall f | Closed(s, f) :: f in t.files && t.files[f] == s.files[f]
    ensures LiveBytesOf(t, s.task.todo) == LiveBytesOf(s, s.task.todo)
  {
    forall f | f in s.task.todo ensures LiveBytes(s, f) == LiveBytes(t, f) {
      assert Closed(s, f);
    }
    LiveBytesOfSame(s, t, s.task.todo);
  }

  lemma AppendProduces(s: Store, low: nat)
    requires UnderWay(s, low) && s.task.Copying? && HasRoom(s, Size(Current(s)))
    ensures Produced(Appended(s, Current(s)), low) == Produced(s, low) + Size(Current(s))
  {
    TotalSizeAppend(s.files[Merge(s.task.segment.id)], Current(s));
    SegmentBytesSame(s, Appended(s, Current(s)), low, s.mergeFileCnt);
  }

  lemma AppendLeaves(s: Store)
    requires Inv(s) && s.task.Copying? && HasRoom(s, Size(Current(s)))
    ensures Outstanding(Appended(s, Current(s))) + Size(Current(s)) == Outstanding(s)
  {
    var t := Appended(s, Current(s));
    AppendedRecords(s, Current(s));
    TodoBytesKept(s, t);
    var file, cursor := s.task.file, s.task.cursor;
    assert Closed(s, file);
    assert t.files[file] == s.files[file] && t.task.cursor == cursor + Size(Current(s));
  }

  lemma AppendConserves(s: Store, low: nat)
    requires UnderWay(s, low) && s.task.Copying? && HasRoom(s, Size(Current(s)))
    ensures var t := Appended(s, Current(s));
      && Produced(t, low) == Produced(s, low) + Size(Current(s))
      && Outstanding(t) + Size(Current(s)) == Outstanding(s)
  {
    AppendProduces(s, low);
    AppendLeaves(s);
  }

  lemma CopyConserves(s: Store, low: nat)
    requires UnderWay(s, low) && Enabled(s, MergeCopy)
    ensures UnderWay(Copied(s), low)
    ensures Produced(Copied(s), low) + Outstanding(Copied(s)) == Produced(s, low) + Outstanding(s)
  {
    CopiedKeepsInv(s);
    CapacityKeepsInv(s, Size(Current(s)));
    CapacityConserves(s, low, Size(Current(s)));
    AppendConserves(WithCapacity(s, Size(Current(s))), low);
  }

  lemma InstallKeepsLive(s: Store, f: FileId)
    requires Inv(s) && AtEnd(s) && f in s.task.todo
    ensures LiveBytes(Installed(s), f) == LiveBytes(s, f)
  {
    var d, d' := s.keyDir, Installed(s).keyDir;
    assert Closed(s, f);
    forall k, e: Entry | e.file == f ensures (k in d && d[k] == e) <==> (k in d' && d'[k] == e) {
      if k in s.task.pending {
        assert UpdateOk(s, s.task.file, s.task.todo, k, s.task.pending[k]);
      }
    }
    LiveSame(d, d', f, s.files[f], 0, 0);
  }

  lemma InstallConserves(s: Store, low: nat)
    requires UnderWay(s, low) && AtEnd(s)
    ensures UnderWay(Installed(s), low)
    ensures Produced(Installed(s), low) == Produced(s, low)
    ensures Outstanding(Installed(s)) == Outstanding(s)
  {
    InstalledKeepsInv(s);
    InstallKeepsProduced(s, low);
    InstallKeepsOutstanding(s);
  }

  lemma InstallKeepsProduced(s: Store, low: nat)
    requires AtEnd(s) && Older(low, s.task.file)
    ensures Produced(Installed(s), low) == Produced(s, low)
  {
    SegmentBytesSame(s, Installed(s), low, s.mergeFileCnt + 1);
  }

  lemma InstallKeepsOutstanding(s: Store)
    requires Inv(s) && AtEnd(s)
    ensures Outstanding(Installed(s)) == Outstanding(s)
  {
    var t := Installed(s);
    LiveAtEnd(s.keyDir, s.task.file, s.files[s.task.file], 0, s.task.cursor);
    forall f | f in s.task.todo ensures LiveBytes(s, f) == LiveBytes(t, f) {
      InstallKeepsLive(s, f);
    }
    LiveBytesOfSame(s, t, s.task.todo);
  }

  lemma StepConserves(s: Store, e: Event, low: nat)
    requires UnderWay(s, low) && Enabled(s, e) && MergeStep(e)
    ensures UnderWay(Next(s, e), low)
    ensures Produced(Next(s, e), low) + Outstanding(Next(s, e)) == Produced(s, low) + Outstanding(s)
  {
    match e
    case MergeOpen => OpenConserves(s, low);
    case MergeScan => ScanConserves(s, low);
    case MergeCopy => CopyConserves(s, low);
    case MergeInstall => InstallConserves(s, low);
    case MergeEnd =>
      NextKeepsInv(s, e);
      TaskStepProduces(s, Next(s, e), low);
    case Get(_) =>
  }

  lemma {:induction false} RunConserves(s: Store, es: seq<Event>, low: nat)
    requires UnderWay(s, low) && Run(s, es) && forall e | e in es :: MergeStep(e)
    ensures UnderWay(After(s, es), low)
    ensures Produced(After(s, es), low) + Outstanding(After(s, es)) == Produced(s, low) + Outstanding(s)
    decreases es
  {
    if es == [] {
    } else {
      StepConserves(s, es[0], low);
      RunConserves(Next(s, es[0]), es[1..], low);
    }
  }

  lemma BeginConserves(s: Store, order: seq<FileId>)
    requires Inv(s) && Enabled(s, MergeBegin(order))
    ensures var t := Begun(s, order);
      && UnderWay(t, s.mergeFileCnt) && Produced(t, s.mergeFileCnt) == FileSize(s, Merge(s.mergeFileCnt))
      && Outstanding(t) == LiveBytesOf(s, order)
  {
    var t := Begun(s, order);
    BegunKeepsInv(s, order);
    forall f | f in order ensures Older(s.mergeFileCnt, f) && LiveBytes(s, f) == LiveBytes(t, f) {
      assert FileOk(s, f, s.files[f]);
    }
    LiveBytesOfSame(s, t, order);
    assert SegmentBytes(t, s.mergeFileCnt, s.mergeFileCnt) == 0;
  }

  // ---------- Which files stay ----------

  /** The file is older than the active one and the current segment: no step makes it again. */
  predicate Past(s: Store, f: FileId) {
    match f
    case Data(n) => n < s.fileCnt
    case Merge(n) => n < s.mergeFileCnt
  }

  /** The merge has still to process the file, or is at it. */
  predicate Ahead(s: Store, f: FileId) {
    || (!s.task.Idle? && f in s.task.todo)
    || ((s.task.Scanning? || s.task.Copying?) && f == s.task.file)
  }

  predicate Stranded(s: Store, f: FileId) {
    f in s.files && !Ahead(s, f)
  }

  lemma WriteMakesNone(s: Store, r: Record, f: FileId)
    requires Past(s, f)
    ensures var t := Write(s, r);
      Past(t, f) && (f in t.files ==> f in s.files) && (Ahead(t, f) <==> Ahead(s, f))
  {
  }

  lemma CopyMakesNone(s: Store, f: FileId)
    requires Enabled(s, MergeCopy) && Past(s, f)
    ensures var t := Copied(s);
      Past(t, f) && (f in t.files ==> f in s.files) && (Ahead(t, f) <==> Ahead(s, f))
  {
    var t := WithCapacity(s, Size(Current(s)));
    assert f in t.files ==> f in s.files;
    CopyKeepsTask(s);
  }

  lemma CopyKeepsTask(s: Store)
    requires Enabled(s, MergeCopy)
    ensures var t := Copied(s);
      t.task.Scanning? && t.task.file == s.task.file && t.task.todo == s.task.todo
  {
  }

  /** Only giving a file up leaves it behind. */
  lemma StepStrands(s: Store, e: Event, f: FileId)
    requires Enabled(s, e) && !e.MergeBegin? && Past(s, f)
    ensures Past(Next(s, e), f)
    ensures Stranded(Next(s, e), f) ==> Stranded(s, f) || (e.MergeAbandon? && f == s.task.file)
  {
    match e
    case Put(ts, k, v) => WriteMakesNone(s, Record(ts, k, v, false), f);
    case Delete(ts, k) => WriteMakesNone(s, Record(ts, k, [], true), f);
    case MergeCopy => CopyMakesNone(s, f);
    case _ =>
  }

  /** How many files are given up. */
  function Abandons(es: seq<Event>): nat {
    if es == [] then 0 else (if es[0].MergeAbandon? then 1 else 0) + Abandons(es[1..])
  }

  lemma {:induction false} AbandonsAdd(es: seq<Event>, es': seq<Event>)
    ensures Abandons(es + es') == Abandons(es) + Abandons(es')
  {
    if es == [] {
      assert es + es' == es';
    } else {
      assert (es + es')[1..] == es[1..] + es';
      AbandonsAdd(es[1..], es');
    }
  }

  /** The files a run gives up. */
  ghost function GivenUp(s: Store, es: seq<Event>): (fs: set<FileId>)
    requires Run(s, es)
    ensures |fs| <= Abandons(es)
    decreases es
  {
    if es == [] then {}
    else (if es[0].MergeAbandon? then {s.task.file} else {}) + GivenUp(Next(s, es[0]), es[1..])
  }

  lemma {:induction false} RunStrands(s: Store, es: seq<Event>, f: FileId)
    requires Run(s, es) && (forall e | e in es :: !e.MergeBegin?) && Past(s, f)
    ensures Stranded(After(s, es), f) ==> Stranded(s, f) || f in GivenUp(s, es)
    decreases es
  {
    if es == [] {
    } else {
      assert es[0] in es;
      StepStrands(s, es[0], f);
      RunStrands(Next(s, es[0]), es[1..], f);
    }
  }

  /** Whatever clients do meanwhile, of the files of its snapshot a finished merge leaves none but
      those it gave up. */
  lemma OnlyGivenUpStay(s: Store, order: seq<FileId>, es: seq<Event>)
    requires Inv(s) && Enabled(s, MergeBegin(order)) && Run(Begun(s, order), es)
    requires (forall e | e in es :: !e.MergeBegin?) && After(Begun(s, order), es).task.Idle?
    ensures forall f | f in order && f in After(Begun(s, order), es).files :: f in GivenUp(Begun(s, order), es)
  {
    BegunKeepsInv(s, order);
    forall f | f in order && f in After(Begun(s, order), es).files ensures f in GivenUp(Begun(s, order), es) {
      assert Closed(Begun(s, order), f);
      RunStrands(Begun(s, order), es, f);
    }
  }

  lemma {:induction false} NoneGivenUp(es: seq<Event>)
    requires forall e | e in es :: MergeStep(e)
    ensures Abandons(es) == 0
  {
    if es != [] {
      assert es[0] in es;
      NoneGivenUp(es[1..]);
    }
  }

  /** A merge during which nobody writes removes every file of its snapshot, and adds to the
      merge segments exactly the bytes of the records the index named in those files. */
  lemma MergeAddsLiveBytes(s: Store, order: seq<FileId>, es: seq<Event>)
    requires Inv(s) && Enabled(s, MergeBegin(order)) && Run(Begun(s, order), es)
    requires forall e | e in es :: MergeStep(e)
    requires After(Begun(s, order), es).task.Idle?
    ensures var t := After(Begun(s, order), es);
      && Produced(t, s.mergeFileCnt) == FileSize(s, Merge(s.mergeFileCnt)) + LiveBytesOf(s, order)
      && forall f | f in order :: f !in t.files
  {
    BeginConserves(s, order);
    RunConserves(Begun(s, order), es, s.mergeFileCnt);
    OnlyGivenUpStay(s, order, es);
    NoneGivenUp(es);
  }

  // ---------- With clients writing meanwhile ----------

  /** An index that names fewer records of a file makes fewer of its bytes live. */
  lemma {:induction false} LiveFewer(d: map<Bytes, Entry>, d': map<Bytes, Entry>, file: FileId, rs: seq<Record>,
                                     from: nat, cursor: nat)
    requires forall k | k in d' && d'[k].file == file :: k in d && d[k] == d'[k]
    ensures LiveFrom(d', file, rs, from, cursor) <= LiveFrom(d, file, rs, from, cursor)
  {
    if rs == [] {
    } else {
      LiveFewer(d, d', file, rs[1..], from + Size(rs[0]), cursor);
    }
  }

  lemma {:induction false} LiveBytesOfFewer(s: Store, t: Store, fs: seq<FileId>)
    requires forall f | f in fs :: LiveBytes(t, f) <= LiveBytes(s, f)
    ensures LiveBytesOf(t, fs) <= LiveBytesOf(s, fs)
  {
    if fs == [] {
    } else {
      assert fs[0] in fs;
      LiveBytesOfFewer(s, t, fs[1..]);
    }
  }

  /** A write names no record of a closed file that was not named before. */
  lemma WriteNamesNoneClosed(s: Store, r: Record, f: FileId)
    requires Inv(s) && Accepts(s) && Closed(s, f)
    ensures var t := Written(s, r);
      && f in t.files && t.files[f] == s.files[f]
      && forall k | k in t.keyDir && t.keyDir[k].file == f :: k in s.keyDir && s.keyDir[k] == t.keyDir[k]
  {
    WrittenKeepsRecords(s, r);
  }

  lemma WriteKeepsProduced(s: Store, r: Record, low: nat)
    requires Inv(s) && Accepts(s)
    ensures Produced(Written(s, r), low) == Produced(s, low)
  {
    WrittenKeepsRecords(s, r);
    SegmentBytesSame(s, Written(s, r), low, s.mergeFileCnt + 1);
  }

  lemma WriteLowersTodo(s: Store, r: Record, todo: seq<FileId>)
    requires Inv(s) && Accepts(s) && TodoOk(s, todo)
    ensures LiveBytesOf(Written(s, r), todo) <= LiveBytesOf(s, todo)
  {
    var t := Written(s, r);
    forall f | f in todo ensures LiveBytes(t, f) <= LiveBytes(s, f) {
      WriteLowersFile(s, r, f, 0);
    }
    LiveBytesOfFewer(s, t, todo);
  }

  lemma WriteLowersFile(s: Store, r: Record, f: FileId, cursor: nat)
    requires Inv(s) && Accepts(s) && Closed(s, f)
    ensures var t := Written(s, r);
      && f in t.files && t.files[f] == s.files[f]
      && LiveFrom(t.keyDir, f, s.files[f], 0, cursor) <= LiveFrom(s.keyDir, f, s.files[f], 0, cursor)
  {
    WriteNamesNoneClosed(s, r, f);
    LiveFewer(s.keyDir, Written(s, r).keyDir, f, s.files[f], 0, cursor);
  }

  lemma WriteLowersOutstanding(s: Store, r: Record)
    requires Inv(s) && Accepts(s)
    ensures Outstanding(Written(s, r)) <= Outstanding(s)
  {
    match s.task
    case Idle =>
    case Picking(todo, _) => WriteLowersTodo(s, r, todo);
    case Scanning(todo, _, file, cursor, _) =>
      WriteLowersTodo(s, r, todo);
      WriteLowersFile(s, r, file, cursor);
    case Copying(todo, _, file, cursor, _) =>
      WriteLowersTodo(s, r, todo);
      WriteLowersFile(s, r, file, cursor + Size(Current(s)));
  }

  lemma WriteBounds(s: Store, r: Record, low: nat)
    requires UnderWay(s, low) && Storable(r)
    ensures var t := Write(s, r);
      && UnderWay(t, low) && Produced(t, low) == Produced(s, low) && Outstanding(t) <= Outstanding(s)
  {
    WriteKeepsInv(s, r);
    if Accepts(s) {
      WriteKeepsProduced(s, r, low);
      WriteLowersOutstanding(s, r);
    }
  }

  lemma AbandonBounds(s: Store, low: nat)
    requires UnderWay(s, low) && Enabled(s, MergeAbandon)
    ensures var t := Abandoned(s);
      && UnderWay(t, low) && Produced(t, low) == Produced(s, low) && Outstanding(t) <= Outstanding(s)
  {
    AbandonedKeepsInv(s);
    TaskStepProduces(s, Abandoned(s), low);
    LiveBytesOfSame(s, Abandoned(s), s.task.todo);
  }

  /** No step makes what the merge has copied and has still to copy more. */
  lemma StepBounds(s: Store, e: Event, low: nat)
    requires UnderWay(s, low) && Enabled(s, e) && !e.MergeBegin?
    ensures UnderWay(Next(s, e), low)
    ensures Produced(Next(s, e), low) + Outstanding(Next(s, e)) <= Produced(s, low) + Outstanding(s)
  {
    match e
    case Put(ts, k, v) => WriteBounds(s, Record(ts, k, v, false), low);
    case Delete(ts, k) => WriteBounds(s, Record(ts, k, [], true), low);
    case MergeAbandon => AbandonBounds(s, low);
    case _ => StepConserves(s, e, low);
  }

  lemma {:induction false} RunBounds(s: Store, es: seq<Event>, low: nat)
    requires UnderWay(s, low) && Run(s, es) && forall e | e in es :: !e.MergeBegin?
    ensures UnderWay(After(s, es), low)
    ensures Produced(After(s, es), low) + Outstanding(After(s, es)) <= Produced(s, low) + Outstanding(s)
    decreases es
  {
    if es == [] {
    } else {
      assert es[0] in es;
      StepBounds(s, es[0], low);
      RunBounds(Next(s, es[0]), es[1..], low);
    }
  }

  /** Whatever clients write meanwhile and whatever the merge gives up, it never adds more to the
      merge segments than the bytes the index named in its snapshot when it began. */
  lemma MergeAddsAtMostLiveBytes(s: Store, order: seq<FileId>, es: seq<Event>)
    requires Inv(s) && Enabled(s, MergeBegin(order)) && Run(Begun(s, order), es)
    requires forall e | e in es :: !e.MergeBegin?
    ensures Produced(After(Begun(s, order), es), s.mergeFileCnt)
         <= FileSize(s, Merge(s.mergeFileCnt)) + LiveBytesOf(s, order)
  {
    BeginConserves(s, order);
    RunBounds(Begun(s, order), es, s.mergeFileCnt);
  }

  /** Bytes between the cursor and the end of the file being scanned. */
  function Left(s: Store): int
    requires s.task.Scanning? || s.task.Copying?
  {
    if s.task.file in s.files then TotalSize(s.files[s.task.file]) - s.task.cursor else 0
  }

  lemma ScanProgresses(s: Store)
    requires Inv(s) && Enabled(s, MergeScan)
    ensures Left(s) > 0 && Scanned(s).task.todo == s.task.todo
    ensures Scanned(s).task.Scanning? ==> Left(Scanned(s)) < Left(s)
    ensures Scanned(s).task.Copying? ==> Left(Scanned(s)) == Left(s)
  {
    RecordBeforeEnd(s.files[s.task.file], s.task.cursor);
  }

  lemma CapacityKeepsLeft(s: Store, size: nat)
    requires s.task.Copying? && s.task.file in s.files
    ensures Left(WithCapacity(s, size)) == Left(s)
  {
  }

  lemma AppendProgresses(s: Store, r: Record)
    requires s.task.Copying? && HasSegment(s) && s.task.file in s.files && s.task.file != Merge(s.task.segment.id)
    ensures var t := Appended(s, r); t.task.Scanning? && t.task.todo == s.task.todo && Left(t) == Left(s) - Size(r)
  {
  }

  lemma CopyProgresses(s: Store)
    requires Inv(s) && Enabled(s, MergeCopy)
    ensures Left(s) > 0 && Copied(s).task.todo == s.task.todo
    ensures Copied(s).task.Scanning? && Left(Copied(s)) < Left(s)
  {
    var r := Current(s);
    var t := WithCapacity(s, Size(r));
    CapacityKeepsInv(s, Size(r));
    assert Closed(s, s.task.file) && Closed(t, t.task.file) && t.task.segment.id == t.mergeFileCnt;
    CapacityKeepsLeft(s, Size(r));
    AppendProgresses(t, r);
    RecordBeforeEnd(s.files[s.task.file], s.task.cursor);
  }
}
