/** What every step of the store keeps. */
module BitcaskInvariant {
  import opened Bytes
  import opened Wrappers
  import opened BitcaskModel
  import opened BitcaskLayout

  /** The entry names a live record of its own key, with its exact value size. */
  predicate EntryOk(s: Store, k: Bytes, e: Entry) {
    match RecordOf(s, e)
    case None => false
    case Some(r) => r.key == k && !r.deleted && |r.value| == e.valueSize
  }

  ghost predicate KeyDirOk(s: Store) {
    forall k | k in s.keyDir :: EntryOk(s, k, s.keyDir[k])
  }

  /** The active file ends at the current offset, below the limit; while there is none,
      nothing was ever written. */
  ghost predicate ActiveOk(s: Store) {
    if Data(s.fileCnt) in s.files
    then s.currOffset == TotalSize(s.files[Data(s.fileCnt)]) < MAX_FILE_SIZE
    else s.currOffset == 0 && s.keyDir == map[] && forall f | f in s.files :: f.Merge?
  }

  /** Closed by rotation: only the last record took the file to the limit. */
  predicate Full(rs: seq<Record>) {
    rs != [] && TotalSize(rs[..|rs| - 1]) < MAX_FILE_SIZE <= TotalSize(rs)
  }

  /** A merge segment holds live records only, within the limit unless it holds just one. */
  ghost predicate SegmentOk(rs: seq<Record>) {
    && (TotalSize(rs) <= MAX_FILE_SIZE || |rs| == 1)
    && forall r | r in rs :: !r.deleted
  }

  ghost predicate FileOk(s: Store, f: FileId, rs: seq<Record>) {
    && (forall r | r in rs :: Storable(r))
    && match f
       case Data(n) => n <= s.fileCnt && (n < s.fileCnt ==> Full(rs))
       case Merge(n) => n <= s.mergeFileCnt && SegmentOk(rs)
  }

  ghost predicate FilesOk(s: Store) {
    forall f | f in s.files :: FileOk(s, f, s.files[f])
  }

  /** Every merge segment has a hint file, and it lists the segment's records one for one. */
  ghost predicate HintsOk(s: Store) {
    && (forall n | n in s.hints :: Merge(n) in s.files && s.hints[n] == HintsFor(s.files[Merge(n)], 0))
    && (forall f | f in s.files && f.Merge? :: f.n in s.hints)
  }

  /** No step appends to a closed file any more. */
  predicate Closed(s: Store, f: FileId) {
    && f in s.files
    && match f
       case Data(n) => n < s.fileCnt
       case Merge(n) => n < s.mergeFileCnt
  }

  /** A pending copy holds the very record it was made from, in a file that stays. */
  ghost predicate UpdateOk(s: Store, file: FileId, todo: seq<FileId>, k: Bytes, u: Update) {
    && u.original.file == file
    && u.copy.file != file && u.copy.file !in todo
    && EntryOk(s, k, u.original) && EntryOk(s, k, u.copy)
    && RecordOf(s, u.copy) == RecordOf(s, u.original)
  }

  ghost predicate PendingOk(s: Store, file: FileId, todo: seq<FileId>, pending: map<Bytes, Update>) {
    forall k | k in pending :: UpdateOk(s, file, todo, k, pending[k])
  }

  /** Every index entry the scan has passed has a pending copy. */
  ghost predicate Covered(s: Store, file: FileId, cursor: nat, pending: map<Bytes, Update>) {
    forall k | k in s.keyDir && s.keyDir[k].file == file && s.keyDir[k].offset < cursor ::
      k in pending && pending[k].original == s.keyDir[k]
  }

  /** A key with a pending copy has been passed, and the index names no other of its records
      in the file: it still holds the original, or has left the file for good. */
  ghost predicate Settled(s: Store, file: FileId, cursor: nat, pending: map<Bytes, Update>) {
    forall k | k in pending ::
      && pending[k].original.offset < cursor
      && (k in s.keyDir && s.keyDir[k].file == file ==> s.keyDir[k] == pending[k].original)
  }

  ghost predicate TodoOk(s: Store, todo: seq<FileId>) {
    Distinct(todo) && forall f | f in todo :: Closed(s, f)
  }

  ghost predicate CurrentSegmentOk(s: Store, seg: Segment) {
    && seg.id == s.mergeFileCnt
    && Merge(seg.id) in s.files && seg.id in s.hints
    && seg == SegmentOf(s, seg.id)
  }

  ghost predicate ScanOk(s: Store, todo: seq<FileId>, file: FileId, cursor: nat, pending: map<Bytes, Update>) {
    && Closed(s, file) && file !in todo
    && Boundary(s.files[file], cursor)
    && PendingOk(s, file, todo, pending)
    && Covered(s, file, cursor, pending)
    && Settled(s, file, cursor, pending)
  }

  /** The record to be copied is live, or its key has left the file since it was looked up. */
  predicate CopyOk(s: Store) {
    && AtRecord(s) && !Current(s).deleted && Current(s).key !in s.task.pending
    && (Current(s).key in s.keyDir && s.keyDir[Current(s).key].file == s.task.file ==>
          s.keyDir[Current(s).key] == CurrentEntry(s))
  }

  ghost predicate TaskOk(s: Store) {
    match s.task
    case Idle => true
    case Picking(todo, seg) => CurrentSegmentOk(s, seg) && TodoOk(s, todo)
    case Scanning(todo, seg, file, cursor, pending) =>
      CurrentSegmentOk(s, seg) && TodoOk(s, todo) && ScanOk(s, todo, file, cursor, pending)
    case Copying(todo, seg, file, cursor, pending) =>
      && CurrentSegmentOk(s, seg) && TodoOk(s, todo) && ScanOk(s, todo, file, cursor, pending)
      && CopyOk(s)
  }

  ghost predicate Inv(s: Store) {
    KeyDirOk(s) && ActiveOk(s) && FilesOk(s) && HintsOk(s) && TaskOk(s)
  }

  /** Every record of `s` outside `gone` is still where it was. */
  ghost predicate KeepsRecords(s: Store, t: Store, gone: set<FileId>) {
    forall e: Entry | e.file !in gone && RecordOf(s, e).Some? :: RecordOf(t, e) == RecordOf(s, e)
  }

  lemma AppendKeepsRecords(s: Store, t: Store, f: FileId, r: Record)
    requires t.files.Keys >= s.files.Keys
    requires forall g | g in s.files && g != f :: t.files[g] == s.files[g]
    requires f in s.files ==> t.files[f] == s.files[f] + [r]
    ensures KeepsRecords(s, t, {})
  {
    forall e: Entry | RecordOf(s, e).Some?
      ensures RecordOf(t, e) == RecordOf(s, e)
    {
      if e.file == f {
        RecordAtAppend(s.files[f], r, e.offset);
      }
    }
  }

  // ---------- Put and Delete ----------

  lemma GrownIsFull(rs: seq<Record>, r: Record)
    requires TotalSize(rs) < MAX_FILE_SIZE
    ensures TotalSize(rs + [r]) == TotalSize(rs) + Size(r)
    ensures TotalSize(rs + [r]) >= MAX_FILE_SIZE ==> Full(rs + [r])
  {
    TotalSizeAppend(rs, r);
    assert (rs + [r])[..|rs|] == rs;
  }

  lemma WrittenKeepsActive(s: Store, r: Record)
    requires FilesOk(s) && ActiveOk(s) && Accepts(s) && Storable(r)
    ensures var t := Written(s, r); var active := Data(s.fileCnt);
      ActiveOk(t) && active in t.files && FileOk(t, active, t.files[active])
  {
    var t, active := Written(s, r), Data(s.fileCnt);
    var rs := Opened(s)[active];
    assert active in s.files ==> FileOk(s, active, s.files[active]);
    GrownIsFull(rs, r);
    assert t.files[active] == rs + [r];
  }

  lemma WrittenKeepsFiles(s: Store, r: Record)
    requires FilesOk(s) && ActiveOk(s) && Accepts(s) && Storable(r)
    ensures FilesOk(Written(s, r)) && ActiveOk(Written(s, r))
  {
    var t := Written(s, r);
    WrittenKeepsActive(s, r);
    forall f | f in t.files ensures FileOk(t, f, t.files[f]) {
      if f != Data(s.fileCnt) && f in s.files {
        assert FileOk(s, f, s.files[f]);
        assert t.files[f] == s.files[f];
      }
    }
  }

  lemma WrittenKeepsRecords(s: Store, r: Record)
    requires FilesOk(s) && Accepts(s)
    ensures KeepsRecords(s, Written(s, r), {})
    ensures forall f | Closed(s, f) :: Closed(Written(s, r), f) && Written(s, r).files[f] == s.files[f]
    ensures forall f | f in s.files && f.Merge? :: f in Written(s, r).files && Written(s, r).files[f] == s.files[f]
    ensures forall f | f in Written(s, r).files && f.Merge? :: f in s.files
  {
    var t := Written(s, r);
    assert Data(s.fileCnt + 1) !in s.files;
    AppendKeepsRecords(s, t, Data(s.fileCnt), r);
  }

  lemma EntryKept(s: Store, t: Store, gone: set<FileId>, k: Bytes, e: Entry)
    requires KeepsRecords(s, t, gone) && e.file !in gone && EntryOk(s, k, e)
    ensures EntryOk(t, k, e) && RecordOf(t, e) == RecordOf(s, e)
  {
    assert RecordOf(s, e).Some?;
  }

  /** The record a write has just appended is the one its new entry names. */
  lemma WrittenIsFound(s: Store, r: Record)
    requires ActiveOk(s) && Accepts(s)
    ensures RecordOf(Written(s, r), Entry(Data(s.fileCnt), s.currOffset, |r.value|)) == Some(r)
  {
    RecordAtEnd(Opened(s)[Data(s.fileCnt)], r);
  }

  lemma WrittenKeepsKeyDir(s: Store, r: Record)
    requires KeyDirOk(s) && ActiveOk(s) && FilesOk(s) && Accepts(s)
    ensures KeyDirOk(Written(s, r))
  {
    var t := Written(s, r);
    WrittenKeepsRecords(s, r);
    WrittenIsFound(s, r);
    forall k | k in t.keyDir ensures EntryOk(t, k, t.keyDir[k]) {
      if k != r.key {
        EntryKept(s, t, {}, k, s.keyDir[k]);
      }
    }
  }

  /** A step that leaves the merge's own variables alone, keeps the records and touches no
      closed file or segment leaves the merge in order. */
  lemma ScanKept(s: Store, t: Store, todo: seq<FileId>, file: FileId, cursor: nat, pending: map<Bytes, Update>)
    requires ScanOk(s, todo, file, cursor, pending)
    requires KeepsRecords(s, t, {})
    requires Closed(t, file) && t.files[file] == s.files[file]
    requires forall k | k in t.keyDir && t.keyDir[k].file == file :: k in s.keyDir && s.keyDir[k] == t.keyDir[k]
    ensures ScanOk(t, todo, file, cursor, pending)
  {
    forall k | k in pending ensures UpdateOk(t, file, todo, k, pending[k]) {
      var u := pending[k];
      assert UpdateOk(s, file, todo, k, u);
      EntryKept(s, t, {}, k, u.original);
      EntryKept(s, t, {}, k, u.copy);
    }
  }

  lemma WrittenKeepsTask(s: Store, r: Record)
    requires TaskOk(s) && FilesOk(s) && Accepts(s)
    ensures TaskOk(Written(s, r))
  {
    var t := Written(s, r);
    WrittenKeepsRecords(s, r);
    if s.task.Scanning? || s.task.Copying? {
      ScanKept(s, t, s.task.todo, s.task.file, s.task.cursor, s.task.pending);
    }
  }

  lemma WriteKeepsInv(s: Store, r: Record)
    requires Inv(s) && Storable(r)
    ensures Inv(Write(s, r))
  {
    if Accepts(s) {
      WrittenKeepsFiles(s, r);
      WrittenKeepsRecords(s, r);
      WrittenKeepsKeyDir(s, r);
      WrittenKeepsTask(s, r);
    }
  }

  // ---------- Beginning a merge, opening a file, scanning ----------

  /** Opening the current segment, or the next one, leaves every record in place. */
  lemma SegmentReady(s: Store, id: nat)
    requires Inv(s) && s.mergeFileCnt <= id <= s.mergeFileCnt + 1
    ensures var t := WithSegment(s.(mergeFileCnt := id), id);
      && Merge(id) in t.files && id in t.hints
      && KeepsRecords(s, t, {}) && KeyDirOk(t) && FilesOk(t) && HintsOk(t) && ActiveOk(t)
      && forall f | f in s.files :: f in t.files && t.files[f] == s.files[f]
  {
    var t := WithSegment(s.(mergeFileCnt := id), id);
    assert forall f | f in s.files :: f in t.files && t.files[f] == s.files[f];
    forall k | k in t.keyDir ensures EntryOk(t, k, t.keyDir[k]) {
      EntryKept(s, t, {}, k, s.keyDir[k]);
    }
    forall f | f in t.files ensures FileOk(t, f, t.files[f]) {
      assert f in s.files ==> FileOk(s, f, s.files[f]);
    }
  }

  lemma BegunKeepsInv(s: Store, order: seq<FileId>)
    requires Inv(s) && s.task.Idle? && Snapshot(s, order)
    ensures Inv(Begun(s, order))
  {
    var t := Begun(s, order);
    assert s.(mergeFileCnt := s.mergeFileCnt) == s;
    SegmentReady(s, s.mergeFileCnt);
    TaskStepKeepsRest(WithSegment(s, s.mergeFileCnt), t);
    forall f | f in order ensures Closed(t, f) {
      assert FileOk(s, f, s.files[f]);
    }
  }

  lemma OpenedKeepsInv(s: Store)
    requires Inv(s) && Enabled(s, MergeOpen)
    ensures Inv(FileOpened(s)) && FileOpened(s).task.Scanning?
  {
    var file, rest := s.task.todo[0], s.task.todo[1..];
    assert Closed(s, file);
    if s.files[file] != [] {
      assert RecordAt(s.files[file], 0).Some?;
    }
    var t := FileOpened(s);
    forall f | f in rest ensures Closed(t, f) {
      assert Closed(s, f);
    }
    assert ScanOk(t, rest, file, 0, map[]);
    TaskStepKeepsRest(s, t);
  }

  /** A step that changes nothing but the merge's own variables. */
  lemma TaskStepKeepsRest(s: Store, t: Store)
    requires t == s.(task := t.task)
    requires KeyDirOk(s) && ActiveOk(s) && FilesOk(s) && HintsOk(s)
    ensures KeyDirOk(t) && ActiveOk(t) && FilesOk(t) && HintsOk(t)
  {
    forall k | k in t.keyDir ensures EntryOk(t, k, t.keyDir[k]) {
      assert EntryOk(s, k, s.keyDir[k]);
    }
    forall f | f in t.files ensures FileOk(t, f, t.files[f]) {
      assert FileOk(s, f, s.files[f]);
    }
  }

  /** Passing a record that is deleted or not current leaves no live record behind. */
  lemma PassedIsCovered(s: Store)
    requires KeyDirOk(s) && TaskOk(s) && Enabled(s, MergeScan) && !IsLive(s)
    ensures Covered(s, s.task.file, s.task.cursor + Size(Current(s)), s.task.pending)
  {
    var t := s.task;
    var rs, r := s.files[t.file], Current(s);
    forall k | k in s.keyDir && s.keyDir[k].file == t.file && s.keyDir[k].offset < t.cursor + Size(r)
      ensures k in t.pending && t.pending[k].original == s.keyDir[k]
    {
      assert EntryOk(s, k, s.keyDir[k]);
      RecordExtent(rs, t.cursor, s.keyDir[k].offset);
      assert s.keyDir[k].offset != t.cursor;
    }
  }

  lemma ScannedKeepsInv(s: Store)
    requires Inv(s) && Enabled(s, MergeScan)
    ensures Inv(Scanned(s))
  {
    TaskStepKeepsRest(s, Scanned(s));
    ScannedKeepsScan(s);
  }

  lemma ScannedKeepsScan(s: Store)
    requires KeyDirOk(s) && TaskOk(s) && Enabled(s, MergeScan)
    ensures var (t, u) := (s.task, Scanned(s).task); ScanOk(Scanned(s), t.todo, t.file, u.cursor, t.pending)
    ensures Scanned(s).task.Copying? ==> Current(s).key !in s.task.pending
  {
    var t := s.task;
    RecordExtent(s.files[t.file], t.cursor, t.cursor);
    var cursor := if IsLive(s) then t.cursor else t.cursor + Size(Current(s));
    assert Covered(s, t.file, cursor, t.pending) by {
      if !IsLive(s) {
        PassedIsCovered(s);
      }
    }
    ScanMoved(s, Scanned(s), t.todo, t.file, t.cursor, cursor, t.pending);
  }

  lemma ScanMoved(s: Store, t: Store, todo: seq<FileId>, file: FileId, cursor: nat, cursor': nat,
                  pending: map<Bytes, Update>)
    requires t == s.(task := t.task)
    requires ScanOk(s, todo, file, cursor, pending)
    requires Boundary(s.files[file], cursor') && cursor <= cursor' && Covered(s, file, cursor', pending)
    ensures ScanOk(t, todo, file, cursor', pending)
  {
    forall k | k in pending ensures UpdateOk(t, file, todo, k, pending[k]) {
      assert UpdateOk(s, file, todo, k, pending[k]);
    }
  }

  // ---------- Copying a live record ----------

  predicate HasRoom(s: Store, size: nat) {
    && HasSegment(s)
    && (s.task.segment.dataOffset + size <= MAX_FILE_SIZE || s.files[Merge(s.task.segment.id)] == [])
  }

  lemma CapacityKeepsInv(s: Store, size: nat)
    requires Inv(s) && s.task.Copying?
    ensures var t := WithCapacity(s, size);
      && Inv(t) && HasRoom(t, size) && KeepsRecords(s, t, {})
      && t.keyDir == s.keyDir
      && t.task == Copying(s.task.todo, t.task.segment, s.task.file, s.task.cursor, s.task.pending)
      && AtRecord(t) && Current(t) == Current(s)
  {
    if s.task.segment.dataOffset + size > MAX_FILE_SIZE {
      RotatedKeepsRest(s, size);
      RotatedKeepsTask(s, size);
    }
  }

  /** The segment is kept as long as the record fits it, and only then; otherwise the next one
      follows, which is empty, and the old one stays as it is. */
  lemma RotatesIffFull(s: Store, size: nat)
    requires Inv(s) && s.task.Copying?
    ensures var t := WithCapacity(s, size);
      && (s.task.segment.dataOffset + size <= MAX_FILE_SIZE ==> t == s)
      && (s.task.segment.dataOffset + size > MAX_FILE_SIZE ==>
            && t.task.segment == Segment(s.mergeFileCnt + 1, 0, 0) && t.mergeFileCnt == s.mergeFileCnt + 1
            && t.files == s.files[Merge(s.mergeFileCnt + 1) := []])
  {
    if s.task.segment.dataOffset + size > MAX_FILE_SIZE {
      RotatedKeepsRest(s, size);
      assert forall f | f in s.files && f.Merge? :: FileOk(s, f, s.files[f]);
      assert Merge(s.mergeFileCnt + 1) !in s.files;
    }
  }

  lemma RotatedKeepsRest(s: Store, size: nat)
    requires Inv(s) && s.task.Copying? && s.task.segment.dataOffset + size > MAX_FILE_SIZE
    ensures var t := WithCapacity(s, size);
      && KeyDirOk(t) && ActiveOk(t) && FilesOk(t) && HintsOk(t) && KeepsRecords(s, t, {})
      && (forall f | f in s.files :: f in t.files && t.files[f] == s.files[f])
      && Merge(s.mergeFileCnt + 1) in t.files && t.files[Merge(s.mergeFileCnt + 1)] == []
      && s.mergeFileCnt + 1 in t.hints && t.hints[s.mergeFileCnt + 1] == []
  {
    var id := s.mergeFileCnt + 1;
    var u := WithSegment(s.(mergeFileCnt := id), id);
    SegmentReady(s, id);
    assert Merge(id) !in s.files && id !in s.hints;
    RotationOpensSegment(s, size);
    TaskStepKeepsRest(u, WithCapacity(s, size));
  }

  lemma RotationOpensSegment(s: Store, size: nat)
    requires s.task.Copying? && s.task.segment.dataOffset + size > MAX_FILE_SIZE
    ensures var t := WithCapacity(s, size); var id := s.mergeFileCnt + 1;
      t == WithSegment(s.(mergeFileCnt := id), id).(task := t.task)
  {
  }

  lemma RotatedKeepsTask(s: Store, size: nat)
    requires Inv(s) && s.task.Copying? && s.task.segment.dataOffset + size > MAX_FILE_SIZE
    ensures TaskOk(WithCapacity(s, size))
  {
    var t := WithCapacity(s, size);
    RotatedKeepsRest(s, size);
    assert Closed(s, s.task.file) && Closed(t, s.task.file);
    ScanKept(s, t, t.task.todo, t.task.file, t.task.cursor, t.task.pending);
    forall f | f in t.task.todo ensures Closed(t, f) {
      assert Closed(s, f);
    }
  }

  lemma AppendedKeepsFiles(s: Store, r: Record)
    requires Inv(s) && s.task.Copying? && AtRecord(s) && r == Current(s) && HasRoom(s, Size(r))
    ensures FilesOk(Appended(s, r))
  {
    var t := Appended(s, r);
    var f := Merge(s.task.segment.id);
    TotalSizeAppend(s.files[f], r);
    CurrentIsStorable(s);
    forall g | g in t.files ensures FileOk(t, g, t.files[g]) {
      assert FileOk(s, g, s.files[g]);
    }
  }

  lemma AppendedKeepsHints(s: Store, r: Record)
    requires s.task.Copying? && HintsOk(s) && CurrentSegmentOk(s, s.task.segment)
    ensures HintsOk(Appended(s, r))
  {
    var t := Appended(s, r);
    var id := s.task.segment.id;
    HintsForAppend(s.files[Merge(id)], r, 0);
    forall n | n in t.hints ensures Merge(n) in t.files && t.hints[n] == HintsFor(t.files[Merge(n)], 0) {
      if n != id {
        assert t.hints[n] == s.hints[n] && t.files[Merge(n)] == s.files[Merge(n)];
      }
    }
  }

  lemma AppendedKeepsSegment(s: Store, r: Record)
    requires Inv(s) && s.task.Copying?
    ensures var t := Appended(s, r); CurrentSegmentOk(t, t.task.segment) && ActiveOk(t)
  {
    var seg := s.task.segment;
    TotalSizeAppend(s.files[Merge(seg.id)], r);
    HintsSizeAppend(s.hints[seg.id], Hint(r.key, |r.value|, seg.dataOffset));
  }

  lemma CurrentIsStorable(s: Store)
    requires FilesOk(s) && AtRecord(s)
    ensures Storable(Current(s))
  {
    FoundIsMember(s.files[s.task.file], s.task.cursor);
    assert FileOk(s, s.task.file, s.files[s.task.file]);
  }

  lemma {:induction false} FoundIsMember(rs: seq<Record>, offset: int)
    requires RecordAt(rs, offset).Some?
    ensures RecordAt(rs, offset).value in rs
  {
    if offset != 0 {
      FoundIsMember(rs[1..], offset - Size(rs[0]));
    }
  }

  /** What a copy leaves: every old record, and the copied one at the segment's old end. */
  lemma AppendedRecords(s: Store, r: Record)
    requires Inv(s) && s.task.Copying?
    ensures var t := Appended(s, r);
      && KeepsRecords(s, t, {})
      && RecordOf(t, Entry(Merge(s.task.segment.id), s.task.segment.dataOffset, |r.value|)) == Some(r)
      && forall f | Closed(s, f) :: Closed(t, f) && t.files[f] == s.files[f]
  {
    var f := Merge(s.task.segment.id);
    AppendKeepsRecords(s, Appended(s, r), f, r);
    RecordAtEnd(s.files[f], r);
  }

  lemma AppendedKeepsScan(s: Store, r: Record)
    requires Inv(s) && s.task.Copying? && AtRecord(s) && r == Current(s)
    ensures var t := Appended(s, r); ScanOk(t, t.task.todo, t.task.file, t.task.cursor, t.task.pending)
  {
    RecordExtent(s.files[s.task.file], s.task.cursor, s.task.cursor);
    AppendedKeepsOldScan(s, r);
    AppendedKeepsPending(s, r);
    AppendedIsCovered(s, r);
    AppendedIsSettled(s, r);
  }

  lemma AppendedIsSettled(s: Store, r: Record)
    requires s.task.Copying? && CopyOk(s) && r == Current(s) && HasSegment(s)
    requires Settled(s, s.task.file, s.task.cursor, s.task.pending)
    ensures var t := Appended(s, r); Settled(t, t.task.file, t.task.cursor, t.task.pending)
  {
  }

  lemma AppendedKeepsOldScan(s: Store, r: Record)
    requires Inv(s) && s.task.Copying? && AtRecord(s) && r == Current(s)
    ensures ScanOk(Appended(s, r), s.task.todo, s.task.file, s.task.cursor, s.task.pending)
    ensures Appended(s, r).files[s.task.file] == s.files[s.task.file]
  {
    AppendedRecords(s, r);
    ScanKept(s, Appended(s, r), s.task.todo, s.task.file, s.task.cursor, s.task.pending);
  }

  lemma AppendedKeepsPending(s: Store, r: Record)
    requires Inv(s) && s.task.Copying? && AtRecord(s) && r == Current(s)
    requires PendingOk(Appended(s, r), s.task.file, s.task.todo, s.task.pending)
    ensures PendingOk(Appended(s, r), s.task.file, s.task.todo, Appended(s, r).task.pending)
  {
    var t := Appended(s, r);
    var todo, file := s.task.todo, s.task.file;
    AppendedRecords(s, r);
    var u := t.task.pending[r.key];
    assert UpdateOk(t, file, todo, r.key, u) by {
      assert RecordOf(s, u.original) == Some(r);
      EntryKept(s, t, {}, r.key, u.original);
    }
    forall k | k in t.task.pending ensures UpdateOk(t, file, todo, k, t.task.pending[k]) {
      assert k != r.key ==> UpdateOk(t, file, todo, k, s.task.pending[k]);
    }
  }

  lemma AppendedIsCovered(s: Store, r: Record)
    requires Inv(s) && s.task.Copying? && AtRecord(s) && r == Current(s)
    ensures var t := Appended(s, r); Covered(t, t.task.file, t.task.cursor, t.task.pending)
  {
    var t := Appended(s, r);
    var file, cursor := s.task.file, s.task.cursor;
    forall k | k in s.keyDir && s.keyDir[k].file == file && s.keyDir[k].offset < cursor + Size(r)
      ensures k in t.task.pending && t.task.pending[k].original == s.keyDir[k]
    {
      assert EntryOk(s, k, s.keyDir[k]);
      RecordExtent(s.files[file], cursor, s.keyDir[k].offset);
      if k == r.key && s.keyDir[k].offset < cursor {
        assert false;
      }
    }
  }

  lemma AppendedKeepsKeyDir(s: Store, r: Record)
    requires Inv(s) && s.task.Copying?
    ensures KeyDirOk(Appended(s, r))
  {
    var t := Appended(s, r);
    AppendedRecords(s, r);
    forall k | k in t.keyDir ensures EntryOk(t, k, t.keyDir[k]) {
      EntryKept(s, t, {}, k, s.keyDir[k]);
    }
  }

  lemma CopiedKeepsInv(s: Store)
    requires Inv(s) && Enabled(s, MergeCopy)
    ensures Inv(Copied(s)) && KeepsRecords(s, Copied(s), {})
  {
    var r := Current(s);
    var t := WithCapacity(s, Size(r));
    CapacityKeepsInv(s, Size(r));
    AppendedKeepsFiles(t, r);
    AppendedKeepsHints(t, r);
    AppendedKeepsSegment(t, r);
    AppendedKeepsKeyDir(t, r);
    AppendedKeepsScan(t, r);
    AppendedRecords(t, r);
  }

  // ---------- Installing the copies and removing the file ----------

  /** Once the scan has reached the end, no entry the merge keeps names the file. */
  lemma InstalledLeavesNoEntry(s: Store)
    requires Inv(s) && AtEnd(s)
    ensures s.task.file !in Installed(s).files
    ensures forall k | k in Installed(s).keyDir :: Installed(s).keyDir[k].file != s.task.file
  {
    var t := Installed(s);
    forall k | k in t.keyDir ensures t.keyDir[k].file != s.task.file {
      assert EntryOk(s, k, s.keyDir[k]);
      if s.keyDir[k].file == s.task.file {
        RecordBeforeEnd(s.files[s.task.file], s.keyDir[k].offset);
        assert k in s.task.pending;
        assert UpdateOk(s, s.task.file, s.task.todo, k, s.task.pending[k]);
      } else if k in s.task.pending {
        assert UpdateOk(s, s.task.file, s.task.todo, k, s.task.pending[k]);
      }
    }
  }

  /** Every entry after the installation names the same record as before. */
  lemma InstalledEntry(s: Store, k: Bytes)
    requires Inv(s) && AtEnd(s) && k in s.keyDir
    ensures RecordOf(Installed(s), Installed(s).keyDir[k]) == RecordOf(s, s.keyDir[k])
    ensures EntryOk(Installed(s), k, Installed(s).keyDir[k])
  {
    InstalledLeavesNoEntry(s);
    assert k in Installed(s).keyDir;
    assert EntryOk(s, k, s.keyDir[k]);
    if k in s.task.pending {
      assert UpdateOk(s, s.task.file, s.task.todo, k, s.task.pending[k]);
    }
  }

  lemma InstalledKeepsInv(s: Store)
    requires Inv(s) && AtEnd(s)
    ensures Inv(Installed(s))
  {
    var t := Installed(s);
    forall k | k in t.keyDir ensures EntryOk(t, k, t.keyDir[k]) {
      InstalledEntry(s, k);
    }
    forall f | f in t.files ensures FileOk(t, f, t.files[f]) {
      assert FileOk(s, f, s.files[f]);
    }
    forall f | f in s.task.todo ensures Closed(t, f) {
      assert Closed(s, f);
    }
  }

  lemma AbandonedKeepsInv(s: Store)
    requires Inv(s) && Enabled(s, MergeAbandon)
    ensures Inv(Abandoned(s))
  {
    var t := Abandoned(s);
    TaskStepKeepsRest(s, t);
    forall f | f in s.task.todo ensures Closed(t, f) {
      assert Closed(s, f);
    }
  }

  /** Every step of every operation keeps the invariant. */
  lemma NextKeepsInv(s: Store, e: Event)
    requires Inv(s) && Enabled(s, e)
    ensures Inv(Next(s, e))
  {
    match e
    case Put(ts, k, v) => WriteKeepsInv(s, Record(ts, k, v, false));
    case Delete(ts, k) => WriteKeepsInv(s, Record(ts, k, [], true));
    case Get(_) =>
    case MergeBegin(order) => BegunKeepsInv(s, order);
    case MergeOpen => OpenedKeepsInv(s);
    case MergeScan => ScannedKeepsInv(s);
    case MergeCopy => CopiedKeepsInv(s);
    case MergeInstall => InstalledKeepsInv(s);
    case MergeAbandon => AbandonedKeepsInv(s);
    case MergeEnd => TaskStepKeepsRest(s, s.(task := Idle));
  }
}
