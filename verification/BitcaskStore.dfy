/** The store as the program keeps it: files of bytes, an index and counters that its
    operations update in place. Each method is one region run under the lock; `store` is the
    record-level state it stands for, and every method is proved to take it to the state the
    state machine prescribes. */
module BitcaskStore {
  import opened Bytes
  import opened BitcaskModel
  import opened BitcaskLayout
  import opened BitcaskInvariant
  import opened BitcaskRuns
  import Merging = BitcaskMerge
  import opened BitcaskProgress
  import opened BitcaskCodec

  /** The bytes of every data file: the concatenation of its records' encodings. */
  function FileBytes(crc: Checksum, recs: map<FileId, seq<Record>>): map<FileId, Bytes> {
    map f | f in recs :: EncodeAll(crc, recs[f])
  }

  function HintBytes(hints: map<nat, seq<Hint>>): map<nat, Bytes> {
    map n | n in hints :: EncodeHints(hints[n])
  }

  lemma AppendedBytes(crc: Checksum, recs: map<FileId, seq<Record>>, f: FileId, r: Record)
    requires f in recs
    ensures FileBytes(crc, recs[f := recs[f] + [r]])
         == FileBytes(crc, recs)[f := FileBytes(crc, recs)[f] + Encode(crc, r)]
  {
    EncodeAllAppend(crc, recs[f], r);
  }

  lemma NewFileBytes(crc: Checksum, recs: map<FileId, seq<Record>>, f: FileId)
    ensures FileBytes(crc, recs[f := []]) == FileBytes(crc, recs)[f := []]
  {
  }

  lemma RotatedBytes(crc: Checksum, s: Store)
    requires s.currOffset >= MAX_FILE_SIZE
    ensures FileBytes(crc, Rotated(s).files) == FileBytes(crc, s.files)[Data(s.fileCnt + 1) := []]
  {
    NewFileBytes(crc, s.files, Data(s.fileCnt + 1));
  }

  lemma OpenedBytes(crc: Checksum, s: Store)
    ensures FileBytes(crc, Opened(s))
         == if FileBytes(crc, s.files) == map[] then map[Data(s.fileCnt) := []] else FileBytes(crc, s.files)
    ensures FileBytes(crc, s.files) == map[] <==> s.files == map[]
  {
    assert FileBytes(crc, s.files).Keys == s.files.Keys;
  }

  lemma SizeOfFile(crc: Checksum, recs: map<FileId, seq<Record>>, f: FileId)
    requires f in recs
    ensures f in FileBytes(crc, recs) && |FileBytes(crc, recs)[f]| == TotalSize(recs[f])
  {
    EncodeAllSize(crc, recs[f]);
  }

  /** The files after a write, as bytes. */
  /** The open files a write works on: the very first write opens the first one. */
  function Handles(files: map<FileId, Bytes>, active: FileId): map<FileId, Bytes> {
    if files == map[] then map[active := []] else files
  }

  function Extended(files: map<FileId, Bytes>, f: FileId, more: Bytes): map<FileId, Bytes> {
    files[f := (if f in files then files[f] else []) + more]
  }

  /** What a write leaves of files, file number and offset: the entry is at the end of the active
      file, and a file that has reached the limit is followed by a new one. */
  predicate Grown(files: map<FileId, Bytes>, fileCnt: nat, offset: nat, entry: Bytes,
                  files': map<FileId, Bytes>, fileCnt': nat, offset': nat) {
    var grown := Extended(files, Data(fileCnt), entry);
    if offset + |entry| < MAX_FILE_SIZE
    then files' == grown && fileCnt' == fileCnt && offset' == offset + |entry|
    else files' == grown[Data(fileCnt + 1) := []] && fileCnt' == fileCnt + 1 && offset' == 0
  }

  /** A write as bytes: what it appends to, where that ends, and what the files are afterwards. */
  lemma WriteBytes(crc: Checksum, s: Store, r: Record)
    requires ActiveOk(s)
    ensures var active := Data(s.fileCnt); var handles := Handles(FileBytes(crc, s.files), active);
      && (active in handles <==> Accepts(s))
      && (Accepts(s) ==>
            && |handles[active]| == s.currOffset
            && FileBytes(crc, Stored(s, r).files) == handles[active := handles[active] + Encode(crc, r)])
  {
    OpenedBytes(crc, s);
    if Accepts(s) {
      StoredBytes(crc, s, r);
      SizeOfFile(crc, Opened(s), Data(s.fileCnt));
    }
  }

  lemma StoredBytes(crc: Checksum, s: Store, r: Record)
    requires Accepts(s)
    ensures Data(s.fileCnt) in Opened(s)
    ensures FileBytes(crc, Stored(s, r).files)
         == FileBytes(crc, Opened(s))[Data(s.fileCnt) := FileBytes(crc, Opened(s))[Data(s.fileCnt)] + Encode(crc, r)]
  {
    AppendedBytes(crc, Opened(s), Data(s.fileCnt), r);
  }

  lemma EncodingOf(crc: Checksum, timestamp: nat, key: Bytes, value: Bytes, flag: Byte)
    requires flag <= 1
    ensures var body := PutUint32(timestamp) + PutUint32(|key|) + PutUint32(|value|) + [flag] + key + value;
      Encode(crc, Record(timestamp, key, value, flag == 1)) == PutUint32(crc(body)) + body
  {
  }

  /** Reads the record at an offset: the header, then as many bytes as it says, with the
      checksum, the key and the flag checked before the value is given out. */
  function ReadRecord(crc: Checksum, file: Bytes, at: nat, key: Bytes): Reply {
    if !HeaderFits(file, at) then ReadError
    else
      var keySize, valueSize := KeySizeAt(file, at), ValueSizeAt(file, at);
      var end := at + HEADER_SIZE + keySize + valueSize;
      if end > |file| then ReadError
      else
        var buf := file[at..end];
        if Uint32(buf[..4]) != crc(buf[4..]) then Corrupted
        else if buf[HEADER_SIZE..HEADER_SIZE + keySize] != key then KeyMismatch
        else if FlagAt(file, at) == 1 then NotFound
        else Found(buf[HEADER_SIZE + keySize..])
  }

  lemma ReadFinds(crc: Checksum, file: Bytes, at: nat, r: Record, key: Bytes)
    requires Storable(r) && Holds(crc, file, at, r)
    ensures ReadRecord(crc, file, at, key)
         == if r.key != key then KeyMismatch else if r.deleted then NotFound else Found(r.value)
  {
    HeaderRoundTrip(crc, file, at, r);
    PayloadRoundTrip(crc, file, at, r);
  }

  /** What the merge finds at its cursor. */
  datatype Finding =
    | EndOfFile
    | Unreadable
    | Dead(size: nat)
    | Candidate(size: nat, key: Bytes, valueSize: nat)

  /** Reads the header at the cursor and, unless it is a tombstone, the record, whose checksum
      decides whether it is looked at any further. */
  function Peek(crc: Checksum, file: Bytes, at: nat): Finding {
    if !HeaderFits(file, at) then EndOfFile
    else
      var size := BlockSizeAt(file, at);
      var keySize := KeySizeAt(file, at);
      if FlagAt(file, at) != 0 then Dead(size)
      else if at + size > |file| || size < HEADER_SIZE + keySize then Unreadable
      else
        var block := file[at..at + size];
        if Uint32(block[..4]) != crc(block[4..]) then Dead(size)
        else Candidate(size, block[HEADER_SIZE..HEADER_SIZE + keySize], ValueSizeAt(file, at))
  }

  lemma PeekFinds(crc: Checksum, file: Bytes, at: nat, r: Record)
    requires Storable(r) && Holds(crc, file, at, r)
    ensures Peek(crc, file, at) == if r.deleted then Dead(Size(r)) else Candidate(Size(r), r.key, |r.value|)
  {
    HeaderRoundTrip(crc, file, at, r);
    PayloadRoundTrip(crc, file, at, r);
  }

  ghost predicate NoneNames(keyDir: map<Bytes, Entry>, f: FileId) {
    forall k | k in keyDir :: keyDir[k].file != f
  }

  lemma InstalledIsFree(s: Store)
    requires Inv(s) && AtEnd(s)
    ensures Inv(Installed(s)) && NoneNames(Installed(s).keyDir, s.task.file)
    ensures Next(s, MergeInstall) == Installed(s)
  {
    InstalledKeepsInv(s);
    InstalledLeavesNoEntry(s);
  }

  /** The disk under the store: any step of a merge that reads or writes may fail. */
  class Disk {
    ghost var failures: nat

    constructor ()
      ensures failures == 0
    {
      failures := 0;
    }

    method Fails() returns (failed: bool)
      modifies this
      ensures failures == old(failures) + if failed then 1 else 0
    {
      failed := *;
      failures := failures + if failed then 1 else 0;
    }
  }

  class BitCask {
    const crc: Checksum
    const disk: Disk
    var files: map<FileId, Bytes>
    var hintFiles: map<nat, Bytes>
    var keyDir: map<Bytes, Entry>
    var currOffset: nat
    var fileCnt: nat
    var mergeFileCnt: nat
    var task: Task
    ghost var store: Store

    ghost predicate Represents()
      reads this
    {
      && keyDir == store.keyDir && currOffset == store.currOffset
      && fileCnt == store.fileCnt && mergeFileCnt == store.mergeFileCnt && task == store.task
      && files == FileBytes(crc, store.files) && hintFiles == HintBytes(store.hints)
    }

    ghost predicate Valid()
      reads this
    {
      Inv(store) && Represents()
    }

    constructor (crc: Checksum)
      ensures Valid() && store == Init() && this.crc == crc && fresh(disk)
    {
      this.crc := crc;
      disk := new Disk();
      files, hintFiles, keyDir := map[], map[], map[];
      currOffset, fileCnt, mergeFileCnt, task := 0, 1, 1, Idle;
      store := Init();
    }

    /** Lays out a record: checksum, timestamp, sizes, flag, key and value. */
    method EncodeEntry(timestamp: nat, key: Bytes, value: Bytes, flag: Byte) returns (buf: Bytes)
      requires flag <= 1
      ensures buf == Encode(crc, Record(timestamp, key, value, flag == 1))
    {
      var body := PutUint32(timestamp) + PutUint32(|key|) + PutUint32(|value|) + [flag] + key + value;
      buf := PutUint32(crc(body)) + body;
      EncodingOf(crc, timestamp, key, value, flag);
    }

    /** Appends one record to the active file and brings the index up to date. A handle that
        is not open refuses the write. */
    method WriteRecord(timestamp: nat, key: Bytes, value: Bytes, flag: Byte) returns (ok: bool)
      requires Represents() && ActiveOk(store) && flag <= 1 && |value| < UINT32_RANGE
      modifies this
      ensures Represents()
      ensures ok == Accepts(old(store))
      ensures store == if ok then Stored(old(store), Record(timestamp, key, value, flag == 1)) else old(store)
      ensures fileCnt == old(fileCnt) && mergeFileCnt == old(mergeFileCnt)
      ensures ok ==> var entry := Encode(crc, Record(timestamp, key, value, flag == 1));
        files == Extended(old(files), Data(fileCnt), entry) && currOffset == old(currOffset) + |entry|
      ensures ok ==>
        keyDir == if flag == 0 then old(keyDir)[key := Entry(Data(fileCnt), old(currOffset), |value|)]
                  else old(keyDir) - {key}
    {
      ghost var s := store;
      ghost var r := Record(timestamp, key, value, flag == 1);
      var entrySize := HEADER_SIZE + |key| + |value|;
      var valueSize := AsUint32(|value|);
      assert valueSize == |value|;
      var buf := EncodeEntry(timestamp, key, value, flag);
      WriteBytes(crc, s, r);

      var active := Data(fileCnt);
      var handles := Handles(files, active);
      if active !in handles {
        return false;
      }
      var written := WriteAt(handles[active], currOffset, buf);
      assert written == handles[active] + Encode(crc, r);
      files := handles[active := written];
      if flag == 0 {
        keyDir := keyDir[key := Entry(active, currOffset, valueSize)];
        assert keyDir == Stored(s, r).keyDir;
      } else {
        keyDir := keyDir - {key};
        assert keyDir == Stored(s, r).keyDir;
      }
      currOffset := currOffset + entrySize;
      store := Stored(s, r);
      return true;
    }

    /** Opens a new active file once the current one has reached the limit. */
    method RotateIfFull()
      requires Represents()
      modifies this
      ensures Represents() && store == Rotated(old(store))
      ensures keyDir == old(keyDir) && mergeFileCnt == old(mergeFileCnt)
      ensures old(currOffset) < MAX_FILE_SIZE ==>
        files == old(files) && fileCnt == old(fileCnt) && currOffset == old(currOffset)
      ensures old(currOffset) >= MAX_FILE_SIZE ==>
        files == old(files)[Data(fileCnt) := []] && fileCnt == old(fileCnt) + 1 && currOffset == 0
    {
      if currOffset >= MAX_FILE_SIZE {
        OpenNextActive();
      }
    }

    method OpenNextActive()
      requires Represents() && currOffset >= MAX_FILE_SIZE
      modifies this
      ensures Represents() && store == Rotated(old(store))
      ensures keyDir == old(keyDir) && mergeFileCnt == old(mergeFileCnt)
      ensures files == old(files)[Data(fileCnt) := []] && fileCnt == old(fileCnt) + 1 && currOffset == 0
    {
      RotatedBytes(crc, store);
      store := Rotated(store);
      files := files[Data(fileCnt + 1) := []];
      assert files == FileBytes(crc, store.files);
      fileCnt := fileCnt + 1;
      currOffset := 0;
    }

    method Append(timestamp: nat, key: Bytes, value: Bytes, flag: Byte) returns (ok: bool)
      requires Valid() && flag <= 1 && Storable(Record(timestamp, key, value, flag == 1))
      modifies this
      ensures Valid() && ok == Accepts(old(store))
      ensures store == Write(old(store), Record(timestamp, key, value, flag == 1))
      ensures ok ==> Grown(old(files), old(fileCnt), old(currOffset), Encode(crc, Record(timestamp, key, value, flag == 1)),
                           files, fileCnt, currOffset)
      ensures ok ==>
        keyDir == if flag == 0 then old(keyDir)[key := Entry(Data(old(fileCnt)), old(currOffset), |value|)]
                  else old(keyDir) - {key}
      ensures !ok ==> files == old(files) && keyDir == old(keyDir) && currOffset == old(currOffset)
    {
      WriteKeepsInv(store, Record(timestamp, key, value, flag == 1));
      ok := WriteAndRotate(timestamp, key, value, flag);
    }

    method WriteAndRotate(timestamp: nat, key: Bytes, value: Bytes, flag: Byte) returns (ok: bool)
      requires Represents() && ActiveOk(store) && flag <= 1 && |value| < UINT32_RANGE
      modifies this
      ensures Represents() && ok == Accepts(old(store))
      ensures store == Write(old(store), Record(timestamp, key, value, flag == 1))
      ensures ok ==> Grown(old(files), old(fileCnt), old(currOffset), Encode(crc, Record(timestamp, key, value, flag == 1)),
                           files, fileCnt, currOffset)
      ensures ok ==>
        keyDir == if flag == 0 then old(keyDir)[key := Entry(Data(old(fileCnt)), old(currOffset), |value|)]
                  else old(keyDir) - {key}
      ensures !ok ==> files == old(files) && keyDir == old(keyDir) && currOffset == old(currOffset)
    {
      ok := WriteRecord(timestamp, key, value, flag);
      if ok {
        RotateIfFull();
      }
    }

    method Put(timestamp: nat, key: Bytes, value: Bytes) returns (ok: bool)
      requires Valid() && Storable(Record(timestamp, key, value, false))
      modifies this
      ensures Valid() && store == Next(old(store), Event.Put(timestamp, key, value))
      ensures ok == Accepts(old(store))
      ensures Contents(store) == if ok then old(Contents(store))[key := value] else old(Contents(store))
      ensures ok ==> Grown(old(files), old(fileCnt), old(currOffset), Encode(crc, Record(timestamp, key, value, false)),
                           files, fileCnt, currOffset)
      ensures ok ==> keyDir == old(keyDir)[key := Entry(Data(old(fileCnt)), old(currOffset), |value|)]
    {
      StepRefines(store, Event.Put(timestamp, key, value));
      ok := Append(timestamp, key, value, 0);
    }

    method Delete(timestamp: nat, key: Bytes) returns (ok: bool)
      requires Valid() && Storable(Record(timestamp, key, [], true))
      modifies this
      ensures Valid() && store == Next(old(store), Event.Delete(timestamp, key))
      ensures ok == Accepts(old(store))
      ensures Contents(store) == if ok then old(Contents(store)) - {key} else old(Contents(store))
      ensures ok ==> Grown(old(files), old(fileCnt), old(currOffset), Encode(crc, Record(timestamp, key, [], true)),
                           files, fileCnt, currOffset)
      ensures ok ==> keyDir == old(keyDir) - {key}
    {
      StepRefines(store, Event.Delete(timestamp, key));
      ok := Append(timestamp, key, [], 1);
    }

    /** Looks a key up through the index, reads the record it names, and checks the checksum,
        the key and the flag before answering. None of the checks ever fails. */
    method Get(key: Bytes) returns (reply: Reply)
      requires Valid()
      ensures reply == if key in Contents(store) then Found(Contents(store)[key]) else NotFound
    {
      StepRefines(store, Event.Get(key));
      if key !in keyDir {
        return NotFound;
      }
      var entry := keyDir[key];
      assert EntryOk(store, key, entry);
      RecordIsStored(entry);
      ReadFinds(crc, files[entry.file], entry.offset, RecordOf(store, entry).value, key);
      return ReadRecord(crc, files[entry.file], entry.offset, key);
    }

    /** What an index entry points at, in bytes. */
    lemma RecordIsStored(e: Entry)
      requires Valid() && RecordOf(store, e).Some?
      ensures e.file in files && Holds(crc, files[e.file], e.offset, RecordOf(store, e).value)
      ensures Storable(RecordOf(store, e).value)
    {
      RecordIsHeld(crc, store.files[e.file], e.offset);
      FoundIsMember(store.files[e.file], e.offset);
      assert FileOk(store, e.file, store.files[e.file]);
    }

    /** Opens a merge segment, creating its data and hint files when they are not there. */
    method OpenSegment(id: nat) returns (segment: Segment)
      requires Represents()
      modifies this
      ensures Represents() && store == WithSegment(old(store), id)
      ensures FileId.Merge(id) in store.files && id in store.hints && segment == SegmentOf(store, id)
      ensures mergeFileCnt == old(mergeFileCnt) && segment.id == id
      ensures segment.dataOffset == if FileId.Merge(id) in old(files) then |old(files)[FileId.Merge(id)]| else 0
    {
      OpenedSegmentBytes(crc, store, id);
      store := WithSegment(store, id);
      if FileId.Merge(id) !in files {
        files := files[FileId.Merge(id) := []];
      }
      if id !in hintFiles {
        hintFiles := hintFiles[id := []];
      }
      SegmentSizes(crc, store, id);
      segment := Segment(id, |files[FileId.Merge(id)]|, |hintFiles[id]|);
    }

    /** Every open file but the active one and the current segment, in no particular order. */
    method ImmutableFiles() returns (order: seq<FileId>)
      requires Represents()
      ensures Snapshot(store, order)
    {
      var candidates := files.Keys - {Data(fileCnt), FileId.Merge(mergeFileCnt)};
      assert files.Keys == store.files.Keys;
      order := ListFiles(candidates);
    }

    method BeginMerge() returns (order: seq<FileId>)
      requires Valid() && task.Idle?
      modifies this
      ensures Valid() && Snapshot(old(store), order) && store == Next(old(store), MergeBegin(order))
      ensures mergeFileCnt == old(mergeFileCnt) && task.Picking? && task.todo == order && task.segment.id == mergeFileCnt
      ensures var f := FileId.Merge(mergeFileCnt);
        task.segment.dataOffset == if f in old(files) then |old(files)[f]| else 0
    {
      order := ImmutableFiles();
      BegunKeepsInv(store, order);
      OpenFirstSegment(order);
    }

    method OpenFirstSegment(order: seq<FileId>)
      requires Represents()
      modifies this
      ensures Represents() && store == Begun(old(store), order)
      ensures mergeFileCnt == old(mergeFileCnt) && task.Picking? && task.todo == order && task.segment.id == mergeFileCnt
      ensures var f := FileId.Merge(mergeFileCnt);
        task.segment.dataOffset == if f in old(files) then |old(files)[f]| else 0
    {
      ghost var s := store;
      var segment := OpenSegment(mergeFileCnt);
      task := Picking(order, segment);
      store := Begun(s, order);
    }

    /** Takes the next file of the snapshot, if it is still open. */
    method TakeFile()
      requires Represents() && task.Picking? && task.todo != []
      modifies this
      ensures Represents() && store == FileOpened(old(store))
    {
      var file, rest := task.todo[0], task.todo[1..];
      store := FileOpened(store);
      task := if file in files then Scanning(rest, task.segment, file, 0, map[]) else Picking(rest, task.segment);
    }

    method OpenNext()
      requires Valid() && task.Picking? && task.todo != []
      modifies this
      ensures Valid() && store == Next(old(store), MergeOpen) && task.Scanning?
    {
      OpenedKeepsInv(store);
      TakeFile();
    }

    /** The bytes at the cursor show what the record there is. */
    ghost predicate CursorShows()
      requires task.Scanning?
      reads this
    {
      && task.file in files && task.file in store.files && task == store.task
      && (AtEnd(store) <==> !AtRecord(store))
      && Peek(crc, files[task.file], task.cursor)
           == if AtEnd(store) then EndOfFile
              else if Current(store).deleted then Dead(Size(Current(store)))
              else Candidate(Size(Current(store)), Current(store).key, |Current(store).value|)
    }

    lemma CursorShowsRecord()
      requires Valid() && task.Scanning?
      ensures CursorShows()
    {
      assert Closed(store, task.file);
      SizeOfFile(crc, store.files, task.file);
      if AtRecord(store) {
        RecordBeforeEnd(store.files[task.file], task.cursor);
        RecordIsStored(Entry(task.file, task.cursor, 0));
        PeekFinds(crc, files[task.file], task.cursor, Current(store));
      }
    }

    /** Reads the record at the cursor and looks its key up. A record the index names is left
        to be copied; any other is passed. */
    method Look() returns (found: Finding)
      requires Represents() && task.Scanning? && CursorShows()
      modifies this
      ensures Represents() && !found.Unreadable?
      ensures found.EndOfFile? <==> AtEnd(old(store))
      ensures found.EndOfFile? ==> store == old(store)
      ensures !found.EndOfFile? ==> AtRecord(old(store)) && store == Scanned(old(store))
    {
      found := Peek(crc, files[task.file], task.cursor);
      if found.EndOfFile? || found.Unreadable? {
        return;
      }
      store := Scanned(store);
      var t := task;
      if found.Candidate? && found.key in keyDir
         && keyDir[found.key] == Entry(t.file, t.cursor, found.valueSize) {
        task := Copying(t.todo, t.segment, t.file, t.cursor, t.pending);
      } else {
        task := Scanning(t.todo, t.segment, t.file, t.cursor + found.size, t.pending);
      }
    }

    method ScanNext() returns (found: Finding)
      requires Valid() && task.Scanning?
      modifies this
      ensures Valid() && !found.Unreadable?
      ensures found.EndOfFile? <==> AtEnd(old(store))
      ensures found.EndOfFile? ==> store == old(store)
      ensures !found.EndOfFile? ==> AtRecord(old(store)) && store == Next(old(store), MergeScan)
    {
      CursorShowsRecord();
      if AtRecord(store) {
        ScannedKeepsInv(store);
      }
      found := Look();
    }

    // ---------- Copying ----------

    /** Makes room for `size` more bytes in the current segment, or goes on to a new one. */
    method EnsureCapacity(size: nat)
      requires Represents() && task.Copying?
      modifies this
      ensures Represents() && store == WithCapacity(old(store), size)
      ensures old(task.segment.dataOffset) + size <= MAX_FILE_SIZE ==>
        task == old(task) && mergeFileCnt == old(mergeFileCnt) && files == old(files)
      ensures old(task.segment.dataOffset) + size > MAX_FILE_SIZE ==>
        mergeFileCnt == old(mergeFileCnt) + 1 && task.Copying? && task.segment.id == mergeFileCnt
    {
      if task.segment.dataOffset + size <= MAX_FILE_SIZE {
        return;
      }
      ghost var s := store;
      mergeFileCnt := mergeFileCnt + 1;
      store := s.(mergeFileCnt := s.mergeFileCnt + 1);
      var t := task;
      var segment := OpenSegment(mergeFileCnt);
      task := Copying(t.todo, segment, t.file, t.cursor, t.pending);
      store := WithCapacity(s, size);
    }

    /** Writes a record and its hint at the ends of the segment's two files and remembers the
        copy for the installation. */
    method AppendEntry(block: Bytes, key: Bytes, valueSize: nat, ghost r: Record)
      requires Represents() && task.Copying? && CurrentSegmentOk(store, task.segment)
      requires block == Encode(crc, r) && key == r.key && valueSize == |r.value|
      modifies this
      ensures Represents() && store == Appended(old(store), r)
    {
      ghost var s := store;
      var t, segment := task, task.segment;
      CopyBytes(crc, s, segment, r);

      var data := WriteAt(files[FileId.Merge(segment.id)], segment.dataOffset, block);
      var hint := PutUint32(|key|) + PutUint32(valueSize) + PutUint64(segment.dataOffset) + key;
      var hints := WriteAt(hintFiles[segment.id], segment.hintOffset, hint);
      assert hint == EncodeHint(Hint(key, valueSize, segment.dataOffset));
      files := files[FileId.Merge(segment.id) := data];
      hintFiles := hintFiles[segment.id := hints];

      var copy := Entry(FileId.Merge(segment.id), segment.dataOffset, valueSize);
      var original := Entry(t.file, t.cursor, valueSize);
      var segment' := Segment(segment.id, segment.dataOffset + |block|, segment.hintOffset + |hint|);
      task := Scanning(t.todo, segment', t.file, t.cursor + |block|, t.pending[key := Update(original, copy)]);
      store := Appended(s, r);
    }

    method CopyRecord()
      requires Valid() && task.Copying?
      modifies this
      ensures Valid() && old(Enabled(store, MergeCopy)) && store == Next(old(store), MergeCopy)
    {
      ghost var s := store;
      ghost var r := Current(s);
      CopiedKeepsInv(s);
      CapacityKeepsInv(s, Size(r));
      RecordIsStored(Entry(task.file, task.cursor, 0));
      var block, key, valueSize := ReadBlock(crc, files[task.file], task.cursor, r);
      EnsureCapacity(|block|);
      AppendEntry(block, key, valueSize, r);
    }

    // ---------- Installing ----------

    /** Installs the pending copies whose keys still hold the original, one by one in no
        particular order. */
    method InstallPending(pending: map<Bytes, Update>)
      modifies this`keyDir
      ensures keyDir == Redirected(old(keyDir), pending)
    {
      var rest := pending.Keys;
      while rest != {}
        invariant rest <= pending.Keys && keyDir.Keys == old(keyDir.Keys)
        invariant forall k | k in keyDir ::
          keyDir[k] == if k in pending && k !in rest && old(keyDir[k]) == pending[k].original
                       then pending[k].copy else old(keyDir[k])
      {
        var key :| key in rest;
        var update := pending[key];
        if key in keyDir && keyDir[key] == update.original {
          keyDir := keyDir[key := update.copy];
        }
        rest := rest - {key};
      }
    }

    /** Takes the lock to install the copies and remove the file, and its hint file if it was
        a merge segment. */
    method InstallAndRemove()
      requires Represents() && AtEnd(store)
      modifies this
      ensures Represents() && store == Installed(old(store)) && old(task.file) !in files
    {
      ghost var s := store;
      RemovedBytes(crc, s, task.file);
      var t := task;
      InstallPending(t.pending);
      files := files - {t.file};
      if t.file.Merge? {
        hintFiles := hintFiles - {t.file.n};
      }
      task := Picking(t.todo, t.segment);
      store := Installed(s);
    }

    method FinishFile()
      requires Valid() && AtEnd(store)
      modifies this
      ensures Valid() && store == Next(old(store), MergeInstall)
      ensures old(task.file) !in files && NoneNames(keyDir, old(task.file))
    {
      ghost var s := store;
      InstalledIsFree(s);
      InstallAndRemove();
      assert store == Next(s, MergeInstall);
    }

    /** Gives a file up after a read failed: nothing is installed and nothing removed. */
    method AbandonFile()
      requires Valid() && (task.Scanning? || task.Copying?)
      modifies this
      ensures Valid() && store == Next(old(store), MergeAbandon)
    {
      AbandonedKeepsInv(store);
      task := Picking(task.todo, task.segment);
      store := Abandoned(store);
    }

    method EndMerge()
      requires Valid() && task.Picking? && task.todo == []
      modifies this
      ensures Valid() && store == Next(old(store), MergeEnd)
    {
      NextKeepsInv(store, MergeEnd);
      task := Idle;
      store := store.(task := Idle);
    }

    // ---------- A whole merge ----------

    /** Any number of client operations. The merge learns no more than that. */
    method ClientsRun() returns (ghost es: seq<Event>)
      requires Valid()
      modifies this
      ensures Valid() && Leads(old(store), es, store) && AllByClients(es)
    {
      es := [];
      Stays(store);
    }

    /** Copies the record under the cursor, or gives the file up if the disk fails. */
    method CopyLive() returns (failed: bool, ghost es: seq<Event>)
      requires Valid() && task.Copying?
      modifies this, disk
      ensures if failed then task.Picking? else task.Scanning?
      ensures Valid() && task.todo == old(task.todo)
      ensures Leads(old(store), es, store) && Work(store) < old(Work(store))
      ensures GivesUp(es, disk.failures - old(disk.failures))
    {
      ghost var s := store;
      ghost var cs := ClientsRun();
      ClientsKeepMerge(s, cs, store);
      ghost var t := store;
      failed := disk.Fails();
      if failed {
        MergeTakesWork(store, MergeAbandon);
        AbandonFile();
        es := ClientsThen(s, cs, t, MergeAbandon);
      } else {
        CopyRecord();
        MergeTakesWork(t, MergeCopy);
        Merging.CopyProgresses(t);
        es := ClientsThen(s, cs, t, MergeCopy);
      }
    }

    method CopyIfFound(ghost s: Store, ghost es0: seq<Event>) returns (failed: bool, ghost es: seq<Event>)
      requires Valid() && (task.Scanning? || task.Copying?)
      requires Leads(s, es0, store) && GivesUp(es0, 0)
      modifies this, disk
      ensures if failed then task.Picking? else task.Scanning?
      ensures Valid() && task.todo == old(task.todo)
      ensures Leads(s, es, store) && Work(store) <= old(Work(store))
      ensures GivesUp(es, disk.failures - old(disk.failures))
    {
      if task.Scanning? {
        return false, es0;
      }
      ghost var u, es' := store, [];
      failed, es' := CopyLive();
      es := Joined(s, es0, u, es', store);
    }

    /** Looks at the record under the cursor and copies it if it is live. */
    method ScanOne() returns (seen: Seen, ghost es: seq<Event>)
      requires Valid() && task.Scanning?
      modifies this, disk
      ensures if seen.GaveUp? then task.Picking? else task.Scanning?
      ensures Valid() && Leads(old(store), es, store) && task.todo == old(task.todo)
      ensures GivesUp(es, disk.failures - old(disk.failures))
      ensures seen.Passed? ==> Work(store) < old(Work(store))
      ensures seen.Ended? ==> AtEnd(store)
    {
      ghost var s := store;
      ghost var cs := ClientsRun();
      ClientsKeepMerge(s, cs, store);
      ghost var t := store;
      var failed := disk.Fails();
      if failed {
        AbandonFile();
        es := ClientsThen(s, cs, t, MergeAbandon);
        return GaveUp, es;
      }
      seen, es := ScanReadable(s, cs);
    }

    method ScanReadable(ghost s: Store, ghost cs: seq<Event>) returns (seen: Seen, ghost es: seq<Event>)
      requires Valid() && task.Scanning? && Leads(s, cs, store) && AllByClients(cs)
      modifies this, disk
      ensures if seen.GaveUp? then task.Picking? else task.Scanning?
      ensures Valid() && Leads(s, es, store) && task.todo == old(task.todo)
      ensures GivesUp(es, disk.failures - old(disk.failures))
      ensures seen.Passed? ==> Work(store) < old(Work(store))
      ensures seen.Ended? ==> AtEnd(store)
    {
      ghost var t := store;
      var found := ScanNext();
      if found.EndOfFile? {
        ClientsAreNoMerge(cs);
        return Ended, cs;
      }
      Merging.ScanProgresses(t);
      MergeTakesWork(t, MergeScan);
      es := ClientsThen(s, cs, t, MergeScan);
      var failed;
      failed, es := CopyIfFound(s, es);
      return if failed then GaveUp else Passed, es;
    }

    /** Installs the copies and removes the file, or gives it up. */
    method Close() returns (ghost es: seq<Event>)
      requires Valid() && AtEnd(store)
      modifies this, disk
      ensures Valid() && Leads(old(store), es, store) && GivesUp(es, disk.failures - old(disk.failures))
      ensures task.Picking? && task.todo == old(task.todo)
    {
      ghost var s := store;
      ghost var cs := ClientsRun();
      ClientsKeepMerge(s, cs, store);
      ghost var t := store;
      var failed := disk.Fails();
      if failed {
        AbandonFile();
        es := ClientsThen(s, cs, t, MergeAbandon);
      } else {
        FinishFile();
        es := ClientsThen(s, cs, t, MergeInstall);
      }
    }

    /** Scans one file to its end, copies its live records and removes it; or gives it up, once for
        each time the disk fails. */
    method MergeFile() returns (ghost es: seq<Event>)
      requires Valid() && task.Picking? && task.todo != []
      modifies this, disk
      ensures Valid() && task.Picking? && task.todo == old(task.todo[1..])
      ensures Leads(old(store), es, store) && GivesUp(es, disk.failures - old(disk.failures))
    {
      ghost var s := store;
      ghost var cs := ClientsRun();
      ClientsKeepMerge(s, cs, store);
      ghost var t, u := store, store;
      ghost var es' := cs;
      OpenNext();
      es := ClientsThen(s, cs, t, MergeOpen);
      while true
        invariant Valid() && task.Scanning? && task.todo == old(task.todo[1..])
        invariant Leads(s, es, store) && GivesUp(es, disk.failures - old(disk.failures))
        decreases Work(store)
      {
        u := store;
        var seen;
        seen, es' := ScanOne();
        es := Joined(s, es, u, es', store);
        if seen.GaveUp? {
          return;
        }
        if seen.Ended? {
          break;
        }
      }
      u := store;
      es' := Close();
      es := Joined(s, es, u, es', store);
    }

    /** A merge with any number of client operations between its steps. It comes to an end, and
        what it did, `es` after its beginning, is a run of the state machine; so what can be
        read back is what the client operations among `es` make of it, and the segments have grown
        by no more than the bytes of the records the index named when it began. A file is given up
        only when the disk fails, and of the files that were open when the merge began, the active
        one and the current segment aside, only those stay: none if nothing failed, whatever the
        clients did. If nothing failed and no client wrote, what can be read back is unchanged and
        the segments have grown by exactly the bytes of the records the index named in those
        files. */
    method Merge() returns (order: seq<FileId>, ghost es: seq<Event>, ghost lost: set<FileId>)
      requires Valid() && task.Idle?
      modifies this, disk
      ensures Valid() && task.Idle? && Snapshot(old(store), order) && OneMerge(es)
      ensures Leads(old(store), [MergeBegin(order)] + es, store)
      ensures Contents(store) == PlainAfter(Abstract(old(store)), [MergeBegin(order)] + es).contents
      ensures Merging.Produced(store, old(mergeFileCnt))
           <= Merging.FileSize(old(store), FileId.Merge(old(mergeFileCnt))) + Merging.LiveBytesOf(old(store), order)
      ensures Merging.Abandons(es) == disk.failures - old(disk.failures)
      ensures |lost| <= disk.failures - old(disk.failures) && forall f | f in order && f !in lost :: f !in files
      ensures disk.failures == old(disk.failures) && Unwritten(es) ==> Contents(store) == old(Contents(store))
      ensures disk.failures == old(disk.failures) && Unwritten(es) ==> (
        Merging.Produced(store, old(mergeFileCnt))
          == Merging.FileSize(old(store), FileId.Merge(old(mergeFileCnt))) + Merging.LiveBytesOf(old(store), order))
    {
      ghost var s0 := store;
      order := BeginMerge();
      ghost var s := store;
      StepLeads(s0, MergeBegin(order));
      Stays(s);
      es := [];
      while task.todo != []
        invariant Valid() && task.Picking? && Leads(s, es, store)
        invariant GivesUp(es, disk.failures - old(disk.failures))
        decreases |task.todo|
      {
        ghost var u := store;
        ghost var es' := MergeFile();
        es := Joined(s, es, u, es', store);
      }
      es := LastStep(s, es);
      LeadsOn(s0, [MergeBegin(order)], s, es, store);
      MergeResult(s0, order, es, store);
      lost := Merging.GivenUp(s, es);
      if Merging.Abandons(es) == 0 && Unwritten(es) {
        UnwrittenIsQuiet(es);
      }
    }

    method LastStep(ghost s: Store, ghost es0: seq<Event>) returns (ghost es: seq<Event>)
      requires Valid() && task.Picking? && task.todo == [] && Leads(s, es0, store) && OneMerge(es0)
      modifies this
      ensures Valid() && task.Idle? && Leads(s, es, store) && GivesUp(es, Merging.Abandons(es0))
    {
      ghost var t := store;
      ghost var cs := ClientsRun();
      ClientsKeepMerge(t, cs, store);
      ghost var u := store;
      EndMerge();
      es := ClientsThen(t, cs, u, MergeEnd);
      es := Joined(s, es0, t, es, store);
    }
  }

  /** How looking at a record ended: it was passed or copied, there was none, or the disk
      failed. */
  datatype Seen = Passed | Ended | GaveUp

  /** Nothing among the steps of a merge but the merge's own, and none that gives a file up. */
  predicate Quiet(es: seq<Event>) {
    forall e | e in es :: Merging.MergeStep(e)
  }

  /** No other merge begins, and `n` files are given up. */
  predicate GivesUp(es: seq<Event>, n: int) {
    OneMerge(es) && Merging.Abandons(es) == n
  }

  /** No client writes. */
  predicate Unwritten(es: seq<Event>) {
    forall e | e in es :: !e.Put? && !e.Delete?
  }

  lemma {:induction false} UnwrittenIsQuiet(es: seq<Event>)
    requires GivesUp(es, 0) && Unwritten(es)
    ensures Quiet(es)
  {
    if es != [] {
      assert es[0] in es && OneMerge(es[1..]) && Unwritten(es[1..]);
      UnwrittenIsQuiet(es[1..]);
    }
  }

  lemma {:induction false} ClientsAreNoMerge(cs: seq<Event>)
    requires AllByClients(cs)
    ensures GivesUp(cs, 0)
  {
    if cs != [] {
      assert cs[0] in cs && AllByClients(cs[1..]);
      ClientsAreNoMerge(cs[1..]);
    }
  }

  lemma ClientsThen(s: Store, cs: seq<Event>, t: Store, e: Event) returns (es: seq<Event>)
    requires Leads(s, cs, t) && AllByClients(cs) && Enabled(t, e) && !e.MergeBegin?
    ensures Leads(s, es, Next(t, e)) && GivesUp(es, if e.MergeAbandon? then 1 else 0)
  {
    es := cs + [e];
    ClientsAreNoMerge(cs);
    Merging.AbandonsAdd(cs, [e]);
    assert [e][1..] == [];
    StepLeads(t, e);
    LeadsOn(s, cs, t, [e], Next(t, e));
  }

  lemma Joined(s: Store, es: seq<Event>, t: Store, es': seq<Event>, u: Store) returns (all: seq<Event>)
    requires Leads(s, es, t) && Leads(t, es', u) && OneMerge(es) && OneMerge(es')
    ensures all == es + es' && Leads(s, all, u)
    ensures GivesUp(all, Merging.Abandons(es) + Merging.Abandons(es'))
  {
    all := es + es';
    Merging.AbandonsAdd(es, es');
    LeadsOn(s, es, t, es', u);
  }

  lemma {:induction false} QuietChangesNothing(m: Plain, es: seq<Event>)
    requires Quiet(es)
    ensures PlainAfter(m, es).contents == m.contents
    decreases es
  {
    if es != [] {
      assert es[0] in es;
      QuietChangesNothing(PlainNext(m, es[0]), es[1..]);
    }
  }

  /** What a finished merge has done. */
  lemma MergeResult(s: Store, order: seq<FileId>, es: seq<Event>, t: Store)
    requires Inv(s) && Enabled(s, MergeBegin(order)) && t.task.Idle?
    requires Leads(s, [MergeBegin(order)] + es, t) && Leads(Begun(s, order), es, t) && OneMerge(es)
    ensures Contents(t) == PlainAfter(Abstract(s), [MergeBegin(order)] + es).contents
    ensures Merging.Produced(t, s.mergeFileCnt)
         <= Merging.FileSize(s, FileId.Merge(s.mergeFileCnt)) + Merging.LiveBytesOf(s, order)
    ensures forall f | f in order && f in t.files :: f in Merging.GivenUp(Begun(s, order), es)
    ensures Quiet(es) ==> Contents(t) == Contents(s)
    ensures Quiet(es) ==> (
      Merging.Produced(t, s.mergeFileCnt)
        == Merging.FileSize(s, FileId.Merge(s.mergeFileCnt)) + Merging.LiveBytesOf(s, order))
  {
    RunRefines(s, [MergeBegin(order)] + es);
    Merging.MergeAddsAtMostLiveBytes(s, order, es);
    Merging.OnlyGivenUpStay(s, order, es);
    if Quiet(es) {
      assert ([MergeBegin(order)] + es)[1..] == es;
      QuietChangesNothing(PlainNext(Abstract(s), MergeBegin(order)), es);
      Merging.MergeAddsLiveBytes(s, order, es);
    }
  }

  lemma AppendedHintBytes(hints: map<nat, seq<Hint>>, n: nat, h: Hint)
    requires n in hints
    ensures HintBytes(hints[n := hints[n] + [h]]) == HintBytes(hints)[n := HintBytes(hints)[n] + EncodeHint(h)]
  {
    EncodeHintsAppend(hints[n], h);
  }

  /** Copying a record as bytes: where the segment's two files end and what they become. */
  lemma CopyBytes(crc: Checksum, s: Store, segment: Segment, r: Record)
    requires s.task.Copying? && segment == s.task.segment && CurrentSegmentOk(s, segment)
    ensures var (files, f) := (FileBytes(crc, s.files), FileId.Merge(segment.id));
      && f in files && |files[f]| == segment.dataOffset && |Encode(crc, r)| == Size(r)
      && FileBytes(crc, Appended(s, r).files) == files[f := files[f] + Encode(crc, r)]
    ensures var (hints, hint) := (HintBytes(s.hints), Hint(r.key, |r.value|, segment.dataOffset));
      && segment.id in hints && |hints[segment.id]| == segment.hintOffset
      && HintBytes(Appended(s, r).hints) == hints[segment.id := hints[segment.id] + EncodeHint(hint)]
  {
    AppendedBytes(crc, s.files, FileId.Merge(segment.id), r);
    AppendedHintBytes(s.hints, segment.id, Hint(r.key, |r.value|, segment.dataOffset));
    SegmentSizes(crc, s, segment.id);
    EncodeSize(crc, r);
  }

  lemma RemovedBytes(crc: Checksum, s: Store, f: FileId)
    ensures FileBytes(crc, s.files - {f}) == FileBytes(crc, s.files) - {f}
    ensures f.Merge? ==> HintBytes(s.hints - {f.n}) == HintBytes(s.hints) - {f.n}
  {
  }

  lemma OpenedSegmentBytes(crc: Checksum, s: Store, id: nat)
    ensures FileBytes(crc, WithSegment(s, id).files)
         == if FileId.Merge(id) in s.files then FileBytes(crc, s.files) else FileBytes(crc, s.files)[FileId.Merge(id) := []]
    ensures HintBytes(WithSegment(s, id).hints)
         == if id in s.hints then HintBytes(s.hints) else HintBytes(s.hints)[id := []]
  {
    NewFileBytes(crc, s.files, FileId.Merge(id));
  }

  lemma SegmentSizes(crc: Checksum, s: Store, id: nat)
    requires FileId.Merge(id) in s.files && id in s.hints
    ensures SegmentOf(s, id) == Segment(id, |FileBytes(crc, s.files)[FileId.Merge(id)]|, |HintBytes(s.hints)[id]|)
  {
    EncodeAllSize(crc, s.files[FileId.Merge(id)]);
    EncodeHintsSize(s.hints[id]);
  }

  /** The bytes, key and value size of the record at an offset. */
  method ReadBlock(crc: Checksum, file: Bytes, at: nat, ghost r: Record)
    returns (block: Bytes, key: Bytes, valueSize: nat)
    requires Storable(r) && Holds(crc, file, at, r)
    ensures block == Encode(crc, r) && |block| == Size(r) && key == r.key && valueSize == |r.value|
  {
    HeaderRoundTrip(crc, file, at, r);
    PayloadRoundTrip(crc, file, at, r);
    block := file[at..at + BlockSizeAt(file, at)];
    key := block[HEADER_SIZE..HEADER_SIZE + KeySizeAt(file, at)];
    valueSize := ValueSizeAt(file, at);
  }

  /** The files of a set, each once, in whatever order they come out. */
  method ListFiles(files: set<FileId>) returns (order: seq<FileId>)
    ensures Distinct(order) && forall f :: f in order <==> f in files
  {
    var rest := files;
    order := [];
    while rest != {}
      invariant rest <= files && Distinct(order)
      invariant forall f :: f in order <==> f in files - rest
    {
      var f :| f in rest;
      assert f !in order;
      rest := rest - {f};
      order := order + [f];
      assert order[|order| - 1] == f;
    }
  }
}
