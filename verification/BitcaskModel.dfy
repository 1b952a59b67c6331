/** The log-structured store as a state machine. Every region the program runs under its
    lock is one step, and the merge carries its local variables in `Task`, so that client
    operations may run between any two of its steps. Files are sequences of records here;
    BitcaskStore.dfy keeps them as bytes. */
module BitcaskModel {
  import opened Bytes
  import opened Wrappers

  const HEADER_SIZE := 17
  const MAX_FILE_SIZE := 65536

  datatype FileId = Data(n: nat) | Merge(n: nat)

  datatype Record = Record(timestamp: nat, key: Bytes, value: Bytes, deleted: bool)

  /** Where the index says a key's record starts, and how long its value is. */
  datatype Entry = Entry(file: FileId, offset: nat, valueSize: nat)

  datatype Hint = Hint(key: Bytes, valueSize: nat, offset: nat)

  /** A copy the merge has made and not yet installed. */
  datatype Update = Update(original: Entry, copy: Entry)

  datatype Segment = Segment(id: nat, dataOffset: nat, hintOffset: nat)

  datatype Task =
    | Idle
    | Picking(todo: seq<FileId>, segment: Segment)
    | Scanning(todo: seq<FileId>, segment: Segment, file: FileId, cursor: nat, pending: map<Bytes, Update>)
    | Copying(todo: seq<FileId>, segment: Segment, file: FileId, cursor: nat, pending: map<Bytes, Update>)

  datatype Store = Store(
    files: map<FileId, seq<Record>>,
    hints: map<nat, seq<Hint>>,
    keyDir: map<Bytes, Entry>,
    currOffset: nat,
    fileCnt: nat,
    mergeFileCnt: nat,
    task: Task)

  // ---------- Record layout ----------

  function Size(r: Record): nat {
    HEADER_SIZE + |r.key| + |r.value|
  }

  /** The sizes and the timestamp fit the header's 32-bit fields, and so does their sum,
      which the merge computes in 32 bits. */
  predicate Storable(r: Record) {
    Size(r) < UINT32_RANGE && r.timestamp < UINT32_RANGE
  }

  function TotalSize(rs: seq<Record>): nat {
    if rs == [] then 0 else Size(rs[0]) + TotalSize(rs[1..])
  }

  /** The record that starts at byte `offset` of a file holding `rs`. */
  function RecordAt(rs: seq<Record>, offset: int): Option<Record> {
    if rs == [] || offset < 0 then None
    else if offset == 0 then Some(rs[0])
    else RecordAt(rs[1..], offset - Size(rs[0]))
  }

  predicate Boundary(rs: seq<Record>, offset: int) {
    offset == TotalSize(rs) || RecordAt(rs, offset).Some?
  }

  function HintSize(h: Hint): nat {
    16 + |h.key|
  }

  function HintsSize(hs: seq<Hint>): nat {
    if hs == [] then 0 else HintSize(hs[0]) + HintsSize(hs[1..])
  }

  /** One hint per record, in order, for records that start at byte `from`. */
  function HintsFor(rs: seq<Record>, from: nat): seq<Hint> {
    if rs == [] then []
    else [Hint(rs[0].key, |rs[0].value|, from)] + HintsFor(rs[1..], from + Size(rs[0]))
  }

  // ---------- Client operations ----------

  function Init(): Store {
    Store(map[], map[], map[], 0, 1, 1, Idle)
  }

  /** The append finds an open active file. */
  predicate Accepts(s: Store) {
    s.files == map[] || Data(s.fileCnt) in s.files
  }

  function Opened(s: Store): map<FileId, seq<Record>> {
    if s.files == map[] then map[Data(s.fileCnt) := []] else s.files
  }

  /** The record appended to the active file, and the index brought up to date. */
  function Stored(s: Store, r: Record): Store
    requires Accepts(s)
  {
    var active := Data(s.fileCnt);
    s.(files := Opened(s)[active := Opened(s)[active] + [r]],
       keyDir := if r.deleted then s.keyDir - {r.key}
                 else s.keyDir[r.key := Entry(active, s.currOffset, |r.value|)],
       currOffset := s.currOffset + Size(r))
  }

  /** A new active file once the old one has reached the limit. */
  function Rotated(s: Store): Store {
    if s.currOffset < MAX_FILE_SIZE then s
    else s.(files := s.files[Data(s.fileCnt + 1) := []], fileCnt := s.fileCnt + 1, currOffset := 0)
  }

  function Written(s: Store, r: Record): Store
    requires Accepts(s)
  {
    Rotated(Stored(s, r))
  }

  function Write(s: Store, r: Record): Store {
    if Accepts(s) then Written(s, r) else s
  }

  // ---------- Merge steps ----------

  function WithSegment(s: Store, id: nat): Store {
    s.(files := if Merge(id) in s.files then s.files else s.files[Merge(id) := []],
       hints := if id in s.hints then s.hints else s.hints[id := []])
  }

  function SegmentOf(s: Store, id: nat): Segment
    requires Merge(id) in s.files && id in s.hints
  {
    Segment(id, TotalSize(s.files[Merge(id)]), HintsSize(s.hints[id]))
  }

  predicate Distinct(order: seq<FileId>) {
    forall i, j :: 0 <= i < j < |order| ==> order[i] != order[j]
  }

  /** `order` lists every open file but the active one and the current segment. */
  predicate Snapshot(s: Store, order: seq<FileId>) {
    && Distinct(order)
    && (forall f | f in order :: f in s.files && f != Data(s.fileCnt) && f != Merge(s.mergeFileCnt))
    && (forall f | f in s.files && f != Data(s.fileCnt) && f != Merge(s.mergeFileCnt) :: f in order)
  }

  function Begun(s: Store, order: seq<FileId>): Store {
    var t := WithSegment(s, s.mergeFileCnt);
    t.(task := Picking(order, SegmentOf(t, s.mergeFileCnt)))
  }

  function FileOpened(s: Store): Store
    requires s.task.Picking? && s.task.todo != []
  {
    var file, rest := s.task.todo[0], s.task.todo[1..];
    s.(task := if file in s.files then Scanning(rest, s.task.segment, file, 0, map[])
               else Picking(rest, s.task.segment))
  }

  predicate AtRecord(s: Store) {
    && (s.task.Scanning? || s.task.Copying?)
    && s.task.file in s.files
    && RecordAt(s.files[s.task.file], s.task.cursor).Some?
  }

  function Current(s: Store): Record
    requires AtRecord(s)
  {
    RecordAt(s.files[s.task.file], s.task.cursor).value
  }

  /** The entry that would name the record under the cursor. */
  function CurrentEntry(s: Store): Entry
    requires AtRecord(s)
  {
    Entry(s.task.file, s.task.cursor, |Current(s).value|)
  }

  predicate IsLive(s: Store)
    requires AtRecord(s)
  {
    var r := Current(s);
    !r.deleted && r.key in s.keyDir && s.keyDir[r.key] == CurrentEntry(s)
  }

  function Scanned(s: Store): Store
    requires s.task.Scanning? && AtRecord(s)
  {
    var t := s.task;
    s.(task := if IsLive(s) then Copying(t.todo, t.segment, t.file, t.cursor, t.pending)
               else Scanning(t.todo, t.segment, t.file, t.cursor + Size(Current(s)), t.pending))
  }

  /** The store in which the segment has room for `size` more bytes, or is a new one. */
  function WithCapacity(s: Store, size: nat): Store
    requires s.task.Copying?
  {
    if s.task.segment.dataOffset + size <= MAX_FILE_SIZE then s
    else
      var t := WithSegment(s.(mergeFileCnt := s.mergeFileCnt + 1), s.mergeFileCnt + 1);
      t.(task := t.task.(segment := SegmentOf(t, t.mergeFileCnt)))
  }

  function Appended(s: Store, r: Record): Store
    requires s.task.Copying? && Merge(s.task.segment.id) in s.files && s.task.segment.id in s.hints
  {
    var t := s.task;
    var seg := t.segment;
    var hint := Hint(r.key, |r.value|, seg.dataOffset);
    var copy := Entry(Merge(seg.id), seg.dataOffset, |r.value|);
    var original := Entry(t.file, t.cursor, |r.value|);
    s.(files := s.files[Merge(seg.id) := s.files[Merge(seg.id)] + [r]],
       hints := s.hints[seg.id := s.hints[seg.id] + [hint]],
       task := Scanning(t.todo, Segment(seg.id, seg.dataOffset + Size(r), seg.hintOffset + HintSize(hint)),
                        t.file, t.cursor + Size(r), t.pending[r.key := Update(original, copy)]))
  }

  predicate HasSegment(s: Store) {
    && !s.task.Idle?
    && Merge(s.task.segment.id) in s.files
    && s.task.segment.id in s.hints
  }

  function Copied(s: Store): Store
    requires s.task.Copying? && AtRecord(s) && HasSegment(s)
  {
    var r := Current(s);
    Appended(WithCapacity(s, Size(r)), r)
  }

  /** The index after the pending copies whose original is still current are installed. */
  function Redirected(keyDir: map<Bytes, Entry>, pending: map<Bytes, Update>): map<Bytes, Entry> {
    map k | k in keyDir ::
      if k in pending && keyDir[k] == pending[k].original then pending[k].copy else keyDir[k]
  }

  predicate AtEnd(s: Store) {
    && s.task.Scanning?
    && s.task.file in s.files
    && s.task.cursor == TotalSize(s.files[s.task.file])
  }

  function Installed(s: Store): Store
    requires AtEnd(s)
  {
    var t := s.task;
    s.(keyDir := Redirected(s.keyDir, t.pending),
       files := s.files - {t.file},
       hints := if t.file.Merge? then s.hints - {t.file.n} else s.hints,
       task := Picking(t.todo, t.segment))
  }

  function Abandoned(s: Store): Store
    requires s.task.Scanning? || s.task.Copying?
  {
    s.(task := Picking(s.task.todo, s.task.segment))
  }

  // ---------- The state machine ----------

  datatype Event =
    | Put(timestamp: nat, key: Bytes, value: Bytes)
    | Delete(timestamp: nat, key: Bytes)
    | Get(key: Bytes)
    | MergeBegin(order: seq<FileId>)
    | MergeOpen
    | MergeScan
    | MergeCopy
    | MergeInstall
    | MergeAbandon
    | MergeEnd

  predicate Enabled(s: Store, e: Event) {
    match e
    case Put(ts, k, v) => Storable(Record(ts, k, v, false))
    case Delete(ts, k) => Storable(Record(ts, k, [], true))
    case Get(_) => true
    case MergeBegin(order) => s.task.Idle? && Snapshot(s, order)
    case MergeOpen => s.task.Picking? && s.task.todo != []
    case MergeScan => s.task.Scanning? && AtRecord(s)
    case MergeCopy => s.task.Copying? && AtRecord(s) && HasSegment(s)
    case MergeInstall => AtEnd(s)
    case MergeAbandon => s.task.Scanning? || s.task.Copying?
    case MergeEnd => s.task.Picking? && s.task.todo == []
  }

  function Next(s: Store, e: Event): Store
    requires Enabled(s, e)
  {
    match e
    case Put(ts, k, v) => Write(s, Record(ts, k, v, false))
    case Delete(ts, k) => Write(s, Record(ts, k, [], true))
    case Get(_) => s
    case MergeBegin(order) => Begun(s, order)
    case MergeOpen => FileOpened(s)
    case MergeScan => Scanned(s)
    case MergeCopy => Copied(s)
    case MergeInstall => Installed(s)
    case MergeAbandon => Abandoned(s)
    case MergeEnd => s.(task := Idle)
  }

  // ---------- What a client sees ----------

  function RecordOf(s: Store, e: Entry): Option<Record> {
    if e.file in s.files then RecordAt(s.files[e.file], e.offset) else None
  }

  /** The mapping a client can read back: each indexed key with the value stored in the
      record its entry names. */
  function Contents(s: Store): map<Bytes, Bytes> {
    map k | k in s.keyDir && RecordOf(s, s.keyDir[k]).Some? :: RecordOf(s, s.keyDir[k]).value.value
  }
}
