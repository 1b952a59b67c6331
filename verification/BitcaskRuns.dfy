/** Runs of the store, with client operations and merge steps interleaved in any way, and
    the plain map they implement. */
module BitcaskRuns {
  import opened Bytes
  import opened Wrappers
  import opened BitcaskModel
  import opened BitcaskInvariant

  datatype Reply = Accepted | Refused | Found(value: Bytes) | NotFound | KeyMismatch | Corrupted | ReadError | Internal

  /** What the program answers: the lookup goes through the index and the record it names. */
  function Answer(s: Store, e: Event): Reply {
    match e
    case Put(_, _, _) => if Accepts(s) then Accepted else Refused
    case Delete(_, _) => if Accepts(s) then Accepted else Refused
    case Get(k) =>
      if k !in s.keyDir then NotFound
      else (match RecordOf(s, s.keyDir[k])
            case None => ReadError
            case Some(r) => if r.key != k then KeyMismatch else if r.deleted then NotFound else Found(r.value))
    case _ => Internal
  }

  // ---------- The plain map ----------

  datatype Fate = Unstarted | Serving | Stuck

  datatype Plain = Plain(contents: map<Bytes, Bytes>, fate: Fate)

  function PlainNext(m: Plain, e: Event): Plain {
    match e
    case Put(_, k, v) => if m.fate.Stuck? then m else Plain(m.contents[k := v], Serving)
    case Delete(_, k) => if m.fate.Stuck? then m else Plain(m.contents - {k}, Serving)
    case MergeBegin(_) => if m.fate.Unstarted? then m.(fate := Stuck) else m
    case _ => m
  }

  function PlainAnswer(m: Plain, e: Event): Reply {
    match e
    case Put(_, _, _) => if m.fate.Stuck? then Refused else Accepted
    case Delete(_, _) => if m.fate.Stuck? then Refused else Accepted
    case Get(k) => if k in m.contents then Found(m.contents[k]) else NotFound
    case _ => Internal
  }

  // ---------- Runs ----------

  ghost predicate Run(s: Store, es: seq<Event>)
    decreases es
  {
    es == [] || (Enabled(s, es[0]) && Run(Next(s, es[0]), es[1..]))
  }

  ghost function After(s: Store, es: seq<Event>): Store
    requires Run(s, es)
    decreases es
  {
    if es == [] then s else After(Next(s, es[0]), es[1..])
  }

  ghost function Answers(s: Store, es: seq<Event>): seq<Reply>
    requires Run(s, es)
    decreases es
  {
    if es == [] then [] else [Answer(s, es[0])] + Answers(Next(s, es[0]), es[1..])
  }

  function PlainAfter(m: Plain, es: seq<Event>): Plain
    decreases es
  {
    if es == [] then m else PlainAfter(PlainNext(m, es[0]), es[1..])
  }

  function PlainAnswers(m: Plain, es: seq<Event>): seq<Reply>
    decreases es
  {
    if es == [] then [] else [PlainAnswer(m, es[0])] + PlainAnswers(PlainNext(m, es[0]), es[1..])
  }

  // ---------- One step ----------

  function FateOf(s: Store): Fate {
    if s.files == map[] then Unstarted else if Data(s.fileCnt) in s.files then Serving else Stuck
  }

  /** The map a store stands for. */
  function Abstract(s: Store): Plain {
    Plain(Contents(s), FateOf(s))
  }

  lemma SameContents(s: Store, t: Store)
    requires KeyDirOk(s) && KeyDirOk(t) && s.keyDir.Keys == t.keyDir.Keys
    requires forall k | k in s.keyDir :: RecordOf(t, t.keyDir[k]) == RecordOf(s, s.keyDir[k])
    ensures Contents(t) == Contents(s)
  {
    forall k | k in s.keyDir ensures EntryOk(s, k, s.keyDir[k]) && EntryOk(t, k, t.keyDir[k]) {
    }
  }

  lemma KeptContents(s: Store, t: Store)
    requires KeyDirOk(s) && KeyDirOk(t) && s.keyDir == t.keyDir && KeepsRecords(s, t, {})
    ensures Contents(t) == Contents(s)
  {
    forall k | k in s.keyDir ensures RecordOf(t, t.keyDir[k]) == RecordOf(s, s.keyDir[k]) {
      EntryKept(s, t, {}, k, s.keyDir[k]);
    }
    SameContents(s, t);
  }

  lemma WrittenKeepsOthers(s: Store, r: Record, k: Bytes)
    requires Inv(s) && Accepts(s) && k in s.keyDir && k != r.key
    ensures var t := Written(s, r);
      && k in t.keyDir && t.keyDir[k] == s.keyDir[k]
      && RecordOf(s, s.keyDir[k]).Some? && RecordOf(t, t.keyDir[k]) == RecordOf(s, s.keyDir[k])
  {
    WrittenKeepsRecords(s, r);
    EntryKept(s, Written(s, r), {}, k, s.keyDir[k]);
  }

  function Read(s: Store, k: Bytes): Option<Bytes> {
    if k in Contents(s) then Some(Contents(s)[k]) else None
  }

  lemma WrittenRead(s: Store, r: Record, k: Bytes)
    requires Inv(s) && Accepts(s)
    ensures Read(Written(s, r), k)
         == if k != r.key then Read(s, k) else if r.deleted then None else Some(r.value)
  {
    var t := Written(s, r);
    WrittenIsFound(s, r);
    if k != r.key {
      if k in s.keyDir {
        WrittenKeepsOthers(s, r, k);
      } else {
        assert k !in t.keyDir;
      }
    }
  }

  /** A write sets or removes its own key and no other. */
  lemma WrittenContents(s: Store, r: Record)
    requires Inv(s) && Accepts(s)
    ensures Contents(Written(s, r))
         == if r.deleted then Contents(s) - {r.key} else Contents(s)[r.key := r.value]
  {
    forall k ensures Read(Written(s, r), k)
                  == if k != r.key then Read(s, k) else if r.deleted then None else Some(r.value) {
      WrittenRead(s, r, k);
    }
    MapFromReads(s, Written(s, r), r);
  }

  lemma MapFromReads(s: Store, t: Store, r: Record)
    requires forall k :: Read(t, k) == if k != r.key then Read(s, k) else if r.deleted then None else Some(r.value)
    ensures Contents(t) == if r.deleted then Contents(s) - {r.key} else Contents(s)[r.key := r.value]
  {
    var before, after := Contents(s), Contents(t);
    forall k
      ensures k in after <==> if k == r.key then !r.deleted else k in before
      ensures k in after ==> after[k] == if k == r.key then r.value else before[k]
    {
      assert Read(t, k) == if k != r.key then Read(s, k) else if r.deleted then None else Some(r.value);
    }
  }

  /** No step of the merge changes what a client can read. */
  lemma MergeKeepsContents(s: Store, e: Event)
    requires Inv(s) && Enabled(s, e) && !e.Put? && !e.Delete?
    ensures Contents(Next(s, e)) == Contents(s)
  {
    NextKeepsInv(s, e);
    if e.MergeInstall? {
      InstallKeepsContents(s);
    } else {
      MergeKeepsRecords(s, e);
      MergeKeepsKeyDir(s, e);
      KeptContents(s, Next(s, e));
    }
  }

  lemma InstallKeepsContents(s: Store)
    requires Inv(s) && AtEnd(s)
    ensures Contents(Installed(s)) == Contents(s)
  {
    var t := Installed(s);
    forall k | k in s.keyDir ensures RecordOf(t, t.keyDir[k]) == RecordOf(s, s.keyDir[k]) {
      InstalledEntry(s, k);
    }
    SameContents(s, t);
  }

  lemma MergeKeepsRecords(s: Store, e: Event)
    requires Inv(s) && Enabled(s, e) && !e.Put? && !e.Delete? && !e.MergeInstall?
    ensures KeepsRecords(s, Next(s, e), {})
  {
    if e.MergeCopy? {
      CopiedKeepsInv(s);
    } else if e.MergeBegin? {
      assert s.(mergeFileCnt := s.mergeFileCnt) == s;
      SegmentReady(s, s.mergeFileCnt);
    } else {
      assert Next(s, e).files == s.files;
    }
  }

  lemma MergeKeepsKeyDir(s: Store, e: Event)
    requires Enabled(s, e) && !e.Put? && !e.Delete? && !e.MergeInstall?
    ensures Next(s, e).keyDir == s.keyDir
  {
  }

  lemma CopiedFate(s: Store)
    requires Enabled(s, MergeCopy)
    ensures FateOf(Copied(s)) == FateOf(s)
  {
    assert Merge(s.task.segment.id) in s.files;
    var t := WithCapacity(s, Size(Current(s)));
    assert Data(t.fileCnt) in t.files <==> Data(s.fileCnt) in s.files;
    assert Merge(s.task.segment.id) in Copied(s).files;
  }

  lemma InstalledFate(s: Store)
    requires TaskOk(s) && AtEnd(s)
    ensures FateOf(Installed(s)) == FateOf(s)
  {
    assert Closed(s, s.task.file);
    assert Merge(s.task.segment.id) in Installed(s).files;
  }

  lemma NextFate(s: Store, e: Event)
    requires Inv(s) && Enabled(s, e)
    ensures FateOf(Next(s, e)) == PlainNext(Abstract(s), e).fate
  {
    if e.MergeCopy? {
      CopiedFate(s);
    } else if e.MergeInstall? {
      InstalledFate(s);
    } else if e.MergeBegin? {
      assert Merge(s.mergeFileCnt) in Next(s, e).files;
    } else if e.Put? || e.Delete? {
      assert Accepts(s) ==> Data(Next(s, e).fileCnt) in Next(s, e).files;
    }
  }

  lemma StepRefines(s: Store, e: Event)
    requires Inv(s) && Enabled(s, e)
    ensures Abstract(Next(s, e)) == PlainNext(Abstract(s), e)
    ensures Answer(s, e) == PlainAnswer(Abstract(s), e)
  {
    NextFate(s, e);
    match e
    case Put(ts, k, v) =>
      if Accepts(s) {
        WrittenContents(s, Record(ts, k, v, false));
      }
    case Delete(ts, k) =>
      if Accepts(s) {
        WrittenContents(s, Record(ts, k, [], true));
      }
    case Get(k) =>
      assert k in s.keyDir ==> EntryOk(s, k, s.keyDir[k]);
    case _ =>
      MergeKeepsContents(s, e);
  }

  // ---------- Whole runs ----------

  lemma {:induction false} RunKeepsInv(s: Store, es: seq<Event>)
    requires Inv(s) && Run(s, es)
    ensures Inv(After(s, es))
    decreases es
  {
    if es == [] {
    } else {
      NextKeepsInv(s, es[0]);
      RunKeepsInv(Next(s, es[0]), es[1..]);
    }
  }

  lemma {:induction false} RunRefines(s: Store, es: seq<Event>)
    requires Inv(s) && Run(s, es)
    ensures Abstract(After(s, es)) == PlainAfter(Abstract(s), es)
    ensures Answers(s, es) == PlainAnswers(Abstract(s), es)
    decreases es
  {
    if es == [] {
    } else {
      NextKeepsInv(s, es[0]);
      StepRefines(s, es[0]);
      RunRefines(Next(s, es[0]), es[1..]);
    }
  }

  lemma InitInv()
    ensures Inv(Init()) && Abstract(Init()) == Plain(map[], Unstarted)
  {
  }

  /** However client operations and merge steps interleave, the store answers every one of
      them as a plain map would, and ends up standing for that map. */
  lemma StoreIsAMap(es: seq<Event>)
    requires Run(Init(), es)
    ensures Answers(Init(), es) == PlainAnswers(Plain(map[], Unstarted), es)
    ensures Contents(After(Init(), es)) == PlainAfter(Plain(map[], Unstarted), es).contents
  {
    InitInv();
    RunRefines(Init(), es);
  }

  /** In every state of every run the active file ends below the limit, a closed data file
      reached the limit only with its last record, and a merge segment is within the limit or
      holds a single record. */
  lemma SizesInEveryRun(es: seq<Event>)
    requires Run(Init(), es)
    ensures var s := After(Init(), es);
      && (Data(s.fileCnt) in s.files ==> s.currOffset == TotalSize(s.files[Data(s.fileCnt)]) < MAX_FILE_SIZE)
      && (forall n: nat | Data(n) in s.files && n != s.fileCnt :: Full(s.files[Data(n)]))
      && (forall n: nat | Merge(n) in s.files :: TotalSize(s.files[Merge(n)]) <= MAX_FILE_SIZE || |s.files[Merge(n)]| == 1)
  {
    InitInv();
    RunKeepsInv(Init(), es);
    var s := After(Init(), es);
    forall f | f in s.files ensures FileOk(s, f, s.files[f]) {
    }
  }

  /** The first operation to touch the disk is a merge. */
  predicate MergedFirst(es: seq<Event>) {
    es != [] &&
    match es[0]
    case MergeBegin(_) => true
    case Put(_, _, _) => false
    case Delete(_, _) => false
    case _ => MergedFirst(es[1..])
  }

  lemma {:induction false} FateIsDecidedFirst(m: Plain, es: seq<Event>)
    ensures m.fate.Unstarted? ==> (PlainAfter(m, es).fate.Stuck? <==> MergedFirst(es))
    ensures !m.fate.Unstarted? ==> PlainAfter(m, es).fate == m.fate
    decreases es
  {
    if es == [] {
    } else {
      FateIsDecidedFirst(PlainNext(m, es[0]), es[1..]);
    }
  }

  /** A merge run before anything was ever written leaves an open segment and no active
      file, and every later write is refused. That is the only way a write is refused. */
  lemma WritesAcceptedUnlessMergedFirst(es: seq<Event>)
    requires Run(Init(), es)
    ensures Accepts(After(Init(), es)) <==> !MergedFirst(es)
  {
    InitInv();
    RunRefines(Init(), es);
    FateIsDecidedFirst(Plain(map[], Unstarted), es);
  }

  lemma MergedFirstHappens()
    ensures Run(Init(), [MergeBegin([])]) && !Accepts(After(Init(), [MergeBegin([])]))
  {
    var s := Init();
    var e := MergeBegin([]);
    assert Enabled(s, e);
    assert [e][1..] == [];
    assert After(s, [e]) == Next(s, e);
    assert Merge(1) in Next(s, e).files;
  }

  // ---------- File numbers only grow ----------

  /** A file that is gone and whose number will not be used again. */
  predicate Retired(s: Store, f: FileId) {
    && f !in s.files
    && match f
       case Data(n) => n < s.fileCnt
       case Merge(n) => n < s.mergeFileCnt
  }

  /** The place `e` holds `r`, or nothing any more. */
  predicate Names(s: Store, e: Entry, r: Record) {
    RecordOf(s, e) == Some(r) || Retired(s, e.file)
  }

  lemma NextKeepsNames(s: Store, e: Event, place: Entry, r: Record)
    requires Inv(s) && Enabled(s, e) && Names(s, place, r)
    ensures Names(Next(s, e), place, r)
  {
    match e
    case Put(ts, k, v) => WriteKeepsNames(s, Record(ts, k, v, false), place, r);
    case Delete(ts, k) => WriteKeepsNames(s, Record(ts, k, [], true), place, r);
    case MergeCopy => CopyKeepsNames(s, place, r);
    case MergeInstall =>
      assert Closed(s, s.task.file);
    case _ =>
  }

  lemma WriteKeepsNames(s: Store, w: Record, place: Entry, r: Record)
    requires Inv(s) && Names(s, place, r)
    ensures Names(Write(s, w), place, r)
  {
    if Accepts(s) {
      WrittenKeepsRecords(s, w);
    }
  }

  lemma CopyKeepsNames(s: Store, place: Entry, r: Record)
    requires Inv(s) && Enabled(s, MergeCopy) && Names(s, place, r)
    ensures Names(Copied(s), place, r)
  {
    CopiedKeepsInv(s);
    var t := WithCapacity(s, Size(Current(s)));
    assert Retired(s, place.file) ==> Retired(t, place.file);
  }

  lemma {:induction false} RunKeepsNames(s: Store, es: seq<Event>, place: Entry, r: Record)
    requires Inv(s) && Run(s, es) && Names(s, place, r)
    ensures Names(After(s, es), place, r)
    decreases es
  {
    if es == [] {
    } else {
      NextKeepsInv(s, es[0]);
      NextKeepsNames(s, es[0], place, r);
      RunKeepsNames(Next(s, es[0]), es[1..], place, r);
    }
  }

  /** A file and an offset never name a second record, however long the store runs. */
  lemma PlaceNamesOneRecord(es: seq<Event>, es': seq<Event>, place: Entry)
    requires Run(Init(), es) && Run(After(Init(), es), es')
    requires RecordOf(After(Init(), es), place).Some?
    ensures var later := RecordOf(After(After(Init(), es), es'), place);
      later.None? || later == RecordOf(After(Init(), es), place)
  {
    InitInv();
    RunKeepsInv(Init(), es);
    RunKeepsNames(After(Init(), es), es', place, RecordOf(After(Init(), es), place).value);
  }

  // ---------- When a pending copy is installed ----------

  /** The index still holds the entry the copy was made from, so the copy will be installed. */
  predicate WillInstall(s: Store, k: Bytes) {
    && (s.task.Scanning? || s.task.Copying?) && k in s.task.pending
    && k in s.keyDir && s.keyDir[k] == s.task.pending[k].original
  }

  predicate Touches(e: Event, k: Bytes) {
    match e
    case Put(_, key, _) => key == k
    case Delete(_, key) => key == k
    case _ => false
  }

  /** Steps that may occur while one file is being scanned. */
  predicate WithinScan(e: Event) {
    e.Put? || e.Delete? || e.Get? || e.MergeScan? || e.MergeCopy?
  }

  ghost predicate PendingKept(s: Store, t: Store, k: Bytes)
    requires (s.task.Scanning? || s.task.Copying?) && k in s.task.pending
  {
    && (t.task.Scanning? || t.task.Copying?) && t.task.file == s.task.file
    && k in t.task.pending && t.task.pending[k] == s.task.pending[k]
  }

  lemma WriteKeepsPending(s: Store, r: Record, k: Bytes)
    requires ActiveOk(s) && TaskOk(s) && (s.task.Scanning? || s.task.Copying?) && k in s.task.pending
    ensures PendingKept(s, Write(s, r), k)
    ensures WillInstall(Write(s, r), k) <==> WillInstall(s, k) && (Accepts(s) ==> k != r.key)
    ensures !Accepts(s) ==> !WillInstall(s, k)
  {
    assert UpdateOk(s, s.task.file, s.task.todo, k, s.task.pending[k]);
    assert Closed(s, s.task.file);
  }

  lemma CopyKeepsPending(s: Store, k: Bytes)
    requires Inv(s) && Enabled(s, MergeCopy) && k in s.task.pending
    ensures PendingKept(s, Copied(s), k)
    ensures WillInstall(Copied(s), k) <==> WillInstall(s, k)
  {
    CapacityKeepsInv(s, Size(Current(s)));
  }

  lemma StepKeepsPending(s: Store, e: Event, k: Bytes)
    requires Inv(s) && Enabled(s, e) && WithinScan(e)
    requires (s.task.Scanning? || s.task.Copying?) && k in s.task.pending
    ensures PendingKept(s, Next(s, e), k)
    ensures WillInstall(Next(s, e), k) <==> WillInstall(s, k) && !Touches(e, k)
  {
    match e
    case Put(ts, key, v) => WriteKeepsPending(s, Record(ts, key, v, false), k);
    case Delete(ts, key) => WriteKeepsPending(s, Record(ts, key, [], true), k);
    case MergeCopy => CopyKeepsPending(s, k);
    case _ =>
  }

  lemma {:induction false} ScanKeepsPending(s: Store, es: seq<Event>, k: Bytes)
    requires Inv(s) && Run(s, es) && (forall e | e in es :: WithinScan(e))
    requires (s.task.Scanning? || s.task.Copying?) && k in s.task.pending
    ensures PendingKept(s, After(s, es), k)
    ensures WillInstall(After(s, es), k) <==> WillInstall(s, k) && forall e | e in es :: !Touches(e, k)
    decreases es
  {
    if es == [] {
    } else {
      NextKeepsInv(s, es[0]);
      StepKeepsPending(s, es[0], k);
      ScanKeepsPending(Next(s, es[0]), es[1..], k);
      assert forall e :: e in es <==> e == es[0] || e in es[1..];
    }
  }

  lemma CopyStartsPending(s: Store)
    requires Inv(s) && Enabled(s, MergeCopy)
    ensures Copied(s).task.Scanning? && Current(s).key in Copied(s).task.pending
    ensures WillInstall(Copied(s), Current(s).key) <==> IsLive(s)
  {
    CapacityKeepsInv(s, Size(Current(s)));
  }

  lemma InstallRedirects(s: Store, k: Bytes)
    requires Inv(s) && AtEnd(s) && k in s.task.pending
    ensures (k in s.keyDir && Installed(s).keyDir[k] != s.keyDir[k]) <==> WillInstall(s, k)
    ensures WillInstall(s, k) ==> Installed(s).keyDir[k] == s.task.pending[k].copy
  {
    assert UpdateOk(s, s.task.file, s.task.todo, k, s.task.pending[k]);
  }

  /** A copy is installed exactly when its record was still the current one as it was copied
      and its key has been neither written nor deleted up to the installation. */
  lemma InstalledIffUntouched(s: Store, es: seq<Event>)
    requires Inv(s) && Enabled(s, MergeCopy) && Run(Copied(s), es) && (forall e | e in es :: WithinScan(e))
    requires AtEnd(After(Copied(s), es))
    ensures var k := Current(s).key;
      var before := After(Copied(s), es).keyDir;
      var after := Installed(After(Copied(s), es)).keyDir;
      && k in Copied(s).task.pending
      && ((k in before && after[k] != before[k]) <==> IsLive(s) && forall e | e in es :: !Touches(e, k))
      && (k in before && after[k] != before[k] ==> after[k] == Copied(s).task.pending[k].copy)
  {
    var k := Current(s).key;
    CopyStartsPending(s);
    CopiedKeepsInv(s);
    ScanKeepsPending(Copied(s), es, k);
    RunKeepsInv(Copied(s), es);
    InstallRedirects(After(Copied(s), es), k);
  }
}
