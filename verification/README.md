# Design POCs, verified

Models of five of the repository's proofs of concept, with proofs of what each is for. Each model
does what the Go code does, branch by branch; loops and in-place updates are methods of classes,
proved against functions, and the functions carry the theorems.

`dafny verify dfyconfig.toml` verifies everything.

## What is modelled

**Bitcask** (`bitcask/main.go`). `BitcaskModel.dfy` is the store as a state machine: every region
the program runs under its lock is one step, and the merge keeps its local variables between steps,
so Put, Delete and Get run between any two of them. `BitcaskRuns.dfy` proves that every run answers
as a plain map would, that a file and an offset never name two records, and exactly when a merged
copy is installed. `BitcaskMerge.dfy` proves what a merge copies, and `BitcaskProgress.dfy` that it
ends whatever the clients do. `BitcaskCodec.dfy` is the byte format of data and hint files.
`BitcaskStore.dfy` is the program itself: a class over bytes whose methods are proved to be the
state machine's steps. The index, the lock regions, the size-based rotation, the header-driven scan
and the segment reopening are all as in the source.

**Word dictionary** (`word-dictionary/main.go`). `DictionaryModel.dfy` has the record format, the
two-way merge on records and the offset index; `Dictionary.dfy` has the class with `Insert`,
`GetMeaning` and `Import`, whose three loops run over the bytes of both files.

**Weighted round robin** (`load-balancer/`). `SmoothRoundRobin.dfy` and `ClassicRoundRobin.dfy`,
over `ServerWeights.dfy` and `Windows.dfy`. The classic scheduler is the simple one the smooth one
is compared with.

**Seat booking and its connection pool** (`relational-db/exclusive-locks/`).
`OptimisticBooking.dfy`, `OptimisticProgress.dfy`, `OptimisticLimit.dfy`, `OptimisticFewest.dfy` and
`OptimisticLock.dfy` are the version-checked claim with its retry loop; `SkipLockedBooking.dfy` and
`SkipLock.dfy` are the claim by a row lock; `ConnectionPool.dfy` is the token channel and stack.
Each SQL statement is one step of one worker. Faults of a worker's own statements are counted as the
database refuses them. The database is assumed to behave so: a read sees committed rows; an update
waits for the row's exclusive lock, checks the latest committed row and holds the lock to commit or
rollback; SKIP LOCKED passes over locked rows.

**Consistent hashing** (`consistent_hashing/main.go`). `HashRing.dfy` has the ring's operations and
what one operation moves, `HashRingHistory.dfy` whole histories, `HashRingWitness.dfy` and
`HashRingPanic.dfy` what shared slots can do, and `ConsistentHashing.dfy` the class with its loops
and binary search. The hash is any function from strings to 64-bit values.

## What the code does not meet

Some properties hold only under a condition the code does not check. Each condition below is proved
to be exact.

- A merge before the first write makes the store refuse every later write, and nothing else does:
  `BitcaskRuns.WritesAcceptedUnlessMergedFirst`.
- The merge adds header sizes in 32 bits, which is right exactly below 4 GiB, and its scan finds the
  records of a file if and only if all of them are: `BitcaskCodec.BlockSizeExact`,
  `BitcaskCodec.ScanVisitsEveryRecord`.
- A dictionary record reads back as itself exactly when the word has at most 255 bytes and the
  meaning fewer than 2^24. The comment in the source allows a word of 256:
  `DictionaryModel.ReadsBackIffFits`.
- The index of a freshly opened dictionary describes its file exactly when the file is empty:
  `Dictionary.WordDictionary.constructor`. A successful import makes index and file agree again,
  whatever they were before: `Dictionary.WordDictionary.Import`.
- Every change log overrides the file's meanings if and only if the file is strictly sorted, which
  Insert does not see to: `DictionaryModel.OverridesIffSorted`.
- The schedulers check the sum of the weights only. Each gives exact shares if and only if no weight
  is negative and every server with a positive weight is configured:
  `SmoothRoundRobin.ExactSharesIffFair`, `ClassicRoundRobin.ExactSharesIffFair`.
- With a seat for every worker, optimistic booking lets nobody give up in a fault-free run if and
  only if the attempts allowed are at least as many as the workers. The shipped 50 for 100 workers
  is too few: `OptimisticLimit.AttemptsMustCoverWorkers`. A worker with up to f faults of its own
  needs exactly f attempts more: `OptimisticLimit.AttemptsMustCoverFaults`.
- A finished fault-free run of optimistic booking need not book more seats than there are attempts,
  workers or seats, whichever are fewest, and never books less: `OptimisticFewest.FewestBookings`.
  For the shipped 50 attempts, 100 workers and 100 seats that is 50.
- The pool takes back whatever it is given. A Put waits if and only if connections that were not
  borrowed were put in and are at least as many as those in use:
  `ConnectionPool.PutWaitsIffForeign`.
- The ring forgets its history if and only if no two hosts share a slot:
  `HashRingHistory.ForgetsIffNoneShared`.
- A deletion that does not panic moves only the deleted node's keys if and only if each slot it
  shares with another host's node is followed by a remaining slot of that node; a deletion that
  panics does so if and only if it shares no slot: `HashRing.DeleteKeepsOthersIffSafe`. The two
  differ, and a live node can be deleted so: `HashRingPanic.PanicLosesKey`. Sharing no slot is always
  enough, and is exactly what keeps the other keys on their very slots:
  `HashRing.DeleteDisturbsOthersIffShared`.
- A deletion from a ring with fewer than a hundred slots panics with the map changed and the
  sequence not; sequence and map then disagree unless there was nothing to delete:
  `HashRing.DeleteKeepsRing`. That takes shared slots, and then it can happen:
  `HashRingWitness.DeletingBothBreaks`.
- The exclusive-locks README describes "update-skip" as one conditional UPDATE; the code locks a row
  with SELECT ... FOR UPDATE SKIP LOCKED, and the model follows the code.

## Model

| member | source | states |
|---|---|---|
| BitcaskRuns.StoreIsAMap | bitcask/main.go:73-348 | in every run that interleaves Put, Delete and Get with the merge's locked steps, every answer is the one a plain map gives, and the store ends up standing for that map |
| BitcaskRuns.StepRefines | bitcask/main.go:73-348 | one step of the store is one step of the plain map, with the same answer |
| BitcaskRuns.WrittenContents | bitcask/main.go:313-345 | a write sets or removes its own key in what can be read back, and no other key, whether or not the active file rotates |
| BitcaskRuns.MergeKeepsContents | bitcask/main.go:127-279 | no step of a merge (begin, open, scan, copy, rotate, install, remove, abandon, end) changes what can be read back |
| BitcaskRuns.InstalledIffUntouched | bitcask/main.go:201-258 | a pending copy is installed exactly when its record was still current when copied and its key was neither written nor deleted before the install |
| BitcaskRuns.CopyStartsPending | bitcask/main.go:201-228 | a copy becomes pending under its key, and is due to be installed exactly if the record is live |
| BitcaskRuns.InstallRedirects | bitcask/main.go:251-258 | the install changes a pending key's entry exactly when it still names the original, and then to the copy |
| BitcaskRuns.PlaceNamesOneRecord | bitcask/main.go:336-411 | once a file and offset name a record, they name that record or nothing in every later state |
| BitcaskRuns.SizesInEveryRun | bitcask/main.go:335-427 | the active file ends below the limit, a closed data file reaches it only with its last record, a merge segment is within it or holds one record |
| BitcaskRuns.WritesAcceptedUnlessMergedFirst | bitcask/main.go:303-316 | writes are accepted in every run except, from then on, those where a merge came before the first write |
| BitcaskRuns.MergedFirstHappens | bitcask/main.go:128-136 | a merge of an empty store leaves it unable to accept a write |
| BitcaskInvariant.NextKeepsInv | bitcask/main.go:73-348 | every step keeps the invariant: each index entry names its key's live record, files and hints agree, pending copies equal their originals, everything live before the cursor is pending |
| BitcaskInvariant.PassedIsCovered | bitcask/main.go:173-232 | moving past a record that is not live leaves nothing before the cursor that the index names and no copy covers |
| BitcaskInvariant.CopiedKeepsInv | bitcask/main.go:202-232 | copying a live record, with or without opening a new segment, keeps the invariant and every record where it was |
| BitcaskInvariant.CapacityKeepsInv | bitcask/main.go:403-427 | rotating the merge segment keeps the invariant and leaves room for the next record |
| BitcaskInvariant.RotatesIffFull | bitcask/main.go:403-427 | the merge segment is kept exactly as long as the next record fits it; then the next segment follows, empty, and the old one stays as it is |
| BitcaskInvariant.InstalledLeavesNoEntry | bitcask/main.go:251-262 | when a merged file is removed, no index entry refers to it |
| BitcaskInvariant.InstalledEntry | bitcask/main.go:251-262 | after an install every indexed key's entry names the same record as before |
| BitcaskMerge.MergeAddsLiveBytes | bitcask/main.go:127-279 | a merge without concurrent writers adds to its segments exactly the bytes of the live records in the files it snapshots, and removes those files |
| BitcaskMerge.MergeAddsAtMostLiveBytes | bitcask/main.go:127-279 | whatever clients write meanwhile and whichever files are given up, at no point has a merge added more to its segments than the bytes that were live in the files of its snapshot when it began |
| BitcaskMerge.OnlyGivenUpStay | bitcask/main.go:127-279 | whatever clients do meanwhile, of the files of its snapshot a finished merge leaves none but those it gave up |
| BitcaskMerge.StepStrands | bitcask/main.go:65-279 | no step of client or merge but giving a file up leaves an old file behind unprocessed |
| BitcaskMerge.StepBounds | bitcask/main.go:65-279 | no step, of a client or of the merge, raises the bytes copied plus those still to copy |
| BitcaskMerge.StepConserves | bitcask/main.go:147-272 | each merge step keeps the bytes copied plus the live bytes still to copy |
| BitcaskMerge.ScanProgresses | bitcask/main.go:158-233 | a scan step comes closer to the end of its file or finds a record to copy |
| BitcaskMerge.CopyProgresses | bitcask/main.go:202-232 | a copy moves the scan past the copied record |
| BitcaskProgress.MergeStepsAreBounded | bitcask/main.go:147-279 | however many client operations run between them, a merge takes at most one step for its end and, for each file of its snapshot, two and two a byte |
| BitcaskProgress.ClientKeepsWork | bitcask/main.go:281-348 | a client operation leaves the merge's position and the work it has left as they were |
| BitcaskProgress.MergeTakesWork | bitcask/main.go:147-279 | every step of a merge, giving a file up included, leaves it less work |
| BitcaskProgress.MergeCanStep | bitcask/main.go:147-279 | a merge under way can always take a step of its own |
| BitcaskCodec.HeaderRoundTrip | bitcask/main.go:287-297 | the header fields read back are the record's timestamp, sizes and flag, and the block size is the record's |
| BitcaskCodec.PayloadRoundTrip | bitcask/main.go:293-297 | key and value read back from a stored block are the record's, and its checksum matches |
| BitcaskCodec.RecordLayout | bitcask/main.go:283-297 | a record is, little-endian, its checksum over the rest, timestamp, key size and value size in four bytes each, a flag byte, the key and the value |
| BitcaskCodec.BlockSizeExact | bitcask/main.go:168-172 | the block size the merge works out from a written record's header is the record's size if and only if that is below 2^32 |
| BitcaskCodec.LargeValueIsMissed | bitcask/main.go:168-172 | a record with a value of 4 GiB is taken to end where its value begins |
| BitcaskCodec.RecordIsHeld | bitcask/main.go:313-333 | the bytes of a file of records hold, at each record's offset, that record's encoding |
| BitcaskCodec.ScanVisitsEveryRecord | bitcask/main.go:155-233 | the header-driven scan of a file visits exactly the records written to it, at their offsets and in order, if and only if each of them fits the header's 32 bits |
| BitcaskCodec.HintsRoundTrip | bitcask/main.go:449-453 | hint records decode to the hints they encode |
| BitcaskCodec.HintLayout | bitcask/main.go:449-453 | a hint is, little-endian, the key size and value size in four bytes each and the offset in eight, and the key |
| BitcaskCodec.HintFileDescribesSegment | bitcask/main.go:443-470 | a segment's hint file decodes to key, value size and offset of each of its records, one for one and in order |
| BitcaskStore.BitCask.constructor | bitcask/main.go:53-63 | a new store is the state machine's initial state |
| BitcaskStore.BitCask.EncodeEntry | bitcask/main.go:283-297 | filling the buffer field by field gives the record's encoding, checksum first |
| BitcaskStore.BitCask.WriteRecord | bitcask/main.go:301-333 | appends the record's bytes to the active file, sets or removes the key's index entry and advances the offset, or refuses and changes nothing |
| BitcaskStore.BitCask.RotateIfFull | bitcask/main.go:335-345 | opens the next data file, empty, exactly if the limit is reached |
| BitcaskStore.BitCask.Append | bitcask/main.go:281-348 | `put`: the store becomes the one with the record written, in its bytes at the end of the active file, and is refused exactly when no active file is open |
| BitcaskStore.BitCask.Put | bitcask/main.go:65-67 | an accepted Put sets its key in what can be read back and nothing else; the record's bytes go to the end of the active file and its place into the index |
| BitcaskStore.BitCask.Delete | bitcask/main.go:69-71 | an accepted Delete removes its key and nothing else; a tombstone goes to the end of the active file |
| BitcaskStore.BitCask.Get | bitcask/main.go:73-125 | Get, reading bytes through the index, returns the key's current value or not-found, and never an error, a corrupted entry or a key mismatch |
| BitcaskStore.ReadFinds | bitcask/main.go:83-124 | reading where a record is stored gives its value, not-found for a tombstone, a mismatch for another key |
| BitcaskStore.PeekFinds | bitcask/main.go:159-201 | what the scan reads at a record is its size and, unless deleted, its key and value size |
| BitcaskStore.ReadBlock | bitcask/main.go:174-191 | the block the merge reads is the record's encoding, with its key |
| BitcaskStore.BitCask.OpenSegment | bitcask/main.go:350-401 | opens or reopens a segment with its offsets at the ends of its two files |
| BitcaskStore.BitCask.ImmutableFiles | bitcask/main.go:138-144 | lists every open file but the active one and the current segment, once each |
| BitcaskStore.BitCask.BeginMerge | bitcask/main.go:128-145 | is the state machine's begin step: goes on with the current segment at its end |
| BitcaskStore.BitCask.OpenNext | bitcask/main.go:147-157 | is the step that takes up the next file of the snapshot, which is always still open |
| BitcaskStore.BitCask.ScanNext | bitcask/main.go:158-201 | is the scan step: it ends exactly at the end of the file and never meets an unreadable record |
| BitcaskStore.BitCask.EnsureCapacity | bitcask/main.go:403-427 | keeps the segment if the record fits it, and otherwise goes on to the next one |
| BitcaskStore.BitCask.AppendEntry | bitcask/main.go:443-470 | writes record and hint at the segment's ends and advances both offsets |
| BitcaskStore.BitCask.CopyRecord | bitcask/main.go:202-232 | is the copy step, including a record that is no longer live when copied |
| BitcaskStore.BitCask.InstallPending | bitcask/main.go:251-258 | the loop over pending updates redirects exactly the entries that still name the original |
| BitcaskStore.BitCask.FinishFile | bitcask/main.go:235-271 | is the install step; afterwards the file is gone and no entry names it |
| BitcaskStore.BitCask.AbandonFile | bitcask/main.go:239-249 | is the step that gives up on a file and leaves index and files alone |
| BitcaskStore.BitCask.EndMerge | bitcask/main.go:274-279 | is the state machine's end step |
| BitcaskStore.BitCask.CopyLive | bitcask/main.go:202-229 | after any client operations, copies the record, or gives the file up if and only if the disk failed |
| BitcaskStore.BitCask.ScanOne | bitcask/main.go:158-232 | one round of the scan, with clients running before each lock is taken, is a run of the state machine that ends at the end of the file or brings the merge closer to it, and gives the file up once for each failure of the disk |
| BitcaskStore.BitCask.Close | bitcask/main.go:235-271 | installs and removes, or gives the file up if and only if the sync failed |
| BitcaskStore.BitCask.MergeFile | bitcask/main.go:147-272 | the loop over one file ends, whatever clients do meanwhile, is a run of the state machine, and gives the file up once for each failure of the disk |
| BitcaskStore.BitCask.Merge | bitcask/main.go:127-279 | a merge with any client operations between its steps and any failures of the disk ends; it is a run of the state machine, so what can be read back is what the clients' operations make of it; its segments grow by at most the bytes that were live in its snapshot's files; at most as many of those files stay as the disk failed, so none if it did not, whatever the clients did; without failures and writes nothing that can be read back changes and the segments grow by exactly those bytes |
| BitcaskStore.MergeResult | bitcask/main.go:127-279 | what a run of the state machine from the beginning to the end of a merge has done to contents, files and segments, and that it leaves only the files it gave up |
| Bytes.Uint32RoundTrip | bitcask/main.go:289-297 | a 32-bit field reads back modulo 2^32 |
| Bytes.Uint64RoundTrip | bitcask/main.go:452 | a 64-bit field reads back modulo 2^64 |
| Bytes.WriteAt | bitcask/main.go:313 | a write at an offset puts the data there and leaves the rest; at the end it appends |
| DictionaryModel.MeaningSizeRoundTrip | word-dictionary/main.go:64-68 | the three big-endian bytes of a meaning's length add up to it modulo 2^24 |
| DictionaryModel.EntryLayout | word-dictionary/main.go:57-74 | an entry is the word's length in one byte, the meaning's in three with the most significant first, the word and the meaning |
| DictionaryModel.MeaningSizeIsBigEndian | word-dictionary/main.go:122-150 | reading takes the three bytes of a meaning's length most significant first too |
| DictionaryModel.ReadsBackIffFits | word-dictionary/main.go:57-74 | an encoded record reads back as itself if and only if its lengths fit one and three bytes |
| DictionaryModel.EncodedParses | word-dictionary/main.go:209-245 | a file of whole records parses as the records it is made of |
| DictionaryModel.ParsedIsEncoded | word-dictionary/main.go:248-285 | what parses is the concatenation of fitting records and nothing else |
| DictionaryModel.CombineIsSorted | word-dictionary/main.go:152-191 | merging two strictly sorted files gives a strictly sorted file |
| DictionaryModel.CombineOverrides | word-dictionary/main.go:120-285 | merging any change log into a sorted file gives the file's meanings overridden by the log's: no word lost, invented or left with its old meaning |
| DictionaryModel.OverridesIffSorted | word-dictionary/main.go:120-285 | every change log overrides the file's meanings if and only if the file is strictly sorted |
| DictionaryModel.LaterRecordWins | word-dictionary/main.go:152-191 | a record that comes after one not below it keeps its word's old meaning against a change |
| DictionaryModel.CombineIsOrderPreserving | word-dictionary/main.go:120-285 | for any two files the output interleaves the log and the kept current records in order, every dropped record has its word in the log, and the length is both lengths less the dropped records' |
| DictionaryModel.DroppedAreReplaced | word-dictionary/main.go:158-168 | a current record is dropped only for a log record of the same word |
| DictionaryModel.UnsortedFileKeepsOldMeaning | word-dictionary/main.go:152-191 | a file of two records out of order and a change that it loses |
| DictionaryModel.IndexIsExact | word-dictionary/main.go:201-283 | the index holds exactly the words in the file, each at the offset and size of its last record |
| DictionaryModel.IndexNamesLast | word-dictionary/main.go:201-283 | a word is in the index exactly if it has a meaning, and its entry names the record that gives the meaning |
| DictionaryModel.NthIsHeld | word-dictionary/main.go:70-87 | a record's bytes are at the offset that is the length of the records before it |
| ByteOrder.CompareEqual | word-dictionary/main.go:152-158 | the comparison is zero exactly for equal words |
| ByteOrder.CompareSwaps | word-dictionary/main.go:152-170 | swapping the words negates the comparison |
| ByteOrder.BelowIsLexicographic | word-dictionary/main.go:152-170 | one word is below another if and only if it is a proper prefix of it or has the smaller byte where the two first differ |
| ByteOrder.BelowTransitive | word-dictionary/main.go:152-170 | byte order is transitive |
| ByteOrder.BelowTotal | word-dictionary/main.go:152-170 | byte order is total and strict |
| Dictionary.WordDictionary.constructor | word-dictionary/main.go:27-37 | the empty index of an opened dictionary describes some list of records in its file if and only if the file is empty |
| Dictionary.WordDictionary.Insert | word-dictionary/main.go:51-91 | a word the index does not have gets its record appended and indexed at the old end of the file, whether or not its lengths fit; a word it has changes nothing |
| Dictionary.WordDictionary.GetMeaning | word-dictionary/main.go:315-345 | returns what the lengths in the prefix give back of the word's last record, which is its meaning if the records fit, and nothing for a word the index does not have |
| Dictionary.ReadBackIsExact | word-dictionary/main.go:332-337 | what is read back of any record, byte by byte: what follows the word as its length byte gives it, as far as the meaning's length bytes say |
| Dictionary.FittingReadsBack | word-dictionary/main.go:332-337 | what is read back of a record that fits is its meaning |
| Dictionary.WordDictionary.Import | word-dictionary/main.go:95-308 | from any file, indexed or not, succeeds exactly when file and log are whole records; then file and index are those of the merged records; otherwise file, index and offset are as they were |
| Dictionary.MergeFiles | word-dictionary/main.go:114-285 | the three loops in turn give the merged records, their bytes and their index, and fail exactly when file or log is not whole records |
| Dictionary.MergeBoth | word-dictionary/main.go:120-206 | the first loop ends with one input used up and what it has put out plus what is left still amounting to the merge |
| Dictionary.MergeRound | word-dictionary/main.go:121-205 | one round puts out the record with the smaller word, or the log's of two equal ones, indexes it and moves past it in one file, or in both when the words are equal |
| Dictionary.AppendCurrent | word-dictionary/main.go:209-245 | the second loop puts out and indexes the rest of the current file, and fails only if it is not whole records |
| Dictionary.AppendLog | word-dictionary/main.go:248-285 | the third loop puts out and indexes the rest of the log, and fails exactly if it is not whole records |
| Dictionary.ReadEntry | word-dictionary/main.go:122-150 | reading a prefix and then the payload finds a record exactly where one is whole, with its bytes and word |
| Dictionary.ResumeBoth | word-dictionary/main.go:152-191 | the branch taken by the comparison of the two words is the one the merge takes |
| ServerWeights.SortKeys | load-balancer/smooth_weighted_round_robin.go:78-84 | lists the map's keys once each in ascending byte order |
| ServerWeights.AddWeights | load-balancer/smooth_weighted_round_robin.go:64-67 | adds up every weight in the map, in whatever order |
| ServerWeights.CheckWeights | load-balancer/smooth_weighted_round_robin.go:59-84 | rejects an empty map, then a sum that is not 100, and otherwise accepts |
| SmoothRoundRobin.NeverRunsAhead | load-balancer/smooth_weighted_round_robin.go:102-126 | after every call the current weights sum to zero, each is calls times weight less 100 times picks, above -100 and at most 99 times the number of other servers |
| SmoothRoundRobin.ZeroAgain | load-balancer/smooth_weighted_round_robin.go:102-126 | after any multiple of 100 calls every current weight is zero |
| SmoothRoundRobin.Periodic | load-balancer/smooth_weighted_round_robin.go:102-126 | weights and picks repeat every 100 calls |
| SmoothRoundRobin.WindowIsExact | load-balancer/smooth_weighted_round_robin.go:94-128 | in any 100 consecutive calls, aligned or not, each server is picked exactly as often as its weight |
| SmoothRoundRobin.ExactSharesIffFair | load-balancer/smooth_weighted_round_robin.go:59-128 | shares are exact in every window if and only if no weight is negative and every server with a positive one is configured |
| SmoothRoundRobin.NegativeWeightIsAccepted | load-balancer/smooth_weighted_round_robin.go:64-71 | weights of 150 and -50 pass the constructor's check and their shares are not exact |
| Windows.AllExact | load-balancer/smooth_weighted_round_robin.go:94-128 | if a schedule repeats every 100 calls, every window of 100 has the shares of the first |
| SmoothRoundRobin.PickIsPositive | load-balancer/smooth_weighted_round_robin.go:102-112 | the key picked is one with the largest raised weight, which is positive, so the loop always finds one |
| SmoothRoundRobin.StepIsCalled | load-balancer/smooth_weighted_round_robin.go:94-128 | the step the schedule is made of is that call, failing or not |
| SmoothRoundRobin.UnconfiguredIsNeverPicked | load-balancer/smooth_weighted_round_robin.go:114-124 | a server that is not configured is never picked |
| SmoothRoundRobin.NewSmoothWeightedRoundRobin | load-balancer/smooth_weighted_round_robin.go:59-92 | rejects an empty map and, if it is not empty, a sum that is not 100; otherwise makes a scheduler with the keys in ascending order and every current weight zero |
| SmoothRoundRobin.SmoothWeightedRoundRobin.GetNext | load-balancer/smooth_weighted_round_robin.go:94-128 | without servers nothing changes; otherwise every weight rises by its fixed weight and the first key that comes to most is picked and loses 100 if it is configured; if it is not the call fails with the weights left raised; so a call is one step of the schedule |
| SmoothRoundRobin.SmoothWeightedRoundRobin.RaiseAll | load-balancer/smooth_weighted_round_robin.go:102-112 | the loop raises every weight by its fixed weight, once, and finds the first largest of the raised weights |
| ClassicRoundRobin.HitsAreWeights | load-balancer/classic_weighted_round_robin.go:66-83 | over the cycle of 100 requests the prefix sums reach each server as often as its weight |
| ClassicRoundRobin.ReachIsFirst | load-balancer/classic_weighted_round_robin.go:66-83 | the server a request reaches is the first one at which the weights added up in order are at least its number |
| ClassicRoundRobin.FirstWindow | load-balancer/classic_weighted_round_robin.go:56-95 | the first 100 calls pick each server as often as its weight |
| ClassicRoundRobin.WindowIsExact | load-balancer/classic_weighted_round_robin.go:56-95 | in any 100 consecutive calls each server is picked exactly as often as its weight |
| ClassicRoundRobin.ExactSharesIffFair | load-balancer/classic_weighted_round_robin.go:27-95 | shares are exact in every window if and only if no weight is negative and every server with a positive one is configured |
| ClassicRoundRobin.SchedulersAgree | load-balancer/classic_weighted_round_robin.go:56-95 | in any windows of 100 calls both schedulers give each server the same count |
| ClassicRoundRobin.NewClassicWeightedRoundRobin | load-balancer/classic_weighted_round_robin.go:27-54 | rejects an empty map and a sum that is not 100; otherwise makes a scheduler with the keys in ascending order and the counter at zero |
| ClassicRoundRobin.ClassicWeightedRoundRobin.GetNext | load-balancer/classic_weighted_round_robin.go:56-95 | without servers nothing changes; otherwise the counter moves on through its cycle, also when the call fails, and the server picked is the first one at which the weights added up in order reach it, if it is configured |
| OptimisticBooking.NoDoubleBooking | relational-db/exclusive-locks/optimisticlock/booking.go:47-92 | in every run, faults included: no seat goes to two workers, no worker has two, and each version is one more than the seat's committed bookings, two exactly when it is booked |
| OptimisticBooking.BookingIsFinal | relational-db/exclusive-locks/optimisticlock/booking.go:69-83 | a booked seat keeps its user for ever |
| OptimisticBooking.NextKeepsInv | relational-db/exclusive-locks/optimisticlock/booking.go:47-92 | every statement of every worker keeps rows, locks and workers in agreement |
| OptimisticProgress.ConflictsAreCharged | relational-db/exclusive-locks/optimisticlock/booking.go:60-81 | in every run, with any number of seats, the attempts a worker used up are its faults, the selects that found no seat and the seats it lost, each of those booked by a different other worker; and a select finds none only once every seat is booked |
| OptimisticProgress.FreeSeatExists | relational-db/exclusive-locks/optimisticlock/booking.go:60-67 | with a seat for every worker, a worker that has no seat always finds one free, whatever the others hold |
| OptimisticProgress.RunsEnd | relational-db/exclusive-locks/optimisticlock/booking.go:47-92 | every run is bounded, with any number of seats and whatever fails: three statements an attempt and two more, for each worker |
| OptimisticProgress.EveryWorkerBooks | relational-db/exclusive-locks/optimisticlock/booking.go:47-92 | with a seat for every worker, a worker whose transactions begin never gives up and has a seat in the end if its attempts cover the number of workers and its own faults; the faults of others cost it nothing |
| OptimisticProgress.GivingUpTakesBookings | relational-db/exclusive-locks/optimisticlock/booking.go:47-94 | a worker has given up only if booked seats and its own faults together are as many as the attempts, or every seat is booked |
| OptimisticProgress.FinishedRunBooks | relational-db/exclusive-locks/optimisticlock/booking.go:11-94 | a finished fault-free run has booked at least as many seats as there are attempts, workers or seats, whichever are fewest |
| OptimisticFewest.FewestBookings | relational-db/exclusive-locks/optimisticlock/booking.go:11-94 | every finished fault-free run books at least k seats if and only if k is at most the number of attempts, of workers and of seats |
| OptimisticFewest.FewestHappens | relational-db/exclusive-locks/optimisticlock/booking.go:11-94 | for any numbers of attempts, workers and seats a finished fault-free run that books no more seats than the fewest of them |
| OptimisticLimit.AttemptsMustCoverWorkers | relational-db/exclusive-locks/optimisticlock/booking.go:11-23 | given a seat for every worker, nobody gives up in any fault-free run if and only if the attempt limit is at least the number of workers |
| OptimisticLimit.AttemptsMustCoverFaults | relational-db/exclusive-locks/optimisticlock/booking.go:47-92 | given a seat for every worker, no worker with at most f faults of its own ever runs out of attempts, in any run, if and only if the limit is at least the number of workers plus f |
| OptimisticProgress.SomeoneCanStep | relational-db/exclusive-locks/optimisticlock/booking.go:69-83 | no deadlock, with any number of seats: if a worker is not done, some worker's next statement can run |
| OptimisticLimit.LosingRun | relational-db/exclusive-locks/optimisticlock/booking.go:47-94 | with fewer attempts than workers and own faults together there is a run that leaves a worker without a seat |
| OptimisticLock.Database.SelectFree | relational-db/exclusive-locks/optimisticlock/booking.go:60-67 | returns a free seat with its version, or rolls the attempt back when there is none |
| OptimisticLock.Database.UpdateSeat | relational-db/exclusive-locks/optimisticlock/booking.go:69-81 | changes a row exactly when its version is still the one read, and otherwise rolls back |
| OptimisticLock.Database.CommitSeat | relational-db/exclusive-locks/optimisticlock/booking.go:83-91 | the seat is then the worker's, with version two |
| OptimisticLock.Database.Rollback | relational-db/exclusive-locks/optimisticlock/booking.go:63-88 | a failed statement uses up the attempt, releases the worker's lock and changes no row otherwise |
| OptimisticLock.Database.Claim | relational-db/exclusive-locks/optimisticlock/booking.go:69-91 | update and commit book the selected seat or use up one attempt, whatever the others do; the worker has a fault exactly for each statement the database refused |
| OptimisticLock.Database.Attempt | relational-db/exclusive-locks/optimisticlock/booking.go:53-91 | one transaction books a seat, uses up one attempt, or ends the loop exactly if the database did not begin it; the worker has a fault exactly for each statement refused |
| OptimisticLock.Database.BookSeat | relational-db/exclusive-locks/optimisticlock/booking.go:29-95 | success names a seat that is the worker's own, any other outcome leaves it no seat and no lock; it panics exactly if a transaction could not begin; attempts run out only if booked seats and refused statements are as many as they, or every seat is booked; so with seats and attempts for every worker and nothing refused it succeeds |
| SkipLockedBooking.NoDoubleBooking | relational-db/exclusive-locks/updateskip/booking.go:43-87 | in every run, faults included: no two workers hold or book the same seat and a row's user is exactly the worker that booked it |
| SkipLockedBooking.BookingIsFinal | relational-db/exclusive-locks/updateskip/booking.go:59-80 | a booked seat keeps its user for ever |
| SkipLockedBooking.NextKeepsInv | relational-db/exclusive-locks/updateskip/booking.go:43-87 | every statement of every worker keeps rows, locks and workers in agreement |
| SkipLockedBooking.OpenSeatExists | relational-db/exclusive-locks/updateskip/booking.go:43-57 | with a seat for every worker, a select always finds a row that is free and not locked |
| SkipLockedBooking.EveryWorkerBooks | relational-db/exclusive-locks/updateskip/booking.go:27-88 | with at least as many seats as workers every run has at most three steps a worker, and in the end every worker whose own statements did not fail has booked on its single attempt |
| SkipLockedBooking.EndIsFull | relational-db/exclusive-locks/updateskip/booking.go:27-88 | a finished fault-free run has booked as many seats as there are workers or seats, whichever are fewer |
| SkipLockedBooking.SeatsMustCoverWorkers | relational-db/exclusive-locks/updateskip/booking.go:27-88 | every worker books in every finished fault-free run if and only if the seats are at least as many |
| SkipLock.Database.SelectForUpdate | relational-db/exclusive-locks/updateskip/booking.go:43-51 | locks a free row nobody has locked, and reports none only if every row is booked or locked |
| SkipLock.Database.UpdateSeat | relational-db/exclusive-locks/updateskip/booking.go:59-77 | always changes exactly one row, so the zero-rows branch is never taken |
| SkipLock.Database.CommitSeat | relational-db/exclusive-locks/updateskip/booking.go:79-84 | the seat is then the worker's and unlocked |
| SkipLock.Database.Rollback | relational-db/exclusive-locks/updateskip/booking.go:46-57 | the worker ends with no lock and no row is changed otherwise |
| SkipLock.Database.BookSeat | relational-db/exclusive-locks/updateskip/booking.go:27-88 | success names a seat that is the worker's own; any other outcome leaves it no seat and no lock; it is an error exactly if the database refused a statement, and "no seat" only with every row booked or locked, so never with a seat for every worker |
| ConnectionPool.GetNeverPopsEmpty | relational-db/exclusive-locks/db/db.go:40-59 | in every interleaving of the halves of Get and Put, whatever is put in, the stack holds one connection for every token and every call between its halves, and a Get that has its token never pops an empty stack |
| ConnectionPool.PoolIsSafe | relational-db/exclusive-locks/db/db.go:24-59 | if only borrowed connections are returned, in every interleaving a Put never waits, no connection has two holders and none is lost |
| ConnectionPool.PutWaitsIffForeign | relational-db/exclusive-locks/db/db.go:40-46 | a Put waits for room if and only if the connections put in that were not borrowed are at least as many as those in use |
| ConnectionPool.ForeignPutWaits | relational-db/exclusive-locks/db/db.go:40-46 | putting one connection into a full pool waits |
| ConnectionPool.GetWaitsIffAllInUse | relational-db/exclusive-locks/db/db.go:48-49 | a new Get waits if and only if every connection, foreign ones included, is borrowed or between the halves of a call |
| ConnectionPool.LastInFirstOut | relational-db/exclusive-locks/db/db.go:40-59 | the connection put in is the one the next pop lends if nobody pushes or pops in between |
| ConnectionPool.NextKeepsInv | relational-db/exclusive-locks/db/db.go:40-59 | each half of Get and of Put keeps the count and the one holder of every connection |
| ConnectionPool.ConnectionStack.constructor | relational-db/exclusive-locks/db/db.go:24-38 | fills stack and channel with one connection and one token each |
| ConnectionPool.ConnectionStack.PopLast | relational-db/exclusive-locks/db/db.go:51-56 | takes the last connection off the stack and lends it |
| ConnectionPool.ConnectionStack.Get | relational-db/exclusive-locks/db/db.go:48-59 | lends the last connection of the stack as it is after the token, which nobody else has unless foreign ones were put in, with other callers running before and between its halves, or waits only when there is no token |
| ConnectionPool.ConnectionStack.Put | relational-db/exclusive-locks/db/db.go:40-46 | takes any connection back, at the end of the stack; it finds room for its token, whatever other callers do between the two halves, unless foreign connections were put in |
| HashRing.AddMovesOnlyToAdded | consistent_hashing/main.go:35-51 | after adding a node every key keeps its owner or moves to that node, even if hosts share slots, and it moves exactly when one of the node's slots comes first |
| HashRing.DeleteMovesOnlyFromDeleted | consistent_hashing/main.go:53-74 | after deleting a node whose slots are its own a key changes owner only if that node owned it, even if the deletion panics |
| HashRing.DeleteKeepsOthersIffSafe | consistent_hashing/main.go:57-73 | a deletion changes the owner of no key but the deleted node's if and only if, when it panics, no slot is shared with another host and, when it does not, each slot the map gives to another host's node although the deleted host has it too is followed, clockwise, by a remaining slot of that same node |
| HashRing.DeleteDisturbsOthersIffShared | consistent_hashing/main.go:57-73 | a deletion, panicking or not, leaves every other host's keys on the very slots that served them if and only if the deleted host shares no slot with another |
| HashRing.PanicLosesShared | consistent_hashing/main.go:57-65 | a deletion that panics takes the owner from the key at each slot of the deleted host that is in the map, whoever it belonged to |
| HashRing.DeleteKeepsRing | consistent_hashing/main.go:57-73 | after a deletion sequence and map still agree if and only if it did not panic or had nothing to delete |
| HashRing.AddKeepsRing | consistent_hashing/main.go:39-50 | adding keeps the slots sorted and in agreement with the map |
| HashRingHistory.LookupIsClockwise | consistent_hashing/main.go:76-100 | at every point of a history without shared slots, sequence and map agree and a lookup gives the live node whose slot is first clockwise, wrapping round; only an empty ring panics on deletion, unchanged |
| HashRingHistory.HistoryIsForgotten | consistent_hashing/main.go:35-100 | without shared slots two histories that end with the same live nodes have the same map and the same owner for every hash value |
| HashRingHistory.ForgetsIffNoneShared | consistent_hashing/main.go:35-100 | that holds of a set of hosts if and only if no two of them share a slot |
| HashRingHistory.DeletionMovesOnlyItsKeys | consistent_hashing/main.go:53-74 | in such a history deleting a live node never panics and moves only that node's keys |
| HashRingHistory.AlwaysOrdered | consistent_hashing/main.go:47-73 | with any hash and after any history, panics included, the slots are sorted and include every slot in the map |
| HashRingHistory.SharedSlotsLoseNodes | consistent_hashing/main.go:57-73 | if all of a host's slots are also another's, deleting the other leaves the first live and without any key |
| HashRingWitness.SharingHappens | consistent_hashing/main.go:40-45 | a hash under which two hosts share one slot, so that the ring does not forget its history |
| HashRingWitness.DeletingBothBreaks | consistent_hashing/main.go:57-65 | under that hash adding both hosts and deleting both panics the second time and leaves 99 slots and an empty map |
| HashRingWitness.LiveNodeIsNotFound | consistent_hashing/main.go:88-99 | after that a lookup can find nothing although a node has been added and is live |
| HashRingPanic.PanicLosesKey | consistent_hashing/main.go:57-65 | a history in which deleting a live host panics and a key of another host's is found no more, although the slot they share is followed by a slot of that other host |
| ConsistentHashing.SearchFindsSuccessor | consistent_hashing/main.go:88-99 | in a sorted sequence the first slot not below the hash, or else the very first slot, is the nearest one clockwise |
| ConsistentHashing.ConsistentHashingRing.AddNode | consistent_hashing/main.go:35-51 | adds each of the host's slots to the sorted sequence once more and maps it to the node, whatever it was mapped to; the ring stays consistent |
| ConsistentHashing.ConsistentHashingRing.DeleteNode | consistent_hashing/main.go:53-74 | takes the host's slots out of the map, and then, unless the sequence has fewer than 100 slots, where the program panics, keeps of the sequence what is still in the map, as often as it was |
| ConsistentHashing.ConsistentHashingRing.GetNode | consistent_hashing/main.go:76-100 | gives the node of the first slot not below the key's hash, or of the very first, by binary search: the owner; and none for an empty ring |
| ConsistentHashing.ConsistentHashingRing.Search | consistent_hashing/main.go:88-91 | finds the least index whose slot is not below the hash |

## Left out

- BitcaskStore.BitCask.Put: takes records smaller than 2^32 bytes with a 32-bit timestamp, because larger ones do not fit the header; what the merge then makes of a file is `BitcaskCodec.ScanVisitsEveryRecord`.
- BitcaskStore.BitCask.Delete: takes keys whose record is smaller than 2^32 bytes, for the same reason.
- BitcaskCodec.ScanVisitsEveryRecord: its scan stops at a header whose record does not fit 32 bits, where the program goes on with the sum that has wrapped round, so nothing is said of what the program reads after it.
- Two merges at once, and a start from a directory that already has files: the code guards against neither and has no loader for either kind of file.
- Write, open, sync, rename and close faults, other than a merge that gives up on a file: file contents are one map from file to bytes.
- A merge segment whose rotation fails: the program then uses a nil segment.
- Corrupted records: the checksum is any function, and files hold only what the program wrote.
- `mergeFileOffset` and `mergeHintFileOffset`: the program writes them and never reads them.
- File names as strings: a file is a number and whether it is a merge segment, so "contains merge" is a test of its kind.
- Go's 64-bit integers in offsets, weights and counters: they are unbounded here.
- SmoothRoundRobin.NewSmoothWeightedRoundRobin: the weight map is a value, so a caller that changes the map it passed is not modelled; `requestCount` of the smooth scheduler is never used.
- OptimisticLock.Database.BookSeat: tells running out of attempts from success, where the program returns nil for both; and the panic of rolling back a transaction that could not begin ends one worker, where it ends the whole program.
- Waiting: a statement that waits for a lock and a Get that waits for a token are steps that are not enabled yet; fairness of the wait is not modelled.
- Real CRC-32 and CRC-64 values, timestamps and log output.
- The sort library: `sort.Strings` and `sort.Slice` are insertion sorts here; the sorted sequence is the same.
- The no-update and update variants of seat booking, the other load-balancing strategies and their HTTP forwarding, the id generators, upsert, and the server demos: SQL plumbing, input and output, or easier members of the same kind.
