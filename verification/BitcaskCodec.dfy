/** The byte layout of records and hints: checksum, timestamp, key size, value size (four
    bytes each) and a flag byte, then the key and the value. */
module BitcaskCodec {
  import opened Bytes
  import opened Wrappers
  import opened BitcaskModel
  import opened BitcaskLayout
  import opened BitcaskInvariant

  /** The checksum is any function from bytes to 32-bit numbers. */
  type Checksum = Bytes -> U32

  function Body(r: Record): Bytes {
    PutUint32(r.timestamp) + PutUint32(|r.key|) + PutUint32(|r.value|)
    + [if r.deleted then 1 else 0] + r.key + r.value
  }

  function Encode(crc: Checksum, r: Record): Bytes {
    PutUint32(crc(Body(r))) + Body(r)
  }

  function EncodeAll(crc: Checksum, rs: seq<Record>): Bytes {
    if rs == [] then [] else Encode(crc, rs[0]) + EncodeAll(crc, rs[1..])
  }

  // ---------- Reading a header ----------

  predicate HeaderFits(b: Bytes, at: nat) {
    at + HEADER_SIZE <= |b|
  }

  function TimestampAt(b: Bytes, at: nat): nat
    requires HeaderFits(b, at)
  {
    Uint32(b[at + 4..at + 8])
  }

  function KeySizeAt(b: Bytes, at: nat): nat
    requires HeaderFits(b, at)
  {
    Uint32(b[at + 8..at + 12])
  }

  function ValueSizeAt(b: Bytes, at: nat): nat
    requires HeaderFits(b, at)
  {
    Uint32(b[at + 12..at + 16])
  }

  function FlagAt(b: Bytes, at: nat): Byte
    requires HeaderFits(b, at)
  {
    b[at + 16]
  }

  /** The size the merge takes a record to have: the sum is taken in 32 bits. */
  function BlockSizeAt(b: Bytes, at: nat): nat
    requires HeaderFits(b, at)
  {
    (HEADER_SIZE + KeySizeAt(b, at) + ValueSizeAt(b, at)) % UINT32_RANGE
  }

  /** `b` holds the encoding of `r` from byte `at` on. */
  predicate Holds(crc: Checksum, b: Bytes, at: nat, r: Record) {
    at + Size(r) <= |b| && |Encode(crc, r)| == Size(r) && b[at..at + Size(r)] == Encode(crc, r)
  }

  lemma EncodeSize(crc: Checksum, r: Record)
    ensures |Encode(crc, r)| == Size(r)
  {
  }

  lemma EncodeParts(crc: Checksum, r: Record)
    ensures var e := Encode(crc, r);
      && |e| == Size(r)
      && e[..4] == PutUint32(crc(Body(r))) && e[4..] == Body(r)
      && e[4..8] == PutUint32(r.timestamp)
      && e[8..12] == PutUint32(|r.key|) && e[12..16] == PutUint32(|r.value|)
      && e[16] == (if r.deleted then 1 else 0)
  {
  }

  lemma EncodePayload(crc: Checksum, r: Record)
    ensures var e := Encode(crc, r);
      && |e| == Size(r)
      && e[HEADER_SIZE..HEADER_SIZE + |r.key|] == r.key && e[HEADER_SIZE + |r.key|..] == r.value
  {
  }

  /** Where each field of a record is, and in which byte order. */
  lemma RecordLayout(crc: Checksum, r: Record)
    ensures var e := Encode(crc, r);
      && |e| == 17 + |r.key| + |r.value|
      && LittleEndian(e[..4]) == crc(e[4..])
      && LittleEndian(e[4..8]) == r.timestamp % UINT32_RANGE
      && LittleEndian(e[8..12]) == |r.key| % UINT32_RANGE
      && LittleEndian(e[12..16]) == |r.value| % UINT32_RANGE
      && e[16] == (if r.deleted then 1 else 0)
      && e[17..17 + |r.key|] == r.key && e[17 + |r.key|..] == r.value
  {
    EncodeParts(crc, r);
    EncodePayload(crc, r);
    PutIsLittleEndian(crc(Body(r)));
    PutIsLittleEndian(r.timestamp);
    PutIsLittleEndian(|r.key|);
    PutIsLittleEndian(|r.value|);
    SmallModulo(crc(Body(r)), UINT32_RANGE);
  }

  lemma EncodedSizes(crc: Checksum, r: Record)
    requires Storable(r)
    ensures var e := Encode(crc, r); KeySizeAt(e, 0) == |r.key| && ValueSizeAt(e, 0) == |r.value|
  {
    var e := Encode(crc, r);
    EncodeParts(crc, r);
    Uint32Exact(e[8..12], |r.key|);
    Uint32Exact(e[12..16], |r.value|);
  }

  lemma EncodedTimestamp(crc: Checksum, r: Record)
    requires Storable(r)
    ensures var e := Encode(crc, r);
      TimestampAt(e, 0) == r.timestamp && FlagAt(e, 0) == (if r.deleted then 1 else 0)
  {
    var e := Encode(crc, r);
    EncodeParts(crc, r);
    Uint32Exact(e[4..8], r.timestamp);
  }

  lemma HeaderOfSlice(b: Bytes, at: nat, size: nat)
    requires HEADER_SIZE <= size && at + size <= |b|
    ensures var e := b[at..at + size];
      && TimestampAt(b, at) == TimestampAt(e, 0) && KeySizeAt(b, at) == KeySizeAt(e, 0)
      && ValueSizeAt(b, at) == ValueSizeAt(e, 0) && FlagAt(b, at) == FlagAt(e, 0)
  {
    SliceOfSlice(b, at, size, 4, 8);
    SliceOfSlice(b, at, size, 8, 12);
    SliceOfSlice(b, at, size, 12, 16);
  }

  /** A stored record is read back field by field. */
  lemma HeaderRoundTrip(crc: Checksum, b: Bytes, at: nat, r: Record)
    requires Storable(r) && Holds(crc, b, at, r)
    ensures HeaderFits(b, at)
    ensures TimestampAt(b, at) == r.timestamp && KeySizeAt(b, at) == |r.key| && ValueSizeAt(b, at) == |r.value|
    ensures FlagAt(b, at) == (if r.deleted then 1 else 0)
    ensures BlockSizeAt(b, at) == Size(r)
  {
    EncodedSizes(crc, r);
    EncodedTimestamp(crc, r);
    HeaderOfSlice(b, at, Size(r));
  }

  lemma PayloadRoundTrip(crc: Checksum, b: Bytes, at: nat, r: Record)
    requires Holds(crc, b, at, r)
    ensures var block := b[at..at + Size(r)];
      && block[HEADER_SIZE..HEADER_SIZE + |r.key|] == r.key && block[HEADER_SIZE + |r.key|..] == r.value
      && Uint32(block[..4]) == crc(block[4..])
  {
    EncodeParts(crc, r);
    EncodePayload(crc, r);
    Uint32Exact(Encode(crc, r)[..4], crc(Body(r)));
  }

  lemma EncodedSizesWrap(crc: Checksum, r: Record)
    ensures var e := Encode(crc, r);
      && HeaderFits(e, 0)
      && BlockSizeAt(e, 0) == BlockSizeOf(|r.key|, |r.value|)
  {
    EncodeParts(crc, r);
    Uint32RoundTrip(|r.key|);
    Uint32RoundTrip(|r.value|);
  }

  /** The block size the merge works out for a key and a value of these lengths. */
  function BlockSizeOf(keySize: nat, valueSize: nat): nat {
    (HEADER_SIZE + keySize % UINT32_RANGE + valueSize % UINT32_RANGE) % UINT32_RANGE
  }

  lemma BlockSizeWraps(keySize: nat, valueSize: nat)
    ensures BlockSizeOf(keySize, valueSize) == HEADER_SIZE + keySize + valueSize
        <==> HEADER_SIZE + keySize + valueSize < UINT32_RANGE
  {
  }

  /** The block size the merge works out for a record is its size exactly when that fits 32
      bits. */
  lemma BlockSizeExact(crc: Checksum, r: Record)
    ensures HeaderFits(Encode(crc, r), 0)
    ensures BlockSizeAt(Encode(crc, r), 0) == Size(r) <==> Size(r) < UINT32_RANGE
  {
    EncodedSizesWrap(crc, r);
    BlockSizeWraps(|r.key|, |r.value|);
  }

  /** A value of 4 GiB: the merge takes the record to end where its value begins. */
  lemma LargeValueIsMissed(crc: Checksum, r: Record)
    requires |r.key| < UINT32_RANGE - HEADER_SIZE && |r.value| == UINT32_RANGE
    ensures HeaderFits(Encode(crc, r), 0)
    ensures BlockSizeAt(Encode(crc, r), 0) == HEADER_SIZE + |r.key| == Size(r) - UINT32_RANGE
  {
    EncodedSizesWrap(crc, r);
    LargeSizeVanishes(|r.key|);
  }

  lemma LargeSizeVanishes(keySize: nat)
    requires keySize < UINT32_RANGE - HEADER_SIZE
    ensures BlockSizeOf(keySize, UINT32_RANGE) == HEADER_SIZE + keySize
  {
  }

  // ---------- Whole files ----------

  lemma {:induction false} EncodeAllSize(crc: Checksum, rs: seq<Record>)
    ensures |EncodeAll(crc, rs)| == TotalSize(rs)
  {
    if rs == [] {
    } else {
      EncodeAllSize(crc, rs[1..]);
    }
  }

  lemma {:induction false} EncodeAllAppend(crc: Checksum, rs: seq<Record>, r: Record)
    ensures EncodeAll(crc, rs + [r]) == EncodeAll(crc, rs) + Encode(crc, r)
  {
    if rs == [] {
      assert EncodeAll(crc, [r]) == Encode(crc, r) + EncodeAll(crc, []);
    } else {
      assert (rs + [r])[1..] == rs[1..] + [r];
      EncodeAllAppend(crc, rs[1..], r);
    }
  }

  /** The record at an offset is in the file's bytes at that offset. */
  lemma {:induction false} RecordIsHeld(crc: Checksum, rs: seq<Record>, at: nat)
    requires RecordAt(rs, at).Some?
    ensures Holds(crc, EncodeAll(crc, rs), at, RecordAt(rs, at).value)
  {
    var b := EncodeAll(crc, rs);
    var first, rest := Encode(crc, rs[0]), EncodeAll(crc, rs[1..]);
    EncodeSize(crc, rs[0]);
    if at == 0 {
      assert b[0..|first|] == first;
    } else {
      var r := RecordAt(rs, at).value;
      RecordExtent(rs[1..], at - Size(rs[0]), 0);
      RecordIsHeld(crc, rs[1..], at - Size(rs[0]));
      HoldsFurtherOn(crc, first, rest, at - |first|, r);
    }
  }

  lemma HoldsFurtherOn(crc: Checksum, first: Bytes, rest: Bytes, at: nat, r: Record)
    requires Holds(crc, rest, at, r)
    ensures Holds(crc, first + rest, |first| + at, r)
  {
    assert (first + rest)[|first| + at..|first| + at + Size(r)] == rest[at..at + Size(r)];
  }

  // ---------- The merge's scan of a file ----------

  datatype Visit = Visit(offset: nat, record: Record)

  /** The header is there, its sizes add up without wrapping round, and the file goes on for
      as long as they say. */
  predicate RecordFits(b: Bytes, at: nat) {
    && HeaderFits(b, at)
    && BlockSizeAt(b, at) == HEADER_SIZE + KeySizeAt(b, at) + ValueSizeAt(b, at)
    && at + BlockSizeAt(b, at) <= |b|
  }

  function RecordFrom(b: Bytes, at: nat): Record
    requires RecordFits(b, at)
  {
    var start := at + HEADER_SIZE;
    var middle := start + KeySizeAt(b, at);
    Record(TimestampAt(b, at), b[start..middle], b[middle..at + BlockSizeAt(b, at)], FlagAt(b, at) != 0)
  }

  /** The records a scan that goes from header to header visits, until the end of the file or
      a header that does not make sense. */
  function Scan(b: Bytes, at: nat): seq<Visit>
    decreases |b| - at
  {
    if !RecordFits(b, at) then []
    else [Visit(at, RecordFrom(b, at))] + Scan(b, at + BlockSizeAt(b, at))
  }

  function VisitsOf(rs: seq<Record>, from: nat): seq<Visit> {
    if rs == [] then [] else [Visit(from, rs[0])] + VisitsOf(rs[1..], from + Size(rs[0]))
  }

  lemma HeldFits(crc: Checksum, b: Bytes, at: nat, r: Record)
    requires Storable(r) && Holds(crc, b, at, r)
    ensures RecordFits(b, at) && BlockSizeAt(b, at) == Size(r)
  {
    HeaderRoundTrip(crc, b, at, r);
  }

  lemma DecodesTo(crc: Checksum, b: Bytes, at: nat, r: Record)
    requires Storable(r) && Holds(crc, b, at, r) && RecordFits(b, at)
    ensures RecordFrom(b, at) == r
  {
    HeaderRoundTrip(crc, b, at, r);
    PayloadInPlace(crc, b, at, r);
  }

  lemma PayloadInPlace(crc: Checksum, b: Bytes, at: nat, r: Record)
    requires Holds(crc, b, at, r)
    ensures var start := at + HEADER_SIZE; var middle := start + |r.key|;
      b[start..middle] == r.key && b[middle..at + Size(r)] == r.value
  {
    EncodePayload(crc, r);
    SliceOfSlice(b, at, Size(r), HEADER_SIZE, HEADER_SIZE + |r.key|);
    SliceOfSlice(b, at, Size(r), HEADER_SIZE + |r.key|, Size(r));
  }

  lemma ScanUnfolds(b: Bytes, at: nat, r: Record)
    requires RecordFits(b, at) && RecordFrom(b, at) == r
    ensures Scan(b, at) == [Visit(at, r)] + Scan(b, at + BlockSizeAt(b, at))
  {
  }

  lemma ScanStep(crc: Checksum, b: Bytes, at: nat, r: Record)
    requires Storable(r) && Holds(crc, b, at, r)
    ensures Scan(b, at) == [Visit(at, r)] + Scan(b, at + Size(r))
  {
    HeldFits(crc, b, at, r);
    DecodesTo(crc, b, at, r);
    ScanUnfolds(b, at, r);
  }

  lemma FirstIsHeld(crc: Checksum, b: Bytes, at: nat, rs: seq<Record>)
    requires at <= |b| && b[at..] == EncodeAll(crc, rs) && rs != []
    ensures Holds(crc, b, at, rs[0])
    ensures b[at + Size(rs[0])..] == EncodeAll(crc, rs[1..])
  {
    var first, rest := Encode(crc, rs[0]), EncodeAll(crc, rs[1..]);
    var tail := b[at..];
    EncodeSize(crc, rs[0]);
    assert tail == first + rest;
    assert b[at..at + |first|] == tail[..|first|];
    assert b[at + |first|..] == tail[|first|..];
  }

  lemma {:induction false} ScanVisitsRest(crc: Checksum, b: Bytes, at: nat, rs: seq<Record>)
    requires at <= |b| && b[at..] == EncodeAll(crc, rs)
    requires forall r | r in rs :: Storable(r)
    ensures Scan(b, at) == VisitsOf(rs, at)
    decreases rs
  {
    if rs == [] {
    } else {
      FirstIsHeld(crc, b, at, rs);
      ScanStep(crc, b, at, rs[0]);
      ScanVisitsRest(crc, b, at + Size(rs[0]), rs[1..]);
    }
  }

  /** What the scan decodes fits the header's fields and their 32-bit sum. */
  lemma DecodedIsStorable(b: Bytes, at: nat)
    requires RecordFits(b, at)
    ensures Storable(RecordFrom(b, at)) && Size(RecordFrom(b, at)) == BlockSizeAt(b, at)
  {
  }

  lemma {:induction false} ScannedAreStorable(b: Bytes, at: nat, v: Visit)
    requires v in Scan(b, at)
    ensures Storable(v.record)
    decreases |b| - at
  {
    DecodedIsStorable(b, at);
    var next := at + BlockSizeAt(b, at);
    assert Scan(b, at) == [Visit(at, RecordFrom(b, at))] + Scan(b, next);
    if v != Visit(at, RecordFrom(b, at)) {
      ScannedAreStorable(b, next, v);
    }
  }

  lemma {:induction false} EachIsVisited(rs: seq<Record>, from: nat, r: Record) returns (v: Visit)
    requires r in rs
    ensures v in VisitsOf(rs, from) && v.record == r
    decreases rs
  {
    if r == rs[0] {
      v := Visit(from, r);
    } else {
      v := EachIsVisited(rs[1..], from + Size(rs[0]), r);
    }
  }

  /** Scanning a file visits exactly the records that were written, each at its offset and in
      the order they were written, if and only if every one of them fits the header. */
  lemma ScanVisitsEveryRecord(crc: Checksum, rs: seq<Record>)
    ensures Scan(EncodeAll(crc, rs), 0) == VisitsOf(rs, 0) <==> forall r | r in rs :: Storable(r)
  {
    var b := EncodeAll(crc, rs);
    assert b[0..] == b;
    if forall r | r in rs :: Storable(r) {
      ScanVisitsRest(crc, b, 0, rs);
    }
    if Scan(b, 0) == VisitsOf(rs, 0) {
      forall r | r in rs ensures Storable(r) {
        var v := EachIsVisited(rs, 0, r);
        ScannedAreStorable(b, 0, v);
      }
    }
  }

  // ---------- Hints ----------

  function EncodeHint(h: Hint): (b: Bytes)
    ensures |b| == HintSize(h)
  {
    PutUint32(|h.key|) + PutUint32(h.valueSize) + PutUint64(h.offset) + h.key
  }

  function EncodeHints(hs: seq<Hint>): Bytes {
    if hs == [] then [] else EncodeHint(hs[0]) + EncodeHints(hs[1..])
  }

  function DecodeHints(b: Bytes): Option<seq<Hint>>
    decreases |b|
  {
    if b == [] then Some([])
    else if |b| < 16 then None
    else
      var k := Uint32(b[..4]);
      if |b| < 16 + k then None
      else
        match DecodeHints(b[16 + k..])
        case None => None
        case Some(rest) => Some([Hint(b[16..16 + k], Uint32(b[4..8]), Uint64(b[8..16]))] + rest)
  }

  predicate HintFits(h: Hint) {
    |h.key| < UINT32_RANGE && h.valueSize < UINT32_RANGE && h.offset < UINT64_RANGE
  }

  lemma {:induction false} EncodeHintsAppend(hs: seq<Hint>, h: Hint)
    ensures EncodeHints(hs + [h]) == EncodeHints(hs) + EncodeHint(h)
  {
    if hs == [] {
      assert EncodeHints([h]) == EncodeHint(h) + EncodeHints([]);
    } else {
      assert (hs + [h])[1..] == hs[1..] + [h];
      EncodeHintsAppend(hs[1..], h);
    }
  }

  lemma {:induction false} EncodeHintsSize(hs: seq<Hint>)
    ensures |EncodeHints(hs)| == HintsSize(hs)
  {
    if hs == [] {
    } else {
      EncodeHintsSize(hs[1..]);
    }
  }

  lemma HintParts(h: Hint, rest: Bytes)
    ensures var b := EncodeHint(h) + rest;
      && b[..4] == PutUint32(|h.key|) && b[4..8] == PutUint32(h.valueSize) && b[8..16] == PutUint64(h.offset)
      && b[16..16 + |h.key|] == h.key && b[16 + |h.key|..] == rest
  {
  }

  /** Where each field of a hint is, and in which byte order. */
  lemma HintLayout(h: Hint)
    ensures var b := EncodeHint(h);
      && |b| == 16 + |h.key|
      && LittleEndian(b[..4]) == |h.key| % UINT32_RANGE
      && LittleEndian(b[4..8]) == h.valueSize % UINT32_RANGE
      && LittleEndian(b[8..16]) == h.offset % UINT64_RANGE
      && b[16..] == h.key
  {
    HintParts(h, []);
    assert EncodeHint(h) + [] == EncodeHint(h);
    PutIsLittleEndian(|h.key|);
    PutIsLittleEndian(h.valueSize);
    Uint64RoundTrip(h.offset);
    Uint64IsLittleEndian(PutUint64(h.offset));
  }

  lemma HintFields(h: Hint, rest: Bytes)
    requires HintFits(h)
    ensures var b := EncodeHint(h) + rest;
      && Uint32(b[..4]) == |h.key| && Uint32(b[4..8]) == h.valueSize && Uint64(b[8..16]) == h.offset
  {
    var b := EncodeHint(h) + rest;
    HintParts(h, rest);
    Uint32Exact(b[..4], |h.key|);
    Uint32Exact(b[4..8], h.valueSize);
    Uint64Exact(b[8..16], h.offset);
  }

  lemma DecodeFirstHint(h: Hint, rest: Bytes)
    requires HintFits(h) && DecodeHints(rest).Some?
    ensures DecodeHints(EncodeHint(h) + rest) == Some([h] + DecodeHints(rest).value)
  {
    HintFields(h, rest);
    HintParts(h, rest);
  }

  lemma {:induction false} HintsRoundTrip(hs: seq<Hint>)
    requires forall h | h in hs :: HintFits(h)
    ensures DecodeHints(EncodeHints(hs)) == Some(hs)
  {
    if hs == [] {
    } else {
      var h := hs[0];
      assert HintFits(h);
      HintsRoundTrip(hs[1..]);
      DecodeFirstHint(h, EncodeHints(hs[1..]));
      assert hs == [h] + hs[1..];
    }
  }

  lemma {:induction false} HintsForFit(rs: seq<Record>, from: nat)
    requires forall r | r in rs :: Storable(r)
    requires from + TotalSize(rs) < UINT64_RANGE
    ensures forall h | h in HintsFor(rs, from) :: HintFits(h)
  {
    if rs == [] {
    } else {
      HintsForFit(rs[1..], from + Size(rs[0]));
      assert Storable(rs[0]);
      forall h | h in HintsFor(rs, from) ensures HintFits(h) {
        assert h == HintsFor(rs, from)[0] || h in HintsFor(rs[1..], from + Size(rs[0]));
      }
    }
  }

  /** The hint file of every merge segment decodes to the key, value size and offset of each
      record of its data file, one for one and in order. */
  lemma HintFileDescribesSegment(s: Store, n: nat)
    requires Inv(s) && n in s.hints
    ensures Merge(n) in s.files
    ensures DecodeHints(EncodeHints(s.hints[n])) == Some(HintsFor(s.files[Merge(n)], 0))
  {
    var rs := s.files[Merge(n)];
    assert FileOk(s, Merge(n), rs);
    assert TotalSize(rs) < UINT64_RANGE by {
      if |rs| == 1 {
        assert rs[0] in rs && TotalSize(rs) == Size(rs[0]) + TotalSize(rs[1..]);
      }
    }
    HintsForFit(rs, 0);
    HintsRoundTrip(s.hints[n]);
  }
}
