/** The dictionary file as a sequence of records, its byte format, the index over it, and the
    merge of a change log into it. */
module DictionaryModel {
  import opened Bytes
  import opened ByteOrder
  import opened Wrappers

  const PREFIX_SIZE := 4
  const MEANING_RANGE := 0x100_0000

  datatype Rec = Rec(word: Bytes, meaning: Bytes)

  /** Where a word's record starts and how many bytes it has. */
  datatype Meta = Meta(offset: nat, entrySize: nat)

  /** The word's length fits the one byte, the meaning's length the three bytes kept for them. */
  predicate Fits(r: Rec) {
    |r.word| < 256 && |r.meaning| < MEANING_RANGE
  }

  predicate AllFit(rs: seq<Rec>) {
    forall r | r in rs :: Fits(r)
  }

  function Size(r: Rec): nat {
    PREFIX_SIZE + |r.word| + |r.meaning|
  }

  /** The length prefix; lengths that do not fit are cut down to their low bytes. */
  function Prefix(wordSize: nat, meaningSize: nat): (b: Bytes)
    ensures |b| == PREFIX_SIZE
  {
    [wordSize % 256, meaningSize / 0x1_0000 % 256, meaningSize / 0x100 % 256, meaningSize % 256]
  }

  function Encode(r: Rec): (b: Bytes)
    ensures |b| == Size(r)
  {
    Prefix(|r.word|, |r.meaning|) + r.word + r.meaning
  }

  function EncodeAll(rs: seq<Rec>): Bytes {
    if rs == [] then [] else Encode(rs[0]) + EncodeAll(rs[1..])
  }

  function WordSizeAt(b: Bytes, at: nat): nat
    requires at + PREFIX_SIZE <= |b|
  {
    b[at]
  }

  function MeaningSizeAt(b: Bytes, at: nat): (n: nat)
    requires at + PREFIX_SIZE <= |b|
    ensures n < MEANING_RANGE
  {
    var high: nat, middle: nat, low: nat := b[at + 1], b[at + 2], b[at + 3];
    0x1_0000 * high + 0x100 * middle + low
  }

  /** The record whose prefix is at `at`, if prefix and payload are all there. */
  function EntryAt(b: Bytes, at: nat): Option<Rec> {
    if at + PREFIX_SIZE > |b| then None
    else
      var start := at + PREFIX_SIZE;
      var middle := start + WordSizeAt(b, at);
      var end := middle + MeaningSizeAt(b, at);
      if end > |b| then None else Some(Rec(b[start..middle], b[middle..end]))
  }

  /** The whole records that make up `b` from `at` to its end, if that is what it holds. */
  function Parse(b: Bytes, at: nat): Option<seq<Rec>>
    decreases |b| - at
  {
    if at >= |b| then Some([])
    else
      match EntryAt(b, at)
      case None => None
      case Some(r) =>
        match Parse(b, at + Size(r))
        case None => None
        case Some(rest) => Some([r] + rest)
  }

  // ---------- Round trips ----------

  lemma MeaningSizeRoundTrip(n: nat)
    ensures n / 0x1_0000 % 256 * 0x1_0000 + n / 0x100 % 256 * 0x100 + n % 256 == n % MEANING_RANGE
  {
    var q1, q2 := n / 0x100, n / 0x1_0000;
    assert n == 0x100 * q1 + n % 256;
    assert q2 == q1 / 0x100 && q1 == 0x100 * q2 + q1 % 256;
  }

  /** Where the parts of an entry are: the word's length in one byte, the meaning's in three,
      most significant first, then the word and the meaning. */
  lemma EntryLayout(r: Rec)
    ensures var e := Encode(r);
      && |e| == 4 + |r.word| + |r.meaning|
      && e[0] == |r.word| % 256 && BigEndian(e[1..4]) == |r.meaning| % MEANING_RANGE
      && e[4..4 + |r.word|] == r.word && e[4 + |r.word|..] == r.meaning
  {
    var e, n := Encode(r), |r.meaning|;
    assert e[1..4] == [n / 0x1_0000 % 256, n / 0x100 % 256, n % 256];
    BigEndianOfThree(n / 0x1_0000 % 256, n / 0x100 % 256, n % 256);
    MeaningSizeRoundTrip(n);
  }

  /** The program reads the three bytes of a meaning's length in that order too. */
  lemma MeaningSizeIsBigEndian(b: Bytes, at: nat)
    requires at + PREFIX_SIZE <= |b|
    ensures MeaningSizeAt(b, at) == BigEndian(b[at + 1..at + 4])
  {
    BigEndianOfThree(b[at + 1], b[at + 2], b[at + 3]);
    assert b[at + 1..at + 4] == [b[at + 1], b[at + 2], b[at + 3]];
  }

  lemma BigEndianOfThree(high: Byte, middle: Byte, low: Byte)
    ensures BigEndian([high, middle, low]) == 0x1_0000 * high + 0x100 * middle + low
  {
    var b := [high, middle, low];
    assert b[..2] == [high, middle] && b[..2][..1] == [high] && [high][..0] == [];
    assert BigEndian(b) == 256 * BigEndian(b[..2]) + low;
    assert BigEndian(b[..2]) == 256 * BigEndian(b[..2][..1]) + middle;
  }

  lemma PrefixRead(b: Bytes, at: nat, wordSize: nat, meaningSize: nat)
    requires at + PREFIX_SIZE <= |b| && b[at..at + PREFIX_SIZE] == Prefix(wordSize, meaningSize)
    ensures WordSizeAt(b, at) == wordSize % 256 && MeaningSizeAt(b, at) == meaningSize % MEANING_RANGE
  {
    var p := b[at..at + PREFIX_SIZE];
    assert p[0] == b[at] && p[1] == b[at + 1] && p[2] == b[at + 2] && p[3] == b[at + 3];
    MeaningSizeRoundTrip(meaningSize);
  }

  /** `b` holds the encoding of `r` at `at`. */
  predicate Holds(b: Bytes, at: nat, r: Rec) {
    at + Size(r) <= |b| && b[at..at + Size(r)] == Encode(r)
  }

  lemma HoldsParts(b: Bytes, at: nat, r: Rec)
    requires Holds(b, at, r)
    ensures var start := at + PREFIX_SIZE;
      && b[at..start] == Prefix(|r.word|, |r.meaning|)
      && b[start..start + |r.word|] == r.word
      && b[start + |r.word|..start + |r.word| + |r.meaning|] == r.meaning
  {
    var e := Encode(r);
    assert e[0..PREFIX_SIZE] == Prefix(|r.word|, |r.meaning|);
    assert e[PREFIX_SIZE..PREFIX_SIZE + |r.word|] == r.word && e[PREFIX_SIZE + |r.word|..Size(r)] == r.meaning;
    SliceOfSlice(b, at, Size(r), 0, PREFIX_SIZE);
    SliceOfSlice(b, at, Size(r), PREFIX_SIZE, PREFIX_SIZE + |r.word|);
    SliceOfSlice(b, at, Size(r), PREFIX_SIZE + |r.word|, Size(r));
  }

  lemma HeldIsRead(b: Bytes, at: nat, r: Rec)
    requires Fits(r) && Holds(b, at, r)
    ensures EntryAt(b, at) == Some(r)
  {
    HoldsParts(b, at, r);
    PrefixRead(b, at, |r.word|, |r.meaning|);
    SmallModulo(|r.word|, 256);
    SmallModulo(|r.meaning|, MEANING_RANGE);
    assert WordSizeAt(b, at) == |r.word| && MeaningSizeAt(b, at) == |r.meaning|;
    var start := at + PREFIX_SIZE;
    var middle := start + |r.word|;
    assert EntryAt(b, at) == Some(Rec(b[start..middle], b[middle..middle + |r.meaning|]));
  }

  /** A record reads back as itself exactly when its lengths fit their bytes. The documented
      limit of 256 for a word is one too many. */
  lemma ReadsBackIffFits(r: Rec)
    ensures EntryAt(Encode(r), 0) == Some(r) <==> Fits(r)
  {
    var b := Encode(r);
    assert b[0..Size(r)] == b;
    if Fits(r) {
      HeldIsRead(b, 0, r);
    }
    if EntryAt(b, 0) == Some(r) {
      EntryIsHeld(b, 0);
    }
  }

  lemma PrefixOfBytes(b: Bytes, at: nat)
    requires at + PREFIX_SIZE <= |b|
    ensures Prefix(WordSizeAt(b, at), MeaningSizeAt(b, at)) == b[at..at + PREFIX_SIZE]
  {
    var high: nat, middle: nat, low: nat := b[at + 1], b[at + 2], b[at + 3];
    var n := MeaningSizeAt(b, at);
    assert n == 0x1_0000 * high + 0x100 * middle + low;
    assert n / 0x1_0000 == high && n / 0x100 == 0x100 * high + middle;
    assert n / 0x100 % 256 == middle && n % 256 == low;
  }

  lemma EntryIsHeld(b: Bytes, at: nat)
    requires EntryAt(b, at).Some?
    ensures Fits(EntryAt(b, at).value) && Holds(b, at, EntryAt(b, at).value)
  {
    var r := EntryAt(b, at).value;
    PrefixOfBytes(b, at);
    var start := at + PREFIX_SIZE;
    assert |r.word| == WordSizeAt(b, at) && |r.meaning| == MeaningSizeAt(b, at);
    assert b[at..at + Size(r)] == b[at..start] + b[start..start + |r.word|] + b[start + |r.word|..at + Size(r)];
  }

  lemma {:induction false} EncodeAllAppend(rs: seq<Rec>, r: Rec)
    ensures EncodeAll(rs + [r]) == EncodeAll(rs) + Encode(r)
  {
    if rs == [] {
      assert EncodeAll([r]) == Encode(r) + EncodeAll([]);
    } else {
      assert (rs + [r])[1..] == rs[1..] + [r];
      EncodeAllAppend(rs[1..], r);
    }
  }

  lemma TailHolds(b: Bytes, at: nat, rs: seq<Rec>)
    requires at <= |b| && b[at..] == EncodeAll(rs) && rs != []
    ensures Holds(b, at, rs[0]) && b[at + Size(rs[0])..] == EncodeAll(rs[1..])
  {
    var tail, first := b[at..], Encode(rs[0]);
    assert b[at..at + |first|] == tail[..|first|];
    assert b[at + |first|..] == tail[|first|..];
  }

  lemma ParseStep(b: Bytes, at: nat, r: Rec)
    requires at < |b| && EntryAt(b, at) == Some(r)
    ensures var rest := Parse(b, at + Size(r));
      Parse(b, at) == if rest.Some? then Some([r] + rest.value) else None
  {
  }

  lemma FirstReads(b: Bytes, at: nat, rs: seq<Rec>)
    requires at <= |b| && b[at..] == EncodeAll(rs) && rs != [] && AllFit(rs)
    ensures at < |b| && EntryAt(b, at) == Some(rs[0])
  {
    TailHolds(b, at, rs);
    assert rs[0] in rs;
    HeldIsRead(b, at, rs[0]);
  }

  lemma TailIsWhole(b: Bytes, at: nat, rs: seq<Rec>)
    requires at <= |b| && b[at..] == EncodeAll(rs) && rs != [] && AllFit(rs)
    ensures at + Size(rs[0]) <= |b| && b[at + Size(rs[0])..] == EncodeAll(rs[1..]) && AllFit(rs[1..])
  {
    TailHolds(b, at, rs);
    assert forall r | r in rs[1..] :: r in rs;
  }

  /** Reading record after record from `at` gives `rs` and comes to the end of `b`. */
  predicate Reads(b: Bytes, at: nat, rs: seq<Rec>)
    decreases |rs|
  {
    if rs == [] then at == |b|
    else at < |b| && EntryAt(b, at) == Some(rs[0]) && Reads(b, at + Size(rs[0]), rs[1..])
  }

  lemma {:induction false} EncodedReads(b: Bytes, at: nat, rs: seq<Rec>)
    requires at <= |b| && b[at..] == EncodeAll(rs) && AllFit(rs)
    ensures Reads(b, at, rs)
    decreases |rs|
  {
    if rs == [] {
    } else {
      FirstReads(b, at, rs);
      TailIsWhole(b, at, rs);
      EncodedReads(b, at + Size(rs[0]), rs[1..]);
    }
  }

  lemma {:induction false} ReadIsParsed(b: Bytes, at: nat, rs: seq<Rec>)
    requires Reads(b, at, rs)
    ensures Parse(b, at) == Some(rs)
    decreases |rs|
  {
    if rs == [] {
    } else {
      ReadIsParsed(b, at + Size(rs[0]), rs[1..]);
      ParseStep(b, at, rs[0]);
      assert rs == [rs[0]] + rs[1..];
    }
  }

  /** A file of whole records parses as the records it is made of. */
  lemma EncodedParses(b: Bytes, at: nat, rs: seq<Rec>)
    requires at <= |b| && b[at..] == EncodeAll(rs) && AllFit(rs)
    ensures Parse(b, at) == Some(rs)
  {
    EncodedReads(b, at, rs);
    ReadIsParsed(b, at, rs);
  }

  /** What parses is the concatenation of the records it parses to, and nothing else. */
  lemma {:induction false} ParsedIsEncoded(b: Bytes, at: nat)
    requires at <= |b| && Parse(b, at).Some?
    ensures AllFit(Parse(b, at).value) && b[at..] == EncodeAll(Parse(b, at).value)
    decreases |b| - at
  {
    if at == |b| {
    } else {
      var r := EntryAt(b, at).value;
      EntryIsHeld(b, at);
      var rest := Parse(b, at + Size(r)).value;
      ParsedIsEncoded(b, at + Size(r));
      EncodedFirst(b, at, r, rest);
      ParseStep(b, at, r);
    }
  }

  lemma EncodedFirst(b: Bytes, at: nat, r: Rec, rest: seq<Rec>)
    requires Holds(b, at, r) && b[at + Size(r)..] == EncodeAll(rest)
    ensures b[at..] == EncodeAll([r] + rest)
  {
    assert ([r] + rest)[1..] == rest;
    assert b[at..] == b[at..at + Size(r)] + b[at + Size(r)..];
  }

  // ---------- Merging a change log ----------

  /** The two-way merge: of two equal words the change log's record is kept and the current
      one dropped. */
  function Combine(cur: seq<Rec>, log: seq<Rec>): seq<Rec> {
    if cur == [] then log
    else if log == [] then cur
    else
      var cmp := Compare(cur[0].word, log[0].word);
      if cmp == 0 then [log[0]] + Combine(cur[1..], log[1..])
      else if cmp < 0 then [cur[0]] + Combine(cur[1..], log)
      else [log[0]] + Combine(cur, log[1..])
  }

  /** The current records the merge keeps, and those it drops. */
  function Split(cur: seq<Rec>, log: seq<Rec>): (seq<Rec>, seq<Rec>) {
    if cur == [] || log == [] then (cur, [])
    else
      var cmp := Compare(cur[0].word, log[0].word);
      if cmp == 0 then var (kept, dropped) := Split(cur[1..], log[1..]); (kept, [cur[0]] + dropped)
      else if cmp < 0 then var (kept, dropped) := Split(cur[1..], log); ([cur[0]] + kept, dropped)
      else Split(cur, log[1..])
  }

  /** `out` is made of the records of `a` and `b`, each kept in its order. */
  predicate Interleaves(out: seq<Rec>, a: seq<Rec>, b: seq<Rec>) {
    if out == [] then a == [] && b == []
    else
      || (a != [] && out[0] == a[0] && Interleaves(out[1..], a[1..], b))
      || (b != [] && out[0] == b[0] && Interleaves(out[1..], a, b[1..]))
  }

  function TotalSize(rs: seq<Rec>): nat {
    if rs == [] then 0 else Size(rs[0]) + TotalSize(rs[1..])
  }

  lemma {:induction false} InterleavesAlone(a: seq<Rec>)
    ensures Interleaves(a, a, []) && Interleaves(a, [], a)
  {
    if a == [] {
    } else {
      InterleavesAlone(a[1..]);
    }
  }

  lemma {:induction false} InterleavesSizes(out: seq<Rec>, a: seq<Rec>, b: seq<Rec>)
    requires Interleaves(out, a, b)
    ensures |out| == |a| + |b| && TotalSize(out) == TotalSize(a) + TotalSize(b)
  {
    if out == [] {
    } else if a != [] && out[0] == a[0] && Interleaves(out[1..], a[1..], b) {
      InterleavesSizes(out[1..], a[1..], b);
    } else {
      InterleavesSizes(out[1..], a, b[1..]);
    }
  }

  lemma {:induction false} EncodeAllSize(rs: seq<Rec>)
    ensures |EncodeAll(rs)| == TotalSize(rs)
  {
    if rs == [] {
    } else {
      EncodeAllSize(rs[1..]);
    }
  }

  lemma {:induction false} CombineInterleaves(cur: seq<Rec>, log: seq<Rec>)
    ensures Interleaves(Combine(cur, log), Split(cur, log).0, log)
    ensures Interleaves(cur, Split(cur, log).0, Split(cur, log).1)
    decreases |cur| + |log|
  {
    if cur == [] || log == [] {
      InterleavesAlone(cur);
      InterleavesAlone(log);
    } else {
      var cmp := Compare(cur[0].word, log[0].word);
      if cmp == 0 {
        CombineInterleaves(cur[1..], log[1..]);
      } else if cmp < 0 {
        CombineInterleaves(cur[1..], log);
      } else {
        CombineInterleaves(cur, log[1..]);
      }
    }
  }

  lemma {:induction false} DroppedAreReplaced(cur: seq<Rec>, log: seq<Rec>)
    ensures forall r | r in Split(cur, log).1 :: exists l :: l in log && l.word == r.word
    decreases |cur| + |log|
  {
    if cur == [] || log == [] {
    } else {
      var cmp := Compare(cur[0].word, log[0].word);
      CompareEqual(cur[0].word, log[0].word);
      if cmp == 0 {
        DroppedAreReplaced(cur[1..], log[1..]);
        assert log[0] in log;
      } else if cmp < 0 {
        DroppedAreReplaced(cur[1..], log);
      } else {
        DroppedAreReplaced(cur, log[1..]);
      }
    }
  }

  /** Whatever the order of the words, the merged file is the change log interleaved with the
      current records that were kept, each in its own order; the current file is what was kept
      interleaved with what was dropped, and only a record whose word the log has is dropped.
      So the merged length is both lengths less the dropped records. */
  lemma CombineIsOrderPreserving(cur: seq<Rec>, log: seq<Rec>)
    ensures var (kept, dropped) := Split(cur, log);
      && Interleaves(Combine(cur, log), kept, log) && Interleaves(cur, kept, dropped)
      && (forall r | r in dropped :: exists l :: l in log && l.word == r.word)
      && |Combine(cur, log)| == |cur| + |log| - |dropped|
      && |EncodeAll(Combine(cur, log))| == |EncodeAll(cur)| + |EncodeAll(log)| - |EncodeAll(dropped)|
  {
    var (kept, dropped) := Split(cur, log);
    CombineInterleaves(cur, log);
    DroppedAreReplaced(cur, log);
    InterleavesSizes(Combine(cur, log), kept, log);
    InterleavesSizes(cur, kept, dropped);
    EncodeAllSize(Combine(cur, log));
    EncodeAllSize(cur);
    EncodeAllSize(log);
    EncodeAllSize(dropped);
  }

  // ---------- Sorted files ----------

  ghost predicate Sorted(rs: seq<Rec>) {
    forall i, j :: 0 <= i < j < |rs| ==> Below(rs[i].word, rs[j].word)
  }

  ghost predicate AllAbove(w: Bytes, rs: seq<Rec>) {
    forall r | r in rs :: Below(w, r.word)
  }

  /** The meaning each word has: that of its last record. */
  function Meanings(rs: seq<Rec>): map<Bytes, Bytes> {
    if rs == [] then map[] else map[rs[0].word := rs[0].meaning] + Meanings(rs[1..])
  }

  lemma {:induction false} CombineMembers(cur: seq<Rec>, log: seq<Rec>)
    ensures forall r | r in Combine(cur, log) :: r in cur || r in log
    decreases |cur| + |log|
  {
    if cur == [] || log == [] {
    } else {
      var cmp := Compare(cur[0].word, log[0].word);
      if cmp == 0 {
        CombineMembers(cur[1..], log[1..]);
      } else if cmp < 0 {
        CombineMembers(cur[1..], log);
      } else {
        CombineMembers(cur, log[1..]);
      }
    }
  }

  lemma SortedCons(r: Rec, rs: seq<Rec>)
    requires Sorted(rs) && AllAbove(r.word, rs)
    ensures Sorted([r] + rs)
  {
  }

  lemma SortedTail(rs: seq<Rec>)
    requires Sorted(rs) && rs != []
    ensures Sorted(rs[1..]) && AllAbove(rs[0].word, rs[1..])
  {
  }

  lemma AboveIsTransitive(v: Bytes, w: Bytes, rs: seq<Rec>)
    requires Below(v, w) && AllAbove(w, rs)
    ensures AllAbove(v, rs)
  {
    forall r | r in rs ensures Below(v, r.word) {
      BelowTransitive(v, w, r.word);
    }
  }

  /** A word below both heads is below everything the merge of the rests brings. */
  lemma HeadIsBelow(w: Bytes, cur: seq<Rec>, log: seq<Rec>)
    requires AllAbove(w, cur) && AllAbove(w, log)
    ensures AllAbove(w, Combine(cur, log))
  {
    CombineMembers(cur, log);
  }

  lemma SortedAbove(w: Bytes, rs: seq<Rec>)
    requires Sorted(rs) && rs != [] && Below(w, rs[0].word)
    ensures AllAbove(w, rs)
  {
    SortedTail(rs);
    AboveIsTransitive(w, rs[0].word, rs[1..]);
    forall r | r in rs ensures Below(w, r.word) {
      assert r == rs[0] || r in rs[1..];
    }
  }

  lemma {:induction false} CombineIsSorted(cur: seq<Rec>, log: seq<Rec>)
    requires Sorted(cur) && Sorted(log)
    ensures Sorted(Combine(cur, log))
    decreases |cur| + |log|
  {
    if cur == [] || log == [] {
    } else {
      var c, l := cur[0], log[0];
      SortedTail(cur);
      SortedTail(log);
      CompareEqual(c.word, l.word);
      CompareSwaps(c.word, l.word);
      if c.word == l.word {
        CombineIsSorted(cur[1..], log[1..]);
        HeadIsBelow(l.word, cur[1..], log[1..]);
        SortedCons(l, Combine(cur[1..], log[1..]));
      } else if Below(c.word, l.word) {
        CombineIsSorted(cur[1..], log);
        SortedAbove(c.word, log);
        HeadIsBelow(c.word, cur[1..], log);
        SortedCons(c, Combine(cur[1..], log));
      } else {
        CombineIsSorted(cur, log[1..]);
        SortedAbove(l.word, cur);
        HeadIsBelow(l.word, cur, log[1..]);
        SortedCons(l, Combine(cur, log[1..]));
      }
    }
  }

  lemma {:induction false} MeaningKeys(rs: seq<Rec>, w: Bytes)
    ensures w in Meanings(rs) <==> exists r :: r in rs && r.word == w
  {
    if rs == [] {
    } else {
      MeaningKeys(rs[1..], w);
      assert forall r :: r in rs <==> r == rs[0] || r in rs[1..];
    }
  }

  lemma AboveIsAbsent(w: Bytes, rs: seq<Rec>)
    requires AllAbove(w, rs)
    ensures w !in Meanings(rs)
  {
    MeaningKeys(rs, w);
    BelowTotal(w, w);
  }

  lemma MeaningsCons(r: Rec, rs: seq<Rec>)
    ensures Meanings([r] + rs) == map[r.word := r.meaning] + Meanings(rs)
  {
    assert ([r] + rs)[1..] == rs;
  }

  lemma OverridePast(w: Bytes, m: Bytes, a: map<Bytes, Bytes>, b: map<Bytes, Bytes>)
    requires w !in a
    ensures map[w := m] + (a + b) == a + (map[w := m] + b)
  {
  }

  lemma OverrideSame(w: Bytes, m: Bytes, m': Bytes, a: map<Bytes, Bytes>, b: map<Bytes, Bytes>)
    requires w !in a
    ensures map[w := m] + (a + b) == (map[w := m'] + a) + (map[w := m] + b)
  {
  }

  lemma EqualHeadsOverride(cur: seq<Rec>, log: seq<Rec>, merged: seq<Rec>)
    requires cur != [] && log != [] && cur[0].word == log[0].word
    requires AllAbove(cur[0].word, cur[1..])
    requires Meanings(merged) == Meanings(cur[1..]) + Meanings(log[1..])
    ensures Meanings([log[0]] + merged) == Meanings(cur) + Meanings(log)
  {
    AboveIsAbsent(cur[0].word, cur[1..]);
    MeaningsCons(log[0], merged);
    OverrideSame(log[0].word, log[0].meaning, cur[0].meaning, Meanings(cur[1..]), Meanings(log[1..]));
  }

  lemma CurrentHeadOverrides(cur: seq<Rec>, log: seq<Rec>, merged: seq<Rec>)
    requires cur != [] && Meanings(merged) == Meanings(cur[1..]) + Meanings(log)
    ensures Meanings([cur[0]] + merged) == Meanings(cur) + Meanings(log)
  {
    MeaningsCons(cur[0], merged);
    PlusAssociates(map[cur[0].word := cur[0].meaning], Meanings(cur[1..]), Meanings(log));
  }

  lemma PlusAssociates<K, V>(a: map<K, V>, b: map<K, V>, c: map<K, V>)
    ensures a + (b + c) == a + b + c
  {
  }

  lemma LogHeadOverrides(cur: seq<Rec>, log: seq<Rec>, merged: seq<Rec>)
    requires log != [] && AllAbove(log[0].word, cur)
    requires Meanings(merged) == Meanings(cur) + Meanings(log[1..])
    ensures Meanings([log[0]] + merged) == Meanings(cur) + Meanings(log)
  {
    AboveIsAbsent(log[0].word, cur);
    MeaningsCons(log[0], merged);
    OverridePast(log[0].word, log[0].meaning, Meanings(cur), Meanings(log[1..]));
  }

  /** Merging any change log into a sorted file: the current meanings, overridden by the log's. */
  lemma {:induction false} CombineOverrides(cur: seq<Rec>, log: seq<Rec>)
    requires Sorted(cur)
    ensures Meanings(Combine(cur, log)) == Meanings(cur) + Meanings(log)
    decreases |cur| + |log|
  {
    if cur == [] || log == [] {
    } else {
      SortedTail(cur);
      CompareEqual(cur[0].word, log[0].word);
      CompareSwaps(cur[0].word, log[0].word);
      var cmp := Compare(cur[0].word, log[0].word);
      if cmp == 0 {
        CombineOverrides(cur[1..], log[1..]);
        EqualHeadsOverride(cur, log, Combine(cur[1..], log[1..]));
      } else if cmp < 0 {
        CombineOverrides(cur[1..], log);
        CurrentHeadOverrides(cur, log, Combine(cur[1..], log));
      } else {
        SortedAbove(log[0].word, cur);
        CombineOverrides(cur, log[1..]);
        LogHeadOverrides(cur, log, Combine(cur, log[1..]));
      }
    }
  }

  /** A record that comes after one not below it keeps its word's old meaning: the merge puts
      the change out before it gets there. */
  lemma {:induction false} LaterRecordWins(cur: seq<Rec>, i: nat, j: nat, l: Rec)
    requires i < j < |cur| && !Below(cur[i].word, l.word) && cur[j].word == l.word
    ensures l.word in Meanings(cur) && l.word in Meanings(Combine(cur, [l]))
    ensures Meanings(Combine(cur, [l]))[l.word] == Meanings(cur)[l.word]
    decreases cur
  {
    var rest := cur[1..];
    assert rest[j - 1] in rest && cur[j] in cur;
    MeaningKeys(cur, l.word);
    MeaningKeys(rest, l.word);
    assert [l][1..] == [];
    var cmp := Compare(cur[0].word, l.word);
    if cmp < 0 {
      LaterRecordWins(rest, i - 1, j - 1, l);
      MeaningsCons(cur[0], Combine(rest, [l]));
    } else if cmp == 0 {
      assert Combine(rest, []) == rest;
      MeaningsCons(l, rest);
    } else {
      assert Combine(cur, []) == cur;
      MeaningsCons(l, cur);
    }
  }

  /** Every change log overrides the current meanings. */
  ghost predicate AlwaysOverridden(cur: seq<Rec>) {
    forall log | AllFit(log) :: Meanings(Combine(cur, log)) == Meanings(cur) + Meanings(log)
  }

  lemma UnsortedLosesChange(cur: seq<Rec>, i: nat, j: nat)
    requires AllFit(cur) && i < j < |cur| && !Below(cur[i].word, cur[j].word)
    ensures !AlwaysOverridden(cur)
  {
    var w := cur[j].word;
    assert cur[j] in cur && Fits(cur[j]);
    MeaningKeys(cur, w);
    var l := Rec(w, if Meanings(cur)[w] == [] then [0] else []);
    LaterRecordWins(cur, i, j, l);
    OneMeaning(l);
    assert AllFit([l]);
    assert (Meanings(cur) + Meanings([l]))[w] == l.meaning;
  }

  lemma OneMeaning(l: Rec)
    ensures Meanings([l]) == map[l.word := l.meaning]
  {
    assert [l][1..] == [];
  }

  /** Every change log overrides the current meanings if and only if the current file is
      strictly sorted. */
  lemma OverridesIffSorted(cur: seq<Rec>)
    requires AllFit(cur)
    ensures Sorted(cur) <==> AlwaysOverridden(cur)
  {
    if Sorted(cur) {
      forall log | AllFit(log) ensures Meanings(Combine(cur, log)) == Meanings(cur) + Meanings(log) {
        CombineOverrides(cur, log);
      }
    } else {
      var i, j :| 0 <= i < j < |cur| && !Below(cur[i].word, cur[j].word);
      UnsortedLosesChange(cur, i, j);
    }
  }

  /** Without the order a change can be lost: the file's own later record of the word wins. */
  lemma UnsortedFileKeepsOldMeaning()
    ensures var cur, log := [Rec([2], []), Rec([1], [7])], [Rec([1], [8])];
      Meanings(Combine(cur, log))[[1]] == [7] && (Meanings(cur) + Meanings(log))[[1]] == [8]
  {
    var b, old_, new_ := Rec([2], []), Rec([1], [7]), Rec([1], [8]);
    var cur, log := [b, old_], [new_];
    assert Compare([2], [1]) == 1;
    assert Combine(cur, []) == cur;
    assert log[1..] == [];
    MeaningsCons(new_, cur);
    MeaningsCons(b, [old_]);
    MeaningsCons(old_, []);
    MeaningsCons(new_, []);
  }

  // ---------- The index ----------

  /** The index of a file whose first record starts at `at`: every word, with the place and the
      size of its last record. */
  function Index(rs: seq<Rec>, at: nat): map<Bytes, Meta> {
    if rs == [] then map[] else map[rs[0].word := Meta(at, Size(rs[0]))] + Index(rs[1..], at + Size(rs[0]))
  }

  lemma PlusUpdated<K, V>(a: map<K, V>, b: map<K, V>, k: K, v: V)
    ensures a + b[k := v] == (a + b)[k := v]
  {
  }

  lemma {:induction false} IndexAppend(rs: seq<Rec>, at: nat, r: Rec)
    ensures Index(rs + [r], at) == Index(rs, at)[r.word := Meta(at + |EncodeAll(rs)|, Size(r))]
  {
    if rs == [] {
      assert [r][1..] == [];
    } else {
      assert (rs + [r])[1..] == rs[1..] + [r];
      IndexAppend(rs[1..], at + Size(rs[0]), r);
      PlusUpdated(map[rs[0].word := Meta(at, Size(rs[0]))], Index(rs[1..], at + Size(rs[0])),
                  r.word, Meta(at + |EncodeAll(rs)|, Size(r)));
    }
  }

  lemma {:induction false} MeaningsAppend(rs: seq<Rec>, r: Rec)
    ensures Meanings(rs + [r]) == Meanings(rs)[r.word := r.meaning]
  {
    if rs == [] {
    } else {
      assert (rs + [r])[1..] == rs[1..] + [r];
      MeaningsAppend(rs[1..], r);
    }
  }

  /** `rs[i]` is the last record for the word `w`. */
  predicate IsLast(rs: seq<Rec>, w: Bytes, i: int) {
    0 <= i < |rs| && rs[i].word == w && forall j | i < j < |rs| :: rs[j].word != w
  }

  lemma {:induction false} IndexNamesLast(rs: seq<Rec>, at: nat, w: Bytes) returns (i: int)
    ensures w in Index(rs, at) <==> w in Meanings(rs)
    ensures w in Index(rs, at) ==> IsLast(rs, w, i) && Meanings(rs)[w] == rs[i].meaning
    ensures w in Index(rs, at) ==> Index(rs, at)[w] == Meta(at + |EncodeAll(rs[..i])|, Size(rs[i]))
  {
    i := 0;
    if rs == [] {
    } else {
      var next := IndexNamesLast(rs[1..], at + Size(rs[0]), w);
      i := next + 1;
      if w in Index(rs[1..], at + Size(rs[0])) {
        assert rs[..i][1..] == rs[1..][..i - 1];
      } else {
        i := 0;
        forall j | 0 < j < |rs| ensures rs[j].word != w {
          MeaningKeys(rs[1..], w);
          assert rs[1..][j - 1] == rs[j];
        }
      }
    }
  }

  /** The record an index entry names is in the file's bytes at that offset. */
  lemma {:induction false} NthIsHeld(rs: seq<Rec>, i: nat)
    requires i < |rs|
    ensures Holds(EncodeAll(rs), |EncodeAll(rs[..i])|, rs[i])
  {
    var b := EncodeAll(rs);
    if i == 0 {
      assert b[0..] == b;
      TailHolds(b, 0, rs);
    } else {
      var first, rest := Encode(rs[0]), EncodeAll(rs[1..]);
      NthIsHeld(rs[1..], i - 1);
      assert rs[..i][1..] == rs[1..][..i - 1] && rs[1..][i - 1] == rs[i];
      assert b == first + rest;
      HeldFurtherOn(first, rest, |EncodeAll(rs[1..][..i - 1])|, rs[i]);
    }
  }

  lemma HeldFurtherOn(first: Bytes, rest: Bytes, at: nat, r: Rec)
    requires Holds(rest, at, r)
    ensures Holds(first + rest, |first| + at, r)
  {
    assert (first + rest)[|first| + at..|first| + at + Size(r)] == rest[at..at + Size(r)];
  }

  /** The index holds exactly the words in the file, and each entry gives the place and the
      exact size of the word's last record. */
  lemma IndexIsExact(rs: seq<Rec>, w: Bytes)
    ensures w in Index(rs, 0) <==> exists r :: r in rs && r.word == w
    ensures w in Index(rs, 0) ==>
      exists i :: IsLast(rs, w, i) && Index(rs, 0)[w] == Meta(|EncodeAll(rs[..i])|, Size(rs[i]))
  {
    var i := IndexNamesLast(rs, 0, w);
    MeaningKeys(rs, w);
  }
}
