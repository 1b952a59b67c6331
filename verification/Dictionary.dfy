/** The word dictionary: a file of records that is appended to, an index over it that is kept
    in memory, and an import that rewrites both from the file and a change log. */
module Dictionary {
  import opened Bytes
  import opened ByteOrder
  import opened Wrappers
  import opened DictionaryModel

  /** What an import leaves: the merged records, unless the file or the log is malformed. */
  function Imported(cur: Bytes, log: Bytes): Option<seq<Rec>> {
    Resume([], cur, 0, log, 0)
  }

  /** What an import ends with that has put out `out` and has the file from `at` on, and the log
      from `logAt` on, still to go. */
  function Resume(out: seq<Rec>, cur: Bytes, at: nat, log: Bytes, logAt: nat): Option<seq<Rec>> {
    match Parse(cur, at)
    case None => None
    case Some(cs) =>
      match Parse(log, logAt)
      case None => None
      case Some(ls) => Some(out + Combine(cs, ls))
  }

  lemma ImportedIsCombined(cur: Bytes, log: Bytes)
    ensures Imported(cur, log).Some? <==> Parse(cur, 0).Some? && Parse(log, 0).Some?
    ensures Imported(cur, log).Some? ==> Imported(cur, log).value == Combine(Parse(cur, 0).value, Parse(log, 0).value)
  {
    if Parse(cur, 0).Some? && Parse(log, 0).Some? {
      var merged := Combine(Parse(cur, 0).value, Parse(log, 0).value);
      assert [] + merged == merged;
    }
  }

  lemma PutOutFirst(out: seq<Rec>, r: Rec, rest: seq<Rec>)
    ensures out + ([r] + rest) == out + [r] + rest
  {
  }

  lemma CombineHeads(c: Rec, cs: seq<Rec>, l: Rec, ls: seq<Rec>)
    ensures var cmp := Compare(c.word, l.word);
      Combine([c] + cs, [l] + ls)
        == if cmp == 0 then [l] + Combine(cs, ls)
           else if cmp < 0 then [c] + Combine(cs, [l] + ls)
           else [l] + Combine([c] + cs, ls)
  {
    assert ([c] + cs)[1..] == cs && ([l] + ls)[1..] == ls;
  }

  /** Putting out the smaller head, or the log's of two equal ones, and moving past every head
      that is not greater leaves the outcome as it was. */
  lemma ResumeBoth(out: seq<Rec>, cur: Bytes, at: nat, log: Bytes, logAt: nat, c: Rec, l: Rec, cmp: int)
    requires at < |cur| && EntryAt(cur, at) == Some(c) && logAt < |log| && EntryAt(log, logAt) == Some(l)
    requires cmp == Compare(c.word, l.word)
    ensures Resume(out + [if cmp < 0 then c else l], cur, if cmp <= 0 then at + Size(c) else at,
                   log, if cmp >= 0 then logAt + Size(l) else logAt)
         == Resume(out, cur, at, log, logAt)
  {
    ParseStep(cur, at, c);
    ParseStep(log, logAt, l);
    if Parse(cur, at + Size(c)).Some? && Parse(log, logAt + Size(l)).Some? {
      var cs, ls := Parse(cur, at + Size(c)).value, Parse(log, logAt + Size(l)).value;
      CombineHeads(c, cs, l, ls);
      PutOutFirst(out, if cmp < 0 then c else l,
                  if cmp == 0 then Combine(cs, ls) else if cmp < 0 then Combine(cs, [l] + ls) else Combine([c] + cs, ls));
    }
  }

  lemma ResumeCurrent(out: seq<Rec>, cur: Bytes, at: nat, log: Bytes, logAt: nat, c: Rec)
    requires at < |cur| && EntryAt(cur, at) == Some(c) && logAt >= |log|
    ensures Resume(out, cur, at, log, logAt) == Resume(out + [c], cur, at + Size(c), log, logAt)
  {
    if Parse(cur, at + Size(c)).Some? {
      PutOutFirst(out, c, Parse(cur, at + Size(c)).value);
    }
  }

  lemma ResumeLog(out: seq<Rec>, cur: Bytes, at: nat, log: Bytes, logAt: nat, l: Rec)
    requires at >= |cur| && logAt < |log| && EntryAt(log, logAt) == Some(l)
    ensures Resume(out, cur, at, log, logAt) == Resume(out + [l], cur, at, log, logAt + Size(l))
  {
    if Parse(log, logAt + Size(l)).Some? {
      PutOutFirst(out, l, Parse(log, logAt + Size(l)).value);
    }
  }

  /** Reads the length prefix at an offset and then the whole record it announces. */
  method ReadEntry(b: Bytes, at: nat) returns (ok: bool, entry: Bytes, word: Bytes)
    ensures ok <==> EntryAt(b, at).Some?
    ensures ok ==> entry == Encode(EntryAt(b, at).value) && word == EntryAt(b, at).value.word
    ensures ok ==> Fits(EntryAt(b, at).value) && |entry| == Size(EntryAt(b, at).value) && at + |entry| <= |b|
  {
    entry, word := [], [];
    if at + PREFIX_SIZE > |b| {
      return false, entry, word;
    }
    var wordSize, meaningSize := WordSizeAt(b, at), MeaningSizeAt(b, at);
    var entrySize := PREFIX_SIZE + wordSize + meaningSize;
    if at + entrySize > |b| {
      return false, entry, word;
    }
    EntryIsHeld(b, at);
    entry := b[at..at + entrySize];
    word := entry[PREFIX_SIZE..PREFIX_SIZE + wordSize];
    SliceOfSlice(b, at, entrySize, PREFIX_SIZE, PREFIX_SIZE + wordSize);
    return true, entry, word;
  }

  /** A file being written, with its index and its length. */
  datatype Output = Output(bytes: Bytes, index: map<Bytes, Meta>, offset: nat)

  predicate Represents(o: Output, rs: seq<Rec>) {
    o.bytes == EncodeAll(rs) && o.index == Index(rs, 0) && o.offset == |o.bytes|
  }

  /** Appends a record's bytes and points the index at them. */
  function Emit(o: Output, entry: Bytes, word: Bytes): Output {
    Output(o.bytes + entry, o.index[word := Meta(o.offset, |entry|)], o.offset + |entry|)
  }

  lemma EmitRepresents(o: Output, rs: seq<Rec>, r: Rec)
    requires Represents(o, rs) && AllFit(rs) && Fits(r)
    ensures Represents(Emit(o, Encode(r), r.word), rs + [r]) && AllFit(rs + [r])
  {
    EncodeAllAppend(rs, r);
    IndexAppend(rs, 0, r);
  }

  /** An empty index describes an empty file and no other. */
  lemma EmptyIndexDescribes(existing: Bytes)
    ensures (exists rs :: Represents(Output(existing, map[], |existing|), rs)) <==> existing == []
  {
    if existing == [] {
      assert Represents(Output(existing, map[], |existing|), []);
    }
    forall rs: seq<Rec> | Represents(Output(existing, map[], |existing|), rs) ensures existing == [] {
      if rs != [] {
        assert rs[0].word in Index(rs, 0);
      }
    }
  }

  /** What is read back of a record, by the lengths in its prefix. */
  function ReadBack(r: Rec): Bytes {
    var wordSize, meaningSize := |r.word| % 256, |r.meaning| % MEANING_RANGE;
    (r.word + r.meaning)[wordSize..wordSize + meaningSize]
  }

  /** Byte by byte: what follows the word as its one length byte gives it, as far as the three
      length bytes of the meaning say. */
  lemma ReadBackIsExact(r: Rec)
    ensures |ReadBack(r)| == |r.meaning| % MEANING_RANGE
    ensures forall j | 0 <= j < |ReadBack(r)| :: ReadBack(r)[j] == (r.word + r.meaning)[|r.word| % 256 + j]
  {
    var start, size := |r.word| % 256, |r.meaning| % MEANING_RANGE;
    forall j | 0 <= j < size ensures ReadBack(r)[j] == (r.word + r.meaning)[start + j] {
      TakenByte(r.word + r.meaning, start, size, j);
    }
  }

  lemma TakenByte(b: Bytes, start: nat, size: nat, j: nat)
    requires start + size <= |b| && j < size
    ensures b[start..start + size][j] == b[start + j]
  {
  }

  lemma FittingReadsBack(r: Rec)
    requires Fits(r)
    ensures ReadBack(r) == r.meaning
  {
  }

  lemma PrefixOfEncoding(r: Rec)
    ensures var e := Encode(r);
      && WordSizeAt(e, 0) == |r.word| % 256 && MeaningSizeAt(e, 0) == |r.meaning| % MEANING_RANGE
      && e[PREFIX_SIZE..] == r.word + r.meaning
  {
    var e := Encode(r);
    assert e[0..Size(r)] == e;
    HoldsParts(e, 0, r);
    PrefixRead(e, 0, |r.word|, |r.meaning|);
  }

  method ReadMeaning(entry: Bytes, ghost r: Rec) returns (meaning: Bytes)
    requires entry == Encode(r)
    ensures meaning == ReadBack(r)
  {
    PrefixOfEncoding(r);
    var wordSize, meaningSize := WordSizeAt(entry, 0), MeaningSizeAt(entry, 0);
    meaning := entry[PREFIX_SIZE + wordSize..PREFIX_SIZE + wordSize + meaningSize];
    assert meaning == entry[PREFIX_SIZE..][wordSize..wordSize + meaningSize];
  }

  lemma InsertDescribes(base: Bytes, rs: seq<Rec>, r: Rec)
    ensures base + EncodeAll(rs) + Encode(r) == base + EncodeAll(rs + [r])
    ensures Index(rs + [r], |base|) == Index(rs, |base|)[r.word := Meta(|base + EncodeAll(rs)|, Size(r))]
  {
    EncodeAllAppend(rs, r);
    IndexAppend(rs, |base|, r);
  }

  class WordDictionary {
    var file: Bytes
    var wordMetaMap: map<Bytes, Meta>
    var currentOffset: nat
    /** What the file held when it was opened, and the records the index covers since. */
    ghost var base: Bytes
    ghost var recs: seq<Rec>

    ghost predicate Valid()
      reads this
    {
      file == base + EncodeAll(recs) && wordMetaMap == Index(recs, |base|) && currentOffset == |file|
    }

    /** Opens a file. The index starts empty whatever the file holds, so it describes the file
        if and only if the file is empty. */
    constructor (existing: Bytes)
      ensures Valid() && file == existing && base == existing && recs == [] && wordMetaMap == map[]
      ensures (exists rs :: Represents(Output(file, wordMetaMap, currentOffset), rs)) <==> existing == []
    {
      file, wordMetaMap, currentOffset := existing, map[], |existing|;
      base, recs := existing, [];
      EmptyIndexDescribes(existing);
    }

    /** Adds a word the index does not have; a word it has is left alone. */
    method Insert(word: Bytes, meaning: Bytes)
      requires Valid()
      modifies this
      ensures Valid() && base == old(base)
      ensures recs == if word in Meanings(old(recs)) then old(recs) else old(recs) + [Rec(word, meaning)]
      ensures old(word in wordMetaMap) ==> file == old(file) && wordMetaMap == old(wordMetaMap)
      ensures old(word !in wordMetaMap) ==> file == old(file) + Encode(Rec(word, meaning))
      ensures old(word !in wordMetaMap) ==>
        wordMetaMap == old(wordMetaMap)[word := Meta(old(|file|), 4 + |word| + |meaning|)]
      ensures currentOffset == |file|
    {
      ghost var i := IndexNamesLast(recs, |base|, word);
      if word !in wordMetaMap {
        ghost var r := Rec(word, meaning);
        InsertDescribes(base, recs, r);
        var entry := Prefix(|word|, |meaning|) + word + meaning;
        file := file + entry;
        wordMetaMap := wordMetaMap[word := Meta(currentOffset, |entry|)];
        currentOffset := currentOffset + |entry|;
        recs := recs + [r];
      }
    }

    /** What is read back of a word's last record, or nothing for a word the index does not
        have. If the records fit, that is the word's meaning. */
    method GetMeaning(word: Bytes) returns (meaning: Bytes)
      requires Valid()
      ensures word !in Meanings(recs) ==> meaning == []
      ensures word in Meanings(recs) ==> exists i :: IsLast(recs, word, i) && meaning == ReadBack(recs[i])
      ensures word in Meanings(recs) && AllFit(recs) ==> meaning == Meanings(recs)[word]
    {
      ghost var i := IndexNamesLast(recs, |base|, word);
      if word !in wordMetaMap {
        return [];
      }
      var meta := wordMetaMap[word];
      EntryInFile(i);
      meaning := ReadMeaning(file[meta.offset..meta.offset + meta.entrySize], recs[i]);
      if AllFit(recs) {
        FittingReadsBack(recs[i]);
      }
    }

    lemma EntryInFile(i: nat)
      requires Valid() && i < |recs|
      ensures var at := |base| + |EncodeAll(recs[..i])|;
        at + Size(recs[i]) <= |file| && file[at..at + Size(recs[i])] == Encode(recs[i])
    {
      NthIsHeld(recs, i);
      var at := |EncodeAll(recs[..i])|;
      assert file[|base| + at..|base| + at + Size(recs[i])] == EncodeAll(recs)[at..at + Size(recs[i])];
    }

    /** Merges a change log into the file, whether or not the index covers it, and indexes the
        result afresh. It succeeds exactly when file and log are whole records; otherwise
        nothing changes. */
    method Import(log: Bytes) returns (ok: bool)
      requires Valid()
      modifies this
      ensures Valid() && (ok <==> Parse(old(file), 0).Some? && Parse(log, 0).Some?)
      ensures ok ==> base == [] && recs == Combine(Parse(old(file), 0).value, Parse(log, 0).value) && AllFit(recs)
      ensures ok ==> Represents(Output(file, wordMetaMap, currentOffset), recs)
      ensures !ok ==> file == old(file) && wordMetaMap == old(wordMetaMap) && currentOffset == old(currentOffset)
      ensures !ok ==> base == old(base) && recs == old(recs)
    {
      var temp;
      ghost var out;
      ok, temp, out := MergeFiles(file, log);
      if !ok {
        return;
      }
      file, wordMetaMap, currentOffset := temp.bytes, temp.index, temp.offset;
      base, recs := [], out;
      assert [] + EncodeAll(recs) == EncodeAll(recs);
    }
  }

  /** The first loop: while both files have records left, put out the smaller head, or the
      log's when the words are equal. */
  method MergeBoth(cur: Bytes, log: Bytes)
    returns (ok: bool, temp: Output, at: nat, logAt: nat, ghost out: seq<Rec>)
    ensures !ok ==> Imported(cur, log).None?
    ensures ok ==> Represents(temp, out) && AllFit(out) && at <= |cur| && logAt <= |log|
    ensures ok ==> (at == |cur| || logAt == |log|)
    ensures ok ==> Resume(out, cur, at, log, logAt) == Imported(cur, log)
  {
    temp, at, logAt := Output([], map[], 0), 0, 0;
    out := [];
    while at < |cur| && logAt < |log|
      invariant Represents(temp, out) && AllFit(out) && at <= |cur| && logAt <= |log|
      invariant Resume(out, cur, at, log, logAt) == Imported(cur, log)
      decreases |cur| - at + |log| - logAt
    {
      ok, temp, at, logAt, out := MergeRound(cur, log, temp, at, logAt, out);
      if !ok {
        return;
      }
    }
    ok := true;
  }

  /** One round of the first loop puts out one record and moves past it in one file or, when
      the words are equal, in both. */
  method MergeRound(cur: Bytes, log: Bytes, temp0: Output, at0: nat, logAt0: nat, ghost out0: seq<Rec>)
    returns (ok: bool, temp: Output, at: nat, logAt: nat, ghost out: seq<Rec>)
    requires Represents(temp0, out0) && AllFit(out0) && at0 < |cur| && logAt0 < |log|
    ensures ok <==> EntryAt(cur, at0).Some? && EntryAt(log, logAt0).Some?
    ensures ok ==> Represents(temp, out) && AllFit(out) && at <= |cur| && logAt <= |log|
    ensures ok ==> at >= at0 && logAt >= logAt0 && at + logAt > at0 + logAt0
    ensures ok ==>
      var (c, l) := (EntryAt(cur, at0).value, EntryAt(log, logAt0).value);
      && out == out0 + [if Below(c.word, l.word) then c else l]
      && at == (if Below(l.word, c.word) then at0 else at0 + Size(c))
      && logAt == (if Below(c.word, l.word) then logAt0 else logAt0 + Size(l))
    ensures ok ==> Resume(out, cur, at, log, logAt) == Resume(out0, cur, at0, log, logAt0)
  {
    temp, at, logAt, out := temp0, at0, logAt0, out0;
    var current, currentWord, change, changeWord;
    ok, current, currentWord := ReadEntry(cur, at);
    if !ok {
      return;
    }
    ok, change, changeWord := ReadEntry(log, logAt);
    if !ok {
      return;
    }
    ghost var c, l := EntryAt(cur, at).value, EntryAt(log, logAt).value;
    var cmp := Compare(currentWord, changeWord);
    CompareSwaps(currentWord, changeWord);
    if cmp == 0 {
      EmitRepresents(temp, out, l);
      temp, out := Emit(temp, change, changeWord), out + [l];
      at, logAt := at + |current|, logAt + |change|;
    } else if cmp < 0 {
      EmitRepresents(temp, out, c);
      temp, out := Emit(temp, current, currentWord), out + [c];
      at := at + |current|;
    } else {
      EmitRepresents(temp, out, l);
      temp, out := Emit(temp, change, changeWord), out + [l];
      logAt := logAt + |change|;
    }
    assert at == if cmp <= 0 then at0 + Size(c) else at0;
    assert logAt == if cmp >= 0 then logAt0 + Size(l) else logAt0;
    assert out == out0 + [if cmp < 0 then c else l];
    ResumeBoth(out0, cur, at0, log, logAt0, c, l, cmp);
  }

  /** The second loop: what is left of the current file follows. */
  method AppendCurrent(cur: Bytes, log: Bytes, temp0: Output, at0: nat, logAt: nat, ghost out0: seq<Rec>)
    returns (ok: bool, temp: Output, at: nat, ghost out: seq<Rec>)
    requires Represents(temp0, out0) && AllFit(out0) && at0 <= |cur| && logAt <= |log|
    requires at0 == |cur| || logAt == |log|
    ensures !ok ==> Resume(out0, cur, at0, log, logAt).None?
    ensures ok ==> Represents(temp, out) && AllFit(out) && at == |cur|
    ensures ok ==> Resume(out, cur, at, log, logAt) == Resume(out0, cur, at0, log, logAt)
  {
    temp, at, out := temp0, at0, out0;
    while at < |cur|
      invariant Represents(temp, out) && AllFit(out) && at <= |cur|
      invariant at == |cur| || logAt == |log|
      invariant Resume(out, cur, at, log, logAt) == Resume(out0, cur, at0, log, logAt)
      decreases |cur| - at
    {
      var whole, entry, word := ReadEntry(cur, at);
      if !whole {
        return false, temp, at, out;
      }
      ghost var c := EntryAt(cur, at).value;
      ResumeCurrent(out, cur, at, log, logAt, c);
      EmitRepresents(temp, out, c);
      temp, out := Emit(temp, entry, word), out + [c];
      at := at + |entry|;
    }
    ok := true;
  }

  /** The third loop: what is left of the change log follows. */
  method AppendLog(ghost cur: Bytes, ghost at: nat, log: Bytes, temp0: Output, logAt0: nat, ghost out0: seq<Rec>)
    returns (ok: bool, temp: Output, ghost out: seq<Rec>)
    requires Represents(temp0, out0) && AllFit(out0) && at == |cur| && logAt0 <= |log|
    ensures ok <==> Resume(out0, cur, at, log, logAt0).Some?
    ensures ok ==> Represents(temp, out) && AllFit(out) && Resume(out0, cur, at, log, logAt0) == Some(out)
  {
    temp, out := temp0, out0;
    var logAt := logAt0;
    while logAt < |log|
      invariant Represents(temp, out) && AllFit(out) && logAt <= |log|
      invariant Resume(out, cur, at, log, logAt) == Resume(out0, cur, at, log, logAt0)
      decreases |log| - logAt
    {
      var whole, entry, word := ReadEntry(log, logAt);
      if !whole {
        return false, temp, out;
      }
      ghost var l := EntryAt(log, logAt).value;
      ResumeLog(out, cur, at, log, logAt, l);
      EmitRepresents(temp, out, l);
      temp, out := Emit(temp, entry, word), out + [l];
      logAt := logAt + |entry|;
    }
    assert out + Combine([], []) == out;
    return true, temp, out;
  }

  /** The three loops. */
  method MergeFiles(cur: Bytes, log: Bytes) returns (ok: bool, temp: Output, ghost out: seq<Rec>)
    ensures ok <==> Parse(cur, 0).Some? && Parse(log, 0).Some?
    ensures ok ==> Represents(temp, out) && AllFit(out) && out == Combine(Parse(cur, 0).value, Parse(log, 0).value)
  {
    ImportedIsCombined(cur, log);
    var at, logAt;
    ok, temp, at, logAt, out := MergeBoth(cur, log);
    if !ok {
      return;
    }
    ok, temp, at, out := AppendCurrent(cur, log, temp, at, logAt, out);
    if !ok {
      return;
    }
    ok, temp, out := AppendLog(cur, at, log, temp, logAt, out);
  }
}
