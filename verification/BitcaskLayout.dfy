/** How records sit in a file: offsets, boundaries and what appending keeps. */
module BitcaskLayout {
  import opened Wrappers
  import opened BitcaskModel

  lemma {:induction false} TotalSizeAppend(rs: seq<Record>, r: Record)
    ensures TotalSize(rs + [r]) == TotalSize(rs) + Size(r)
  {
    if rs == [] {
    } else {
      assert (rs + [r])[1..] == rs[1..] + [r];
      TotalSizeAppend(rs[1..], r);
    }
  }

  lemma {:induction false} HintsSizeAppend(hs: seq<Hint>, h: Hint)
    ensures HintsSize(hs + [h]) == HintsSize(hs) + HintSize(h)
  {
    if hs == [] {
    } else {
      assert (hs + [h])[1..] == hs[1..] + [h];
      HintsSizeAppend(hs[1..], h);
    }
  }

  lemma {:induction false} HintsForAppend(rs: seq<Record>, r: Record, from: nat)
    ensures HintsFor(rs + [r], from)
         == HintsFor(rs, from) + [Hint(r.key, |r.value|, from + TotalSize(rs))]
  {
    if rs == [] {
    } else {
      assert (rs + [r])[1..] == rs[1..] + [r];
      HintsForAppend(rs[1..], r, from + Size(rs[0]));
    }
  }

  /** A record, once written, is found at its offset whatever is appended after it. */
  lemma {:induction false} RecordAtAppend(rs: seq<Record>, r: Record, offset: int)
    requires RecordAt(rs, offset).Some?
    ensures RecordAt(rs + [r], offset) == RecordAt(rs, offset)
  {
    if offset == 0 {
    } else {
      assert (rs + [r])[1..] == rs[1..] + [r];
      RecordAtAppend(rs[1..], r, offset - Size(rs[0]));
    }
  }

  lemma {:induction false} RecordAtEnd(rs: seq<Record>, r: Record)
    ensures RecordAt(rs + [r], TotalSize(rs)) == Some(r)
  {
    if rs == [] {
    } else {
      assert (rs + [r])[1..] == rs[1..] + [r];
      RecordAtEnd(rs[1..], r);
    }
  }

  /** Records do not overlap, and the byte after one is again a boundary. */
  lemma {:induction false} RecordExtent(rs: seq<Record>, offset: int, other: int)
    requires RecordAt(rs, offset).Some?
    ensures 0 <= offset && offset + Size(RecordAt(rs, offset).value) <= TotalSize(rs)
    ensures Boundary(rs, offset + Size(RecordAt(rs, offset).value))
    ensures RecordAt(rs, other).Some? && other < offset + Size(RecordAt(rs, offset).value) ==> other <= offset
  {
    if offset == 0 {
      if rs[1..] != [] {
        assert RecordAt(rs[1..], 0) == Some(rs[1..][0]);
      }
      if 0 < other < Size(rs[0]) {
        assert RecordAt(rs[1..], other - Size(rs[0])).None?;
      }
    } else {
      RecordExtent(rs[1..], offset - Size(rs[0]), other - Size(rs[0]));
    }
  }

  lemma {:induction false} RecordBeforeEnd(rs: seq<Record>, offset: int)
    requires RecordAt(rs, offset).Some?
    ensures 0 <= offset && offset + HEADER_SIZE <= TotalSize(rs)
  {
    RecordExtent(rs, offset, offset);
  }
}
