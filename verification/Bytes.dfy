/** Byte strings and the fixed-width integer layouts the file formats use. */
module Bytes {
  type Byte = b: int | 0 <= b < 256
  type Bytes = seq<Byte>

  const UINT32_RANGE := 0x1_0000_0000
  const UINT64_RANGE := 0x1_0000_0000_0000_0000

  type U32 = n: nat | n < UINT32_RANGE

  /** Conversion to an unsigned 32-bit integer. */
  function AsUint32(n: nat): (r: U32)
    ensures n < UINT32_RANGE ==> r == n
  {
    n % UINT32_RANGE
  }

  /** Four bytes, least significant first; what does not fit in 32 bits is cut off. */
  function PutUint32(n: nat): (b: Bytes)
    ensures |b| == 4
  {
    [n % 256, n / 0x100 % 256, n / 0x1_0000 % 256, n / 0x100_0000 % 256]
  }

  function Uint32(b: Bytes): (n: nat)
    requires |b| == 4
    ensures n < UINT32_RANGE
  {
    var b0: nat, b1: nat, b2: nat, b3: nat := b[0], b[1], b[2], b[3];
    b0 + 0x100 * b1 + 0x1_0000 * b2 + 0x100_0000 * b3
  }

  /** The number the bytes stand for, least significant first. */
  function LittleEndian(b: Bytes): nat {
    if b == [] then 0 else (b[0] as nat) + 256 * LittleEndian(b[1..])
  }

  /** The number the bytes stand for, most significant first. */
  function BigEndian(b: Bytes): nat {
    if b == [] then 0 else 256 * BigEndian(b[..|b| - 1]) + b[|b| - 1]
  }

  lemma LittleEndianJoins(b: Bytes)
    requires |b| == 8
    ensures LittleEndian(b) == LittleEndian(b[..4]) + UINT32_RANGE * LittleEndian(b[4..])
  {
    var tail := b[4..];
    LittleEndianOfFour(b[0], b[1], b[2], b[3], tail);
    LittleEndianOfFour(b[0], b[1], b[2], b[3], []);
    assert b == [b[0], b[1], b[2], b[3]] + tail && b[..4] == [b[0], b[1], b[2], b[3]] + [];
  }

  lemma LittleEndianOfFour(b0: Byte, b1: Byte, b2: Byte, b3: Byte, tail: Bytes)
    ensures LittleEndian([b0, b1, b2, b3] + tail)
         == b0 + 0x100 * b1 + 0x1_0000 * b2 + 0x100_0000 * b3 + UINT32_RANGE * LittleEndian(tail)
  {
    var b := [b0, b1, b2, b3] + tail;
    assert b[1..] == [b1, b2, b3] + tail && b[1..][1..] == [b2, b3] + tail;
    assert b[1..][1..][1..] == [b3] + tail && b[1..][1..][1..][1..] == tail;
    assert LittleEndian(b) == b0 + 256 * LittleEndian(b[1..]);
    assert LittleEndian(b[1..]) == b1 + 256 * LittleEndian(b[1..][1..]);
    assert LittleEndian(b[1..][1..]) == b2 + 256 * LittleEndian(b[1..][1..][1..]);
  }

  lemma Uint32IsLittleEndian(b: Bytes)
    requires |b| == 4
    ensures Uint32(b) == LittleEndian(b)
  {
    LittleEndianOfFour(b[0], b[1], b[2], b[3], []);
    assert b == [b[0], b[1], b[2], b[3]] + [];
  }

  /** Reading back what was put yields the number reduced modulo 2^32. */
  lemma Uint32RoundTrip(n: nat)
    ensures Uint32(PutUint32(n)) == n % UINT32_RANGE
  {
    var q1, q2, q3 := n / 0x100, n / 0x1_0000, n / 0x100_0000;
    DivideAgain(n);
    var low := n % 256 + 0x100 * (q1 % 256) + 0x1_0000 * (q2 % 256) + 0x100_0000 * (q3 % 256);
    assert n == low + UINT32_RANGE * (q3 / 256) by {
      assert n == n % 256 + 0x100 * q1 && q1 == q1 % 256 + 0x100 * q2;
      assert q2 == q2 % 256 + 0x100 * q3 && q3 == q3 % 256 + 0x100 * (q3 / 256);
    }
    RemainderIs(n, low, q3 / 256);
  }

  lemma DivideAgain(n: nat)
    ensures n / 0x1_0000 == n / 0x100 / 0x100 && n / 0x100_0000 == n / 0x1_0000 / 0x100
  {
  }

  lemma RemainderIs(n: nat, low: nat, q: nat)
    requires n == low + UINT32_RANGE * q && low < UINT32_RANGE
    ensures n % UINT32_RANGE == low
  {
  }

  lemma PutIsLittleEndian(n: nat)
    ensures LittleEndian(PutUint32(n)) == n % UINT32_RANGE
  {
    Uint32RoundTrip(n);
    Uint32IsLittleEndian(PutUint32(n));
  }

  lemma Uint32Exact(b: Bytes, n: U32)
    requires b == PutUint32(n)
    ensures Uint32(b) == n
  {
    Uint32RoundTrip(n);
  }

  /** Eight bytes, least significant first. */
  function PutUint64(n: nat): (b: Bytes)
    ensures |b| == 8
  {
    PutUint32(n % UINT32_RANGE) + PutUint32(n / UINT32_RANGE)
  }

  function Uint64(b: Bytes): (n: nat)
    requires |b| == 8
    ensures n < UINT64_RANGE
  {
    Uint32(b[..4]) + UINT32_RANGE * Uint32(b[4..])
  }

  lemma Uint64IsLittleEndian(b: Bytes)
    requires |b| == 8
    ensures Uint64(b) == LittleEndian(b)
  {
    Uint32IsLittleEndian(b[..4]);
    Uint32IsLittleEndian(b[4..]);
    LittleEndianJoins(b);
  }

  lemma SplitModulo(n: nat)
    ensures n % UINT64_RANGE == n % UINT32_RANGE + UINT32_RANGE * (n / UINT32_RANGE % UINT32_RANGE)
  {
    var high := n / UINT32_RANGE;
    var top := high / UINT32_RANGE;
    var rest := n % UINT32_RANGE + UINT32_RANGE * (high % UINT32_RANGE);
    assert n == UINT64_RANGE * top + rest;
    assert 0 <= rest < UINT64_RANGE;
  }

  lemma Uint64RoundTrip(n: nat)
    ensures Uint64(PutUint64(n)) == n % UINT64_RANGE
  {
    Uint64OfHalves(n % UINT32_RANGE, n / UINT32_RANGE);
    SplitModulo(n);
  }

  lemma Uint64OfHalves(low: U32, high: nat)
    ensures Uint64(PutUint32(low) + PutUint32(high)) == low + UINT32_RANGE * (high % UINT32_RANGE)
  {
    var b := PutUint32(low) + PutUint32(high);
    assert b[..4] == PutUint32(low) && b[4..] == PutUint32(high);
    Uint32RoundTrip(low);
    Uint32RoundTrip(high);
    SmallModulo(low, UINT32_RANGE);
  }

  lemma Uint64Exact(b: Bytes, n: nat)
    requires n < UINT64_RANGE && b == PutUint64(n)
    ensures Uint64(b) == n
  {
    Uint64RoundTrip(n);
    SmallModulo(n, UINT64_RANGE);
  }

  lemma SmallModulo(n: nat, m: nat)
    requires n < m
    ensures n % m == n
  {
  }

  /** What a positioned write leaves in a file: the bytes written replace what was there,
      what lies around them stays, and a gap before them reads as zeros. */
  method WriteAt(file: Bytes, offset: nat, data: Bytes) returns (r: Bytes)
    ensures |r| >= |file| && |r| >= offset + |data| && r[offset..offset + |data|] == data
    ensures offset <= |file| ==> r[..offset] == file[..offset]
    ensures offset + |data| <= |file| ==> r[offset + |data|..] == file[offset + |data|..]
    ensures offset == |file| ==> r == file + data
  {
    var padded := if offset <= |file| then file else file + seq(offset - |file|, _ => 0);
    r := padded[..offset] + data;
    if |r| < |padded| {
      r := r + padded[|r|..];
    }
  }

  lemma SliceOfSlice(b: Bytes, at: nat, size: nat, low: nat, high: nat)
    requires low <= high <= size && at + size <= |b|
    ensures b[at..at + size][low..high] == b[at + low..at + high]
  {
    var inner, direct := b[at..at + size][low..high], b[at + low..at + high];
    assert |inner| == |direct|;
    assert forall i :: 0 <= i < |inner| ==> inner[i] == direct[i];
  }
}
