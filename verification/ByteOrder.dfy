/** Lexicographic comparison of byte strings, as the language's string comparison does it. */
module ByteOrder {
  import opened Bytes

  function Compare(a: Bytes, b: Bytes): int {
    if a == [] && b == [] then 0
    else if a == [] then -1
    else if b == [] then 1
    else if a[0] < b[0] then -1
    else if a[0] > b[0] then 1
    else Compare(a[1..], b[1..])
  }

  predicate Below(a: Bytes, b: Bytes) {
    Compare(a, b) < 0
  }

  lemma {:induction false} CompareEqual(a: Bytes, b: Bytes)
    ensures Compare(a, b) == 0 <==> a == b
  {
    if a == [] || b == [] {
    } else {
      CompareEqual(a[1..], b[1..]);
      assert a == [a[0]] + a[1..] && b == [b[0]] + b[1..];
    }
  }

  lemma {:induction false} CompareSwaps(a: Bytes, b: Bytes)
    ensures Compare(b, a) == -Compare(a, b)
  {
    if a == [] || b == [] {
    } else {
      CompareSwaps(a[1..], b[1..]);
    }
  }

  lemma {:induction false} BelowTransitive(a: Bytes, b: Bytes, c: Bytes)
    requires Below(a, b) && Below(b, c)
    ensures Below(a, c)
  {
    if a == [] || b == [] || c == [] {
    } else if a[0] == b[0] == c[0] {
      BelowTransitive(a[1..], b[1..], c[1..]);
    }
  }

  /** At byte `i` the two strings first differ, and `a` has the smaller byte there. */
  predicate SmallerAt(a: Bytes, b: Bytes, i: int) {
    0 <= i < |a| && i < |b| && a[..i] == b[..i] && a[i] < b[i]
  }

  lemma SmallerInTail(a: Bytes, b: Bytes, i: int)
    requires a != [] && b != [] && a[0] == b[0] && i > 0
    ensures SmallerAt(a, b, i) <==> SmallerAt(a[1..], b[1..], i - 1)
  {
    if i < |a| && i < |b| {
      assert a[..i] == [a[0]] + a[1..][..i - 1] && b[..i] == [b[0]] + b[1..][..i - 1];
      assert a[..i][1..] == a[1..][..i - 1] && b[..i][1..] == b[1..][..i - 1];
    }
  }

  /** One byte string is below another if and only if it is a proper prefix of it or has the
      smaller byte where the two first differ. */
  lemma {:induction false} BelowIsLexicographic(a: Bytes, b: Bytes)
    ensures Below(a, b) <==> a < b || exists i :: SmallerAt(a, b, i)
  {
    if a == [] || b == [] {
    } else if a[0] != b[0] {
      assert SmallerAt(a, b, 0) <==> a[0] < b[0];
      forall i | i > 0 ensures !SmallerAt(a, b, i) {
        if i < |a| && i < |b| {
          assert a[..i][0] != b[..i][0];
        }
      }
    } else {
      BelowIsLexicographic(a[1..], b[1..]);
      assert a == [a[0]] + a[1..] && b == [b[0]] + b[1..];
      assert a < b <==> a[1..] < b[1..];
      forall i ensures SmallerAt(a, b, i) <==> i > 0 && SmallerAt(a[1..], b[1..], i - 1) {
        if i > 0 {
          SmallerInTail(a, b, i);
        }
      }
      if j :| SmallerAt(a[1..], b[1..], j) {
        assert SmallerAt(a, b, j + 1);
      }
    }
  }

  /** The order is total: of two different byte strings one is below the other, and not both. */
  lemma BelowTotal(a: Bytes, b: Bytes)
    ensures a == b || Below(a, b) || Below(b, a)
    ensures !(Below(a, b) && Below(b, a)) && !Below(a, a)
  {
    CompareEqual(a, b);
    CompareEqual(a, a);
    CompareSwaps(a, b);
  }
}
