/** A deletion that panics although its host is live, and takes away keys of a host that shares a
    slot with it. */
module HashRingPanic {
  import opened Wrappers
  import opened HashRing
  import opened HashRingHistory
  import opened HashRingWitness

  /** The number a string of digits stands for. */
  function Number(digits: string): nat {
    if digits == [] then 0
    else
      var last := digits[|digits| - 1];
      10 * Number(digits[..|digits| - 1]) + (if '0' <= last <= '9' then last as int - '0' as int else 0)
  }

  lemma {:induction false} NumberOfDecimal(n: nat)
    ensures Number(Decimal(n)) == n
  {
    var digit := ('0' as int + n % 10) as char;
    if n < 10 {
      assert [digit][..0] == [];
      assert Number([digit]) == 10 * Number([]) + n;
    } else {
      NumberOfDecimal(n / 10);
      assert Decimal(n) == Decimal(n / 10) + [digit];
      assert Decimal(n)[..|Decimal(n)| - 1] == Decimal(n / 10);
    }
  }

  /** Host b has 60 slots on 0 and 40 on 1, host c 60 on 0, 20 on 1 and 20 on 2, and every other
      host all on 0. */
  function Crowded(key: string): Slot {
    if |key| < 2 then 0 else Place(key[0], Number(key[2..]))
  }

  function Place(host: char, i: nat): Slot {
    if i < 60 then 0
    else if host == 'b' then 1
    else if host == 'c' then (if i < 80 then 1 else 2)
    else 0
  }

  lemma PlaceOf(host: string, i: nat)
    requires |host| == 1
    ensures Crowded(VirtualKey(host, i)) == Place(host[0], i)
  {
    var key := VirtualKey(host, i);
    NumberOfDecimal(i);
    assert key[0] == host[0] && key[2..] == Decimal(i);
  }

  lemma PlacesOf(host: string)
    requires |host| == 1
    ensures var s := HostSlots(Crowded, host);
      |s| == VIRTUAL_NODES && forall i | 0 <= i < VIRTUAL_NODES :: s[i] == Place(host[0], i)
  {
    forall i | 0 <= i < VIRTUAL_NODES ensures HostSlots(Crowded, host)[i] == Place(host[0], i) {
      PlaceOf(host, i);
    }
  }

  lemma CountsOfThree(s: seq<Slot>, x: Slot, y: Slot, z: Slot)
    requires |s| == VIRTUAL_NODES
    requires forall i | 0 <= i < |s| :: s[i] == if i < 60 then x else if i < 80 then y else z
    ensures SetOf(s) == {x, y, z}
    ensures forall v :: multiset(s)[v]
                     == (if v == x then 60 else 0) + (if v == y then 20 else 0) + (if v == z then 20 else 0)
  {
    assert s[0] == x && s[60] == y && s[80] == z;
    Repeated(s[..60], x);
    Repeated(s[60..80], y);
    Repeated(s[80..], z);
    assert s == s[..60] + s[60..80] + s[80..];
  }

  lemma CountsOf(host: string)
    requires |host| == 1
    ensures var (y, z) := (Place(host[0], 60), Place(host[0], 80));
      && SlotsOf(Crowded, host) == {0, y, z}
      && forall v :: multiset(HostSlots(Crowded, host))[v]
                  == (if v == 0 then 60 else 0) + (if v == y then 20 else 0) + (if v == z then 20 else 0)
  {
    PlacesOf(host);
    CountsOfThree(HostSlots(Crowded, host), 0, Place(host[0], 60), Place(host[0], 80));
  }

  lemma BAdded()
    ensures var r := Added(Crowded, Init(), B());
      && r.nodeMap == map[0 := B(), 1 := B()] && |r.nodes| == VIRTUAL_NODES
      && multiset(r.nodes)[1] == 40 && multiset(r.nodes)[2] == 0
  {
    CountsOf("b");
    AddedCounts(Crowded, Init(), B());
  }

  lemma CAdded(r: Ring)
    requires r.nodeMap == map[0 := B(), 1 := B()] && |r.nodes| == VIRTUAL_NODES
    requires multiset(r.nodes)[1] == 40 && multiset(r.nodes)[2] == 0
    ensures var r' := Added(Crowded, r, C());
      && r'.nodeMap == map[0 := C(), 1 := C(), 2 := C()] && |r'.nodes| == 2 * VIRTUAL_NODES
      && multiset(r'.nodes)[1] == 60 && multiset(r'.nodes)[2] == 20
  {
    CountsOf("c");
    AddedCounts(Crowded, r, C());
  }

  lemma AAdded(r: Ring)
    requires r.nodeMap == map[0 := C(), 1 := C(), 2 := C()] && |r.nodes| == 2 * VIRTUAL_NODES
    requires multiset(r.nodes)[1] == 60 && multiset(r.nodes)[2] == 20
    ensures var r' := Added(Crowded, r, A());
      && r'.nodeMap == map[0 := A(), 1 := C(), 2 := C()] && |r'.nodes| == 3 * VIRTUAL_NODES
      && multiset(r'.nodes)[1] == 60 && multiset(r'.nodes)[2] == 20
  {
    CountsOf("a");
    AddedCounts(Crowded, r, A());
  }

  /** Hosts b, c and then a, whose slots are the ones on 0. */
  lemma ThreeAdded() returns (es: seq<Event>)
    ensures var r := After(Crowded, es);
      && Ordered(r) && r.nodeMap == map[0 := A(), 1 := C(), 2 := C()] && |r.nodes| == 3 * VIRTUAL_NODES
      && multiset(r.nodes)[1] == 60 && multiset(r.nodes)[2] == 20
    ensures Live(es) == map["b" := B()]["c" := C()]["a" := A()]
  {
    es := OneAdded(Crowded, [], Init(), B());
    BAdded();
    var b := After(Crowded, es);
    es := OneAdded(Crowded, es, b, C());
    CAdded(b);
    var c := After(Crowded, es);
    es := OneAdded(Crowded, es, c, A());
    AAdded(c);
    AlwaysOrdered(Crowded, es);
  }

  lemma {:induction false} OnlyTwo(s: seq<Slot>, x: Slot, y: Slot)
    requires x != y && forall i | 0 <= i < |s| :: s[i] == x || s[i] == y
    ensures |s| == multiset(s)[x] + multiset(s)[y]
  {
    if s == [] {
    } else {
      OnlyTwo(s[1..], x, y);
      assert s == [s[0]] + s[1..];
    }
  }

  lemma TwoKept(s: seq<Slot>, x: Slot, y: Slot)
    requires x != y
    ensures |Kept(s, {x, y})| == multiset(s)[x] + multiset(s)[y]
  {
    var k := Kept(s, {x, y});
    forall i | 0 <= i < |k| ensures k[i] == x || k[i] == y {
      KeptMembers(s, {x, y}, k[i]);
    }
    OnlyTwo(k, x, y);
    KeptCounts(s, {x, y}, x);
    KeptCounts(s, {x, y}, y);
  }

  lemma SlotsOfA()
    ensures SlotsOf(Crowded, A().host) == {0}
  {
    CountsOf("a");
  }

  /** Without host a eighty slots are left, and all of them are c's. */
  lemma EightyLeft(r: Ring)
    requires Ordered(r) && r.nodeMap == map[0 := A(), 1 := C(), 2 := C()] && |r.nodes| == 3 * VIRTUAL_NODES
    requires multiset(r.nodes)[1] == 60 && multiset(r.nodes)[2] == 20
    ensures var r' := Deleted(Crowded, r, A());
      Consistent(r') && |r'.nodes| == 80 && r'.nodeMap == map[1 := C(), 2 := C()]
  {
    SlotsOfA();
    var m := r.nodeMap - {0};
    assert m == map[1 := C(), 2 := C()];
    assert m.Keys == {1, 2};
    TwoKept(r.nodes, 1, 2);
    DeletedSlots(Crowded, r, A());
  }

  lemma SharedFalls(r: Ring)
    requires r.nodeMap == map[1 := C(), 2 := C()]
    ensures SharedFallToSame(Crowded, r, "b")
  {
    CountsOf("b");
    assert r.nodeMap.Keys - {0, 1} == {2};
    assert Successor({2}, 1) == 2;
  }

  lemma DeletingBPanics(r: Ring)
    requires Consistent(r) && |r.nodes| == 80 && r.nodeMap == map[1 := C(), 2 := C()]
    ensures Panics(r) && Owner(r, 1) == Some(C()) && Owner(Deleted(Crowded, r, B()), 1) == None
  {
    CountsOf("b");
    PanicLosesShared(Crowded, r, B(), 1);
  }

  /** Host b is live, and the one slot it shares with c is followed by a slot of c's; still its
      deletion panics, and a key of c's is found no more. */
  lemma PanicLosesKey() returns (es: seq<Event>)
    ensures var r := After(Crowded, es);
      && Consistent(r) && "b" in Live(es) && Panics(r) && SharedFallToSame(Crowded, r, "b")
      && Owner(r, 1) == Some(C()) && Owner(Deleted(Crowded, r, B()), 1) == None
  {
    var three := ThreeAdded();
    es := three + [Delete(A())];
    AfterOne(Crowded, three, Delete(A()));
    assert "b" in Live(es);
    EightyLeft(After(Crowded, three));
    SharedFalls(After(Crowded, es));
    DeletingBPanics(After(Crowded, es));
  }
}
