/** What shared slots can do: a hash under which two hosts share one slot, and a history in which
    deleting both of them leaves the ring broken for whoever comes next. */
module HashRingWitness {
  import opened Wrappers
  import opened HashRing
  import opened HashRingHistory

  /** Every key on slot 0 but host b's, which are on slot 1 from its second on. */
  function OneShared(key: string): Slot {
    if key != [] && key[0] == 'b' && key != "b#0" then 1 else 0
  }

  function A(): Node { Node("A", "a") }

  function B(): Node { Node("B", "b") }

  function C(): Node { Node("C", "c") }

  lemma Repeated(s: seq<Slot>, x: Slot)
    requires forall i | 0 <= i < |s| :: s[i] == x
    ensures multiset(s)[x] == |s| && forall y | y != x :: multiset(s)[y] == 0
  {
    if s == [] {
    } else {
      Repeated(s[1..], x);
      assert s == [s[0]] + s[1..];
    }
  }

  lemma OthersOnZero(host: string)
    requires host != [] && host[0] != 'b'
    ensures SlotsOf(OneShared, host) == {0}
    ensures forall x :: multiset(HostSlots(OneShared, host))[x] == if x == 0 then VIRTUAL_NODES else 0
  {
    var s := HostSlots(OneShared, host);
    forall i | 0 <= i < |s| ensures s[i] == 0 {
      var key := VirtualKey(host, i);
      assert key[0] == host[0] && key != "b#0";
      assert s[i] == OneShared(key);
    }
    assert s[0] in SetOf(s);
    Repeated(s, 0);
  }

  lemma OnlyZeroIsZero(i: nat)
    requires i > 0
    ensures VirtualKey("b", i) != VirtualKey("b", 0)
  {
    assert Decimal(0) == ['0'];
    assert VirtualKey("b", i)[2..] == Decimal(i) && VirtualKey("b", 0)[2..] == Decimal(0);
    assert i < 10 ==> Decimal(i)[0] != '0';
    assert i >= 10 ==> |Decimal(i / 10)| > 0 && |Decimal(i)| > 1;
  }

  lemma SlotsOfB()
    ensures SlotsOf(OneShared, "b") == {0, 1}
    ensures forall x :: multiset(HostSlots(OneShared, "b"))[x]
                     == if x == 0 then 1 else if x == 1 then VIRTUAL_NODES - 1 else 0
  {
    var s := HostSlots(OneShared, "b");
    assert VirtualKey("b", 0) == "b#0";
    forall i | 0 < i < VIRTUAL_NODES ensures s[i] == 1 {
      OnlyZeroIsZero(i);
      var key := VirtualKey("b", i);
      assert key[0] == 'b' && key != "b#0";
      assert s[i] == OneShared(key);
    }
    assert s[0] == OneShared(VirtualKey("b", 0)) && s[1] == 1;
    Repeated(s[1..], 1);
    assert s == [s[0]] + s[1..];
  }

  /** Two hosts share a slot, so the ring does not forget its history. */
  lemma SharingHappens()
    ensures !NoneShared(OneShared, {"a", "b"}) && !Forgets(OneShared, {"a", "b"})
  {
    OthersOnZero("a");
    SlotsOfB();
    assert 0 in SlotsOf(OneShared, "a") && 0 in SlotsOf(OneShared, "b");
    assert "a"[0] != "b"[0];
    assert !NoneShared(OneShared, {"a", "b"});
    ForgetsIffNoneShared(OneShared, {"a", "b"});
  }

  lemma BothAdded() returns (es: seq<Event>)
    ensures var r := After(OneShared, es);
      && Ordered(r) && r.nodeMap.Keys == {0, 1} && |r.nodes| == 2 * VIRTUAL_NODES
      && multiset(r.nodes)[1] == VIRTUAL_NODES - 1
    ensures Live(es) == map["a" := A()]["b" := B()]
  {
    OthersOnZero("a");
    SlotsOfB();
    AddedCounts(OneShared, Init(), A());
    var one := OneAdded(OneShared, [], Init(), A());
    AddedCounts(OneShared, Added(OneShared, Init(), A()), B());
    es := OneAdded(OneShared, one, Added(OneShared, Init(), A()), B());
    AlwaysOrdered(OneShared, es);
  }

  lemma OneAdded(hash: Hash, es: seq<Event>, r: Ring, node: Node) returns (es': seq<Event>)
    requires After(hash, es) == r
    ensures After(hash, es') == Added(hash, r, node) && Live(es') == Live(es)[node.host := node]
  {
    es' := es + [Add(node)];
    AfterOne(hash, es, Add(node));
  }

  lemma AddedCounts(hash: Hash, r: Ring, node: Node)
    ensures var r' := Added(hash, r, node);
      && |r'.nodes| == |r.nodes| + VIRTUAL_NODES
      && multiset(r'.nodes) == multiset(r.nodes) + multiset(HostSlots(hash, node.host))
  {
    var s := r.nodes + HostSlots(hash, node.host);
    SortIsExact(s);
    assert |Sort(s)| == |multiset(Sort(s))| && |s| == |multiset(s)|;
  }

  lemma KeptOnly(s: seq<Slot>, x: Slot)
    ensures |Kept(s, {x})| == multiset(s)[x]
  {
    var k := Kept(s, {x});
    forall i | 0 <= i < |k| ensures k[i] == x {
      KeptMembers(s, {x}, k[i]);
    }
    Repeated(k, x);
    KeptCounts(s, {x}, x);
  }

  /** Deleting host a takes away the slot it shares with b, which leaves one slot too few for
      deleting b: that panics with the map emptied and 99 slots still in the sequence. */
  lemma DeletingBothBreaks() returns (es: seq<Event>)
    ensures var r := After(OneShared, es);
      Live(es) == map[] && Ordered(r) && |r.nodes| == VIRTUAL_NODES - 1 && SetOf(r.nodes) == {1} && r.nodeMap == map[]
    ensures !Consistent(After(OneShared, es))
  {
    var both := BothAdded();
    var r := After(OneShared, both);
    FirstDeletion(r);
    SecondDeletion(Deleted(OneShared, r, A()));
    AfterOne(OneShared, both, Delete(A()));
    AfterOne(OneShared, both + [Delete(A())], Delete(B()));
    es := both + [Delete(A())] + [Delete(B())];
    assert map["a" := A()]["b" := B()] - {"a"} - {"b"} == map[];
  }

  lemma FirstDeletion(r: Ring)
    requires Ordered(r) && r.nodeMap.Keys == {0, 1} && |r.nodes| == 2 * VIRTUAL_NODES
    requires multiset(r.nodes)[1] == VIRTUAL_NODES - 1
    ensures var r' := Deleted(OneShared, r, A());
      Ordered(r') && r'.nodeMap.Keys == {1} && |r'.nodes| == VIRTUAL_NODES - 1 && SetOf(r'.nodes) == {1}
  {
    OthersOnZero("a");
    assert r.nodeMap.Keys - {0} == {1};
    KeptOnly(r.nodes, 1);
    DeletedSlots(OneShared, r, A());
  }

  lemma SecondDeletion(r: Ring)
    requires Ordered(r) && r.nodeMap.Keys == {1} && |r.nodes| == VIRTUAL_NODES - 1 && SetOf(r.nodes) == {1}
    ensures var r' := Deleted(OneShared, r, B()); Ordered(r') && r'.nodes == r.nodes && r'.nodeMap == map[]
  {
    SlotsOfB();
    assert r.nodeMap.Keys - {0, 1} == {};
  }

  /** Afterwards a lookup can find nothing although a node is live. */
  lemma LiveNodeIsNotFound() returns (es: seq<Event>)
    ensures Live(es) == map["c" := C()] && Owner(After(OneShared, es), 1) == None
  {
    var broken := DeletingBothBreaks();
    AfterOne(OneShared, broken, Add(C()));
    es := broken + [Add(C())];
    var r := After(OneShared, broken);
    OthersOnZero("c");
    AddedSlots(OneShared, r, C());
    var r' := Added(OneShared, r, C());
    assert IsSuccessor(SetOf(r'.nodes), 1, 1);
    SuccessorIsUnique(SetOf(r'.nodes), 1, 1, Successor(SetOf(r'.nodes), 1));
  }
}
