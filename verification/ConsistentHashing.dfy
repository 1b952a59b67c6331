/** The ring as the program keeps it: slots and map are fields the operations change in place. */
module ConsistentHashing {
  import opened Wrappers
  import opened HashRing

  lemma SetOfPrefix(s: seq<Slot>, n: nat)
    requires n < |s|
    ensures SetOf(s[..n + 1]) == SetOf(s[..n]) + {s[n]}
  {
    assert s[..n + 1] == s[..n] + [s[n]];
  }

  lemma WithOneMore(m: map<Slot, Node>, slots: set<Slot>, s: Slot, node: Node)
    ensures WithSlots(m, slots, node)[s := node] == WithSlots(m, slots + {s}, node)
  {
  }

  /** Where a sorted sequence passes `h`: at its length if every slot is below. */
  predicate FirstNotBelow(s: seq<Slot>, h: Slot, i: nat) {
    i <= |s| && (forall k | 0 <= k < i :: s[k] < h) && forall k | i <= k < |s| :: s[k] >= h
  }

  /** In a sorted sequence the first slot not below `h`, or else the very first, is the
      clockwise successor. */
  lemma SearchFindsSuccessor(s: seq<Slot>, h: Slot, i: nat)
    requires Sorted(s) && s != [] && FirstNotBelow(s, h, i)
    ensures Successor(SetOf(s), h) == s[if i == |s| then 0 else i]
  {
    var found := s[if i == |s| then 0 else i];
    forall t | t in SetOf(s) ensures Distance(h, found) <= Distance(h, t) {
      var k :| 0 <= k < |s| && s[k] == t;
    }
    SuccessorIsUnique(SetOf(s), h, found, Successor(SetOf(s), h));
  }

  /** What adding a node leaves: every slot as often as before and the host's slots once more, in
      order, and the host's slots mapped to the node whatever they were mapped to. */
  lemma AddedExactly(hash: Hash, r: Ring, node: Node)
    ensures var (slots, t) := (HostSlots(hash, node.host), Added(hash, r, node));
      && Sorted(t.nodes) && multiset(t.nodes) == multiset(r.nodes) + multiset(slots)
      && (forall s :: s in t.nodeMap <==> s in r.nodeMap || s in slots)
      && (forall s | s in t.nodeMap :: t.nodeMap[s] == if s in slots then node else r.nodeMap[s])
  {
    SortIsExact(r.nodes + HostSlots(hash, node.host));
  }

  class ConsistentHashingRing {
    const hash: Hash
    var nodes: seq<Slot>
    var nodeMap: map<Slot, Node>

    function State(): Ring
      reads this
    {
      Ring(nodes, nodeMap)
    }

    ghost predicate Valid()
      reads this
    {
      Ordered(State())
    }

    constructor (hash: Hash)
      ensures Valid() && this.hash == hash && State() == Init()
    {
      this.hash := hash;
      nodes := [];
      nodeMap := map[];
    }

    /** Appends the host's slots, maps them to the node and sorts. */
    method AddNode(node: Node)
      requires Valid()
      modifies this
      ensures Valid() && State() == Added(hash, old(State()), node)
      ensures Sorted(nodes) && multiset(nodes) == multiset(old(nodes)) + multiset(HostSlots(hash, node.host))
      ensures forall s :: s in nodeMap <==> s in old(nodeMap) || s in HostSlots(hash, node.host)
      ensures forall s | s in nodeMap ::
        nodeMap[s] == if s in HostSlots(hash, node.host) then node else old(nodeMap)[s]
      ensures old(Consistent(State())) ==> Consistent(State())
    {
      ghost var before := State();
      AppendSlots(node);
      SortNodes();
      AddedExactly(hash, before, node);
      AddKeepsRing(hash, before, node);
    }

    method AppendSlots(node: Node)
      modifies `nodes, `nodeMap
      ensures nodes == old(nodes) + HostSlots(hash, node.host)
      ensures nodeMap == WithSlots(old(nodeMap), SlotsOf(hash, node.host), node)
    {
      ghost var before := State();
      var slots := HostSlots(hash, node.host);
      var i := 0;
      while i < VIRTUAL_NODES
        invariant 0 <= i <= VIRTUAL_NODES
        invariant nodes == before.nodes + slots[..i]
        invariant nodeMap == WithSlots(before.nodeMap, SetOf(slots[..i]), node)
      {
        var slot := hash(VirtualKey(node.host, i));
        nodes := nodes + [slot];
        nodeMap := nodeMap[slot := node];
        assert slot == slots[i];
        SetOfPrefix(slots, i);
        WithOneMore(before.nodeMap, SetOf(slots[..i]), slot, node);
        i := i + 1;
      }
      assert slots[..i] == slots;
    }

    method SortNodes()
      modifies this`nodes
      ensures nodes == Sort(old(nodes))
    {
      var sorted: seq<Slot> := [];
      var i := 0;
      while i < |nodes|
        invariant 0 <= i <= |nodes| && nodes == old(nodes)
        invariant sorted == Sort(nodes[..i])
      {
        sorted := Insert(sorted, nodes[i]);
        assert nodes[..i + 1][..i] == nodes[..i];
        i := i + 1;
      }
      assert nodes[..i] == nodes;
      nodes := sorted;
    }

    /** Takes the host's slots out of the map, then rebuilds the sequence from what is left in
        the map. The result is false where the program panics, between the two. */
    method DeleteNode(node: Node) returns (ok: bool)
      requires Valid()
      modifies this
      ensures Valid() && State() == Deleted(hash, old(State()), node)
      ensures ok <==> old(|nodes|) >= 100
      ensures forall s :: s in nodeMap <==> s in old(nodeMap) && s !in HostSlots(hash, node.host)
      ensures forall s | s in nodeMap :: nodeMap[s] == old(nodeMap)[s]
      ensures !ok ==> nodes == old(nodes)
      ensures ok ==>
        Sorted(nodes) && forall s :: multiset(nodes)[s] == if s in nodeMap then multiset(old(nodes))[s] else 0
      ensures ok ==> Consistent(State())
    {
      ghost var before := State();
      DeletedSlots(hash, before, node);
      var slots := HostSlots(hash, node.host);
      var i := 0;
      while i < VIRTUAL_NODES
        invariant 0 <= i <= VIRTUAL_NODES && nodes == before.nodes
        invariant nodeMap == before.nodeMap - SetOf(slots[..i])
      {
        var slot := hash(VirtualKey(node.host, i));
        nodeMap := nodeMap - {slot};
        assert slot == slots[i];
        SetOfPrefix(slots, i);
        i := i + 1;
      }
      assert slots[..i] == slots;
      if |nodes| - VIRTUAL_NODES < 0 {
        return false;
      }
      Rebuild();
      forall s ensures multiset(nodes)[s] == if s in nodeMap then multiset(before.nodes)[s] else 0 {
        KeptCounts(before.nodes, nodeMap.Keys, s);
      }
      return true;
    }

    method Rebuild()
      modifies this`nodes
      ensures nodes == Kept(old(nodes), nodeMap.Keys)
    {
      var newNodes: seq<Slot> := [];
      var i := 0;
      while i < |nodes|
        invariant 0 <= i <= |nodes| && nodes == old(nodes)
        invariant newNodes == Kept(nodes[..i], nodeMap.Keys)
      {
        if nodes[i] in nodeMap {
          newNodes := newNodes + [nodes[i]];
        }
        assert nodes[..i + 1][..i] == nodes[..i];
        i := i + 1;
      }
      assert nodes[..i] == nodes;
      nodes := newNodes;
    }

    /** The node of the first slot clockwise from the key's hash, by binary search. */
    method GetNode(key: string) returns (node: Option<Node>)
      requires Valid()
      ensures node == Owner(State(), hash(key))
      ensures nodes == [] ==> node == None
      ensures nodes != [] ==> exists i: nat | FirstNotBelow(nodes, hash(key), i) ::
        var s := nodes[if i == |nodes| then 0 else i];
        node == if s in nodeMap then Some(nodeMap[s]) else None
      ensures Consistent(State()) ==> (node.None? <==> nodes == [])
    {
      if |nodes| == 0 {
        return None;
      }
      var h := hash(key);
      var index := Search(h);
      assert FirstNotBelow(nodes, h, index);
      SearchFindsSuccessor(nodes, h, index);
      if index == |nodes| {
        index := 0;
      }
      assert nodes[index] in SetOf(nodes);
      return if nodes[index] in nodeMap then Some(nodeMap[nodes[index]]) else None;
    }

    /** The least index whose slot is not below `h`. */
    method Search(h: Slot) returns (index: nat)
      requires Sorted(nodes)
      ensures FirstNotBelow(nodes, h, index)
    {
      index := 0;
      var end := |nodes|;
      while index < end
        invariant 0 <= index <= end <= |nodes|
        invariant forall k | 0 <= k < index :: nodes[k] < h
        invariant forall k | end <= k < |nodes| :: nodes[k] >= h
      {
        var mid := (index + end) / 2;
        if nodes[mid] >= h {
          end := mid;
        } else {
          index := mid + 1;
        }
      }
    }
  }
}
