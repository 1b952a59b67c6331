/** The consistent-hash ring: a sorted sequence of slots, a map from slots to nodes, a hundred
    virtual nodes a host, and lookup by binary search with wrap-around. The hash is any function
    from strings to 64-bit values. */
module HashRing {
  import opened Wrappers

  const VIRTUAL_NODES := 100
  const SLOTS := 0x1_0000_0000_0000_0000

  newtype Slot = x: int | 0 <= x < SLOTS

  type Hash = string -> Slot

  datatype Node = Node(name: string, host: string)

  datatype Ring = Ring(nodes: seq<Slot>, nodeMap: map<Slot, Node>)

  // ---------- The slots of a host ----------

  function Decimal(n: nat): string {
    var digit := [('0' as int + n % 10) as char];
    if n < 10 then digit else Decimal(n / 10) + digit
  }

  function VirtualKey(host: string, i: nat): string {
    host + "#" + Decimal(i)
  }

  function HostSlots(hash: Hash, host: string): seq<Slot> {
    seq(VIRTUAL_NODES, i requires 0 <= i => hash(VirtualKey(host, i)))
  }

  function SetOf(s: seq<Slot>): (r: set<Slot>)
    ensures s != [] ==> r != {}
  {
    var r := set x | x in s;
    assert s != [] ==> s[0] in r;
    r
  }

  function SlotsOf(hash: Hash, host: string): (slots: set<Slot>)
    ensures slots != {}
  {
    SetOf(HostSlots(hash, host))
  }

  // ---------- Sorting and filtering slots ----------

  predicate Sorted(s: seq<Slot>) {
    forall i, j | 0 <= i < j < |s| :: s[i] <= s[j]
  }

  function Insert(s: seq<Slot>, x: Slot): seq<Slot> {
    if s == [] || s[|s| - 1] <= x then s + [x] else Insert(s[..|s| - 1], x) + [s[|s| - 1]]
  }

  lemma {:induction false} InsertKeeps(s: seq<Slot>, x: Slot)
    ensures multiset(Insert(s, x)) == multiset(s) + multiset{x}
  {
    if s == [] || s[|s| - 1] <= x {
    } else {
      assert s == s[..|s| - 1] + [s[|s| - 1]];
      InsertKeeps(s[..|s| - 1], x);
    }
  }

  lemma {:induction false} InsertSorted(s: seq<Slot>, x: Slot)
    requires Sorted(s)
    ensures Sorted(Insert(s, x))
  {
    if s == [] || s[|s| - 1] <= x {
    } else {
      var front, last := s[..|s| - 1], s[|s| - 1];
      InsertSorted(front, x);
      InsertKeeps(front, x);
      forall i | 0 <= i < |Insert(front, x)| ensures Insert(front, x)[i] <= last {
        assert Insert(front, x)[i] in multiset(Insert(front, x));
      }
    }
  }

  function Sort(s: seq<Slot>): seq<Slot> {
    if s == [] then [] else Insert(Sort(s[..|s| - 1]), s[|s| - 1])
  }

  /** The same slots, as often as before, in ascending order. */
  lemma {:induction false} SortIsExact(s: seq<Slot>)
    ensures multiset(Sort(s)) == multiset(s) && Sorted(Sort(s))
  {
    if s == [] {
    } else {
      var front, last := s[..|s| - 1], s[|s| - 1];
      assert s == front + [last];
      SortIsExact(front);
      InsertKeeps(Sort(front), last);
      InsertSorted(Sort(front), last);
    }
  }

  lemma SortKeepsSet(s: seq<Slot>)
    ensures SetOf(Sort(s)) == SetOf(s)
  {
    SortIsExact(s);
    forall x ensures x in Sort(s) <==> x in s {
      assert x in multiset(Sort(s)) <==> x in multiset(s);
    }
  }

  /** The slots that are still in use, in the order they were. */
  function Kept(s: seq<Slot>, used: set<Slot>): seq<Slot> {
    if s == [] then []
    else
      var last := s[|s| - 1];
      Kept(s[..|s| - 1], used) + (if last in used then [last] else [])
  }

  lemma {:induction false} KeptMembers(s: seq<Slot>, used: set<Slot>, x: Slot)
    ensures x in Kept(s, used) <==> x in s && x in used
  {
    if s == [] {
    } else {
      assert s == s[..|s| - 1] + [s[|s| - 1]];
      KeptMembers(s[..|s| - 1], used, x);
    }
  }

  lemma {:induction false} KeptSorted(s: seq<Slot>, used: set<Slot>)
    requires Sorted(s)
    ensures Sorted(Kept(s, used))
  {
    if s == [] {
    } else {
      var front := s[..|s| - 1];
      KeptSorted(front, used);
      forall i | 0 <= i < |Kept(front, used)| ensures Kept(front, used)[i] <= s[|s| - 1] {
        KeptMembers(front, used, Kept(front, used)[i]);
      }
    }
  }

  lemma KeptIsExact(s: seq<Slot>, used: set<Slot>)
    ensures SetOf(Kept(s, used)) == SetOf(s) * used
    ensures Sorted(s) ==> Sorted(Kept(s, used))
  {
    forall x ensures x in Kept(s, used) <==> x in s && x in used {
      KeptMembers(s, used, x);
    }
    if Sorted(s) {
      KeptSorted(s, used);
    }
  }

  lemma {:induction false} KeptCounts(s: seq<Slot>, used: set<Slot>, x: Slot)
    ensures multiset(Kept(s, used))[x] == if x in used then multiset(s)[x] else 0
  {
    if s == [] {
    } else {
      var front := s[..|s| - 1];
      assert s == front + [s[|s| - 1]];
      KeptCounts(front, used, x);
    }
  }

  // ---------- The operations ----------

  function Init(): Ring {
    Ring([], map[])
  }

  function WithSlots(m: map<Slot, Node>, slots: set<Slot>, node: Node): map<Slot, Node> {
    m + map s | s in slots :: node
  }

  function Added(hash: Hash, r: Ring, node: Node): Ring {
    Ring(Sort(r.nodes + HostSlots(hash, node.host)), WithSlots(r.nodeMap, SlotsOf(hash, node.host), node))
  }

  /** Deleting panics, with the map changed and the sequence not, if the sequence is shorter
      than one host's slots: it is asked for a negative capacity. */
  predicate Panics(r: Ring) {
    |r.nodes| < VIRTUAL_NODES
  }

  function Deleted(hash: Hash, r: Ring, node: Node): Ring {
    var m := r.nodeMap - SlotsOf(hash, node.host);
    Ring(if Panics(r) then r.nodes else Kept(r.nodes, m.Keys), m)
  }

  // ---------- Lookup ----------

  /** How far a slot is from a hash value, going clockwise. */
  function Distance(h: Slot, s: Slot): nat {
    if h <= s then s as int - h as int else s as int + SLOTS - h as int
  }

  ghost predicate IsSuccessor(slots: set<Slot>, h: Slot, s: Slot) {
    s in slots && forall t | t in slots :: Distance(h, s) <= Distance(h, t)
  }

  lemma SuccessorIsUnique(slots: set<Slot>, h: Slot, s: Slot, t: Slot)
    requires IsSuccessor(slots, h, s) && IsSuccessor(slots, h, t)
    ensures s == t
  {
  }

  lemma {:induction false} SuccessorExists(slots: set<Slot>, h: Slot)
    requires slots != {}
    ensures exists s :: IsSuccessor(slots, h, s)
    decreases slots
  {
    var x :| x in slots;
    if slots == {x} {
      assert IsSuccessor(slots, h, x);
    } else {
      SuccessorExists(slots - {x}, h);
      var t :| IsSuccessor(slots - {x}, h, t);
      assert IsSuccessor(slots, h, if Distance(h, x) < Distance(h, t) then x else t);
    }
  }

  /** The first of the slots at or after a hash value, clockwise. */
  ghost function Successor(slots: set<Slot>, h: Slot): (s: Slot)
    requires slots != {}
    ensures IsSuccessor(slots, h, s)
  {
    SuccessorExists(slots, h);
    var s :| IsSuccessor(slots, h, s);
    s
  }

  /** The node whose slot comes first, clockwise from a hash value. */
  ghost function Owner(r: Ring, h: Slot): Option<Node> {
    if r.nodes == [] then None
    else
      var s := Successor(SetOf(r.nodes), h);
      if s in r.nodeMap then Some(r.nodeMap[s]) else None
  }

  // ---------- What every operation keeps ----------

  /** Holds in every state, even after a panic. */
  predicate Ordered(r: Ring) {
    Sorted(r.nodes) && r.nodeMap.Keys <= SetOf(r.nodes)
  }

  /** The sequence and the map agree about which slots are in use. */
  predicate Consistent(r: Ring) {
    Ordered(r) && SetOf(r.nodes) == r.nodeMap.Keys
  }

  lemma AddedSlots(hash: Hash, r: Ring, node: Node)
    ensures SetOf(Added(hash, r, node).nodes) == SetOf(r.nodes) + SlotsOf(hash, node.host)
    ensures Added(hash, r, node).nodeMap.Keys == r.nodeMap.Keys + SlotsOf(hash, node.host)
  {
    SortKeepsSet(r.nodes + HostSlots(hash, node.host));
  }

  lemma AddKeepsRing(hash: Hash, r: Ring, node: Node)
    ensures Ordered(r) ==> Ordered(Added(hash, r, node))
    ensures Consistent(r) ==> Consistent(Added(hash, r, node))
  {
    AddedSlots(hash, r, node);
    SortIsExact(r.nodes + HostSlots(hash, node.host));
  }

  lemma DeletedSlots(hash: Hash, r: Ring, node: Node)
    requires Ordered(r)
    ensures !Panics(r) ==> SetOf(Deleted(hash, r, node).nodes) == r.nodeMap.Keys - SlotsOf(hash, node.host)
    ensures Ordered(Deleted(hash, r, node))
  {
    var m := r.nodeMap - SlotsOf(hash, node.host);
    KeptIsExact(r.nodes, m.Keys);
  }

  /** After a deletion the sequence and the map agree if and only if it did not panic, or there
      was nothing to delete. */
  lemma DeleteKeepsRing(hash: Hash, r: Ring, node: Node)
    requires Consistent(r)
    ensures Ordered(Deleted(hash, r, node))
    ensures Consistent(Deleted(hash, r, node)) <==> !Panics(r) || SlotsOf(hash, node.host) !! r.nodeMap.Keys
  {
    DeletedSlots(hash, r, node);
    if Panics(r) && !(SlotsOf(hash, node.host) !! r.nodeMap.Keys) {
      var s :| s in SlotsOf(hash, node.host) && s in r.nodeMap.Keys;
      assert s in SetOf(r.nodes) && s !in Deleted(hash, r, node).nodeMap.Keys;
    }
  }

  // ---------- Few keys move ----------

  lemma SuccessorOfFewer(slots: set<Slot>, fewer: set<Slot>, h: Slot)
    requires fewer <= slots && slots != {} && Successor(slots, h) in fewer
    ensures fewer != {} && Successor(fewer, h) == Successor(slots, h)
  {
    SuccessorIsUnique(fewer, h, Successor(fewer, h), Successor(slots, h));
  }

  /** Adding a node moves a key to that node or not at all, even if hosts share slots. It moves
      to the node exactly when one of the node's slots comes first. */
  lemma AddMovesOnlyToAdded(hash: Hash, r: Ring, node: Node, h: Slot)
    requires Ordered(r)
    ensures var r' := Added(hash, r, node);
      && r'.nodes != []
      && (Owner(r', h) == Some(node) || Owner(r', h) == Owner(r, h))
      && (Successor(SetOf(r'.nodes), h) in SlotsOf(hash, node.host) ==> Owner(r', h) == Some(node))
      && (Successor(SetOf(r'.nodes), h) !in SlotsOf(hash, node.host) ==> Owner(r', h) == Owner(r, h))
  {
    var r' := Added(hash, r, node);
    AddedSlots(hash, r, node);
    AddKeepsRing(hash, r, node);
    var s := Successor(SetOf(r'.nodes), h);
    if s !in SlotsOf(hash, node.host) {
      SuccessorOfFewer(SetOf(r'.nodes), SetOf(r.nodes), h);
    }
  }

  /** No other host has one of this host's slots. */
  predicate OwnSlots(hash: Hash, r: Ring, host: string) {
    forall s | s in SlotsOf(hash, host) && s in r.nodeMap :: r.nodeMap[s].host == host
  }

  /** Deleting a node moves a key only if that node owned it, provided its slots are its own;
      even a deletion that panics. */
  lemma DeleteMovesOnlyFromDeleted(hash: Hash, r: Ring, node: Node, h: Slot)
    requires Consistent(r) && OwnSlots(hash, r, node.host)
    ensures var r' := Deleted(hash, r, node);
      Owner(r', h) == Owner(r, h) || (Owner(r, h).Some? && Owner(r, h).value.host == node.host)
  {
    var r' := Deleted(hash, r, node);
    DeletedSlots(hash, r, node);
    if r.nodes != [] && !Panics(r) {
      var s := Successor(SetOf(r.nodes), h);
      if s !in SlotsOf(hash, node.host) {
        SuccessorOfFewer(SetOf(r.nodes), SetOf(r'.nodes), h);
      }
    }
  }

  /** Going clockwise to the next of many slots and on to the next of fewer is going to the
      next of the fewer at once. */
  lemma SuccessorInTwoSteps(slots: set<Slot>, fewer: set<Slot>, h: Slot)
    requires fewer <= slots && fewer != {}
    ensures Successor(fewer, h) == Successor(fewer, Successor(slots, h))
  {
    var s := Successor(slots, h);
    var t := Successor(fewer, s);
    forall u | u in fewer ensures Distance(h, t) <= Distance(h, u) {
      assert Distance(h, u) == Distance(h, s) + Distance(s, u) && Distance(h, t) == Distance(h, s) + Distance(s, t);
    }
    SuccessorIsUnique(fewer, h, t, Successor(fewer, h));
  }

  /** Another host's key keeps its owner. */
  ghost predicate KeepsOthers(r: Ring, r': Ring, host: string) {
    forall h: Slot | Owner(r, h).Some? && Owner(r, h).value.host != host :: Owner(r', h) == Owner(r, h)
  }

  /** Every slot of the host that the map gives to another host's node comes before a slot that
      stays and has the same node. */
  ghost predicate SharedFallToSame(hash: Hash, r: Ring, host: string) {
    var stay := r.nodeMap.Keys - SlotsOf(hash, host);
    forall s | s in SlotsOf(hash, host) && s in r.nodeMap && r.nodeMap[s].host != host ::
      stay != {} && r.nodeMap[Successor(stay, s)] == r.nodeMap[s]
  }

  lemma OwnerIsAt(r: Ring, s: Slot)
    requires Consistent(r) && s in r.nodeMap
    ensures r.nodes != [] && Owner(r, s) == Some(r.nodeMap[s])
  {
    assert s in SetOf(r.nodes);
    assert IsSuccessor(SetOf(r.nodes), s, s);
    SuccessorIsUnique(SetOf(r.nodes), s, s, Successor(SetOf(r.nodes), s));
  }

  lemma SharedKeyKeepsOwner(hash: Hash, r: Ring, node: Node, h: Slot)
    requires Consistent(r) && !Panics(r) && SharedFallToSame(hash, r, node.host)
    requires Owner(r, h).Some? && Owner(r, h).value.host != node.host
    ensures Owner(Deleted(hash, r, node), h) == Owner(r, h)
  {
    var r' := Deleted(hash, r, node);
    DeletedSlots(hash, r, node);
    var s := Successor(SetOf(r.nodes), h);
    if s in SlotsOf(hash, node.host) {
      SuccessorInTwoSteps(SetOf(r.nodes), SetOf(r'.nodes), h);
    } else {
      SuccessorOfFewer(SetOf(r.nodes), SetOf(r'.nodes), h);
    }
  }

  lemma KeptOwnerFallsToSame(hash: Hash, r: Ring, node: Node, s: Slot)
    requires Consistent(r) && !Panics(r) && KeepsOthers(r, Deleted(hash, r, node), node.host)
    requires s in SlotsOf(hash, node.host) && s in r.nodeMap && r.nodeMap[s].host != node.host
    ensures var stay := r.nodeMap.Keys - SlotsOf(hash, node.host);
      stay != {} && r.nodeMap[Successor(stay, s)] == r.nodeMap[s]
  {
    DeletedSlots(hash, r, node);
    OwnerIsAt(r, s);
    assert Owner(Deleted(hash, r, node), s) == Some(r.nodeMap[s]);
  }

  /** A deletion that panics takes the nodes of the host's slots and leaves the slots, so a
      shared one answers for nobody. */
  lemma PanicLosesShared(hash: Hash, r: Ring, node: Node, s: Slot)
    requires Consistent(r) && Panics(r) && s in SlotsOf(hash, node.host) && s in r.nodeMap
    ensures Owner(r, s) == Some(r.nodeMap[s]) && Owner(Deleted(hash, r, node), s) == None
  {
    OwnerIsAt(r, s);
    assert IsSuccessor(SetOf(r.nodes), s, s);
    SuccessorIsUnique(SetOf(r.nodes), s, s, Successor(SetOf(r.nodes), s));
  }

  /** What another host's keys need to survive a deletion: if it panics, that no slot is shared,
      and otherwise that every shared slot falls to the node it had. */
  ghost predicate SharedAreSafe(hash: Hash, r: Ring, host: string) {
    if Panics(r) then OwnSlots(hash, r, host) else SharedFallToSame(hash, r, host)
  }

  lemma SafeKeepsOthers(hash: Hash, r: Ring, node: Node)
    requires Consistent(r) && SharedAreSafe(hash, r, node.host)
    ensures KeepsOthers(r, Deleted(hash, r, node), node.host)
  {
    forall h: Slot | Owner(r, h).Some? && Owner(r, h).value.host != node.host
      ensures Owner(Deleted(hash, r, node), h) == Owner(r, h)
    {
      if Panics(r) {
        DeleteMovesOnlyFromDeleted(hash, r, node, h);
      } else {
        SharedKeyKeepsOwner(hash, r, node, h);
      }
    }
  }

  lemma KeptOthersAreSafe(hash: Hash, r: Ring, node: Node)
    requires Consistent(r) && KeepsOthers(r, Deleted(hash, r, node), node.host)
    ensures SharedAreSafe(hash, r, node.host)
  {
    if Panics(r) {
      forall s | s in SlotsOf(hash, node.host) && s in r.nodeMap ensures r.nodeMap[s].host == node.host {
        PanicLosesShared(hash, r, node, s);
      }
    } else {
      forall s | s in SlotsOf(hash, node.host) && s in r.nodeMap && r.nodeMap[s].host != node.host
        ensures var stay := r.nodeMap.Keys - SlotsOf(hash, node.host);
          stay != {} && r.nodeMap[Successor(stay, s)] == r.nodeMap[s]
      {
        KeptOwnerFallsToSame(hash, r, node, s);
      }
    }
  }

  /** A deletion changes the owner of no key of another host if and only if the slots the deleted
      host shares are safe. */
  lemma DeleteKeepsOthersIffSafe(hash: Hash, r: Ring, node: Node)
    requires Consistent(r)
    ensures KeepsOthers(r, Deleted(hash, r, node), node.host) <==> SharedAreSafe(hash, r, node.host)
  {
    if SharedAreSafe(hash, r, node.host) {
      SafeKeepsOthers(hash, r, node);
    }
    if KeepsOthers(r, Deleted(hash, r, node), node.host) {
      KeptOthersAreSafe(hash, r, node);
    }
  }

  /** The slot whose node serves a hash value, if any. */
  ghost function Serving(r: Ring, h: Slot): Option<Slot> {
    if r.nodes == [] then None
    else
      var s := Successor(SetOf(r.nodes), h);
      if s in r.nodeMap then Some(s) else None
  }

  /** Another host's key stays on the slot that serves it. */
  ghost predicate KeepsServing(r: Ring, r': Ring, host: string) {
    forall h: Slot | Owner(r, h).Some? && Owner(r, h).value.host != host :: Serving(r', h) == Serving(r, h)
  }

  lemma OwnSlotsUndisturbed(hash: Hash, r: Ring, node: Node, h: Slot)
    requires Consistent(r) && OwnSlots(hash, r, node.host)
    requires Owner(r, h).Some? && Owner(r, h).value.host != node.host
    ensures Serving(Deleted(hash, r, node), h) == Serving(r, h)
  {
    DeletedSlots(hash, r, node);
    if !Panics(r) {
      SuccessorOfFewer(SetOf(r.nodes), SetOf(Deleted(hash, r, node).nodes), h);
    }
  }

  lemma SharedSlotDisturbs(hash: Hash, r: Ring, node: Node, s: Slot)
    requires Consistent(r)
    requires s in SlotsOf(hash, node.host) && s in r.nodeMap && r.nodeMap[s].host != node.host
    ensures !KeepsServing(r, Deleted(hash, r, node), node.host)
  {
    OwnerIsAt(r, s);
    assert IsSuccessor(SetOf(r.nodes), s, s);
    SuccessorIsUnique(SetOf(r.nodes), s, s, Successor(SetOf(r.nodes), s));
    assert Serving(r, s) == Some(s);
    assert s !in Deleted(hash, r, node).nodeMap;
    assert Serving(Deleted(hash, r, node), s) != Some(s);
  }

  /** A deletion leaves every other host's keys on the slots that serve them if and only if no
      other host shares a slot with the deleted one. */
  lemma DeleteDisturbsOthersIffShared(hash: Hash, r: Ring, node: Node)
    requires Consistent(r)
    ensures KeepsServing(r, Deleted(hash, r, node), node.host) <==> OwnSlots(hash, r, node.host)
  {
    if OwnSlots(hash, r, node.host) {
      forall h: Slot | Owner(r, h).Some? && Owner(r, h).value.host != node.host
        ensures Serving(Deleted(hash, r, node), h) == Serving(r, h)
      {
        OwnSlotsUndisturbed(hash, r, node, h);
      }
    } else {
      var s :| s in SlotsOf(hash, node.host) && s in r.nodeMap && r.nodeMap[s].host != node.host;
      SharedSlotDisturbs(hash, r, node, s);
    }
  }
}
