/** Whole histories of a ring: when no two hosts share a slot, the ring depends only on which
    nodes are live, not on the additions and deletions that led there. */
module HashRingHistory {
  import opened Wrappers
  import opened HashRing

  datatype Event = Add(node: Node) | Delete(node: Node)

  function Next(hash: Hash, r: Ring, e: Event): Ring {
    match e
    case Add(node) => Added(hash, r, node)
    case Delete(node) => Deleted(hash, r, node)
  }

  /** The ring after a history that starts with an empty ring. */
  function After(hash: Hash, es: seq<Event>): Ring {
    if es == [] then Init() else Next(hash, After(hash, es[..|es| - 1]), es[|es| - 1])
  }

  function NextLive(live: map<string, Node>, e: Event): map<string, Node> {
    match e
    case Add(node) => live[node.host := node]
    case Delete(node) => live - {node.host}
  }

  /** The nodes added and not deleted since, by host. */
  function Live(es: seq<Event>): map<string, Node> {
    if es == [] then map[] else NextLive(Live(es[..|es| - 1]), es[|es| - 1])
  }

  predicate NoneShared(hash: Hash, hosts: set<string>) {
    forall a, b | a in hosts && b in hosts && a != b :: SlotsOf(hash, a) !! SlotsOf(hash, b)
  }

  predicate Within(es: seq<Event>, hosts: set<string>) {
    forall e | e in es :: e.node.host in hosts
  }

  // ---------- What the ring holds ----------

  /** The map has exactly the live hosts' slots, each with its own host's node. */
  ghost predicate HoldsLive(hash: Hash, m: map<Slot, Node>, live: map<string, Node>) {
    && (forall host | host in live :: live[host].host == host)
    && (forall host, s | host in live && s in SlotsOf(hash, host) :: s in m && m[s] == live[host])
    && (forall s | s in m :: exists host :: host in live && s in SlotsOf(hash, host))
  }

  /** The sequence has room for every live host's slots, so deleting one cannot panic. */
  ghost predicate HoldsEnough(hash: Hash, nodes: seq<Slot>, live: map<string, Node>) {
    forall host | host in live :: multiset(HostSlots(hash, host)) <= multiset(nodes)
  }

  ghost predicate Inv(hash: Hash, hosts: set<string>, r: Ring, live: map<string, Node>) {
    Consistent(r) && HoldsLive(hash, r.nodeMap, live) && HoldsEnough(hash, r.nodes, live) && live.Keys <= hosts
  }

  lemma SlotIsHosts(hash: Hash, hosts: set<string>, a: string, b: string, s: Slot)
    requires NoneShared(hash, hosts) && a in hosts && b in hosts
    requires s in SlotsOf(hash, a) && s in SlotsOf(hash, b)
    ensures a == b
  {
    assert a == b || SlotsOf(hash, a) !! SlotsOf(hash, b);
  }

  lemma AddHoldsLive(hash: Hash, hosts: set<string>, m: map<Slot, Node>, live: map<string, Node>, node: Node)
    requires NoneShared(hash, hosts) && HoldsLive(hash, m, live) && live.Keys <= hosts && node.host in hosts
    ensures HoldsLive(hash, WithSlots(m, SlotsOf(hash, node.host), node), live[node.host := node])
  {
    var m', live' := WithSlots(m, SlotsOf(hash, node.host), node), live[node.host := node];
    forall host, s | host in live' && s in SlotsOf(hash, host) ensures s in m' && m'[s] == live'[host] {
      if s in SlotsOf(hash, node.host) {
        SlotIsHosts(hash, hosts, host, node.host, s);
      }
    }
    forall s | s in m' ensures exists host :: host in live' && s in SlotsOf(hash, host) {
      if s in SlotsOf(hash, node.host) {
        assert node.host in live';
      } else {
        var host :| host in live && s in SlotsOf(hash, host);
        assert host in live';
      }
    }
  }

  lemma AddHoldsEnough(hash: Hash, r: Ring, live: map<string, Node>, node: Node)
    requires HoldsEnough(hash, r.nodes, live)
    ensures HoldsEnough(hash, Added(hash, r, node).nodes, live[node.host := node])
  {
    var added := HostSlots(hash, node.host);
    SortIsExact(r.nodes + added);
    assert multiset(Added(hash, r, node).nodes) == multiset(r.nodes) + multiset(added);
    forall host | host in live[node.host := node]
      ensures multiset(HostSlots(hash, host)) <= multiset(Added(hash, r, node).nodes)
    {
      if host != node.host {
        assert multiset(HostSlots(hash, host)) <= multiset(r.nodes);
      }
    }
  }

  lemma DeleteHoldsLive(hash: Hash, hosts: set<string>, m: map<Slot, Node>, live: map<string, Node>, gone: string)
    requires NoneShared(hash, hosts) && HoldsLive(hash, m, live) && live.Keys <= hosts && gone in hosts
    ensures HoldsLive(hash, m - SlotsOf(hash, gone), live - {gone})
  {
    var m', live' := m - SlotsOf(hash, gone), live - {gone};
    forall host, s | host in live' && s in SlotsOf(hash, host) ensures s in m' && m'[s] == live'[host] {
      if s in SlotsOf(hash, gone) {
        SlotIsHosts(hash, hosts, host, gone, s);
      }
    }
    forall s | s in m' ensures exists host :: host in live' && s in SlotsOf(hash, host) {
      var host :| host in live && s in SlotsOf(hash, host);
      assert host in live';
    }
  }

  lemma KeptHasHost(hash: Hash, nodes: seq<Slot>, used: set<Slot>, host: string)
    requires multiset(HostSlots(hash, host)) <= multiset(nodes) && SlotsOf(hash, host) <= used
    ensures multiset(HostSlots(hash, host)) <= multiset(Kept(nodes, used))
  {
    forall s ensures multiset(HostSlots(hash, host))[s] <= multiset(Kept(nodes, used))[s] {
      KeptCounts(nodes, used, s);
      if s in multiset(HostSlots(hash, host)) {
        assert s in HostSlots(hash, host);
        assert s in SlotsOf(hash, host);
      }
    }
  }

  /** A ring with a live host is long enough for any deletion; only an empty one panics. */
  lemma OnlyEmptyPanics(hash: Hash, hosts: set<string>, r: Ring, live: map<string, Node>)
    requires Inv(hash, hosts, r, live)
    ensures Panics(r) <==> live == map[]
    ensures live == map[] ==> r == Init()
  {
    if live != map[] {
      var host :| host in live;
      assert multiset(HostSlots(hash, host)) <= multiset(r.nodes);
      assert |r.nodes| == |multiset(HostSlots(hash, host))| + |multiset(r.nodes) - multiset(HostSlots(hash, host))|;
    } else {
      assert r.nodeMap.Keys == {};
      assert SetOf(r.nodes) == {};
    }
  }

  lemma AddKeepsInv(hash: Hash, hosts: set<string>, r: Ring, live: map<string, Node>, node: Node)
    requires NoneShared(hash, hosts) && node.host in hosts && Inv(hash, hosts, r, live)
    ensures Inv(hash, hosts, Added(hash, r, node), live[node.host := node])
  {
    AddKeepsRing(hash, r, node);
    AddHoldsLive(hash, hosts, r.nodeMap, live, node);
    AddHoldsEnough(hash, r, live, node);
  }

  lemma LiveSlotsHeld(hash: Hash, m: map<Slot, Node>, live: map<string, Node>, host: string)
    requires HoldsLive(hash, m, live) && host in live
    ensures SlotsOf(hash, host) <= m.Keys
  {
    forall s | s in SlotsOf(hash, host) ensures s in m {
    }
  }

  lemma DeleteHoldsEnough(hash: Hash, r: Ring, live: map<string, Node>, node: Node)
    requires HoldsEnough(hash, r.nodes, live)
    requires HoldsLive(hash, Deleted(hash, r, node).nodeMap, live - {node.host})
    ensures HoldsEnough(hash, Deleted(hash, r, node).nodes, live - {node.host})
  {
    var r' := Deleted(hash, r, node);
    forall host | host in live - {node.host} ensures multiset(HostSlots(hash, host)) <= multiset(r'.nodes) {
      assert multiset(HostSlots(hash, host)) <= multiset(r.nodes);
      LiveSlotsHeld(hash, r'.nodeMap, live - {node.host}, host);
      KeptHasHost(hash, r.nodes, r'.nodeMap.Keys, host);
    }
  }

  lemma DeleteKeepsConsistent(hash: Hash, hosts: set<string>, r: Ring, live: map<string, Node>, node: Node)
    requires Inv(hash, hosts, r, live)
    ensures Consistent(Deleted(hash, r, node))
  {
    OnlyEmptyPanics(hash, hosts, r, live);
    DeleteKeepsRing(hash, r, node);
  }

  lemma DeleteKeepsInv(hash: Hash, hosts: set<string>, r: Ring, live: map<string, Node>, node: Node)
    requires NoneShared(hash, hosts) && node.host in hosts && Inv(hash, hosts, r, live)
    ensures Inv(hash, hosts, Deleted(hash, r, node), live - {node.host})
  {
    DeleteKeepsConsistent(hash, hosts, r, live, node);
    DeleteHoldsLive(hash, hosts, r.nodeMap, live, node.host);
    DeleteHoldsEnough(hash, r, live, node);
  }

  lemma {:induction false} HistoryKeepsInv(hash: Hash, hosts: set<string>, es: seq<Event>)
    requires NoneShared(hash, hosts) && Within(es, hosts)
    ensures Inv(hash, hosts, After(hash, es), Live(es))
  {
    if es == [] {
    } else {
      var front, last := es[..|es| - 1], es[|es| - 1];
      HistoryKeepsInv(hash, hosts, front);
      assert last in es && es == front + [last];
      match last
      case Add(node) => AddKeepsInv(hash, hosts, After(hash, front), Live(front), node);
      case Delete(node) => DeleteKeepsInv(hash, hosts, After(hash, front), Live(front), node);
    }
  }

  // ---------- Whatever the history ----------

  /** With any hash, and even after a panic, the slots stay sorted. */
  lemma {:induction false} AlwaysOrdered(hash: Hash, es: seq<Event>)
    ensures Ordered(After(hash, es))
  {
    if es == [] {
    } else {
      AlwaysOrdered(hash, es[..|es| - 1]);
      var r := After(hash, es[..|es| - 1]);
      match es[|es| - 1]
      case Add(node) => AddKeepsRing(hash, r, node);
      case Delete(node) => DeletedSlots(hash, r, node);
    }
  }

  ghost predicate IsFirst(hash: Hash, live: map<string, Node>, h: Slot, s: Slot) {
    forall host, t | host in live && t in SlotsOf(hash, host) :: Distance(h, s) <= Distance(h, t)
  }

  /** One of the node's slots comes first of all live nodes' slots, clockwise from `h`. */
  ghost predicate IsClosest(hash: Hash, live: map<string, Node>, h: Slot, n: Node) {
    && n.host in live && live[n.host] == n
    && exists s :: s in SlotsOf(hash, n.host) && IsFirst(hash, live, h, s)
  }

  lemma SuccessorIsClosest(hash: Hash, m: map<Slot, Node>, live: map<string, Node>, h: Slot, s: Slot)
    requires HoldsLive(hash, m, live) && IsSuccessor(m.Keys, h, s)
    ensures IsClosest(hash, live, h, m[s])
  {
    var host :| host in live && s in SlotsOf(hash, host);
    forall other, t | other in live && t in SlotsOf(hash, other) ensures Distance(h, s) <= Distance(h, t) {
      assert t in m;
    }
    assert IsFirst(hash, live, h, s);
  }

  lemma OwnerIsClosest(hash: Hash, hosts: set<string>, r: Ring, live: map<string, Node>, h: Slot)
    requires Inv(hash, hosts, r, live) && r.nodes != []
    ensures Owner(r, h).Some? && IsClosest(hash, live, h, Owner(r, h).value)
  {
    SuccessorIsClosest(hash, r.nodeMap, live, h, Successor(SetOf(r.nodes), h));
  }

  lemma EmptyStaysEmpty(hash: Hash, node: Node)
    ensures Panics(Init()) && Deleted(hash, Init(), node) == Init()
  {
  }

  /** When no hosts share slots: sequence and map agree at every point of a history, a lookup
      gives the live node whose slot comes first clockwise, and deleting panics only on an
      empty ring, which it leaves as it was. */
  lemma LookupIsClockwise(hash: Hash, hosts: set<string>, es: seq<Event>, h: Slot)
    requires NoneShared(hash, hosts) && Within(es, hosts)
    ensures var (r, live) := (After(hash, es), Live(es));
      && Consistent(r)
      && (Owner(r, h).None? <==> live == map[])
      && (Owner(r, h).Some? ==> IsClosest(hash, live, h, Owner(r, h).value))
      && (Panics(r) <==> live == map[])
      && (Panics(r) ==> forall node :: Deleted(hash, r, node) == r)
  {
    HistoryKeepsInv(hash, hosts, es);
    var r, live := After(hash, es), Live(es);
    OnlyEmptyPanics(hash, hosts, r, live);
    if live == map[] {
      forall node ensures Deleted(hash, r, node) == r {
        EmptyStaysEmpty(hash, node);
      }
    } else {
      OwnerIsClosest(hash, hosts, r, live, h);
    }
  }

  // ---------- The history is forgotten ----------

  lemma SameLiveSameMap(hash: Hash, m: map<Slot, Node>, m': map<Slot, Node>, live: map<string, Node>)
    requires HoldsLive(hash, m, live) && HoldsLive(hash, m', live)
    ensures m == m'
  {
    forall s ensures s in m <==> s in m' {
      if s in m {
        var host :| host in live && s in SlotsOf(hash, host);
      }
      if s in m' {
        var host :| host in live && s in SlotsOf(hash, host);
      }
    }
    forall s | s in m ensures m[s] == m'[s] {
      var host :| host in live && s in SlotsOf(hash, host);
    }
  }

  lemma HistoryIsForgotten(hash: Hash, hosts: set<string>, es: seq<Event>, es': seq<Event>, h: Slot)
    requires NoneShared(hash, hosts) && Within(es, hosts) && Within(es', hosts) && Live(es) == Live(es')
    ensures After(hash, es).nodeMap == After(hash, es').nodeMap
    ensures Owner(After(hash, es), h) == Owner(After(hash, es'), h)
  {
    HistoryKeepsInv(hash, hosts, es);
    HistoryKeepsInv(hash, hosts, es');
    var r, r' := After(hash, es), After(hash, es');
    SameLiveSameMap(hash, r.nodeMap, r'.nodeMap, Live(es));
    assert SetOf(r.nodes) == SetOf(r'.nodes);
    assert r.nodes == [] <==> r'.nodes == [];
  }

  /** Two histories that end with the same live nodes look up every hash value alike. */
  ghost predicate Forgets(hash: Hash, hosts: set<string>) {
    forall es, es', h | Within(es, hosts) && Within(es', hosts) && Live(es) == Live(es') ::
      Owner(After(hash, es), h) == Owner(After(hash, es'), h)
  }

  lemma LastAddedOwns(hash: Hash, r: Ring, node: Node, s: Slot)
    requires Ordered(r) && s in SlotsOf(hash, node.host)
    ensures Owner(Added(hash, r, node), s) == Some(node)
  {
    AddedSlots(hash, r, node);
    var slots := SetOf(Added(hash, r, node).nodes);
    assert IsSuccessor(slots, s, s);
    SuccessorIsUnique(slots, s, s, Successor(slots, s));
    AddMovesOnlyToAdded(hash, r, node, s);
  }

  lemma AfterOne(hash: Hash, es: seq<Event>, e: Event)
    ensures After(hash, es + [e]) == Next(hash, After(hash, es), e)
    ensures Live(es + [e]) == NextLive(Live(es), e)
  {
    assert (es + [e])[..|es|] == es;
  }

  lemma AddTwo(hash: Hash, first: Node, second: Node, s: Slot) returns (es: seq<Event>)
    requires s in SlotsOf(hash, second.host)
    ensures Owner(After(hash, es), s) == Some(second)
    ensures Live(es) == map[first.host := first][second.host := second]
    ensures Within(es, {first.host, second.host})
  {
    AfterOne(hash, [], Add(first));
    assert [] + [Add(first)] == [Add(first)];
    AfterOne(hash, [Add(first)], Add(second));
    AlwaysOrdered(hash, [Add(first)]);
    LastAddedOwns(hash, After(hash, [Add(first)]), second, s);
    es := [Add(first)] + [Add(second)];
  }

  lemma Remembers(hash: Hash, hosts: set<string>, es: seq<Event>, es': seq<Event>, h: Slot)
    requires Within(es, hosts) && Within(es', hosts) && Live(es) == Live(es')
    requires Owner(After(hash, es), h) != Owner(After(hash, es'), h)
    ensures !Forgets(hash, hosts)
  {
  }

  lemma UpdatesCommute(live: map<string, Node>, a: Node, b: Node)
    requires a.host != b.host
    ensures live[a.host := a][b.host := b] == live[b.host := b][a.host := a]
  {
  }

  lemma EitherOrder(hash: Hash, a: Node, b: Node, s: Slot) returns (es: seq<Event>, es': seq<Event>)
    requires a.host != b.host && s in SlotsOf(hash, a.host) && s in SlotsOf(hash, b.host)
    ensures Within(es, {a.host, b.host}) && Within(es', {a.host, b.host}) && Live(es) == Live(es')
    ensures Owner(After(hash, es), s) == Some(b) && Owner(After(hash, es'), s) == Some(a)
  {
    es := AddTwo(hash, a, b, s);
    es' := AddTwo(hash, b, a, s);
    UpdatesCommute(map[], a, b);
  }

  lemma SharedIsRemembered(hash: Hash, hosts: set<string>, a: Node, b: Node, s: Slot)
    requires a.host in hosts && b.host in hosts && a.host != b.host
    requires s in SlotsOf(hash, a.host) && s in SlotsOf(hash, b.host)
    ensures !Forgets(hash, hosts)
  {
    var es, es' := EitherOrder(hash, a, b, s);
    Remembers(hash, hosts, es, es', s);
  }

  /** The ring forgets its history if and only if no two hosts share a slot. */
  lemma ForgetsIffNoneShared(hash: Hash, hosts: set<string>)
    ensures Forgets(hash, hosts) <==> NoneShared(hash, hosts)
  {
    if NoneShared(hash, hosts) {
      forall es, es', h | Within(es, hosts) && Within(es', hosts) && Live(es) == Live(es')
        ensures Owner(After(hash, es), h) == Owner(After(hash, es'), h)
      {
        HistoryIsForgotten(hash, hosts, es, es', h);
      }
    } else {
      var a, b :| a in hosts && b in hosts && a != b && !(SlotsOf(hash, a) !! SlotsOf(hash, b));
      var s :| s in SlotsOf(hash, a) && s in SlotsOf(hash, b);
      SharedIsRemembered(hash, hosts, Node("", a), Node("", b), s);
    }
  }

  /** In such a history a deletion moves only the deleted node's keys. */
  lemma DeletionMovesOnlyItsKeys(hash: Hash, hosts: set<string>, es: seq<Event>, node: Node, h: Slot)
    requires NoneShared(hash, hosts) && Within(es, hosts) && node.host in Live(es)
    ensures var r := After(hash, es);
      && !Panics(r)
      && (Owner(Deleted(hash, r, node), h) != Owner(r, h) ==> Owner(r, h) == Some(Live(es)[node.host]))
  {
    HistoryKeepsInv(hash, hosts, es);
    var r, live := After(hash, es), Live(es);
    OnlyEmptyPanics(hash, hosts, r, live);
    forall s | s in SlotsOf(hash, node.host) && s in r.nodeMap ensures r.nodeMap[s].host == node.host {
      assert r.nodeMap[s] == live[node.host];
    }
    DeleteMovesOnlyFromDeleted(hash, r, node, h);
    LookupIsClockwise(hash, hosts, es, h);
  }

  /** Every slot in the map is one of its node's own. */
  predicate OnOwnSlots(hash: Hash, m: map<Slot, Node>) {
    forall s | s in m :: s in SlotsOf(hash, m[s].host)
  }

  lemma {:induction false} AlwaysOnOwnSlots(hash: Hash, es: seq<Event>)
    ensures OnOwnSlots(hash, After(hash, es).nodeMap)
  {
    if es == [] {
    } else {
      AlwaysOnOwnSlots(hash, es[..|es| - 1]);
    }
  }

  /** When hosts do share slots a live node can vanish: if all of a host's slots are also
      another's, deleting the other leaves the first live and without any key. */
  lemma SharedSlotsLoseNodes(hash: Hash, es: seq<Event>, gone: Node, host: string, h: Slot)
    requires host in Live(es) && host != gone.host && SlotsOf(hash, host) <= SlotsOf(hash, gone.host)
    ensures var es' := es + [Delete(gone)];
      host in Live(es') && (Owner(After(hash, es'), h).Some? ==> Owner(After(hash, es'), h).value.host != host)
  {
    AfterOne(hash, es, Delete(gone));
    AlwaysOnOwnSlots(hash, es);
  }
}
