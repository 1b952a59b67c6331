/** The connection pool: a channel of tokens in front of a stack of connections. Get receives a
    token and then pops; Put pushes and then sends a token. Each half is atomic, the two halves
    together are not. */
module ConnectionPool {
  import opened Wrappers

  /** Connections are numbered. `getters` have received a token and not yet popped, `putters`
      have pushed and not yet sent; `held` says which borrower has which connection; `foreign`
      counts the connections put in that were not borrowed. */
  datatype Pool = Pool(max: nat, tokens: nat, stack: seq<nat>,
                       getters: set<nat>, held: map<nat, nat>, putters: set<nat>, foreign: nat)

  /** The two halves of Get and the two halves of Put, by caller. A Put returns what the caller
      has borrowed, or anything else. */
  datatype Event = Receive(c: nat) | Pop(c: nat) | Push(c: nat) | PushForeign(c: nat, conn: nat) | Send(c: nat)

  /** A new pool: every connection on the stack, and as many tokens. */
  function Init(max: nat): Pool {
    Pool(max, max, seq(max, i => i), {}, map[], {}, 0)
  }

  /** What a caller may begin, and what one that has begun would do next. */
  predicate Due(p: Pool, e: Event) {
    match e
    case Receive(c) => c !in p.getters && c !in p.held
    case Pop(c) => c in p.getters
    case Push(c) => c in p.held && c !in p.putters
    case PushForeign(c, _) => c !in p.putters
    case Send(c) => c in p.putters
  }

  /** Whether the step can be taken now. A receive waits for a token and a send for room in
      the channel; a pop from an empty stack would panic. */
  predicate Enabled(p: Pool, e: Event) {
    && Due(p, e)
    && (e.Receive? ==> p.tokens > 0)
    && (e.Pop? ==> p.stack != [])
    && (e.Send? ==> p.tokens < p.max)
  }

  function Next(p: Pool, e: Event): Pool
    requires Enabled(p, e)
  {
    match e
    case Receive(c) => p.(tokens := p.tokens - 1, getters := p.getters + {c})
    case Pop(c) =>
      var last := |p.stack| - 1;
      p.(stack := p.stack[..last], getters := p.getters - {c}, held := p.held[c := p.stack[last]])
    case Push(c) => p.(stack := p.stack + [p.held[c]], held := p.held - {c}, putters := p.putters + {c})
    case PushForeign(c, conn) =>
      p.(stack := p.stack + [conn], putters := p.putters + {c}, foreign := p.foreign + 1)
    case Send(c) => p.(tokens := p.tokens + 1, putters := p.putters - {c})
  }

  // ---------- The invariant ----------

  ghost predicate OneHolder(p: Pool) {
    && (forall i, j | 0 <= i < j < |p.stack| :: p.stack[i] != p.stack[j])
    && (forall c, d | c in p.held && d in p.held && p.held[c] == p.held[d] :: c == d)
    && (forall c | c in p.held :: p.held[c] !in p.stack)
  }

  ghost predicate NoneLost(p: Pool) {
    forall k: nat :: k < p.max <==> k in p.stack || exists c :: c in p.held && p.held[c] == k
  }

  ghost predicate Balanced(p: Pool) {
    && |p.stack| == p.tokens + |p.getters| + |p.putters|
    && |p.stack| + |p.held| == p.max + p.foreign
    && p.tokens <= p.max
    && (forall c | c in p.getters :: c !in p.held)
  }

  ghost predicate Inv(p: Pool) {
    Balanced(p) && (p.foreign == 0 ==> OneHolder(p) && NoneLost(p))
  }

  lemma InitInv(max: nat)
    ensures Inv(Init(max))
  {
    var p := Init(max);
    forall k: nat ensures k < p.max <==> k in p.stack {
      if k < p.max {
        assert p.stack[k] == k;
      }
    }
  }

  lemma OneMore(m: map<nat, nat>, c: nat, v: nat)
    requires c !in m
    ensures |m[c := v]| == |m| + 1
  {
    assert m[c := v].Keys == m.Keys + {c};
  }

  lemma OneFewer(m: map<nat, nat>, c: nat)
    requires c in m
    ensures |m - {c}| == |m| - 1
  {
    assert (m - {c}).Keys == m.Keys - {c};
  }

  lemma NextBalanced(p: Pool, e: Event)
    requires Balanced(p) && Enabled(p, e)
    ensures Balanced(Next(p, e))
  {
    match e
    case Receive(c) =>
    case Pop(c) => OneMore(p.held, c, p.stack[|p.stack| - 1]);
    case Push(c) => OneFewer(p.held, c);
    case PushForeign(_, _) =>
    case Send(c) =>
  }

  lemma PopKeepsOneHolder(p: Pool, c: nat)
    requires Inv(p) && p.foreign == 0 && Enabled(p, Pop(c))
    ensures OneHolder(Next(p, Pop(c))) && NoneLost(Next(p, Pop(c)))
  {
    var q := Next(p, Pop(c));
    var taken := p.stack[|p.stack| - 1];
    forall k: nat ensures k < q.max <==> k in q.stack || exists d :: d in q.held && q.held[d] == k {
      assert k in p.stack <==> k in q.stack || k == taken;
      if d :| d in p.held && p.held[d] == k {
        assert d in q.held && q.held[d] == k;
      }
      if k == taken {
        assert q.held[c] == k;
      }
    }
  }

  lemma PushKeepsOneHolder(p: Pool, c: nat)
    requires Inv(p) && p.foreign == 0 && Enabled(p, Push(c))
    ensures OneHolder(Next(p, Push(c))) && NoneLost(Next(p, Push(c)))
  {
    var q := Next(p, Push(c));
    forall k: nat ensures k < q.max <==> k in q.stack || exists d :: d in q.held && q.held[d] == k {
      assert k in q.stack <==> k in p.stack || k == p.held[c];
      if d :| d in p.held && p.held[d] == k && d != c {
        assert d in q.held && q.held[d] == k;
      }
    }
  }

  lemma NextKeepsInv(p: Pool, e: Event)
    requires Inv(p) && Enabled(p, e)
    ensures Inv(Next(p, e)) && Next(p, e).max == p.max && Next(p, e).foreign >= p.foreign
  {
    NextBalanced(p, e);
    if p.foreign == 0 {
      match e
      case Receive(c) => TokenKeepsOneHolder(p, Next(p, e));
      case Pop(c) => PopKeepsOneHolder(p, c);
      case Push(c) => PushKeepsOneHolder(p, c);
      case PushForeign(_, _) =>
      case Send(c) => TokenKeepsOneHolder(p, Next(p, e));
    }
  }

  lemma TokenKeepsOneHolder(p: Pool, q: Pool)
    requires OneHolder(p) && NoneLost(p) && q.max == p.max && q.stack == p.stack && q.held == p.held
    ensures OneHolder(q) && NoneLost(q)
  {
  }

  /** A Get that has its token always finds a connection. A Put is held up, with the channel
      full, exactly when foreign connections are at least as many as those in use. */
  lemma BegunIsEnabled(p: Pool, e: Event)
    requires Inv(p) && Due(p, e) && !e.Receive?
    ensures Enabled(p, e) <==> !(e.Send? && |p.held| + |p.getters| + |p.putters| <= p.foreign)
    ensures p.foreign == 0 ==> Enabled(p, e)
  {
    if e.Send? {
      assert p.putters != {};
    }
  }

  // ---------- Runs ----------

  ghost predicate Run(p: Pool, es: seq<Event>)
    decreases es
  {
    es == [] || (Enabled(p, es[0]) && Run(Next(p, es[0]), es[1..]))
  }

  ghost function After(p: Pool, es: seq<Event>): Pool
    requires Run(p, es)
    decreases es
  {
    if es == [] then p else After(Next(p, es[0]), es[1..])
  }

  /** Every Put returns what its caller had borrowed. */
  predicate OnlyBorrowed(es: seq<Event>) {
    forall e | e in es :: !e.PushForeign?
  }

  lemma {:induction false} RunKeepsInv(p: Pool, es: seq<Event>)
    requires Inv(p) && Run(p, es)
    ensures Inv(After(p, es)) && After(p, es).max == p.max && After(p, es).foreign >= p.foreign
    ensures After(p, es).foreign == p.foreign <==> OnlyBorrowed(es)
    decreases es
  {
    if es != [] {
      NextKeepsInv(p, es[0]);
      RunKeepsInv(Next(p, es[0]), es[1..]);
      assert OnlyBorrowed(es) <==> !es[0].PushForeign? && OnlyBorrowed(es[1..]);
    }
  }

  /** In every interleaving, whatever is put in: the stack has one connection for every token
      and for everyone between the two halves of a Get or a Put, and a Get that has its token
      finds a connection. */
  lemma GetNeverPopsEmpty(max: nat, es: seq<Event>)
    requires Run(Init(max), es)
    ensures var p := After(Init(max), es);
      && |p.stack| == p.tokens + |p.getters| + |p.putters|
      && (forall c | c in p.getters :: p.stack != [] && Enabled(p, Pop(c)))
  {
    InitInv(max);
    RunKeepsInv(Init(max), es);
    var p := After(Init(max), es);
    forall c | c in p.getters ensures p.stack != [] && Enabled(p, Pop(c)) {
      BegunIsEnabled(p, Pop(c));
    }
  }

  /** In every interleaving in which only borrowed connections are returned a Put never waits,
      no connection has two holders and none is lost. */
  lemma PoolIsSafe(max: nat, es: seq<Event>)
    requires Run(Init(max), es) && OnlyBorrowed(es)
    ensures var p := After(Init(max), es);
      && (forall c | c in p.putters :: p.tokens < max && Enabled(p, Send(c)))
      && (forall c, d | c in p.held && d in p.held && c != d :: p.held[c] != p.held[d])
      && (forall k: nat :: k < max <==> (k in p.stack || exists c :: c in p.held && p.held[c] == k))
      && |p.stack| + |p.held| == max
  {
    InitInv(max);
    RunKeepsInv(Init(max), es);
    var p := After(Init(max), es);
    forall c | c in p.putters ensures p.tokens < max && Enabled(p, Send(c)) {
      BegunIsEnabled(p, Send(c));
    }
  }

  /** A new Get waits if and only if every connection, foreign ones included, is borrowed,
      promised to a Get that has its token, or handed back by a Put that has not finished. */
  lemma GetWaitsIffAllInUse(max: nat, es: seq<Event>, c: nat)
    requires Run(Init(max), es) && Due(After(Init(max), es), Receive(c))
    ensures var p := After(Init(max), es);
      !Enabled(p, Receive(c)) <==> |p.held| + |p.getters| + |p.putters| == max + p.foreign
  {
    InitInv(max);
    RunKeepsInv(Init(max), es);
  }

  /** A Put waits for room if and only if the foreign connections put in are at least as many
      as those borrowed or between the halves of a call, its own included. */
  lemma PutWaitsIffForeign(max: nat, es: seq<Event>, c: nat)
    requires Run(Init(max), es) && Due(After(Init(max), es), Send(c))
    ensures var p := After(Init(max), es);
      !Enabled(p, Send(c)) <==> |p.held| + |p.getters| + |p.putters| <= p.foreign
  {
    InitInv(max);
    RunKeepsInv(Init(max), es);
    BegunIsEnabled(After(Init(max), es), Send(c));
  }

  /** One connection put into a full pool is enough for that. */
  lemma ForeignPutWaits(max: nat, c: nat, conn: nat)
    ensures Run(Init(max), [PushForeign(c, conn)])
    ensures var p := After(Init(max), [PushForeign(c, conn)]); Due(p, Send(c)) && !Enabled(p, Send(c))
  {
    var e := PushForeign(c, conn);
    var p := Next(Init(max), e);
    assert [e][1..] == [] && Run(p, []) && After(p, []) == p;
    assert Run(Init(max), [e]) && After(Init(max), [e]) == After(p, [e][1..]);
  }

  predicate LeavesStack(e: Event) {
    e.Receive? || e.Send?
  }

  lemma {:induction false} TokensLeaveStack(p: Pool, es: seq<Event>)
    requires Run(p, es) && forall e | e in es :: LeavesStack(e)
    ensures After(p, es).stack == p.stack
    decreases es
  {
    if es != [] {
      assert es[0] in es;
      TokensLeaveStack(Next(p, es[0]), es[1..]);
    }
  }

  /** Last in, first out: if nobody pushes or pops in between, the connection pushed is the one
      the next pop lends, and the stack is as it was before. */
  lemma LastInFirstOut(p: Pool, push: Event, es: seq<Event>, d: nat)
    requires Enabled(p, push) && (push.Push? || push.PushForeign?) && Run(Next(p, push), es)
    requires (forall e | e in es :: LeavesStack(e)) && Enabled(After(Next(p, push), es), Pop(d))
    ensures var q := Next(After(Next(p, push), es), Pop(d));
      && d in q.held && q.held[d] == (if push.Push? then p.held[push.c] else push.conn)
      && q.stack == p.stack
  {
    TokensLeaveStack(Next(p, push), es);
  }

  // ---------- The program's pool ----------

  predicate ByOthers(c: nat, es: seq<Event>) {
    forall e | e in es :: e.c != c
  }

  ghost predicate Apart(p: Pool, q: Pool, c: nat) {
    exists es :: ByOthers(c, es) && Run(p, es) && After(p, es) == q
  }

  ghost predicate SameFor(p: Pool, q: Pool, c: nat) {
    && q.max == p.max && q.foreign >= p.foreign
    && (c in q.getters <==> c in p.getters)
    && (c in q.putters <==> c in p.putters)
    && (c in q.held <==> c in p.held)
    && (c in p.held && c in q.held ==> q.held[c] == p.held[c])
  }

  lemma {:induction false} OthersLeaveAlone(p: Pool, es: seq<Event>, c: nat)
    requires Inv(p) && ByOthers(c, es) && Run(p, es)
    ensures Inv(After(p, es)) && SameFor(p, After(p, es), c)
    decreases es
  {
    if es != [] {
      assert es[0] in es;
      NextKeepsInv(p, es[0]);
      OthersLeaveAlone(Next(p, es[0]), es[1..], c);
    }
  }

  /** Whoever borrowed a connection keeps it, whatever the other callers do. */
  lemma ApartLeavesAlone(p: Pool, q: Pool, c: nat)
    requires Inv(p) && Apart(p, q, c)
    ensures Inv(q) && SameFor(p, q, c)
  {
    var es :| ByOthers(c, es) && Run(p, es) && After(p, es) == q;
    OthersLeaveAlone(p, es, c);
  }

  /** Two steps of one caller, with others before and between them. */
  ghost predicate Took(p: Pool, q: Pool, first: Event, second: Event) {
    exists before, between ::
      && Apart(p, before, first.c) && Enabled(before, first)
      && Apart(Next(before, first), between, first.c) && Enabled(between, second)
      && q == Next(between, second)
  }

  /** The connection comes off the end of the stack as it is between the two halves of a Get. */
  ghost predicate TookLast(p: Pool, q: Pool, c: nat, conn: nat) {
    exists before, between ::
      && Apart(p, before, c) && Enabled(before, Receive(c))
      && Apart(Next(before, Receive(c)), between, c) && between.stack != []
      && conn == between.stack[|between.stack| - 1] && q.stack == between.stack[..|between.stack| - 1]
  }

  lemma LendsLast(p: Pool, before: Pool, between: Pool, c: nat)
    requires Apart(p, before, c) && Enabled(before, Receive(c))
    requires Apart(Next(before, Receive(c)), between, c) && Enabled(between, Pop(c))
    ensures var q := Next(between, Pop(c));
      Took(p, q, Receive(c), Pop(c)) && TookLast(p, q, c, between.stack[|between.stack| - 1])
  {
  }

  /** The connection goes on the end of the stack as it is when the Put begins; the token comes
      later, and nothing else changes then. */
  ghost predicate PutLast(p: Pool, q: Pool, c: nat, conn: nat) {
    exists before: Pool, pushed: Pool, between: Pool ::
      && Apart(p, before, c) && pushed.stack == before.stack + [conn]
      && Apart(pushed, between, c) && q.stack == between.stack && q.tokens == between.tokens + 1
  }

  /** The step of a Put that pushes: the caller's own connection comes back, or a foreign one
      comes in. */
  function PushOf(p: Pool, c: nat, conn: nat): Event {
    if c in p.held && p.held[c] == conn then Push(c) else PushForeign(c, conn)
  }

  lemma PushGoesLast(p: Pool, c: nat, conn: nat)
    requires c !in p.putters
    ensures var e := PushOf(p, c, conn); Enabled(p, e) && Next(p, e).stack == p.stack + [conn]
  {
  }

  lemma TakesLast(p: Pool, before: Pool, between: Pool, c: nat, conn: nat)
    requires Apart(p, before, c) && c !in before.putters && Enabled(before, PushOf(before, c, conn))
    requires Apart(Next(before, PushOf(before, c, conn)), between, c)
    ensures SendEnds(p, between, PushOf(before, c, conn), c, conn)
  {
    var e := PushOf(before, c, conn);
    PushGoesLast(before, c, conn);
    if Enabled(between, Send(c)) {
      assert Apart(p, before, e.c) && Apart(Next(before, e), between, e.c);
    }
  }

  /** The send, when there is room, ends a Put that began at `p`. */
  ghost predicate SendEnds(p: Pool, between: Pool, e: Event, c: nat, conn: nat) {
    Enabled(between, Send(c)) ==>
      var q := Next(between, Send(c));
      Took(p, q, e, Send(c)) && PutLast(p, q, c, conn)
  }

  class ConnectionStack {
    const maxConn: nat
    var tokens: nat
    var conns: seq<nat>
    ghost var pool: Pool

    ghost predicate Valid()
      reads this
    {
      Inv(pool) && pool.max == maxConn && pool.tokens == tokens && pool.stack == conns
    }

    /** Fills the stack and the channel one connection at a time. */
    constructor (maxConn: nat)
      ensures Valid() && this.maxConn == maxConn && pool == Init(maxConn)
      ensures tokens == maxConn && conns == seq(maxConn, k => k)
    {
      this.maxConn := maxConn;
      tokens := 0;
      conns := [];
      new;
      var i := 0;
      while i < maxConn
        invariant 0 <= i <= maxConn == this.maxConn && tokens == i && conns == seq(i, k => k)
      {
        conns := conns + [i];
        tokens := tokens + 1;
        i := i + 1;
      }
      InitInv(maxConn);
      pool := Init(maxConn);
    }

    /** Any number of steps of other callers. The caller learns no more than that. */
    method OthersRun(ghost c: nat)
      requires Valid()
      modifies this
      ensures Valid() && Apart(old(pool), pool, c)
    {
      assert ByOthers(c, []) && Run(pool, []) && After(pool, []) == pool;
    }

    /** Lends a connection nobody else has, or none if the call still has to wait for a token.
        Other callers run before, and between the token and the pop. */
    method Get(ghost c: nat) returns (conn: Option<nat>)
      requires Valid() && Due(pool, Receive(c))
      modifies this
      ensures Valid()
      ensures conn.Some? ==> Took(old(pool), pool, Receive(c), Pop(c))
      ensures conn.Some? ==> TookLast(old(pool), pool, c, conn.value)
      ensures conn.Some? ==> c in pool.held && pool.held[c] == conn.value
      ensures conn.Some? && pool.foreign == 0 ==> conn.value < maxConn && conn.value !in conns
      ensures conn.Some? && pool.foreign == 0 ==> forall d | d in pool.held && d != c :: pool.held[d] != conn.value
      ensures conn.None? ==> tokens == 0 && Due(pool, Receive(c))
    {
      ghost var start := pool;
      OthersRun(c);
      ApartLeavesAlone(start, pool, c);
      if tokens == 0 {
        return None;
      }
      ghost var before := pool;
      Take(c);
      OthersRun(c);
      ApartLeavesAlone(Next(before, Receive(c)), pool, c);
      BegunIsEnabled(pool, Pop(c));
      LendsLast(start, before, pool, c);
      var taken := PopLast(c);
      return Some(taken);
    }

    method Take(ghost c: nat)
      requires Valid() && Enabled(pool, Receive(c))
      modifies this
      ensures Valid() && old(Enabled(pool, Receive(c))) && pool == Next(old(pool), Receive(c))
    {
      NextKeepsInv(pool, Receive(c));
      tokens := tokens - 1;
      pool := Next(pool, Receive(c));
    }

    /** Pops without checking the length first. */
    method PopLast(ghost c: nat) returns (conn: nat)
      requires Valid() && c in pool.getters
      modifies this
      ensures Valid() && old(Enabled(pool, Pop(c))) && pool == Next(old(pool), Pop(c))
      ensures c in pool.held && pool.held[c] == conn
      ensures old(conns) != [] && conn == old(conns)[old(|conns|) - 1] && conns == old(conns)[..old(|conns|) - 1]
    {
      BegunIsEnabled(pool, Pop(c));
      NextKeepsInv(pool, Pop(c));
      var lastIndex := |conns| - 1;
      conn := conns[lastIndex];
      conns := conns[..lastIndex];
      pool := Next(pool, Pop(c));
    }

    /** Takes a connection. If only borrowed ones were ever put in, its send finds room whatever
        other callers do between the push and the send; otherwise it may have to wait. */
    method Put(ghost c: nat, conn: nat) returns (done: bool)
      requires Valid() && c !in pool.putters
      modifies this
      ensures Valid() && (done <==> c !in pool.putters)
      ensures done ==> Took(old(pool), pool, PushOf(old(pool), c, conn), Send(c)) && PutLast(old(pool), pool, c, conn)
      ensures !done ==> tokens == maxConn && |pool.held| + |pool.getters| + |pool.putters| <= pool.foreign
      ensures PushOf(old(pool), c, conn).Push? ==> c !in pool.held
      ensures pool.foreign == 0 ==> done
    {
      ghost var start := pool;
      OthersRun(c);
      ApartLeavesAlone(start, pool, c);
      PushThenOthers(c, conn, start);
      done := GiveToken(c);
    }

    /** The push, with other callers running after it. */
    method PushThenOthers(ghost c: nat, conn: nat, ghost start: Pool)
      requires Valid() && c !in pool.putters && Apart(start, pool, c)
      modifies this
      ensures Valid() && c in pool.putters
      ensures SendEnds(start, pool, PushOf(old(pool), c, conn), c, conn)
      ensures PushOf(old(pool), c, conn).Push? ==> c !in pool.held
    {
      ghost var before := pool;
      PushBack(c, conn);
      ghost var pushed := pool;
      OthersRun(c);
      ApartLeavesAlone(pushed, pool, c);
      TakesLast(start, before, pool, c, conn);
    }

    method PushBack(ghost c: nat, conn: nat)
      requires Valid() && c !in pool.putters
      modifies this
      ensures Valid() && Enabled(old(pool), PushOf(old(pool), c, conn)) && pool == Next(old(pool), PushOf(old(pool), c, conn))
      ensures conns == old(conns) + [conn]
    {
      ghost var e := PushOf(pool, c, conn);
      NextKeepsInv(pool, e);
      conns := conns + [conn];
      pool := Next(pool, e);
    }

    /** Sends the token if there is room. */
    method GiveToken(ghost c: nat) returns (sent: bool)
      requires Valid() && c in pool.putters
      modifies this
      ensures Valid() && sent == old(Enabled(pool, Send(c))) && pool.held == old(pool.held)
      ensures sent <==> c !in pool.putters
      ensures pool == if sent then Next(old(pool), Send(c)) else old(pool)
      ensures !sent ==> tokens == maxConn && |pool.held| + |pool.getters| + |pool.putters| <= pool.foreign
      ensures pool.foreign == 0 ==> sent
    {
      BegunIsEnabled(pool, Send(c));
      if tokens == maxConn {
        return false;
      }
      NextKeepsInv(pool, Send(c));
      tokens := tokens + 1;
      pool := Next(pool, Send(c));
      sent := true;
    }
  }
}
