/**
 * The client agent's pool of sockets as a state machine: used and free sockets
 * and waiting requests per origin, under a limit per origin and a limit on all.
 * Sockets are created at once and never fail, and a destroyed socket's `close`
 * comes before anything else happens to the agent.
 */
module AgentPool {
  import opened Lists
  import opened Results

  /** An origin, as `getName` writes it. */
  type Name = string
  /** Sockets and requests by the order in which they are created. */
  type Socket = nat
  type Req = nat

  /** `None` where the limit is infinite. */
  datatype Limits = Limits(maxSockets: Option<nat>, maxFreeSockets: nat, maxTotalSockets: Option<nat>,
                           keepAlive: bool, fifo: bool)

  datatype Given = Given(name: Name, req: Req, socket: Socket)

  /**
   * `order` are the keys of `requests` in insertion order, `origins[s]` is the
   * origin socket `s` was made for, and `given` are the calls of
   * `setRequestSocket` so far.
   */
  datatype Pool = Pool(
    sockets: map<Name, seq<Socket>>, freeSockets: map<Name, seq<Socket>>,
    requests: map<Name, seq<Req>>, order: seq<Name>,
    total: int, origins: seq<Name>, given: seq<Given>)

  datatype Event =
    | Add(name: Name, req: Req)
    | Free(socket: Socket, writable: bool, shouldKeepAlive: bool, alive: bool)
    | Close(socket: Socket)

  predicate Proper(l: Limits) {
    && (l.maxSockets.Some? ==> l.maxSockets.value >= 1)
    && (l.maxTotalSockets.Some? ==> l.maxTotalSockets.value >= 1)
  }

  predicate Below(n: int, limit: Option<nat>) { limit.None? || n < limit.value }

  predicate Within(n: int, limit: Option<nat>) { limit.None? || n <= limit.value }

  function Get<T>(m: map<Name, seq<T>>, n: Name): seq<T> {
    if n in m then m[n] else []
  }

  /** The list with `x` taken out, and no list at all when nothing is left. */
  function TakeOut(m: map<Name, seq<Socket>>, n: Name, s: Socket): map<Name, seq<Socket>> {
    if n !in m || s !in m[n] then m
    else if Without(m[n], s) == [] then m - {n}
    else m[n := Without(m[n], s)]
  }

  function Used(p: Pool, n: Name): seq<Socket> { Get(p.sockets, n) }

  function Idle(p: Pool, n: Name): seq<Socket> { Get(p.freeSockets, n) }

  function Queue(p: Pool, n: Name): seq<Req> { Get(p.requests, n) }

  // ---------------------------------------------------------------------- steps

  /** `createSocket`. */
  function Create(p: Pool, n: Name): Pool {
    p.(sockets := p.sockets[n := Used(p, n) + [|p.origins|]], total := p.total + 1, origins := p.origins + [n])
  }

  /** The oldest waiting request of `n` gets socket `s`. */
  function Serve(p: Pool, n: Name, s: Socket): Pool
    requires Queue(p, n) != []
  {
    var q := Queue(p, n);
    var p1 := p.(given := p.given + [Given(n, q[0], s)]);
    if |q| == 1 then p1.(requests := p.requests - {n}, order := Without(p.order, n))
    else p1.(requests := p.requests[n := q[1..]])
  }

  /** Whose turn it is when a socket of origin `n` goes: only the first key is looked at. */
  function NextOrigin(p: Pool, n: Name): Option<Name> {
    if Queue(p, n) != [] then Some(n)
    else if p.order != [] && Used(p, p.order[0]) == [] then Some(p.order[0])
    else None
  }

  /** The end of `removeSocket`: a waiting request gets a new socket, whose `free` is emitted at once. */
  function Refill(p: Pool, n: Name): Pool {
    match NextOrigin(p, n)
    case None => p
    case Some(m) => if Queue(p, m) == [] then p else Serve(Create(p, m), m, |p.origins|)
  }

  function Remove(p: Pool, s: Socket, n: Name, writable: bool): Pool {
    var p1 := p.(sockets := TakeOut(p.sockets, n, s));
    Refill(if writable then p1 else p1.(freeSockets := TakeOut(p.freeSockets, n, s)), n)
  }

  function OnClose(p: Pool, s: Socket): Pool
    requires s < |p.origins|
  {
    Remove(p.(total := p.total - 1), s, p.origins[s], false)
  }

  /** Whether the `free` handler may keep the socket. */
  predicate MayKeep(l: Limits, p: Pool, n: Name, shouldKeepAlive: bool, alive: bool) {
    && shouldKeepAlive && l.keepAlive
    && Within(p.total, l.maxTotalSockets)
    && Within(|Idle(p, n)| + |Used(p, n)|, l.maxSockets)
    && |Idle(p, n)| < l.maxFreeSockets
    && alive
  }

  function OnFree(l: Limits, p: Pool, s: Socket, writable: bool, shouldKeepAlive: bool, alive: bool): Pool
    requires s < |p.origins|
  {
    var n := p.origins[s];
    if !writable then OnClose(p, s)
    else if Queue(p, n) != [] then Serve(p, n, s)
    else if !MayKeep(l, p, n, shouldKeepAlive, alive) then OnClose(p, s)
    else
      var p1 := Remove(p, s, n, true);
      p1.(freeSockets := p1.freeSockets[n := Idle(p, n) + [s]])
  }

  function Enqueue(p: Pool, n: Name, r: Req): Pool {
    p.(requests := p.requests[n := Queue(p, n) + [r]], order := if n in p.requests then p.order else p.order + [n])
  }

  /** `addRequest` makes a list for the origin, and deletes an empty free list. */
  function Prepared(p: Pool, n: Name): Pool {
    p.(sockets := if n in p.sockets then p.sockets else p.sockets[n := []],
       freeSockets := if Idle(p, n) == [] then p.freeSockets - {n} else p.freeSockets)
  }

  /** The oldest free socket or the newest, by the agent's scheduling. */
  function Pick(l: Limits, idle: seq<Socket>): (Socket, seq<Socket>)
    requires idle != []
  {
    if l.fifo then (idle[0], idle[1..]) else (idle[|idle| - 1], idle[..|idle| - 1])
  }

  function Reuse(l: Limits, p: Pool, n: Name, r: Req): Pool
    requires Idle(p, n) != []
  {
    var (s, rest) := Pick(l, Idle(p, n));
    p.(freeSockets := if rest == [] then p.freeSockets - {n} else p.freeSockets[n := rest],
       given := p.given + [Given(n, r, s)],
       sockets := p.sockets[n := Used(p, n) + [s]])
  }

  function CreateFor(p: Pool, n: Name, r: Req): Pool {
    var p' := Create(p, n);
    p'.(given := p.given + [Given(n, r, |p.origins|)])
  }

  /** `addRequest`. */
  function OnAdd(l: Limits, p: Pool, n: Name, r: Req): Pool {
    var p1 := Prepared(p, n);
    if Idle(p1, n) != [] then Reuse(l, p1, n, r)
    else if Below(|Used(p1, n)|, l.maxSockets) && Below(p1.total, l.maxTotalSockets) then CreateFor(p1, n, r)
    else Enqueue(p1, n, r)
  }

  /** Requests come at any time; a used socket is done with its request; any socket closes. */
  predicate Enabled(p: Pool, e: Event) {
    match e
    case Add(_, _) => true
    case Free(s, _, _, _) => s < |p.origins| && s in Used(p, p.origins[s])
    case Close(s) => s < |p.origins| && (s in Used(p, p.origins[s]) || s in Idle(p, p.origins[s]))
  }

  function Step(l: Limits, p: Pool, e: Event): Pool
    requires Enabled(p, e)
  {
    match e
    case Add(n, r) => OnAdd(l, p, n, r)
    case Free(s, writable, keep, alive) => OnFree(l, p, s, writable, keep, alive)
    case Close(s) => OnClose(p, s)
  }

  const START: Pool := Pool(map[], map[], map[], [], 0, [], [])

  // ------------------------------------------------------------------- counting

  ghost function Sum(m: map<Name, seq<Socket>>): nat {
    if m == map[] then 0
    else
      var k :| k in m;
      |m[k]| + Sum(m - {k})
  }

  lemma {:induction false} SumWithout(m: map<Name, seq<Socket>>, n: Name)
    ensures Sum(m) == |Get(m, n)| + Sum(m - {n})
    decreases |m|
  {
    if n !in m {
      assert m - {n} == m;
    } else {
      var k :| k in m && Sum(m) == |m[k]| + Sum(m - {k});
      if k != n {
        SumWithout(m - {k}, n);
        SumWithout(m - {n}, k);
        assert m - {k} - {n} == m - {n} - {k};
      }
    }
  }

  lemma SumPut(m: map<Name, seq<Socket>>, n: Name, list: seq<Socket>)
    ensures Sum(m[n := list]) == Sum(m) - |Get(m, n)| + |list|
  {
    SumWithout(m, n);
    SumWithout(m[n := list], n);
    assert m[n := list] - {n} == m - {n};
  }

  // ------------------------------------------------------------------ invariant

  /** The sockets of an origin are its own, all different, and within its limit; nobody waits while one is free. */
  ghost predicate OriginOk(l: Limits, p: Pool, n: Name) {
    && NoDup(Used(p, n) + Idle(p, n))
    && (forall s :: s in Used(p, n) + Idle(p, n) ==> s < |p.origins| && p.origins[s] == n)
    && Within(|Used(p, n)| + |Idle(p, n)|, l.maxSockets)
    && (Queue(p, n) != [] ==> Idle(p, n) == [])
  }

  ghost predicate KeysOk(p: Pool) {
    && NoDup(p.order) && (forall n :: n in p.order <==> n in p.requests)
    && (forall n :: n in p.requests ==> p.requests[n] != [])
  }

  ghost predicate Counted(p: Pool) {
    p.total == Sum(p.sockets) + Sum(p.freeSockets)
  }

  ghost predicate Inv(l: Limits, p: Pool) {
    (forall n :: OriginOk(l, p, n)) && KeysOk(p) && Counted(p)
  }

  predicate OverByOne(l: Limits, p: Pool) {
    l.maxTotalSockets.Some? ==> p.total <= l.maxTotalSockets.value + 1
  }

  /** A new socket for an origin that has fewer than it may, given to the request that has waited longest. */
  lemma {:induction false} CreateServeOk(l: Limits, p: Pool, n: Name)
    requires Inv(l, p) && Queue(p, n) != [] && Below(|Used(p, n)|, l.maxSockets)
    ensures Inv(l, Serve(Create(p, n), n, |p.origins|))
  {
    hide OriginOk, Sum, Below, Within;
    var p' := Serve(Create(p, n), n, |p.origins|);
    SumPut(p.sockets, n, Used(p, n) + [|p.origins|]);
    ServeKeys(Create(p, n), n, |p.origins|);
    forall m ensures OriginOk(l, p', m) {
      assert OriginOk(l, p, m);
      CreateServeOrigin(l, p, n, m);
    }
  }

  lemma CreateServeOrigin(l: Limits, p: Pool, n: Name, m: Name)
    requires OriginOk(l, p, m) && Queue(p, n) != [] && Below(|Used(p, n)|, l.maxSockets)
    ensures OriginOk(l, Serve(Create(p, n), n, |p.origins|), m)
  {
    hide Without;
    var p' := Serve(Create(p, n), n, |p.origins|);
    if m == n {
      assert Used(p, n) + Idle(p, n) == Used(p, n);
      NoDupAppend(Used(p, n), |p.origins|);
      assert Used(p', n) + Idle(p', n) == Used(p, n) + [|p.origins|];
    }
  }

  lemma ServeKeys(p: Pool, n: Name, s: Socket)
    requires KeysOk(p) && Queue(p, n) != []
    ensures KeysOk(Serve(p, n, s))
  {
    WithoutFacts(p.order, n);
  }

  lemma ServeOk(l: Limits, p: Pool, n: Name, s: Socket)
    requires Inv(l, p) && Queue(p, n) != []
    ensures Inv(l, Serve(p, n, s))
  {
    ServeKeys(p, n, s);
    forall m ensures OriginOk(l, Serve(p, n, s), m) {
      assert OriginOk(l, p, m);
    }
  }

  lemma TakeOutFacts(m: map<Name, seq<Socket>>, n: Name, s: Socket)
    requires NoDup(Get(m, n))
    ensures var m' := TakeOut(m, n, s);
            && (forall k :: k != n ==> Get(m', k) == Get(m, k)) && Get(m', n) == Without(Get(m, n), s)
            && Sum(m') == Sum(m) - if s in Get(m, n) then 1 else 0
  {
    WithoutFacts(Get(m, n), s);
    var m' := TakeOut(m, n, s);
    if s in Get(m, n) {
      SumWithout(m, n);
      SumPut(m, n, Without(m[n], s));
    } else {
      WithoutAbsent(Get(m, n), s);
    }
  }

  lemma {:induction false} RefillOk(l: Limits, p: Pool, n: Name)
    requires Proper(l) && Inv(l, p) && (Queue(p, n) != [] ==> Below(|Used(p, n)|, l.maxSockets))
    ensures Inv(l, Refill(p, n))
    ensures Refill(p, n).total <= p.total + 1
    ensures l.maxTotalSockets.None? && Full(l, p) && Queue(p, n) == [] ==> Refill(p, n) == p
  {
    hide Inv, Create, Serve;
    InvKeys(l, p);
    match NextOrigin(p, n)
    case None =>
    case Some(m) =>
      CreateServeOk(l, p, m);
      CreateServeTotal(p, m);
  }

  lemma CreateServeTotal(p: Pool, m: Name)
    requires Queue(p, m) != []
    ensures Serve(Create(p, m), m, |p.origins|).total == p.total + 1
  {
  }

  lemma InvKeys(l: Limits, p: Pool)
    requires Inv(l, p)
    ensures forall n :: n in p.order <==> n in p.requests && Queue(p, n) != []
    ensures forall n :: n in p.requests <==> Queue(p, n) != []
  {
  }

  /** Whoever has to wait does so because its origin has all the sockets it may have. */
  ghost predicate Full(l: Limits, p: Pool) {
    forall n :: Queue(p, n) != [] ==> l.maxSockets.Some? && |Used(p, n)| == l.maxSockets.value
  }

  /** A socket taken out of both lists. */
  function Dropped(p: Pool, s: Socket, n: Name): Pool {
    p.(total := p.total - 1, sockets := TakeOut(p.sockets, n, s), freeSockets := TakeOut(p.freeSockets, n, s))
  }

  lemma DroppedOk(l: Limits, p: Pool, s: Socket)
    requires Inv(l, p) && Enabled(p, Close(s))
    ensures var n := p.origins[s]; var p' := Dropped(p, s, n);
            Inv(l, p') && (Queue(p, n) != [] ==> |Used(p', n)| < |Used(p, n)|)
  {
    var n := p.origins[s];
    var p' := Dropped(p, s, n);
    assert OriginOk(l, p, n);
    NoDupParts(Used(p, n), Idle(p, n));
    TakeOutFacts(p.sockets, n, s);
    TakeOutFacts(p.freeSockets, n, s);
    WithoutParts(Used(p, n), Idle(p, n), s);
    forall m ensures OriginOk(l, p', m) {
      assert OriginOk(l, p, m);
    }
  }

  // ---------------------------------------------------------- steps keep it

  lemma {:induction false} CloseOk(l: Limits, p: Pool, s: Socket)
    requires Proper(l) && Inv(l, p) && Enabled(p, Close(s))
    ensures Inv(l, OnClose(p, s)) && OnClose(p, s).total <= p.total
  {
    hide Inv, Refill, TakeOut;
    var n := p.origins[s];
    var p' := Dropped(p, s, n);
    DroppedOk(l, p, s);
    OriginWithin(l, p, n);
    RefillOk(l, p', n);
    assert OnClose(p, s) == Refill(p', n);
  }

  lemma OriginWithin(l: Limits, p: Pool, n: Name)
    requires Inv(l, p)
    ensures Within(|Used(p, n)| + |Idle(p, n)|, l.maxSockets)
    ensures Queue(p, n) != [] ==> Idle(p, n) == []
    ensures NoDup(Used(p, n) + Idle(p, n))
  {
    assert OriginOk(l, p, n);
  }

  /** A used socket put aside for later. */
  function Parked(p: Pool, s: Socket, n: Name): Pool {
    p.(sockets := TakeOut(p.sockets, n, s), freeSockets := p.freeSockets[n := Idle(p, n) + [s]])
  }

  /** Putting it aside before or after the request of another origin is served comes to the same. */
  lemma {:induction false} ParkedThenRefill(l: Limits, p: Pool, s: Socket, keep: bool, alive: bool)
    requires s < |p.origins| && Queue(p, p.origins[s]) == [] && MayKeep(l, p, p.origins[s], keep, alive)
    ensures OnFree(l, p, s, true, keep, alive) == Refill(Parked(p, s, p.origins[s]), p.origins[s])
  {
    hide MayKeep, TakeOut;
    var n := p.origins[s];
    RefillIgnoresIdle(p.(sockets := TakeOut(p.sockets, n, s)), n, p.freeSockets[n := Idle(p, n) + [s]]);
  }

  lemma {:induction false} RefillIgnoresIdle(p: Pool, n: Name, idle: map<Name, seq<Socket>>)
    ensures Refill(p.(freeSockets := idle), n) == Refill(p, n).(freeSockets := idle)
  {
    hide Get, Without;
    assert NextOrigin(p.(freeSockets := idle), n) == NextOrigin(p, n);
  }

  lemma ParkedOk(l: Limits, p: Pool, s: Socket)
    requires Inv(l, p) && Enabled(p, Free(s, true, true, true)) && Queue(p, p.origins[s]) == []
    ensures Inv(l, Parked(p, s, p.origins[s]))
  {
    hide NoDup, TakeOut, Without, Sum;
    var n := p.origins[s];
    var p' := Parked(p, s, n);
    assert OriginOk(l, p, n);
    NoDupParts(Used(p, n), Idle(p, n));
    TakeOutFacts(p.sockets, n, s);
    SumPut(p.freeSockets, n, Idle(p, n) + [s]);
    MoveParts(Used(p, n), Idle(p, n), s);
    forall m ensures OriginOk(l, p', m) {
      assert OriginOk(l, p, m);
    }
  }

  lemma {:induction false} FreeOk(l: Limits, p: Pool, e: Event)
    requires Proper(l) && Inv(l, p) && OverByOne(l, p) && Enabled(p, e) && e.Free?
    ensures Inv(l, Step(l, p, e)) && OverByOne(l, Step(l, p, e))
  {
    hide Inv, OnClose, Serve, Refill, Parked;
    var n := p.origins[e.socket];
    if e.writable && Queue(p, n) != [] {
      ServeOk(l, p, n, e.socket);
      ServeTotal(p, n, e.socket);
    } else if !e.writable || !MayKeep(l, p, n, e.shouldKeepAlive, e.alive) {
      CloseOk(l, p, e.socket);
    } else {
      var p' := Parked(p, e.socket, n);
      ParkedOk(l, p, e.socket);
      ParkedThenRefill(l, p, e.socket, e.shouldKeepAlive, e.alive);
      ParkedSame(p, e.socket, n);
      RefillOk(l, p', n);
    }
  }

  lemma ParkedSame(p: Pool, s: Socket, n: Name)
    ensures Parked(p, s, n).total == p.total && Queue(Parked(p, s, n), n) == Queue(p, n)
  {
  }

  lemma ServeTotal(p: Pool, n: Name, s: Socket)
    requires Queue(p, n) != []
    ensures Serve(p, n, s).total == p.total
  {
  }

  lemma PreparedOk(l: Limits, p: Pool, n: Name)
    requires Inv(l, p)
    ensures var p' := Prepared(p, n);
            && Inv(l, p') && p'.total == p.total && p'.requests == p.requests && p'.given == p.given
            && (forall m :: Used(p', m) == Used(p, m) && Idle(p', m) == Idle(p, m))
  {
    var p' := Prepared(p, n);
    SumPut(p.sockets, n, []);
    SumWithout(p.freeSockets, n);
    forall m ensures Used(p', m) == Used(p, m) && Idle(p', m) == Idle(p, m) && OriginOk(l, p', m) {
      assert OriginOk(l, p, m);
    }
  }

  lemma ReuseOk(l: Limits, p: Pool, n: Name, r: Req)
    requires Inv(l, p) && Idle(p, n) != []
    ensures Inv(l, Reuse(l, p, n, r)) && Reuse(l, p, n, r).total == p.total
  {
    hide NoDup;
    var p' := Reuse(l, p, n, r);
    var (s, rest) := Pick(l, Idle(p, n));
    assert OriginOk(l, p, n);
    PickParts(l, Used(p, n), Idle(p, n));
    SumPut(p.freeSockets, n, rest);
    SumWithout(p.freeSockets, n);
    SumPut(p.sockets, n, Used(p, n) + [s]);
    forall m ensures OriginOk(l, p', m) {
      assert OriginOk(l, p, m);
    }
  }

  lemma PickParts(l: Limits, used: seq<Socket>, idle: seq<Socket>)
    requires NoDup(used + idle) && idle != []
    ensures var (s, rest) := Pick(l, idle);
            && NoDup((used + [s]) + rest) && |rest| == |idle| - 1
            && (forall y :: y in (used + [s]) + rest <==> y in used + idle)
  {
    var (s, rest) := Pick(l, idle);
    NoDupParts(used, idle);
    assert idle == if l.fifo then [s] + rest else rest + [s];
    NoDupAppend(used, s);
    NoDupJoin(used + [s], rest);
  }

  lemma CreateForOk(l: Limits, p: Pool, n: Name, r: Req)
    requires Inv(l, p) && Idle(p, n) == [] && Below(|Used(p, n)|, l.maxSockets)
    ensures Inv(l, CreateFor(p, n, r)) && CreateFor(p, n, r).total == p.total + 1
  {
    var p' := CreateFor(p, n, r);
    SumPut(p.sockets, n, Used(p, n) + [|p.origins|]);
    forall m ensures OriginOk(l, p', m) {
      assert OriginOk(l, p, m);
      if m == n {
        assert Used(p, n) + Idle(p, n) == Used(p, n);
        NoDupAppend(Used(p, n), |p.origins|);
        assert Used(p', n) + Idle(p', n) == Used(p, n) + [|p.origins|];
      }
    }
  }

  lemma EnqueueOk(l: Limits, p: Pool, n: Name, r: Req)
    requires Inv(l, p) && Idle(p, n) == []
    ensures Inv(l, Enqueue(p, n, r))
  {
    var p' := Enqueue(p, n, r);
    if n !in p.requests {
      NoDupAppend(p.order, n);
    }
    forall m ensures OriginOk(l, p', m) {
      assert OriginOk(l, p, m);
    }
  }

  lemma AddOk(l: Limits, p: Pool, n: Name, r: Req)
    requires Inv(l, p) && OverByOne(l, p)
    ensures Inv(l, OnAdd(l, p, n, r)) && OverByOne(l, OnAdd(l, p, n, r))
  {
    hide Inv, Prepared, Reuse, CreateFor;
    var p1 := Prepared(p, n);
    PreparedOk(l, p, n);
    if Idle(p1, n) != [] {
      ReuseOk(l, p1, n, r);
    } else if Below(|Used(p1, n)|, l.maxSockets) && Below(p1.total, l.maxTotalSockets) {
      CreateForOk(l, p1, n, r);
    } else {
      EnqueueOk(l, p1, n, r);
    }
  }

  // ----------------------------------------------------------------------- runs

  ghost predicate Legal(l: Limits, es: seq<Event>)
    decreases |es|, 0
  {
    es == [] || (Legal(l, es[..|es| - 1]) && Enabled(After(l, es[..|es| - 1]), es[|es| - 1]))
  }

  ghost function After(l: Limits, es: seq<Event>): Pool
    requires Legal(l, es)
    decreases |es|, 1
  {
    if es == [] then START else Step(l, After(l, es[..|es| - 1]), es[|es| - 1])
  }

  /**
   * Under any limits, after any run: `totalSocketCount` is the number of
   * sockets in the two tables and goes at most one over its limit; no socket
   * is anywhere twice; no origin has more than `maxSockets`; no stored queue
   * is empty, and nobody waits while a socket of the origin is free.
   */
  lemma {:induction false} RunInv(l: Limits, es: seq<Event>)
    requires Proper(l) && Legal(l, es)
    ensures Inv(l, After(l, es)) && OverByOne(l, After(l, es))
    decreases |es|
  {
    hide Inv, OnAdd, OnClose, OnFree, OverByOne;
    if es == [] {
      StartOk(l);
    } else {
      var before, e := After(l, es[..|es| - 1]), es[|es| - 1];
      RunInv(l, es[..|es| - 1]);
      match e
      case Add(n, r) => AddOk(l, before, n, r);
      case Free(_, _, _, _) => FreeOk(l, before, e);
      case Close(s) => CloseOk(l, before, s); StillOver(l, before, OnClose(before, s));
    }
  }

  lemma StillOver(l: Limits, p: Pool, p': Pool)
    requires OverByOne(l, p) && p'.total <= p.total
    ensures OverByOne(l, p')
  {
  }

  lemma StartOk(l: Limits)
    ensures Inv(l, START) && OverByOne(l, START) && Full(l, START)
  {
  }

  // ------------------------------------------------------------ the total limit

  /**
   * The one way past the limit: at the limit a used socket is put aside, nobody
   * waits for its origin, and the origin whose turn it is has no socket in use.
   */
  predicate GoesOver(l: Limits, p: Pool, e: Event) {
    && e.Free? && e.writable && e.socket < |p.origins|
    && var n := p.origins[e.socket];
       && Queue(p, n) == [] && MayKeep(l, p, n, e.shouldKeepAlive, e.alive)
       && l.maxTotalSockets == Some(p.total) && p.order != [] && Used(p, p.order[0]) == []
  }

  lemma AddTotal(l: Limits, p: Pool, n: Name, r: Req)
    requires Inv(l, p) && Within(p.total, l.maxTotalSockets)
    ensures Within(OnAdd(l, p, n, r).total, l.maxTotalSockets)
  {
    hide Inv, Prepared, Reuse, CreateFor;
    var p1 := Prepared(p, n);
    PreparedOk(l, p, n);
    if Idle(p1, n) != [] {
      ReuseOk(l, p1, n, r);
    } else if Below(|Used(p1, n)|, l.maxSockets) && Below(p1.total, l.maxTotalSockets) {
      CreateForOk(l, p1, n, r);
    }
  }

  /** Putting a socket aside makes room for another origin exactly when that one's turn has come. */
  lemma {:induction false} ParkedTotal(l: Limits, p: Pool, s: Socket)
    requires Inv(l, p) && Enabled(p, Free(s, true, true, true)) && Queue(p, p.origins[s]) == []
    ensures Refill(Parked(p, s, p.origins[s]), p.origins[s]).total ==
            p.total + if p.order != [] && Used(p, p.order[0]) == [] then 1 else 0
  {
    hide Inv, Serve, Create;
    var n := p.origins[s];
    InvKeys(l, p);
    if p.order != [] {
      var m := p.order[0];
      assert m in p.order;
      assert Used(Parked(p, s, n), m) == Used(p, m) && Queue(Parked(p, s, n), m) == Queue(p, m);
      CreateServeTotal(Parked(p, s, n), m);
    }
  }

  /** From within the limit a step leads past it if and only if it is of that kind. */
  lemma {:induction false} StepOverTheLimit(l: Limits, p: Pool, e: Event)
    requires Proper(l) && Inv(l, p) && Within(p.total, l.maxTotalSockets) && Enabled(p, e)
    ensures !Within(Step(l, p, e).total, l.maxTotalSockets) <==> GoesOver(l, p, e)
  {
    hide Inv, Refill, Serve, Parked, OnClose, OnAdd;
    match e
    case Add(n, r) => AddTotal(l, p, n, r);
    case Close(s) => CloseOk(l, p, s);
    case Free(s, writable, keep, alive) =>
      var n := p.origins[s];
      if !writable {
        CloseOk(l, p, s);
      } else if Queue(p, n) != [] {
        ServeTotal(p, n, s);
      } else if !MayKeep(l, p, n, keep, alive) {
        CloseOk(l, p, s);
      } else {
        ParkedThenRefill(l, p, s, keep, alive);
        ParkedTotal(l, p, s);
      }
  }

  /** The total is within its limit all through the run. */
  ghost predicate KeepsTheLimit(l: Limits, es: seq<Event>)
    requires Legal(l, es)
    decreases |es|
  {
    Within(After(l, es).total, l.maxTotalSockets) && (es == [] || KeepsTheLimit(l, es[..|es| - 1]))
  }

  ghost predicate NeverGoesOver(l: Limits, es: seq<Event>)
    requires Legal(l, es)
    decreases |es|
  {
    es == [] || (NeverGoesOver(l, es[..|es| - 1]) && !GoesOver(l, After(l, es[..|es| - 1]), es[|es| - 1]))
  }

  /** The total stays within its limit in exactly the runs without such a step. */
  lemma {:induction false} LimitKept(l: Limits, es: seq<Event>)
    requires Proper(l) && Legal(l, es)
    ensures KeepsTheLimit(l, es) <==> NeverGoesOver(l, es)
    decreases |es|
  {
    hide Inv, Step, GoesOver;
    if es != [] {
      var before := es[..|es| - 1];
      LimitKept(l, before);
      RunInv(l, before);
      if Within(After(l, before).total, l.maxTotalSockets) {
        StepOverTheLimit(l, After(l, before), es[|es| - 1]);
      } else {
        assert !KeepsTheLimit(l, before);
      }
    }
  }

  // ------------------------------------------------------------- who waits, and why

  lemma RefillFull(l: Limits, p: Pool, n: Name)
    requires Proper(l) && Inv(l, p)
    requires forall m :: m != n && Queue(p, m) != [] ==> l.maxSockets.Some? && |Used(p, m)| == l.maxSockets.value
    requires Queue(p, n) != [] ==> l.maxSockets.Some? && |Used(p, n)| == l.maxSockets.value - 1
    ensures Full(l, Refill(p, n))
  {
    hide Inv;
    InvKeys(l, p);
    if p.order != [] {
      assert p.order[0] in p.order;
    }
  }

  lemma CloseFull(l: Limits, p: Pool, s: Socket)
    requires Proper(l) && Inv(l, p) && Full(l, p) && Enabled(p, Close(s))
    ensures Full(l, OnClose(p, s))
  {
    hide Inv, Refill, TakeOut;
    var n := p.origins[s];
    var p' := Dropped(p, s, n);
    DroppedOk(l, p, s);
    OriginWithin(l, p, n);
    NoDupParts(Used(p, n), Idle(p, n));
    TakeOutFacts(p.sockets, n, s);
    WithoutFacts(Used(p, n), s);
    assert forall m :: Queue(p', m) == Queue(p, m) && (m != n ==> Used(p', m) == Used(p, m));
    RefillFull(l, p', n);
    assert OnClose(p, s) == Refill(p', n);
  }

  lemma FreeFull(l: Limits, p: Pool, e: Event)
    requires Proper(l) && Inv(l, p) && Full(l, p) && Enabled(p, e) && e.Free?
    ensures Full(l, Step(l, p, e))
  {
    hide Inv, OnClose, Refill, TakeOut;
    var n, s := p.origins[e.socket], e.socket;
    if !e.writable || (Queue(p, n) == [] && !MayKeep(l, p, n, e.shouldKeepAlive, e.alive)) {
      CloseFull(l, p, s);
    } else if Queue(p, n) == [] {
      ParkedOk(l, p, s);
      ParkedThenRefill(l, p, s, e.shouldKeepAlive, e.alive);
      OriginWithin(l, p, n);
      NoDupParts(Used(p, n), Idle(p, n));
      TakeOutFacts(p.sockets, n, s);
      var p' := Parked(p, s, n);
      assert forall m :: Queue(p', m) == Queue(p, m) && (m != n ==> Used(p', m) == Used(p, m));
      RefillFull(l, p', n);
    } else {
      var p' := Serve(p, n, s);
      assert forall m :: Used(p', m) == Used(p, m) && (Queue(p', m) != [] ==> Queue(p, m) != []);
    }
  }

  lemma AddFull(l: Limits, p: Pool, n: Name, r: Req)
    requires l.maxTotalSockets.None? && Inv(l, p) && Full(l, p)
    ensures Full(l, OnAdd(l, p, n, r))
  {
    hide Inv, Prepared;
    PreparedOk(l, p, n);
    var p1 := Prepared(p, n);
    OriginWithin(l, p1, n);
    OriginWithin(l, p, n);
    assert forall m :: Queue(p1, m) == Queue(p, m);
    var p' := OnAdd(l, p, n, r);
    assert forall m :: m != n ==> Used(p', m) == Used(p, m) && Queue(p', m) == Queue(p, m);
  }

  /**
   * Without a limit on the total, whoever waits does so because its origin has
   * exactly `maxSockets` sockets, all of them in use.
   */
  lemma {:induction false} RunFull(l: Limits, es: seq<Event>)
    requires Proper(l) && Legal(l, es) && l.maxTotalSockets.None?
    ensures Full(l, After(l, es))
    decreases |es|
  {
    hide Inv, OnAdd, OnClose, OnFree, Full;
    if es == [] {
      StartOk(l);
    } else {
      var before, e := After(l, es[..|es| - 1]), es[|es| - 1];
      RunInv(l, es[..|es| - 1]);
      RunFull(l, es[..|es| - 1]);
      match e
      case Add(n, r) => AddFull(l, before, n, r);
      case Free(_, _, _, _) => FreeFull(l, before, e);
      case Close(s) => CloseFull(l, before, s);
    }
  }

  // ------------------------------------------------------------ order of service

  function Served(given: seq<Given>, n: Name): seq<Req> {
    if given == [] then []
    else
      var last := given[|given| - 1];
      Served(given[..|given| - 1], n) + (if last.name == n then [last.req] else [])
  }

  /** The requests of an origin in the order they were added. */
  function Arrived(es: seq<Event>, n: Name): seq<Req> {
    if es == [] then []
    else
      var last := es[|es| - 1];
      Arrived(es[..|es| - 1], n) + (if last.Add? && last.name == n then [last.req] else [])
  }

  /** Those that have a socket, in the order they got it, and then those that wait. */
  function Line(p: Pool, n: Name): seq<Req> {
    Served(p.given, n) + Queue(p, n)
  }

  /** A request gets a new socket while others of its origin wait: the total limit held them up and no longer does. */
  predicate Overtakes(l: Limits, p: Pool, n: Name) {
    Queue(p, n) != [] && Below(|Used(p, n)|, l.maxSockets) && Below(p.total, l.maxTotalSockets)
  }

  lemma ServedAppend(given: seq<Given>, g: Given, n: Name)
    ensures Served(given + [g], n) == Served(given, n) + (if g.name == n then [g.req] else [])
  {
    assert (given + [g])[..|given|] == given;
  }

  /** Serving the head of a queue leaves every line as it is. */
  lemma ServeLine(p: Pool, n: Name, s: Socket, m: Name)
    requires Queue(p, n) != []
    ensures Line(Serve(p, n, s), m) == Line(p, m)
  {
    var q := Queue(p, n);
    ServedAppend(p.given, Given(n, q[0], s), m);
    if m == n {
      assert Served(p.given, m) + [q[0]] + q[1..] == Served(p.given, m) + ([q[0]] + q[1..]);
      assert q == [q[0]] + q[1..];
    } else {
      assert Served(p.given, m) + [] == Served(p.given, m);
    }
  }

  lemma RefillLine(p: Pool, n: Name, m: Name)
    ensures Line(Refill(p, n), m) == Line(p, m)
  {
    hide Serve;
    match NextOrigin(p, n)
    case None =>
    case Some(k) =>
      if Queue(p, k) != [] {
        ServeLine(Create(p, k), k, |p.origins|, m);
      }
  }

  lemma CloseLine(p: Pool, s: Socket, m: Name)
    requires s < |p.origins|
    ensures Line(OnClose(p, s), m) == Line(p, m)
  {
    hide Refill, TakeOut, Served;
    RefillLine(Dropped(p, s, p.origins[s]), p.origins[s], m);
  }

  lemma {:induction false} FreeLine(l: Limits, p: Pool, e: Event, m: Name)
    requires Enabled(p, e) && e.Free?
    ensures Line(Step(l, p, e), m) == Line(p, m)
  {
    hide Refill, TakeOut, OnClose, Serve, Served;
    var n, s := p.origins[e.socket], e.socket;
    if !e.writable || (Queue(p, n) == [] && !MayKeep(l, p, n, e.shouldKeepAlive, e.alive)) {
      CloseLine(p, s, m);
    } else if Queue(p, n) == [] {
      ParkedThenRefill(l, p, s, e.shouldKeepAlive, e.alive);
      RefillLine(Parked(p, s, n), n, m);
    } else {
      ServeLine(p, n, s, m);
    }
  }

  lemma AddOtherLine(l: Limits, p: Pool, n: Name, r: Req, m: Name)
    requires m != n
    ensures Line(OnAdd(l, p, n, r), m) == Line(p, m)
  {
    hide Served;
    forall s: Socket ensures Served(p.given + [Given(n, r, s)], m) == Served(p.given, m) {
      ServedAppend(p.given, Given(n, r, s), m);
      assert Served(p.given, m) + [] == Served(p.given, m);
    }
  }

  /** A new request joins the end of its line, or jumps in front of those that wait. */
  lemma AddLine(l: Limits, p: Pool, n: Name, r: Req)
    requires Inv(l, p)
    ensures Line(OnAdd(l, p, n, r), n) ==
            if Overtakes(l, p, n) then Served(p.given, n) + [r] + Queue(p, n) else Line(p, n) + [r]
  {
    hide Served, Inv;
    forall s: Socket ensures Served(p.given + [Given(n, r, s)], n) == Served(p.given, n) + [r] {
      ServedAppend(p.given, Given(n, r, s), n);
    }
    OriginWithin(l, p, n);
    assert Served(p.given, n) + (Queue(p, n) + [r]) == Line(p, n) + [r];
    if Queue(p, n) == [] {
      assert Line(p, n) == Served(p.given, n);
      assert Served(p.given, n) + [r] + [] == Served(p.given, n) + [r];
    }
  }

  /** No request of `n` in the run overtakes another. */
  ghost predicate NobodyOvertakes(l: Limits, es: seq<Event>, n: Name)
    requires Legal(l, es)
    decreases |es|
  {
    es == [] ||
    (var before, e := es[..|es| - 1], es[|es| - 1];
     NobodyOvertakes(l, before, n) && !(e.Add? && e.name == n && Overtakes(l, After(l, before), n)))
  }

  ghost predicate DifferentRequests(es: seq<Event>) {
    forall i, j :: 0 <= i < j < |es| && es[i].Add? && es[j].Add? ==> es[i].req != es[j].req
  }

  lemma {:induction false} ArrivedOnes(es: seq<Event>, n: Name)
    ensures forall r :: r in Arrived(es, n) ==> exists i :: 0 <= i < |es| && es[i].Add? && es[i].req == r
  {
    if es != [] {
      ArrivedOnes(es[..|es| - 1], n);
      forall r | r in Arrived(es, n) ensures exists i :: 0 <= i < |es| && es[i].Add? && es[i].req == r {
        if r in Arrived(es[..|es| - 1], n) {
          var i :| 0 <= i < |es| - 1 && es[..|es| - 1][i].Add? && es[..|es| - 1][i].req == r;
          assert es[i].Add? && es[i].req == r;
        } else {
          assert es[|es| - 1].req == r;
        }
      }
    }
  }

  /**
   * Under any limits every request of an origin is served once or still
   * waiting once; nothing is lost or served twice.
   */
  lemma {:induction false} ServedOnce(l: Limits, es: seq<Event>, n: Name)
    requires Proper(l) && Legal(l, es)
    ensures multiset(Line(After(l, es), n)) == multiset(Arrived(es, n))
    decreases |es|
  {
    hide Inv, OnAdd, OnClose, OnFree, Line, Overtakes;
    if es == [] {
      StartLine(n);
    } else {
      var before, e := After(l, es[..|es| - 1]), es[|es| - 1];
      ServedOnce(l, es[..|es| - 1], n);
      RunInv(l, es[..|es| - 1]);
      match e
      case Add(m, r) =>
        if m == n {
          AddLine(l, before, n, r);
          InsertedSame(before, n, r);
        } else {
          AddOtherLine(l, before, m, r, n);
          assert Arrived(es, n) == Arrived(es[..|es| - 1], n);
        }
      case Free(_, _, _, _) => FreeLine(l, before, e, n); assert Arrived(es, n) == Arrived(es[..|es| - 1], n);
      case Close(s) => CloseLine(before, s, n); assert Arrived(es, n) == Arrived(es[..|es| - 1], n);
    }
  }

  lemma StartLine(n: Name)
    ensures Line(START, n) == []
  {
  }

  lemma InsertedSame(p: Pool, n: Name, r: Req)
    ensures multiset(Served(p.given, n) + [r] + Queue(p, n)) == multiset(Line(p, n)) + multiset{r}
    ensures multiset(Line(p, n) + [r]) == multiset(Line(p, n)) + multiset{r}
  {
  }

  /**
   * The requests of an origin get their sockets in the order they arrived
   * exactly when no request comes while others wait and both limits allow a
   * new socket.
   */
  lemma {:induction false} FirstComeFirstServed(l: Limits, es: seq<Event>, n: Name)
    requires Proper(l) && Legal(l, es) && DifferentRequests(es)
    ensures Line(After(l, es), n) == Arrived(es, n) <==> NobodyOvertakes(l, es, n)
    decreases |es|
  {
    hide Inv, OnAdd, OnClose, OnFree, Line, Below;
    if es == [] {
      StartLine(n);
    } else {
      var before, p, e := es[..|es| - 1], After(l, es[..|es| - 1]), es[|es| - 1];
      FirstComeFirstServed(l, before, n);
      RunInv(l, before);
      match e
      case Add(m, r) =>
        if m == n {
          AddLine(l, p, n, r);
          NewRequest(es, n);
          ServedOnce(l, before, n);
          Inserted(l, p, n, r, Arrived(before, n));
        } else {
          AddOtherLine(l, p, m, r, n);
          assert Arrived(es, n) == Arrived(before, n);
        }
      case Free(_, _, _, _) => FreeLine(l, p, e, n); assert Arrived(es, n) == Arrived(before, n);
      case Close(s) => CloseLine(p, s, n); assert Arrived(es, n) == Arrived(before, n);
    }
  }

  lemma NewRequest(es: seq<Event>, n: Name)
    requires DifferentRequests(es) && es != [] && es[|es| - 1].Add?
    ensures es[|es| - 1].req !in Arrived(es[..|es| - 1], n)
  {
    ArrivedOnes(es[..|es| - 1], n);
  }

  lemma Inserted(l: Limits, p: Pool, n: Name, r: Req, arrived: seq<Req>)
    requires r !in arrived && multiset(Line(p, n)) == multiset(arrived)
    ensures Line(p, n) + [r] == arrived + [r] <==> Line(p, n) == arrived
    ensures Queue(p, n) != [] ==> Served(p.given, n) + [r] + Queue(p, n) != arrived + [r]
  {
    var q := Queue(p, n);
    if Line(p, n) + [r] == arrived + [r] {
      assert Line(p, n) == (Line(p, n) + [r])[..|Line(p, n)|];
      assert |Line(p, n)| == |arrived|;
      assert arrived == (arrived + [r])[..|arrived|];
    }
    if q != [] {
      var whole := Served(p.given, n) + [r] + q;
      assert whole[|whole| - 1] == q[|q| - 1];
      assert q[|q| - 1] in Line(p, n);
      assert q[|q| - 1] in multiset(Line(p, n));
      assert q[|q| - 1] in arrived;
    }
  }

  /** Without a limit on the total nobody is ever overtaken. */
  lemma {:induction false} NeverOvertaken(l: Limits, es: seq<Event>, n: Name)
    requires Proper(l) && Legal(l, es) && l.maxTotalSockets.None?
    ensures NobodyOvertakes(l, es, n)
    decreases |es|
  {
    hide Inv, Step;
    if es != [] {
      NeverOvertaken(l, es[..|es| - 1], n);
      RunFull(l, es[..|es| - 1]);
    }
  }
}
