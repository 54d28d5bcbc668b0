/** Which sockets are free, and which of them a request gets, told by when each was last put aside. */
module AgentScheduling {
  import opened Lists
  import opened Results
  import opened AgentPool

  /** The number of the last event in which `s` was done with a request, counted from one; none is zero. */
  function LastFree(es: seq<Event>, s: Socket): (k: nat)
    ensures k <= |es| && (k > 0 ==> es[k - 1].Free? && es[k - 1].socket == s)
  {
    if es == [] then 0
    else if es[|es| - 1].Free? && es[|es| - 1].socket == s then |es|
    else LastFree(es[..|es| - 1], s)
  }

  /** Free sockets stand in the order in which they were put aside. */
  ghost predicate InOrder(es: seq<Event>, idle: seq<Socket>) {
    forall i, j :: 0 <= i < j < |idle| ==> LastFree(es, idle[i]) < LastFree(es, idle[j])
  }

  /** The last that happened to each was being put aside: writable, kept alive by its response and by the agent. */
  ghost predicate PutAside(es: seq<Event>, idle: seq<Socket>) {
    forall i :: 0 <= i < |idle| ==>
      LastFree(es, idle[i]) > 0 && es[LastFree(es, idle[i]) - 1] == Free(idle[i], true, true, true)
  }

  ghost predicate IdleOk(l: Limits, es: seq<Event>, idle: seq<Socket>) {
    && InOrder(es, idle) && PutAside(es, idle)
    && |idle| <= l.maxFreeSockets && (idle != [] ==> l.keepAlive)
  }

  /** Some taken out, the others as they were. */
  ghost predicate Fewer(idle: seq<Socket>, idle': seq<Socket>) {
    || idle' == idle
    || (idle != [] && (idle' == idle[1..] || idle' == idle[..|idle| - 1]))
    || exists s :: idle' == Without(idle, s)
  }

  lemma {:induction false} WithoutInOrder(es: seq<Event>, idle: seq<Socket>, s: Socket)
    requires InOrder(es, idle)
    ensures InOrder(es, Without(idle, s)) && |Without(idle, s)| <= |idle|
    ensures forall t :: t in Without(idle, s) ==> t in idle
    decreases |idle|
  {
    hide LastFree, InOrder;
    if idle != [] {
      InOrderRest(es, idle);
      if idle[0] != s {
        WithoutInOrder(es, idle[1..], s);
        InOrderFirst(es, idle[0], Without(idle[1..], s));
      }
    }
  }

  lemma InOrderRest(es: seq<Event>, idle: seq<Socket>)
    requires InOrder(es, idle) && idle != []
    ensures InOrder(es, idle[1..]) && forall t :: t in idle[1..] ==> LastFree(es, idle[0]) < LastFree(es, t)
  {
    hide LastFree;
  }

  lemma InOrderFirst(es: seq<Event>, s: Socket, idle: seq<Socket>)
    requires InOrder(es, idle) && forall t :: t in idle ==> LastFree(es, s) < LastFree(es, t)
    ensures InOrder(es, [s] + idle)
  {
    hide LastFree;
    var all := [s] + idle;
    assert forall i :: 0 < i < |all| ==> all[i] == idle[i - 1] && all[i] in idle;
  }

  /** `idle'` in the order of `idle`. */
  lemma FewerInOrder(es: seq<Event>, idle: seq<Socket>, idle': seq<Socket>)
    requires InOrder(es, idle) && Fewer(idle, idle')
    ensures InOrder(es, idle') && |idle'| <= |idle| && forall t :: t in idle' ==> t in idle
  {
    hide LastFree, Without;
    if idle' != idle && !(idle != [] && (idle' == idle[1..] || idle' == idle[..|idle| - 1])) {
      var s :| idle' == Without(idle, s);
      WithoutInOrder(es, idle, s);
    }
  }

  lemma FewerOk(l: Limits, es: seq<Event>, idle: seq<Socket>, idle': seq<Socket>)
    requires IdleOk(l, es, idle) && Fewer(idle, idle')
    ensures IdleOk(l, es, idle')
    ensures forall t :: t in idle' ==> t in idle
  {
    hide LastFree, Without, InOrder, Fewer;
    FewerInOrder(es, idle, idle');
    assert forall i :: 0 <= i < |idle'| ==> idle'[i] in idle;
  }

  /** An event that does not put a free socket aside again leaves their order alone. */
  lemma LaterOk(l: Limits, es: seq<Event>, e: Event, idle: seq<Socket>)
    requires IdleOk(l, es, idle) && (e.Free? ==> e.socket !in idle)
    ensures IdleOk(l, es + [e], idle)
  {
    assert (es + [e])[..|es|] == es;
    forall t | t in idle ensures LastFree(es + [e], t) == LastFree(es, t) {
    }
  }

  /** One more is put aside. */
  lemma AsideOk(l: Limits, es: seq<Event>, s: Socket, idle: seq<Socket>)
    requires IdleOk(l, es, idle) && s !in idle && |idle| < l.maxFreeSockets && l.keepAlive
    ensures IdleOk(l, es + [Free(s, true, true, true)], idle + [s])
  {
    var e := Free(s, true, true, true);
    LaterOk(l, es, e, idle);
    assert LastFree(es + [e], s) == |es| + 1;
    assert forall i :: 0 <= i < |idle| ==> (idle + [s])[i] == idle[i];
  }

  // ---------------------------------------------------------------------- steps

  lemma RefillIdle(p: Pool, n: Name)
    ensures Refill(p, n).freeSockets == p.freeSockets
  {
    hide Get;
  }

  lemma TakeOutIdle(m: map<Name, seq<Socket>>, n: Name, s: Socket, k: Name)
    ensures Get(TakeOut(m, n, s), k) == if k == n && s in Get(m, n) then Without(Get(m, n), s) else Get(m, k)
  {
    hide Without;
  }

  lemma CloseIdle(p: Pool, s: Socket, m: Name)
    requires s < |p.origins|
    ensures Fewer(Idle(p, m), Idle(OnClose(p, s), m))
  {
    hide TakeOut, Refill, Without;
    var n := p.origins[s];
    RefillIdle(Dropped(p, s, n), n);
    TakeOutIdle(p.freeSockets, n, s, m);
  }

  lemma AddIdle(l: Limits, p: Pool, n: Name, r: Req, m: Name)
    ensures Fewer(Idle(p, m), Idle(OnAdd(l, p, n, r), m))
  {
    hide Without;
  }

  lemma FreeIdle(l: Limits, p: Pool, e: Event, m: Name)
    requires e.Free? && e.socket < |p.origins|
    ensures var idle, idle' := Idle(p, m), Idle(OnFree(l, p, e.socket, e.writable, e.shouldKeepAlive, e.alive), m);
            || Fewer(idle, idle')
            || (e == Free(e.socket, true, true, true) && m == p.origins[e.socket] && idle' == idle + [e.socket]
                && |idle| < l.maxFreeSockets && l.keepAlive)
  {
    hide TakeOut, Refill, OnClose, Serve, Fewer;
    var n := p.origins[e.socket];
    if !e.writable {
      CloseIdle(p, e.socket, m);
    } else if Queue(p, n) != [] {
      ServeIdle(p, n, e.socket, m);
    } else if !MayKeep(l, p, n, e.shouldKeepAlive, e.alive) {
      CloseIdle(p, e.socket, m);
    } else {
      RefillIdle(p.(sockets := TakeOut(p.sockets, n, e.socket)), n);
      SameIdle(Idle(p, m));
    }
  }

  lemma SameIdle(idle: seq<Socket>)
    ensures Fewer(idle, idle)
  {
  }

  lemma ServeIdle(p: Pool, n: Name, s: Socket, m: Name)
    requires Queue(p, n) != []
    ensures Fewer(Idle(p, m), Idle(Serve(p, n, s), m))
  {
  }

  lemma {:induction false} StepIdle(l: Limits, es: seq<Event>, p: Pool, e: Event, m: Name)
    requires Enabled(p, e) && OriginOk(l, p, m) && IdleOk(l, es, Idle(p, m))
    requires forall n :: OriginOk(l, p, n)
    ensures IdleOk(l, es + [e], Idle(Step(l, p, e), m))
  {
    hide IdleOk, OnAdd, OnFree, OnClose, Fewer;
    var idle, idle' := Idle(p, m), Idle(Step(l, p, e), m);
    match e {
      case Add(n, r) => AddIdle(l, p, n, r, m);
      case Close(s) => CloseIdle(p, s, m);
      case Free(s, _, _, _) =>
        FreeIdle(l, p, e, m);
        UsedNotIdle(l, p, s, m);
    }
    if Fewer(idle, idle') {
      FewerOk(l, es, idle, idle');
      LaterOk(l, es, e, idle');
    } else {
      AsideOk(l, es, e.socket, idle);
    }
  }

  lemma UsedNotIdle(l: Limits, p: Pool, s: Socket, m: Name)
    requires s < |p.origins| && s in Used(p, p.origins[s]) && OriginOk(l, p, m) && OriginOk(l, p, p.origins[s])
    ensures s !in Idle(p, m)
  {
    NoDupParts(Used(p, m), Idle(p, m));
    InParts(Used(p, m), Idle(p, m), s);
  }

  /**
   * In every run the free sockets of each origin stand in the order in which
   * they were put aside, each because it was writable and kept alive, and there
   * are at most `maxFreeSockets`; without `keepAlive` there are none.
   */
  lemma {:induction false} RunIdle(l: Limits, es: seq<Event>, m: Name)
    requires Proper(l) && Legal(l, es)
    ensures IdleOk(l, es, Idle(After(l, es), m))
    decreases |es|
  {
    hide IdleOk, Step, Enabled, OriginOk;
    if es == [] {
      NothingIdle(l);
    } else {
      var before, e := es[..|es| - 1], es[|es| - 1];
      assert es == before + [e];
      RunIdle(l, before, m);
      RunInv(l, before);
      StepIdle(l, before, After(l, before), e, m);
    }
  }

  lemma NothingIdle(l: Limits)
    ensures IdleOk(l, [], [])
  {
  }

  // -------------------------------------------------------------- what a request gets

  /** `s` is the one put aside first, or last. */
  ghost predicate IsFirst(es: seq<Event>, idle: seq<Socket>, s: Socket) {
    s in idle && forall t :: t in idle && t != s ==> LastFree(es, s) < LastFree(es, t)
  }

  ghost predicate IsLast(es: seq<Event>, idle: seq<Socket>, s: Socket) {
    s in idle && forall t :: t in idle && t != s ==> LastFree(es, t) < LastFree(es, s)
  }

  /**
   * A request gets a free socket of its origin if there is one: under "fifo"
   * the one that was put aside first, under "lifo" the one put aside last.
   * Otherwise it gets a new socket as long as both limits allow it, and waits
   * behind all others when they do not.
   */
  lemma {:induction false} AddGives(l: Limits, es: seq<Event>, n: Name, r: Req)
    requires Proper(l) && Legal(l, es)
    ensures var p := After(l, es); var p' := Step(l, p, Add(n, r));
            if Idle(p, n) != [] then
              && |p'.given| == |p.given| + 1 && p'.given[..|p.given|] == p.given
              && var g := p'.given[|p.given|];
              && g.name == n && g.req == r && g.socket in Used(p', n)
              && (if l.fifo then IsFirst(es, Idle(p, n), g.socket) else IsLast(es, Idle(p, n), g.socket))
            else if Below(|Used(p, n)|, l.maxSockets) && Below(p.total, l.maxTotalSockets) then
              p'.given == p.given + [Given(n, r, |p.origins|)] && p'.origins == p.origins + [n]
            else
              p'.given == p.given && Queue(p', n) == Queue(p, n) + [r]
  {
    hide Legal, After, Prepared;
    RunInv(l, es);
    RunIdle(l, es, n);
    var p := After(l, es);
    PreparedOk(l, p, n);
    PreparedOrigins(p, n);
    var idle := Idle(p, n);
    if idle != [] {
      EndsInOrder(es, idle);
    }
  }

  lemma PreparedOrigins(p: Pool, n: Name)
    ensures Prepared(p, n).origins == p.origins
  {
  }

  lemma EndsInOrder(es: seq<Event>, idle: seq<Socket>)
    requires idle != [] && InOrder(es, idle)
    ensures IsFirst(es, idle, idle[0]) && IsLast(es, idle, idle[|idle| - 1])
  {
  }

  /**
   * A used socket that is done with its request goes to the request of its
   * origin that has waited longest. When none waits it is put aside behind the
   * others, exactly when the response and the agent keep connections and there
   * is room for it: the limit of the origin never stands in the way, the total
   * one does when it is already passed. Otherwise it is in neither list.
   */
  lemma {:induction false} FreeGives(l: Limits, es: seq<Event>, s: Socket, shouldKeepAlive: bool, alive: bool)
    requires Proper(l) && Legal(l, es) && Enabled(After(l, es), Free(s, true, shouldKeepAlive, alive))
    ensures var p := After(l, es); var n := p.origins[s];
            var p' := Step(l, p, Free(s, true, shouldKeepAlive, alive));
            var kept := && shouldKeepAlive && alive && l.keepAlive && |Idle(p, n)| < l.maxFreeSockets
                        && Within(p.total, l.maxTotalSockets);
            if Queue(p, n) != [] then
              p'.given == p.given + [Given(n, Queue(p, n)[0], s)] && s in Used(p', n)
            else if kept then
              Idle(p', n) == Idle(p, n) + [s]
            else
              s !in Used(p', n) && s !in Idle(p', n)
  {
    hide Legal, After, OnClose, Serve, Remove;
    RunInv(l, es);
    var p := After(l, es);
    var n := p.origins[s];
    OriginWithin(l, p, n);
    if Queue(p, n) != [] {
      ServeKeeps(p, n, s);
    } else if MayKeep(l, p, n, shouldKeepAlive, alive) {
      RemoveIdle(p, s, n);
    } else {
      CloseForgets(l, p, s);
    }
  }

  lemma ServeKeeps(p: Pool, n: Name, s: Socket)
    requires Queue(p, n) != []
    ensures Serve(p, n, s).given == p.given + [Given(n, Queue(p, n)[0], s)] && Used(Serve(p, n, s), n) == Used(p, n)
  {
  }

  lemma RemoveIdle(p: Pool, s: Socket, n: Name)
    ensures Remove(p, s, n, true).freeSockets == p.freeSockets
  {
    hide TakeOut, Refill;
    RefillIdle(p.(sockets := TakeOut(p.sockets, n, s)), n);
  }

  lemma CloseForgets(l: Limits, p: Pool, s: Socket)
    requires Inv(l, p) && Enabled(p, Close(s)) && Queue(p, p.origins[s]) == []
    ensures var p', n := OnClose(p, s), p.origins[s]; s !in Used(p', n) && s !in Idle(p', n)
  {
    hide Refill, TakeOut, Without;
    var n := p.origins[s];
    var p1 := Dropped(p, s, n);
    assert OriginOk(l, p, n);
    NoDupParts(Used(p, n), Idle(p, n));
    TakeOutFacts(p.sockets, n, s);
    TakeOutFacts(p.freeSockets, n, s);
    WithoutFacts(Used(p, n), s);
    WithoutFacts(Idle(p, n), s);
    assert OnClose(p, s) == Refill(p1, n);
    RefillIdle(p1, n);
    RefillUsed(p1, n, s);
  }

  lemma RefillUsed(p: Pool, n: Name, s: Socket)
    requires s < |p.origins| && s !in Used(p, n)
    ensures s !in Used(Refill(p, n), n)
  {
    match NextOrigin(p, n)
    case None =>
    case Some(m) =>
      assert Used(Create(p, m), n) == if m == n then Used(p, n) + [|p.origins|] else Used(p, n);
  }

  /** Every request was given a socket that had been made for its origin. */
  ghost predicate OwnSockets(p: Pool) {
    forall i :: 0 <= i < |p.given| ==> p.given[i].socket < |p.origins| && p.origins[p.given[i].socket] == p.given[i].name
  }

  lemma ServeOwn(p: Pool, n: Name, s: Socket)
    requires OwnSockets(p) && Queue(p, n) != [] && s < |p.origins| && p.origins[s] == n
    ensures OwnSockets(Serve(p, n, s))
  {
  }

  lemma RefillOwn(p: Pool, n: Name)
    requires OwnSockets(p)
    ensures OwnSockets(Refill(p, n))
  {
    hide Serve, OwnSockets;
    match NextOrigin(p, n)
    case None =>
    case Some(m) =>
      if Queue(p, m) != [] {
        CreateOwn(p, m);
        ServeOwn(Create(p, m), m, |p.origins|);
      }
  }

  lemma CreateOwn(p: Pool, m: Name)
    requires OwnSockets(p)
    ensures OwnSockets(Create(p, m)) && Queue(Create(p, m), m) == Queue(p, m)
  {
  }

  lemma SameOwn(p: Pool, p': Pool)
    requires OwnSockets(p) && p'.given == p.given && p'.origins == p.origins
    ensures OwnSockets(p')
  {
  }

  lemma CloseOwn(p: Pool, s: Socket)
    requires OwnSockets(p) && s < |p.origins|
    ensures OwnSockets(OnClose(p, s))
  {
    hide OwnSockets, Refill, TakeOut;
    var n := p.origins[s];
    var p1 := Dropped(p, s, n);
    SameOwn(p, p1);
    RefillOwn(p1, n);
  }

  lemma {:induction false} StepOwn(l: Limits, p: Pool, e: Event)
    requires OwnSockets(p) && Enabled(p, e) && forall n :: OriginOk(l, p, n)
    ensures OwnSockets(Step(l, p, e))
  {
    hide OwnSockets, OnAdd, OnClose, Serve, Refill, TakeOut;
    match e
    case Add(n, r) =>
      assert OriginOk(l, p, n);
      AddOwn(l, p, n, r);
    case Close(s) => CloseOwn(p, s);
    case Free(s, writable, keep, alive) =>
      var n := p.origins[s];
      if !writable {
        CloseOwn(p, s);
      } else if Queue(p, n) != [] {
        ServeOwn(p, n, s);
      } else if !MayKeep(l, p, n, keep, alive) {
        CloseOwn(p, s);
      } else {
        var p1 := p.(sockets := TakeOut(p.sockets, n, s));
        SameOwn(p, p1);
        RefillOwn(p1, n);
        SameOwn(Refill(p1, n), OnFree(l, p, s, true, keep, alive));
      }
  }

  lemma AddOwn(l: Limits, p: Pool, n: Name, r: Req)
    requires OwnSockets(p) && OriginOk(l, p, n)
    ensures OwnSockets(OnAdd(l, p, n, r))
  {
    InParts(Used(p, n), Idle(p, n), if Idle(p, n) != [] then Pick(l, Idle(p, n)).0 else 0);
  }

  /** In every run. */
  lemma {:induction false} RunOwn(l: Limits, es: seq<Event>)
    requires Proper(l) && Legal(l, es)
    ensures OwnSockets(After(l, es))
    decreases |es|
  {
    hide OwnSockets, Step, Enabled, OriginOk;
    if es == [] {
      NothingOwn();
    } else {
      RunOwn(l, es[..|es| - 1]);
      RunInv(l, es[..|es| - 1]);
      StepOwn(l, After(l, es[..|es| - 1]), es[|es| - 1]);
    }
  }

  lemma NothingOwn()
    ensures OwnSockets(START)
  {
  }
}
