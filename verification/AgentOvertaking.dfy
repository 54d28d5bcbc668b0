/** How a newcomer comes to be served first under a limit on all sockets: the steps after which one could be. */
module AgentOvertaking {
  import opened Lists
  import opened Results
  import opened AgentPool

  /** A request that comes now could overtake those that wait. */
  ghost predicate Open(l: Limits, p: Pool) {
    exists n :: Overtakes(l, p, n)
  }

  /** The event takes a socket out of the pool. */
  predicate Closing(l: Limits, p: Pool, e: Event) {
    match e
    case Add(_, _) => false
    case Free(s, writable, keep, alive) =>
      s < |p.origins| && (!writable || (Queue(p, p.origins[s]) == [] && !MayKeep(l, p, p.origins[s], keep, alive)))
    case Close(s) => s < |p.origins|
  }

  /** Requests of `n` wait for no other reason than the total, which one socket less would satisfy. */
  predicate HeldUp(l: Limits, p: Pool, n: Name) {
    Queue(p, n) != [] && Below(|Used(p, n)|, l.maxSockets) && Below(p.total - 1, l.maxTotalSockets)
  }

  /**
   * The one way: a socket goes whose origin has no use for the place, the first
   * origin in line is passed over because it has a socket, and another could
   * have had the place.
   */
  ghost predicate LetsIn(l: Limits, p: Pool, e: Event) {
    && Closing(l, p, e)
    && Queue(p, p.origins[e.socket]) == [] && p.order != [] && Used(p, p.order[0]) != []
    && exists n :: HeldUp(l, p, n)
  }

  /** Nobody is worse off than before: no more waiting, and no origin and not the pool with fewer sockets. */
  ghost predicate NoRoom(p: Pool, p': Pool) {
    p'.total >= p.total && forall m :: Queue(p', m) != [] ==> Queue(p, m) != [] && |Used(p', m)| >= |Used(p, m)|
  }

  lemma NoRoomClosed(l: Limits, p: Pool, p': Pool)
    requires !Open(l, p) && NoRoom(p, p')
    ensures !Open(l, p')
  {
    forall m ensures !Overtakes(l, p', m) {
      assert !Overtakes(l, p, m);
    }
  }

  lemma ServeNoRoom(p: Pool, n: Name, s: Socket)
    requires Queue(p, n) != []
    ensures NoRoom(p, Serve(p, n, s))
  {
  }

  lemma CreateServeNoRoom(p: Pool, n: Name)
    requires Queue(p, n) != []
    ensures NoRoom(Create(p, n), Serve(Create(p, n), n, |p.origins|))
  {
    ServeNoRoom(Create(p, n), n, |p.origins|);
  }

  // ---------------------------------------------------------------- event by event

  lemma AddCloses(l: Limits, p: Pool, n: Name, r: Req)
    requires Inv(l, p) && !Open(l, p)
    ensures !Open(l, OnAdd(l, p, n, r))
  {
    hide Inv, Prepared;
    PreparedOk(l, p, n);
    var p1, p' := Prepared(p, n), OnAdd(l, p, n, r);
    OriginWithin(l, p1, n);
    forall m ensures !Overtakes(l, p', m) {
      assert !Overtakes(l, p, m);
      AddRoom(l, p1, n, r, m);
    }
  }

  /** Only a request that has to wait changes who waits. */
  lemma AddRoom(l: Limits, p1: Pool, n: Name, r: Req, m: Name)
    requires Idle(p1, n) != [] ==> Queue(p1, n) == []
    ensures var p' := if Idle(p1, n) != [] then Reuse(l, p1, n, r)
                      else if Below(|Used(p1, n)|, l.maxSockets) && Below(p1.total, l.maxTotalSockets) then
                        CreateFor(p1, n, r)
                      else Enqueue(p1, n, r);
            !Overtakes(l, p1, m) ==> !Overtakes(l, p', m)
  {
  }

  /** A socket that goes: a place for its origin or for the first in line, or one that stays empty. */
  lemma {:induction false} CloseOpens(l: Limits, p: Pool, s: Socket)
    requires Proper(l) && Inv(l, p) && !Open(l, p) && Enabled(p, Close(s))
    ensures Open(l, OnClose(p, s)) <==> LetsIn(l, p, Close(s))
  {
    hide Inv, TakeOut, Create, Serve, HeldUp, Overtakes;
    var n, p' := p.origins[s], Dropped(p, s, p.origins[s]);
    DroppedSockets(l, p, s);
    InvKeys(l, p);
    assert forall m :: Queue(p', m) == Queue(p, m);
    assert OnClose(p, s) == Refill(p', n);
    assert p.order != [] ==> p.order[0] in p.order;
    match NextOrigin(p', n)
    case None => DroppedOpens(l, p, s);
    case Some(k) => PlaceTaken(l, p, s, k);
  }

  lemma DroppedSockets(l: Limits, p: Pool, s: Socket)
    requires Inv(l, p) && Enabled(p, Close(s))
    ensures var n := p.origins[s]; var p' := Dropped(p, s, n);
            && (forall m :: m != n ==> Used(p', m) == Used(p, m))
            && (Queue(p, n) != [] ==> |Used(p', n)| == |Used(p, n)| - 1)
  {
    var n := p.origins[s];
    assert OriginOk(l, p, n);
    NoDupParts(Used(p, n), Idle(p, n));
    TakeOutFacts(p.sockets, n, s);
    WithoutFacts(Used(p, n), s);
  }

  lemma DroppedOpens(l: Limits, p: Pool, s: Socket)
    requires Inv(l, p) && Enabled(p, Close(s)) && NextOrigin(Dropped(p, s, p.origins[s]), p.origins[s]) == None
    ensures Open(l, Dropped(p, s, p.origins[s])) <==> LetsIn(l, p, Close(s))
  {
    hide Inv, TakeOut;
    var n, p' := p.origins[s], Dropped(p, s, p.origins[s]);
    DroppedSockets(l, p, s);
    InvKeys(l, p);
    forall m ensures Overtakes(l, p', m) <==> HeldUp(l, p, m) {
      assert Queue(p', m) == Queue(p, m);
      assert m == n ==> Queue(p, m) == [];
    }
    if p.order != [] {
      assert p.order[0] in p.order;
      assert Used(p', p.order[0]) == Used(p, p.order[0]);
    }
    if m :| HeldUp(l, p, m) {
      assert m in p.order;
    }
  }

  /** The place that is left is taken at once. */
  lemma {:induction false} PlaceTaken(l: Limits, p: Pool, s: Socket, k: Name)
    requires Inv(l, p) && !Open(l, p) && Enabled(p, Close(s))
    requires NextOrigin(Dropped(p, s, p.origins[s]), p.origins[s]) == Some(k)
    ensures !Open(l, OnClose(p, s)) && !LetsIn(l, p, Close(s))
  {
    hide Inv, TakeOut, Serve;
    var n, p' := p.origins[s], Dropped(p, s, p.origins[s]);
    DroppedSockets(l, p, s);
    InvKeys(l, p);
    assert p.order != [] ==> p.order[0] in p.order;
    assert Queue(p', k) == Queue(p, k) != [];
    CreateServeNoRoom(p', k);
    var made := Create(p', k);
    assert OnClose(p, s) == Serve(made, k, |p'.origins|);
    assert NoRoom(p, made);
    NoRoomClosed(l, p, made);
    NoRoomClosed(l, made, OnClose(p, s));
  }

  lemma {:induction false} FreeOpens(l: Limits, p: Pool, e: Event)
    requires Proper(l) && Inv(l, p) && !Open(l, p) && Enabled(p, e) && e.Free?
    ensures Open(l, Step(l, p, e)) <==> LetsIn(l, p, e)
  {
    hide Inv, OnClose, Serve, Refill, Parked, Open, MayKeep;
    var s, n := e.socket, p.origins[e.socket];
    if e.writable && Queue(p, n) != [] {
      ServeNoRoom(p, n, s);
      NoRoomClosed(l, p, Serve(p, n, s));
    } else if Closing(l, p, e) {
      CloseOpens(l, p, s);
    } else {
      ParkedThenRefill(l, p, s, e.shouldKeepAlive, e.alive);
      ParkedCloses(l, p, s);
    }
  }

  /** A socket put aside leaves its origin, where nobody waits, with one less. */
  lemma {:induction false} ParkedCloses(l: Limits, p: Pool, s: Socket)
    requires Inv(l, p) && !Open(l, p) && Enabled(p, Free(s, true, true, true)) && Queue(p, p.origins[s]) == []
    ensures !Open(l, Refill(Parked(p, s, p.origins[s]), p.origins[s]))
  {
    hide Inv, TakeOut, Serve;
    var n := p.origins[s];
    var p' := Parked(p, s, n);
    assert OriginOk(l, p, n) by { OriginHolds(l, p, n); }
    OthersKept(p, s, n);
    assert NoRoom(p, p');
    NoRoomClosed(l, p, p');
    match NextOrigin(p', n)
    case None =>
    case Some(k) =>
      if Queue(p', k) != [] {
        CreateServeNoRoom(p', k);
        assert NoRoom(p', Create(p', k));
        NoRoomClosed(l, p', Create(p', k));
        NoRoomClosed(l, Create(p', k), Refill(p', n));
      }
  }

  lemma OriginHolds(l: Limits, p: Pool, n: Name)
    requires Inv(l, p)
    ensures OriginOk(l, p, n)
  {
  }

  lemma OthersKept(p: Pool, s: Socket, n: Name)
    ensures forall m :: Queue(Parked(p, s, n), m) == Queue(p, m) && (m != n ==> Used(Parked(p, s, n), m) == Used(p, m))
  {
  }

  /** From a state in which nobody can be overtaken a step leads to one in which somebody can exactly when it is that one. */
  lemma {:induction false} StepOpens(l: Limits, p: Pool, e: Event)
    requires Proper(l) && Inv(l, p) && !Open(l, p) && Enabled(p, e)
    ensures Open(l, Step(l, p, e)) <==> LetsIn(l, p, e)
  {
    hide Inv, OnAdd, OnClose, OnFree, Open;
    match e
    case Add(n, r) => AddCloses(l, p, n, r);
    case Free(_, _, _, _) => FreeOpens(l, p, e);
    case Close(s) => CloseOpens(l, p, s);
  }

  // ----------------------------------------------------------------------- runs

  /** All through the run nobody can be overtaken. */
  ghost predicate NeverOpen(l: Limits, es: seq<Event>)
    requires Legal(l, es)
    decreases |es|
  {
    !Open(l, After(l, es)) && (es == [] || NeverOpen(l, es[..|es| - 1]))
  }

  ghost predicate NeverLetsIn(l: Limits, es: seq<Event>)
    requires Legal(l, es)
    decreases |es|
  {
    es == [] || (NeverLetsIn(l, es[..|es| - 1]) && !LetsIn(l, After(l, es[..|es| - 1]), es[|es| - 1]))
  }

  /** The runs in which nobody can ever be overtaken are those without such a step. */
  lemma {:induction false} RunOpens(l: Limits, es: seq<Event>)
    requires Proper(l) && Legal(l, es)
    ensures NeverOpen(l, es) <==> NeverLetsIn(l, es)
    decreases |es|
  {
    hide Inv, Step, Open, LetsIn;
    if es == [] {
      StartClosed(l);
    } else {
      var before := es[..|es| - 1];
      RunOpens(l, before);
      RunInv(l, before);
      if NeverOpen(l, before) {
        assert !Open(l, After(l, before));
        StepOpens(l, After(l, before), es[|es| - 1]);
      }
    }
  }

  lemma StartClosed(l: Limits)
    ensures !Open(l, START)
  {
  }

  /** In them every origin's requests are served in the order they arrived. */
  lemma {:induction false} OrderKept(l: Limits, es: seq<Event>, n: Name)
    requires Proper(l) && Legal(l, es) && DifferentRequests(es) && NeverLetsIn(l, es)
    ensures Line(After(l, es), n) == Arrived(es, n)
  {
    RunOpens(l, es);
    NeverOpenOrder(l, es, n);
    FirstComeFirstServed(l, es, n);
  }

  lemma {:induction false} NeverOpenOrder(l: Limits, es: seq<Event>, n: Name)
    requires Legal(l, es) && NeverOpen(l, es)
    ensures NobodyOvertakes(l, es, n)
    decreases |es|
  {
    hide Overtakes, Step;
    if es != [] {
      NeverOpenOrder(l, es[..|es| - 1], n);
      assert !Open(l, After(l, es[..|es| - 1]));
    }
  }
}
