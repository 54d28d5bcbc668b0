/** The agent of lib/_http_agent.js with its tables, changed in place, and the handlers that call one another. */
module AgentObjects {
  import opened Results
  import opened AgentPool
  import opened Lists

  class Agent {
    const limits: Limits
    /** `sockets`, `freeSockets`, `requests` with the order of its keys, `totalSocketCount`. */
    var sockets: map<Name, seq<Socket>>
    var freeSockets: map<Name, seq<Socket>>
    var requests: map<Name, seq<Req>>
    var order: seq<Name>
    var totalSocketCount: int
    /** The options that `installListeners` gives the listeners of each socket. */
    var origins: seq<Name>
    /** The calls of `setRequestSocket`. */
    ghost var given: seq<Given>

    ghost function Value(): Pool
      reads this
    {
      Pool(sockets, freeSockets, requests, order, totalSocketCount, origins, given)
    }

    constructor (limits: Limits)
      ensures this.limits == limits && Value() == START
    {
      this.limits := limits;
      sockets, freeSockets, requests, order := map[], map[], map[], [];
      totalSocketCount, origins := 0, [];
      given := [];
    }

    /** `createSocket` with a connection that is made at once. */
    method CreateSocket(n: Name) returns (s: Socket)
      modifies this
      ensures s == |old(origins)| && Value() == Create(old(Value()), n)
    {
      s := |origins|;
      if n !in sockets {
        sockets := sockets[n := []];
      }
      assert sockets[n := sockets[n] + [s]] == old(sockets)[n := Get(old(sockets), n) + [s]];
      sockets := sockets[n := sockets[n] + [s]];
      totalSocketCount := totalSocketCount + 1;
      origins := origins + [n];
    }

    ghost method SetRequestSocket(n: Name, r: Req, s: Socket)
      modifies this`given
      ensures given == old(given) + [Given(n, r, s)]
    {
      given := given + [Given(n, r, s)];
    }

    /** A free socket of the origin, if there is one; a list that is empty then is deleted. */
    method TakeFree(n: Name) returns (socket: Option<Socket>)
      modifies this`freeSockets
      ensures if Get(old(freeSockets), n) == [] then socket == None && freeSockets == old(freeSockets) - {n}
              else
                var (s, rest) := Pick(limits, Get(old(freeSockets), n));
                && socket == Some(s)
                && freeSockets == if rest == [] then old(freeSockets) - {n} else old(freeSockets)[n := rest]
    {
      socket := None;
      if n in freeSockets {
        var list := freeSockets[n];
        if |list| > 0 {
          var (s, rest) := Pick(limits, list);
          socket, list := Some(s), rest;
          freeSockets := freeSockets[n := list];
        }
        if |list| == 0 {
          freeSockets := freeSockets - {n};
          assert freeSockets == old(freeSockets) - {n};
        }
      } else {
        assert freeSockets - {n} == freeSockets;
      }
    }

    method Wait(n: Name, r: Req)
      modifies this`requests, this`order
      ensures Value() == Enqueue(old(Value()), n, r)
    {
      if n !in requests {
        requests, order := requests[n := []], order + [n];
      }
      assert requests[n := requests[n] + [r]] == old(requests)[n := Get(old(requests), n) + [r]];
      requests := requests[n := requests[n] + [r]];
    }

    /** `addRequest`: a free socket, a new one, or a place in the queue. */
    method AddRequest(n: Name, r: Req)
      modifies this
      ensures Value() == OnAdd(limits, old(Value()), n, r)
    {
      hide Pick, Enqueue, Below;
      ghost var p1 := Prepared(Value(), n);
      if n !in sockets {
        sockets := sockets[n := []];
      }
      var socket := TakeFree(n);
      var sockLen := |Get(freeSockets, n)| + |sockets[n]|;
      if socket.Some? {
        SetRequestSocket(n, r, socket.value);
        sockets := sockets[n := sockets[n] + [socket.value]];
        assert Value() == Reuse(limits, p1, n, r);
      } else {
        assert Value() == p1;
        if Below(sockLen, limits.maxSockets) && Below(totalSocketCount, limits.maxTotalSockets) {
          var s := CreateSocket(n);
          SetRequestSocket(n, r, s);
        } else {
          Wait(n, r);
        }
      }
    }

    /** The `free` handler when a request of the same origin waits. */
    method ServeNext(n: Name, s: Socket)
      requires Get(requests, n) != []
      modifies this
      ensures Value() == Serve(old(Value()), n, s)
    {
      var req := requests[n][0];
      ghost var rest := requests[n][1..];
      requests := requests[n := requests[n][1..]];
      SetRequestSocket(n, req, s);
      if |requests[n]| == 0 {
        assert requests - {n} == old(requests) - {n};
        requests, order := requests - {n}, Without(order, n);
      }
    }

    /** The `free` handler. A socket that was just made for a waiting request comes here too. */
    method OnFree(s: Socket, writable: bool, shouldKeepAlive: bool, alive: bool)
      requires s < |origins|
      modifies this
      ensures Value() == AgentPool.OnFree(limits, old(Value()), s, writable, shouldKeepAlive, alive)
      decreases if writable && Get(requests, origins[s]) != [] then 0 else 2
    {
      hide Serve, Remove, AgentPool.OnClose, Within;
      var n := origins[s];
      if !writable {
        OnClose(s);
        return;
      }
      if n in requests && |requests[n]| > 0 {
        ServeNext(n, s);
        return;
      }
      if !shouldKeepAlive || !limits.keepAlive {
        OnClose(s);
        return;
      }
      var list := Get(freeSockets, n);
      var count := |list|;
      if n in sockets {
        count := count + |sockets[n]|;
      }
      if !Within(totalSocketCount, limits.maxTotalSockets) || !Within(count, limits.maxSockets)
         || |list| >= limits.maxFreeSockets || !alive {
        OnClose(s);
        return;
      }
      freeSockets := freeSockets[n := list];
      Unseen(old(Value()), s, n, freeSockets);
      RemoveSocket(s, n, true);
      assert freeSockets[n := list + [s]] == old(freeSockets)[n := list + [s]];
      freeSockets := freeSockets[n := list + [s]];
    }

    /** Taking a socket that still works out of use does not depend on the free ones. */
    static lemma Unseen(p: Pool, s: Socket, n: Name, idle: map<Name, seq<Socket>>)
      ensures Remove(p.(freeSockets := idle), s, n, true) == Remove(p, s, n, true).(freeSockets := idle)
      ensures Remove(p, s, n, true).freeSockets == p.freeSockets
    {
      hide Refill, TakeOut;
      RefillIgnoresIdle(p.(sockets := TakeOut(p.sockets, n, s)), n, idle);
      RefillIgnoresIdle(p.(sockets := TakeOut(p.sockets, n, s)), n, p.freeSockets);
    }

    /** The `close` handler, which also follows `destroy`. */
    method OnClose(s: Socket)
      requires s < |origins|
      modifies this
      ensures Value() == AgentPool.OnClose(old(Value()), s)
      decreases 1, 2
    {
      totalSocketCount := totalSocketCount - 1;
      RemoveSocket(s, origins[s], false);
    }

    /**
     * `removeSocket`: out of the used sockets, and of the free ones when it was
     * destroyed. A request that waits gets a new socket by way of `free`.
     */
    method RemoveSocket(s: Socket, n: Name, writable: bool)
      modifies this
      ensures Value() == Remove(old(Value()), s, n, writable)
      decreases 1, 1
    {
      hide Refill, TakeOut;
      sockets := Splice(sockets, n, s);
      if !writable {
        freeSockets := Splice(freeSockets, n, s);
      }
      FillPlace(n);
    }

    /** The end of `removeSocket`; the loop over the keys of `requests` always leaves in its first round. */
    method FillPlace(n: Name)
      modifies this
      ensures Value() == Refill(old(Value()), n)
      decreases 1, 0
    {
      hide Serve, Create;
      var next := None;
      if n in requests && |requests[n]| > 0 {
        next := Some(n);
      } else if |order| > 0 {
        var prop := order[0];
        if !(prop in sockets && |sockets[prop]| > 0) && prop in requests && |requests[prop]| > 0 {
          next := Some(prop);
        }
      }
      if next.Some? {
        CreateKeeps(Value(), next.value);
        var socket := CreateSocket(next.value);
        OnFree(socket, true, false, false);
      }
    }

    static lemma CreateKeeps(p: Pool, n: Name)
      ensures Create(p, n).requests == p.requests && Create(p, n).origins == p.origins + [n]
    {
    }

    /** `indexOf`, for the first place of `s`. */
    static method IndexOf(list: seq<Socket>, s: Socket) returns (index: Option<nat>)
      ensures index.None? ==> s !in list
      ensures index.Some? ==> index.value < |list| && list[index.value] == s && s !in list[..index.value]
    {
      var i := 0;
      while i < |list|
        invariant 0 <= i <= |list| && s !in list[..i]
      {
        if list[i] == s {
          return Some(i);
        }
        i := i + 1;
      }
      return None;
    }

    static lemma {:induction false} WithoutAt(list: seq<Socket>, s: Socket, i: nat)
      requires i < |list| && list[i] == s && s !in list[..i]
      ensures Without(list, s) == list[..i] + list[i + 1..]
    {
      if i > 0 {
        assert list[0] == list[..i][0];
        assert list[1..][..i - 1] == list[..i][1..] && list[1..][i..] == list[i + 1..];
        WithoutAt(list[1..], s, i - 1);
        assert list[..i] == [list[0]] + list[1..][..i - 1];
      } else {
        assert [] + list[1..] == list[1..];
      }
    }

    /** One table without the socket, and without the key when the list is empty. */
    static method Splice(table: map<Name, seq<Socket>>, n: Name, s: Socket) returns (r: map<Name, seq<Socket>>)
      ensures r == TakeOut(table, n, s)
    {
      hide Without;
      r := table;
      if n in r {
        var index := IndexOf(r[n], s);
        if index.Some? {
          WithoutAt(r[n], s, index.value);
          r := r[n := r[n][..index.value] + r[n][index.value + 1..]];
          if |r[n]| == 0 {
            r := r - {n};
            assert r == table - {n};
          }
        }
      }
    }
  }
}
