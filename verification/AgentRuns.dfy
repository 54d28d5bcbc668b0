/** Two runs of the agent's pool under a limit on the total: one goes over it, in the other a newcomer is served first. */
module AgentRuns {
  import opened AgentPool
  import opened Lists
  import opened Results

  const ONE_TOTAL: Limits := Limits(None, 256, Some(1), true, false)
  const TWO_TOTAL: Limits := Limits(None, 256, Some(2), true, false)

  /** One more event of a run. */
  lemma Extend(l: Limits, es: seq<Event>, p: Pool, e: Event)
    requires Legal(l, es) && After(l, es) == p && Enabled(p, e)
    ensures Legal(l, es + [e]) && After(l, es + [e]) == Step(l, p, e)
  {
    hide Step, Enabled;
    assert (es + [e])[..|es + [e]| - 1] == es;
  }

  /** The first socket of an origin. */
  lemma FirstOf(l: Limits, p: Pool, n: Name, r: Req)
    requires n !in p.sockets && n !in p.freeSockets && Below(0, l.maxSockets) && Below(p.total, l.maxTotalSockets)
    ensures OnAdd(l, p, n, r) ==
            p.(sockets := p.sockets[n := [|p.origins|]], total := p.total + 1, origins := p.origins + [n],
               given := p.given + [Given(n, r, |p.origins|)])
  {
    assert [] + [|p.origins|] == [|p.origins|];
    assert p.sockets[n := []][n := [] + [|p.origins|]] == p.sockets[n := [|p.origins|]];
    assert p.freeSockets - {n} == p.freeSockets;
    assert Used(Prepared(p, n), n) == [];
  }

  /** A request that has to wait, the first of its origin. */
  lemma FirstWaits(l: Limits, p: Pool, n: Name, r: Req)
    requires n !in p.freeSockets && n !in p.requests && !Below(p.total, l.maxTotalSockets)
    ensures OnAdd(l, p, n, r) ==
            p.(sockets := if n in p.sockets then p.sockets else p.sockets[n := []],
               requests := p.requests[n := [r]], order := p.order + [n])
  {
    assert [] + [r] == [r];
    assert p.freeSockets - {n} == p.freeSockets;
  }

  const ONE: Pool := Pool(map["a" := [0]], map[], map[], [], 1, ["a"], [Given("a", 0, 0)])
  const TWO: Pool :=
    Pool(map["a" := [0], "b" := [1]], map[], map[], [], 2, ["a", "b"], [Given("a", 0, 0), Given("b", 1, 1)])

  /** The first origin gets a socket. */
  lemma OneOrigin(l: Limits)
    requires Below(0, l.maxSockets) && Below(0, l.maxTotalSockets)
    ensures Legal(l, [Add("a", 0)]) && After(l, [Add("a", 0)]) == ONE
  {
    hide Legal, After, OnAdd;
    NothingYet(l);
    Extend(l, [], START, Add("a", 0));
    FirstOf(l, START, "a", 0);
    assert [] + [Add("a", 0)] == [Add("a", 0)];
    assert START.origins + ["a"] == ["a"] && START.given + [Given("a", 0, 0)] == [Given("a", 0, 0)];
  }

  lemma NothingYet(l: Limits)
    ensures Legal(l, []) && After(l, []) == START
  {
  }

  /** The second one as well, when the total allows it. */
  lemma TwoOrigins()
    ensures Legal(TWO_TOTAL, [Add("a", 0), Add("b", 1)]) && After(TWO_TOTAL, [Add("a", 0), Add("b", 1)]) == TWO
  {
    hide Legal, After, OnAdd;
    OneOrigin(TWO_TOTAL);
    Extend(TWO_TOTAL, [Add("a", 0)], ONE, Add("b", 1));
    assert "b" != "a";
    FirstOf(TWO_TOTAL, ONE, "b", 1);
    assert [Add("a", 0)] + [Add("b", 1)] == [Add("a", 0), Add("b", 1)];
    assert ONE.origins + ["b"] == ["a", "b"] && ONE.given + [Given("b", 1, 1)] == [Given("a", 0, 0), Given("b", 1, 1)];
  }

  /** And waits when it does not. */
  lemma OneWaits() returns (p: Pool)
    ensures Legal(ONE_TOTAL, [Add("a", 0), Add("b", 1)]) && After(ONE_TOTAL, [Add("a", 0), Add("b", 1)]) == p
    ensures p == ONE.(sockets := map["a" := [0], "b" := []], requests := map["b" := [1]], order := ["b"])
  {
    hide Legal, After, OnAdd;
    OneOrigin(ONE_TOTAL);
    Extend(ONE_TOTAL, [Add("a", 0)], ONE, Add("b", 1));
    assert "b" != "a";
    FirstWaits(ONE_TOTAL, ONE, "b", 1);
    assert [Add("a", 0)] + [Add("b", 1)] == [Add("a", 0), Add("b", 1)];
    p := OnAdd(ONE_TOTAL, ONE, "b", 1);
    assert ONE.order + ["b"] == ["b"];
  }

  /**
   * The total can go over its limit: a socket that is put aside at the limit
   * still makes room for a request of another origin.
   */
  lemma OverTheLimit()
    ensures var es := [Add("a", 0), Add("b", 1), Free(0, true, true, true)];
            Legal(ONE_TOTAL, es) && After(ONE_TOTAL, es).total == 2
  {
    hide Legal, After, Inv, Step;
    var e := Free(0, true, true, true);
    var p := OneWaits();
    assert "b" != "a";
    assert Used(p, "a") == [0] && Queue(p, "a") == [] && Used(p, "b") == [];
    Extend(ONE_TOTAL, [Add("a", 0), Add("b", 1)], p, e);
    assert [Add("a", 0), Add("b", 1)] + [e] == [Add("a", 0), Add("b", 1), e];
    RunInv(ONE_TOTAL, [Add("a", 0), Add("b", 1)]);
    StepOverTheLimit(ONE_TOTAL, p, e);
    RunInv(ONE_TOTAL, [Add("a", 0), Add("b", 1), e]);
  }

  /**
   * A limit on the total can break the order: a socket of another origin that
   * closes makes room which nobody who waits is given, but a newcomer takes.
   */
  lemma OvertakingHappens()
    ensures var es := [Add("a", 0), Add("b", 1), Add("a", 2), Close(1), Add("a", 3)];
            Legal(TWO_TOTAL, es) && Line(After(TWO_TOTAL, es), "a") == [0, 3, 2]
  {
    hide Legal, After, Served, OnAdd, OnClose;
    assert "a" != "b";
    var es2 := [Add("a", 0), Add("b", 1)];
    TwoOrigins();
    Extend(TWO_TOTAL, es2, TWO, Add("a", 2));
    var p3 := TWO.(requests := map["a" := [2]], order := ["a"]);
    FirstWaits(TWO_TOTAL, TWO, "a", 2);
    assert TWO.order + ["a"] == ["a"];
    var es3 := es2 + [Add("a", 2)];
    Extend(TWO_TOTAL, es3, p3, Close(1));
    var p4 := p3.(sockets := map["a" := [0]], total := 1);
    Closes(p3, p4);
    var es4 := es3 + [Close(1)];
    Extend(TWO_TOTAL, es4, p4, Add("a", 3));
    Newcomer(p4);
    assert es4 + [Add("a", 3)] == [Add("a", 0), Add("b", 1), Add("a", 2), Close(1), Add("a", 3)];
    ServedThree(Given("a", 0, 0), Given("b", 1, 1), Given("a", 3, 2));
  }

  lemma Closes(p: Pool, p': Pool)
    requires p.sockets == map["a" := [0], "b" := [1]] && p.freeSockets == map[] && p.origins == ["a", "b"] && p.total == 2
    requires p.requests == map["a" := [2]] && p.order == ["a"]
    requires p' == p.(sockets := map["a" := [0]], total := 1)
    ensures OnClose(p, 1) == p'
  {
    assert "a" != "b";
    assert Without([1], 1) == [];
    assert p.sockets - {"b"} == map["a" := [0]];
    assert Used(p', "a") == [0] && Queue(p', "b") == [] && NextOrigin(p', "b") == None;
    assert Dropped(p, 1, "b") == p';
  }

  lemma Newcomer(p: Pool)
    requires p.sockets == map["a" := [0]] && p.freeSockets == map[] && p.total == 1 && |p.origins| == 2
    requires p.requests == map["a" := [2]] && p.given == [Given("a", 0, 0), Given("b", 1, 1)]
    ensures var p' := OnAdd(TWO_TOTAL, p, "a", 3);
            p'.given == [Given("a", 0, 0), Given("b", 1, 1), Given("a", 3, 2)] && Queue(p', "a") == [2]
  {
    assert p.freeSockets - {"a"} == map[];
  }

  lemma ServedThree(a: Given, b: Given, c: Given)
    requires a.name == "a" && b.name == "b" && c.name == "a"
    ensures Served([a, b, c], "a") == [a.req, c.req]
  {
    hide Served;
    var one, two: seq<Given> := [a], [a, b];
    NobodyServed("a");
    ServedAppend([], a, "a");
    assert [] + [a] == one && [] + [a.req] == [a.req];
    ServedAppend(one, b, "a");
    assert one + [b] == two && [a.req] + [] == [a.req];
    ServedAppend(two, c, "a");
    assert two + [c] == [a, b, c] && [a.req] + [c.req] == [a.req, c.req];
  }

  lemma NobodyServed(n: Name)
    ensures Served([], n) == []
  {
  }
}
