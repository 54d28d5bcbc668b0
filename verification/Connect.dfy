/**
 * Connecting to one of several addresses in lib/net.js: the order in which they
 * are tried, and the attempts one after the other. Nobody aborts the socket or
 * destroys it meanwhile, and listeners do not either.
 */
module Connect {

  /** An answer of the lookup: the text, its family, and whether `isIP` takes it. */
  datatype Address = Address(ip: string, family: int, isIp: bool)

  predicate Usable(a: Address) { a.isIp && (a.family == 4 || a.family == 6) }

  predicate Has(list: seq<Address>, ip: string) {
    exists i :: 0 <= i < |list| && list[i].ip == ip
  }

  /** The usable addresses of a family in the order they came, each text once. */
  function Firsts(addresses: seq<Address>, family: int): seq<Address> {
    if addresses == [] then []
    else
      var before, last := Firsts(addresses[..|addresses| - 1], family), addresses[|addresses| - 1];
      if Usable(last) && last.family == family && !Has(before, last.ip) then before + [last] else before
  }

  function OtherFamily(family: int): int { if family == 6 then 4 else 6 }

  /** One from each list in turn, and what the longer one has left. */
  function Weave<T>(a: seq<T>, b: seq<T>): seq<T>
    decreases |a| + |b|
  {
    if a == [] then b else if b == [] then a else [a[0], b[0]] + Weave(a[1..], b[1..])
  }

  function OfFamily(list: seq<Address>, family: int): seq<Address> {
    if list == [] then []
    else
      var before, last := OfFamily(list[..|list| - 1], family), list[|list| - 1];
      if last.family == family then before + [last] else before
  }

  // ------------------------------------------------------------------- the order

  ghost predicate AllOf(list: seq<Address>, family: int) {
    forall i :: 0 <= i < |list| ==> list[i].family == family
  }

  ghost predicate DifferentTexts(list: seq<Address>) {
    forall i, j :: 0 <= i < j < |list| ==> list[i].ip != list[j].ip
  }

  lemma {:induction false} FirstsFacts(addresses: seq<Address>, family: int)
    ensures AllOf(Firsts(addresses, family), family) && DifferentTexts(Firsts(addresses, family))
    ensures forall i :: 0 <= i < |Firsts(addresses, family)| ==> Usable(Firsts(addresses, family)[i])
    ensures forall i :: 0 <= i < |addresses| && Usable(addresses[i]) && addresses[i].family == family ==>
              Has(Firsts(addresses, family), addresses[i].ip)
  {
    if addresses != [] {
      var init, last := addresses[..|addresses| - 1], addresses[|addresses| - 1];
      FirstsFacts(init, family);
      var before, all := Firsts(init, family), Firsts(addresses, family);
      forall i | 0 <= i < |addresses| && Usable(addresses[i]) && addresses[i].family == family
        ensures Has(all, addresses[i].ip)
      {
        if i < |init| {
          assert init[i] == addresses[i];
          var k :| 0 <= k < |before| && before[k].ip == addresses[i].ip;
          assert all[k] == before[k];
        } else if !Has(before, last.ip) {
          assert all[|before|] == last;
        }
      }
    }
  }

  /** The answer at `k` is an address of the family, and the first with its text. */
  predicate FirstAt(addresses: seq<Address>, family: int, k: nat) {
    && (family == 4 || family == 6)
    && k < |addresses| && addresses[k].isIp && addresses[k].family == family
    && forall j :: 0 <= j < k ==>
         !(addresses[j].isIp && addresses[j].family == family && addresses[j].ip == addresses[k].ip)
  }

  /** The places of those answers. */
  function Places(addresses: seq<Address>, family: int): seq<nat> {
    if addresses == [] then []
    else
      var k := |addresses| - 1;
      Places(addresses[..k], family) + (if FirstAt(addresses, family, k) then [k] else [])
  }

  lemma FirstAtPrefix(addresses: seq<Address>, family: int, k: nat)
    requires addresses != [] && k < |addresses| - 1
    ensures FirstAt(addresses, family, k) <==> FirstAt(addresses[..|addresses| - 1], family, k)
  {
    var before := addresses[..|addresses| - 1];
    assert forall j :: 0 <= j < |before| ==> before[j] == addresses[j];
  }

  /** These are all of them, from left to right. */
  lemma {:induction false} PlacesAre(addresses: seq<Address>, family: int)
    ensures var places := Places(addresses, family);
            && (forall i :: 0 <= i < |places| ==> places[i] < |addresses|)
            && (forall i, j :: 0 <= i < j < |places| ==> places[i] < places[j])
            && (forall k: nat :: k in places <==> FirstAt(addresses, family, k))
    decreases |addresses|
  {
    hide FirstAt;
    if addresses == [] {
      NowhereFirst(addresses, family);
    } else {
      var before, last := addresses[..|addresses| - 1], |addresses| - 1;
      PlacesAre(before, family);
      forall k: nat ensures k in Places(addresses, family) <==> FirstAt(addresses, family, k) {
        if k < last { FirstAtPrefix(addresses, family, k); }
        Within(addresses, family, k);
        Within(before, family, k);
      }
    }
  }

  /** The list is the answers at these places, from left to right: every first usable one of the family, and nothing else. */
  lemma {:induction false} FirstsInOrder(addresses: seq<Address>, family: int)
    ensures var list, places := Firsts(addresses, family), Places(addresses, family);
            && |list| == |places|
            && (forall i :: 0 <= i < |list| ==> places[i] < |addresses| && list[i] == addresses[places[i]])
            && (forall i, j :: 0 <= i < j < |places| ==> places[i] < places[j])
            && (forall k: nat :: k in places <==> FirstAt(addresses, family, k))
    decreases |addresses|
  {
    hide FirstAt, Firsts;
    PlacesAre(addresses, family);
    if addresses == [] {
      NothingFirst(family);
    } else {
      var before := addresses[..|addresses| - 1];
      FirstsInOrder(before, family);
      LastFirst(addresses, family);
    }
  }

  lemma NothingFirst(family: int)
    ensures Firsts([], family) == []
  {
  }

  lemma Within(addresses: seq<Address>, family: int, k: nat)
    ensures FirstAt(addresses, family, k) ==> k < |addresses|
  {
  }

  lemma NowhereFirst(addresses: seq<Address>, family: int)
    requires addresses == []
    ensures forall k: nat :: !FirstAt(addresses, family, k)
  {
  }

  lemma LastFirst(addresses: seq<Address>, family: int)
    requires addresses != []
    ensures var k := |addresses| - 1; var list := Firsts(addresses[..k], family);
            Firsts(addresses, family) == list + (if FirstAt(addresses, family, k) then [addresses[k]] else [])
  {
    var k := |addresses| - 1;
    var before := addresses[..k];
    var list := Firsts(before, family);
    FirstsFacts(before, family);
    FirstsAmong(before, family);
    assert forall j :: 0 <= j < k ==> before[j] == addresses[j];
    assert list + [] == list;
  }

  lemma {:induction false} FirstsAmong(addresses: seq<Address>, family: int)
    ensures forall i :: 0 <= i < |Firsts(addresses, family)| ==> Firsts(addresses, family)[i] in addresses
    decreases |addresses|
  {
    if addresses != [] {
      FirstsAmong(addresses[..|addresses| - 1], family);
      assert addresses[..|addresses| - 1] + [addresses[|addresses| - 1]] == addresses;
    }
  }

  lemma {:induction false} OfFamilyAppend(a: seq<Address>, b: seq<Address>, family: int)
    ensures OfFamily(a + b, family) == OfFamily(a, family) + OfFamily(b, family)
    decreases |b|
  {
    if b == [] {
      assert a + b == a;
    } else {
      assert (a + b)[..|a + b| - 1] == a + b[..|b| - 1];
      OfFamilyAppend(a, b[..|b| - 1], family);
    }
  }

  lemma {:induction false} OfOneFamily(list: seq<Address>, own: int, family: int)
    requires AllOf(list, own)
    ensures OfFamily(list, family) == if own == family then list else []
  {
    if list != [] {
      OfOneFamily(list[..|list| - 1], own, family);
      assert list[..|list| - 1] + [list[|list| - 1]] == list;
    }
  }

  /** Each family keeps its order and loses none of its addresses. */
  lemma {:induction false} WeaveKeeps(a: seq<Address>, b: seq<Address>, f: int, g: int)
    requires AllOf(a, f) && AllOf(b, g) && f != g
    ensures OfFamily(Weave(a, b), f) == a && OfFamily(Weave(a, b), g) == b
    decreases |a|
  {
    if a == [] || b == [] {
      OfOneFamily(a, f, f);
      OfOneFamily(a, f, g);
      OfOneFamily(b, g, f);
      OfOneFamily(b, g, g);
    } else {
      WeaveKeeps(a[1..], b[1..], f, g);
      Pair(a[0], b[0], f);
      Pair(a[0], b[0], g);
      OfFamilyAppend([a[0], b[0]], Weave(a[1..], b[1..]), f);
      OfFamilyAppend([a[0], b[0]], Weave(a[1..], b[1..]), g);
      assert [a[0]] + a[1..] == a && [b[0]] + b[1..] == b;
    }
  }

  lemma Pair(x: Address, y: Address, family: int)
    ensures OfFamily([x, y], family) == (if x.family == family then [x] else []) + (if y.family == family then [y] else [])
  {
    assert [x] + [y] == [x, y];
    OfFamilyAppend([x], [y], family);
    OfOneFamily([x], x.family, family);
    OfOneFamily([y], y.family, family);
  }

  /** The families alternate until one of them is used up. */
  lemma {:induction false} WeaveAlternates<T>(a: seq<T>, b: seq<T>, i: nat)
    ensures |Weave(a, b)| == |a| + |b|
    ensures i < |a| ==> Weave(a, b)[if i <= |b| then 2 * i else i + |b|] == a[i]
    ensures i < |b| ==> Weave(a, b)[if i < |a| then 2 * i + 1 else i + |a|] == b[i]
    decreases |a|
  {
    if a != [] && b != [] {
      var rest := Weave(a[1..], b[1..]);
      WeaveAlternates(a[1..], b[1..], if i == 0 then 0 else i - 1);
      assert Weave(a, b) == [a[0], b[0]] + rest;
      if i > 0 && i < |a| {
        var k := if i <= |b| then 2 * i else i + |b|;
        assert Weave(a, b)[k] == rest[k - 2] == a[1..][i - 1];
      }
      if i > 0 && i < |b| {
        var k := if i < |a| then 2 * i + 1 else i + |a|;
        assert Weave(a, b)[k] == rest[k - 2] == b[1..][i - 1];
      }
    }
  }

  // ---------------------------------------------------------------- the attempts

  /** `Failed` carries the errors of the aggregate error; `Unanswered` is the plain timeout error. */
  datatype Outcome = Connecting | Connected(attempt: nat) | Failed(errors: seq<nat>) | Unanswered

  /**
   * `current` counts the addresses taken so far, `errors` names the address of
   * each error in order, `closed` the attempts whose handles are closed.
   */
  datatype Progress = Progress(current: nat, errors: seq<nat>, closed: set<nat>, timer: bool, outcome: Outcome)

  /** The attempt under way completes, or takes too long; a failure may be a cancellation. */
  datatype Event = Completes(ok: bool, canceled: bool) | TimesOut

  /** `internalConnectMultiple`; `starts[i]` says that attempt `i` does not fail at once. */
  function Attempt(p: Progress, starts: seq<bool>, canceled: bool): Progress
    requires p.current <= |starts|
    decreases |starts| - p.current
  {
    if canceled || p.current == |starts| then
      p.(timer := false, outcome := if p.errors == [] then Unanswered else Failed(p.errors))
    else
      var i := p.current;
      var p1 := p.(current := i + 1, closed := if i > 0 then p.closed + {i - 1} else p.closed, timer := false);
      if starts[i] then p1.(timer := i + 1 < |starts|)
      else Attempt(p1.(errors := p.errors + [i]), starts, false)
  }

  predicate Enabled(p: Progress, e: Event) {
    p.outcome == Connecting && p.current > 0 && (e.TimesOut? ==> p.timer)
  }

  function Step(p: Progress, starts: seq<bool>, e: Event): Progress
    requires Enabled(p, e) && p.current <= |starts|
  {
    var i := p.current - 1;
    match e
    case Completes(ok, canceled) =>
      if ok then p.(timer := false, outcome := Connected(i))
      else Attempt(p.(timer := false, errors := p.errors + [i]), starts, canceled)
    case TimesOut => Attempt(p.(errors := p.errors + [i], closed := p.closed + {i}), starts, false)
  }

  function Begin(starts: seq<bool>): Progress {
    Attempt(Progress(0, [], {}, false, Connecting), starts, false)
  }

  function UpTo(n: nat): (r: seq<nat>)
    ensures |r| == n && forall i :: 0 <= i < n ==> r[i] == i
  {
    if n == 0 then [] else UpTo(n - 1) + [n - 1]
  }

  /** One error for each address tried before, in order, and only the latest handle open. */
  ghost predicate InOrder(p: Progress, starts: seq<bool>) {
    && p.current <= |starts| && (forall i :: 0 <= i < p.current - 1 ==> i in p.closed)
    && match p.outcome
       case Connecting => p.current > 0 && p.errors == UpTo(p.current - 1) && p.timer == (p.current < |starts|)
         && starts[p.current - 1] && p.current - 1 !in p.closed && (forall i :: i in p.closed ==> i < p.current)
       case Connected(i) => i == p.current - 1 && p.errors == UpTo(i) && i !in p.closed
       case Failed(errors) => errors == p.errors == UpTo(p.current) && p.current > 0
       case Unanswered => p.errors == [] && |starts| == 0
  }

  lemma {:induction false} AttemptInOrder(p: Progress, starts: seq<bool>, canceled: bool)
    requires p.current <= |starts| && p.outcome == Connecting && p.errors == UpTo(p.current) && (canceled ==> p.current > 0)
    requires (forall i :: 0 <= i < p.current - 1 ==> i in p.closed) && (forall i :: i in p.closed ==> i < p.current)
    ensures InOrder(Attempt(p, starts, canceled), starts)
    ensures !canceled && p.current < |starts| ==> Attempt(p, starts, canceled).current > p.current
    ensures Attempt(p, starts, canceled).outcome.Failed? && !canceled ==> Attempt(p, starts, canceled).current == |starts|
    decreases |starts| - p.current
  {
    if !canceled && p.current < |starts| {
      var i := p.current;
      var p1 := p.(current := i + 1, closed := if i > 0 then p.closed + {i - 1} else p.closed, timer := false);
      if !starts[i] {
        AttemptInOrder(p1.(errors := p.errors + [i]), starts, false);
      }
    }
  }

  ghost predicate Legal(starts: seq<bool>, run: seq<Event>)
    decreases |run|, 0
  {
    run == [] || (Legal(starts, run[..|run| - 1]) &&
                  After(starts, run[..|run| - 1]).current <= |starts| &&
                  Enabled(After(starts, run[..|run| - 1]), run[|run| - 1]))
  }

  ghost function After(starts: seq<bool>, run: seq<Event>): Progress
    requires Legal(starts, run)
    decreases |run|, 1
  {
    if run == [] then Begin(starts) else Step(After(starts, run[..|run| - 1]), starts, run[|run| - 1])
  }

  predicate Uncanceled(run: seq<Event>) {
    forall i :: 0 <= i < |run| ==> !(run[i].Completes? && run[i].canceled)
  }

  lemma StepInOrder(p: Progress, starts: seq<bool>, e: Event)
    requires InOrder(p, starts) && Enabled(p, e)
    ensures InOrder(Step(p, starts, e), starts)
    ensures Step(p, starts, e).outcome == Connecting ==> Step(p, starts, e).current > p.current
    ensures Step(p, starts, e).outcome.Failed? && !(e.Completes? && e.canceled) ==> Step(p, starts, e).current == |starts|
  {
    var i := p.current - 1;
    match e
    case Completes(ok, canceled) =>
      if !ok {
        AttemptInOrder(p.(timer := false, errors := p.errors + [i]), starts, canceled);
      }
    case TimesOut => AttemptInOrder(p.(errors := p.errors + [i], closed := p.closed + {i}), starts, false);
  }

  /**
   * Addresses are tried in order and at most once. A run ends after at most as
   * many events as there are addresses: in one connection, with an error for
   * each address before it, or, unless it was cancelled, in exactly one error
   * for each address.
   */
  lemma {:induction false} RunInOrder(starts: seq<bool>, run: seq<Event>)
    requires Legal(starts, run)
    ensures InOrder(After(starts, run), starts)
    ensures After(starts, run).outcome == Connecting ==> |run| < After(starts, run).current
    ensures |run| <= |starts|
    ensures After(starts, run).outcome.Failed? && Uncanceled(run) ==> After(starts, run).errors == UpTo(|starts|)
    decreases |run|
  {
    hide InOrder, Enabled, Step;
    if run == [] {
      AttemptInOrder(Progress(0, [], {}, false, Connecting), starts, false);
      OrderFacts(Begin(starts), starts);
    } else {
      var before, p := run[..|run| - 1], After(starts, run[..|run| - 1]);
      RunInOrder(starts, before);
      OrderFacts(p, starts);
      StepInOrder(p, starts, run[|run| - 1]);
      OrderFacts(Step(p, starts, run[|run| - 1]), starts);
      EnabledFacts(p, run[|run| - 1]);
    }
  }

  lemma OrderFacts(p: Progress, starts: seq<bool>)
    requires InOrder(p, starts)
    ensures p.current <= |starts| && (p.outcome.Failed? ==> p.errors == UpTo(p.current))
    ensures p.outcome == Connecting ==> p.current > 0
  {
  }

  lemma EnabledFacts(p: Progress, e: Event)
    requires Enabled(p, e)
    ensures p.outcome == Connecting
  {
  }
}
