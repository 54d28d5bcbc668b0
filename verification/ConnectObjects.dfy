/** The loops of `lookupAndConnectMultiple` and the context of a connect to several addresses, in lib/net.js. */
module ConnectObjects {
  import opened Connect

  /** `validIps.includes(ip)`. */
  method Includes(list: seq<Address>, ip: string) returns (r: bool)
    ensures r == Has(list, ip)
  {
    var i := 0;
    while i < |list|
      invariant 0 <= i <= |list| && forall j :: 0 <= j < i ==> list[j].ip != ip
    {
      if list[i].ip == ip {
        return true;
      }
      i := i + 1;
    }
    return false;
  }

  /** The first usable address is of this family. */
  ghost predicate ComesFirst(addresses: seq<Address>, family: int) {
    exists k :: 0 <= k < |addresses| && FirstUsable(addresses, k) && addresses[k].family == family
  }

  ghost predicate FirstUsable(addresses: seq<Address>, k: nat)
    requires k < |addresses|
  {
    Usable(addresses[k]) && forall j :: 0 <= j < k ==> !Usable(addresses[j])
  }

  /** The usable addresses by family: that of the first usable one, and the other. */
  method SortOut(addresses: seq<Address>) returns (own: int, valid: (seq<Address>, seq<Address>))
    ensures valid == (Firsts(addresses, own), Firsts(addresses, OtherFamily(own))) && (own == 4 || own == 6)
    ensures (exists k :: 0 <= k < |addresses| && Usable(addresses[k])) ==> ComesFirst(addresses, own)
  {
    own, valid := 4, ([], []);
    ghost var none := true;
    var i := 0;
    assert addresses[..0] == [];
    while i < |addresses|
      invariant 0 <= i <= |addresses| && (own == 4 || own == 6)
      invariant none ==> forall j :: 0 <= j < i ==> !Usable(addresses[j])
      invariant valid == (Firsts(addresses[..i], own), Firsts(addresses[..i], OtherFamily(own)))
      invariant none <==> valid.0 == []
      invariant none ==> own == 4 && valid == ([], [])
      invariant !none ==> ComesFirst(addresses, own)
    {
      var a := addresses[i];
      assert addresses[..i + 1][..i] == addresses[..i] && addresses[..i + 1][i] == a;
      if Usable(a) {
        if |valid.0| == 0 {
          NoneUsable(addresses[..i], 4);
          NoneUsable(addresses[..i], 6);
          own := a.family;
        }
        if a.family == own {
          var known := Includes(valid.0, a.ip);
          if !known {
            valid := (valid.0 + [a], valid.1);
          }
        } else {
          var known := Includes(valid.1, a.ip);
          if !known {
            valid := (valid.0, valid.1 + [a]);
          }
        }
        none := false;
      }
      i := i + 1;
    }
    assert addresses[..i] == addresses;
  }

  lemma {:induction false} NoneUsable(addresses: seq<Address>, family: int)
    requires forall i :: 0 <= i < |addresses| ==> !Usable(addresses[i])
    ensures Firsts(addresses, family) == []
  {
    if addresses != [] {
      NoneUsable(addresses[..|addresses| - 1], family);
    }
  }

  /** The loop that takes one address of each list in turn. */
  method Alternate(a: seq<Address>, b: seq<Address>) returns (toAttempt: seq<Address>)
    ensures toAttempt == Weave(a, b)
  {
    hide Weave, Front, Rest;
    toAttempt := [];
    var l := if |a| > |b| then |a| else |b|;
    var i := 0;
    WeaveStart(a, b);
    while i < l
      invariant 0 <= i <= l
      invariant toAttempt + Weave(From(a, i), From(b, i)) == Weave(a, b)
    {
      ghost var before := toAttempt;
      FromStep(a, i);
      FromStep(b, i);
      if i < |a| {
        toAttempt := toAttempt + [a[i]];
      }
      if i < |b| {
        toAttempt := toAttempt + [b[i]];
      }
      WeaveStep(From(a, i), From(b, i));
      Regroup(before, From(a, i), From(b, i));
      i := i + 1;
    }
    WeaveEnd(a, b, i);
    assert toAttempt + [] == toAttempt;
  }

  function From<T>(list: seq<T>, i: nat): seq<T> { if i < |list| then list[i..] else [] }

  lemma FromStep(list: seq<Address>, i: nat)
    ensures Rest(From(list, i)) == From(list, i + 1)
    ensures Front(From(list, i)) == if i < |list| then [list[i]] else []
    ensures forall before: seq<Address> :: before + [] == before
  {
  }

  lemma WeaveStart(a: seq<Address>, b: seq<Address>)
    ensures [] + Weave(From(a, 0), From(b, 0)) == Weave(a, b)
  {
    assert From(a, 0) == a && From(b, 0) == b;
  }

  lemma WeaveEnd(a: seq<Address>, b: seq<Address>, i: nat)
    requires i >= |a| && i >= |b|
    ensures Weave(From(a, i), From(b, i)) == []
  {
  }

  function Front<T>(list: seq<T>): seq<T> { if list == [] then [] else [list[0]] }

  function Rest<T>(list: seq<T>): seq<T> { if list == [] then [] else list[1..] }

  lemma WeaveStep(a: seq<Address>, b: seq<Address>)
    ensures Weave(a, b) == Front(a) + Front(b) + Weave(Rest(a), Rest(b))
  {
    if a != [] && b != [] {
      assert [a[0]] + [b[0]] == [a[0], b[0]];
    } else if a != [] {
      assert [a[0]] + [] + a[1..] == a;
    } else if b != [] {
      assert [] + [b[0]] + b[1..] == b;
    }
  }

  lemma Regroup(before: seq<Address>, a: seq<Address>, b: seq<Address>)
    ensures before + Front(a) + Front(b) + Weave(Rest(a), Rest(b)) ==
            before + (Front(a) + Front(b) + Weave(Rest(a), Rest(b)))
    ensures before + [] == before
  {
  }

  /** The context of one connect, with what the socket has come to. */
  class Context {
    /** Which attempts get under way, and which fail at once. */
    const starts: seq<bool>
    var current: nat
    var errors: seq<nat>
    var timer: bool
    var outcome: Outcome
    ghost var closed: set<nat>

    ghost function Value(): Progress
      reads this
    {
      Progress(current, errors, closed, timer, outcome)
    }

    constructor (starts: seq<bool>)
      ensures this.starts == starts && Value() == Progress(0, [], {}, false, Connecting)
    {
      this.starts := starts;
      current, errors, timer, outcome, closed := 0, [], false, Connecting, {};
    }

    /** `internalConnectMultiple`, which calls itself after an attempt that fails at once. */
    method InternalConnectMultiple(canceled: bool)
      requires current <= |starts|
      modifies this
      ensures Value() == Attempt(old(Value()), starts, canceled)
      decreases |starts| - current
    {
      timer := false;
      if canceled || current == |starts| {
        if |errors| == 0 {
          outcome := Unanswered;
        } else {
          outcome := Failed(errors);
        }
        return;
      }
      var attempt := current;
      current := current + 1;
      if attempt > 0 {
        closed := closed + {attempt - 1};
      }
      if !starts[attempt] {
        errors := errors + [attempt];
        InternalConnectMultiple(false);
        return;
      }
      if attempt < |starts| - 1 {
        timer := true;
      }
    }

    /** `afterConnectMultiple` for the attempt under way. */
    method AfterConnectMultiple(attempt: nat, ok: bool, canceled: bool)
      requires Enabled(Value(), Completes(ok, canceled)) && current <= |starts| && attempt == current - 1
      modifies this
      ensures Value() == Step(old(Value()), starts, Completes(ok, canceled))
    {
      timer := false;
      if !ok {
        errors := errors + [attempt];
        InternalConnectMultiple(canceled);
        return;
      }
      outcome := Connected(attempt);
    }

    /** `internalConnectMultipleTimeout`: the handle is closed, and its completion is not waited for. */
    method InternalConnectMultipleTimeout(attempt: nat)
      requires Enabled(Value(), TimesOut) && current <= |starts| && attempt == current - 1
      modifies this
      ensures Value() == Step(old(Value()), starts, TimesOut)
    {
      errors := errors + [attempt];
      closed := closed + {attempt};
      InternalConnectMultiple(false);
    }
  }
}
