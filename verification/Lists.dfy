/** Lists without repetitions, and taking an element out. */
module Lists {
  function Without<T(==)>(list: seq<T>, x: T): seq<T> {
    if list == [] then [] else if list[0] == x then list[1..] else [list[0]] + Without(list[1..], x)
  }

  ghost predicate NoDup<T>(list: seq<T>) {
    forall i, j :: 0 <= i < j < |list| ==> list[i] != list[j]
  }

  lemma {:induction false} WithoutFacts<T(!new)>(list: seq<T>, x: T)
    requires NoDup(list)
    ensures NoDup(Without(list, x)) && x !in Without(list, x)
    ensures forall y :: y in Without(list, x) <==> y in list && y != x
    ensures |Without(list, x)| == |list| - if x in list then 1 else 0
  {
    if list != [] && list[0] != x {
      WithoutFacts(list[1..], x);
      assert list == [list[0]] + list[1..];
      assert list[0] !in list[1..];
    }
  }

  lemma {:induction false} WithoutAbsent<T(!new)>(list: seq<T>, x: T)
    requires x !in list
    ensures Without(list, x) == list
  {
    if list != [] {
      WithoutAbsent(list[1..], x);
    }
  }

  lemma NoDupAppend<T(!new)>(list: seq<T>, x: T)
    requires NoDup(list) && x !in list
    ensures NoDup(list + [x])
  {
  }

  lemma NoDupParts<T(!new)>(a: seq<T>, b: seq<T>)
    requires NoDup(a + b)
    ensures NoDup(a) && NoDup(b) && forall x :: x in a ==> x !in b
  {
    assert forall i :: 0 <= i < |a| ==> (a + b)[i] == a[i];
    assert forall j :: 0 <= j < |b| ==> (a + b)[|a| + j] == b[j];
    forall x | x in a ensures x !in b {
      var i :| 0 <= i < |a| && a[i] == x;
      assert (a + b)[i] == x;
    }
  }

  lemma InParts<T(!new)>(a: seq<T>, b: seq<T>, x: T)
    ensures x in a + b <==> x in a || x in b
  {
  }

  lemma NoDupJoin<T(!new)>(a: seq<T>, b: seq<T>)
    requires NoDup(a) && NoDup(b) && forall x :: x in a ==> x !in b
    ensures NoDup(a + b)
  {
    forall i, j | 0 <= i < j < |a + b| ensures (a + b)[i] != (a + b)[j] {
      if i < |a| <= j {
        assert a[i] in a && b[j - |a|] in b;
      }
    }
  }

  lemma {:induction false} WithoutParts<T(!new)>(a: seq<T>, b: seq<T>, x: T)
    requires NoDup(a + b)
    ensures NoDup(Without(a, x) + Without(b, x))
    ensures |Without(a, x)| <= |a| && |Without(b, x)| <= |b| && (x in a ==> |Without(a, x)| < |a|)
    ensures forall y :: y in Without(a, x) + Without(b, x) ==> y in a + b
  {
    hide NoDup;
    var a', b' := Without(a, x), Without(b, x);
    NoDupParts(a, b);
    WithoutFacts(a, x);
    WithoutFacts(b, x);
    assert forall y :: y in a' ==> y in a;
    assert forall y :: y in b' ==> y in b;
    forall y | y in a' + b' ensures y in a + b {
      InParts(a', b', y);
      InParts(a, b, y);
    }
    NoDupJoin(a', b');
  }

  lemma MoveParts<T(!new)>(a: seq<T>, b: seq<T>, x: T)
    requires NoDup(a + b) && x in a
    ensures NoDup(Without(a, x) + (b + [x])) && |Without(a, x)| == |a| - 1
    ensures forall y :: y in Without(a, x) + (b + [x]) <==> y in a + b
  {
    NoDupParts(a, b);
    WithoutFacts(a, x);
    NoDupAppend(b, x);
    NoDupJoin(Without(a, x), b + [x]);
  }
}
