/** Sorting as `sort.Slice` and `sort.Strings` do it, for any total order. */
module Sorting {
  import Collections

  ghost predicate IsTotal<T(!new)>(leq: (T, T) -> bool) {
    forall a, b :: leq(a, b) || leq(b, a)
  }

  ghost predicate IsTransitive<T(!new)>(leq: (T, T) -> bool) {
    forall a, b, c :: leq(a, b) && leq(b, c) ==> leq(a, c)
  }

  predicate InOrder<T>(leq: (T, T) -> bool, s: seq<T>) {
    forall i | 0 <= i < |s| - 1 :: leq(s[i], s[i + 1])
  }

  /** The same elements, each before the next. */
  function Sorted<T(!new)>(leq: (T, T) -> bool, s: seq<T>): (t: seq<T>)
    requires IsTotal(leq)
    ensures InOrder(leq, t) && |t| == |s|
    ensures forall x :: x in t <==> x in s
  {
    if s == [] then [] else Inserted(leq, s[0], Sorted(leq, s[1..]))
  }

  function Inserted<T(!new)>(leq: (T, T) -> bool, x: T, s: seq<T>): (t: seq<T>)
    requires IsTotal(leq) && InOrder(leq, s)
    ensures InOrder(leq, t) && |t| == |s| + 1
    ensures forall y :: y in t <==> y == x || y in s
    ensures t[0] == x || (s != [] && t[0] == s[0])
  {
    if s == [] || leq(x, s[0]) then [x] + s else [s[0]] + Inserted(leq, x, s[1..])
  }

  lemma {:induction false} InsertedAdds<T(!new)>(leq: (T, T) -> bool, x: T, s: seq<T>)
    requires IsTotal(leq) && InOrder(leq, s)
    ensures multiset(Inserted(leq, x, s)) == multiset(s) + multiset{x}
  {
    if s != [] && !leq(x, s[0]) {
      InsertedAdds(leq, x, s[1..]);
      assert s == [s[0]] + s[1..];
    }
  }

  /** No element is lost or doubled. */
  lemma {:induction false} SortedKeepsElements<T(!new)>(leq: (T, T) -> bool, s: seq<T>)
    requires IsTotal(leq)
    ensures multiset(Sorted(leq, s)) == multiset(s)
  {
    if s != [] {
      SortedKeepsElements(leq, s[1..]);
      InsertedAdds(leq, s[0], Sorted(leq, s[1..]));
      assert s == [s[0]] + s[1..];
    }
  }

  lemma {:induction false} InOrderAllPairs<T(!new)>(leq: (T, T) -> bool, s: seq<T>, i: nat, j: nat)
    requires IsTransitive(leq) && InOrder(leq, s) && i < j < |s|
    ensures leq(s[i], s[j])
    decreases j
  {
    if i < j - 1 {
      InOrderAllPairs(leq, s, i, j - 1);
    }
  }

  lemma InOrderParts<T>(leq: (T, T) -> bool, a: seq<T>, b: seq<T>)
    requires InOrder(leq, a + b)
    ensures InOrder(leq, a) && InOrder(leq, b)
    ensures a != [] ==> InOrder(leq, a[1..] + b)
  {
    var s := a + b;
    forall i | 0 <= i < |a| - 1 ensures leq(a[i], a[i + 1]) {
      assert s[i] == a[i] && s[i + 1] == a[i + 1];
    }
    forall i | 0 <= i < |b| - 1 ensures leq(b[i], b[i + 1]) {
      assert s[|a| + i] == b[i] && s[|a| + i + 1] == b[i + 1];
    }
    if a != [] {
      var t := a[1..] + b;
      forall i | 0 <= i < |t| - 1 ensures leq(t[i], t[i + 1]) {
        assert t[i] == s[i + 1] && t[i + 1] == s[i + 2];
      }
    }
  }

  lemma {:induction false} InsertedBefore<T(!new)>(leq: (T, T) -> bool, x: T, a: seq<T>, b: seq<T>)
    requires IsTotal(leq) && InOrder(leq, a) && InOrder(leq, a + b)
    requires forall y | y in b :: leq(x, y)
    ensures Inserted(leq, x, a + b) == Inserted(leq, x, a) + b
  {
    if a == [] {
      assert a + b == b;
    } else {
      InOrderParts(leq, a, b);
      InOrderParts(leq, [a[0]], a[1..]) by {
        assert [a[0]] + a[1..] == a;
      }
      InsertedBefore(leq, x, a[1..], b);
      InsertedIntoConcat(leq, x, a, b);
    }
  }

  lemma InsertedIntoConcat<T(!new)>(leq: (T, T) -> bool, x: T, a: seq<T>, b: seq<T>)
    requires IsTotal(leq) && a != [] && InOrder(leq, a) && InOrder(leq, a + b)
    requires InOrder(leq, a[1..]) && InOrder(leq, a[1..] + b)
    requires Inserted(leq, x, a[1..] + b) == Inserted(leq, x, a[1..]) + b
    ensures Inserted(leq, x, a + b) == Inserted(leq, x, a) + b
  {
    assert (a + b)[0] == a[0] && (a + b)[1..] == a[1..] + b;
    if leq(x, a[0]) {
      Collections.ConcatAssociates([x], a, b);
    } else {
      Collections.ConcatAssociates([a[0]], Inserted(leq, x, a[1..]), b);
    }
  }

  /** When nothing on the right belongs before anything on the left, the two sides are sorted apart. */
  lemma {:induction false} SortedConcat<T(!new)>(leq: (T, T) -> bool, a: seq<T>, b: seq<T>)
    requires IsTotal(leq) && forall x, y | x in a && y in b :: leq(x, y)
    ensures Sorted(leq, a + b) == Sorted(leq, a) + Sorted(leq, b)
  {
    if a == [] {
      assert a + b == b;
    } else {
      assert (a + b)[1..] == a[1..] + b;
      SortedConcat(leq, a[1..], b);
      InsertedBefore(leq, a[0], Sorted(leq, a[1..]), Sorted(leq, b));
    }
  }
}
