/** Duplicate-free sequences used as recency orders: oldest first, newest last. */
module Recency {
  ghost predicate Distinct<K>(s: seq<K>) {
    s == [] || (s[0] !in s[1..] && Distinct(s[1..]))
  }

  /** `x` stands before `y`. */
  ghost predicate Before<K>(s: seq<K>, x: K, y: K) {
    s != [] && ((s[0] == x && y in s[1..]) || Before(s[1..], x, y))
  }

  /** `s` without its first occurrence of `k`. */
  function Without<K(==)>(s: seq<K>, k: K): seq<K> {
    if s == [] then [] else if s[0] == k then s[1..] else [s[0]] + Without(s[1..], k)
  }

  lemma {:induction false} WithoutElements<K>(s: seq<K>, k: K)
    requires Distinct(s)
    ensures var t := Without(s, k);
      && Distinct(t) && |t| == (if k in s then |s| - 1 else |s|)
      && forall x :: x in t <==> x in s && x != k
  {
    if s != [] && s[0] != k {
      WithoutElements(s[1..], k);
      var t := Without(s[1..], k);
      assert ([s[0]] + t)[1..] == t;
    }
  }

  lemma {:induction false} WithoutOrder<K>(s: seq<K>, k: K, x: K, y: K)
    requires Distinct(s) && Before(Without(s, k), x, y)
    ensures Before(s, x, y)
  {
    if s != [] && s[0] != k {
      WithoutElements(s[1..], k);
      var t := Without(s[1..], k);
      assert ([s[0]] + t)[1..] == t;
      if Before(t, x, y) {
        WithoutOrder(s[1..], k, x, y);
      }
    }
  }

  lemma {:induction false} AppendOrder<K>(s: seq<K>, k: K)
    requires Distinct(s) && k !in s
    ensures Distinct(s + [k])
    ensures forall x, y :: Before(s + [k], x, y) ==> Before(s, x, y) || (x in s && y == k)
  {
    if s == [] {
      assert forall x, y :: !Before([k][1..], x, y);
    } else {
      AppendOrder(s[1..], k);
      assert (s + [k])[1..] == s[1..] + [k];
    }
  }

  lemma {:induction false} DistinctSize<K>(s: seq<K>, others: set<K>)
    requires Distinct(s) && forall x :: x in s ==> x in others
    ensures |s| <= |others|
  {
    if s != [] {
      DistinctSize(s[1..], others - {s[0]});
    }
  }

  function MoveToEnd<K(==)>(s: seq<K>, k: K): seq<K> {
    Without(s, k) + [k]
  }

  lemma {:induction false} BeforeElements<K>(s: seq<K>, x: K, y: K)
    requires Before(s, x, y)
    ensures x in s && y in s
  {
    if !(s[0] == x && y in s[1..]) {
      BeforeElements(s[1..], x, y);
    }
  }

  lemma MoveToEndFacts<K(!new)>(s: seq<K>, k: K)
    requires Distinct(s)
    ensures var t := MoveToEnd(s, k);
      && Distinct(t) && k in t && t[|t| - 1] == k && (forall x :: x in s ==> x in t)
      && |t| == (if k in s then |s| else |s| + 1)
      && (forall x, y :: Before(t, x, y) ==> (Before(s, x, y) && x != k) || (y == k && x != k))
  {
    WithoutElements(s, k);
    AppendOrder(Without(s, k), k);
    forall x, y | Before(MoveToEnd(s, k), x, y)
      ensures (Before(s, x, y) && x != k) || (y == k && x != k)
    {
      if Before(Without(s, k), x, y) {
        WithoutOrder(s, k, x, y);
        BeforeElements(Without(s, k), x, y);
      }
    }
  }

  lemma WithoutFacts<K(!new)>(s: seq<K>, k: K)
    requires Distinct(s)
    ensures var t := Without(s, k);
      && Distinct(t) && |t| <= |s| && (forall x :: x in t <==> x in s && x != k)
      && (forall x, y :: Before(t, x, y) ==> Before(s, x, y))
  {
    WithoutElements(s, k);
    forall x, y | Before(Without(s, k), x, y) ensures Before(s, x, y) {
      WithoutOrder(s, k, x, y);
    }
  }

  lemma SubsetSize<K>(a: set<K>, b: set<K>)
    requires a <= b
    ensures |a| <= |b|
  {
    if a != {} {
      var x :| x in a;
      SubsetSize(a - {x}, b - {x});
    }
  }

  lemma {:induction false} AbsentWithout<K>(s: seq<K>, k: K)
    requires k !in s
    ensures Without(s, k) == s
  {
    if s != [] {
      AbsentWithout(s[1..], k);
    }
  }

  lemma {:induction false} DomainSize<K>(s: seq<K>, keys: set<K>)
    requires Distinct(s) && forall k :: k in s <==> k in keys
    ensures |s| == |keys|
  {
    if s == [] {
      assert keys == {};
    } else {
      DomainSize(s[1..], keys - {s[0]});
    }
  }
}
