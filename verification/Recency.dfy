/** Recency lists: distinct keys, the most recently touched one first. */
module Recency {

  ghost predicate Distinct(q: seq<nat>) {
    forall a, b | 0 <= a < b < |q| :: q[a] != q[b]
  }

  ghost predicate Rising(q: seq<nat>) {
    forall a, b | 0 <= a < b < |q| :: q[a] < q[b]
  }

  function Elements(q: seq<nat>): (s: set<nat>)
    ensures forall x :: x in s <==> x in q
  {
    set x | x in q
  }

  function IndexOf(q: seq<nat>, x: nat): (k: nat)
    requires x in q
    ensures k < |q| && q[k] == x
    ensures forall j | 0 <= j < k :: q[j] != x
  {
    if q[0] == x then 0 else 1 + IndexOf(q[1..], x)
  }

  function Without(q: seq<nat>, x: nat): seq<nat>
    requires x in q
  {
    q[..IndexOf(q, x)] + q[IndexOf(q, x) + 1..]
  }

  /** Key `x` becomes the most recent one. */
  function Touch(q: seq<nat>, x: nat): seq<nat> {
    if x in q then [x] + Without(q, x) else [x] + q
  }

  lemma {:induction false} SubsetSize(a: set<nat>, b: set<nat>)
    requires a <= b
    ensures |a| <= |b|
  {
    if a == {} {
    } else {
      var x :| x in a;
      SubsetSize(a - {x}, b - {x});
    }
  }

  /** The numbers below `n`. */
  function Upto(n: nat): (s: set<nat>)
    ensures |s| == n && forall x: nat :: x in s <==> x < n
  {
    if n == 0 then {} else Upto(n - 1) + {n - 1}
  }

  /** The members below `n`, in rising order. */
  function InOrder(members: set<nat>, n: nat): (q: seq<nat>)
    ensures forall k | 0 <= k < |q| :: q[k] in members && q[k] < n
  {
    if n == 0 then [] else InOrder(members, n - 1) + (if n - 1 in members then [n - 1] else [])
  }

  lemma {:induction false} OrderIsRising(members: set<nat>, n: nat)
    ensures Rising(InOrder(members, n))
    ensures forall x: nat :: x in InOrder(members, n) <==> x < n && x in members
  {
    if n == 0 {
    } else {
      OrderIsRising(members, n - 1);
      var q := InOrder(members, n - 1);
      forall x: nat ensures x in InOrder(members, n) <==> x < n && x in members {
        assert x in q + [n - 1] <==> x in q || x == n - 1;
      }
    }
  }

  /** Between neighbours of the list, and around it, there are no members. */
  lemma {:induction false} OrderGaps(members: set<nat>, n: nat, t: nat, x: nat)
    requires t <= |InOrder(members, n)| && x < n
    requires t > 0 ==> InOrder(members, n)[t - 1] < x
    requires t < |InOrder(members, n)| ==> x < InOrder(members, n)[t]
    ensures x !in members
  {
    OrderIsRising(members, n);
    var q := InOrder(members, n);
    hide InOrder;
    forall u | 0 <= u < |q| ensures q[u] != x {
      NotBetween(q, t, u, x);
    }
  }

  lemma NotBetween(q: seq<nat>, t: nat, u: nat, x: nat)
    requires Rising(q) && t <= |q| && u < |q|
    requires (t > 0 ==> q[t - 1] < x) && (t < |q| ==> x < q[t])
    ensures q[u] != x
  {
    assert u < t ==> q[u] <= q[t - 1];
    assert t <= u ==> q[t] <= q[u];
  }

  lemma {:induction false} IndexUnique(q: seq<nat>, k: nat)
    requires Distinct(q) && k < |q|
    ensures IndexOf(q, q[k]) == k
  {
  }

  lemma {:induction false} TouchDistinct(q: seq<nat>, x: nat)
    requires Distinct(q)
    ensures Distinct(Touch(q, x))
    ensures Elements(Touch(q, x)) == Elements(q) + {x}
    ensures |Touch(q, x)| == |q| + (if x in q then 0 else 1)
  {
    var t := Touch(q, x);
    if x in q {
      var k := IndexOf(q, x);
      assert forall j | 0 <= j < |t| :: t[j] == if j == 0 then x else if j <= k then q[j - 1] else q[j];
      forall y | y in q ensures y in t {
        var j := IndexOf(q, y);
        assert t[if j == k then 0 else if j < k then j + 1 else j] == y;
      }
      forall y | y in t ensures y in q + [x] {
      }
    }
  }

  /** Keys that were more recent than `x` move back by one; those that were less recent stay. */
  lemma {:induction false} TouchIndex(q: seq<nat>, x: nat, y: nat)
    requires Distinct(q) && y in q && y != x
    ensures y in Touch(q, x)
    ensures IndexOf(Touch(q, x), y)
         == IndexOf(q, y) + (if x !in q || IndexOf(q, y) < IndexOf(q, x) then 1 else 0)
  {
    var t := Touch(q, x);
    var j := IndexOf(q, y);
    var j' := j + (if x !in q || j < IndexOf(q, x) then 1 else 0);
    assert t[j'] == y;
    TouchDistinct(q, x);
    IndexUnique(t, j');
  }

  /** A prefix of distinct keys has as many elements as it is long. */
  lemma {:induction false} PrefixSize(q: seq<nat>, n: nat)
    requires Distinct(q) && n <= |q|
    ensures |Elements(q[..n])| == n
  {
    if n == 0 {
      assert Elements(q[..0]) == {};
    } else {
      PrefixSize(q, n - 1);
      var shorter := q[..n - 1];
      assert q[..n] == shorter + [q[n - 1]];
      assert q[n - 1] !in shorter;
      assert Elements(shorter + [q[n - 1]]) == Elements(shorter) + {q[n - 1]};
    }
  }

  lemma {:induction false} InPrefix(q: seq<nat>, n: nat, x: nat)
    requires Distinct(q) && n <= |q|
    ensures x in q[..n] <==> x in q && IndexOf(q, x) < n
  {
    if x in q {
      var k := IndexOf(q, x);
      if k < n {
        assert q[..n][k] == x;
      }
    }
  }

  /** The keys more recent than `y` after a touch of `x`. */
  lemma {:induction false} TouchAbove(q: seq<nat>, x: nat, y: nat)
    requires Distinct(q) && y in q && y != x
    ensures y in Touch(q, x)
    ensures Elements(Touch(q, x)[..IndexOf(Touch(q, x), y)]) == Elements(q[..IndexOf(q, y)]) + {x}
  {
    var t := Touch(q, x);
    TouchIndex(q, x, y);
    TouchDistinct(q, x);
    var above, above' := q[..IndexOf(q, y)], t[..IndexOf(t, y)];
    forall z ensures z in above' <==> z in above || z == x {
      InPrefix(q, IndexOf(q, y), z);
      InPrefix(t, IndexOf(t, y), z);
      if z in q && z != x {
        TouchIndex(q, x, z);
        assert IndexOf(q, z) == IndexOf(q, y) ==> z == y;
      }
    }
  }

  /** Touching one of the `n` most recent keys keeps which keys these are. */
  lemma {:induction false} TouchKept(q: seq<nat>, x: nat, n: nat)
    requires Distinct(q) && x in q && IndexOf(q, x) < n <= |q|
    ensures n <= |Touch(q, x)| && forall y :: y in Touch(q, x)[..n] <==> y in q[..n]
  {
    var t := Touch(q, x);
    TouchDistinct(q, x);
    forall y ensures y in t[..n] <==> y in q[..n] {
      InPrefix(q, n, y);
      InPrefix(t, n, y);
      if y in q && y != x {
        TouchIndex(q, x, y);
      }
      assert y in Elements(t) <==> y in Elements(q);
    }
  }

  /** Touching a key that is not among the `n` most recent ones puts it in front of them. */
  lemma {:induction false} TouchFresh(q: seq<nat>, x: nat, n: nat)
    requires Distinct(q) && n <= |q| && (x in q ==> IndexOf(q, x) >= n)
    ensures n < |Touch(q, x)| && forall j | 0 <= j <= n :: Touch(q, x)[j] == if j == 0 then x else q[j - 1]
  {
  }

  /** Where the key now at position `j` was before key `k` moved to the front. */
  function Before(k: nat, j: nat): nat {
    if j == 0 then k else if j <= k then j - 1 else j
  }

  lemma {:induction false} TouchAt(q: seq<nat>, x: nat)
    requires x in q
    ensures |Touch(q, x)| == |q| && q[IndexOf(q, x)] == x
    ensures forall j: nat | j < |q| :: Touch(q, x)[j] == q[Before(IndexOf(q, x), j)]
  {
    var k := IndexOf(q, x);
    assert Touch(q, x) == [x] + (q[..k] + q[k + 1..]);
    hide IndexOf, Touch, Without;
    MovedAt(q, x, k);
  }

  lemma {:induction false} MovedAt(q: seq<nat>, x: nat, k: nat)
    requires k < |q| && q[k] == x
    ensures var t := [x] + (q[..k] + q[k + 1..]);
            |t| == |q| && forall j: nat | j < |q| :: t[j] == q[Before(k, j)]
  {
  }

  lemma IndexIn(q: seq<nat>, x: nat)
    requires x in q
    ensures IndexOf(q, x) < |q| && q[IndexOf(q, x)] == x
  {
  }

  /** The old position of what is at position `j` once position `k` is gone. */
  function Past(k: nat, j: nat): nat {
    if j < k then j else j + 1
  }

  /** Removal keeps the order of the other keys. */
  lemma {:induction false} WithoutKeeps(q: seq<nat>, v: nat)
    requires Distinct(q) && v in q
    ensures var r := Without(q, v);
            && Distinct(r) && |r| == |q| - 1
            && (forall j: nat | j < |r| :: r[j] == q[Past(IndexOf(q, v), j)])
            && forall x :: x in r <==> x in q && x != v
  {
    var k := IndexOf(q, v);
    IndexIn(q, v);
    var r := Without(q, v);
    hide IndexOf, Without;
    assert forall j: nat | j < |r| :: r[j] == q[Past(k, j)];
    forall x | x in q && x != v ensures x in r {
      IndexIn(q, x);
      var j := IndexOf(q, x);
      assert r[if j < k then j else j - 1] == x;
    }
  }
}
