/** Small vocabulary shared by every component: optional values, octets and counting. */
module Basics {

  datatype Option<+T> = None | Some(value: T)

  /** One octet, as `std::uint8_t` holds it. */
  type byte = x: int | 0 <= x < 256

  /** A socket value, which is a plain number wherever it travels. */
  type Handle = nat

  /** An address the way a relay states it. */
  datatype Endpoint = Endpoint(atyp: byte, octets: seq<byte>, port: nat)

  /** Distinct values inside (lo, hi] number at most hi - lo. */
  lemma {:induction false} Pigeonhole(s: set<nat>, v: seq<int>, lo: int, hi: int)
    requires forall i <- s :: i < |v| && lo < v[i] <= hi
    requires forall i <- s, j <- s :: i != j ==> v[i] != v[j]
    requires lo <= hi
    ensures |s| <= hi - lo
    decreases hi - lo
  {
    if s != {} {
      if k :| k in s && v[k] == hi {
        Pigeonhole(s - {k}, v, lo, hi - 1);
      } else {
        Pigeonhole(s, v, lo, hi - 1);
      }
    }
  }

  lemma {:induction false} SubsetSize<T>(a: set<T>, b: set<T>)
    requires a <= b
    ensures |a| <= |b|
    decreases a
  {
    if x :| x in a {
      SubsetSize(a - {x}, b - {x});
    }
  }

  /** The indices below n. */
  function Below(n: nat): (s: set<nat>)
    ensures forall i: nat :: i in s <==> i < n
    ensures |s| == n
  {
    if n == 0 then {} else
      var s := Below(n - 1);
      s + {n - 1}
  }

  /** l without any occurrence of x, the rest in order. */
  function Without<T(==,!new)>(l: seq<T>, x: T): (out: seq<T>)
    ensures forall y :: y in out <==> y in l && y != x
    ensures forall k :: 0 <= k < |out| ==> out[k] in l && out[k] != x
  {
    if l == [] then []
    else if l[0] == x then Without(l[1..], x)
    else [l[0]] + Without(l[1..], x)
  }

  ghost predicate Distinct<T(!new)>(l: seq<T>) {
    forall i, j :: 0 <= i < j < |l| ==> l[i] != l[j]
  }

  /** Taking one element out of a sequence of distinct ones closes the gap it leaves. */
  lemma {:induction false} WithoutOne<T(!new)>(l: seq<T>, k: nat)
    requires Distinct(l) && k < |l|
    ensures Without(l, l[k]) == l[..k] + l[k + 1..]
  {
    if k == 0 {
      WithoutNone(l[1..], l[0]);
    } else {
      assert l[1..][k - 1] == l[k];
      WithoutOne(l[1..], k - 1);
      assert l[..k] + l[k + 1..] == [l[0]] + (l[1..][..k - 1] + l[1..][k..]);
    }
  }

  lemma {:induction false} WithoutNone<T(!new)>(l: seq<T>, x: T)
    requires x !in l
    ensures Without(l, x) == l
  {
    if l != [] {
      WithoutNone(l[1..], x);
    }
  }

  lemma WithoutIsDistinct<T(!new)>(l: seq<T>, x: T)
    requires Distinct(l)
    ensures Distinct(Without(l, x))
    ensures |Without(l, x)| == if x in l then |l| - 1 else |l|
  {
    if x in l {
      var k :| 0 <= k < |l| && l[k] == x;
      WithoutOne(l, k);
    } else {
      WithoutNone(l, x);
    }
  }

  lemma {:induction false} DistinctSize<T(!new)>(l: seq<T>, s: set<T>)
    requires Distinct(l) && forall x :: x in l ==> x in s
    ensures |l| <= |s|
  {
    if l != [] {
      assert forall i :: 1 <= i < |l| ==> l[1..][i - 1] == l[i];
      DistinctSize(l[1..], s - {l[0]});
    }
  }
}
