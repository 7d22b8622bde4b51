/** Sequences without repetition and the sizes of finite sets. */
module Collections {

  ghost predicate NoTwice<T(!new)>(s: seq<T>) { forall i, j :: 0 <= i < j < |s| ==> s[i] != s[j] }

  lemma Associates<T>(a: seq<T>, b: seq<T>, c: seq<T>)
    ensures a + (b + c) == (a + b) + c
  {}

  /** The numbers below `n`. */
  ghost function Upto(n: nat): (r: set<nat>)
    ensures |r| == n && forall x: nat :: x in r <==> x < n
  {
    if n == 0 then {} else Upto(n - 1) + {n - 1}
  }

  /** Distinct elements of a set are no more than its size. */
  lemma {:induction false} FitsIn<T(!new)>(q: seq<T>, s: set<T>)
    requires NoTwice(q) && forall i :: 0 <= i < |q| ==> q[i] in s
    ensures |q| <= |s|
  {
    if q != [] { FitsIn(q[1..], s - {q[0]}); }
  }

  /** Distinct numbers below `n` that avoid one of them are fewer than `n`. */
  lemma TooMany(q: seq<nat>, n: nat, x: nat)
    requires NoTwice(q) && x < n && x !in q && forall i :: 0 <= i < |q| ==> q[i] < n
    ensures |q| < n
  {
    FitsIn(q, Upto(n) - {x});
  }

  lemma SubsetSize<T(!new)>(a: set<T>, b: set<T>)
    requires a <= b
    ensures |a| <= |b| && (a != b ==> |a| < |b|)
  {
    var rest := b - a;
    assert b == a + rest;
    if a != b { assert rest != {}; }
  }

  function RemoveAt<T>(q: seq<T>, k: nat): (r: seq<T>)
    requires k < |q|
    ensures |r| == |q| - 1
    ensures forall i {:trigger r[i]} :: 0 <= i < |r| ==> r[i] == if i < k then q[i] else q[i+1]
  {
    q[..k] + q[k+1..]
  }

  function Repeat<T>(p: T, n: nat): (s: seq<T>)
    ensures |s| == n && forall i :: 0 <= i < n ==> s[i] == p
  {
    seq(n, _ => p)
  }

  function Concat<T>(parts: seq<seq<T>>): seq<T> {
    if parts == [] then [] else parts[0] + Concat(parts[1..])
  }

  lemma ConcatFirst<T>(part: seq<T>, parts: seq<seq<T>>)
    ensures Concat([part] + parts) == part + Concat(parts)
  {
    assert ([part] + parts)[1..] == parts;
  }
}
