/** Concatenation regroups; what holds of every or of some item of a prefix. */
module Sequences {

  lemma Regroup2<T>(p: seq<T>, q: seq<T>, x: seq<T>)
    ensures p + q + x == p + (q + x)
  {
  }

  lemma Regroup3<T>(p: seq<T>, q: seq<T>, r: seq<T>, x: seq<T>)
    ensures p + q + r + x == p + (q + (r + x))
  {
  }

  lemma Regroup5<T>(p: seq<T>, q: seq<T>, r: seq<T>, s: seq<T>, t: seq<T>, x: seq<T>)
    ensures p + q + r + s + t + x == p + (q + (r + (s + (t + x))))
  {
    Regroup3(p, q, r, s + (t + x));
    Regroup3(p + q + r, s, t, x);
  }

  lemma AppendFront<T>(a: seq<T>, b: seq<T>)
    requires b != []
    ensures (a + b)[..|a + b| - 1] == a + b[..|b| - 1] && (a + b)[|a + b| - 1] == b[|b| - 1]
  {
  }

  predicate Every<T>(holds: T -> bool, s: seq<T>) {
    forall i :: 0 <= i < |s| ==> holds(s[i])
  }

  lemma EveryStep<T>(holds: T -> bool, s: seq<T>, n: nat)
    requires n < |s|
    ensures Every(holds, s[..n + 1]) <==> Every(holds, s[..n]) && holds(s[n])
    ensures Every(holds, s) ==> Every(holds, s[..n + 1])
  {
    var now := s[..n + 1];
    assert now[n] == s[n] && forall i :: 0 <= i < n ==> now[i] == s[..n][i];
  }

  ghost predicate Any<T(!new)>(holds: T -> bool, s: seq<T>) {
    exists i :: 0 <= i < |s| && holds(s[i])
  }

  lemma AnyStep<T(!new)>(holds: T -> bool, s: seq<T>, n: nat)
    requires n < |s|
    ensures Any(holds, s[..n + 1]) <==> Any(holds, s[..n]) || holds(s[n])
  {
    var now := s[..n + 1];
    assert now[n] == s[n] && forall i :: 0 <= i < n ==> now[i] == s[..n][i];
  }
}
