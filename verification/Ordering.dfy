/** Total orders, lexicographic order and sorting. */
module Ordering {

  ghost predicate TotalOrder<T(!new)>(le: (T, T) -> bool) {
    && (forall x, y :: le(x, y) || le(y, x))
    && (forall x, y :: le(x, y) && le(y, x) ==> x == y)
    && (forall x, y, z :: le(x, y) && le(y, z) ==> le(x, z))
  }

  /** Compare at the first difference; a proper prefix comes first. */
  predicate LexLe<T(==)>(le: (T, T) -> bool, a: seq<T>, b: seq<T>) {
    a == [] ||
    (b != [] && if a[0] == b[0] then LexLe(le, a[1..], b[1..]) else le(a[0], b[0]))
  }

  lemma {:induction false} LexTotal<T(!new)>(le: (T, T) -> bool, a: seq<T>, b: seq<T>)
    requires TotalOrder(le)
    ensures LexLe(le, a, b) || LexLe(le, b, a)
    ensures LexLe(le, a, b) && LexLe(le, b, a) ==> a == b
  {
    if a != [] && b != [] && a[0] == b[0] {
      LexTotal(le, a[1..], b[1..]);
      if a[1..] == b[1..] {
        assert a == [a[0]] + a[1..] && b == [b[0]] + b[1..];
      }
    }
  }

  lemma {:induction false} LexTransitive<T(!new)>(le: (T, T) -> bool, a: seq<T>, b: seq<T>, c: seq<T>)
    requires TotalOrder(le) && LexLe(le, a, b) && LexLe(le, b, c)
    ensures LexLe(le, a, c)
  {
    if a != [] && a[0] == b[0] && b[0] == c[0] {
      LexTransitive(le, a[1..], b[1..], c[1..]);
    }
  }

  lemma LexTotalOrder<T(!new)>(le: (T, T) -> bool)
    requires TotalOrder(le)
    ensures TotalOrder((a: seq<T>, b: seq<T>) => LexLe(le, a, b))
  {
    var lex := (a: seq<T>, b: seq<T>) => LexLe(le, a, b);
    forall a, b ensures lex(a, b) || lex(b, a) {
      LexTotal(le, a, b);
    }
    forall a, b | lex(a, b) && lex(b, a) ensures a == b {
      LexTotal(le, a, b);
    }
    forall a, b, c | lex(a, b) && lex(b, c) ensures lex(a, c) {
      LexTransitive(le, a, b, c);
    }
  }

  predicate CharLe(x: char, y: char) {
    x <= y
  }

  /** The order of strings. */
  predicate StringLe(a: string, b: string) {
    LexLe(CharLe, a, b)
  }

  lemma StringOrder()
    ensures TotalOrder(StringLe)
  {
    LexTotalOrder(CharLe);
    var lex := (a: seq<char>, b: seq<char>) => LexLe(CharLe, a, b);
    assert forall a, b :: StringLe(a, b) == lex(a, b);
  }

  /** The first sequence is a prefix of the second, or smaller at their first difference. */
  ghost predicate ComesFirst<T(!new)>(le: (T, T) -> bool, a: seq<T>, b: seq<T>) {
    a <= b || exists i: nat :: DiffersAt(le, a, b, i)
  }

  ghost predicate DiffersAt<T(!new)>(le: (T, T) -> bool, a: seq<T>, b: seq<T>, i: nat) {
    i < |a| && i < |b| && a[..i] == b[..i] && a[i] != b[i] && le(a[i], b[i])
  }

  lemma {:induction false} LexLeIff<T(!new)>(le: (T, T) -> bool, a: seq<T>, b: seq<T>)
    ensures LexLe(le, a, b) <==> ComesFirst(le, a, b)
  {
    if a != [] && b != [] {
      if a[0] == b[0] {
        LexLeIff(le, a[1..], b[1..]);
        TailsCompare(le, a, b);
      } else {
        assert a[..0] == b[..0];
        assert le(a[0], b[0]) ==> DiffersAt(le, a, b, 0);
        assert forall i: nat | DiffersAt(le, a, b, i) :: i > 0 ==> a[..i][0] == b[..i][0];
      }
    }
  }

  lemma TailsCompare<T(!new)>(le: (T, T) -> bool, a: seq<T>, b: seq<T>)
    requires a != [] && b != [] && a[0] == b[0]
    ensures ComesFirst(le, a, b) <==> ComesFirst(le, a[1..], b[1..])
  {
    assert a == [a[0]] + a[1..] && b == [b[0]] + b[1..];
    if i: nat :| DiffersAt(le, a, b, i) {
      assert a[1..][..i - 1] == a[..i][1..] && b[1..][..i - 1] == b[..i][1..];
      assert DiffersAt(le, a[1..], b[1..], i - 1);
    }
    if i: nat :| DiffersAt(le, a[1..], b[1..], i) {
      assert a[..i + 1] == [a[0]] + a[1..][..i] && b[..i + 1] == [b[0]] + b[1..][..i];
      assert DiffersAt(le, a, b, i + 1);
    }
  }

  /** Strings compare at their first difference, a proper prefix first. */
  lemma StringLeIff(a: string, b: string)
    ensures StringLe(a, b) <==> a <= b || exists i: nat :: i < |a| && i < |b| && a[..i] == b[..i] && a[i] < b[i]
  {
    LexLeIff(CharLe, a, b);
    if i: nat :| i < |a| && i < |b| && a[..i] == b[..i] && a[i] < b[i] {
      assert DiffersAt(CharLe, a, b, i);
    }
  }

  // ----- Sorting -----

  ghost predicate SortedBy<T(!new)>(le: (T, T) -> bool, s: seq<T>) {
    forall i, j :: 0 <= i < j < |s| ==> le(s[i], s[j])
  }

  /** `le` compares any two of the elements, transitively. */
  ghost predicate Comparable<T(!new)>(le: (T, T) -> bool, s: seq<T>) {
    && (forall x, y :: x in s && y in s ==> le(x, y) || le(y, x))
    && (forall x, y, z :: x in s && y in s && z in s && le(x, y) && le(y, z) ==> le(x, z))
  }

  function InsertBy<T>(le: (T, T) -> bool, x: T, s: seq<T>): (r: seq<T>)
    ensures multiset(r) == multiset([x]) + multiset(s)
  {
    if s == [] then [x]
    else if le(x, s[0]) then [x] + s
    else
      assert s == [s[0]] + s[1..];
      [s[0]] + InsertBy(le, x, s[1..])
  }

  function SortBy<T>(le: (T, T) -> bool, s: seq<T>): (r: seq<T>)
    ensures multiset(r) == multiset(s)
  {
    if s == [] then []
    else
      assert s == [s[0]] + s[1..];
      InsertBy(le, s[0], SortBy(le, s[1..]))
  }

  lemma SameElements<T(!new)>(a: seq<T>, b: seq<T>)
    requires multiset(a) == multiset(b)
    ensures |a| == |b|
    ensures forall x :: x in a <==> x in b
  {
    assert |multiset(a)| == |a|;
    forall x ensures x in a <==> x in b {
      assert x in a <==> x in multiset(a);
      assert x in b <==> x in multiset(b);
    }
  }

  lemma ComparableSub<T(!new)>(le: (T, T) -> bool, a: seq<T>, b: seq<T>)
    requires Comparable(le, b) && forall y :: y in a ==> y in b
    ensures Comparable(le, a)
  {
  }

  lemma SortedCons<T(!new)>(le: (T, T) -> bool, head: T, rest: seq<T>)
    requires SortedBy(le, rest) && forall y :: y in rest ==> le(head, y)
    ensures SortedBy(le, [head] + rest)
  {
  }

  lemma HeadBelowSorted<T(!new)>(le: (T, T) -> bool, s: seq<T>, y: T)
    requires SortedBy(le, s) && s != [] && y in s[1..]
    ensures le(s[0], y)
  {
    var k :| 0 <= k < |s[1..]| && s[1..][k] == y;
    assert s[k + 1] == y;
  }

  lemma HeadBelowAll<T(!new)>(le: (T, T) -> bool, x: T, s: seq<T>)
    requires Comparable(le, [x] + s) && SortedBy(le, s) && s != [] && le(x, s[0])
    ensures forall y :: y in s ==> le(x, y)
  {
    var all := [x] + s;
    assert x in all && s[0] in all;
    forall y | y in s ensures le(x, y) {
      assert y in all;
      if y != s[0] {
        HeadBelowSorted(le, s, y);
      }
    }
  }

  lemma HeadBelowInserted<T(!new)>(le: (T, T) -> bool, x: T, s: seq<T>)
    requires Comparable(le, [x] + s) && SortedBy(le, s) && s != [] && !le(x, s[0])
    ensures forall y :: y in InsertBy(le, x, s[1..]) ==> le(s[0], y)
  {
    var all := [x] + s;
    assert x in all && s[0] in all;
    SameElements(InsertBy(le, x, s[1..]), [x] + s[1..]);
    forall y | y in [x] + s[1..] ensures le(s[0], y) {
      if y != x {
        HeadBelowSorted(le, s, y);
      }
    }
  }

  lemma {:induction false} InsertSorted<T(!new)>(le: (T, T) -> bool, x: T, s: seq<T>)
    requires Comparable(le, [x] + s) && SortedBy(le, s)
    ensures SortedBy(le, InsertBy(le, x, s))
  {
    if s != [] {
      if le(x, s[0]) {
        HeadBelowAll(le, x, s);
        SortedCons(le, x, s);
      } else {
        HeadBelowInserted(le, x, s);
        ComparableSub(le, [x] + s[1..], [x] + s);
        InsertSorted(le, x, s[1..]);
        SortedCons(le, s[0], InsertBy(le, x, s[1..]));
      }
    }
  }

  lemma {:induction false} SortSorted<T(!new)>(le: (T, T) -> bool, s: seq<T>)
    requires Comparable(le, s)
    ensures SortedBy(le, SortBy(le, s))
  {
    if s != [] {
      var rest := SortBy(le, s[1..]);
      assert forall y :: y in s[1..] ==> y in s;
      SortSorted(le, s[1..]);
      SameElements(rest, s[1..]);
      forall y | y in [s[0]] + rest ensures y in s {
        assert y == s[0] || y in rest;
        assert y in rest ==> y in s[1..];
      }
      InsertSorted(le, s[0], rest);
    }
  }

  /** Elements that compare equal are equal. */
  ghost predicate Antisymmetric<T(!new)>(le: (T, T) -> bool, s: seq<T>) {
    forall x, y :: x in s && y in s && le(x, y) && le(y, x) ==> x == y
  }

  lemma SortedHeads<T(!new)>(le: (T, T) -> bool, a: seq<T>, b: seq<T>)
    requires SortedBy(le, a) && SortedBy(le, b) && multiset(a) == multiset(b) && a != []
    requires Antisymmetric(le, a)
    ensures b != [] && a[0] == b[0]
  {
    SameElements(a, b);
    assert a[0] in a && b[0] in b;
    assert a[0] in b && b[0] in a;
    var i :| 0 <= i < |b| && b[i] == a[0];
    var j :| 0 <= j < |a| && a[j] == b[0];
    if i != 0 && j != 0 {
      assert le(a[0], a[j]) && le(b[0], b[i]);
    }
  }

  lemma TailElements<T(!new)>(s: seq<T>)
    requires s != []
    ensures multiset(s[1..]) == multiset(s) - multiset{s[0]}
  {
    assert s == [s[0]] + s[1..];
  }

  lemma TailKeeps<T(!new)>(le: (T, T) -> bool, s: seq<T>)
    requires SortedBy(le, s) && Antisymmetric(le, s) && s != []
    ensures SortedBy(le, s[1..]) && Antisymmetric(le, s[1..])
  {
    assert forall y :: y in s[1..] ==> y in s;
  }

  lemma TailSorted<T(!new)>(le: (T, T) -> bool, s: seq<T>)
    requires s != [] && SortedBy(le, s)
    ensures SortedBy(le, s[1..])
  {
  }

  lemma SameParts<T>(a: seq<T>, b: seq<T>)
    requires a != [] && b != [] && a[0] == b[0] && a[1..] == b[1..]
    ensures a == b
  {
    assert a == [a[0]] + a[1..] && b == [b[0]] + b[1..];
  }

  /** A collection has one sorted arrangement. */
  lemma {:induction false} SortedUnique<T(!new)>(le: (T, T) -> bool, a: seq<T>, b: seq<T>)
    requires SortedBy(le, a) && SortedBy(le, b) && multiset(a) == multiset(b)
    requires Antisymmetric(le, a)
    ensures a == b
  {
    SameElements(a, b);
    if a != [] {
      SortedHeads(le, a, b);
      TailElements(a);
      TailElements(b);
      TailKeeps(le, a);
      TailSorted(le, a);
      TailSorted(le, b);
      SortedUnique(le, a[1..], b[1..]);
      SameParts(a, b);
    }
  }

  /** Sorting forgets the input order. */
  lemma SortForgetsOrder<T(!new)>(le: (T, T) -> bool, a: seq<T>, b: seq<T>)
    requires Comparable(le, a) && Antisymmetric(le, a) && multiset(a) == multiset(b)
    ensures SortBy(le, a) == SortBy(le, b)
  {
    SameElements(a, b);
    var sorted := SortBy(le, a);
    SameElements(sorted, a);
    assert forall y :: y in sorted ==> y in a;
    SortSorted(le, a);
    assert forall y :: y in b ==> y in a;
    SortSorted(le, b);
    SortedUnique(le, sorted, SortBy(le, b));
  }

  ghost predicate NoDuplicates<T(!new)>(s: seq<T>) {
    forall i, j :: 0 <= i < j < |s| ==> s[i] != s[j]
  }

  lemma {:induction false} OccursOnce<T(!new)>(s: seq<T>, x: T)
    requires NoDuplicates(s)
    ensures multiset(s)[x] == if x in s then 1 else 0
  {
    if s != [] {
      TailElements(s);
      OccursOnce(s[1..], x);
      assert s == [s[0]] + s[1..];
    }
  }

  /** Without duplicates, the same members make the same collection. */
  lemma SameMembers<T(!new)>(a: seq<T>, b: seq<T>)
    requires NoDuplicates(a) && NoDuplicates(b) && forall x :: x in a <==> x in b
    ensures multiset(a) == multiset(b)
  {
    forall x ensures multiset(a)[x] == multiset(b)[x] {
      OccursOnce(a, x);
      OccursOnce(b, x);
    }
  }

  function Map<S, T>(f: S -> T, s: seq<S>): (r: seq<T>)
    ensures |r| == |s| && forall i :: 0 <= i < |s| ==> r[i] == f(s[i])
  {
    if s == [] then [] else [f(s[0])] + Map(f, s[1..])
  }

  /** Sorting by a key of the image is sorting, then mapping. */
  lemma {:induction false} SortMap<S(!new), T(!new)>(f: S -> T, leS: (S, S) -> bool, leT: (T, T) -> bool, s: seq<S>)
    requires forall x, y :: leS(x, y) == leT(f(x), f(y))
    ensures Map(f, SortBy(leS, s)) == SortBy(leT, Map(f, s))
  {
    if s != [] {
      SortMap(f, leS, leT, s[1..]);
      assert Map(f, s)[1..] == Map(f, s[1..]);
      InsertMap(f, leS, leT, s[0], SortBy(leS, s[1..]));
    }
  }

  lemma {:induction false} InsertMap<S(!new), T(!new)>(f: S -> T, leS: (S, S) -> bool, leT: (T, T) -> bool, x: S,
        s: seq<S>)
    requires forall x, y :: leS(x, y) == leT(f(x), f(y))
    ensures Map(f, InsertBy(leS, x, s)) == InsertBy(leT, f(x), Map(f, s))
  {
    var inserted := InsertBy(leS, x, s);
    if s == [] || leS(x, s[0]) {
      assert inserted == [x] + s;
      assert inserted[1..] == s;
    } else {
      InsertMap(f, leS, leT, x, s[1..]);
      assert inserted[0] == s[0] && inserted[1..] == InsertBy(leS, x, s[1..]);
      assert Map(f, s)[0] == f(s[0]) && Map(f, s)[1..] == Map(f, s[1..]);
    }
  }
}
