/** JavaScript's relational comparison of strings (`a <= b`), which compares code unit
    by code unit and puts a proper prefix first. Every string the model compares is
    ASCII, where code units and Dafny characters coincide. */
module Lex {
  import opened Sorting

  predicate LexLe(a: string, b: string)
    decreases |a|
  {
    |a| == 0 || (|b| > 0 && (a[0] < b[0] || (a[0] == b[0] && LexLe(a[1..], b[1..]))))
  }

  lemma {:induction false} LexLeReflexive(a: string)
    ensures LexLe(a, a)
    decreases |a|
  {
    if |a| > 0 { LexLeReflexive(a[1..]); }
  }

  lemma {:induction false} LexLeTotal(a: string, b: string)
    ensures LexLe(a, b) || LexLe(b, a)
    decreases |a|
  {
    if |a| > 0 && |b| > 0 && a[0] == b[0] { LexLeTotal(a[1..], b[1..]); }
  }

  lemma {:induction false} LexLeTransitive(a: string, b: string, c: string)
    requires LexLe(a, b) && LexLe(b, c)
    ensures LexLe(a, c)
    decreases |a|
  {
    if |a| > 0 && a[0] == b[0] && b[0] == c[0] {
      LexLeTransitive(a[1..], b[1..], c[1..]);
    }
  }

  lemma {:induction false} LexLeAntisymmetric(a: string, b: string)
    requires LexLe(a, b) && LexLe(b, a)
    ensures a == b
    decreases |a|
  {
    if |a| > 0 {
      LexLeAntisymmetric(a[1..], b[1..]);
      assert a == [a[0]] + a[1..];
      assert b == [b[0]] + b[1..];
    }
  }

  /** String comparison is a total order, so sorting date strings is well defined. */
  lemma LexIsTotalOrder()
    ensures TotalPreorder(LexLe) && Antisymmetric(LexLe)
  {
    forall a, b ensures LexLe(a, b) || LexLe(b, a) { LexLeTotal(a, b); }
    forall a, b, c | LexLe(a, b) && LexLe(b, c) ensures LexLe(a, c) {
      LexLeTransitive(a, b, c);
    }
    forall a, b | LexLe(a, b) && LexLe(b, a) ensures a == b {
      LexLeAntisymmetric(a, b);
    }
  }

  /** Comparing two strings that start with same-length prefixes: the prefixes decide
      unless they are equal, in which case the remainders decide. */
  lemma LexLeConcat(p: string, x: string, q: string, y: string)
    requires |p| == |q|
    ensures p == q ==> (LexLe(p + x, q + y) <==> LexLe(x, y))
    ensures p != q ==> (LexLe(p + x, q + y) <==> LexLe(p, q))
  {
    if p == q { LexLeCommonPrefix(p, x, y); } else { LexLeFirstDifference(p, x, q, y); }
  }

  /** A common prefix does not change the comparison. */
  lemma {:induction false} LexLeCommonPrefix(p: string, x: string, y: string)
    ensures LexLe(p + x, p + y) <==> LexLe(x, y)
    decreases |p|
  {
    if |p| > 0 {
      assert (p + x)[1..] == p[1..] + x && (p + y)[1..] == p[1..] + y;
      LexLeCommonPrefix(p[1..], x, y);
    } else {
      assert p + x == x && p + y == y;
    }
  }

  /** Between prefixes of the same length that differ, the prefixes decide. */
  lemma {:induction false} LexLeFirstDifference(p: string, x: string, q: string, y: string)
    requires |p| == |q| && p != q
    ensures LexLe(p + x, q + y) <==> LexLe(p, q)
    decreases |p|
  {
    assert (p + x)[0] == p[0] && (q + y)[0] == q[0];
    if p[0] == q[0] {
      assert p == [p[0]] + p[1..] && q == [q[0]] + q[1..];
      assert (p + x)[1..] == p[1..] + x && (q + y)[1..] == q[1..] + y;
      LexLeFirstDifference(p[1..], x, q[1..], y);
    }
  }


  /** JavaScript's `[...dates].sort()`: ascending code-unit order. */
  function SortStrings(s: seq<string>): (r: seq<string>)
    ensures multiset(r) == multiset(s)
    ensures forall i, j :: 0 <= i < j < |r| ==> LexLe(r[i], r[j])
  {
    LexIsTotalOrder();
    Sort(s, LexLe)
  }

  /** The sorted order depends only on which strings were given, not on their order. */
  lemma SortStringsIgnoresOrder(a: seq<string>, b: seq<string>)
    requires multiset(a) == multiset(b)
    ensures SortStrings(a) == SortStrings(b)
  {
    LexIsTotalOrder();
    SortIgnoresOrder(a, b, LexLe);
  }
}
