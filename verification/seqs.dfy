/** Order-preserving filtering and counting over sequences (JavaScript's
    `Array.prototype.filter` and `.filter(...).length`). */
module Seqs {

  /** The elements of `s` that satisfy `p`, in their original order. */
  function Filter<T(!new)>(s: seq<T>, p: T -> bool): (r: seq<T>)
    ensures |r| <= |s|
    ensures forall x :: x in r <==> x in s && p(x)
    decreases |s|
  {
    if |s| == 0 then []
    else if p(s[0]) then [s[0]] + Filter(s[1..], p)
    else Filter(s[1..], p)
  }

  /** How many elements of `s` satisfy `p`. */
  function Count<T(!new)>(s: seq<T>, p: T -> bool): (n: nat)
    ensures n <= |s|
    ensures n == 0 <==> forall x :: x in s ==> !p(x)
  {
    var r := Filter(s, p);
    assert |r| > 0 ==> r[0] in r;
    |r|
  }

  /** Logical complement of a predicate. */
  function Not<T(!new)>(p: T -> bool): T -> bool {
    x => !p(x)
  }

  /** Conjunction of two predicates. */
  function Both<T(!new)>(p: T -> bool, q: T -> bool): T -> bool {
    x => p(x) && q(x)
  }

  /** Filtering distributes over concatenation: this is what "preserves order" means. */
  lemma {:induction false} FilterAppend<T(!new)>(a: seq<T>, b: seq<T>, p: T -> bool)
    ensures Filter(a + b, p) == Filter(a, p) + Filter(b, p)
    decreases |a|
  {
    if |a| == 0 {
      assert a + b == b;
    } else {
      assert (a + b)[0] == a[0];
      assert (a + b)[1..] == a[1..] + b;
      FilterAppend(a[1..], b, p);
    }
  }

  /** A filter keeps every copy of an accepted element and no copy of a rejected one. */
  lemma {:induction false} FilterMultiplicity<T(!new)>(s: seq<T>, p: T -> bool, x: T)
    ensures multiset(Filter(s, p))[x] == if p(x) then multiset(s)[x] else 0
    decreases |s|
  {
    if |s| > 0 {
      assert s == [s[0]] + s[1..];
      FilterMultiplicity(s[1..], p, x);
    }
  }

  /** Filtering two rearrangements of the same elements gives rearrangements of each other. */
  lemma FilterPermutation<T(!new)>(a: seq<T>, b: seq<T>, p: T -> bool)
    requires multiset(a) == multiset(b)
    ensures multiset(Filter(a, p)) == multiset(Filter(b, p))
    ensures Count(a, p) == Count(b, p)
  {
    forall x
      ensures multiset(Filter(a, p))[x] == multiset(Filter(b, p))[x]
    {
      FilterMultiplicity(a, p, x);
      FilterMultiplicity(b, p, x);
    }
    assert multiset(Filter(a, p)) == multiset(Filter(b, p));
    assert |multiset(Filter(a, p))| == |Filter(a, p)|;
    assert |multiset(Filter(b, p))| == |Filter(b, p)|;
  }

  /** Counting splits over concatenation. */
  /** Counting peels off the first element. */
  lemma CountCons<T(!new)>(s: seq<T>, p: T -> bool)
    requires |s| > 0
    ensures Count(s, p) == (if p(s[0]) then 1 else 0) + Count(s[1..], p)
  {
  }

  lemma CountAppend<T(!new)>(a: seq<T>, b: seq<T>, p: T -> bool)
    ensures Count(a + b, p) == Count(a, p) + Count(b, p)
  {
    FilterAppend(a, b, p);
  }

  /** Counting `p` splits into the elements that also satisfy `q` and those that do not. */
  lemma {:induction false} CountSplit<T(!new)>(s: seq<T>, p: T -> bool, q: T -> bool)
    ensures Count(s, p) == Count(s, Both(p, q)) + Count(s, Both(p, Not(q)))
    decreases |s|
  {
    if |s| > 0 {
      assert s == [s[0]] + s[1..];
      CountAppend([s[0]], s[1..], p);
      CountAppend([s[0]], s[1..], Both(p, q));
      CountAppend([s[0]], s[1..], Both(p, Not(q)));
      CountSplit(s[1..], p, q);
    }
  }

  /** Two predicates that agree on every element of `s` select the same elements. */
  lemma {:induction false} FilterCongruent<T(!new)>(s: seq<T>, p: T -> bool, q: T -> bool)
    requires forall x :: x in s ==> p(x) == q(x)
    ensures Filter(s, p) == Filter(s, q)
    decreases |s|
  {
    if |s| > 0 {
      assert s[0] in s;
      assert forall x :: x in s[1..] ==> x in s;
      FilterCongruent(s[1..], p, q);
    }
  }

  /** Every element either satisfies `p` or does not. */
  lemma {:induction false} CountComplement<T(!new)>(s: seq<T>, p: T -> bool)
    ensures Count(s, p) + Count(s, Not(p)) == |s|
    decreases |s|
  {
    if |s| > 0 {
      assert s == [s[0]] + s[1..];
      CountAppend([s[0]], s[1..], p);
      CountAppend([s[0]], s[1..], Not(p));
      CountComplement(s[1..], p);
    }
  }

  /** Filtering twice is filtering once by both predicates. */
  lemma {:induction false} FilterFilter<T(!new)>(s: seq<T>, p: T -> bool, q: T -> bool)
    ensures Filter(Filter(s, p), q) == Filter(s, Both(p, q))
    decreases |s|
  {
    if |s| > 0 {
      FilterFilter(s[1..], p, q);
      if p(s[0]) {
        assert Filter(s, p) == [s[0]] + Filter(s[1..], p);
        assert ([s[0]] + Filter(s[1..], p))[1..] == Filter(s[1..], p);
      }
    }
  }

  /** Replacing one element moves a count only by what that element contributes. */
  lemma CountChangedAt<T(!new)>(a: seq<T>, b: seq<T>, i: nat, p: T -> bool)
    requires |a| == |b| && i < |a|
    requires forall j :: 0 <= j < |a| && j != i ==> a[j] == b[j]
    ensures Count(b, p) + (if p(a[i]) then 1 else 0) == Count(a, p) + (if p(b[i]) then 1 else 0)
  {
    assert a == a[..i] + [a[i]] + a[i + 1..];
    assert b == b[..i] + [b[i]] + b[i + 1..];
    assert a[..i] == b[..i] && a[i + 1..] == b[i + 1..];
    CountAppend(a[..i] + [a[i]], a[i + 1..], p);
    CountAppend(a[..i], [a[i]], p);
    CountAppend(b[..i] + [b[i]], b[i + 1..], p);
    CountAppend(b[..i], [b[i]], p);
  }

  /** A sequence without repeats has as many distinct elements as it has positions. */
  lemma {:induction false} DistinctCardinality<T(!new)>(s: seq<T>)
    requires forall i, j :: 0 <= i < j < |s| ==> s[i] != s[j]
    ensures |set x | x in s| == |s|
    decreases |s|
  {
    if |s| > 0 {
      DistinctCardinality(s[1..]);
      assert (set x | x in s) == (set x | x in s[1..]) + {s[0]};
      assert s[0] !in (set x | x in s[1..]);
    }
  }

  /** `s` without its element at position `j`. */
  function DropAt<T>(s: seq<T>, j: nat): (t: seq<T>)
    requires j < |s|
    ensures |t| == |s| - 1
    ensures forall k :: 0 <= k < j ==> t[k] == s[k]
    ensures forall k :: j <= k < |t| ==> t[k] == s[k + 1]
  {
    s[..j] + s[j + 1..]
  }

  /** Dropping a later copy of a repeated element leaves the same set of elements. */
  lemma DropRepeat<T(!new)>(s: seq<T>, i: nat, j: nat)
    requires i < j < |s| && s[i] == s[j]
    ensures (set x | x in s) == (set x | x in DropAt(s, j))
  {
    var t := DropAt(s, j);
    forall x | x in s ensures x in t {
      var k :| 0 <= k < |s| && s[k] == x;
      if k < j { assert t[k] == x; } else if k == j { assert t[i] == x; } else { assert t[k - 1] == x; }
    }
    forall x | x in t ensures x in s {
      var k :| 0 <= k < |t| && t[k] == x;
      if k < j { assert s[k] == x; } else { assert s[k + 1] == x; }
    }
  }
}
