/** A stable insertion sort over any total preorder. It stands for JavaScript's
    `Array.prototype.sort` (stable since ES2019) and for the database's `order by`. */
module Sorting {
  import opened Seqs

  /** `le` compares every pair and is transitive: what a sort comparator must be. */
  ghost predicate TotalPreorder<T(!new)>(le: (T, T) -> bool) {
    && (forall a, b :: le(a, b) || le(b, a))
    && (forall a, b, c :: le(a, b) && le(b, c) ==> le(a, c))
  }

  /** `le` never ties two different values. */
  ghost predicate Antisymmetric<T(!new)>(le: (T, T) -> bool) {
    forall a, b :: le(a, b) && le(b, a) ==> a == b
  }

  ghost predicate SortedBy<T>(s: seq<T>, le: (T, T) -> bool) {
    forall i, j :: 0 <= i < j < |s| ==> le(s[i], s[j])
  }

  /** Places `x` in front of the first element it does not exceed. */
  function Insert<T(!new)>(x: T, s: seq<T>, le: (T, T) -> bool): (r: seq<T>)
    requires TotalPreorder(le)
    requires SortedBy(s, le)
    ensures SortedBy(r, le)
    ensures multiset(r) == multiset(s) + multiset{x}
    ensures forall y :: y in r <==> y in s || y == x
    decreases |s|
  {
    if |s| == 0 then [x]
    else if le(x, s[0]) then
      assert forall j :: 0 <= j < |s| ==> le(x, s[j]) by {
        forall j | 0 <= j < |s| ensures le(x, s[j]) {
          if j > 0 { assert le(s[0], s[j]); }
        }
      }
      SortedCons(x, s, le);
      [x] + s
    else
      var rest := Insert(x, s[1..], le);
      assert forall j :: 0 <= j < |rest| ==> le(s[0], rest[j]) by {
        forall j | 0 <= j < |rest| ensures le(s[0], rest[j]) {
          assert rest[j] in rest;
          if rest[j] != x {
            var k :| 0 <= k < |s[1..]| && s[1..][k] == rest[j];
            assert s[k + 1] == rest[j];
          }
        }
      }
      SortedCons(s[0], rest, le);
      assert s == [s[0]] + s[1..];
      assert multiset([s[0]] + rest) == multiset{s[0]} + multiset(rest);
      assert multiset(s) == multiset{s[0]} + multiset(s[1..]);
      [s[0]] + rest
  }

  /** Putting an element in front of a sorted sequence whose elements it does not exceed
      keeps it sorted. */
  lemma SortedCons<T>(h: T, t: seq<T>, le: (T, T) -> bool)
    requires SortedBy(t, le)
    requires forall j :: 0 <= j < |t| ==> le(h, t[j])
    ensures SortedBy([h] + t, le)
  {
    forall i, j | 0 <= i < j < |[h] + t| ensures le(([h] + t)[i], ([h] + t)[j]) {
      if i == 0 {
        assert ([h] + t)[j] == t[j - 1];
      } else {
        assert ([h] + t)[i] == t[i - 1] && ([h] + t)[j] == t[j - 1];
      }
    }
  }

  /** The elements of `s` rearranged into ascending `le` order. */
  function Sort<T(!new)>(s: seq<T>, le: (T, T) -> bool): (r: seq<T>)
    requires TotalPreorder(le)
    ensures SortedBy(r, le)
    ensures multiset(r) == multiset(s)
    ensures |r| == |s|
    decreases |s|
  {
    if |s| == 0 then []
    else
      assert s == [s[0]] + s[1..];
      var r := Insert(s[0], Sort(s[1..], le), le);
      assert |r| == |multiset(r)|;
      r
  }

  /** Under an antisymmetric order there is only one sorted arrangement of a multiset. */
  lemma {:induction false} SortedUnique<T(!new)>(a: seq<T>, b: seq<T>, le: (T, T) -> bool)
    requires TotalPreorder(le) && Antisymmetric(le)
    requires SortedBy(a, le) && SortedBy(b, le)
    requires multiset(a) == multiset(b)
    ensures a == b
    decreases |a|
  {
    assert |a| == |multiset(a)| == |multiset(b)| == |b|;
    if |a| > 0 {
      SortedSameHead(a, b, le);
      SameTail(a, b);
      SortedUnique(a[1..], b[1..], le);
      assert a == [a[0]] + a[1..] && b == [b[0]] + b[1..];
    }
  }

  /** Two sorted arrangements of one multiset start with the same element. */
  lemma SortedSameHead<T(!new)>(a: seq<T>, b: seq<T>, le: (T, T) -> bool)
    requires Antisymmetric(le)
    requires SortedBy(a, le) && SortedBy(b, le)
    requires multiset(a) == multiset(b) && |a| > 0 && |b| > 0
    ensures a[0] == b[0]
  {
    assert a[0] in multiset(b);
    var k :| 0 <= k < |b| && b[k] == a[0];
    assert b[0] in multiset(a);
    var m :| 0 <= m < |a| && a[m] == b[0];
    assert le(a[0], a[m]) || m == 0;
    assert le(b[0], b[k]) || k == 0;
  }

  /** Removing the same first element from two arrangements of one multiset leaves
      arrangements of one multiset. */
  lemma SameTail<T>(a: seq<T>, b: seq<T>)
    requires multiset(a) == multiset(b) && |a| > 0 && |b| > 0 && a[0] == b[0]
    ensures multiset(a[1..]) == multiset(b[1..])
  {
    assert a == [a[0]] + a[1..];
    assert b == [b[0]] + b[1..];
    assert multiset(a[1..]) == multiset(a) - multiset{a[0]};
    assert multiset(b[1..]) == multiset(b) - multiset{b[0]};
  }

  /** Sorting by an antisymmetric order forgets the input order entirely. */
  lemma SortIgnoresOrder<T(!new)>(a: seq<T>, b: seq<T>, le: (T, T) -> bool)
    requires TotalPreorder(le) && Antisymmetric(le)
    requires multiset(a) == multiset(b)
    ensures Sort(a, le) == Sort(b, le)
  {
    SortedUnique(Sort(a, le), Sort(b, le), le);
  }

  /** The elements `le` ranks level with `c`. */
  function TiedWith<T(!new)>(c: T, le: (T, T) -> bool): T -> bool {
    (y: T) => le(y, c) && le(c, y)
  }

  /** Filtering a sequence with a known first element. */
  lemma FilterCons<T(!new)>(h: T, t: seq<T>, p: T -> bool)
    ensures Filter([h] + t, p) == (if p(h) then [h] else []) + Filter(t, p)
  {
    assert ([h] + t)[0] == h && ([h] + t)[1..] == t;
  }

  /** Inserting `x` puts it in front of every element it ties with. */
  lemma {:induction false} InsertStable<T(!new)>(x: T, s: seq<T>, le: (T, T) -> bool, c: T)
    requires TotalPreorder(le) && SortedBy(s, le)
    ensures Filter(Insert(x, s, le), TiedWith(c, le))
         == (if TiedWith(c, le)(x) then [x] else []) + Filter(s, TiedWith(c, le))
    decreases |s|
  {
    var e := TiedWith(c, le);
    if |s| == 0 || le(x, s[0]) {
      assert Insert(x, s, le) == [x] + s;
      FilterCons(x, s, e);
    } else {
      var h, t := s[0], s[1..];
      var rest := Insert(x, t, le);
      assert Insert(x, s, le) == [h] + rest;
      assert s == [h] + t;
      InsertStable(x, t, le, c);
      FilterCons(h, rest, e);
      FilterCons(h, t, e);
      var hs := if e(h) then [h] else [];
      var ft := Filter(t, e);
      assert Filter(s, e) == hs + ft;
      if e(x) {
        assert le(x, c) && le(c, h) ==> le(x, h);
        assert hs == [];
        assert Filter(Insert(x, s, le), e) == [x] + ft;
      } else {
        assert Filter(rest, e) == ft;
        assert Filter(Insert(x, s, le), e) == hs + ft;
      }
    }
  }

  /** The sort is stable: the elements level with any `c` come out in their input order. */
  lemma {:induction false} SortStable<T(!new)>(s: seq<T>, le: (T, T) -> bool, c: T)
    requires TotalPreorder(le)
    ensures Filter(Sort(s, le), TiedWith(c, le)) == Filter(s, TiedWith(c, le))
    decreases |s|
  {
    if |s| > 0 {
      SortStable(s[1..], le, c);
      InsertStable(s[0], Sort(s[1..], le), le, c);
    }
  }
}
