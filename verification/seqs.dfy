/**
 The two array combinators the reducer and the selectors are built from,
 `Array.prototype.map` and `Array.prototype.filter`, over immutable sequences,
 each with a specification that does not mention its own recursion.
 */
module Seqs {

  /** `a` is obtained from `b` by deleting elements: an order-preserving
      subsequence. */
  ghost predicate Subseq<T>(a: seq<T>, b: seq<T>)
    decreases |b|
  {
    a == [] || (b != [] && ((a[0] == b[0] && Subseq(a[1..], b[1..])) || Subseq(a, b[1..])))
  }

  /** `r` keeps exactly the elements of `s` that satisfy `p`, in their original
      order: a subsequence of `s` in which every value satisfying `p` occurs as
      often as in `s` and no other value occurs. Only one sequence meets this
      (`IsFilterOfUnique`). */
  ghost predicate IsFilterOf<T(!new)>(r: seq<T>, s: seq<T>, p: T -> bool) {
    && Subseq(r, s)
    && forall x :: multiset(r)[x] == if p(x) then multiset(s)[x] else 0
  }

  /** A subsequence never holds a value more often than the sequence. */
  lemma {:induction false} SubseqMultiset<T>(a: seq<T>, b: seq<T>)
    requires Subseq(a, b)
    ensures multiset(a) <= multiset(b)
    decreases |b|
  {
    if a != [] {
      assert b == [b[0]] + b[1..];
      if a[0] == b[0] && Subseq(a[1..], b[1..]) {
        SubseqMultiset(a[1..], b[1..]);
        assert a == [a[0]] + a[1..];
      } else {
        SubseqMultiset(a, b[1..]);
      }
    }
  }

  /** At most one sequence is a filter of `s` by `p`, so `IsFilterOf`
      determines its result completely. */
  lemma {:induction false} IsFilterOfUnique<T(!new)>(r: seq<T>, r': seq<T>, s: seq<T>, p: T -> bool)
    requires IsFilterOf(r, s, p) && IsFilterOf(r', s, p)
    ensures r == r'
    decreases |s|
  {
    if s != [] {
      var t := s[1..];
      assert s == [s[0]] + t;
      var q := FilterOfTail(r, s, p);
      var q' := FilterOfTail(r', s, p);
      IsFilterOfUnique(q, q', t, p);
    }
  }

  /** Peels the first element of `s` off a filter of `s`: what is left is a
      filter of the rest, with `s[0]` in front exactly when it passes. */
  lemma FilterOfTail<T(!new)>(r: seq<T>, s: seq<T>, p: T -> bool) returns (q: seq<T>)
    requires s != [] && IsFilterOf(r, s, p)
    ensures IsFilterOf(q, s[1..], p)
    ensures r == if p(s[0]) then [s[0]] + q else q
  {
    var x, t := s[0], s[1..];
    assert s == [x] + t;
    if p(x) {
      assert multiset(r)[x] > 0;
      if r[0] == x && Subseq(r[1..], t) {
        q := r[1..];
        assert r == [x] + q;
      } else {
        SubseqMultiset(r, t);
        assert false;
      }
    } else {
      if r != [] && r[0] == x {
        assert false;
      }
      q := r;
    }
  }

  /** `s.map(f)` */
  function Map<T, U>(s: seq<T>, f: T -> U): (r: seq<U>)
    ensures |r| == |s|
    ensures forall i :: 0 <= i < |s| ==> r[i] == f(s[i])
  {
    if s == [] then [] else [f(s[0])] + Map(s[1..], f)
  }

  /** `s.filter(p)` */
  function Filter<T(!new)>(s: seq<T>, p: T -> bool): (r: seq<T>)
    ensures |r| <= |s|
    ensures Subseq(r, s)
    ensures forall x :: multiset(r)[x] == if p(x) then multiset(s)[x] else 0
  {
    if s == [] then []
    else
      assert s == [s[0]] + s[1..];
      var rest := Filter(s[1..], p);
      if p(s[0]) then
        assert ([s[0]] + rest)[1..] == rest;
        [s[0]] + rest
      else rest
  }

  lemma FilterIsFilterOf<T(!new)>(s: seq<T>, p: T -> bool)
    ensures IsFilterOf(Filter(s, p), s, p)
  {
  }

  /** Every element of a filtered sequence comes from the input and passes. */
  lemma FilterMembers<T(!new)>(s: seq<T>, p: T -> bool, x: T)
    requires x in Filter(s, p)
    ensures x in s && p(x)
  {
    assert multiset(Filter(s, p))[x] > 0;
  }

  /** Filtering distributes over concatenation. */
  lemma {:induction false} FilterConcat<T(!new)>(a: seq<T>, b: seq<T>, p: T -> bool)
    ensures Filter(a + b, p) == Filter(a, p) + Filter(b, p)
    decreases |a|
  {
    if a == [] {
      assert a + b == b;
    } else {
      assert (a + b)[0] == a[0];
      assert (a + b)[1..] == a[1..] + b;
      FilterConcat(a[1..], b, p);
    }
  }

  /** When every element passes, filtering changes nothing. */
  lemma {:induction false} FilterKeepsAll<T(!new)>(s: seq<T>, p: T -> bool)
    requires forall i :: 0 <= i < |s| ==> p(s[i])
    ensures Filter(s, p) == s
  {
    if s != [] {
      FilterKeepsAll(s[1..], p);
      assert s == [s[0]] + s[1..];
    }
  }

  /** When no element passes, filtering yields the empty sequence. */
  lemma {:induction false} FilterDropsAll<T(!new)>(s: seq<T>, p: T -> bool)
    requires forall i :: 0 <= i < |s| ==> !p(s[i])
    ensures Filter(s, p) == []
  {
    if s != [] {
      FilterDropsAll(s[1..], p);
    }
  }

  /** Filtering by a predicate and by its complement splits `s` in two:
      the lengths add up and every element lands in exactly one part. */
  lemma FilterPartition<T(!new)>(s: seq<T>, p: T -> bool, q: T -> bool)
    requires forall x :: q(x) == !p(x)
    ensures multiset(Filter(s, p)) + multiset(Filter(s, q)) == multiset(s)
    ensures |Filter(s, p)| + |Filter(s, q)| == |s|
  {
    var a, b := Filter(s, p), Filter(s, q);
    forall x
      ensures (multiset(a) + multiset(b))[x] == multiset(s)[x]
    {
      assert q(x) == !p(x);
    }
    assert multiset(a) + multiset(b) == multiset(s);
    assert |multiset(a) + multiset(b)| == |a| + |b|;
  }

  /** Filtering keeps the whole sequence exactly when every element passes. */
  lemma {:induction false} FilterKeepsLength<T(!new)>(s: seq<T>, p: T -> bool)
    ensures |Filter(s, p)| == |s| <==> forall i :: 0 <= i < |s| ==> p(s[i])
  {
    if s != [] {
      var rest := s[1..];
      FilterKeepsLength(rest, p);
      if p(s[0]) {
        assert Filter(s, p) == [s[0]] + Filter(rest, p);
        if forall i :: 0 <= i < |rest| ==> p(rest[i]) {
          forall i | 0 <= i < |s|
            ensures p(s[i])
          {
            if i > 0 { assert s[i] == rest[i - 1]; }
          }
        }
        if forall i :: 0 <= i < |s| ==> p(s[i]) {
          forall i | 0 <= i < |rest|
            ensures p(rest[i])
          {
            assert rest[i] == s[i + 1];
          }
        }
      } else {
        assert Filter(s, p) == Filter(rest, p);
      }
    }
  }
}
