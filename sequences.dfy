/** Sequence vocabulary shared by the mesh model: an optional value, the
    order-preserving filter that Swift's `filter`, `removeAll(where:)` and
    `for … where … append` loops compute, and the subsequence relation that
    says a result keeps the input's relative order. */
module Sequences {

  datatype Option<T> = None | Some(value: T)

  /** `a` is obtained from `b` by deleting elements, keeping the order of the rest. */
  ghost predicate IsSubseq<T>(a: seq<T>, b: seq<T>)
    decreases |b|
  {
    if b == [] then a == []
    else
      IsSubseq(a, b[..|b| - 1])
      || (a != [] && a[|a| - 1] == b[|b| - 1] && IsSubseq(a[..|a| - 1], b[..|b| - 1]))
  }

  lemma {:induction false} SubseqMembers<T>(a: seq<T>, b: seq<T>)
    requires IsSubseq(a, b)
    ensures |a| <= |b|
    ensures forall k :: 0 <= k < |a| ==> a[k] in b
    decreases |b|
  {
    if b != [] {
      if IsSubseq(a, b[..|b| - 1]) {
        SubseqMembers(a, b[..|b| - 1]);
      } else {
        SubseqMembers(a[..|a| - 1], b[..|b| - 1]);
        assert a == a[..|a| - 1] + [a[|a| - 1]];
      }
    }
  }

  /** Appending the same element to both sides keeps a subsequence a subsequence. */
  lemma SubseqSnoc<T>(a: seq<T>, b: seq<T>, x: T)
    requires IsSubseq(a, b)
    ensures IsSubseq(a + [x], b + [x])
    ensures IsSubseq(a, b + [x])
  {
    assert (a + [x])[..|a|] == a;
    assert (b + [x])[..|b|] == b;
  }

  /** Subsequences of two sequences concatenate to a subsequence of their concatenation. */
  lemma {:induction false} SubseqConcat<T>(a: seq<T>, b: seq<T>, a': seq<T>, b': seq<T>)
    requires IsSubseq(a, b) && IsSubseq(a', b')
    ensures IsSubseq(a + a', b + b')
    decreases |b'|
  {
    if b' == [] {
      assert a + a' == a && b + b' == b;
    } else {
      var bb := b'[..|b'| - 1];
      assert (b + b')[..|b + b'| - 1] == b + bb;
      if IsSubseq(a', bb) {
        SubseqConcat(a, b, a', bb);
      } else {
        var aa := a'[..|a'| - 1];
        SubseqConcat(a, b, aa, bb);
        assert (a + a')[..|a + a'| - 1] == a + aa;
      }
    }
  }

  /** The elements of `s` that satisfy `f`, in their order in `s`. */
  function Filter<T>(s: seq<T>, f: T -> bool): (r: seq<T>)
    ensures |r| <= |s|
    decreases |s|
  {
    if s == [] then []
    else
      Filter(s[..|s| - 1], f) + (if f(s[|s| - 1]) then [s[|s| - 1]] else [])
  }

  /** A value is kept exactly when it occurs in the input and satisfies the predicate. */
  lemma {:induction false} FilterMembership<T>(s: seq<T>, f: T -> bool, x: T)
    ensures x in Filter(s, f) <==> x in s && f(x)
    decreases |s|
  {
    if s != [] {
      var init, last := s[..|s| - 1], s[|s| - 1];
      FilterMembership(init, f, x);
      assert s == init + [last];
    }
  }

  /** Every kept element is an input element that satisfies the predicate. */
  lemma FilterElements<T>(s: seq<T>, f: T -> bool)
    ensures forall k :: 0 <= k < |Filter(s, f)| ==> Filter(s, f)[k] in s && f(Filter(s, f)[k])
  {
    forall k | 0 <= k < |Filter(s, f)| ensures Filter(s, f)[k] in s && f(Filter(s, f)[k]) {
      FilterMembership(s, f, Filter(s, f)[k]);
    }
  }

  /** A predicate that no input element satisfies keeps nothing. */
  lemma {:induction false} FilterNone<T>(s: seq<T>, f: T -> bool)
    requires forall x :: x in s ==> !f(x)
    ensures Filter(s, f) == []
  {
    if Filter(s, f) != [] {
      FilterMembership(s, f, Filter(s, f)[0]);
    }
  }

  /** Taking one more element of the input extends the filter by at most that element. */
  lemma FilterSnoc<T>(s: seq<T>, i: nat, f: T -> bool)
    requires i < |s|
    ensures Filter(s[..i + 1], f) == Filter(s[..i], f) + (if f(s[i]) then [s[i]] else [])
  {
    assert s[..i + 1][..i] == s[..i];
  }

  /** The filter keeps the order of what it keeps. */
  lemma {:induction false} FilterIsSubseq<T>(s: seq<T>, f: T -> bool)
    ensures IsSubseq(Filter(s, f), s)
    decreases |s|
  {
    if s != [] {
      var init, last := s[..|s| - 1], s[|s| - 1];
      FilterIsSubseq(init, f);
      SubseqSnoc(Filter(init, f), init, last);
      assert init + [last] == s;
      if f(last) {
        assert Filter(s, f) == Filter(init, f) + [last];
      } else {
        assert Filter(s, f) == Filter(init, f);
      }
    }
  }

  /** The filter keeps every occurrence of a kept value and no occurrence of a dropped one. */
  lemma {:induction false} FilterCount<T>(s: seq<T>, f: T -> bool, x: T)
    ensures multiset(Filter(s, f))[x] == if f(x) then multiset(s)[x] else 0
    decreases |s|
  {
    if s != [] {
      var init, last := s[..|s| - 1], s[|s| - 1];
      FilterCount(init, f, x);
      assert s == init + [last];
      assert multiset(s) == multiset(init) + multiset{last};
    }
  }

  /** Filters by predicates that agree on the input are equal. */
  lemma {:induction false} FilterExt<T>(s: seq<T>, f: T -> bool, g: T -> bool)
    requires forall x :: x in s ==> f(x) == g(x)
    ensures Filter(s, f) == Filter(s, g)
    decreases |s|
  {
    if s != [] {
      FilterExt(s[..|s| - 1], f, g);
    }
  }
}
