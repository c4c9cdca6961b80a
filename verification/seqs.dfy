/** Order-preserving selection over sequences: JavaScript's `Array.prototype.filter`. */
module Seqs {

  /** `s.filter(f)`: the elements of `s` that satisfy `f`, in their original order,
      each as often as it occurs in `s`. */
  function Filter<T(!new)>(f: T -> bool, s: seq<T>): (r: seq<T>)
    ensures |r| <= |s|
    ensures forall x :: x in r <==> x in s && f(x)
  {
    if s == [] then []
    else
      assert s == [s[0]] + s[1..];
      (if f(s[0]) then [s[0]] else []) + Filter(f, s[1..])
  }

  /** Each selected element occurs as often as in the input; the others not at all. */
  lemma {:induction false} FilterCounts<T(!new)>(f: T -> bool, s: seq<T>)
    ensures forall x :: multiset(Filter(f, s))[x] == if f(x) then multiset(s)[x] else 0
  {
    if s != [] {
      FilterCounts(f, s[1..]);
      assert s == [s[0]] + s[1..];
    }
  }

  /** `a` can be obtained from `b` by deleting elements. */
  ghost predicate IsSubseq<T(!new)>(a: seq<T>, b: seq<T>)
    decreases |b|
  {
    a == [] || (b != [] && ((a[0] == b[0] && IsSubseq(a[1..], b[1..])) || IsSubseq(a, b[1..])))
  }

  lemma {:induction false} SubseqRefl<T(!new)>(s: seq<T>)
    ensures IsSubseq(s, s)
  {
    if s != [] {
      SubseqRefl(s[1..]);
    }
  }

  lemma FilterCons<T(!new)>(f: T -> bool, x: T, s: seq<T>)
    ensures Filter(f, [x] + s) == (if f(x) then [x] else []) + Filter(f, s)
  {
    assert ([x] + s)[1..] == s;
  }

  /** Two adjacent elements that are not both selected can trade places without
      changing the selection. */
  lemma FilterSwap<T(!new)>(f: T -> bool, a: T, b: T, s: seq<T>)
    requires !(f(a) && f(b))
    ensures Filter(f, [a] + ([b] + s)) == Filter(f, [b] + ([a] + s))
  {
    FilterCons(f, a, [b] + s);
    FilterCons(f, b, s);
    FilterCons(f, b, [a] + s);
    FilterCons(f, a, s);
  }

  /** Filtering keeps relative order and adds nothing. */
  lemma {:induction false} FilterIsSubseq<T(!new)>(f: T -> bool, s: seq<T>)
    ensures IsSubseq(Filter(f, s), s)
  {
    if s != [] {
      FilterIsSubseq(f, s[1..]);
      var r := Filter(f, s);
      if f(s[0]) {
        assert r[0] == s[0] && r[1..] == Filter(f, s[1..]);
      } else {
        assert r == Filter(f, s[1..]);
      }
    }
  }

  /** When every element passes, filtering is the identity. */
  lemma {:induction false} FilterKeepsAll<T(!new)>(f: T -> bool, s: seq<T>)
    requires forall x :: x in s ==> f(x)
    ensures Filter(f, s) == s
  {
    if s != [] {
      assert s[0] in s;
      FilterKeepsAll(f, s[1..]);
    }
  }

  /** When no element passes, filtering yields the empty sequence. */
  lemma FilterDropsAll<T(!new)>(f: T -> bool, s: seq<T>)
    requires forall x :: x in s ==> !f(x)
    ensures Filter(f, s) == []
  {
    if Filter(f, s) != [] {
      assert Filter(f, s)[0] in Filter(f, s);
    }
  }

  /** Filtering twice with the same predicate is filtering once. */
  lemma FilterIdempotent<T(!new)>(f: T -> bool, s: seq<T>)
    ensures Filter(f, Filter(f, s)) == Filter(f, s)
  {
    FilterKeepsAll(f, Filter(f, s));
  }

  /** Predicates that agree on the elements of `s` select the same elements. */
  lemma {:induction false} FilterCongruent<T(!new)>(f: T -> bool, g: T -> bool, s: seq<T>)
    requires forall x :: x in s ==> f(x) == g(x)
    ensures Filter(f, s) == Filter(g, s)
  {
    if s != [] {
      assert s[0] in s;
      FilterCongruent(f, g, s[1..]);
    }
  }

  /** Two filters in sequence are one filter by the conjunction. */
  lemma {:induction false} FilterFuse<T(!new)>(f: T -> bool, g: T -> bool, h: T -> bool, s: seq<T>)
    requires forall x :: x in s ==> h(x) == (f(x) && g(x))
    ensures Filter(g, Filter(f, s)) == Filter(h, s)
  {
    if s != [] {
      assert s[0] in s;
      FilterFuse(f, g, h, s[1..]);
      var t := Filter(f, s[1..]);
      if f(s[0]) {
        assert Filter(f, s) == [s[0]] + t;
        FilterCons(g, s[0], t);
      } else {
        assert Filter(f, s) == t;
      }
    }
  }
}
