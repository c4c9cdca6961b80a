/** The home feed's ordering: a sorted copy of the postings, newest first. */
module PostingsFeed {
  import opened Wrappers
  import opened Seqs
  import opened Records

  /** `new Date(created_at ?? 0).getTime()`, with timestamps already in milliseconds. */
  function SortKey(p: Posting): int
  {
    p.createdAt.GetOr(0)
  }

  /** Each posting is at least as new as the one after it. */
  ghost predicate NewestFirst(s: seq<Posting>)
  {
    forall i :: 0 < i < |s| ==> SortKey(s[i - 1]) >= SortKey(s[i])
  }

  lemma {:induction false} NewestFirstAllPairs(s: seq<Posting>, i: int, j: int)
    requires NewestFirst(s) && 0 <= i <= j < |s|
    ensures SortKey(s[i]) >= SortKey(s[j])
    decreases j - i
  {
    if i < j {
      NewestFirstAllPairs(s, i + 1, j);
    }
  }

  /** Places `p` in front of the first element that is not newer than it, so that
      among equal keys the element inserted last comes first. */
  function Insert(p: Posting, s: seq<Posting>): (r: seq<Posting>)
    requires NewestFirst(s)
    ensures multiset(r) == multiset(s) + multiset{p}
    ensures |r| == |s| + 1
    ensures r[0] == p || (s != [] && r[0] == s[0])
    ensures NewestFirst(r)
  {
    if s == [] || SortKey(s[0]) <= SortKey(p) then [p] + s
    else
      assert s == [s[0]] + s[1..];
      [s[0]] + Insert(p, s[1..])
  }

  /** A stable sort, newest first: the comparator `b - a` over `SortKey`. */
  function SortNewestFirst(s: seq<Posting>): (r: seq<Posting>)
    ensures multiset(r) == multiset(s)
    ensures NewestFirst(r)
  {
    if s == [] then []
    else
      assert s == [s[0]] + s[1..];
      Insert(s[0], SortNewestFirst(s[1..]))
  }

  /** `sorted`: the postings (none when the list is missing), newest first. The list
      itself is a value and cannot be changed by sorting. */
  function Sorted(postings: Option<seq<Posting>>): (r: seq<Posting>)
    ensures postings.None? ==> r == []
    ensures multiset(r) == multiset(postings.GetOr([]))
    ensures NewestFirst(r)
  {
    SortNewestFirst(postings.GetOr([]))
  }

  function WithKey(k: int): Posting -> bool
  {
    (p: Posting) => SortKey(p) == k
  }

  lemma {:induction false} InsertKeepsKeyOrder(p: Posting, s: seq<Posting>, k: int)
    requires NewestFirst(s)
    ensures Filter(WithKey(k), Insert(p, s)) == Filter(WithKey(k), [p] + s)
    decreases |s|
  {
    if !(s == [] || SortKey(s[0]) <= SortKey(p)) {
      var f := WithKey(k);
      var rest := Insert(p, s[1..]);
      InsertKeepsKeyOrder(p, s[1..], k);
      assert s == [s[0]] + s[1..];
      calc {
        Filter(f, Insert(p, s));
        Filter(f, [s[0]] + rest);
        { FilterCons(f, s[0], rest); }
        (if f(s[0]) then [s[0]] else []) + Filter(f, rest);
        (if f(s[0]) then [s[0]] else []) + Filter(f, [p] + s[1..]);
        { FilterCons(f, s[0], [p] + s[1..]); }
        Filter(f, [s[0]] + ([p] + s[1..]));
        { FilterSwap(f, s[0], p, s[1..]); }
        Filter(f, [p] + ([s[0]] + s[1..]));
      }
    }
  }

  /** The sort is stable: postings with equal timestamps keep their input order. */
  lemma {:induction false} SortIsStable(s: seq<Posting>, k: int)
    ensures Filter(WithKey(k), SortNewestFirst(s)) == Filter(WithKey(k), s)
  {
    if s != [] {
      SortIsStable(s[1..], k);
      InsertKeepsKeyOrder(s[0], SortNewestFirst(s[1..]), k);
      FilterCons(WithKey(k), s[0], SortNewestFirst(s[1..]));
      assert s == [s[0]] + s[1..];
      FilterCons(WithKey(k), s[0], s[1..]);
    }
  }

  /** A posting with no timestamp sorts as 0, so it comes after every posting with a
      positive timestamp. */
  lemma UndatedAfterDated(postings: Option<seq<Posting>>, i: int, j: int)
    requires 0 <= i < |Sorted(postings)| && 0 <= j < |Sorted(postings)|
    requires Sorted(postings)[i].createdAt.None?
    requires SortKey(Sorted(postings)[j]) > 0
    ensures j < i
  {
    if i <= j {
      NewestFirstAllPairs(Sorted(postings), i, j);
    }
  }
}
