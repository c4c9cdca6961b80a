/** The home screen's posting filter: one pass over the fetched rows testing the
    role, club and text rules together. */
module HomeScreen {
  import opened Wrappers
  import opened Text
  import opened Seqs
  import opened Records

  /** `roleOk && clubOk && queryOk` for one posting, given the normalised query `q`. */
  predicate Matches(f: Filters, q: string, p: Posting)
  {
    var club := ObjectClub(p.clubs);
    && RoleOk(f.roleCategory, p)
    && ClubOk(f.clubCategory, club)
    && (q == "" || Hits(q, OrEmpty(p.title)) || Hits(q, OrEmpty(p.description)) || Hits(q, ClubNameOf(club)))
  }

  function Matcher(f: Filters, q: string): Posting -> bool
  {
    (p: Posting) => Matches(f, q, p)
  }

  /** `filteredPostings`: the postings that pass all three rules, in fetch order. */
  function FilteredPostings(postings: seq<Posting>, f: Filters): (r: seq<Posting>)
    ensures forall p :: p in r <==> p in postings && Matches(f, NormalizeQuery(f.query), p)
    ensures forall p :: multiset(r)[p] == if Matches(f, NormalizeQuery(f.query), p) then multiset(postings)[p] else 0
    ensures IsSubseq(r, postings)
  {
    var m := Matcher(f, NormalizeQuery(f.query));
    FilterIsSubseq(m, postings);
    FilterCounts(m, postings);
    Filter(m, postings)
  }

  /** With a blank query and both categories at the wildcard, every posting is shown. */
  lemma FilterIdentity(postings: seq<Posting>, f: Filters)
    requires Trim(f.query) == "" && f.roleCategory == Wildcard && f.clubCategory == Wildcard
    ensures FilteredPostings(postings, f) == postings
  {
    NormalizeQueryEmpty(f.query);
    FilterKeepsAll(Matcher(f, NormalizeQuery(f.query)), postings);
  }

  /** Filtering the output again with the same filters changes nothing. */
  lemma FilterIdempotent(postings: seq<Posting>, f: Filters)
    ensures FilteredPostings(FilteredPostings(postings, f), f) == FilteredPostings(postings, f)
  {
    Seqs.FilterIdempotent(Matcher(f, NormalizeQuery(f.query)), postings);
  }

  /** Filter states whose queries normalise alike select the same postings. */
  lemma SameKeySameResult(postings: seq<Posting>, f: Filters, g: Filters)
    requires f.roleCategory == g.roleCategory && f.clubCategory == g.clubCategory
    requires NormalizeQuery(f.query) == NormalizeQuery(g.query)
    ensures FilteredPostings(postings, f) == FilteredPostings(postings, g)
  {
    FilterCongruent(Matcher(f, NormalizeQuery(f.query)), Matcher(g, NormalizeQuery(g.query)), postings);
  }

  /** Queries that differ only in ASCII letter case give the same output. */
  lemma FilterCaseInsensitive(postings: seq<Posting>, f: Filters, query: string)
    requires Lower(query) == Lower(f.query)
    ensures FilteredPostings(postings, f.(query := query)) == FilteredPostings(postings, f)
  {
    NormalizeQueryInvariance(query, f.query);
    SameKeySameResult(postings, f.(query := query), f);
  }

  /** Whitespace around the query does not change the output. */
  lemma FilterIgnoresQueryPadding(postings: seq<Posting>, f: Filters, before: string, after: string)
    requires AllSpace(before) && AllSpace(after)
    ensures FilteredPostings(postings, f.(query := before + f.query + after)) == FilteredPostings(postings, f)
  {
    TrimIgnoresPadding(before, f.query, after);
    NormalizeQueryInvariance(before + f.query + after, f.query);
    SameKeySameResult(postings, f.(query := before + f.query + after), f);
  }

  /** A posting without a club is hidden whenever a concrete, non-empty club category
      is selected. */
  lemma NullClubHiddenByClubCategory(postings: seq<Posting>, f: Filters, p: Posting)
    requires p.clubs.NoClub?
    requires f.clubCategory != Wildcard && f.clubCategory != ""
    ensures p !in FilteredPostings(postings, f)
  {
  }

  /** A posting without a club matches a non-blank query only through its title or
      description. */
  lemma NullClubMatchesByOwnText(postings: seq<Posting>, f: Filters, p: Posting)
    requires p.clubs.NoClub? && p in FilteredPostings(postings, f)
    requires Trim(f.query) != ""
    ensures Hits(NormalizeQuery(f.query), OrEmpty(p.title)) || Hits(NormalizeQuery(f.query), OrEmpty(p.description))
  {
    NormalizeQueryEmpty(f.query);
    OwnTextWithoutClub(f, NormalizeQuery(f.query), p);
  }

  /** The text rule of a posting without a club can only hold through its own text. */
  lemma OwnTextWithoutClub(f: Filters, q: string, p: Posting)
    requires p.clubs.NoClub? && Matches(f, q, p) && q != ""
    ensures Hits(q, OrEmpty(p.title)) || Hits(q, OrEmpty(p.description))
  {
    assert ClubNameOf(ObjectClub(p.clubs)) == "";
    EmptyTextNeverHits(q);
  }

  /** A non-empty key is never found in empty text. */
  lemma EmptyTextNeverHits(q: string)
    requires q != ""
    ensures !Hits(q, "")
  {
    assert Lower("") == "";
  }
}
