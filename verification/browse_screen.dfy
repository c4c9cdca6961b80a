/** The all-postings screen's filter: three order-preserving stages (role, club,
    text), each skipped when its filter is inactive. */
module BrowseScreen {
  import opened Wrappers
  import opened Text
  import opened Seqs
  import opened Records
  import HomeScreen

  /** `data ?? []`. */
  function Rows(data: Option<seq<Posting>>): seq<Posting>
  {
    data.GetOr([])
  }

  /** The search stage's test: title, club name or description contains `q`. */
  predicate SearchHit(q: string, p: Posting)
  {
    var club := NormalizeClub(p.clubs);
    Hits(q, OrEmpty(p.title)) || Hits(q, ClubNameOf(club)) || Hits(q, OrEmpty(p.description))
  }

  function RoleTest(role: string): Posting -> bool
  {
    (p: Posting) => OrEmpty(p.category) == role
  }

  function ClubTest(clubCategory: string): Posting -> bool
  {
    (p: Posting) => ClubCategoryOf(NormalizeClub(p.clubs)) == clubCategory
  }

  function SearchTest(q: string): Posting -> bool
  {
    (p: Posting) => SearchHit(q, p)
  }

  /** The role stage: kept rows are those of the selected role; the wildcard keeps all. */
  function RoleStage(rows: seq<Posting>, role: string): (r: seq<Posting>)
    ensures role == Wildcard ==> r == rows
    ensures forall p :: p in r <==> p in rows && RoleOk(role, p)
    ensures IsSubseq(r, rows)
  {
    if role != Wildcard then
      FilterIsSubseq(RoleTest(role), rows);
      Filter(RoleTest(role), rows)
    else
      SubseqRefl(rows);
      rows
  }

  /** The club stage: kept rows are those whose normalised club has the selected
      category; the wildcard keeps all. */
  function ClubStage(rows: seq<Posting>, clubCategory: string): (r: seq<Posting>)
    ensures clubCategory == Wildcard ==> r == rows
    ensures forall p :: p in r <==> p in rows && ClubOk(clubCategory, NormalizeClub(p.clubs))
    ensures IsSubseq(r, rows)
  {
    if clubCategory != Wildcard then
      FilterIsSubseq(ClubTest(clubCategory), rows);
      Filter(ClubTest(clubCategory), rows)
    else
      SubseqRefl(rows);
      rows
  }

  /** The search stage: kept rows are those whose text contains the normalised query;
      an empty query keeps all. */
  function SearchStage(rows: seq<Posting>, q: string): (r: seq<Posting>)
    ensures q == "" ==> r == rows
    ensures forall p :: p in r <==> p in rows && (q == "" || SearchHit(q, p))
    ensures IsSubseq(r, rows)
  {
    if q != "" then
      FilterIsSubseq(SearchTest(q), rows);
      Filter(SearchTest(q), rows)
    else
      SubseqRefl(rows);
      rows
  }

  /** The single-pass reading of the three stages: `role && club && text`. */
  predicate SinglePass(f: Filters, q: string, p: Posting)
  {
    RoleOk(f.roleCategory, p) && ClubOk(f.clubCategory, NormalizeClub(p.clubs)) && (q == "" || SearchHit(q, p))
  }

  function SinglePassTest(f: Filters, q: string): Posting -> bool
  {
    (p: Posting) => SinglePass(f, q, p)
  }

  /** `filtered`: the rows of `data` passed through the role, club and search stages. */
  function Filtered(data: Option<seq<Posting>>, f: Filters): seq<Posting>
  {
    var q := NormalizeQuery(f.query);
    SearchStage(ClubStage(RoleStage(Rows(data), f.roleCategory), f.clubCategory), q)
  }

  /** A stage written as `if active then filter else keep` is a filter by
      `!active || test`. */
  lemma GuardedStageIsFilter(rows: seq<Posting>, active: bool, test: Posting -> bool, h: Posting -> bool)
    requires forall p :: p in rows ==> h(p) == (!active || test(p))
    ensures (if active then Filter(test, rows) else rows) == Filter(h, rows)
  {
    if active {
      FilterCongruent(test, h, rows);
    } else {
      FilterKeepsAll(h, rows);
    }
  }

  function RoleRule(role: string): Posting -> bool
  {
    (p: Posting) => RoleOk(role, p)
  }

  function RoleClubRule(f: Filters): Posting -> bool
  {
    (p: Posting) => RoleOk(f.roleCategory, p) && ClubOk(f.clubCategory, NormalizeClub(p.clubs))
  }

  /** The three-stage chain selects exactly what one pass of `role && club && text`
      selects, in the same order. */
  lemma ChainIsSinglePass(data: Option<seq<Posting>>, f: Filters)
    ensures Filtered(data, f) == Filter(SinglePassTest(f, NormalizeQuery(f.query)), Rows(data))
  {
    var rows := Rows(data);
    var q := NormalizeQuery(f.query);
    var s1 := RoleStage(rows, f.roleCategory);
    GuardedStageIsFilter(rows, f.roleCategory != Wildcard, RoleTest(f.roleCategory), RoleRule(f.roleCategory));
    assert s1 == Filter(RoleRule(f.roleCategory), rows);
    var s2 := ClubStage(s1, f.clubCategory);
    var clubRule := (p: Posting) => ClubOk(f.clubCategory, NormalizeClub(p.clubs));
    GuardedStageIsFilter(s1, f.clubCategory != Wildcard, ClubTest(f.clubCategory), clubRule);
    FilterFuse(RoleRule(f.roleCategory), clubRule, RoleClubRule(f), rows);
    assert s2 == Filter(RoleClubRule(f), rows);
    var searchRule := (p: Posting) => q == "" || SearchHit(q, p);
    GuardedStageIsFilter(s2, q != "", SearchTest(q), searchRule);
    FilterFuse(RoleClubRule(f), searchRule, SinglePassTest(f, q), rows);
  }

  /** Missing data shows nothing. */
  lemma NoDataNoRows(f: Filters)
    ensures Filtered(None, f) == []
  {
  }

  /** The output keeps the input's relative order and adds nothing; a row is shown
      exactly when it passes all three rules. */
  lemma FilteredIsOrderedSelection(data: Option<seq<Posting>>, f: Filters)
    ensures IsSubseq(Filtered(data, f), Rows(data))
    ensures forall p :: p in Filtered(data, f) <==> p in Rows(data) && SinglePass(f, NormalizeQuery(f.query), p)
  {
    ChainIsSinglePass(data, f);
    FilterIsSubseq(SinglePassTest(f, NormalizeQuery(f.query)), Rows(data));
  }

  /** On rows whose club is an object or missing, the all-postings screen and the
      home screen show the same postings in the same order. */
  lemma AgreesWithHomeScreen(postings: seq<Posting>, f: Filters)
    requires forall p :: p in postings ==> !p.clubs.ClubArray?
    ensures Filtered(Some(postings), f) == HomeScreen.FilteredPostings(postings, f)
  {
    var q := NormalizeQuery(f.query);
    ChainIsSinglePass(Some(postings), f);
    forall p | p in postings
      ensures SinglePassTest(f, q)(p) == HomeScreen.Matcher(f, q)(p)
    {
      NormalizeAgreesOnObjects(p.clubs);
    }
    FilterCongruent(SinglePassTest(f, q), HomeScreen.Matcher(f, q), postings);
  }
}
