/** The fetched posting rows, the filter state the browsing screens keep, and the
    rules the two filter implementations share. */
module Records {
  import opened Wrappers
  import opened Text

  /** The club columns the browsing screens read from the joined `clubs` row. */
  datatype ClubInfo = ClubInfo(name: Option<string>, category: Option<string>)

  /** The `clubs` field of a fetched posting row. Depending on the query that
      produced the row it is missing, a single object, or an array of objects. */
  datatype ClubField = NoClub | ClubObject(club: ClubInfo) | ClubArray(clubs: seq<ClubInfo>)

  /** A posting row joined with its club. Every column may be null; `createdAt` is
      the creation timestamp in milliseconds. */
  datatype Posting = Posting(
    id: int,
    title: Option<string>,
    category: Option<string>,
    description: Option<string>,
    deadline: Option<string>,
    createdAt: Option<int>,
    clubs: ClubField)

  /** The filter state: free-text query, role category and club category, either of
      which may be the wildcard `"All"`. */
  datatype Filters = Filters(query: string, roleCategory: string, clubCategory: string)

  const Wildcard: string := "All"

  /** The state both browsing screens start from. */
  const InitialFilters: Filters := Filters("", Wildcard, Wildcard)

  /** Role categories in display order, after the wildcard. */
  const RoleCategories: seq<string> :=
    ["Engineering", "Design", "Marketing", "Product", "Operations", "Finance", "Research", "Events", "Content"]

  /** Club categories in display order, after the wildcard. */
  const ClubCategories: seq<string> :=
    ["Tech", "Business", "Cultural", "Sports", "Academic", "Community", "Arts/Media", "Student Gov"]

  /** `s ?? ""`. */
  function OrEmpty(s: Option<string>): string
  {
    s.GetOr("")
  }

  /** The club of a row as the card and the all-postings screen see it: the first
      element of an array (none when the array is empty), otherwise the value itself. */
  function NormalizeClub(field: ClubField): (c: Option<ClubInfo>)
    ensures c.Some? <==> field.ClubObject? || (field.ClubArray? && |field.clubs| > 0)
    ensures c.Some? ==> c.value == if field.ClubObject? then field.club else field.clubs[0]
  {
    match field
    case NoClub => None
    case ClubObject(club) => Some(club)
    case ClubArray(clubs) => if |clubs| > 0 then Some(clubs[0]) else None
  }

  /** The club of a row as the home screen sees it, reading `p.clubs?.category` and
      `p.clubs?.name` directly: an array has neither property, so only an object
      yields a club. */
  function ObjectClub(field: ClubField): Option<ClubInfo>
  {
    if field.ClubObject? then Some(field.club) else None
  }

  /** The two readings of the `clubs` field differ only on array-shaped rows. */
  lemma NormalizeAgreesOnObjects(field: ClubField)
    ensures NormalizeClub(field) == ObjectClub(field) <==> !field.ClubArray? || |field.clubs| == 0
  {
  }

  /** `club?.category ?? ""`. */
  function ClubCategoryOf(club: Option<ClubInfo>): string
  {
    if club.Some? then OrEmpty(club.value.category) else ""
  }

  /** `club?.name ?? ""`. */
  function ClubNameOf(club: Option<ClubInfo>): string
  {
    if club.Some? then OrEmpty(club.value.name) else ""
  }

  /** `query.trim().toLowerCase()`. */
  function NormalizeQuery(query: string): string
  {
    Lower(Trim(query))
  }

  /** The normalised query is empty exactly when the query is blank. */
  lemma NormalizeQueryEmpty(query: string)
    ensures NormalizeQuery(query) == "" <==> Trim(query) == ""
  {
  }

  /** Two queries that differ only in ASCII letter case, or only in surrounding
      whitespace, normalise to the same search key. */
  lemma NormalizeQueryInvariance(q1: string, q2: string)
    requires Lower(q1) == Lower(q2) || Trim(q1) == Trim(q2)
    ensures NormalizeQuery(q1) == NormalizeQuery(q2)
  {
    LowerTrimCommute(q1);
    LowerTrimCommute(q2);
  }

  /** `(text ?? "").toLowerCase().includes(q)`. */
  predicate Hits(q: string, text: string)
  {
    Contains(Lower(text), q)
  }

  /** The role rule: wildcard, or the posting's category (null read as `""`) equals it. */
  predicate RoleOk(role: string, p: Posting)
  {
    role == Wildcard || OrEmpty(p.category) == role
  }

  /** The club rule: wildcard, or the club's category (missing read as `""`) equals it. */
  predicate ClubOk(clubCategory: string, club: Option<ClubInfo>)
  {
    clubCategory == Wildcard || ClubCategoryOf(club) == clubCategory
  }
}
