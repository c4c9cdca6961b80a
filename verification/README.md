# Club role postings: a verified model of the listing, filtering and posting logic

Job-Searcher is a small mobile directory of open roles in student clubs. Visitors
browse postings on a home screen and on an all-postings screen. They narrow the list
by a free-text query, a role category and a club category. Club members publish new
roles through a post form, which resolves the club by name and creates it when it is
missing. This project models that logic in Dafny and proves properties of it:

- `records.dfy` (module `Records`) holds postings, clubs and filters. The joined
  club may be missing, an object, or an array; `NormalizeClub` picks the object or the
  array's first element. `Filters` holds the three filter values, with `"All"` as
  the wildcard.
- `home_screen.dfy` (module `HomeScreen`) is the home screen's one-pass filter,
  which reads the club only when it is an object.
- `browse_screen.dfy` (module `BrowseScreen`) is the all-postings screen's
  three-stage filter: role, then club, then text.
- `welcome.dfy` (module `WelcomeBar`) is the search bar's `canApply` and
  `applyFilters`.
- `posting_card.dfy` (module `PostingCard`) is the card's club name fallback, its
  meta line and its one-line description preview.
- `feed.dfy` (module `PostingsFeed`) is the home feed's stable newest-first sort.
- `post_form.dfy` (module `PostForm`) holds the URL check, the date formatter,
  `canSubmit` and the submit validation ladder.
- `club_registrar.dfy` (module `ClubRegistrar`) is `upsertClub`: a
  case-insensitive lookup, then an insert. It also holds the lookup as the store
  runs it, with the typed name as an `ILIKE` pattern (see Findings).
- `submission.dfy` (module `Submission`) is `submit`: the in-flight guard,
  validation, club resolution and the posting insert.
- `text.dfy` (module `Text`) has string helpers: `trim`, `toLowerCase`,
  `includes`, and `replace(/\s+/g, " ")`. `seqs.dfy` (module `Seqs`) has an
  order-preserving `Filter`. `wrappers.dfy` (module `Wrappers`) has `Option` and
  `Result`.

The store is a value, not a connection. The clubs table is a sequence of rows plus
the next identifier. Postings are a sequence of records. Whether each remote call
fails is an input (`Faults`). The URL parser behind `new URL` is a function
parameter. A date is its calendar fields. String lengths are JavaScript's `length`,
counted in UTF-16 code units (`Text.Utf16Length`).

`submit` checks only that the club name and title are non-empty after trimming. The
2- and 3-character limits live only in `canSubmit`, which enables the button.
`upsertClub` has no length check of its own.

## Model

| member | source | states |
|---|---|---|
| Records.NormalizeClub | app/postings.tsx:40-44 | the club of a row is the object itself, or the array's first element; it is absent exactly for a missing club or an empty array |
| Records.NormalizeAgreesOnObjects | app/postings.tsx:41-44 | reading the club as an object only (home screen) and normalising it (all-postings screen) agree exactly when the club is not a non-empty array |
| Records.NormalizeQueryEmpty | app/index.tsx:70-82 | the normalised query is empty exactly when the raw query is blank, which is when the text rule is switched off |
| Records.NormalizeQueryInvariance | app/index.tsx:70 | queries equal up to letter case, or equal after trimming, give the same search key |
| HomeScreen.FilteredPostings | app/index.tsx:69-89 | a posting is kept exactly when role, club category and text rules all hold; each posting keeps its multiplicity and the output is an in-order subsequence of the input |
| HomeScreen.FilterIdentity | app/index.tsx:39-43 | with a blank query and both categories "All" every posting is shown, in order |
| HomeScreen.FilterIdempotent | app/index.tsx:69-89 | filtering the filtered list again with the same filters changes nothing |
| HomeScreen.SameKeySameResult | app/index.tsx:70-87 | two filter states with the same categories and the same normalised query show the same postings |
| HomeScreen.FilterCaseInsensitive | app/index.tsx:70-85 | changing the letter case of the query does not change the result |
| HomeScreen.FilterIgnoresQueryPadding | app/index.tsx:70 | whitespace around the query does not change the result |
| HomeScreen.NullClubHiddenByClubCategory | app/index.tsx:77-79 | a posting with no club is hidden whenever a real club category is selected |
| HomeScreen.OwnTextWithoutClub | app/index.tsx:81-85 | for a posting without a club, the text rule with a non-empty key holds only through the title or the description |
| HomeScreen.NullClubMatchesByOwnText | app/index.tsx:81-85 | a shown posting with no club that passed a non-blank query matched on its own title or description |
| BrowseScreen.RoleStage | app/postings.tsx:66-69 | the role stage keeps exactly the rows of the selected role, in order, and keeps everything for "All" |
| BrowseScreen.ClubStage | app/postings.tsx:71-77 | the club stage keeps exactly the rows whose normalised club has the selected category, and keeps everything for "All" |
| BrowseScreen.SearchStage | app/postings.tsx:79-90 | the search stage keeps exactly the rows whose title, club name or description contains the key, and keeps everything for an empty key |
| BrowseScreen.GuardedStageIsFilter | app/postings.tsx:67-69 | a stage of the form "if active, filter by the test" is a filter by "inactive or test" |
| BrowseScreen.ChainIsSinglePass | app/postings.tsx:59-93 | the three stages together equal a single filter by role and club and text |
| BrowseScreen.NoDataNoRows | app/postings.tsx:60 | missing data shows no rows |
| BrowseScreen.FilteredIsOrderedSelection | app/postings.tsx:59-93 | the output is an in-order subsequence of the data, and a row is in it exactly when it passes all three rules |
| BrowseScreen.AgreesWithHomeScreen | app/postings.tsx:59-93 | given the same rows, none of whose clubs is an array, the all-postings filter and the home screen filter select the same list |
| WelcomeBar.ApplyFilters | components/home/welcome/Welcome.jsx:47-57 | the emitted query is the trimmed override or current query; each category is the override when given, else the current value |
| WelcomeBar.ApplyWithoutOverride | components/home/welcome/Welcome.jsx:47-57 | applying with no override emits the current state with its query trimmed |
| WelcomeBar.CanApplyIffNotInitial | components/home/welcome/Welcome.jsx:43-45 | the apply button is enabled exactly when applying would emit something other than the initial filters |
| WelcomeBar.DisabledApplyShowsAll | components/home/welcome/Welcome.jsx:43-57 | when applying is disabled, what it would emit shows every posting on the home screen |
| WelcomeBar.ApplyIsStable | components/home/welcome/Welcome.jsx:47-57 | applying the emitted filters again emits the same filters |
| PostingCard.ClubDisplayName | components/common/cards/allPostings/AllPostingsCard.jsx:8-10 | the card shows "UBC Club" when the club or its name is missing, and the club's own name otherwise |
| PostingCard.Segment | components/common/cards/allPostings/AllPostingsCard.jsx:11-13 | a meta segment is empty exactly when its value is missing or empty; otherwise it is the prefix followed by the value |
| PostingCard.MetaLineBare | components/common/cards/allPostings/AllPostingsCard.jsx:10-13 | with no club category, role category or deadline, the meta line is just the club name |
| PostingCard.MetaLineFull | components/common/cards/allPostings/AllPostingsCard.jsx:10-13 | with all parts present, the meta line is name, club category, role category and deadline, joined by " • " |
| PostingCard.MetaLineShape | components/common/cards/allPostings/AllPostingsCard.jsx:8-13 | for every posting, the meta line starts with the club name, is the club name alone exactly when no club category, role category or deadline is present, and ends with " • Deadline: " and the deadline when there is one |
| PostingCard.DescriptionPreview | components/common/cards/allPostings/AllPostingsCard.jsx:15-20 | the preview is empty exactly when the description is blank; it has no surrounding whitespace, single spaces only, and the same non-space characters in the same order |
| PostingCard.PreviewShape | components/common/cards/allPostings/AllPostingsCard.jsx:16-19 | trimming and then collapsing whitespace runs keeps every non-space character and leaves a trimmed, single-spaced string |
| PostingCard.PreviewCollapsesRun | components/common/cards/allPostings/AllPostingsCard.jsx:15-20 | a whitespace run between two trimmed parts of a description becomes exactly one space in the preview, with each part previewed on its own |
| PostingCard.PreviewIdempotent | components/common/cards/allPostings/AllPostingsCard.jsx:15-20 | previewing a preview gives the same preview |
| PostingsFeed.Sorted | components/home/PostingsFeed.tsx:19-27 | the sorted feed is a permutation of the postings (empty when they are missing), each at least as new as the next |
| PostingsFeed.SortNewestFirst | components/home/PostingsFeed.tsx:20-26 | the sort returns a permutation of its input, newest first |
| PostingsFeed.Insert | components/home/PostingsFeed.tsx:22-26 | inserting into a newest-first list adds exactly the one posting and keeps the list newest first |
| PostingsFeed.NewestFirstAllPairs | components/home/PostingsFeed.tsx:22-26 | in a newest-first list every earlier posting is at least as new as every later one |
| PostingsFeed.InsertKeepsKeyOrder | components/home/PostingsFeed.tsx:22-26 | among postings with the same timestamp, insertion puts the new one first and keeps the others in order |
| PostingsFeed.SortIsStable | components/home/PostingsFeed.tsx:20-26 | postings with equal timestamps keep their input order |
| PostingsFeed.UndatedAfterDated | components/home/PostingsFeed.tsx:24-25 | a posting without a creation time comes after every posting with a positive timestamp |
| PostForm.IsValidUrl | app/post.tsx:58-65 | a URL is accepted exactly when it parses and its protocol is "http:" or "https:"; an unparsable URL is refused |
| PostForm.NatToDecimal | app/post.tsx:68-70 | the decimal rendering of a number is a non-empty digit string with no leading zero that reads back as the number |
| PostForm.PadStart2 | app/post.tsx:69-70 | padding to width 2 keeps the string as a suffix and fills only with zeros |
| PostForm.FormatYYYYMMDD | app/post.tsx:67-72 | a date with a four-digit year renders as ten characters with dashes at positions 4 and 7 |
| PostForm.PartsReadBack | app/post.tsx:68-70 | for a four-digit year, the three parts are digit strings of widths 4, 2 and 2 that read back as the year, the one-based month and the day |
| PostForm.FormatRoundTrip | app/post.tsx:67-72 | reading the rendered "YYYY-MM-DD" back gives the same year, month and day |
| PostForm.AlertIdentifiesRule | app/post.tsx:155-182 | each validation failure has its own alert title |
| PostForm.Validate | app/post.tsx:148-199 | a form that passes yields the trimmed draft fields and satisfies every rule, the description rule counting UTF-16 code units; a refused form breaks the rule that is reported |
| PostForm.ValidateReportsFirstFailure | app/post.tsx:155-182 | the reported failure is the first broken rule in the ladder's order: every earlier rule holds |
| PostForm.CanSubmitPassesFieldRules | app/post.tsx:97-106 | when the submit button is enabled, only the two URL checks can still refuse the form |
| PostForm.CanSubmitIsStricter | app/post.tsx:97-106 | a title of 1 or 2 code units disables the button, yet the submit ladder's field rules accept it |
| PostForm.CanSubmitIsStricterOnClubName | app/post.tsx:97-106 | a club name of 1 code unit disables the button, yet the submit ladder's field rules accept it |
| PostForm.ShortDescriptionRejected | app/post.tsx:162-165 | a description of 19 code units after trimming is refused with "Description too short" once club name and title are present |
| PostForm.TenEmojiDescriptionAccepted | app/post.tsx:162-165 | a description of ten emoji above U+FFFF is 20 code units long and passes the description rule |
| PostForm.BadApplyLinkReported | app/post.tsx:173-176 | once club name, title, description and deadline pass, an apply link that fails the URL check is the reported failure |
| PostForm.FtpIsNotWeb | app/post.tsx:58-65 | a URL that parses with protocol "ftp:" is refused |
| PostForm.FtpApplyLinkRejected | app/post.tsx:173-176 | an apply link that parses with protocol "ftp:" is refused as an invalid apply link |
| ClubRegistrar.FindFirstMatch | app/post.tsx:111-115 | the lookup returns a row whose name equals the query up to letter case, with no matching row before it, and returns nothing only when no row matches |
| ClubRegistrar.FindIgnoresCase | app/post.tsx:111-115 | names that differ only in letter case find the same club |
| ClubRegistrar.BlankToNull | app/post.tsx:131-132 | a blank handle or logo becomes null; otherwise it is stored trimmed |
| ClubRegistrar.UpsertClub | app/post.tsx:108-141 | a failed lookup fails with the lookup error; a match returns the matching club's id and leaves the table unchanged; on a miss the call fails, with the insert error, exactly when the insert fails, and otherwise the one inserted row gets the next id |
| ClubRegistrar.CreatedClubShape | app/post.tsx:126-137 | a created club has the trimmed name, the chosen category and verified false; its handle and logo are null exactly when blank |
| ClubRegistrar.UpsertAppendsOnly | app/post.tsx:108-141 | the old rows stay a prefix of the table and at most one row is added |
| ClubRegistrar.UpsertKeepsTableValid | app/post.tsx:126-140 | the identifiers stay distinct and below the next one to be issued |
| ClubRegistrar.UpsertResolvesName | app/post.tsx:108-141 | after success, looking up the same name finds exactly the returned club |
| ClubRegistrar.UpsertTwiceCreatesAtMostOne | app/post.tsx:108-141 | resolving the same name (up to case) twice in a row returns the same club, and the second call adds nothing |
| ClubRegistrar.UpsertCreatesOnMiss | app/post.tsx:120-140 | when the lookup finds nothing and the insert succeeds, the club is created under the next identifier |
| ClubRegistrar.NoMatchFindsNothing | app/post.tsx:111-115 | when no stored name equals the query up to case, the lookup returns nothing |
| ClubRegistrar.LikeWithoutWildcards | app/post.tsx:114 | a pattern without `%` or `_` matches a text exactly when the two are equal |
| ClubRegistrar.ILikeIsNameMatchWithoutWildcards | app/post.tsx:114 | for a name without `%` or `_`, the store's case-insensitive pattern match is equality up to case |
| ClubRegistrar.PercentMatchesAll | app/post.tsx:114 | the pattern `%` matches every text |
| ClubRegistrar.UpsertClubAsWritten | app/post.tsx:108-141 | with the typed name used as a pattern: a failed lookup fails, and a pattern hit returns that club's id with the table unchanged |
| ClubRegistrar.PercentNameJoinsFirstClub | app/post.tsx:108-122 | as written, a club name typed as `%` resolves to the first club of any non-empty table |
| ClubRegistrar.PercentNameGetsOwnClub | app/post.tsx:108-141 | with equality up to case, the name `%` gets a new club of its own when no club is called `%` |
| Submission.Submit | app/post.tsx:143-222 | with a submission in flight nothing happens; a refused form touches no store; a valid form with no failing remote call is posted; a posted role adds exactly one posting with the trimmed draft, under the club `upsertClub` resolved; a failure names a remote call that failed; other outcomes add no posting; the clubs table only grows, by at most one row |
| Submission.StoreDraft | app/post.tsx:185-221 | a validated draft is posted when no remote call fails, under the resolved club; a failure names the remote call that failed and adds no posting |
| Submission.InsertPosting | app/post.tsx:187-215 | the clubs table stays as the lookup left it; a posting is added, under the resolved club, exactly when the insert succeeds |
| Submission.SubmitKeepsConsistent | app/post.tsx:185-215 | every outcome leaves every posting pointing at a stored club |
| Submission.OrphanClubOnPostingFailure | app/post.tsx:185-221 | a failed posting insert after a club was created keeps the new club and adds no posting |
| Submission.ShortDescriptionNeverStored | app/post.tsx:162-165 | a description of 19 code units is refused before any store call |
| Submission.ResubmitCreatesAtMostOneClub | app/post.tsx:143-222 | two submissions of the same form in a row create at most one club; a retry after a failed posting insert uses the club the first attempt created |
| Text.Trim | app/index.tsx:70 | the trimmed string has no whitespace at either end |
| Text.TrimIsInfix | app/index.tsx:70 | the trimmed string is the original with whitespace-only pieces removed from both ends |
| Text.TrimStartIsSuffix | app/index.tsx:70 | what survives the removal of leading whitespace is a suffix of the input |
| Text.TrimIdempotent | components/home/welcome/Welcome.jsx:48 | trimming twice is trimming once, so the home screen's second trim of the already trimmed query changes nothing |
| Text.LowerTrimCommute | app/postings.tsx:62 | lowering then trimming equals trimming then lowering |
| Text.CollapseSingleSpaced | components/common/cards/allPostings/AllPostingsCard.jsx:19 | replacing each whitespace run by one space leaves no whitespace but single spaces |
| Text.CollapseKeepsWords | components/common/cards/allPostings/AllPostingsCard.jsx:19 | collapsing whitespace keeps every non-space character, in order |
| Text.CollapseAppend | components/common/cards/allPostings/AllPostingsCard.jsx:19 | a part that does not end in whitespace is collapsed independently of what follows it |
| Text.CollapseRun | components/common/cards/allPostings/AllPostingsCard.jsx:19 | a whitespace run between two parts that do not touch it with whitespace is replaced by exactly one space |
| Text.CollapseFixpoint | components/common/cards/allPostings/AllPostingsCard.jsx:19 | a single-spaced string is unchanged by collapsing |
| Text.Utf16Length | app/post.tsx:99-104 | JavaScript's `length` is at least the number of characters and at most twice it, and zero only for the empty string |
| Text.Utf16LengthOfBmp | app/post.tsx:99-104 | a string with no character above U+FFFF has as many code units as characters |
| Text.Utf16LengthOfAstral | app/post.tsx:99-104 | a string of characters above U+FFFF only has two code units per character |
| Text.Utf16LengthAppend | app/post.tsx:99-104 | code units add up over concatenation |
| Seqs.Filter | app/index.tsx:72-88 | the filtered list is no longer than the input and holds exactly the input's elements that pass |
| Seqs.FilterFuse | app/postings.tsx:67-90 | filtering by one test and then another equals filtering once by both |

## Left out

- Fetching postings and clubs, refetch on focus, loading and error states, fonts,
  navigation, alerts as UI, and console logging are left out. The model starts from
  the fetched rows and ends at the outcome of a submission.
- The store's ordering of fetched rows (`order("created_at")`) is left out. The
  filters are proved for whatever order the rows arrive in.
- BrowseScreen.AgreesWithHomeScreen: the two screens are fed different columns. The
  all-postings screen's query (hooks/usePostings.ts:15) selects neither
  `description` nor the club's `category`. So on that screen any concrete club
  category empties the list, and the search never sees a description. The home
  screen also re-sorts its rows newest first. The lemma compares the two filters on
  the same rows only.
- FindByName: the lookup used by the rest of the model is equality up to ASCII case,
  which is what `ilike` does for names without `%` or `_`; the pattern behaviour for
  other names is under Findings.
- ClubRegistrar.Like: backslash escapes in patterns are not modelled. Neither is the
  REST layer's `*` alias for `%`.
- FindByName: without an ordering the store may return any match; the model picks
  the first match in table order.
- Two submissions running at the same time, which can both miss the lookup and
  create two clubs with the same name, are left out. Calls are sequential in the
  model, and `isSubmitting` is an input.
- Text.Trim: `String.prototype.trim` removes every Unicode whitespace and line
  terminator; the model removes ASCII whitespace (space, tab, line feed, vertical
  tab, form feed, carriage return).
- Text.Lower: only ASCII letters are lowered. `toLowerCase` also maps non-ASCII
  letters.
- PostForm.IsValidUrl: the WHATWG URL parser behind `new URL` is a function
  parameter, not a model of URL parsing.
- PostForm.FormatYYYYMMDD: the date is its local calendar fields. Time zones and
  the `Date` object are left out, and so are years outside 1000-9999 for the
  round-trip.
- PostingsFeed.SortKey: `created_at` is taken as an already-parsed millisecond
  timestamp. A timestamp string that `new Date` cannot parse (NaN, which makes the
  comparator inconsistent) is not modelled.
- `String(...)` conversion of non-string category or title values in the
  all-postings screen is left out; fields are strings or missing.
- The form's pickers, date picker and local UI state (open/closed dropdowns) are
  left out.
- The "Error" alert's message text, taken from the store's error, is left out; the
  outcome records which remote call failed.

## Findings

| source | as written | input that shows it | evidently intended | confidence | as-written member | corrected member |
|---|---|---|---|---|---|---|
| app/post.tsx:111-115 | the typed club name is passed to `ilike` as a pattern, so `%` and `_` in it act as wildcards | a table holding the club "Chess Club" and a post whose club name is `%`: the role is filed under "Chess Club" | a case-insensitive lookup of the exact name, which for names without `%` or `_` is what the code does | not executed; high for `%`, which SQL `ILIKE` always treats as a wildcard | ClubRegistrar.PercentNameJoinsFirstClub | ClubRegistrar.PercentNameGetsOwnClub |
