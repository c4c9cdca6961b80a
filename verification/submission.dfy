/** `submit`: the in-flight guard, the validation ladder, club resolution and the
    posting insert, over a store made of a clubs table and a postings list. */
module Submission {
  import opened Wrappers
  import opened Text
  import opened PostForm
  import opened ClubRegistrar

  /** A stored posting: the resolved club and the trimmed draft fields. */
  datatype PostingRecord = PostingRecord(clubId: nat, draft: PostingDraft)

  /** The two tables `submit` writes. */
  datatype Backend = Backend(clubs: ClubTable, postings: seq<PostingRecord>)

  /** The clubs table is valid and every posting refers to a stored club. */
  ghost predicate Consistent(db: Backend)
  {
    && ValidTable(db.clubs)
    && forall i :: 0 <= i < |db.postings| ==> HasClub(db.clubs, db.postings[i].clubId)
  }

  /** How a press of the submit button ends. */
  datatype SubmitOutcome =
    | Ignored                          // a submission is already in flight
    | Rejected(reason: ValidationError) // an alert names the broken rule; no store call
    | Failed(error: RemoteError)        // the "Error" alert
    | Posted(clubId: nat)              // "Posted!" and navigation to the home screen

  datatype SubmitResult = SubmitResult(outcome: SubmitOutcome, backend: Backend)

  /** The club fields of the form, as `upsertClub` reads them. */
  function ClubRequestOf(form: FormFields): ClubRequest
  {
    ClubRequest(form.clubName, form.clubCategory, form.clubIgHandle, form.clubLogoUrl)
  }

  /** `submit`. The store's failures are the `faults` input; a club created before a
      failed posting insert is kept. */
  function Submit(isSubmitting: bool, form: FormFields, parse: string -> Option<Url>, faults: Faults, db: Backend)
    : (r: SubmitResult)
    ensures isSubmitting ==> r == SubmitResult(Ignored, db)
    ensures r.outcome.Rejected? <==> !isSubmitting && Validate(form, parse).Failure?
    ensures r.outcome.Rejected? ==> r.outcome.reason == Validate(form, parse).error && r.backend == db
    ensures r.outcome.Posted? ==>
      && Validate(form, parse).Success?
      && r.backend.postings == db.postings + [PostingRecord(r.outcome.clubId, Validate(form, parse).value)]
    ensures !r.outcome.Posted? ==> r.backend.postings == db.postings
    ensures (&& !isSubmitting && Validate(form, parse).Success?
             && !faults.lookupFails && !faults.clubInsertFails && !faults.postingInsertFails)
      ==> r.outcome.Posted?
    ensures r.outcome.Posted? ==>
      && UpsertClub(db.clubs, ClubRequestOf(form), faults).Success?
      && r.outcome.clubId == UpsertClub(db.clubs, ClubRequestOf(form), faults).value.clubId
    ensures r.outcome.Failed? ==> match r.outcome.error
      case LookupFailed => faults.lookupFails
      case ClubInsertFailed => faults.clubInsertFails
      case PostingInsertFailed => faults.postingInsertFails
    ensures |db.clubs.rows| <= |r.backend.clubs.rows| <= |db.clubs.rows| + 1
    ensures r.backend.clubs.rows[..|db.clubs.rows|] == db.clubs.rows
  {
    if isSubmitting then SubmitResult(Ignored, db)
    else match Validate(form, parse)
      case Failure(e) => SubmitResult(Rejected(e), db)
      case Success(draft) => StoreDraft(db, ClubRequestOf(form), draft, faults)
  }

  /** What `submit` does with a validated draft: resolve the club, then insert the
      posting under it. */
  function StoreDraft(db: Backend, req: ClubRequest, draft: PostingDraft, faults: Faults): (r: SubmitResult)
    ensures !faults.lookupFails && !faults.clubInsertFails && !faults.postingInsertFails ==> r.outcome.Posted?
    ensures r.outcome.Posted? || r.outcome.Failed?
    ensures r.outcome.Posted? ==>
      && UpsertClub(db.clubs, req, faults).Success?
      && r.outcome.clubId == UpsertClub(db.clubs, req, faults).value.clubId
      && r.backend.postings == db.postings + [PostingRecord(r.outcome.clubId, draft)]
    ensures r.outcome.Failed? ==> r.backend.postings == db.postings && match r.outcome.error
      case LookupFailed => faults.lookupFails
      case ClubInsertFailed => faults.clubInsertFails
      case PostingInsertFailed => faults.postingInsertFails
    ensures |db.clubs.rows| <= |r.backend.clubs.rows| <= |db.clubs.rows| + 1
    ensures r.backend.clubs.rows[..|db.clubs.rows|] == db.clubs.rows
  {
    match UpsertClub(db.clubs, req, faults)
    case Failure(err) => SubmitResult(Failed(err), db)
    case Success(res) =>
      UpsertAppendsOnly(db.clubs, req, faults);
      InsertPosting(db, res, draft, faults)
  }

  /** The posting insert, once the club is resolved: the club table is the one
      `upsertClub` left, whether or not the insert succeeds. */
  function InsertPosting(db: Backend, res: Resolved, draft: PostingDraft, faults: Faults): (r: SubmitResult)
    ensures r.backend.clubs == res.table
    ensures r.outcome.Posted? <==> !faults.postingInsertFails
    ensures r.outcome.Posted? ==> r.outcome.clubId == res.clubId
    ensures r.backend.postings == db.postings + (if r.outcome.Posted? then [PostingRecord(res.clubId, draft)] else [])
  {
    var db' := db.(clubs := res.table);
    if faults.postingInsertFails then SubmitResult(Failed(PostingInsertFailed), db')
    else SubmitResult(Posted(res.clubId), db'.(postings := db.postings + [PostingRecord(res.clubId, draft)]))
  }

  /** A stored club stays stored when rows are only appended. */
  lemma HasClubAfterAppend(t: ClubTable, t': ClubTable, id: nat)
    requires HasClub(t, id)
    requires |t.rows| <= |t'.rows| && t'.rows[..|t.rows|] == t.rows
    ensures HasClub(t', id)
  {
    var k :| 0 <= k < |t.rows| && t.rows[k].id == id;
    assert t'.rows[k] == t'.rows[..|t.rows|][k];
  }

  /** Growing the clubs table by appending, and appending a posting whose club is
      stored, keeps the store consistent. */
  lemma GrowKeepsConsistent(db: Backend, t': ClubTable, added: seq<PostingRecord>)
    requires Consistent(db) && ValidTable(t')
    requires |db.clubs.rows| <= |t'.rows| && t'.rows[..|db.clubs.rows|] == db.clubs.rows
    requires forall i :: 0 <= i < |added| ==> HasClub(t', added[i].clubId)
    ensures Consistent(Backend(t', db.postings + added))
  {
    var ps := db.postings + added;
    forall i | 0 <= i < |ps|
      ensures HasClub(t', ps[i].clubId)
    {
      if i < |db.postings| {
        assert ps[i] == db.postings[i];
        HasClubAfterAppend(db.clubs, t', db.postings[i].clubId);
      } else {
        assert ps[i] == added[i - |db.postings|];
      }
    }
  }

  /** Every outcome leaves the store consistent: no posting refers to a missing club. */
  lemma SubmitKeepsConsistent(isSubmitting: bool, form: FormFields, parse: string -> Option<Url>, faults: Faults, db: Backend)
    requires Consistent(db)
    ensures Consistent(Submit(isSubmitting, form, parse, faults, db).backend)
  {
    var req := ClubRequestOf(form);
    if !isSubmitting && Validate(form, parse).Success? && UpsertClub(db.clubs, req, faults).Success? {
      var res := UpsertClub(db.clubs, req, faults).value;
      UpsertKeepsTableValid(db.clubs, req, faults);
      UpsertResolvesName(db.clubs, req, faults);
      UpsertAppendsOnly(db.clubs, req, faults);
      InsertKeepsConsistent(db, res, Validate(form, parse).value, faults);
    }
  }

  /** The posting insert keeps the store consistent when the resolved club is stored. */
  lemma InsertKeepsConsistent(db: Backend, res: Resolved, draft: PostingDraft, faults: Faults)
    requires Consistent(db) && ValidTable(res.table) && HasClub(res.table, res.clubId)
    requires |db.clubs.rows| <= |res.table.rows| && res.table.rows[..|db.clubs.rows|] == db.clubs.rows
    ensures Consistent(InsertPosting(db, res, draft, faults).backend)
  {
    var r := InsertPosting(db, res, draft, faults);
    var added := if r.outcome.Posted? then [PostingRecord(res.clubId, draft)] else [];
    GrowKeepsConsistent(db, res.table, added);
    assert r.backend == Backend(res.table, db.postings + added);
  }

  /** A failed posting insert after a club was created leaves that club in the store
      with no posting referring to it: `submit` does not roll the club back. */
  lemma OrphanClubOnPostingFailure(form: FormFields, parse: string -> Option<Url>, faults: Faults, db: Backend)
    requires Validate(form, parse).Success?
    requires !faults.lookupFails && !faults.clubInsertFails && faults.postingInsertFails
    requires FindByName(db.clubs.rows, Trim(form.clubName)).None?
    ensures var r := Submit(false, form, parse, faults, db);
      && r.outcome == Failed(PostingInsertFailed)
      && r.backend.postings == db.postings
      && r.backend.clubs.rows == db.clubs.rows + [NewClub(db.clubs, ClubRequestOf(form))]
  {
  }

  /** A description of 19 code units after trimming is refused before any store call,
      whatever the other fields hold, once club name and title are present. */
  lemma ShortDescriptionNeverStored(form: FormFields, parse: string -> Option<Url>, faults: Faults, db: Backend)
    requires Trim(form.clubName) != "" && Trim(form.title) != ""
    requires Utf16Length(Trim(form.description)) == 19
    ensures Submit(false, form, parse, faults, db) == SubmitResult(Rejected(DescriptionTooShort), db)
  {
  }

  /** Pressing submit twice in sequence with the same form creates at most one club;
      a retry after a failed posting insert reuses the club the first attempt created. */
  lemma ResubmitCreatesAtMostOneClub(form: FormFields, parse: string -> Option<Url>, f1: Faults, f2: Faults, db: Backend)
    ensures var r1 := Submit(false, form, parse, f1, db);
      var r2 := Submit(false, form, parse, f2, r1.backend);
      && |r2.backend.clubs.rows| <= |db.clubs.rows| + 1
      && (r1.backend.clubs != db.clubs && r2.outcome.Posted? ==> r2.outcome.clubId == db.clubs.nextId)
  {
    var req := ClubRequestOf(form);
    var r1 := Submit(false, form, parse, f1, db);
    if r1.backend.clubs != db.clubs {
      var first := UpsertClub(db.clubs, req, f1).value;
      assert r1.backend.clubs == first.table;
      if !f2.lookupFails {
        UpsertTwiceCreatesAtMostOne(db.clubs, req, req, f1, f2);
      }
    }
  }
}
