/** `upsertClub`: resolve a club name to the identifier of an existing club, matched
    without regard to case, or create the club. */
module ClubRegistrar {
  import opened Wrappers
  import opened Text

  /** A row of the clubs table. */
  datatype ClubRecord = ClubRecord(
    id: nat,
    name: string,
    category: string,
    igHandle: Option<string>,
    logoUrl: Option<string>,
    verified: bool)

  /** The clubs table: its rows in storage order, and the identifier the store gives
      the next inserted row. */
  datatype ClubTable = ClubTable(rows: seq<ClubRecord>, nextId: nat)

  /** Identifiers are distinct and below the next one to be issued. */
  ghost predicate ValidTable(t: ClubTable)
  {
    && (forall i :: 0 <= i < |t.rows| ==> t.rows[i].id < t.nextId)
    && (forall i, j :: 0 <= i < j < |t.rows| ==> t.rows[i].id != t.rows[j].id)
  }

  /** Some row of the table carries identifier `id`. */
  ghost predicate HasClub(t: ClubTable, id: nat)
  {
    exists k :: 0 <= k < |t.rows| && t.rows[k].id == id
  }

  /** The lookup `name ILIKE <name>` without wildcard characters: equality up to ASCII
      letter case. */
  predicate NameMatches(stored: string, name: string)
  {
    Lower(stored) == Lower(name)
  }

  /** The position of the first row whose name matches, if any (`limit(1)`). */
  function FindByName(rows: seq<ClubRecord>, name: string): (r: Option<nat>)
    ensures r.Some? ==> r.value < |rows|
  {
    if rows == [] then None
    else if NameMatches(rows[0].name, name) then Some(0)
    else match FindByName(rows[1..], name)
      case None => None
      case Some(k) => Some(k + 1)
  }

  /** The lookup finds a matching row with no match before it, and finds nothing only
      when no row matches. */
  lemma {:induction false} FindFirstMatch(rows: seq<ClubRecord>, name: string)
    ensures var r := FindByName(rows, name);
      && (r.Some? ==> NameMatches(rows[r.value].name, name))
      && (r.Some? ==> forall k :: 0 <= k < r.value ==> !NameMatches(rows[k].name, name))
      && (r.None? ==> forall k :: 0 <= k < |rows| ==> !NameMatches(rows[k].name, name))
  {
    if rows != [] && !NameMatches(rows[0].name, name) {
      FindFirstMatch(rows[1..], name);
      forall k | 0 < k < |rows|
        ensures rows[k] == rows[1..][k - 1]
      {
      }
    }
  }

  /** Names that differ only in ASCII letter case find the same row. */
  lemma {:induction false} FindIgnoresCase(rows: seq<ClubRecord>, n1: string, n2: string)
    requires Lower(n1) == Lower(n2)
    ensures FindByName(rows, n1) == FindByName(rows, n2)
  {
    if rows != [] {
      FindIgnoresCase(rows[1..], n1, n2);
    }
  }

  /** The club fields of the post form, as typed. */
  datatype ClubRequest = ClubRequest(name: string, category: string, igHandle: string, logoUrl: string)

  /** `s.trim() || null`. */
  function BlankToNull(s: string): (r: Option<string>)
    ensures r.None? <==> Trim(s) == ""
    ensures r.Some? ==> r.value == Trim(s) && IsTrimmed(r.value)
  {
    if Trim(s) == "" then None else Some(Trim(s))
  }

  /** The failures of the remote calls. */
  datatype RemoteError = LookupFailed | ClubInsertFailed | PostingInsertFailed

  /** Which remote calls fail. The store's answers are an input of the model. */
  datatype Faults = Faults(lookupFails: bool, clubInsertFails: bool, postingInsertFails: bool)

  /** The identifier `upsertClub` returns and the table after the call. */
  datatype Resolved = Resolved(clubId: nat, table: ClubTable)

  /** The row `upsertClub` inserts for a name with no match. */
  function NewClub(t: ClubTable, req: ClubRequest): ClubRecord
  {
    ClubRecord(t.nextId, Trim(req.name), req.category, BlankToNull(req.igHandle), BlankToNull(req.logoUrl), false)
  }

  /** `upsertClub`. A failing remote call leaves the table as it was. */
  function UpsertClub(t: ClubTable, req: ClubRequest, faults: Faults): (r: Result<Resolved, RemoteError>)
    ensures faults.lookupFails ==> r == Failure(LookupFailed)
    ensures r.Failure? ==> r.error == (if faults.lookupFails then LookupFailed else ClubInsertFailed)
    ensures var k := FindByName(t.rows, Trim(req.name));
      !faults.lookupFails && k.Some? ==> r == Success(Resolved(t.rows[k.value].id, t))
    ensures var k := FindByName(t.rows, Trim(req.name));
      r.Success? && k.None? ==>
        && r.value.clubId == t.nextId
        && r.value.table == ClubTable(t.rows + [NewClub(t, req)], t.nextId + 1)
    ensures var k := FindByName(t.rows, Trim(req.name));
      !faults.lookupFails && k.None? ==> (r.Failure? <==> faults.clubInsertFails)
  {
    if faults.lookupFails then Failure(LookupFailed)
    else Settle(t, req, faults, FindByName(t.rows, Trim(req.name)))
  }

  /** What `upsertClub` does once the lookup has answered: return the row found, or
      insert the new club. */
  function Settle(t: ClubTable, req: ClubRequest, faults: Faults, hit: Option<nat>): (r: Result<Resolved, RemoteError>)
    requires hit.Some? ==> hit.value < |t.rows|
  {
    match hit
    case Some(k) => Success(Resolved(t.rows[k].id, t))
    case None =>
      if faults.clubInsertFails then Failure(ClubInsertFailed)
      else Success(Resolved(t.nextId, ClubTable(t.rows + [NewClub(t, req)], t.nextId + 1)))
  }

  /** Settling keeps the old rows as a prefix and adds at most one. */
  lemma SettleAppendsOnly(t: ClubTable, req: ClubRequest, faults: Faults, hit: Option<nat>)
    requires hit.Some? ==> hit.value < |t.rows|
    requires Settle(t, req, faults, hit).Success?
    ensures var t' := Settle(t, req, faults, hit).value.table;
      |t.rows| <= |t'.rows| <= |t.rows| + 1 && t'.rows[..|t.rows|] == t.rows && t'.nextId >= t.nextId
  {
    if hit.None? {
      assert (t.rows + [NewClub(t, req)])[..|t.rows|] == t.rows;
    }
  }

  /** A created club is stored under the trimmed name, unverified, with blank handle
      and logo stored as null. */
  lemma CreatedClubShape(t: ClubTable, req: ClubRequest, faults: Faults)
    requires UpsertClub(t, req, faults).Success?
    requires FindByName(t.rows, Trim(req.name)).None?
    ensures var c := UpsertClub(t, req, faults).value.table.rows[|t.rows|];
      && c.name == Trim(req.name) && IsTrimmed(c.name)
      && !c.verified
      && (c.igHandle.None? <==> Trim(req.igHandle) == "")
      && (c.logoUrl.None? <==> Trim(req.logoUrl) == "")
      && c.category == req.category
  {
  }

  /** Rows are only ever appended: the old rows are a prefix of the new ones, and at
      most one row is added. */
  lemma UpsertAppendsOnly(t: ClubTable, req: ClubRequest, faults: Faults)
    requires UpsertClub(t, req, faults).Success?
    ensures var t' := UpsertClub(t, req, faults).value.table;
      |t.rows| <= |t'.rows| <= |t.rows| + 1 && t'.rows[..|t.rows|] == t.rows && t'.nextId >= t.nextId
  {
    SettleAppendsOnly(t, req, faults, FindByName(t.rows, Trim(req.name)));
  }

  /** The table invariant survives a call. */
  lemma UpsertKeepsTableValid(t: ClubTable, req: ClubRequest, faults: Faults)
    requires ValidTable(t) && UpsertClub(t, req, faults).Success?
    ensures ValidTable(UpsertClub(t, req, faults).value.table)
  {
    var res := UpsertClub(t, req, faults).value;
    if FindByName(t.rows, Trim(req.name)).None? {
      AppendKeepsValid(t, NewClub(t, req));
      assert res.table == ClubTable(t.rows + [NewClub(t, req)], t.nextId + 1);
    } else {
      assert res.table == t;
    }
  }

  /** Appending a row that carries the next identifier keeps the table valid. */
  lemma AppendKeepsValid(t: ClubTable, c: ClubRecord)
    requires ValidTable(t) && c.id == t.nextId
    ensures ValidTable(ClubTable(t.rows + [c], t.nextId + 1))
  {
    var rows := t.rows + [c];
    forall i | 0 <= i < |rows|
      ensures rows[i].id < t.nextId + 1
    {
      if i < |t.rows| { assert rows[i] == t.rows[i]; }
    }
    forall i, j | 0 <= i < j < |rows|
      ensures rows[i].id != rows[j].id
    {
      assert rows[i] == t.rows[i];
      if j < |t.rows| { assert rows[j] == t.rows[j]; }
    }
  }

  /** After a successful call, the returned identifier names a club in the table, and
      looking the same name up again finds exactly that club. */
  lemma UpsertResolvesName(t: ClubTable, req: ClubRequest, faults: Faults)
    requires UpsertClub(t, req, faults).Success?
    ensures var res := UpsertClub(t, req, faults).value;
      var k := FindByName(res.table.rows, Trim(req.name));
      k.Some? && res.table.rows[k.value].id == res.clubId && HasClub(res.table, res.clubId)
  {
    var res := UpsertClub(t, req, faults).value;
    var name := Trim(req.name);
    if FindByName(t.rows, name).None? {
      FindFirstMatch(t.rows, name);
      var rows' := res.table.rows;
      assert rows'[..|t.rows|] == t.rows;
      FindPastMisses(rows', name, |t.rows|);
    }
    var k := FindByName(res.table.rows, name).value;
    assert res.table.rows[k].id == res.clubId;
  }

  /** When no row before position `n` matches but row `n` does, the lookup finds row `n`. */
  lemma {:induction false} FindPastMisses(rows: seq<ClubRecord>, name: string, n: nat)
    requires n < |rows| && NameMatches(rows[n].name, name)
    requires forall k :: 0 <= k < n ==> !NameMatches(rows[k].name, name)
    ensures FindByName(rows, name) == Some(n)
  {
    if n > 0 {
      FindPastMisses(rows[1..], name, n - 1);
    }
  }

  /** Resolving the same name twice in a row returns the same identifier, and the
      second call leaves the table alone: sequential calls create at most one club. */
  lemma UpsertTwiceCreatesAtMostOne(t: ClubTable, req: ClubRequest, req2: ClubRequest, f1: Faults, f2: Faults)
    requires Lower(Trim(req2.name)) == Lower(Trim(req.name))
    requires UpsertClub(t, req, f1).Success?
    requires !f2.lookupFails
    ensures var first := UpsertClub(t, req, f1).value;
      && UpsertClub(first.table, req2, f2) == Success(first)
      && |first.table.rows| <= |t.rows| + 1
  {
    var first := UpsertClub(t, req, f1).value;
    UpsertResolvesName(t, req, f1);
    FindIgnoresCase(first.table.rows, Trim(req2.name), Trim(req.name));
    UpsertAppendsOnly(t, req, f1);
  }

  // ------------------------------------------------ the lookup as the store runs it

  /** SQL `LIKE` on already-lowered text: `%` matches any run of characters, `_` any
      one character, every other pattern character itself. */
  predicate Like(text: string, pattern: string)
    decreases |text| + |pattern|
  {
    if pattern == [] then text == []
    else if pattern[0] == '%' then Like(text, pattern[1..]) || (text != [] && Like(text[1..], pattern))
    else text != [] && (pattern[0] == '_' || pattern[0] == text[0]) && Like(text[1..], pattern[1..])
  }

  /** `name ILIKE pattern`. */
  predicate ILike(stored: string, pattern: string)
  {
    Like(Lower(stored), Lower(pattern))
  }

  /** The pattern holds no wildcard character. */
  predicate NoWildcards(s: string)
  {
    forall i :: 0 <= i < |s| ==> s[i] != '%' && s[i] != '_'
  }

  /** Without wildcards, `LIKE` is plain equality. */
  lemma {:induction false} LikeWithoutWildcards(text: string, pattern: string)
    requires NoWildcards(pattern)
    ensures Like(text, pattern) <==> text == pattern
    decreases |pattern|
  {
    if pattern != [] && text != [] {
      LikeWithoutWildcards(text[1..], pattern[1..]);
      if text[1..] == pattern[1..] && text[0] == pattern[0] {
        assert text == [text[0]] + text[1..];
        assert pattern == [pattern[0]] + pattern[1..];
      }
    }
  }

  /** Lowering creates no wildcard. */
  lemma LowerKeepsNoWildcards(s: string)
    requires NoWildcards(s)
    ensures NoWildcards(Lower(s))
  {
  }

  /** For a name without `%` or `_`, the store's `ILIKE` is the case-insensitive
      equality `NameMatches`. */
  lemma ILikeIsNameMatchWithoutWildcards(stored: string, name: string)
    requires NoWildcards(name)
    ensures ILike(stored, name) <==> NameMatches(stored, name)
  {
    LowerKeepsNoWildcards(name);
    LikeWithoutWildcards(Lower(stored), Lower(name));
  }

  /** `%` matches every text. */
  lemma {:induction false} PercentMatchesAll(text: string)
    ensures Like(text, "%")
    decreases |text|
  {
    if text != [] {
      PercentMatchesAll(text[1..]);
    }
  }

  /** The first row whose name the typed name matches as an `ILIKE` pattern. */
  function FindByPattern(rows: seq<ClubRecord>, name: string): (r: Option<nat>)
    ensures r.Some? ==> r.value < |rows|
  {
    if rows == [] then None
    else if ILike(rows[0].name, name) then Some(0)
    else match FindByPattern(rows[1..], name)
      case None => None
      case Some(k) => Some(k + 1)
  }

  /** `upsertClub` as written: the typed name goes to the store as an `ILIKE` pattern. */
  function UpsertClubAsWritten(t: ClubTable, req: ClubRequest, faults: Faults): (r: Result<Resolved, RemoteError>)
    ensures faults.lookupFails ==> r == Failure(LookupFailed)
    ensures var k := FindByPattern(t.rows, Trim(req.name));
      !faults.lookupFails && k.Some? ==> r == Success(Resolved(t.rows[k.value].id, t))
  {
    if faults.lookupFails then Failure(LookupFailed)
    else Settle(t, req, faults, FindByPattern(t.rows, Trim(req.name)))
  }

  /** As written, a club typed as `%` is filed under the first club of the table,
      whatever that club is called. */
  lemma PercentNameJoinsFirstClub(t: ClubTable, req: ClubRequest, faults: Faults)
    requires |t.rows| > 0 && req.name == "%" && !faults.lookupFails
    ensures UpsertClubAsWritten(t, req, faults) == Success(Resolved(t.rows[0].id, t))
  {
    TrimOfTrimmed(req.name);
    assert Lower("%") == "%";
    PercentMatchesAll(Lower(t.rows[0].name));
    assert FindByPattern(t.rows, Trim(req.name)) == Some(0);
  }

  /** With the lookup as equality up to case, the same request creates its own club
      when no club is called `%`. */
  lemma PercentNameGetsOwnClub(t: ClubTable, req: ClubRequest, faults: Faults)
    requires req.name == "%" && !faults.lookupFails && !faults.clubInsertFails
    requires forall k :: 0 <= k < |t.rows| ==> !NameMatches(t.rows[k].name, "%")
    ensures UpsertClub(t, req, faults) == Success(Resolved(t.nextId, ClubTable(t.rows + [NewClub(t, req)], t.nextId + 1)))
  {
    TrimOfTrimmed(req.name);
    NoMatchFindsNothing(t.rows, "%");
    UpsertCreatesOnMiss(t, req, faults);
  }

  /** A lookup that finds nothing, followed by a successful insert, creates the club
      under the next identifier. */
  lemma UpsertCreatesOnMiss(t: ClubTable, req: ClubRequest, faults: Faults)
    requires FindByName(t.rows, Trim(req.name)) == None
    requires !faults.lookupFails && !faults.clubInsertFails
    ensures UpsertClub(t, req, faults) == Success(Resolved(t.nextId, ClubTable(t.rows + [NewClub(t, req)], t.nextId + 1)))
  {
  }

  /** When no row matches, the lookup finds nothing. */
  lemma {:induction false} NoMatchFindsNothing(rows: seq<ClubRecord>, name: string)
    requires forall k :: 0 <= k < |rows| ==> !NameMatches(rows[k].name, name)
    ensures FindByName(rows, name) == None
  {
    if rows != [] {
      assert !NameMatches(rows[0].name, name);
      forall k | 0 <= k < |rows[1..]|
        ensures !NameMatches(rows[1..][k].name, name)
      {
        assert rows[1..][k] == rows[k + 1];
      }
      NoMatchFindsNothing(rows[1..], name);
    }
  }
}
