/** What a posting card shows: the club name, the meta line and the description
    preview. */
module PostingCard {
  import opened Wrappers
  import opened Text
  import opened Records

  /** The name shown when the club or its name is missing. */
  const FallbackClubName: string := "UBC Club"

  /** The separator in front of each meta segment. */
  const Bullet: string := " • "

  /** JavaScript truthiness of a nullable string: present and non-empty. */
  predicate Truthy(s: Option<string>)
  {
    s.Some? && s.value != ""
  }

  /** `clubObj?.name ?? "UBC Club"`. */
  function ClubDisplayName(job: Posting): (name: string)
    ensures NormalizeClub(job.clubs).None? || NormalizeClub(job.clubs).value.name.None? ==> name == FallbackClubName
    ensures NormalizeClub(job.clubs).Some? && NormalizeClub(job.clubs).value.name.Some? ==> name == NormalizeClub(job.clubs).value.name.value
  {
    var club := NormalizeClub(job.clubs);
    if club.Some? then club.value.name.GetOr(FallbackClubName) else FallbackClubName
  }

  /** One meta segment: `prefix + value` when the value is truthy, `""` otherwise. */
  function Segment(prefix: string, value: Option<string>): (seg: string)
    requires prefix != ""
    ensures seg == "" <==> !Truthy(value)
    ensures Truthy(value) ==> StartsWith(seg, prefix) && seg[|prefix|..] == value.value
  {
    if Truthy(value) then prefix + value.value else ""
  }

  /** The meta line: club name, then the club category, role category and deadline
      segments. */
  function MetaLine(job: Posting): string
  {
    ClubDisplayName(job)
      + Segment(Bullet, ClubCategoryOf(job))
      + Segment(Bullet, job.category)
      + Segment(Bullet + "Deadline: ", job.deadline)
  }

  /** `clubObj?.category`. */
  function ClubCategoryOf(job: Posting): Option<string>
  {
    var club := NormalizeClub(job.clubs);
    if club.Some? then club.value.category else None
  }

  /** For every posting: the meta line starts with the club name, is the club name
      alone exactly when no segment is present, and ends with the deadline when there
      is one. */
  lemma MetaLineShape(job: Posting)
    ensures var line := MetaLine(job);
      var name := ClubDisplayName(job);
      && |name| <= |line| && line[..|name|] == name
      && (line == name <==> !Truthy(ClubCategoryOf(job)) && !Truthy(job.category) && !Truthy(job.deadline))
      && (Truthy(job.deadline) ==>
            var tail := Bullet + "Deadline: " + job.deadline.value;
            |tail| <= |line| && line[|line| - |tail|..] == tail)
  {
    var a := Segment(Bullet, ClubCategoryOf(job));
    var b := Segment(Bullet, job.category);
    var c := Segment(Bullet + "Deadline: ", job.deadline);
    JoinParts(ClubDisplayName(job), a, b, c);
  }

  /** The name is a prefix of `name + a + b + c`, the last part a suffix, and the
      whole is the name alone exactly when the parts are empty. */
  lemma JoinParts(name: string, a: string, b: string, c: string)
    ensures var line := name + a + b + c;
      && |name| <= |line| && line[..|name|] == name
      && (line == name <==> a == "" && b == "" && c == "")
      && |c| <= |line| && line[|line| - |c|..] == c
  {
    var line := name + a + b + c;
    assert line == name + (a + b + c);
    assert line == (name + a + b) + c;
  }


  /** Without a club category, role category or deadline, the meta line is the club
      name alone. */
  lemma MetaLineBare(job: Posting)
    requires !Truthy(job.category) && !Truthy(job.deadline)
    requires NormalizeClub(job.clubs).None? || !Truthy(NormalizeClub(job.clubs).value.category)
    ensures MetaLine(job) == ClubDisplayName(job)
  {
  }

  /** With every field present, the meta line lists them in order behind bullets. */
  lemma MetaLineFull(job: Posting, name: string, clubCategory: string, role: string, deadline: string)
    requires job.clubs == ClubObject(ClubInfo(Some(name), Some(clubCategory)))
    requires job.category == Some(role) && job.deadline == Some(deadline)
    requires clubCategory != "" && role != "" && deadline != ""
    ensures MetaLine(job) == name + " • " + clubCategory + " • " + role + " • Deadline: " + deadline
  {
  }

  /** `descriptionPreview`: the trimmed description with whitespace runs collapsed to
      single spaces; empty when the description is blank or missing. */
  function DescriptionPreview(description: Option<string>): (preview: string)
    ensures preview == "" <==> Trim(OrEmpty(description)) == ""
    ensures IsTrimmed(preview) && SingleSpaced(preview)
    ensures Words(preview) == Words(OrEmpty(description))
  {
    var raw := Trim(OrEmpty(description));
    PreviewShape(OrEmpty(description));
    if raw == "" then "" else Collapse(raw)
  }

  /** The facts behind `DescriptionPreview`'s contract. */
  lemma PreviewShape(s: string)
    ensures Trim(s) != "" ==> IsTrimmed(Collapse(Trim(s))) && SingleSpaced(Collapse(Trim(s)))
    ensures Trim(s) != "" ==> Words(Collapse(Trim(s))) == Words(s)
    ensures Trim(s) == "" ==> Words(s) == []
  {
    var raw := Trim(s);
    TrimKeepsWords(s);
    if raw != "" {
      CollapseSingleSpaced(raw);
      CollapseKeepsLast(raw);
      CollapseKeepsWords(raw);
    }
  }

  /** In the preview, the whitespace run between two parts of the description becomes
      exactly one space. */
  lemma PreviewCollapsesRun(x: string, w: string, y: string)
    requires x != [] && IsTrimmed(x)
    requires w != [] && AllSpace(w)
    requires y != [] && IsTrimmed(y)
    ensures DescriptionPreview(Some(x + w + y)) == DescriptionPreview(Some(x)) + " " + DescriptionPreview(Some(y))
  {
    var s := x + w + y;
    assert s[0] == x[0] && s[|s| - 1] == y[|y| - 1];
    TrimOfTrimmed(s);
    TrimOfTrimmed(x);
    TrimOfTrimmed(y);
    CollapseRun(x, w, y);
  }

  /** Previewing a preview changes nothing. */
  lemma PreviewIdempotent(description: Option<string>)
    ensures DescriptionPreview(Some(DescriptionPreview(description))) == DescriptionPreview(description)
  {
    var p := DescriptionPreview(description);
    TrimOfTrimmed(p);
    CollapseFixpoint(p);
  }
}
