/** The post-a-role form: the URL scheme check, deadline formatting, the submit
    button gate and the ordered validation run by `submit`. */
module PostForm {
  import opened Wrappers
  import opened Text

  // ---------------------------------------------------------------- URLs

  /** A parsed URL: its `protocol` (the scheme followed by `:`) and everything else. */
  datatype Url = Url(protocol: string, rest: string)

  /** `isValidUrl`: the text parses, and its protocol is `http:` or `https:`. The
      parser (`new URL`, which throws on malformed text) is a parameter: `None` stands
      for the throw. */
  function IsValidUrl(parse: string -> Option<Url>, url: string): (ok: bool)
    ensures ok ==> parse(url).Some?
    ensures parse(url).Some? ==> (ok <==> parse(url).value.protocol == "http:" || parse(url).value.protocol == "https:")
  {
    match parse(url)
    case None => false
    case Some(u) => u.protocol == "http:" || u.protocol == "https:"
  }

  // ---------------------------------------------------------------- dates

  /** The fields of a JavaScript `Date` that the formatter reads: the full year, the
      zero-based month (`getMonth`) and the day of the month (`getDate`). */
  datatype CalendarDate = CalendarDate(year: int, monthIndex: int, day: int)

  /** The ranges a `Date` guarantees for its month and day. */
  predicate ValidDate(d: CalendarDate)
  {
    0 <= d.monthIndex < 12 && 1 <= d.day <= 31
  }

  predicate IsDigit(c: char)
  {
    '0' <= c <= '9'
  }

  predicate AllDigits(s: string)
  {
    forall i :: 0 <= i < |s| ==> IsDigit(s[i])
  }

  function DigitChar(d: nat): (c: char)
    requires d < 10
    ensures IsDigit(c)
  {
    ('0' as int + d) as char
  }

  /** The number a string of decimal digits denotes. */
  function DecimalValue(s: string): nat
    requires AllDigits(s)
  {
    if s == [] then 0 else DecimalValue(s[..|s| - 1]) * 10 + (s[|s| - 1] as int - '0' as int)
  }

  /** `String(n)` for a non-negative integer: its digits without leading zeros. */
  function NatToDecimal(n: nat): (s: string)
    ensures |s| >= 1 && AllDigits(s)
    ensures DecimalValue(s) == n
    ensures |s| > 1 ==> s[0] != '0'
    decreases n
  {
    if n < 10 then [DigitChar(n)]
    else
      var s := NatToDecimal(n / 10) + [DigitChar(n % 10)];
      assert s[..|s| - 1] == NatToDecimal(n / 10);
      s
  }

  lemma {:induction false} DecimalLength(n: nat)
    ensures n < 10 ==> |NatToDecimal(n)| == 1
    ensures 10 <= n < 100 ==> |NatToDecimal(n)| == 2
    ensures 1000 <= n < 10000 ==> |NatToDecimal(n)| == 4
    decreases n
  {
    if n >= 10 {
      DecimalLength(n / 10);
      if 1000 <= n {
        DecimalLength(n / 100);
      }
    }
  }

  /** `String(i)` for an integer. */
  function IntToDecimal(i: int): string
  {
    if i < 0 then "-" + NatToDecimal(-i) else NatToDecimal(i)
  }

  /** `s.padStart(2, "0")`. */
  function PadStart2(s: string): (r: string)
    ensures |r| == if |s| >= 2 then |s| else 2
    ensures r[|r| - |s|..] == s
    ensures forall i :: 0 <= i < |r| - |s| ==> r[i] == '0'
  {
    if |s| >= 2 then s else if |s| == 1 then "0" + s else "00"
  }

  /** `formatYYYYMMDD`: the year, the one-based month and the day, the last two
      zero-padded to two digits, joined by dashes. */
  function FormatYYYYMMDD(d: CalendarDate): (r: string)
    requires ValidDate(d)
    ensures 1000 <= d.year <= 9999 ==> |r| == 10 && r[4] == '-' && r[7] == '-'
  {
    var y := IntToDecimal(d.year);
    var m := PadStart2(NatToDecimal(d.monthIndex + 1));
    var dd := PadStart2(NatToDecimal(d.day));
    PaddedLength(d.monthIndex + 1);
    PaddedLength(d.day);
    DecimalLength(if d.year < 0 then -d.year else d.year);
    DashedShape(y, m, dd);
    y + ['-'] + m + ['-'] + dd
  }

  lemma DashedShape(y: string, m: string, dd: string)
    ensures |y| == 4 && |m| == 2 && |dd| == 2 ==>
      var r := y + ['-'] + m + ['-'] + dd;
      |r| == 10 && r[4] == '-' && r[7] == '-' && r[..4] == y && r[5..7] == m && r[8..] == dd
  {
  }

  lemma PaddedLength(n: nat)
    requires n < 100
    ensures |PadStart2(NatToDecimal(n))| == 2
  {
    DecimalLength(n);
  }

  /** The `YYYY-MM-DD` deadline format the postings table stores, read back. */
  function ParseYYYYMMDD(s: string): Option<CalendarDate>
  {
    if |s| == 10 && s[4] == '-' && s[7] == '-' && AllDigits(s[..4]) && AllDigits(s[5..7]) && AllDigits(s[8..]) then
      var month := DecimalValue(s[5..7]);
      var day := DecimalValue(s[8..]);
      if 1 <= month <= 12 && 1 <= day <= 31 then Some(CalendarDate(DecimalValue(s[..4]), month - 1, day)) else None
    else None
  }

  /** A padded one- or two-digit number reads back as itself. */
  lemma PaddedValue(n: nat)
    requires 1 <= n < 100
    ensures |PadStart2(NatToDecimal(n))| == 2 && AllDigits(PadStart2(NatToDecimal(n)))
    ensures DecimalValue(PadStart2(NatToDecimal(n))) == n
  {
    DecimalLength(n);
    var s := NatToDecimal(n);
    var p := PadStart2(s);
    if |s| == 1 {
      assert p == ['0', s[0]];
      assert p[..1] == ['0'];
      assert s[..0] == [];
    } else {
      assert p == s;
    }
  }

  /** Reading back a dashed date whose parts are well-formed. */
  lemma ParseDashed(y: string, m: string, dd: string)
    requires |y| == 4 && |m| == 2 && |dd| == 2
    requires AllDigits(y) && AllDigits(m) && AllDigits(dd)
    requires 1 <= DecimalValue(m) <= 12 && 1 <= DecimalValue(dd) <= 31
    ensures ParseYYYYMMDD(y + ['-'] + m + ['-'] + dd) == Some(CalendarDate(DecimalValue(y), DecimalValue(m) - 1, DecimalValue(dd)))
  {
    DashedShape(y, m, dd);
  }

  /** For a non-negative year, the formatted date is the year's digits, the padded
      month and the padded day, joined by dashes. */
  lemma FormatParts(d: CalendarDate)
    requires ValidDate(d) && d.year >= 0
    ensures FormatYYYYMMDD(d) ==
      NatToDecimal(d.year) + ['-'] + PadStart2(NatToDecimal(d.monthIndex + 1)) + ['-'] + PadStart2(NatToDecimal(d.day))
  {
  }

  /** The three parts of a date with a four-digit year are digit strings of widths
      4, 2 and 2 that read back as the year, the one-based month and the day. */
  lemma PartsReadBack(d: CalendarDate)
    requires ValidDate(d) && 1000 <= d.year <= 9999
    ensures var y := NatToDecimal(d.year);
      |y| == 4 && AllDigits(y) && DecimalValue(y) == d.year
    ensures var m := PadStart2(NatToDecimal(d.monthIndex + 1));
      |m| == 2 && AllDigits(m) && DecimalValue(m) == d.monthIndex + 1
    ensures var dd := PadStart2(NatToDecimal(d.day));
      |dd| == 2 && AllDigits(dd) && DecimalValue(dd) == d.day
  {
    DecimalLength(d.year);
    PaddedValue(d.monthIndex + 1);
    PaddedValue(d.day);
  }

  /** For four-digit years, formatting and reading back give the same date. */
  lemma FormatRoundTrip(d: CalendarDate)
    requires ValidDate(d) && 1000 <= d.year <= 9999
    ensures ParseYYYYMMDD(FormatYYYYMMDD(d)) == Some(d)
  {
    FormatParts(d);
    PartsReadBack(d);
    ParseDashed(NatToDecimal(d.year), PadStart2(NatToDecimal(d.monthIndex + 1)), PadStart2(NatToDecimal(d.day)));
  }

  // ---------------------------------------------------------------- the form

  /** The text fields of the form, as typed. */
  datatype FormFields = FormFields(
    clubName: string,
    clubIgHandle: string,
    clubLogoUrl: string,
    clubCategory: string,
    title: string,
    roleCategory: string,
    deadline: string,
    applyUrl: string,
    igPostUrl: string,
    description: string)

  /** `canSubmit`: the condition that enables the submit button. Lengths are
      JavaScript's, in UTF-16 code units. */
  predicate CanSubmit(form: FormFields)
  {
    && Utf16Length(Trim(form.clubName)) >= 2
    && Utf16Length(Trim(form.title)) >= 3
    && Utf16Length(Trim(form.description)) >= 20
    && Utf16Length(Trim(form.applyUrl)) > 0
    && Utf16Length(Trim(form.igPostUrl)) > 0
    && Utf16Length(Trim(form.deadline)) > 0
  }

  /** The rules `submit` checks, each named by the failure it reports, in the order
      it checks them. */
  datatype ValidationError =
    | MissingClubName
    | MissingTitle
    | DescriptionTooShort
    | MissingDeadline
    | InvalidApplyUrl
    | InvalidIgPostUrl

  /** The position of a rule in the order `submit` checks it. */
  function Rank(e: ValidationError): nat
  {
    match e
    case MissingClubName => 0
    case MissingTitle => 1
    case DescriptionTooShort => 2
    case MissingDeadline => 3
    case InvalidApplyUrl => 4
    case InvalidIgPostUrl => 5
  }

  /** The fewest UTF-16 code units of trimmed description `submit` accepts. */
  const MinDescriptionLength: nat := 20

  /** Whether `form` satisfies the rule whose failure is `e`. */
  predicate Passes(form: FormFields, parse: string -> Option<Url>, e: ValidationError)
  {
    match e
    case MissingClubName => Trim(form.clubName) != ""
    case MissingTitle => Trim(form.title) != ""
    case DescriptionTooShort => Utf16Length(Trim(form.description)) >= MinDescriptionLength
    case MissingDeadline => Trim(form.deadline) != ""
    case InvalidApplyUrl => IsValidUrl(parse, Trim(form.applyUrl))
    case InvalidIgPostUrl => IsValidUrl(parse, Trim(form.igPostUrl))
  }

  /** The title and message of the alert `submit` shows for a failed rule. */
  function Alert(e: ValidationError): (string, string)
  {
    match e
    case MissingClubName => ("Missing club name", "Please enter the club name.")
    case MissingTitle => ("Missing role title", "Please enter the role title.")
    case DescriptionTooShort => ("Description too short", "Please add at least ~20 characters.")
    case MissingDeadline => ("Missing deadline", "Please pick a deadline date.")
    case InvalidApplyUrl => ("Invalid apply link", "Please paste a valid https:// link.")
    case InvalidIgPostUrl => ("Invalid IG post URL", "Please paste a valid https:// Instagram post URL.")
  }

  /** Each rule has its own alert title, so the alert names the rule that failed. */
  lemma AlertIdentifiesRule(e1: ValidationError, e2: ValidationError)
    requires Alert(e1).0 == Alert(e2).0
    ensures e1 == e2
  {
  }

  /** The posting columns `submit` derives from the form once it is valid. */
  datatype PostingDraft = PostingDraft(
    title: string,
    category: string,
    description: string,
    deadline: string,
    applyUrl: string,
    igPostUrl: string)

  lemma EveryRulePasses(form: FormFields, parse: string -> Option<Url>)
    requires Passes(form, parse, MissingClubName) && Passes(form, parse, MissingTitle)
    requires Passes(form, parse, DescriptionTooShort) && Passes(form, parse, MissingDeadline)
    requires Passes(form, parse, InvalidApplyUrl) && Passes(form, parse, InvalidIgPostUrl)
    ensures forall e :: Passes(form, parse, e)
  {
    forall e ensures Passes(form, parse, e) {
      match e
      case MissingClubName =>
      case MissingTitle =>
      case DescriptionTooShort =>
      case MissingDeadline =>
      case InvalidApplyUrl =>
      case InvalidIgPostUrl =>
    }
  }

  /** The validation part of `submit`: the rules in order, the first failure
      reported; on success, the trimmed column values. */
  function Validate(form: FormFields, parse: string -> Option<Url>): (r: Result<PostingDraft, ValidationError>)
    ensures r.Success? ==> forall e :: Passes(form, parse, e)
    ensures r.Failure? ==> !Passes(form, parse, r.error)
    ensures r.Success? ==> r.value.title == Trim(form.title) && r.value.description == Trim(form.description)
    ensures r.Success? ==> r.value.applyUrl == Trim(form.applyUrl) && r.value.igPostUrl == Trim(form.igPostUrl)
    ensures r.Success? ==> r.value.deadline == Trim(form.deadline) && r.value.category == form.roleCategory
  {
    if Trim(form.clubName) == "" then Failure(MissingClubName)
    else if Trim(form.title) == "" then Failure(MissingTitle)
    else if Utf16Length(Trim(form.description)) < 20 then Failure(DescriptionTooShort)
    else if Trim(form.deadline) == "" then Failure(MissingDeadline)
    else
      var apply := Trim(form.applyUrl);
      var ig := Trim(form.igPostUrl);
      if !IsValidUrl(parse, apply) then Failure(InvalidApplyUrl)
      else if !IsValidUrl(parse, ig) then Failure(InvalidIgPostUrl)
      else
        EveryRulePasses(form, parse);
        Success(PostingDraft(Trim(form.title), form.roleCategory, Trim(form.description), Trim(form.deadline), apply, ig))
  }

  /** The reported failure is the first rule, in `submit`'s order, that the form
      breaks: every earlier rule holds. */
  lemma ValidateReportsFirstFailure(form: FormFields, parse: string -> Option<Url>, e: ValidationError)
    requires Validate(form, parse).Failure?
    requires Rank(e) < Rank(Validate(form, parse).error)
    ensures Passes(form, parse, e)
  {
    match e
    case MissingClubName =>
    case MissingTitle =>
    case DescriptionTooShort =>
    case MissingDeadline =>
    case InvalidApplyUrl =>
    case InvalidIgPostUrl =>
  }

  /** The club name, title, description and deadline rules, the ones `submit` checks
      before the links. */
  predicate FieldRulesHold(form: FormFields, parse: string -> Option<Url>)
  {
    && Trim(form.clubName) != ""
    && Trim(form.title) != ""
    && Utf16Length(Trim(form.description)) >= MinDescriptionLength
    && Trim(form.deadline) != ""
  }

  /** When the submit button is enabled, `submit` passes the club name, title,
      description and deadline rules; only a link rule can still fail. */
  lemma CanSubmitPassesFieldRules(form: FormFields, parse: string -> Option<Url>)
    requires CanSubmit(form)
    ensures FieldRulesHold(form, parse)
    ensures Validate(form, parse).Failure? ==> Validate(form, parse).error == InvalidApplyUrl || Validate(form, parse).error == InvalidIgPostUrl
  {
  }

  /** The button gate is strictly stronger than `submit`'s own rules: giving an
      enabled form a title of one or two letters keeps `submit`'s title rule satisfied
      but disables the button. */
  lemma CanSubmitIsStricter(form: FormFields, parse: string -> Option<Url>, title: string)
    requires CanSubmit(form)
    requires 0 < Utf16Length(Trim(title)) < 3
    ensures !CanSubmit(form.(title := title))
    ensures FieldRulesHold(form.(title := title), parse)
  {
  }

  /** The same holds for the club name: giving an enabled form a club name of one code
      unit keeps `submit`'s club name rule satisfied but disables the button. */
  lemma CanSubmitIsStricterOnClubName(form: FormFields, parse: string -> Option<Url>, name: string)
    requires CanSubmit(form)
    requires Utf16Length(Trim(name)) == 1
    ensures !CanSubmit(form.(clubName := name))
    ensures FieldRulesHold(form.(clubName := name), parse)
  {
  }

  /** A description of 19 code units is rejected with the description rule once the
      club name and title are present. */
  lemma ShortDescriptionRejected(form: FormFields, parse: string -> Option<Url>)
    requires Trim(form.clubName) != "" && Trim(form.title) != ""
    requires Utf16Length(Trim(form.description)) == 19
    ensures Validate(form, parse) == Failure(DescriptionTooShort)
  {
  }

  /** Ten characters above U+FFFF are twenty code units, so a description made of ten
      such emoji meets the description rule. */
  lemma TenEmojiDescriptionAccepted(form: FormFields, parse: string -> Option<Url>)
    requires |form.description| == 10
    requires forall i :: 0 <= i < |form.description| ==> form.description[i] == '\U{1F600}'
    ensures Passes(form, parse, DescriptionTooShort)
    ensures Validate(form, parse) != Failure(DescriptionTooShort)
  {
    EmojiTextLength(form.description);
  }

  /** Text made only of U+1F600 is its own trim and counts two code units per
      character. */
  lemma EmojiTextLength(d: string)
    requires forall i :: 0 <= i < |d| ==> d[i] == '\U{1F600}'
    ensures Utf16Length(Trim(d)) == 2 * |d|
  {
    if d != [] {
      TrimOfTrimmed(d);
    }
    Utf16LengthOfAstral(d);
  }

  /** Once the earlier rules pass, an apply link that fails the URL check is what
      `submit` reports. */
  lemma BadApplyLinkReported(form: FormFields, parse: string -> Option<Url>)
    requires FieldRulesHold(form, parse)
    requires !IsValidUrl(parse, Trim(form.applyUrl))
    ensures Validate(form, parse) == Failure(InvalidApplyUrl)
  {
  }

  /** An `ftp:` URL is not a web link. */
  lemma FtpIsNotWeb(parse: string -> Option<Url>, url: string)
    requires parse(url).Some? && parse(url).value.protocol == "ftp:"
    ensures !IsValidUrl(parse, url)
  {
    var scheme := parse(url).value.protocol;
    assert scheme != "http:" by { assert scheme[0] != "http:"[0]; }
    assert scheme != "https:" by { assert scheme[0] != "https:"[0]; }
  }

  /** An `ftp:` apply link is rejected once the earlier rules pass. */
  lemma FtpApplyLinkRejected(form: FormFields, parse: string -> Option<Url>)
    requires FieldRulesHold(form, parse)
    requires parse(Trim(form.applyUrl)).Some? && parse(Trim(form.applyUrl)).value.protocol == "ftp:"
    ensures Validate(form, parse) == Failure(InvalidApplyUrl)
  {
    FtpIsNotWeb(parse, Trim(form.applyUrl));
    BadApplyLinkReported(form, parse);
  }
}
