/** The journal controller: submission (`store`), the feedback page (`show`), the monthly
    history (`history`) and the long-section test they share. */
module JournalController {

  import opened Wrappers
  import opened Strings
  import opened Schema
  import opened FeedbackService
  import Seqs

  const SectionTextMax := 500

  /** The `feedback_overall` stored when no section is long enough to send to the generator. */
  const ShortEntryMessage := "今回は日記の内容がとても短かったため、英語フィードバックは生成していません。"

  // ---------------------------------------------------------------------------------------
  // Validation of a submission

  /** The `date` field of a submission: missing or blank, a string with no date in it, or a
      string read as year, month and day (which the `date` rule still checks). */
  datatype DateField = Absent | NotADate | ADate(date: Date)

  /** The request body of `store`; `sections` is `None` when the field is missing or null. */
  datatype StoreRequest = StoreRequest(date: DateField, sections: Option<seq<SectionInput>>)

  /** The validation rules a submission can break, with the index of the offending section. */
  datatype Violation =
    | DateRequired
    | DateInvalid
    | SectionsRequired
    | SectionsSize
    | NameRequired(index: nat)
    | LabelEnRequired(index: nat)
    | LabelJaRequired(index: nat)
    | TextTooLong(index: nat)
    | NoContent

  /** Laravel's `required` on a string: present, not null, and not blank after `trim`. */
  predicate Required(v: Option<string>) {
    v.Some? && PhpTrim(v.value) != ""
  }

  /** `nullable|string|max:500`: null, or at most 500 characters. */
  predicate TextWithinLimit(text: Option<string>) {
    text.None? || |text.value| <= SectionTextMax
  }

  /** The rules on one element of `sections`. */
  predicate SectionValid(section: SectionInput) {
    && Required(section.name) && Required(section.labelEn) && Required(section.labelJa)
    && TextWithinLimit(section.text)
  }

  /** The `after` hook's test: some section's text is non-blank after PHP `trim`. */
  predicate HasContent(sections: seq<SectionInput>) {
    exists i | 0 <= i < |sections| :: PhpTrim(sections[i].text.GetOr("")) != ""
  }

  /** One wildcard rule (`sections.*.name`, ...) applied to the sections from position `from`
      on: an error carrying the index for each section that fails `ok`, in index order. */
  function RuleViolations(sections: seq<SectionInput>, from: nat, ok: SectionInput -> bool,
                          error: nat -> Violation): seq<Violation>
    decreases |sections| - from
  {
    if from >= |sections| then []
    else (if ok(sections[from]) then [] else [error(from)]) + RuleViolations(sections, from + 1, ok, error)
  }

  /** A wildcard rule reports nothing exactly when every section from `from` on passes it. */
  lemma {:induction false} RuleViolationsEmpty(sections: seq<SectionInput>, from: nat,
                                               ok: SectionInput -> bool, error: nat -> Violation)
    decreases |sections| - from
    ensures RuleViolations(sections, from, ok, error) == [] <==>
      forall k | from <= k < |sections| :: ok(sections[k])
  {
    if from < |sections| {
      RuleViolationsEmpty(sections, from + 1, ok, error);
    }
  }

  predicate NamePresent(section: SectionInput) { Required(section.name) }
  predicate LabelEnPresent(section: SectionInput) { Required(section.labelEn) }
  predicate LabelJaPresent(section: SectionInput) { Required(section.labelJa) }
  predicate TextShortEnough(section: SectionInput) { TextWithinLimit(section.text) }

  function NameError(i: nat): Violation { NameRequired(i) }
  function LabelEnError(i: nat): Violation { LabelEnRequired(i) }
  function LabelJaError(i: nat): Violation { LabelJaRequired(i) }
  function TextError(i: nat): Violation { TextTooLong(i) }

  /** The errors of the field rules, in the order the rules are listed; a failed `required`
      stops the other rules of its field. */
  function FieldViolations(request: StoreRequest): seq<Violation> {
    var ss := request.sections.GetOr([]);
    (match request.date
      case Absent => [DateRequired]
      case NotADate => [DateInvalid]
      case ADate(d) => if ValidDate(d) then [] else [DateInvalid])
    + (if ss == [] then [SectionsRequired] else if |ss| != 3 then [SectionsSize] else [])
    + RuleViolations(ss, 0, NamePresent, NameError)
    + RuleViolations(ss, 0, LabelEnPresent, LabelEnError)
    + RuleViolations(ss, 0, LabelJaPresent, LabelJaError)
    + RuleViolations(ss, 0, TextShortEnough, TextError)
  }

  /** Every error of the submission: the field rules', then the `after` hook's, which runs
      on the raw `sections` whatever the field rules found. */
  function Violations(request: StoreRequest): seq<Violation> {
    FieldViolations(request) + (if HasContent(request.sections.GetOr([])) then [] else [NoContent])
  }

  /** The field rules pass exactly when there is a valid date and three sections, each with
      a name and both labels and a text of at most 500 characters. */
  lemma FieldViolationsEmpty(request: StoreRequest)
    ensures FieldViolations(request) == [] <==>
      && request.date.ADate? && ValidDate(request.date.date)
      && request.sections.Some? && |request.sections.value| == 3
      && (forall k | 0 <= k < 3 :: SectionValid(request.sections.value[k]))
  {
    var ss := request.sections.GetOr([]);
    ElementRulesPass(ss);
    var date: seq<Violation> := match request.date
      case Absent => [DateRequired]
      case NotADate => [DateInvalid]
      case ADate(d) => if ValidDate(d) then [] else [DateInvalid];
    var size: seq<Violation> := if ss == [] then [SectionsRequired] else if |ss| != 3 then [SectionsSize] else [];
    assert |FieldViolations(request)| == |date| + |size|
      + |RuleViolations(ss, 0, NamePresent, NameError)|
      + |RuleViolations(ss, 0, LabelEnPresent, LabelEnError)|
      + |RuleViolations(ss, 0, LabelJaPresent, LabelJaError)|
      + |RuleViolations(ss, 0, TextShortEnough, TextError)|;
  }

  /** The four wildcard rules all pass exactly when every section is valid. */
  lemma ElementRulesPass(ss: seq<SectionInput>)
    ensures
      && RuleViolations(ss, 0, NamePresent, NameError) == []
      && RuleViolations(ss, 0, LabelEnPresent, LabelEnError) == []
      && RuleViolations(ss, 0, LabelJaPresent, LabelJaError) == []
      && RuleViolations(ss, 0, TextShortEnough, TextError) == []
      <==> forall k | 0 <= k < |ss| :: SectionValid(ss[k])
  {
    RuleViolationsEmpty(ss, 0, NamePresent, NameError);
    RuleViolationsEmpty(ss, 0, LabelEnPresent, LabelEnError);
    RuleViolationsEmpty(ss, 0, LabelJaPresent, LabelJaError);
    RuleViolationsEmpty(ss, 0, TextShortEnough, TextError);
  }

  /** A submission is accepted exactly when the field rules pass and some text is
      non-blank; when only the content test fails, its error is the only one. */
  lemma ViolationsEmpty(request: StoreRequest)
    ensures Violations(request) == [] <==>
      && request.date.ADate? && ValidDate(request.date.date)
      && request.sections.Some? && |request.sections.value| == 3
      && (forall k | 0 <= k < 3 :: SectionValid(request.sections.value[k]))
      && HasContent(request.sections.value)
    ensures FieldViolations(request) == [] ==>
      Violations(request) == if HasContent(request.sections.GetOr([])) then [] else [NoContent]
  {
    FieldViolationsEmpty(request);
  }

  // ---------------------------------------------------------------------------------------
  // The sections sent to the generator

  /** More than two characters remain after PHP `trim` (`mb_strlen($text) > 2`). */
  predicate IsLong(section: SectionInput) {
    |PhpTrim(section.text.GetOr(""))| > 2
  }

  /** A surviving section as handed to the generator: its text replaced by the trimmed text. */
  function ForGenerator(section: SectionInput): (r: SectionInput)
    ensures r.name == section.name && r.labelEn == section.labelEn && r.labelJa == section.labelJa
    ensures r.text.Some? && (IsLong(section) ==> |r.text.value| > 2)
  {
    section.(text := Some(PhpTrim(section.text.GetOr(""))))
  }

  /** `$sectionsForLlm`: the long sections, trimmed, in input order. */
  function SectionsForLlm(sections: seq<SectionInput>): (r: seq<SectionInput>)
    ensures |r| <= |sections|
    ensures forall k :: 0 <= k < |r| ==> r[k].text.Some? && |r[k].text.value| > 2
  {
    Seqs.Map(Seqs.Filter(sections, IsLong), ForGenerator)
  }

  /** The filter works section by section and keeps order. */
  lemma SectionsForLlmConcat(a: seq<SectionInput>, b: seq<SectionInput>)
    ensures SectionsForLlm(a + b) == SectionsForLlm(a) + SectionsForLlm(b)
  {
    Seqs.FilterConcat(a, b, IsLong);
    Seqs.MapConcat(Seqs.Filter(a, IsLong), Seqs.Filter(b, IsLong), ForGenerator);
  }

  /** One section reaches the generator, trimmed, exactly when it is long. */
  lemma SectionsForLlmSingle(section: SectionInput)
    ensures SectionsForLlm([section]) == if IsLong(section) then [ForGenerator(section)] else []
  {
    Seqs.FilterSingle(section, IsLong);
  }

  /** For the three submitted sections: each reaches the generator exactly when it is long,
      and the survivors keep their order. */
  lemma SectionsForLlmTriple(a: SectionInput, b: SectionInput, c: SectionInput)
    ensures SectionsForLlm([a, b, c]) ==
      (if IsLong(a) then [ForGenerator(a)] else [])
      + (if IsLong(b) then [ForGenerator(b)] else [])
      + (if IsLong(c) then [ForGenerator(c)] else [])
  {
    Seqs.FilterMapTriple(a, b, c, IsLong, ForGenerator);
  }

  /** Some section is long: what `hasAnyLongSection` looks for. */
  predicate AnyLong(sections: seq<SectionInput>) {
    exists i | 0 <= i < |sections| :: IsLong(sections[i])
  }

  /** Something reaches the generator exactly when some section is long. */
  lemma SectionsForLlmEmpty(sections: seq<SectionInput>)
    ensures SectionsForLlm(sections) != [] <==> AnyLong(sections)
  {
    Seqs.FilterEmpty(sections, IsLong);
  }

  /** `hasAnyLongSection`: scans the sections and stops at the first long one. */
  method HasAnyLongSection(sections: seq<SectionInput>) returns (found: bool)
    ensures found <==> AnyLong(sections)
  {
    for i := 0 to |sections|
      invariant forall k :: 0 <= k < i ==> !IsLong(sections[k])
    {
      var text := PhpTrim(sections[i].text.GetOr(""));
      if |text| > 2 {
        return true;
      }
    }
    return false;
  }

  // ---------------------------------------------------------------------------------------
  // The feedback columns written by `store`

  /** The initial `$feedback` array: every column null, corrections an empty list. */
  const DefaultFeedback: Feedback := map[
    EnglishText := Null,
    FeedbackOverall := Null,
    FeedbackCorrectionsJson := List([]),
    KeyPhraseEn := Null,
    KeyPhraseJa := Null,
    KeyPhraseReasonJa := Null
  ]

  /** PHP's `array_merge` on string keys: all keys of both, and the later array wins. */
  function ArrayMerge(a: Feedback, b: Feedback): (r: Feedback)
    ensures r.Keys == a.Keys + b.Keys
    ensures forall k :: k in b ==> r[k] == b[k]
    ensures forall k :: k in a && k !in b ==> r[k] == a[k]
  {
    a + b
  }

  /** The feedback columns `store` writes for the submitted sections. */
  function FeedbackFor(sections: seq<SectionInput>): (f: Feedback)
    ensures f.Keys == FeedbackKeys
  {
    var forLlm := SectionsForLlm(sections);
    if |forLlm| == 0 then DefaultFeedback[FeedbackOverall := Str(ShortEntryMessage)]
    else ArrayMerge(DefaultFeedback, Generate(forLlm))
  }

  /** With no long section the generator is not consulted: the overall comment is the fixed
      short-entry message, corrections are empty, and the other four columns are null. */
  lemma SkippedFeedback(sections: seq<SectionInput>)
    requires SectionsForLlm(sections) == []
    ensures StringColumn(FeedbackFor(sections), FeedbackOverall) == Some(ShortEntryMessage)
    ensures ListColumn(FeedbackFor(sections), FeedbackCorrectionsJson) == Some([])
    ensures forall k :: k in {EnglishText, KeyPhraseEn, KeyPhraseJa, KeyPhraseReasonJa} ==>
      FeedbackFor(sections)[k] == Null
  {
  }

  /** The texts of the long sections, trimmed, in input order. */
  function LongTexts(sections: seq<SectionInput>): seq<string> {
    Seqs.Map(SectionsForLlm(sections), TextOf)
  }

  /** With a long section, every one of the six columns is the generator's (later keys win
      in `array_merge`), and the English text is the prefix followed by the trimmed long
      texts joined by spaces. */
  lemma GeneratedFeedback(sections: seq<SectionInput>)
    requires SectionsForLlm(sections) != []
    ensures FeedbackFor(sections) == Generate(SectionsForLlm(sections))
    ensures StringColumn(FeedbackFor(sections), EnglishText) ==
      Some(DummyEnglishPrefix + Join(LongTexts(sections), " "))
  {
    var forLlm := SectionsForLlm(sections);
    KeptTextsAllTruthy(forLlm);
    assert forLlm != [] && KeptTexts(forLlm) != [];
  }

  // ---------------------------------------------------------------------------------------
  // The journals table and `store`

  /** The unique key of the table: one entry per user and date. */
  datatype EntryKey = EntryKey(userId: UserId, date: Date)

  /** The `journals` table, as far as `store` changes it. */
  class JournalTable {
    var rows: map<EntryKey, Journal>
    var nextId: nat

    /** Each row sits under its own (user, date) key, every key's date is a valid date, and
        ids are distinct and below the next auto-increment value. */
    ghost predicate Valid()
      reads this
    {
      && KeyedByOwnDate(rows)
      && (forall k :: k in rows ==> ValidDate(k.date))
      && (forall k :: k in rows ==> rows[k].id < nextId)
      && (forall k1, k2 :: k1 in rows && k2 in rows && k1 != k2 ==> rows[k1].id != rows[k2].id)
    }

    constructor ()
      ensures Valid() && rows == map[] && nextId == 1
    {
      rows := map[];
      nextId := 1;
    }

    /** `updateOrCreate`: an existing row under `key` keeps its id and takes the new
        attributes; otherwise a row is created with the next id. Nothing else changes. */
    method UpdateOrCreate(key: EntryKey, sectionsJson: seq<SectionInput>, feedback: Feedback) returns (id: nat)
      requires Valid() && ValidDate(key.date)
      modifies this
      ensures Valid()
      ensures id == if key in old(rows) then old(rows)[key].id else old(nextId)
      ensures nextId == if key in old(rows) then old(nextId) else old(nextId) + 1
      ensures key in old(rows) ==>
        rows == old(rows)[key := old(rows)[key].(sectionsJson := sectionsJson, feedback := old(rows)[key].feedback + feedback)]
      ensures key !in old(rows) ==>
        rows == old(rows)[key := Journal(id, key.userId, key.date, sectionsJson, feedback)]
    {
      if key in rows {
        var existing := rows[key];
        id := existing.id;
        rows := rows[key := existing.(sectionsJson := sectionsJson, feedback := existing.feedback + feedback)];
      } else {
        id := nextId;
        rows := rows[key := Journal(id, key.userId, key.date, sectionsJson, feedback)];
        nextId := nextId + 1;
      }
    }

    /** `store`: a rejected submission changes nothing; an accepted one stores the sections
        verbatim with `FeedbackFor` under (user, date), replacing an earlier entry for that
        day but keeping its id, and returns the entry's id. */
    method Store(userId: UserId, request: StoreRequest) returns (r: Result<nat, seq<Violation>>)
      requires Valid()
      modifies this
      ensures Valid()
      ensures Violations(request) != [] ==>
        r == Failure(Violations(request)) && rows == old(rows) && nextId == old(nextId)
      ensures Violations(request) == [] ==>
        request.date.ADate? && ValidDate(request.date.date) && request.sections.Some?
      ensures Violations(request) == [] ==>
        var key := EntryKey(userId, request.date.date);
        var id := if key in old(rows) then old(rows)[key].id else old(nextId);
        && r == Success(id)
        && rows == old(rows)[key := Journal(id, userId, request.date.date, request.sections.value,
                                            FeedbackFor(request.sections.value))]
    {
      var errors := Violations(request);
      if errors != [] {
        return Failure(errors);
      }
      ViolationsEmpty(request);
      var sections := request.sections.value;
      var feedback := ComposeFeedback(sections);
      var key := EntryKey(userId, request.date.date);
      var id := UpdateOrCreate(key, sections, feedback);
      if key in old(rows) {
        MergeAllColumns(old(rows)[key].feedback, feedback);
      }
      return Success(id);
    }

    /** `history`: the requested month after the fallback to today's, the viewer's journals
        of that month in date order as `entries`, and the key phrases drawn from them. */
    method History(userId: UserId, year: int, month: int, today: Date) returns (page: HistoryPage)
      requires today.year >= 1 && 1 <= today.month <= 12
      ensures page.year == if year >= 1 then year else today.year
      ensures page.month == if 1 <= month <= 12 then month else today.month
      ensures 1 <= page.month <= 12
      ensures page.entries == HistoryEntries(MonthJournals(rows, userId, page.year, page.month))
      ensures page.keyPhrases == KeyPhrases(MonthJournals(rows, userId, page.year, page.month))
    {
      var y, m := ClampPeriod(year, month, today);
      var journals := MonthJournals(rows, userId, y, m);
      page := HistoryPage(y, m, HistoryEntries(journals), KeyPhrases(journals));
    }
  }

  /** Merging a complete set of feedback columns over a row's columns replaces them all. */
  lemma MergeAllColumns(stored: Feedback, columns: Feedback)
    requires columns.Keys == FeedbackKeys
    ensures stored + columns == columns
  {
    forall k | k in stored ensures k in columns {
      assert k in FeedbackKeys by {
        match k
        case EnglishText =>
        case FeedbackOverall =>
        case FeedbackCorrectionsJson =>
        case KeyPhraseEn =>
        case KeyPhraseJa =>
        case KeyPhraseReasonJa =>
      }
    }
  }

  /** The `$feedback` array `store` builds: defaults, then either the short-entry message or
      the generator's columns merged over the defaults. */
  method ComposeFeedback(sections: seq<SectionInput>) returns (feedback: Feedback)
    ensures feedback == FeedbackFor(sections)
  {
    var forLlm := SectionsForLlm(sections);
    feedback := DefaultFeedback;
    if |forLlm| == 0 {
      feedback := feedback[FeedbackOverall := Str(ShortEntryMessage)];
    } else {
      feedback := ArrayMerge(feedback, Generate(forLlm));
    }
  }

  // ---------------------------------------------------------------------------------------
  // `show`

  datatype HttpError = Forbidden

  /** The status shown with a stored entry, from its sections and its English text. */
  function StatusOf(sections: seq<SectionInput>, englishText: Option<string>): (status: FeedbackStatus)
    ensures status == SkippedShort <==> !AnyLong(sections) && englishText.None?
    ensures status == Error <==> AnyLong(sections) && englishText.None?
    ensures status == Ok <==> englishText.Some?
  {
    if !AnyLong(sections) && englishText.None? then SkippedShort
    else if AnyLong(sections) && englishText.None? then Error
    else Ok
  }

  /** The `feedback` prop built from the stored columns; a missing corrections list is empty. */
  function FeedbackDataOf(f: Feedback): FeedbackData {
    FeedbackData(
      StringColumn(f, EnglishText), StringColumn(f, FeedbackOverall),
      ListColumn(f, FeedbackCorrectionsJson).GetOr([]),
      StringColumn(f, KeyPhraseEn), StringColumn(f, KeyPhraseJa), StringColumn(f, KeyPhraseReasonJa))
  }

  /** `show`: 403 for anyone but the owner; for the owner the stored sections and feedback
      with exactly one of the three statuses. */
  method Show(viewer: UserId, journal: Journal) returns (r: Result<FeedbackEntry, HttpError>)
    ensures r.Failure? <==> journal.userId != viewer
    ensures r.Failure? ==> r.error == Forbidden
    ensures r.Success? ==>
      && r.value.id == journal.id && r.value.date == journal.date
      && r.value.sections == journal.sectionsJson
      && r.value.feedback == FeedbackDataOf(journal.feedback)
      && r.value.feedbackStatus == StatusOf(journal.sectionsJson, StringColumn(journal.feedback, EnglishText))
  {
    if journal.userId != viewer {
      return Failure(Forbidden);
    }
    var sections := journal.sectionsJson;
    var hasAnyLongSection := HasAnyLongSection(sections);
    var englishText := StringColumn(journal.feedback, EnglishText);
    var status := Ok;
    if !hasAnyLongSection && englishText.None? {
      status := SkippedShort;
    } else if hasAnyLongSection && englishText.None? {
      status := Error;
    }
    return Success(FeedbackEntry(journal.id, journal.date, sections, FeedbackDataOf(journal.feedback), status));
  }

  /** An entry written by `store` is never shown as an error: it is `skipped_short` when no
      section was long and `ok` otherwise, because the generator's English text is never null. */
  lemma StoredEntryStatus(sections: seq<SectionInput>)
    ensures StatusOf(sections, StringColumn(FeedbackFor(sections), EnglishText)) ==
      if SectionsForLlm(sections) == [] then SkippedShort else Ok
  {
    SectionsForLlmEmpty(sections);
    if SectionsForLlm(sections) == [] {
      SkippedFeedback(sections);
    } else {
      GeneratedFeedback(sections);
    }
  }

  // ---------------------------------------------------------------------------------------
  // `history`

  /** The requested month and year after the fallback to today's: a month outside 1..12 is
      replaced by the current month, a year below 1 by the current year. */
  method ClampPeriod(year: int, month: int, today: Date) returns (y: int, m: int)
    requires today.year >= 1 && 1 <= today.month <= 12
    ensures 1 <= m <= 12 && y >= 1
    ensures m == if 1 <= month <= 12 then month else today.month
    ensures y == if year >= 1 then year else today.year
  {
    y, m := year, month;
    if m < 1 || m > 12 {
      m := today.month;
    }
    if y < 1 {
      y := today.year;
    }
  }

  /** The user's journals of a month as the query returns them: the rows keyed by that user
      and a date of the month, day by day from `day` on. */
  function MonthJournalsFrom(rows: map<EntryKey, Journal>, userId: UserId, year: int, month: int, day: nat): seq<Journal>
    requires 1 <= month <= 12
    decreases DaysInMonth(year, month) + 1 - day
  {
    if day > DaysInMonth(year, month) || day == 0 then []
    else
      var key := EntryKey(userId, Date(year, month, day));
      (if key in rows then [rows[key]] else []) + MonthJournalsFrom(rows, userId, year, month, day + 1)
  }

  /** The query of `history`: the user's journals dated within the month, ordered by date. */
  function MonthJournals(rows: map<EntryKey, Journal>, userId: UserId, year: int, month: int): seq<Journal>
    requires 1 <= month <= 12
  {
    MonthJournalsFrom(rows, userId, year, month, 1)
  }

  /** Each row is stored under the key made of its own user and date. */
  ghost predicate KeyedByOwnDate(rows: map<EntryKey, Journal>) {
    forall k :: k in rows ==> rows[k].userId == k.userId && rows[k].date == k.date
  }

  /** `a` has an earlier date than `b`. */
  predicate DateBefore(a: Journal, b: Journal) {
    Before(a.date, b.date)
  }

  /** Dates strictly increase along `journals`. */
  ghost predicate Ascending(journals: seq<Journal>) {
    forall i, j :: 0 <= i < j < |journals| ==> DateBefore(journals[i], journals[j])
  }

  /** Dates strictly decrease along `journals`. */
  ghost predicate Descending(journals: seq<Journal>) {
    forall i, j :: 0 <= i < j < |journals| ==> DateBefore(journals[j], journals[i])
  }

  /** From `day` on, the query returns the user's rows dated in that month on `day` or
      later. */
  lemma {:induction false} MonthJournalsFromMembers(rows: map<EntryKey, Journal>, userId: UserId, year: int, month: int, day: nat)
    requires 1 <= month <= 12 && 1 <= day && KeyedByOwnDate(rows)
    decreases DaysInMonth(year, month) + 1 - day
    ensures forall x | x in MonthJournalsFrom(rows, userId, year, month, day) ::
      && x in rows.Values && x.userId == userId
      && x.date.year == year && x.date.month == month && day <= x.date.day <= DaysInMonth(year, month)
  {
    if day <= DaysInMonth(year, month) {
      MonthJournalsFromMembers(rows, userId, year, month, day + 1);
      var key := EntryKey(userId, Date(year, month, day));
      if key in rows {
        assert rows[key] in rows.Values;
      }
    }
  }

  /** From `day` on, the query returns every row of the user dated in that month on `day`
      or later. */
  lemma {:induction false} MonthJournalsFromComplete(rows: map<EntryKey, Journal>, userId: UserId, year: int, month: int, day: nat)
    requires 1 <= month <= 12 && 1 <= day && KeyedByOwnDate(rows)
    decreases DaysInMonth(year, month) + 1 - day
    ensures forall k | k in rows && k.userId == userId && k.date.year == year && k.date.month == month
                       && day <= k.date.day <= DaysInMonth(year, month) ::
      rows[k] in MonthJournalsFrom(rows, userId, year, month, day)
  {
    if day <= DaysInMonth(year, month) {
      MonthJournalsFromComplete(rows, userId, year, month, day + 1);
      var key := EntryKey(userId, Date(year, month, day));
      forall k | k in rows && k.userId == userId && k.date.year == year && k.date.month == month
                 && day <= k.date.day <= DaysInMonth(year, month)
        ensures rows[k] in MonthJournalsFrom(rows, userId, year, month, day)
      {
        if k.date.day == day {
          assert k == key;
        }
      }
    }
  }

  /** The query returns the month's journals in strictly increasing date order. */
  lemma {:induction false} MonthJournalsFromAscending(rows: map<EntryKey, Journal>, userId: UserId, year: int, month: int, day: nat)
    requires 1 <= month <= 12 && 1 <= day && KeyedByOwnDate(rows)
    decreases DaysInMonth(year, month) + 1 - day
    ensures Ascending(MonthJournalsFrom(rows, userId, year, month, day))
  {
    if day <= DaysInMonth(year, month) {
      var key := EntryKey(userId, Date(year, month, day));
      var rest := MonthJournalsFrom(rows, userId, year, month, day + 1);
      MonthJournalsFromAscending(rows, userId, year, month, day + 1);
      MonthJournalsFromMembers(rows, userId, year, month, day + 1);
      if key in rows {
        var r := MonthJournalsFrom(rows, userId, year, month, day);
        assert r == [rows[key]] + rest;
        forall i, j | 0 <= i < j < |r| ensures DateBefore(r[i], r[j]) {
          assert r[j] == rest[j - 1] && rest[j - 1] in rest;
          if i > 0 {
            assert r[i] == rest[i - 1];
          }
        }
      }
    }
  }

  /** The query of `history` returns, in strictly increasing date order, exactly the user's
      journals dated within the month. */
  lemma MonthJournalsSpec(rows: map<EntryKey, Journal>, userId: UserId, year: int, month: int)
    requires 1 <= month <= 12 && KeyedByOwnDate(rows)
    ensures Ascending(MonthJournals(rows, userId, year, month))
    ensures forall x | x in MonthJournals(rows, userId, year, month) ::
      && x in rows.Values && x.userId == userId
      && x.date.year == year && x.date.month == month && 1 <= x.date.day <= DaysInMonth(year, month)
    ensures forall k | k in rows && k.userId == userId && k.date.year == year && k.date.month == month
                       && 1 <= k.date.day <= DaysInMonth(year, month) ::
      rows[k] in MonthJournals(rows, userId, year, month)
  {
    MonthJournalsFromAscending(rows, userId, year, month, 1);
    MonthJournalsFromMembers(rows, userId, year, month, 1);
    MonthJournalsFromComplete(rows, userId, year, month, 1);
  }

  /** The year as PHP's `Y` format writes it: at least four digits, with a minus sign before
      years before year 0. */
  function YearString(year: int): (s: string)
    ensures |s| >= 4
    ensures 0 <= year < 10000 ==> |s| == 4
  {
    if year >= 0 then PadStart(NatToString(year), 4, '0')
    else "-" + PadStart(NatToString(-year), 4, '0')
  }

  /** The month and the day as `-MM-DD`. */
  function MonthDaySuffix(month: nat, day: nat): (s: string)
    ensures month < 100 && day < 100 ==> |s| == 6
  {
    "-" + PadStart(NatToString(month), 2, '0') + "-" + PadStart(NatToString(day), 2, '0')
  }

  /** Carbon's `toDateString()` (format `Y-m-d`): the year, then the month and the day as two
      digits each, separated by dashes. */
  function DateString(d: Date): (s: string)
    ensures |s| >= 10
    ensures 0 <= d.year < 10000 && d.month < 100 && d.day < 100 ==> |s| == 10
  {
    YearString(d.year) + MonthDaySuffix(d.month, d.day)
  }

  /** A year string starts with a minus sign exactly for years before year 0. */
  lemma YearStringSign(year: int)
    ensures YearString(year)[0] == '-' <==> year < 0
  {
    if year >= 0 {
      PadStartValue(year, 4);
      assert IsDigit(YearString(year)[0]);
    }
  }

  /** Different years are written differently. */
  lemma YearStringInjective(a: int, b: int)
    requires YearString(a) == YearString(b)
    ensures a == b
  {
    YearStringSign(a);
    YearStringSign(b);
    var n := if a >= 0 then a else -a;
    var m := if b >= 0 then b else -b;
    var pa, pb := PadStart(NatToString(n), 4, '0'), PadStart(NatToString(m), 4, '0');
    PadStartValue(n, 4);
    PadStartValue(m, 4);
    if a < 0 {
      assert pa == YearString(a)[1..] == YearString(b)[1..] == pb;
    }
  }

  /** Different months or days give different `-MM-DD` suffixes. */
  lemma MonthDaySuffixInjective(m1: nat, d1: nat, m2: nat, d2: nat)
    requires m1 < 100 && d1 < 100 && m2 < 100 && d2 < 100
    requires MonthDaySuffix(m1, d1) == MonthDaySuffix(m2, d2)
    ensures m1 == m2 && d1 == d2
  {
    var x1, y1 := PadStart(NatToString(m1), 2, '0'), PadStart(NatToString(d1), 2, '0');
    var x2, y2 := PadStart(NatToString(m2), 2, '0'), PadStart(NatToString(d2), 2, '0');
    Seqs.ConcatCancel("-" + x1 + "-", y1, "-" + x2 + "-", y2);
    Seqs.ConcatCancel("-" + x1, "-", "-" + x2, "-");
    Seqs.ConcatCancel("-", x1, "-", x2);
    PadStartValue(m1, 2);
    PadStartValue(m2, 2);
    PadStartValue(d1, 2);
    PadStartValue(d2, 2);
  }

  /** Dates whose month and day are below 100 with the same date string are the same date,
      so looking an entry up by its date string finds that date's journal. */
  lemma DateStringInjective(a: Date, b: Date)
    requires a.month < 100 && a.day < 100 && b.month < 100 && b.day < 100
    requires DateString(a) == DateString(b)
    ensures a == b
  {
    Seqs.ConcatCancel(YearString(a.year), MonthDaySuffix(a.month, a.day), YearString(b.year), MonthDaySuffix(b.month, b.day));
    YearStringInjective(a.year, b.year);
    MonthDaySuffixInjective(a.month, a.day, b.month, b.day);
  }

  /** One element of the `entries` prop. */
  function HistoryEntryOf(j: Journal): HistoryEntry {
    HistoryEntry(j.id, DateString(j.date), true, StringColumn(j.feedback, KeyPhraseEn), StringColumn(j.feedback, KeyPhraseJa))
  }

  /** The `entries` prop: one entry per journal of the month, in the query's order. */
  function HistoryEntries(journals: seq<Journal>): (entries: seq<HistoryEntry>)
    ensures |entries| == |journals|
    ensures forall i :: 0 <= i < |journals| ==>
      && entries[i].id == journals[i].id && entries[i].date == DateString(journals[i].date) && entries[i].hasEntry
      && entries[i].keyPhraseEn == StringColumn(journals[i].feedback, KeyPhraseEn)
      && entries[i].keyPhraseJa == StringColumn(journals[i].feedback, KeyPhraseJa)
  {
    Seqs.Map(journals, HistoryEntryOf)
  }

  /** Different dates give different date strings. */
  lemma DateStringsDiffer(a: Date, b: Date)
    requires a.month < 100 && a.day < 100 && b.month < 100 && b.day < 100
    requires a != b
    ensures DateString(a) != DateString(b)
  {
    if DateString(a) == DateString(b) {
      DateStringInjective(a, b);
    }
  }

  /** No two entries of a month's page carry the same date string, so each of them can be
      found by its date. */
  lemma MonthEntryDates(rows: map<EntryKey, Journal>, userId: UserId, year: int, month: int)
    requires 1 <= month <= 12 && KeyedByOwnDate(rows)
    ensures var entries := HistoryEntries(MonthJournals(rows, userId, year, month));
      forall i, j | 0 <= i < j < |entries| :: entries[i].date != entries[j].date
  {
    var journals := MonthJournals(rows, userId, year, month);
    var entries := HistoryEntries(journals);
    MonthJournalsSpec(rows, userId, year, month);
    forall i, j | 0 <= i < j < |entries| ensures entries[i].date != entries[j].date {
      assert journals[i] in journals && journals[j] in journals;
      assert DateBefore(journals[i], journals[j]);
      DateStringsDiffer(journals[i].date, journals[j].date);
    }
  }

  /** `key_phrase_en !== null`. */
  predicate HasKeyPhrase(j: Journal) {
    StringColumn(j.feedback, KeyPhraseEn).Some?
  }

  function PhraseOf(j: Journal): string {
    StringColumn(j.feedback, KeyPhraseEn).GetOr("")
  }

  /** `sortByDesc('date')`: a stable insertion of `j` into `sorted` (newest first), after the
      journals strictly newer than it and before the others. */
  function InsertByDateDesc(j: Journal, sorted: seq<Journal>): (r: seq<Journal>)
    ensures |r| == |sorted| + 1
  {
    if sorted == [] || !DateBefore(j, sorted[0]) then [j] + sorted
    else [sorted[0]] + InsertByDateDesc(j, sorted[1..])
  }

  /** `sortByDesc('date')`, stable: journals with equal dates keep their order. */
  function SortByDateDesc(journals: seq<Journal>): (r: seq<Journal>)
    ensures |r| == |journals|
  {
    if journals == [] then [] else InsertByDateDesc(journals[0], SortByDateDesc(journals[1..]))
  }

  /** A journal older than all of `sorted` goes to the end. */
  lemma {:induction false} InsertOldest(j: Journal, sorted: seq<Journal>)
    requires forall k :: 0 <= k < |sorted| ==> DateBefore(j, sorted[k])
    ensures InsertByDateDesc(j, sorted) == sorted + [j]
  {
    if sorted != [] {
      InsertOldest(j, sorted[1..]);
      assert [sorted[0]] + (sorted[1..] + [j]) == sorted + [j];
    }
  }

  /** On journals already in ascending date order, sorting newest first is reversal. */
  lemma {:induction false} SortAscending(journals: seq<Journal>)
    requires Ascending(journals)
    ensures SortByDateDesc(journals) == Seqs.Reverse(journals)
  {
    if journals != [] {
      var tail := journals[1..];
      SortAscending(tail);
      var rt := Seqs.Reverse(tail);
      forall k | 0 <= k < |rt| ensures DateBefore(journals[0], rt[k]) {
        assert rt[k] == journals[|tail| - k];
      }
      InsertOldest(journals[0], rt);
    }
  }

  /** `unique('key_phrase_en')`: the first journal of each phrase not already in `seen`. */
  function UniqueByPhrase(journals: seq<Journal>, seen: set<string>): (r: seq<Journal>)
    ensures |r| <= |journals|
  {
    if journals == [] then []
    else if PhraseOf(journals[0]) in seen then UniqueByPhrase(journals[1..], seen)
    else [journals[0]] + UniqueByPhrase(journals[1..], seen + {PhraseOf(journals[0])})
  }

  /** `unique` keeps only journals of its input, with phrases outside `seen` and no phrase
      twice. */
  lemma {:induction false} UniqueMembers(journals: seq<Journal>, seen: set<string>)
    ensures forall x | x in UniqueByPhrase(journals, seen) :: x in journals && PhraseOf(x) !in seen
    ensures DistinctPhrases(UniqueByPhrase(journals, seen))
  {
    if journals != [] {
      var p := PhraseOf(journals[0]);
      var seen' := if p in seen then seen else seen + {p};
      var rest := UniqueByPhrase(journals[1..], seen');
      UniqueMembers(journals[1..], seen');
      var u := UniqueByPhrase(journals, seen);
      if p !in seen {
        assert u == [journals[0]] + rest;
        forall i, j | 0 <= i < j < |u| ensures PhraseOf(u[i]) != PhraseOf(u[j]) {
          assert u[j] == rest[j - 1] && u[j] in rest;
          if i > 0 {
            assert u[i] == rest[i - 1];
          }
        }
      }
    }
  }

  /** No two journals of `journals` share a key phrase. */
  ghost predicate DistinctPhrases(journals: seq<Journal>) {
    forall i, j | 0 <= i < j < |journals| :: PhraseOf(journals[i]) != PhraseOf(journals[j])
  }

  /** `unique` keeps order: on journals newest first, its result is newest first. */
  lemma {:induction false} UniqueDescending(journals: seq<Journal>, seen: set<string>)
    requires Descending(journals)
    ensures Descending(UniqueByPhrase(journals, seen))
  {
    if journals != [] {
      var p := PhraseOf(journals[0]);
      var seen' := if p in seen then seen else seen + {p};
      var rest := UniqueByPhrase(journals[1..], seen');
      UniqueDescending(journals[1..], seen');
      UniqueMembers(journals[1..], seen');
      if p !in seen {
        var u := UniqueByPhrase(journals, seen);
        forall i, j | 0 <= i < j < |u| ensures DateBefore(u[j], u[i]) {
          assert u[j] == rest[j - 1];
          if i == 0 {
            var k :| 0 <= k < |journals[1..]| && journals[1..][k] == rest[j - 1];
            assert journals[k + 1] == u[j];
          } else {
            assert u[i] == rest[i - 1];
          }
        }
      }
    }
  }

  /** Each journal of `kept` is at least as new as every journal of `all` with its phrase. */
  ghost predicate NewestOfPhrase(kept: seq<Journal>, all: seq<Journal>) {
    forall i, x | 0 <= i < |kept| && x in all && PhraseOf(x) == PhraseOf(kept[i]) :: !DateBefore(kept[i], x)
  }

  /** Every phrase of `all` outside `seen` is the phrase of some journal of `kept`. */
  ghost predicate CoversPhrases(kept: seq<Journal>, all: seq<Journal>, seen: set<string>) {
    forall x | x in all && PhraseOf(x) !in seen :: exists i | 0 <= i < |kept| :: PhraseOf(kept[i]) == PhraseOf(x)
  }

  /** On journals newest first, the journal `unique` keeps for a phrase is the newest with
      that phrase. */
  lemma {:induction false} UniqueNewest(journals: seq<Journal>, seen: set<string>)
    requires Descending(journals)
    ensures NewestOfPhrase(UniqueByPhrase(journals, seen), journals)
  {
    if journals != [] {
      var j0 := journals[0];
      var p := PhraseOf(j0);
      var seen' := if p in seen then seen else seen + {p};
      var rest := UniqueByPhrase(journals[1..], seen');
      UniqueNewest(journals[1..], seen');
      UniqueMembers(journals[1..], seen');
      var u := UniqueByPhrase(journals, seen);
      var shift := if p in seen then 0 else 1;
      assert u[shift..] == rest;
      forall i, x | 0 <= i < |u| && x in journals && PhraseOf(x) == PhraseOf(u[i])
        ensures !DateBefore(u[i], x)
      {
        if i < shift {
          assert u[i] == j0;
          if x != j0 {
            var k :| 0 <= k < |journals| && journals[k] == x;
            assert DateBefore(journals[k], journals[0]);
          }
          BeforeOrder(x.date, j0.date, x.date);
        } else {
          assert u[i] == rest[i - shift] && rest[i - shift] in rest;
          assert x != j0;
          assert x in journals[1..];
        }
      }
    }
  }

  /** Every phrase outside `seen` that occurs in the input is represented in `unique`'s
      result. */
  lemma {:induction false} UniqueCovers(journals: seq<Journal>, seen: set<string>)
    ensures CoversPhrases(UniqueByPhrase(journals, seen), journals, seen)
  {
    if journals != [] {
      var p := PhraseOf(journals[0]);
      var seen' := if p in seen then seen else seen + {p};
      var rest := UniqueByPhrase(journals[1..], seen');
      UniqueCovers(journals[1..], seen');
      var u := UniqueByPhrase(journals, seen);
      var shift := if p in seen then 0 else 1;
      assert u[shift..] == rest;
      forall x | x in journals && PhraseOf(x) !in seen
        ensures exists i | 0 <= i < |u| :: PhraseOf(u[i]) == PhraseOf(x)
      {
        if PhraseOf(x) == p {
          assert shift == 1 && PhraseOf(u[0]) == p;
        } else {
          assert x != journals[0];
          assert x in journals[1..];
          var i :| 0 <= i < |rest| && PhraseOf(rest[i]) == PhraseOf(x);
          assert u[i + shift] == rest[i];
        }
      }
    }
  }

  /** The journals with a key phrase, newest first (`filter` then `sortByDesc('date')`). */
  function PhraseCandidates(journals: seq<Journal>): seq<Journal> {
    SortByDateDesc(Seqs.Filter(journals, HasKeyPhrase))
  }

  /** The journals behind `$keyPhrases`: those with a key phrase, newest first, the first of
      each phrase, at most three. */
  function RecentPhraseJournals(journals: seq<Journal>): (r: seq<Journal>)
    ensures |r| <= 3
  {
    Seqs.Take(UniqueByPhrase(PhraseCandidates(journals), {}), 3)
  }

  /** On journals in date order, the candidates are exactly the journals with a key phrase,
      newest first. */
  lemma PhraseCandidatesFacts(journals: seq<Journal>)
    requires Ascending(journals)
    ensures Descending(PhraseCandidates(journals))
    ensures forall x :: x in PhraseCandidates(journals) <==> x in journals && HasKeyPhrase(x)
  {
    var f := Seqs.Filter(journals, HasKeyPhrase);
    Seqs.FilterPairwise(journals, HasKeyPhrase, DateBefore);
    SortAscending(f);
    Seqs.ReversePairwise(f, DateBefore);
    forall x ensures x in PhraseCandidates(journals) <==> x in journals && HasKeyPhrase(x) {
      Seqs.ReverseMember(f, x);
      Seqs.FilterMember(journals, HasKeyPhrase, x);
    }
  }

  /** On the month's journals in date order, `$keyPhrases` holds up to three journals with a
      key phrase, newest first, with distinct phrases, each the newest journal of its
      phrase. */
  lemma RecentPhraseJournalsSpec(journals: seq<Journal>)
    requires Ascending(journals)
    ensures forall x | x in RecentPhraseJournals(journals) :: x in journals && HasKeyPhrase(x)
    ensures DistinctPhrases(RecentPhraseJournals(journals))
    ensures Descending(RecentPhraseJournals(journals))
    ensures forall i, x | 0 <= i < |RecentPhraseJournals(journals)| && x in journals && HasKeyPhrase(x)
                          && PhraseOf(x) == PhraseOf(RecentPhraseJournals(journals)[i]) ::
      !DateBefore(RecentPhraseJournals(journals)[i], x)
  {
    var d := PhraseCandidates(journals);
    PhraseCandidatesFacts(journals);
    var u := UniqueByPhrase(d, {});
    UniqueMembers(d, {});
    UniqueDescending(d, {});
    UniqueNewest(d, {});
    var r := RecentPhraseJournals(journals);
    assert r == u[..|r|];
    forall x | x in r ensures x in journals && HasKeyPhrase(x) {
      assert x in u;
    }
  }

  /** A key phrase of the month missing from `$keyPhrases` belongs only to journals older
      than every shown one, and then three are shown. */
  lemma RecentPhraseJournalsComplete(journals: seq<Journal>, x: Journal)
    requires Ascending(journals)
    requires x in journals && HasKeyPhrase(x)
    requires forall i | 0 <= i < |RecentPhraseJournals(journals)| :: PhraseOf(RecentPhraseJournals(journals)[i]) != PhraseOf(x)
    ensures |RecentPhraseJournals(journals)| == 3
    ensures forall i | 0 <= i < 3 :: DateBefore(x, RecentPhraseJournals(journals)[i])
  {
    var d := PhraseCandidates(journals);
    PhraseCandidatesFacts(journals);
    var u := UniqueByPhrase(d, {});
    UniqueDescending(d, {});
    UniqueNewest(d, {});
    UniqueCovers(d, {});
    var r := RecentPhraseJournals(journals);
    assert r == u[..|r|];
    assert x in d;
    var k :| 0 <= k < |u| && PhraseOf(u[k]) == PhraseOf(x);
    assert k >= |r|;
    forall i | 0 <= i < 3 ensures DateBefore(x, r[i]) {
      assert DateBefore(u[k], u[i]);
      assert !DateBefore(u[k], x);
      BeforeOrder(x.date, u[k].date, u[i].date);
    }
  }

  function KeyPhraseOf(j: Journal): KeyPhrase {
    KeyPhrase(j.id, DateString(j.date), PhraseOf(j), StringColumn(j.feedback, KeyPhraseJa))
  }

  /** The `keyPhrases` prop. */
  function KeyPhrases(journals: seq<Journal>): (r: seq<KeyPhrase>)
    ensures |r| <= 3
  {
    Seqs.Map(RecentPhraseJournals(journals), KeyPhraseOf)
  }

  /** The props of the history page. */
  datatype HistoryPage = HistoryPage(year: int, month: int, entries: seq<HistoryEntry>, keyPhrases: seq<KeyPhrase>)
}
