/** The stored journal record and the props the controller renders pages with. One row of
    the `journals` table per user and calendar date; the feedback columns are nullable. */
module Schema {

  import opened Wrappers

  type UserId = nat

  /** A calendar date (the `date` column). */
  datatype Date = Date(year: int, month: nat, day: nat)

  /** `a` is strictly earlier than `b` in the calendar. */
  predicate Before(a: Date, b: Date) {
    || a.year < b.year
    || (a.year == b.year && a.month < b.month)
    || (a.year == b.year && a.month == b.month && a.day < b.day)
  }

  /** `Before` is a strict total order on dates. */
  lemma BeforeOrder(a: Date, b: Date, c: Date)
    ensures !Before(a, a)
    ensures Before(a, b) && Before(b, c) ==> Before(a, c)
    ensures a == b || Before(a, b) || Before(b, a)
  {
  }

  /** The Gregorian leap-year rule. */
  predicate IsLeapYear(year: int) {
    year % 4 == 0 && (year % 100 != 0 || year % 400 == 0)
  }

  /** The number of days of `month` (1..12) in the proleptic Gregorian calendar. */
  function DaysInMonth(year: int, month: int): (days: nat)
    requires 1 <= month <= 12
    ensures 28 <= days <= 31
    ensures month == 2 ==> (days == 29 <==> IsLeapYear(year))
  {
    if month == 2 then (if IsLeapYear(year) then 29 else 28)
    else if month == 4 || month == 6 || month == 9 || month == 11 then 30
    else 31
  }

  /** A date Laravel's `date` rule lets through: PHP's `checkdate` wants a year from 1 to
      32767, a month from 1 to 12 and a day that exists in that month. */
  predicate ValidDate(d: Date) {
    1 <= d.year <= 32767 && 1 <= d.month <= 12 && 1 <= d.day <= DaysInMonth(d.year, d.month)
  }

  /** One element of the submitted `sections` array, stored verbatim in `sections_json`; each
      key may be missing or null. */
  datatype SectionInput = SectionInput(
    name: Option<string>, labelEn: Option<string>, labelJa: Option<string>, text: Option<string>)

  /** One grammar or vocabulary tip. */
  datatype Correction = Correction(before: string, after: string, noteJa: string)

  /** The six feedback columns, as keys of the PHP feedback array. */
  datatype FeedbackKey =
    | EnglishText | FeedbackOverall | FeedbackCorrectionsJson
    | KeyPhraseEn | KeyPhraseJa | KeyPhraseReasonJa

  /** A value in the PHP feedback array: null, a string, or the list of corrections. */
  datatype FieldValue = Null | Str(str: string) | List(items: seq<Correction>)

  /** The PHP associative array that holds the feedback columns. */
  type Feedback = map<FeedbackKey, FieldValue>

  const FeedbackKeys: set<FeedbackKey> :=
    {EnglishText, FeedbackOverall, FeedbackCorrectionsJson, KeyPhraseEn, KeyPhraseJa, KeyPhraseReasonJa}

  /** A string column read back through Eloquent: null when absent or not a string. */
  function StringColumn(f: Feedback, k: FeedbackKey): Option<string> {
    if k in f && f[k].Str? then Some(f[k].str) else None
  }

  /** The corrections column read back: null when absent or not a list. */
  function ListColumn(f: Feedback, k: FeedbackKey): Option<seq<Correction>> {
    if k in f && f[k].List? then Some(f[k].items) else None
  }

  /** A row of the `journals` table. */
  datatype Journal = Journal(id: nat, userId: UserId, date: Date, sectionsJson: seq<SectionInput>, feedback: Feedback)

  /** How the feedback of a stored entry is presented. */
  datatype FeedbackStatus = Ok | SkippedShort | Error

  /** The `feedback` prop of the Feedback page. */
  datatype FeedbackData = FeedbackData(
    englishText: Option<string>, feedbackOverall: Option<string>, corrections: seq<Correction>,
    keyPhraseEn: Option<string>, keyPhraseJa: Option<string>, keyPhraseReasonJa: Option<string>)

  /** The `entry` prop of the Feedback page. */
  datatype FeedbackEntry = FeedbackEntry(
    id: nat, date: Date, sections: seq<SectionInput>, feedback: FeedbackData, feedbackStatus: FeedbackStatus)

  /** One element of the `entries` prop of the history page. */
  datatype HistoryEntry = HistoryEntry(
    id: nat, date: string, hasEntry: bool, keyPhraseEn: Option<string>, keyPhraseJa: Option<string>)

  /** One element of the `keyPhrases` prop of the history page. */
  datatype KeyPhrase = KeyPhrase(id: nat, date: string, keyPhraseEn: string, keyPhraseJa: Option<string>)
}
