/** Properties that follow an entry across the layers: from the form to `store`, from the
    stored row to the Feedback page, and from the journals table to the History calendar. */
module Flow {

  import opened Wrappers
  import opened Strings
  import opened Schema
  import opened FeedbackService
  import opened JournalController
  import opened FeedbackPage
  import opened JournalHistoryPage
  import opened JournalPage
  import Seqs

  // ---------------------------------------------------------------------------------------
  // From the form to `store`

  /** A heading or label of the form is never blank. */
  lemma FormLabelsRequired(sections: seq<FormSection>, i: nat)
    requires IsForm(sections) && i < 3
    ensures SectionValid(Submitted(sections[i])) <==> |sections[i].text| <= SectionTextMax
  {
    var s := Submitted(sections[i]);
    assert sections[i] == InitialSections[i].(text := sections[i].text);
    NonBlankWord(s.name.value);
    NonBlankWord(s.labelEn.value);
    NonBlankWord(s.labelJa.value);
  }

  /** A string that starts with a letter survives PHP `trim`. */
  lemma NonBlankWord(w: string)
    requires w != [] && !IsPhpSpace(w[0])
    ensures PhpTrim(w) != ""
  {
    TrimEmpty(w, IsPhpSpace);
  }

  /** The form as first shown is rejected: with the content error alone when its date is
      valid, and after the date error otherwise. */
  lemma InitialFormRejected(date: Date)
    ensures Violations(StoreRequest(ADate(date), Some(SubmittedSections(InitialSections)))) ==
      (if ValidDate(date) then [] else [DateInvalid]) + [NoContent]
  {
    var request := StoreRequest(ADate(date), Some(SubmittedSections(InitialSections)));
    var ss := SubmittedSections(InitialSections);
    FormInvariant(InitialSections, 0, "");
    forall k | 0 <= k < 3 ensures SectionValid(ss[k]) {
      FormLabelsRequired(InitialSections, k);
    }
    ElementRulesPass(ss);
    assert FieldViolations(request) == if ValidDate(date) then [] else [DateInvalid];
    InitialFormBlank();
  }

  /** Every text of the form as first shown is blank. */
  lemma InitialFormBlank()
    ensures !HasContent(SubmittedSections(InitialSections))
  {
    var ss := SubmittedSections(InitialSections);
    FormInvariant(InitialSections, 0, "");
    forall k | 0 <= k < 3 ensures PhpTrim(ss[k].text.GetOr("")) == "" {
      assert ss[k].text == Some("");
      TrimEmpty("", IsPhpSpace);
    }
  }

  /** A form, after any edits, is accepted exactly when its date is valid, no text is over
      500 characters and some text is not blank. */
  lemma FormAccepted(sections: seq<FormSection>, date: Date)
    requires IsForm(sections)
    ensures Violations(StoreRequest(ADate(date), Some(SubmittedSections(sections)))) == [] <==>
      && ValidDate(date)
      && (forall i :: 0 <= i < 3 ==> |sections[i].text| <= SectionTextMax)
      && (exists i :: 0 <= i < 3 && PhpTrim(sections[i].text) != "")
  {
    var ss := SubmittedSections(sections);
    forall k | 0 <= k < 3 ensures SectionValid(ss[k]) <==> |sections[k].text| <= SectionTextMax {
      FormLabelsRequired(sections, k);
    }
    ViolationsEmpty(StoreRequest(ADate(date), Some(ss)));
    if exists i :: 0 <= i < 3 && PhpTrim(sections[i].text) != "" {
      var i :| 0 <= i < 3 && PhpTrim(sections[i].text) != "";
      assert PhpTrim(ss[i].text.GetOr("")) != "";
    }
  }

  // ---------------------------------------------------------------------------------------
  // From the stored row to the Feedback page

  /** The English text the generator writes never has the headed layout. */
  lemma GeneratedTextUnheaded(texts: seq<string>)
    ensures !StartsWith(DummyEnglishPrefix + Join(texts, " "), MoodMarker)
    ensures ParseEnglishJournal(DummyEnglishPrefix + Join(texts, " ")) == NoSections
  {
    var text := DummyEnglishPrefix + Join(texts, " ");
    assert text[0] == 'D';
    ParseNeedsHeadings(text, MoodMarker, WhatIDidMarker, ThoughtsPlansMarker);
  }

  /** An entry stored with a long section is shown as `ok` with English feedback; the
      generator's text has no headings, so the page shows that text whole and reads it aloud
      whole, and the summary is the first sentence of the overall comment. */
  lemma StoredLongEntryView(sections: seq<SectionInput>)
    requires AnyLong(sections)
    ensures
      var status := StatusOf(sections, StringColumn(FeedbackFor(sections), EnglishText));
      var feedback := Some(FeedbackDataOf(FeedbackFor(sections)));
      var text := DummyEnglishPrefix + Join(LongTexts(sections), " ");
      && status == Ok
      && HasEnglishFeedback(status, feedback)
      && FeedbackPage.HasKeyPhrase(status, feedback)
      && PanelOf(status, feedback, Seqs.Map(sections, PageSectionOf)) == EnglishTextPanel(text)
      && BuildTtsText(Some(text), ParseEnglishJournal(text)) == text
      && SummaryMessage(status, feedback) == GetFirstSentence(DummyFeedbackOverall)
  {
    var feedback := Some(FeedbackDataOf(FeedbackFor(sections)));
    var text := DummyEnglishPrefix + Join(LongTexts(sections), " ");
    StoredLongColumns(sections);
    GeneratedTextUnheaded(LongTexts(sections));
    assert text[0] == 'D';
    UnheadedPanel(feedback, Seqs.Map(sections, PageSectionOf), text);
    SummaryCases(Ok, feedback);
  }

  /** With English feedback whose text has no headings, the page shows that text whole. */
  lemma UnheadedPanel(feedback: Option<FeedbackData>, shown: seq<PageSection>, text: string)
    requires feedback.Some? && feedback.value.englishText == Some(text) && text != ""
    requires ParseEnglishJournal(text) == NoSections
    ensures PanelOf(Ok, feedback, shown) == EnglishTextPanel(text)
  {
  }

  /** The columns of an entry stored with a long section, as the page receives them. */
  lemma StoredLongColumns(sections: seq<SectionInput>)
    requires AnyLong(sections)
    ensures StatusOf(sections, StringColumn(FeedbackFor(sections), EnglishText)) == Ok
    ensures FeedbackDataOf(FeedbackFor(sections)).englishText == Some(DummyEnglishPrefix + Join(LongTexts(sections), " "))
    ensures FeedbackDataOf(FeedbackFor(sections)).feedbackOverall == Some(DummyFeedbackOverall)
    ensures FeedbackDataOf(FeedbackFor(sections)).keyPhraseEn == Some(DummyKeyPhraseEn)
  {
    SectionsForLlmEmpty(sections);
    StoredEntryStatus(sections);
    GeneratedFeedback(sections);
    GenerateFixedColumns(SectionsForLlm(sections), SectionsForLlm(sections));
  }

  /** The page's two flags depend only on the row's columns: English feedback is shown
      exactly when the row's English text is a non-empty string, and the key phrase exactly
      when the row also has a non-empty key phrase, whatever the sections. A row whose English
      text is "" has status `ok` but shows no English feedback. */
  lemma PageFlagsOfRow(sections: seq<SectionInput>, f: Feedback)
    ensures
      var status := StatusOf(sections, StringColumn(f, EnglishText));
      var feedback := Some(FeedbackDataOf(f));
      && (HasEnglishFeedback(status, feedback) <==>
            StringColumn(f, EnglishText).Some? && StringColumn(f, EnglishText).value != "")
      && (FeedbackPage.HasKeyPhrase(status, feedback) <==>
            StringColumn(f, EnglishText).Some? && StringColumn(f, KeyPhraseEn).Some? && StringColumn(f, KeyPhraseEn).value != "")
  {
  }

  /** An entry stored without a long section is shown as `skipped_short` without English
      feedback: the page shows the short-entry message and, of the stored sections, those
      with a text that is not blank, in order, each under its own label. */
  lemma StoredShortEntryView(sections: seq<SectionInput>)
    requires !AnyLong(sections)
    ensures
      var status := StatusOf(sections, StringColumn(FeedbackFor(sections), EnglishText));
      var feedback := Some(FeedbackDataOf(FeedbackFor(sections)));
      && status == SkippedShort
      && !HasEnglishFeedback(status, feedback)
      && !FeedbackPage.HasKeyPhrase(status, feedback)
      && PanelOf(status, feedback, Seqs.Map(sections, PageSectionOf)) ==
           OriginalPanel(Seqs.Map(Seqs.Filter(sections, HasStoredText), StoredDisplay))
      && SummaryMessage(status, feedback) == ShortEntryMessage
  {
    StoredFallbackSections(sections);
    SectionsForLlmEmpty(sections);
    StoredEntryStatus(sections);
    SkippedFeedback(sections);
  }

  /** A section posted from the form comes back among the original sections under its
      English heading, with its text unchanged, exactly when that text is not blank. */
  lemma FormSectionShown(section: FormSection)
    ensures FallbackSections([PageSectionOf(Submitted(section))]) ==
      if AllIn(section.text, IsJsSpace) then []
      else [DisplaySection(NameString(section.name), section.labelEn, section.text)]
  {
    StoredFallbackSingle(Submitted(section));
  }

  /** Sections a client may post: the labels of the form, a text only in the middle one,
      and no text at all in the other two (null, or blank before the framework turns a blank
      input into null). */
  const NullTextSections: seq<SectionInput> := [
    SectionInput(Some("Mood"), Some("Mood"), Some("気分"), None),
    SectionInput(Some("WhatIDid"), Some("What I did"), Some("今日やったこと"), Some("I studied English.")),
    SectionInput(Some("ThoughtsPlans"), Some("Thoughts & Plans"), Some("考えごと・明日やりたいこと"), None)
  ]

  /** `store` accepts sections whose text is null and `show` sends them back as stored, but
      the Feedback page as written fails on them while it builds the original sections, on
      every render and whatever the feedback status. */
  lemma NullTextBreaksFeedbackPage(date: Date)
    requires ValidDate(date)
    ensures Violations(StoreRequest(ADate(date), Some(NullTextSections))) == []
    ensures FallbackSectionsAsWritten(NullTextSections) == None
  {
    var ss := NullTextSections;
    forall k | 0 <= k < 3 ensures SectionValid(ss[k]) {
      NonBlankWord(ss[k].name.value);
      NonBlankWord(ss[k].labelEn.value);
      NonBlankWord(ss[k].labelJa.value);
    }
    NonBlankWord(ss[1].text.value);
    assert PhpTrim(ss[1].text.GetOr("")) != "";
    ViolationsEmpty(StoreRequest(ADate(date), Some(ss)));
    assert !ss[0].text.Some?;
  }

  // ---------------------------------------------------------------------------------------
  // From the journals table to the History calendar

  /** On the calendar of a month, a day links to the journal the user wrote that day, and
      a day without one does not link. */
  lemma CalendarLinksJournals(rows: map<EntryKey, Journal>, userId: UserId, year: nat, month: nat,
                              startWeekday: nat, day: nat)
    requires KeyedByOwnDate(rows)
    requires 1 <= month <= 12 && year >= 1 && 1 <= day <= DaysInMonth(year, month)
    ensures
      var key := EntryKey(userId, Date(year, month, day));
      var entries := HistoryEntries(MonthJournals(rows, userId, year, month));
      CalendarCells(year, month, startWeekday, entries)[startWeekday + day - 1] ==
        if key in rows then EntryDay(day, rows[key].id) else EmptyDay(day)
  {
    var date := FormatDateIso(year, month, day);
    CalendarCellsSpec(year, month, startWeekday, HistoryEntries(MonthJournals(rows, userId, year, month)), day);
    FormatDateIsoStored(year, month, day);
    MonthEntryOfDay(rows, userId, year, month, day);
  }

  /** Every entry of a month's page is the one the calendar's date map holds for its date. */
  lemma MonthEntriesMapped(rows: map<EntryKey, Journal>, userId: UserId, year: int, month: int)
    requires 1 <= month <= 12 && KeyedByOwnDate(rows)
    ensures
      var entries := HistoryEntries(MonthJournals(rows, userId, year, month));
      forall i | 0 <= i < |entries| ::
        entries[i].date in EntryMapOf(entries) && EntryMapOf(entries)[entries[i].date] == entries[i]
  {
    var entries := HistoryEntries(MonthJournals(rows, userId, year, month));
    MonthEntryDates(rows, userId, year, month);
    forall i | 0 <= i < |entries|
      ensures entries[i].date in EntryMapOf(entries) && EntryMapOf(entries)[entries[i].date] == entries[i]
    {
      EntryMapLast(entries, i);
    }
  }

  /** Among the month's entries, the day's date string is found exactly when the user has a
      row for that day, and then it is that row's entry. */
  lemma MonthEntryOfDay(rows: map<EntryKey, Journal>, userId: UserId, year: nat, month: nat, day: nat)
    requires KeyedByOwnDate(rows)
    requires 1 <= month <= 12 && 1 <= day <= DaysInMonth(year, month)
    ensures
      var key := EntryKey(userId, Date(year, month, day));
      var date := DateString(Date(year, month, day));
      var m := EntryMapOf(HistoryEntries(MonthJournals(rows, userId, year, month)));
      && (date in m <==> key in rows)
      && (key in rows ==> m[date].id == rows[key].id)
  {
    var key := EntryKey(userId, Date(year, month, day));
    if key in rows {
      DayRowListed(rows, userId, year, month, day);
    }
    if DateString(Date(year, month, day)) in EntryMapOf(HistoryEntries(MonthJournals(rows, userId, year, month))) {
      DayEntryRow(rows, userId, year, month, day);
    }
  }

  /** A row the user has for a day of the month is listed under that day's date string. */
  lemma DayRowListed(rows: map<EntryKey, Journal>, userId: UserId, year: nat, month: nat, day: nat)
    requires KeyedByOwnDate(rows)
    requires 1 <= month <= 12 && 1 <= day <= DaysInMonth(year, month)
    requires EntryKey(userId, Date(year, month, day)) in rows
    ensures DateString(Date(year, month, day)) in EntryMapOf(HistoryEntries(MonthJournals(rows, userId, year, month)))
  {
    var key := EntryKey(userId, Date(year, month, day));
    var journals := MonthJournals(rows, userId, year, month);
    var entries := HistoryEntries(journals);
    MonthJournalsSpec(rows, userId, year, month);
    assert rows[key] in journals;
    var i :| 0 <= i < |journals| && journals[i] == rows[key];
    assert entries[i].date == DateString(Date(year, month, day));
    EntryMapKeys(entries, DateString(Date(year, month, day)));
  }

  /** An entry listed under a day's date string is the user's row for that day. */
  lemma DayEntryRow(rows: map<EntryKey, Journal>, userId: UserId, year: nat, month: nat, day: nat)
    requires KeyedByOwnDate(rows)
    requires 1 <= month <= 12 && 1 <= day <= DaysInMonth(year, month)
    requires DateString(Date(year, month, day)) in EntryMapOf(HistoryEntries(MonthJournals(rows, userId, year, month)))
    ensures EntryKey(userId, Date(year, month, day)) in rows
    ensures EntryMapOf(HistoryEntries(MonthJournals(rows, userId, year, month)))[DateString(Date(year, month, day))].id ==
      rows[EntryKey(userId, Date(year, month, day))].id
  {
    var date := DateString(Date(year, month, day));
    var journals := MonthJournals(rows, userId, year, month);
    var entries := HistoryEntries(journals);
    var m := EntryMapOf(entries);
    MonthJournalsSpec(rows, userId, year, month);
    EntryMapKeys(entries, date);
    var j :| 0 <= j < |entries| && entries[j] == m[date];
    assert journals[j] in journals;
    JournalOfDate(rows, userId, year, month, day, journals[j]);
  }

  /** A journal of the month whose date string is that of day `day` is the user's row for
      that day. */
  lemma JournalOfDate(rows: map<EntryKey, Journal>, userId: UserId, year: nat, month: nat, day: nat, x: Journal)
    requires KeyedByOwnDate(rows)
    requires 1 <= month <= 12 && 1 <= day <= DaysInMonth(year, month)
    requires x in rows.Values && x.userId == userId && x.date.year == year && x.date.month == month
    requires x.date.day <= DaysInMonth(year, month)
    requires DateString(x.date) == DateString(Date(year, month, day))
    ensures EntryKey(userId, Date(year, month, day)) in rows
    ensures rows[EntryKey(userId, Date(year, month, day))] == x
  {
    DateStringInjective(x.date, Date(year, month, day));
    var k :| k in rows && rows[k] == x;
    assert k == EntryKey(userId, Date(year, month, day));
  }
}
