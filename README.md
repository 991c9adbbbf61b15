# English Journal — a verified model of the journal flow

English Journal is a Laravel + React application. A user writes a diary entry each day in
three sections: Mood, What I did, and Thoughts & Plans. The server validates the entry and
asks a feedback generator for an English rewrite, an overall comment, correction tips and a
"key phrase". It stores one row per user and day, and then shows:

- a Feedback page for the entry;
- a History page with a month calendar and the latest key phrases.

This project models that core in Dafny and proves what each step promises.

- `Schema` (`schema.dfy`): the entities.
  - Calendar dates with their order and the Gregorian month lengths.
  - A section as posted (every key optional).
  - The six feedback columns, the stored `journals` row, the feedback status.
  - The page props of the Feedback and History pages.
- `Strings` and `Seqs` (`strings.dfy`, `seqs.dfy`): helpers.
  - PHP `trim` and JavaScript `trim` (their whitespace sets differ), substring search,
    joining, decimal digits and `padStart`.
  - `filter`/`map`/`take`/`reverse` on sequences, with their algebra.
- `FeedbackService` (`feedback_service.dfy`): the stand-in generator, with its fixed
  dummy outputs.
- `JournalController` (`journal_controller.dfy`):
  - `store`: validation with its after-hook, the selection of sections for the generator,
    the default and skipped feedback, and `updateOrCreate` on a `JournalTable` class. Its
    rows are keyed by user and date, as the unique index of the migration demands.
  - `show`: the ownership check and the status computation.
  - `history`: period clamping, the month's journals in date order, the calendar entries,
    and the three most recent distinct key phrases.
  - `hasAnyLongSection`: as a loop.
- `FeedbackPage` (`feedback_page.dfy`), the Feedback page:
  - the headed-layout parser and the text-to-speech text;
  - the first sentence of the overall comment and the summary line;
  - the sections shown, the tips toggle and the choice of journal panel.
- `JournalHistoryPage` (`journal_history_page.dfy`), the History page:
  - the date strings of the calendar;
  - the previous/next month links, the month length and the grid of cells;
  - the date-to-entry map and the lookup of each day's entry.
- `JournalPage` (`journal_page.dfy`): the journal form, its initial sections, the edit of
  one section and the posted array.
- `Flow` (`flow.dfy`): properties across layers.
  - The initial form is rejected.
  - An edited form is accepted exactly when its texts fit and one is not blank.
  - A stored long entry is shown as `ok` with the generated text.
  - A stored short entry is shown as `skipped_short` with the original sections.
  - A day of the calendar links to the journal written that day.

## Model

| member | source | states |
|---|---|---|
| Schema.BeforeOrder | app/Http/Controllers/JournalController.php:181 | the date order used to sort journals is irreflexive, transitive and total |
| Schema.DaysInMonth | resources/js/Pages/JournalHistory.tsx:62 | a month has 28 to 31 days, and February has 29 exactly in leap years |
| FeedbackService.KeptTexts | app/Services/JournalFeedbackService.php:27-30 | the texts kept for the English text are the truthy ones (not empty, not "0"), never more than the sections |
| FeedbackService.ComposeEnglishText | app/Services/JournalFeedbackService.php:25-37 | the English text always starts with the dummy text, and is exactly that text when no section has a truthy text |
| FeedbackService.Generate | app/Services/JournalFeedbackService.php:13-23 | the generator fills all six columns, with the composed English text and an empty corrections list |
| FeedbackService.GenerateFixedColumns | app/Services/JournalFeedbackService.php:39-62 | every column except the English text is the same for any input: the fixed overall comment and key phrase |
| FeedbackService.KeptTextsConcat | app/Services/JournalFeedbackService.php:27-30 | the kept texts of joined section lists are the kept texts of each, in order |
| FeedbackService.KeptTextsSingle | app/Services/JournalFeedbackService.php:27-30 | one section contributes its text exactly when that text is truthy |
| FeedbackService.KeptTextsAllTruthy | app/Services/JournalFeedbackService.php:27-36 | when every text is truthy, nothing is dropped and the texts keep their order |
| JournalController.RuleViolationsEmpty | app/Http/Controllers/JournalController.php:42-45 | a per-element rule reports nothing exactly when every element passes it |
| JournalController.FieldViolationsEmpty | app/Http/Controllers/JournalController.php:39-48 | the field rules pass exactly when the date is a date that exists on the calendar (years 1 to 32767), there are exactly three sections, and every section has a name and both labels and a text of at most 500 characters |
| JournalController.ElementRulesPass | app/Http/Controllers/JournalController.php:42-45 | the four `sections.*` rules all pass exactly when every section is valid |
| JournalController.ViolationsEmpty | app/Http/Controllers/JournalController.php:39-61 | a request is accepted exactly when the date is a real date, the field rules pass and some section's PHP-trimmed text is non-empty; the after-hook adds its error only then |
| JournalController.ForGenerator | app/Http/Controllers/JournalController.php:67-80 | the section passed on keeps its name and labels, and its text is the trimmed text, longer than 2 characters for a long section |
| JournalController.SectionsForLlm | app/Http/Controllers/JournalController.php:66-84 | at most as many sections reach the generator as were posted, each with a text longer than 2 characters |
| JournalController.SectionsForLlmConcat | app/Http/Controllers/JournalController.php:66-84 | the selection works section by section and keeps the order |
| JournalController.SectionsForLlmSingle | app/Http/Controllers/JournalController.php:68-80 | a section is passed on, trimmed, exactly when its trimmed text is longer than 2 characters |
| JournalController.SectionsForLlmTriple | app/Http/Controllers/JournalController.php:66-84 | for the three sections of a request, the selection is the long ones in order |
| JournalController.SectionsForLlmEmpty | app/Http/Controllers/JournalController.php:95 | the generator is skipped exactly when no section is long, the same test `show` uses |
| JournalController.HasAnyLongSection | app/Http/Controllers/JournalController.php:218-229 | the loop answers true exactly when some section's trimmed text is longer than 2 characters |
| JournalController.ArrayMerge | app/Http/Controllers/JournalController.php:98-101 | the merge has the keys of both arrays, and a key of the second array takes its value from the second |
| JournalController.FeedbackFor | app/Http/Controllers/JournalController.php:86-102 | the feedback written to the row always has all six columns |
| JournalController.SkippedFeedback | app/Http/Controllers/JournalController.php:86-96 | without long sections, the row gets the short-entry message, empty corrections, and null English text and key phrase |
| JournalController.GeneratedFeedback | app/Http/Controllers/JournalController.php:97-102 | with long sections, the row gets exactly the generator's columns, with the dummy English text built from the long texts |
| JournalController.JournalTable.constructor | database/migrations/2025_12_07_135535_create_journals_table.php:39 | an empty table satisfies the invariant: rows are keyed by their own user and date, every date is a real calendar date, and ids are unique |
| JournalController.JournalTable.UpdateOrCreate | app/Http/Controllers/JournalController.php:104-115 | an existing row for the user and date keeps its id and takes the new columns; otherwise a new row gets the next id; other rows are unchanged; the invariant is kept, since only a valid date is ever stored |
| JournalController.JournalTable.Store | app/Http/Controllers/JournalController.php:37-118 | a request with a violation is refused and changes nothing; an accepted one has a valid date and sections, stores the original sections and the computed feedback under the user and date, and returns the row id |
| JournalController.JournalTable.History | app/Http/Controllers/JournalController.php:161-213 | the page shows the clamped year and month, that month's entries of the user, and its key phrases |
| JournalController.MergeAllColumns | app/Http/Controllers/JournalController.php:109-114 | writing the full feedback over stored columns leaves no old column behind |
| JournalController.ComposeFeedback | app/Http/Controllers/JournalController.php:86-102 | the branch on the selection yields the feedback of the specification function |
| JournalController.StatusOf | app/Http/Controllers/JournalController.php:129-138 | the status is `skipped_short` exactly without long sections and English text, `error` exactly with long sections but no English text, `ok` exactly when there is English text |
| JournalController.Show | app/Http/Controllers/JournalController.php:123-156 | another user's journal is refused with 403; the owner gets the row's id, date, original sections, feedback columns and computed status |
| JournalController.StoredEntryStatus | app/Http/Controllers/JournalController.php:95-102 | an entry stored by `store` is shown as `ok` when it had a long section and as `skipped_short` otherwise, never as `error` |
| JournalController.ClampPeriod | app/Http/Controllers/JournalController.php:163-173 | a month outside 1 to 12 becomes the current month and a year below 1 the current year; others are kept |
| JournalController.MonthJournalsFromMembers | app/Http/Controllers/JournalController.php:179-180 | every journal listed is the user's and lies in the month, from the given day on |
| JournalController.MonthJournalsFromComplete | app/Http/Controllers/JournalController.php:179-180 | every journal of the user in the month, from the given day on, is listed |
| JournalController.MonthJournalsFromAscending | app/Http/Controllers/JournalController.php:181 | the list is in strictly ascending date order |
| JournalController.MonthJournalsSpec | app/Http/Controllers/JournalController.php:179-182 | the month's journals are exactly the user's rows dated in that month, in ascending date order |
| JournalController.YearString | app/Http/Controllers/JournalController.php:187 | the year part of a date string has at least 4 characters, and exactly 4 for years 0 to 9999 |
| JournalController.MonthDaySuffix | app/Http/Controllers/JournalController.php:187 | the "-MM-DD" part has 6 characters |
| JournalController.DateString | app/Http/Controllers/JournalController.php:187 | a date string is at least 10 characters long, and exactly 10 for 4-digit years |
| JournalController.YearStringSign | app/Http/Controllers/JournalController.php:187 | the year part starts with '-' exactly for negative years |
| JournalController.YearStringInjective | app/Http/Controllers/JournalController.php:187 | different years give different year parts |
| JournalController.MonthDaySuffixInjective | app/Http/Controllers/JournalController.php:187 | different months or days give different "-MM-DD" parts |
| JournalController.DateStringInjective | app/Http/Controllers/JournalController.php:187 | different dates give different date strings, so a date string identifies the day |
| JournalController.InsertByDateDesc | app/Http/Controllers/JournalController.php:196 | inserting a journal into the descending list adds exactly one element |
| JournalController.SortByDateDesc | app/Http/Controllers/JournalController.php:196 | sorting keeps the number of journals |
| JournalController.InsertOldest | app/Http/Controllers/JournalController.php:196 | a journal older than all others goes to the end of the descending list |
| JournalController.SortAscending | app/Http/Controllers/JournalController.php:181-196 | sorting the ascending month list by descending date reverses it |
| JournalController.UniqueByPhrase | app/Http/Controllers/JournalController.php:197 | removing repeated key phrases never adds journals |
| JournalController.UniqueMembers | app/Http/Controllers/JournalController.php:197 | every journal kept comes from the input, with a phrase not seen before, and no two kept journals share a phrase |
| JournalController.UniqueDescending | app/Http/Controllers/JournalController.php:196-197 | removing repeats keeps the descending date order |
| JournalController.UniqueNewest | app/Http/Controllers/JournalController.php:196-197 | the journal kept for a phrase is the newest journal with that phrase |
| JournalController.UniqueCovers | app/Http/Controllers/JournalController.php:197 | every phrase of the input that was not already seen is kept once |
| JournalController.RecentPhraseJournals | app/Http/Controllers/JournalController.php:194-199 | at most three key phrases are shown |
| JournalController.PhraseCandidatesFacts | app/Http/Controllers/JournalController.php:194-196 | the candidates are exactly the month's journals with a key phrase, newest first |
| JournalController.RecentPhraseJournalsSpec | app/Http/Controllers/JournalController.php:194-199 | the phrases shown come from journals that have one, are pairwise distinct, newest first, and each comes from the newest journal with that phrase |
| JournalController.RecentPhraseJournalsComplete | app/Http/Controllers/JournalController.php:194-199 | a phrase of the month that is not shown is older than all three phrases shown |
| JournalController.KeyPhrases | app/Http/Controllers/JournalController.php:194-205 | the key-phrase list has at most three items |
| FeedbackPage.NonBlank | resources/js/Pages/Feedback.tsx:64-66 | a captured part becomes absent exactly when it is all whitespace; a present part is trimmed and non-empty |
| FeedbackPage.ParseHeaded | resources/js/Pages/Feedback.tsx:52-68 | every part the parser returns is trimmed and non-empty |
| FeedbackPage.ParseAfter | resources/js/Pages/Feedback.tsx:52-68 | once the second heading is found, every part returned is trimmed and non-empty |
| FeedbackPage.Parts | resources/js/Pages/Feedback.tsx:61-67 | the three parts cut between the headings are trimmed and non-empty when present |
| FeedbackPage.ParseEnglishJournal | resources/js/Pages/Feedback.tsx:52-68 | the parse of the English text yields parts that are trimmed and non-empty when present |
| FeedbackPage.ParseNeedsHeadings | resources/js/Pages/Feedback.tsx:53-59 | the parse finds parts only when the text starts with "Mood:" and holds "What I did:" and then "Thoughts & Plans:" after it |
| FeedbackPage.ParseAtFirstHeadings | resources/js/Pages/Feedback.tsx:53-54 | the lazy groups end at the first "What I did:" and the first "Thoughts & Plans:" after it |
| FeedbackPage.ParseAtIndices | resources/js/Pages/Feedback.tsx:53-67 | with the headings found at the first occurrences, the parse is the three slices between them |
| FeedbackPage.ParseReachesAfter | resources/js/Pages/Feedback.tsx:53-57 | once "Mood:" opens the text and "What I did:" follows, the parse continues from that heading |
| FeedbackPage.ParseAfterAt | resources/js/Pages/Feedback.tsx:53-67 | the third heading found after the second fixes the cut of the last two parts |
| FeedbackPage.MarkerFirstAt | resources/js/Pages/Feedback.tsx:53-54 | a heading that does not occur in the preceding part is first found right after it |
| FeedbackPage.LayoutPrefixes | resources/js/Pages/Feedback.tsx:53-54 | the headed layout starts with its first heading, part and second heading, then the third heading |
| FeedbackPage.SecondHeadingAt | resources/js/Pages/Feedback.tsx:53-54 | in the headed layout, "What I did:" is first found after the mood part |
| FeedbackPage.ThirdHeadingAt | resources/js/Pages/Feedback.tsx:53-54 | in the headed layout, "Thoughts & Plans:" is first found after the second part |
| FeedbackPage.LayoutParts | resources/js/Pages/Feedback.tsx:53-54 | the slices between the headings of the layout are each part padded with one space and a newline |
| FeedbackPage.ParseLayout | resources/js/Pages/Feedback.tsx:52-68 | the parse of a headed layout gives back its three parts |
| FeedbackPage.LayoutCut | resources/js/Pages/Feedback.tsx:61-67 | the slices of a headed layout at its heading positions trim back to the three parts |
| FeedbackPage.NonBlankPadded | resources/js/Pages/Feedback.tsx:64-66 | a trimmed non-empty part padded with whitespace reads back as itself |
| FeedbackPage.ParseFormatted | resources/js/Pages/Feedback.tsx:52-68 | formatting three parts under the headings and parsing back gives the parts, when a part holds no later heading |
| FeedbackPage.ParsedSectionsPresent | resources/js/Pages/Feedback.tsx:137-140 | some parsed part is truthy exactly when the parse found the headings |
| FeedbackPage.BuildTts | resources/js/Pages/Feedback.tsx:70-84 | the push loop yields the text-to-speech text of the specification function |
| FeedbackPage.TtsOfUnparsed | resources/js/Pages/Feedback.tsx:70-84 | an English text without the headings is read aloud whole |
| FeedbackPage.TtsOfFormatted | resources/js/Pages/Feedback.tsx:70-84 | a headed English text is read aloud as its three parts joined by spaces, without the headings |
| FeedbackPage.TtsOfParts | resources/js/Pages/Feedback.tsx:74-81 | with three non-empty parts, the speech text is the parts joined by one space |
| FeedbackPage.SkipTerminators | resources/js/Pages/Feedback.tsx:92 | the scan stops at the first character that is not a sentence terminator |
| FeedbackPage.RunEnd | resources/js/Pages/Feedback.tsx:92 | the run of non-terminators ends at the first terminator or the end |
| FeedbackPage.GetFirstSentence | resources/js/Pages/Feedback.tsx:86-94 | the first sentence is never longer than the trimmed text |
| FeedbackPage.FirstSentenceEmpty | resources/js/Pages/Feedback.tsx:86-94 | the first sentence is empty exactly when the text is all whitespace |
| FeedbackPage.FirstSentenceShape | resources/js/Pages/Feedback.tsx:86-94 | when the trimmed text has a non-terminator, the match starts at the first non-terminator and ends just after the first terminator that follows, or at the end of the text; the first sentence is that match trimmed, a slice of it with no terminator except perhaps its last character |
| FeedbackPage.TrimmedPiece | resources/js/Pages/Feedback.tsx:93 | trimming the matched piece keeps it a slice, free of inner terminators |
| FeedbackPage.FirstMatch | resources/js/Pages/Feedback.tsx:92-93 | the match starts at the first non-terminator (everything before it is a terminator) and runs through the first terminator after it, or to the end of the text when there is none; the first sentence is that match trimmed |
| FeedbackPage.FirstSentenceAllTerminators | resources/js/Pages/Feedback.tsx:92-93 | a text of terminators only is its own first sentence |
| FeedbackPage.JournalMessage | resources/js/Pages/Feedback.tsx:170-175 | a notice is shown exactly when the status is not `ok` |
| FeedbackPage.SummaryCases | resources/js/Pages/Feedback.tsx:177-184 | the summary is the status notice or the "no feedback yet" text when there is no overall comment, the comment itself when the status is not `ok`, and its first sentence otherwise |
| FeedbackPage.SummaryNonEmpty | resources/js/Pages/Feedback.tsx:177-184 | the summary is blank only when an overall comment exists and is blank |
| FeedbackPage.EnglishDisplayOf | resources/js/Pages/Feedback.tsx:186-202 | the English sections shown are the parsed parts that exist, in order mood, what I did, thoughts and plans, and there are some exactly when the parse found parts |
| FeedbackPage.VisibleField | resources/js/Pages/Feedback.tsx:202 | a parsed part is visible exactly when it is present |
| FeedbackPage.FallbackSectionsConcat | resources/js/Pages/Feedback.tsx:204-210 | the original sections are shown section by section, in order |
| FeedbackPage.FallbackSectionsSingle | resources/js/Pages/Feedback.tsx:204-210 | an original section is shown, under its English label, else its Japanese label, else its name, exactly when its text is not blank |
| FeedbackPage.StoredFallbackSingle | resources/js/Pages/Feedback.tsx:204-210 | with a null text read as empty, a stored section is shown under its English label, else its Japanese label, else its name, exactly when it has a text that is not blank |
| FeedbackPage.StoredFallbackSections | resources/js/Pages/Feedback.tsx:204-210 | with a null text read as empty, the stored sections shown are exactly those with a non-blank text, in stored order |
| FeedbackPage.StoredFallbackCons | resources/js/Pages/Feedback.tsx:204-210 | the original sections of a list are those of its first section followed by those of the rest |
| FeedbackPage.ToggleHidesTips | resources/js/Pages/Feedback.tsx:212-215 | collapsed, the tips are the first two (or fewer); the toggle is offered exactly when that hides a tip; expanded, all tips show |
| FeedbackPage.PanelCases | resources/js/Pages/Feedback.tsx:266-323 | with English feedback the panel shows parsed parts or else the whole English text, never nothing; without it, the original sections |
| JournalHistoryPage.JsNumberString | resources/js/Pages/JournalHistory.tsx:48 | a number's string is non-empty and starts with '-' exactly for negative numbers |
| JournalHistoryPage.FormatDate | resources/js/Pages/JournalHistory.tsx:45-49 | the day string has 10 characters for 4-digit years, and at most 9 for years below 1000 |
| JournalHistoryPage.FormatDateFields | resources/js/Pages/JournalHistory.tsx:45-49 | for 4-digit years the day string is "YYYY-MM-DD", and its three fields read back as the year, month and day |
| JournalHistoryPage.FormatDateIso | resources/js/Pages/JournalHistory.tsx:45-49 | the corrected day string, with a 4-digit year, is at least 10 characters long |
| JournalHistoryPage.FormatDateIsoStored | resources/js/Pages/JournalHistory.tsx:158-167 | the corrected day string equals the date string the server sends for that date |
| JournalHistoryPage.FormatDateAgrees | resources/js/Pages/JournalHistory.tsx:45-49 | from year 1000 on, the page's day string and the corrected one coincide |
| JournalHistoryPage.FormatDateMissesEarlyYears | resources/js/Pages/JournalHistory.tsx:45-49 | for years below 1000 the page's day string equals no server date string, so no day of such a year links |
| JournalHistoryPage.MonthNumberInjective | resources/js/Pages/JournalHistory.tsx:70-80 | a (year, month) pair is determined by its month count |
| JournalHistoryPage.JsMonthStart | resources/js/Pages/JournalHistory.tsx:70-80 | a month index out of 0 to 11 carries into the year, so the month lands 1 to 12 |
| JournalHistoryPage.CalendarPrev | resources/js/Pages/JournalHistory.tsx:70-76 | the corrected previous link is the month just before |
| JournalHistoryPage.CalendarNext | resources/js/Pages/JournalHistory.tsx:70-80 | the corrected next link is the month just after |
| JournalHistoryPage.CalendarPrevNext | resources/js/Pages/JournalHistory.tsx:70-80 | following next after previous, or previous after next, returns to the same month |
| JournalHistoryPage.MonthParamsAgree | resources/js/Pages/JournalHistory.tsx:70-80 | outside years 0 to 99 the page's links are the adjacent months |
| JournalHistoryPage.MonthParamsEarlyYears | resources/js/Pages/JournalHistory.tsx:70-80 | for years 0 to 99 the links are the months adjacent to the same month in 1900 + year, e.g. from 0050-03 the previous link is 1950-02 |
| JournalHistoryPage.PageDaysInMonth | resources/js/Pages/JournalHistory.tsx:62 | the grid has 28 to 31 days |
| JournalHistoryPage.PageDaysInMonthGregorian | resources/js/Pages/JournalHistory.tsx:62 | from year 1 on, the page's month length is the Gregorian one |
| JournalHistoryPage.Cells | resources/js/Pages/JournalHistory.tsx:85-93 | the grid is whole weeks, less than a week longer than blanks plus days, with day n at index startWeekday + n - 1 and blanks elsewhere |
| JournalHistoryPage.FindEntryByDate | resources/js/Pages/JournalHistory.tsx:51-54 | the search finds nothing exactly when no entry has the date, and whatever it finds has the date |
| JournalHistoryPage.FindEntryFirst | resources/js/Pages/JournalHistory.tsx:51-54 | the search returns the first entry with the date |
| JournalHistoryPage.EntryMapOf | resources/js/Pages/JournalHistory.tsx:64-68 | every key of the map is the date of the entry it holds, which is one of the entries |
| JournalHistoryPage.BuildEntryMap | resources/js/Pages/JournalHistory.tsx:64-68 | the loop builds the map of the specification function |
| JournalHistoryPage.EntryMapKeys | resources/js/Pages/JournalHistory.tsx:64-68 | a date is a key of the map exactly when some entry has it |
| JournalHistoryPage.EntryMapLast | resources/js/Pages/JournalHistory.tsx:64-68 | for repeated dates, the later entry wins |
| JournalHistoryPage.CellEntrySpec | resources/js/Pages/JournalHistory.tsx:163-165 | a cell finds no entry exactly when no entry has its date; a mapped date gives the map's entry |
| JournalHistoryPage.CalendarCellsSpec | resources/js/Pages/JournalHistory.tsx:85-93 | day n of the month sits at index startWeekday + n - 1 and links to the entry stored for its date, exactly when one exists |
| JournalPage.ChangeSection | resources/js/Pages/Journal.tsx:80-87 | an edit replaces the text of the section at the index, keeps its name and labels, leaves the other sections alone, and is no change for an index out of range |
| JournalPage.ChangeSectionLastWins | resources/js/Pages/Journal.tsx:80-87 | of two edits of one section, the later one remains |
| JournalPage.ChangeSectionCommutes | resources/js/Pages/Journal.tsx:80-87 | edits of different sections can be made in either order |
| JournalPage.FormInvariant | resources/js/Pages/Journal.tsx:26-45 | the form starts with the three sections Mood, What I did and Thoughts & Plans, empty, and every edit keeps their names and labels |
| Flow.FormLabelsRequired | resources/js/Pages/Journal.tsx:26-45 | a section from the form always passes the name and label rules, so it is valid exactly when its text fits 500 characters |
| Flow.InitialFormRejected | app/Http/Controllers/JournalController.php:50-59 | the form as first shown is refused: with the content error alone when its date is valid, after the date error otherwise |
| Flow.InitialFormBlank | resources/js/Pages/Journal.tsx:26-45 | every text of the form as first shown is blank, so the content check fails |
| Flow.FormSectionShown | resources/js/Pages/Feedback.tsx:204-210 | a section posted from the form comes back among the original sections under its English heading, text unchanged, exactly when that text is not blank |
| Flow.FormAccepted | app/Http/Controllers/JournalController.php:39-61 | an edited form is accepted exactly when its date is valid, every text fits 500 characters and some text is not blank |
| Flow.GeneratedTextUnheaded | resources/js/Pages/Feedback.tsx:52-68 | the generator's English text never has the headed layout, so the page parses no parts from it |
| Flow.StoredLongEntryView | app/Http/Controllers/JournalController.php:95-138 | an entry stored with a long section is shown as `ok` with English feedback and key phrase, the whole English text in the panel and read aloud, and the first sentence of the overall comment as summary |
| Flow.UnheadedPanel | resources/js/Pages/Feedback.tsx:266-323 | English feedback without headings is shown as the whole text |
| Flow.StoredLongColumns | app/Http/Controllers/JournalController.php:97-138 | an entry stored with a long section has status `ok`, the dummy English text of its long texts, and the fixed overall comment and key phrase |
| Flow.PageFlagsOfRow | resources/js/Pages/Feedback.tsx:128-131 | whatever the sections, English feedback is shown exactly when the row's English text is a non-empty string, and the key phrase exactly when the row also has a non-empty key phrase |
| Flow.NullTextBreaksFeedbackPage | app/Http/Controllers/JournalController.php:39-48 | sections with a null text pass validation, yet the page's original-section list as written fails on them |
| Flow.StoredShortEntryView | app/Http/Controllers/JournalController.php:95-138 | an entry stored without a long section is shown as `skipped_short`, with no English feedback or key phrase and the short-entry message; the panel holds exactly the stored sections with a non-blank text, in order, each under its label |
| Flow.CalendarLinksJournals | resources/js/Pages/JournalHistory.tsx:158-167 | on the calendar, a day links to the journal the user wrote that day, and a day without one does not link |
| JournalController.MonthEntryDates | app/Http/Controllers/JournalController.php:179-192 | the entries of a month page have pairwise different date strings |
| JournalController.DateStringsDiffer | app/Http/Controllers/JournalController.php:184-192 | different dates give different date strings |
| Flow.MonthEntriesMapped | resources/js/Pages/JournalHistory.tsx:64-68 | every entry of a month page is the one the calendar's date map holds for its date, so no entry is hidden by another |
| Flow.DayRowListed | app/Http/Controllers/JournalController.php:179-192 | a row the user has for a day of the month is listed under that day's date string |
| Flow.DayEntryRow | app/Http/Controllers/JournalController.php:179-192 | an entry listed under a day's date string is the user's row for that day |
| Flow.MonthEntryOfDay | app/Http/Controllers/JournalController.php:179-192 | among the month's entries, a day's date string is found exactly when the user has a row for that day, and then it is that row |
| Flow.JournalOfDate | app/Http/Controllers/JournalController.php:179-192 | a journal of the month with a day's date string is the user's row for that day |

## Left out

- The HTTP layer is not modelled: routing, Inertia rendering, the authentication middleware, and the redirect at the end of `store`.
  - `Store` returns the row id instead of a redirect.
  - `Show` takes the viewer's id as a parameter.
- The framework's global middleware that trims request strings and turns empty strings into null is not modelled. Request strings arrive as sent.
- Laravel's `date` rule parses the date string with `strtotime` and `date_parse`. The model takes the request's date already parsed (`DateField`): missing, not a date, or a year, month and day; `Schema.ValidDate` then applies the rule's `checkdate` test. Relative formats such as "tomorrow" are not modelled.
- The `string` and `array` type rules are carried by the model's types. A non-string name or a non-array `sections` cannot be expressed.
- Eloquent, the database and JSON column casting are not modelled.
  - The table is a map keyed by user and date.
  - Columns hold values.
  - The month query reads that map directly.
- `Carbon::create` for out-of-range input is not modelled; the clamped year and month are always valid.
- Laravel's `unique` compares with loose equality. The model compares key phrases as strings, which agrees for non-numeric key phrases; PHP 8 compares two numeric strings by value.
- The regular expressions of `parseEnglishJournal` and `getFirstSentence` are modelled as explicit scans of the patterns used, not as a regex engine.
- `mb_strlen` counts code points. Dafny's `char` is a Unicode scalar value, so lengths agree. Grapheme clusters and normalisation are not considered.
- The speech synthesis API, `isSpeaking`, and the speak/stop handlers of the Feedback page are not modelled. Only the text to be spoken is.
- The `showAllTips` state is a parameter of `FeedbackPage.VisibleCorrections`.
- The how-to guide and its localStorage flag, placeholders, month names, weekday labels, class names and markup are presentation only.
- `startWeekday` is a parameter of `JournalHistoryPage.Cells`, because it comes from the browser's `getDay`. For years 0 to 99 the browser computes it for 1900 + year.
- JavaScript `Date` behaviour for negative years is not modelled; the server never sends one.
- `FeedbackPage.PageSectionOf`: a missing name becomes an empty id and caption instead of `undefined`, which React renders as nothing.
- `JournalPage.Submitted`: the Inertia form helper and its `post` call are modelled only as the array it posts. The `date` field is the `today` prop.

## Findings

| source | as written | input that shows it | evidently intended | confidence | as-written member | corrected member |
|---|---|---|---|---|---|---|
| resources/js/Pages/JournalHistory.tsx:45-49 | the calendar's day string writes the year without padding, while the server sends `YYYY-MM-DD` dates (`Carbon::toDateString`) | year 999 (the server accepts any year from 1): a journal dated 0999-01-05 is sent as "0999-01-05" but the cell looks up "999-01-05", so the day does not link | pad the year to four digits, as the server does | medium; not executed | JournalHistoryPage.FormatDateMissesEarlyYears | JournalHistoryPage.FormatDateIsoStored |
| resources/js/Pages/JournalHistory.tsx:70-80 | the previous/next links use `new Date(year, month - 2, 1)` and `new Date(year, month, 1)`, which read years 0 to 99 as 1900 to 1999 | year 50, month 3: the previous link asks for 1950-02 instead of 0050-02 | link to the adjacent month of the same year | high; not executed | JournalHistoryPage.MonthParamsEarlyYears | JournalHistoryPage.CalendarPrevNext |
| resources/js/Pages/Feedback.tsx:204-210 | the original-section list calls `section.text.trim()` on every stored section, on every render, while `store` accepts a null or missing text (`nullable`) and `show` sends the sections back as stored | a journal posted with sections Mood/null, WhatIDid/"I studied English.", ThoughtsPlans/null: it is stored, and its Feedback page throws a `TypeError` | read a null text as empty (`section.text ?? ""`) | high for a client that posts null; with the framework's default middleware that turns "" into null, a blank form section does the same; not executed | Flow.NullTextBreaksFeedbackPage | FeedbackPage.StoredFallbackSections |

`JournalHistoryPage.CalendarCells` uses the corrected day string `FormatDateIso`, and
`Flow.StoredShortEntryView` reads stored sections through the corrected `FeedbackPage.PageSectionOf`. The
corrected links `CalendarPrev` and `CalendarNext` agree with the page's links outside years
0 to 99 (`JournalHistoryPage.MonthParamsAgree`).
