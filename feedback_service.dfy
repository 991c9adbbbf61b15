/** The feedback generator. It calls no language model: `Generate` returns fixed strings for
    five of the six feedback columns and, for `english_text`, a fixed prefix followed by the
    submitted texts. */
module FeedbackService {

  import opened Wrappers
  import opened Strings
  import opened Schema
  import Seqs

  const DummyEnglishText := "Dummy English text"
  const DummyEnglishPrefix := "Dummy English text: "
  const DummyFeedbackOverall := "This is a dummy feedback."
  const DummyKeyPhraseEn := "Dummy key phrase (en)"
  const DummyKeyPhraseJa := "Dummy key phrase (ja)"
  const DummyKeyPhraseReasonJa := "Reason for the dummy key phrase."

  /** PHP truthiness of `$section['text'] ?? null` when that is a string or null: null, ""
      and "0" are falsy, every other string is truthy. */
  predicate IsTruthy(text: Option<string>) {
    text.Some? && text.value != "" && text.value != "0"
  }

  predicate HasTruthyText(section: SectionInput) {
    IsTruthy(section.text)
  }

  function TextOf(section: SectionInput): string {
    section.text.GetOr("")
  }

  /** The texts `array_filter` keeps from `array_map(fn ($s) => $s['text'] ?? null, ...)`,
      in input order. */
  function KeptTexts(sections: seq<SectionInput>): (texts: seq<string>)
    ensures |texts| <= |sections|
    ensures forall k :: 0 <= k < |texts| ==> texts[k] != "" && texts[k] != "0"
  {
    Seqs.Map(Seqs.Filter(sections, HasTruthyText), TextOf)
  }

  /** `composeEnglishText`: the fixed text alone when no text survives `array_filter`,
      otherwise the prefix followed by the surviving texts joined by single spaces. The
      result is never null. */
  function ComposeEnglishText(sections: seq<SectionInput>): (r: string)
    ensures StartsWith(r, DummyEnglishText)
    ensures r == DummyEnglishText <==> KeptTexts(sections) == []
  {
    var texts := KeptTexts(sections);
    if texts == [] then DummyEnglishText
    else
      assert (DummyEnglishPrefix + Join(texts, " "))[..|DummyEnglishText|] == DummyEnglishText;
      assert |DummyEnglishPrefix + Join(texts, " ")| > |DummyEnglishText|;
      DummyEnglishPrefix + Join(texts, " ")
  }

  /** `generate`: exactly the six feedback keys; `english_text` is a string built from the
      input, the corrections list is empty, and the other four are fixed strings. */
  function Generate(sections: seq<SectionInput>): (r: Feedback)
    ensures r.Keys == FeedbackKeys
    ensures StringColumn(r, EnglishText) == Some(ComposeEnglishText(sections))
    ensures ListColumn(r, FeedbackCorrectionsJson) == Some([])
  {
    map[
      EnglishText := Str(ComposeEnglishText(sections)),
      FeedbackOverall := Str(DummyFeedbackOverall),
      FeedbackCorrectionsJson := List([]),
      KeyPhraseEn := Str(DummyKeyPhraseEn),
      KeyPhraseJa := Str(DummyKeyPhraseJa),
      KeyPhraseReasonJa := Str(DummyKeyPhraseReasonJa)
    ]
  }

  /** Every column except `english_text` is the same whatever the input; in particular the
      overall comment and the three key-phrase columns are non-null strings. */
  lemma GenerateFixedColumns(a: seq<SectionInput>, b: seq<SectionInput>)
    ensures forall k :: k in FeedbackKeys && k != EnglishText ==> Generate(a)[k] == Generate(b)[k]
    ensures StringColumn(Generate(a), FeedbackOverall) == Some(DummyFeedbackOverall)
    ensures StringColumn(Generate(a), KeyPhraseEn) == Some(DummyKeyPhraseEn)
    ensures StringColumn(Generate(a), KeyPhraseJa) == Some(DummyKeyPhraseJa)
    ensures StringColumn(Generate(a), KeyPhraseReasonJa) == Some(DummyKeyPhraseReasonJa)
  {
  }

  /** `array_filter` works text by text and keeps order. */
  lemma KeptTextsConcat(a: seq<SectionInput>, b: seq<SectionInput>)
    ensures KeptTexts(a + b) == KeptTexts(a) + KeptTexts(b)
  {
    Seqs.FilterConcat(a, b, HasTruthyText);
    Seqs.MapConcat(Seqs.Filter(a, HasTruthyText), Seqs.Filter(b, HasTruthyText), TextOf);
  }

  /** A text is dropped exactly when it is missing, null, "" or "0"; otherwise it is kept
      unchanged. */
  lemma KeptTextsSingle(section: SectionInput)
    ensures KeptTexts([section]) == if IsTruthy(section.text) then [section.text.value] else []
  {
    Seqs.FilterSingle(section, HasTruthyText);
  }

  /** When every text is a non-empty string other than "0", `array_filter` keeps them all,
      in order. */
  lemma {:induction false} KeptTextsAllTruthy(sections: seq<SectionInput>)
    requires forall k :: 0 <= k < |sections| ==> IsTruthy(sections[k].text)
    ensures KeptTexts(sections) == Seqs.Map(sections, TextOf)
  {
    if sections != [] {
      KeptTextsAllTruthy(sections[1..]);
      assert sections == [sections[0]] + sections[1..];
      KeptTextsConcat([sections[0]], sections[1..]);
      KeptTextsSingle(sections[0]);
      Seqs.MapConcat([sections[0]], sections[1..], TextOf);
    }
  }
}
