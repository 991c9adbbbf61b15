/** The journal form: the three sections a new journal starts with, the edit of one
    section's text, and the `sections` array the form posts. */
module JournalPage {

  import opened Wrappers
  import opened Schema
  import Seqs

  datatype SectionName = Mood | WhatIDid | ThoughtsPlans

  /** One section of the form's data. */
  datatype FormSection = FormSection(name: SectionName, labelEn: string, labelJa: string, text: string)

  /** `initialSections`. */
  const InitialSections: seq<FormSection> := [
    FormSection(Mood, "Mood", "気分", ""),
    FormSection(WhatIDid, "What I did", "今日やったこと", ""),
    FormSection(ThoughtsPlans, "Thoughts & Plans", "考えごと・明日やりたいこと", "")
  ]

  /** The name as the form sends it. */
  function NameString(name: SectionName): string {
    match name
    case Mood => "Mood"
    case WhatIDid => "WhatIDid"
    case ThoughtsPlans => "ThoughtsPlans"
  }

  /** `handleChangeSection(index, value)`: a copy of the sections in which the one at `index`
      has text `value`. */
  function ChangeSection(sections: seq<FormSection>, index: int, value: string): (r: seq<FormSection>)
    ensures |r| == |sections|
    ensures 0 <= index < |sections| ==>
      && r[index].text == value
      && r[index].name == sections[index].name
      && r[index].labelEn == sections[index].labelEn
      && r[index].labelJa == sections[index].labelJa
    ensures forall i :: 0 <= i < |sections| && i != index ==> r[i] == sections[i]
    ensures !(0 <= index < |sections|) ==> r == sections
  {
    seq(|sections|, i requires 0 <= i < |sections| => if i == index then sections[i].(text := value) else sections[i])
  }

  /** Of two edits of the same section, the later one is what remains. */
  lemma ChangeSectionLastWins(sections: seq<FormSection>, index: int, first: string, second: string)
    ensures ChangeSection(ChangeSection(sections, index, first), index, second) == ChangeSection(sections, index, second)
  {
    var a := ChangeSection(ChangeSection(sections, index, first), index, second);
    var b := ChangeSection(sections, index, second);
    assert forall i :: 0 <= i < |a| ==> a[i] == b[i];
  }

  /** Edits of two different sections can be made in either order. */
  lemma ChangeSectionCommutes(sections: seq<FormSection>, i: int, j: int, v: string, w: string)
    requires i != j
    ensures ChangeSection(ChangeSection(sections, i, v), j, w) == ChangeSection(ChangeSection(sections, j, w), i, v)
  {
    var a := ChangeSection(ChangeSection(sections, i, v), j, w);
    var b := ChangeSection(ChangeSection(sections, j, w), i, v);
    assert forall k :: 0 <= k < |a| ==> a[k] == b[k];
  }

  /** The form's sections: the initial three, in order, each with whatever text. */
  predicate IsForm(sections: seq<FormSection>) {
    && |sections| == 3
    && forall i :: 0 <= i < 3 ==> sections[i] == InitialSections[i].(text := sections[i].text)
  }

  /** The form starts with the three sections Mood, What I did and Thoughts & Plans, all
      empty, and every edit keeps it that form. */
  lemma FormInvariant(sections: seq<FormSection>, index: int, value: string)
    ensures IsForm(InitialSections)
    ensures forall i :: 0 <= i < |InitialSections| ==> InitialSections[i].text == ""
    ensures IsForm(sections) ==> IsForm(ChangeSection(sections, index, value))
  {
    if IsForm(sections) {
      var r := ChangeSection(sections, index, value);
      forall i | 0 <= i < 3 ensures r[i] == InitialSections[i].(text := r[i].text) {
        assert sections[i] == InitialSections[i].(text := sections[i].text);
      }
    }
  }

  /** A section as the form posts it: every key present. */
  function Submitted(section: FormSection): (s: SectionInput)
    ensures s.name == Some(NameString(section.name))
    ensures s.text == Some(section.text) && s.labelEn == Some(section.labelEn) && s.labelJa == Some(section.labelJa)
  {
    SectionInput(Some(NameString(section.name)), Some(section.labelEn), Some(section.labelJa), Some(section.text))
  }

  /** The posted `sections` array. */
  function SubmittedSections(sections: seq<FormSection>): (r: seq<SectionInput>)
    ensures |r| == |sections|
    ensures forall i :: 0 <= i < |sections| ==> r[i] == Submitted(sections[i])
  {
    Seqs.Map(sections, Submitted)
  }
}
