/** The section-presence check `check_resume_format`: which of five fixed
    section names do not occur, ignoring case, in the resume text. */
module ResumeFormat {
  import opened Text
  import opened Sequences

  /** The fixed vocabulary of section names, in the order they are reported. */
  const Sections: seq<string> := ["education", "experience", "skills", "projects", "certifications"]

  /** The list comprehension `[s for s in names if s not in lowered]`. */
  function MissingSections(names: seq<string>, lowered: string): (r: seq<string>)
    ensures IsSubsequence(r, names)
    ensures forall s :: s in r <==> s in names && !SubstringIn(s, lowered)
  {
    if names == [] then []
    else
      var rest := MissingSections(names[1..], lowered);
      if !SubstringIn(names[0], lowered) then
        assert ([names[0]] + rest)[1..] == rest;
        [names[0]] + rest
      else
        SubsequenceSkip(rest, names);
        rest
  }

  /** The comprehension keeps every copy of an absent name and drops every
      copy of a present one, so repeated names are counted too. */
  lemma {:induction false} MissingSectionsCounts(names: seq<string>, lowered: string, s: string)
    ensures multiset(MissingSections(names, lowered))[s] ==
      if SubstringIn(s, lowered) then 0 else multiset(names)[s]
  {
    if names != [] {
      MissingSectionsCounts(names[1..], lowered, s);
      assert names == [names[0]] + names[1..];
    }
  }

  /** `check_resume_format(resume_text)`. */
  function CheckResumeFormat(resumeText: string): (missing: seq<string>)
    ensures IsSubsequence(missing, Sections)
    ensures |missing| <= |Sections| == 5
    ensures forall s :: s in missing <==> s in Sections && !SubstringIn(s, Lower(resumeText))
  {
    var r := MissingSections(Sections, Lower(resumeText));
    SubsequenceMembers(r, Sections);
    r
  }

  /** The missing sections are determined exactly: any sublist of the
      vocabulary that holds precisely the names absent from the lower-cased
      text is the result of the check. */
  lemma CheckResumeFormatExact(resumeText: string, m: seq<string>)
    requires IsSubsequence(m, Sections)
    requires forall s :: s in m <==> s in Sections && !SubstringIn(s, Lower(resumeText))
    ensures CheckResumeFormat(resumeText) == m
  {
    SubsequenceDeterminedByMembers(CheckResumeFormat(resumeText), m, Sections);
  }

  /** The check ignores case: a text and its lower-cased form agree. */
  lemma CheckResumeFormatIgnoresCase(resumeText: string)
    ensures CheckResumeFormat(Lower(resumeText)) == CheckResumeFormat(resumeText)
  {
    LowerIdempotent(resumeText);
  }

  /** A text that holds every section name, in any mix of upper and lower
      case, is reported complete. */
  lemma AllSectionsPresent(resumeText: string)
    requires forall s :: s in Sections ==> exists i :: OccursIgnoringCase(s, resumeText, i)
    ensures CheckResumeFormat(resumeText) == []
  {
    var r := CheckResumeFormat(resumeText);
    if r != [] {
      var s := r[0];
      assert s in Sections;
      var i :| OccursIgnoringCase(s, resumeText, i);
      LowerSlice(resumeText, i, i + |s|);
      assert OccursAt(s, Lower(resumeText), i);
    }
  }

  /** A text that holds no section name is reported as missing all five,
      in the vocabulary's order. */
  lemma NoSectionsPresent(resumeText: string)
    requires forall s :: s in Sections ==> !SubstringIn(s, Lower(resumeText))
    ensures CheckResumeFormat(resumeText) == Sections
  {
    SubsequenceReflexive(Sections);
    CheckResumeFormatExact(resumeText, Sections);
  }
}
