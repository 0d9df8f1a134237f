/** Two concrete inputs of the section-presence check, worked out. */
module ResumeFormatExamples {
  import opened Text
  import opened ResumeFormat

  /** Any capitalisation of the five names, comma-separated, is reported complete. */
  lemma ListedSectionsAllFound(t: string)
    requires Lower(t) == "education, " + "experience, " + "skills, " + "projects, " + "certifications"
    ensures CheckResumeFormat(t) == []
  {
    forall k | 0 <= k < |Sections| ensures SubstringIn(Sections[k], Lower(t)) {
      SectionInListed(t, k);
    }
  }

  lemma SectionInListed(t: string, k: nat)
    requires Lower(t) == "education, " + "experience, " + "skills, " + "projects, " + "certifications"
    requires k < |Sections|
    ensures SubstringIn(Sections[k], Lower(t))
  {
    var l := Lower(t);
    if k == 0 {
      assert OccursAt("education", l, 0);
    } else if k == 1 {
      assert OccursAt("experience", l, 11);
    } else if k == 2 {
      assert OccursAt("skills", l, 23);
    } else if k == 3 {
      assert OccursAt("projects", l, 31);
    } else {
      assert OccursAt("certifications", l, 41);
    }
  }

  /** Any capitalisation of "I like cats" names no section: all five are
      reported missing, in the vocabulary's order. */
  lemma UnrelatedTextMissesAllSections(t: string)
    requires Lower(t) == "i like cats"
    ensures CheckResumeFormat(t) == Sections
  {
    forall k | 0 <= k < |Sections| ensures !SubstringIn(Sections[k], Lower(t)) {
      SectionAbsentFromUnrelated(t, k);
    }
    NoSectionsPresent(t);
  }

  lemma SectionAbsentFromUnrelated(t: string, k: nat)
    requires Lower(t) == "i like cats"
    requires k < |Sections|
    ensures !SubstringIn(Sections[k], Lower(t))
  {
    var l := Lower(t);
    if k == 2 {
      // every character of "skills" occurs in the text, but its only 's' is the last one
      forall i ensures !OccursAt("skills", l, i) {
        if 0 <= i <= 5 {
          assert l[i..i + 6][0] == l[i];
          assert l[i] != 's';
        }
      }
    } else {
      // "education" and "experience" have a 'd' or an 'x' at index 1,
      // "projects" starts with 'p', "certifications" has an 'r' at index 2
      var j := if k == 3 then 0 else if k == 4 then 2 else 1;
      CharMissingNotIn(Sections[k], l, j);
    }
  }
}
