/** Keyword-overlap scoring: `calculate_resume_score` and the missing-keyword
    set difference, on top of an abstract keyword extractor. */
module KeywordMatch {
  import opened Sequences

  /** The cap on keywords per text used for the match score. */
  const ScoreCap: nat := 20
  /** The cap on keywords per text used for the missing-keyword report. */
  const MissingCap: nat := 15

  /** `extract_keywords(text, n)`: a bag-of-words vectoriser fitted on the one
      text, returning its vocabulary. Tokenising, stop words and frequency
      ranking are left abstract; all that is known is that the vocabulary
      holds at most `n` terms (`max_features = n`), without repetitions. */
  type Extractor = f: (string, nat) -> seq<string>
    | forall text, n :: |f(text, n)| <= n && Distinct(f(text, n))
    witness (text: string, n: nat) => []

  /** Python's `set(xs)`. */
  function ToSet(xs: seq<string>): (r: set<string>)
    ensures forall x :: x in r <==> x in xs
    ensures |r| <= |xs|
    ensures Distinct(xs) ==> |r| == |xs|
  {
    if xs == [] then {}
    else
      var rest := ToSet(xs[1..]);
      DistinctTail(xs);
      assert xs == [xs[0]] + xs[1..];
      {xs[0]} + rest
  }

  /** `set(extract_keywords(text, n))`. */
  function KeywordSet(extract: Extractor, text: string, n: nat): (r: set<string>)
    ensures |r| <= n
    ensures forall k :: k in r <==> k in extract(text, n)
  {
    ToSet(extract(text, n))
  }

  /** The pair `calculate_resume_score` returns, with the percentage kept exact. */
  datatype Score = Score(percent: real, matched: set<string>)

  /** The score of two keyword sets: the shared keywords, and their share of
      the job's keywords as a percentage, 0 when the job has none. */
  function ScoreKeywordSets(resumeKeywords: set<string>, jobKeywords: set<string>): (r: Score)
    ensures forall k :: k in r.matched <==> k in resumeKeywords && k in jobKeywords
    ensures jobKeywords == {} ==> r.percent == 0.0
    ensures jobKeywords != {} ==> r.percent * (|jobKeywords| as real) == (|r.matched| as real) * 100.0
  {
    var matched := resumeKeywords * jobKeywords;
    var percent := if jobKeywords != {} then (|matched| as real / |jobKeywords| as real) * 100.0 else 0.0;
    Score(percent, matched)
  }

  /** The shared keywords are among the job's, so at most as many. */
  lemma MatchedWithinJob(resumeKeywords: set<string>, jobKeywords: set<string>)
    ensures ScoreKeywordSets(resumeKeywords, jobKeywords).matched <= jobKeywords
    ensures |ScoreKeywordSets(resumeKeywords, jobKeywords).matched| <= |jobKeywords|
  {
    var m := ScoreKeywordSets(resumeKeywords, jobKeywords).matched;
    SubsetCardinality(m, jobKeywords);
  }

  lemma {:induction false} SubsetCardinality(a: set<string>, b: set<string>)
    requires a <= b
    ensures |a| <= |b|
    ensures |a| == |b| ==> a == b
  {
    assert b == a + (b - a);
    assert a !! (b - a);
  }

  /** The percentage always lies between 0 and 100. */
  lemma ScoreInRange(resumeKeywords: set<string>, jobKeywords: set<string>)
    ensures 0.0 <= ScoreKeywordSets(resumeKeywords, jobKeywords).percent <= 100.0
  {
    var r := ScoreKeywordSets(resumeKeywords, jobKeywords);
    MatchedWithinJob(resumeKeywords, jobKeywords);
    if jobKeywords != {} {
      var m, j := |r.matched| as real, |jobKeywords| as real;
      assert 0.0 <= m <= j && j > 0.0;
      assert r.percent == (m / j) * 100.0;
      assert m / j <= 1.0;
    }
  }

  /** The percentage is 100 exactly when the job has keywords and the resume
      has every one of them. */
  lemma ScoreFullIff(resumeKeywords: set<string>, jobKeywords: set<string>)
    ensures ScoreKeywordSets(resumeKeywords, jobKeywords).percent == 100.0
        <==> jobKeywords != {} && jobKeywords <= resumeKeywords
  {
    var r := ScoreKeywordSets(resumeKeywords, jobKeywords);
    MatchedWithinJob(resumeKeywords, jobKeywords);
    if jobKeywords != {} {
      var m, j := |r.matched| as real, |jobKeywords| as real;
      assert r.percent * j == m * 100.0;
      SubsetCardinality(r.matched, jobKeywords);
      if r.percent == 100.0 {
        assert m == j;
        assert r.matched == jobKeywords;
      }
      if jobKeywords <= resumeKeywords {
        assert r.matched == jobKeywords;
      }
    }
  }

  /** The percentage is 0 exactly when the job has no keywords or shares none
      with the resume. */
  lemma ScoreZeroIff(resumeKeywords: set<string>, jobKeywords: set<string>)
    ensures ScoreKeywordSets(resumeKeywords, jobKeywords).percent == 0.0
        <==> jobKeywords == {} || resumeKeywords !! jobKeywords
  {
  }

  /** `calculate_resume_score(resume_text, job_desc)`: both texts are reduced
      to their top `ScoreCap` keywords and scored against each other. */
  function CalculateResumeScore(extract: Extractor, resumeText: string, jobDesc: string): (r: Score)
    ensures r == ScoreKeywordSets(KeywordSet(extract, resumeText, ScoreCap), KeywordSet(extract, jobDesc, ScoreCap))
    ensures forall k :: k in r.matched <==> k in extract(resumeText, ScoreCap) && k in extract(jobDesc, ScoreCap)
    ensures |r.matched| <= ScoreCap
    ensures 0.0 <= r.percent <= 100.0
    ensures r.percent == 100.0 <==>
      KeywordSet(extract, jobDesc, ScoreCap) != {} && KeywordSet(extract, jobDesc, ScoreCap) <= KeywordSet(extract, resumeText, ScoreCap)
    ensures r.percent == 0.0 <==>
      KeywordSet(extract, jobDesc, ScoreCap) == {} || KeywordSet(extract, jobDesc, ScoreCap) !! KeywordSet(extract, resumeText, ScoreCap)
  {
    var resumeKeywords := KeywordSet(extract, resumeText, ScoreCap);
    var jobKeywords := KeywordSet(extract, jobDesc, ScoreCap);
    MatchedWithinJob(resumeKeywords, jobKeywords);
    ScoreInRange(resumeKeywords, jobKeywords);
    ScoreFullIff(resumeKeywords, jobKeywords);
    ScoreZeroIff(resumeKeywords, jobKeywords);
    ScoreKeywordSets(resumeKeywords, jobKeywords)
  }

  /** The missing keywords shown beside the score: the job's top
      `MissingCap` keywords that are not among the resume's. */
  function MissingKeywords(extract: Extractor, resumeText: string, jobDesc: string): (r: set<string>)
    ensures r <= KeywordSet(extract, jobDesc, MissingCap)
    ensures r !! KeywordSet(extract, resumeText, MissingCap)
    ensures forall k :: k in extract(jobDesc, MissingCap) && k !in extract(resumeText, MissingCap) ==> k in r
    ensures |r| <= MissingCap
  {
    var jobKeywords := KeywordSet(extract, jobDesc, MissingCap);
    var r := jobKeywords - KeywordSet(extract, resumeText, MissingCap);
    SubsetCardinality(r, jobKeywords);
    r
  }

  /** Fifteen two-letter terms, "bb" to "pp", ranked above "python". */
  function ResumeRanking(): (all: seq<string>)
    ensures |all| == MissingCap + 1 && all[MissingCap] == "python"
    ensures "python" !in all[..MissingCap]
    ensures Distinct(all)
  {
    seq(MissingCap, i requires 0 <= i < MissingCap => [('b' as int + i) as char, ('b' as int + i) as char]) + ["python"]
  }

  /** A prefix of one frequency ranking, as `max_features = n` keeps:
      "resume" ranks "python" 16th, every other text has "python" alone. */
  function RankedPrefix(text: string, n: nat): (r: seq<string>)
  {
    var all := if text == "resume" then ResumeRanking() else ["python"];
    all[..if n < |all| then n else |all|]
  }

  /** Because the two reports use different caps, the matched and the missing
      keywords can share a keyword, even for an extractor whose top-n lists
      are prefixes of a single ranking. */
  lemma MatchedAndMissingCanOverlap()
    ensures var extract: Extractor := RankedPrefix;
      && "python" in CalculateResumeScore(extract, "resume", "job").matched
      && "python" in MissingKeywords(extract, "resume", "job")
  {
    var all := ResumeRanking();
    assert RankedPrefix("resume", ScoreCap) == all;
    assert RankedPrefix("resume", MissingCap) == all[..MissingCap];
  }
}
