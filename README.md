# ATS resume matcher — verified model of its decision logic

The application is a single Streamlit page, `app.py`. A user pastes a job
description and uploads a resume as a PDF. The page sends prompts to a hosted
generative model and shows some local analysis beside the answers. This
project models the local analysis that sits between those calls:

- **Section-presence check** (`check_resume_format`). Five fixed section names
  are tested, in order, as substrings of the lower-cased resume text. The
  names that do not occur are reported, in the same order.
- **Keyword-overlap scoring** (`calculate_resume_score`). The resume and the
  job description are each reduced to their top 20 keywords. The matched
  keywords are the intersection of the two sets. The score is their share of
  the job's keywords as a percentage, or 0 when the job has no keywords.
- **Missing keywords** (the expression at line 164). These are the job's top
  15 keywords minus the resume's top 15. The cap differs from the score's cap
  of 20, and the model keeps that difference.
- **Resume text assembly** (`extract_resume_text`). The text of each PDF page
  is appended to an accumulator, followed by `"\n"`.

The keyword extractor `extract_keywords` is scikit-learn's `CountVectorizer`
with English stop words and `max_features = n`. It is modelled as an
abstract function value of type `KeywordMatch.Extractor`. The only thing
known about it is that for every text and every `n` it returns at most `n`
keywords, none repeated. Every property of the scoring holds for every such
extractor.

Files, one module each:

| file | module | models |
|---|---|---|
| `wrappers.dfy` | `Wrappers` | `Option`, for Python's `None` |
| `text.dfy` | `Text` | `str.lower()` and the substring test `pat in text` |
| `sequences.dfy` | `Sequences` | subsequence and no-repetition facts (helpers) |
| `resume_format.dfy` | `ResumeFormat` | `check_resume_format` |
| `resume_format_examples.dfy` | `ResumeFormatExamples` | two worked inputs of the check |
| `keyword_match.dfy` | `KeywordMatch` | `extract_keywords`, `calculate_resume_score`, the missing keywords |
| `resume_text.dfy` | `ResumeText` | `extract_resume_text` |

## Model

| member | source | states |
|---|---|---|
| `Text.Lower` | app.py:92 | `s.lower()` keeps the length and lower-cases each character; only A–Z change |
| `Text.LowerIdempotent` | app.py:92 | lower-casing an already lower-cased text changes nothing |
| `Text.SubstringIn` | app.py:92 | `s in text` holds exactly when `s` occurs in `text` as a contiguous slice at some position |
| `ResumeFormat.MissingSections` | app.py:92 | the list comprehension keeps exactly the names that are not substrings of the lowered text, as a subsequence of the name list |
| `ResumeFormat.MissingSectionsCounts` | app.py:92 | each absent name appears in the result as often as in the name list, and each present name not at all |
| `ResumeFormat.CheckResumeFormat` | app.py:89-93 | the result is a subsequence of the five section names (so at most 5, in their fixed order) holding exactly the names that do not occur in the lower-cased text |
| `ResumeFormat.CheckResumeFormatExact` | app.py:91-92 | those two facts fix the result: any ordered sublist of the names with those members is the result |
| `ResumeFormat.CheckResumeFormatIgnoresCase` | app.py:92 | a text and its lower-cased form give the same result |
| `ResumeFormat.AllSectionsPresent` | app.py:91-93 | if every name occurs in the text in any mix of cases, the result is empty |
| `ResumeFormat.NoSectionsPresent` | app.py:91-93 | if no name occurs in the lower-cased text, the result is all five names in their fixed order |
| `ResumeFormatExamples.ListedSectionsAllFound` | app.py:89-93 | any capitalisation of "education, experience, skills, projects, certifications" is reported complete |
| `ResumeFormatExamples.UnrelatedTextMissesAllSections` | app.py:89-93 | any capitalisation of "I like cats" is reported as missing all five sections, in order |
| `KeywordMatch.ToSet` | app.py:74-75 | `set(xs)` has the same members as `xs`, at most as many as `xs` has elements, and exactly that many when `xs` has no repetition |
| `KeywordMatch.KeywordSet` | app.py:65-69 | `set(extract_keywords(text, n))` holds at most `n` keywords, namely those the extractor returned |
| `KeywordMatch.ScoreKeywordSets` | app.py:77-78 | the matched keywords are those in both sets; the score is 0 for an empty job set and otherwise satisfies score × (number of job keywords) = (number of matched keywords) × 100 |
| `KeywordMatch.MatchedWithinJob` | app.py:77 | the matched keywords are a subset of the job's keywords, so there are no more of them |
| `KeywordMatch.ScoreInRange` | app.py:78 | the score always lies in [0, 100] |
| `KeywordMatch.ScoreFullIff` | app.py:78 | the score is 100 exactly when the job set is non-empty and contained in the resume set |
| `KeywordMatch.ScoreZeroIff` | app.py:78 | the score is 0 exactly when the job set is empty or disjoint from the resume set |
| `KeywordMatch.CalculateResumeScore` | app.py:72-79 | a keyword is matched exactly when both texts' top-20 lists contain it; there are at most 20 matched keywords; the score lies in [0, 100], is 100 exactly when every top-20 job keyword is a top-20 resume keyword (and there is one), and is 0 exactly when the two top-20 sets are disjoint or the job's is empty |
| `KeywordMatch.MissingKeywords` | app.py:164 | the missing keywords are exactly the job's top-15 keywords that are not among the resume's top 15; they number at most 15 |
| `KeywordMatch.MatchedAndMissingCanOverlap` | app.py:160-164 | because the caps differ (20 and 15), matched and missing can share a keyword, so the two reports are not disjoint in general; the witness extractor returns prefixes of one frequency ranking, as `max_features` does |
| `ResumeText.ExtractResumeText` | app.py:54-62 | no upload gives `None`; otherwise the loop's result is every page's text followed by "\n", in page order; its length is the page lengths' sum plus the page count; zero pages give "" |
| `ResumeText.AssembledAppend` | app.py:58-60 | assembling two runs of pages back to back gives the two assembled texts back to back |
| `ResumeText.AssembledLength` | app.py:58-61 | the assembled text has one character per page character plus one per page |
| `ResumeText.PageInPlace` | app.py:59-60 | page k's text, then "\n", sits in the assembled text right after the text of the pages before it |

## Left out

- Streamlit UI, button dispatch and `st.*` output (app.py:96-198): pure presentation with no logic of its own. The missing-keyword expression at app.py:164 is the exception; it is modelled as `KeywordMatch.MissingKeywords`.
- Gemini model calls and API-key configuration (app.py:15-30): a network service and environment I/O.
- `input_pdf_setup` (app.py:33-51): PDF rasterising, JPEG encoding and base64, all foreign library calls.
- PyPDF2 parsing and `page.extract_text()`: a `ResumeText.Document` is the pages' texts, as given.
- `readability_score` (app.py:82-86): it wraps the textstat library and returns floating-point Flesch scores.
- The internals of `CountVectorizer`: tokenising, the stop-word list, frequency ranking and output order. The extractor is any total function that meets the cardinality bound, so no concrete keyword list is claimed for any text.
- KeywordMatch.KeywordSet: an empty text is not promised to give an empty set. scikit-learn raises on an empty vocabulary, and that exception is not modelled: the extractor here always returns a list.
- KeywordMatch.CalculateResumeScore: the score is an exact rational. Python's binary floating point and `round(score, 2)` (app.py:79) are not modelled.
- Text.Lower: only the ASCII letters A–Z are lower-cased. Python's full Unicode case mapping is not modelled.
- ResumeText.ExtractResumeText: a PDF with zero pages gives "" as the code does; it is not reported as an error. A parse failure raised by PyPDF2 is not modelled.
