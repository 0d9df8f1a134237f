/** Resume text assembly, `extract_resume_text`: the text of every page of
    the uploaded PDF, each followed by a line break. */
module ResumeText {
  import opened Wrappers

  /** An uploaded PDF, seen through its reader: the text of each page, in order. */
  datatype Document = Document(pages: seq<string>)

  /** The text of `pages`, each page followed by "\n". */
  function Assembled(pages: seq<string>): (text: string)
  {
    if pages == [] then "" else Assembled(pages[..|pages| - 1]) + pages[|pages| - 1] + "\n"
  }

  /** Total number of characters on the pages. */
  function TotalLength(pages: seq<string>): (n: nat)
  {
    if pages == [] then 0 else TotalLength(pages[..|pages| - 1]) + |pages[|pages| - 1]|
  }

  /** `extract_resume_text(uploaded_file)`: `None` when nothing was uploaded,
      otherwise the pages' texts accumulated in a loop. */
  method ExtractResumeText(upload: Option<Document>) returns (text: Option<string>)
    ensures upload.None? <==> text.None?
    ensures upload.Some? ==> text == Some(Assembled(upload.value.pages))
    ensures upload.Some? ==> |text.value| == TotalLength(upload.value.pages) + |upload.value.pages|
    ensures upload == Some(Document([])) ==> text == Some("")
  {
    if upload.None? {
      return None;
    }
    var pages := upload.value.pages;
    var acc := "";
    for i := 0 to |pages|
      invariant acc == Assembled(pages[..i])
    {
      assert pages[..i + 1][..i] == pages[..i];
      acc := acc + pages[i] + "\n";
    }
    assert pages[..|pages|] == pages;
    AssembledLength(pages);
    return Some(acc);
  }

  /** Assembling two runs of pages one after the other gives the two texts
      one after the other. */
  lemma {:induction false} AssembledAppend(first: seq<string>, second: seq<string>)
    ensures Assembled(first + second) == Assembled(first) + Assembled(second)
    decreases |second|
  {
    if second == [] {
      assert first + second == first;
    } else {
      var init, last := second[..|second| - 1], second[|second| - 1];
      assert (first + second)[..|first + second| - 1] == first + init;
      assert (first + second)[|first + second| - 1] == last;
      AssembledAppend(first, init);
    }
  }

  /** The assembled text has one character per page character plus one line
      break per page. */
  lemma {:induction false} AssembledLength(pages: seq<string>)
    ensures |Assembled(pages)| == TotalLength(pages) + |pages|
  {
    if pages != [] {
      AssembledLength(pages[..|pages| - 1]);
    }
  }

  /** Page `k` appears in the assembled text, followed by its line break,
      right after the text of the pages before it. */
  lemma PageInPlace(pages: seq<string>, k: nat)
    requires k < |pages|
    ensures var at := |Assembled(pages[..k])|;
      at + |pages[k]| < |Assembled(pages)| &&
      Assembled(pages)[at..at + |pages[k]| + 1] == pages[k] + "\n"
  {
    assert pages == pages[..k] + ([pages[k]] + pages[k + 1..]);
    AssembledAppend(pages[..k], [pages[k]] + pages[k + 1..]);
    AssembledAppend([pages[k]], pages[k + 1..]);
    assert [pages[k]][..0] == [];
    assert Assembled([pages[k]]) == pages[k] + "\n";
  }
}
