/**
 * The prototype result panel: a paragraph, the mock summary made from it, and
 * the copied and loading flags. The two-second delay before the summary
 * appears is not modelled: the summary is set when the handler runs.
 */
module Result {
  import opened Mock

  class ResultPanel {
    var paragraph: string
    var summary: string
    var isCopied: bool
    var isLoading: bool

    constructor ()
      ensures paragraph == [] && summary == [] && !isCopied && !isLoading
    {
      paragraph := [];
      summary := [];
      isCopied := false;
      isLoading := false;
    }

    /** `handleSummarize`: nothing for an empty paragraph, otherwise the mock summary. */
    method Summarize()
      modifies this
      ensures paragraph == old(paragraph) && isCopied == old(isCopied)
      ensures paragraph == [] ==> summary == old(summary) && isLoading == old(isLoading)
      ensures paragraph != [] ==> summary == MockSummary(paragraph) && !isLoading
    {
      if paragraph == [] {
        return;
      }
      isLoading := true;
      summary := MockSummary(paragraph);
      isLoading := false;
    }

    /** `handleCopyText`: nothing for an empty summary, otherwise marks it copied. */
    method CopyText()
      modifies this
      ensures paragraph == old(paragraph) && summary == old(summary) && isLoading == old(isLoading)
      ensures isCopied == (summary != [] || old(isCopied))
    {
      if summary == [] {
        return;
      }
      isCopied := true;
    }
  }
}
