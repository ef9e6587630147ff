/**
 * The prototype input panel: the paragraph typed by the user, a character
 * counter capped at 1000, the mock summary and the copied and loading flags.
 * The two-second delay before the summary appears is not modelled.
 */
module SummaryComponent {
  import opened Strings
  import opened Mock

  class SummaryPanel {
    var paragraph: string
    var summary: string
    var isCopied: bool
    var isLoading: bool

    constructor ()
      ensures paragraph == [] && summary == [] && !isCopied && !isLoading
    {
      paragraph := [];
      summary := [];
      isCopied := false;
      isLoading := false;
    }

    /** `characterCount`: the length of the paragraph, shown as at most 1000. */
    function CharacterCount(): (n: nat)
      reads this
      ensures n <= Cap && n <= |paragraph|
      ensures n == |paragraph| <==> |paragraph| <= Cap
      ensures n < |paragraph| ==> n == Cap
    {
      if |paragraph| > Cap then Cap else |paragraph|
    }

    /** The text area's `onChange`: stores the value as typed, with no cap. */
    method Edit(value: string)
      modifies this
      ensures paragraph == value
      ensures summary == old(summary) && isCopied == old(isCopied) && isLoading == old(isLoading)
    {
      paragraph := value;
    }

    /**
     * `handleChange`: keeps the first 1000 characters of the value, so the
     * counter then shows the whole length, and clears the summary and the
     * copied flag.
     */
    method Change(value: string)
      modifies this
      ensures StartsWith(value, paragraph) && |paragraph| == Min(|value|, Cap)
      ensures CharacterCount() == |paragraph|
      ensures summary == [] && !isCopied && isLoading == old(isLoading)
    {
      paragraph := value[..Min(|value|, Cap)];
      summary := [];
      isCopied := false;
    }

    /** `handleSummarize`: nothing for an empty paragraph, otherwise the mock summary. */
    method Summarize()
      modifies this
      ensures paragraph == old(paragraph) && isCopied == old(isCopied)
      ensures paragraph == [] ==> summary == old(summary) && isLoading == old(isLoading)
      ensures paragraph != [] ==> summary == MockSummary(paragraph) && !isLoading
    {
      if paragraph == [] {
        return;
      }
      isLoading := true;
      summary := MockSummary(paragraph);
      isLoading := false;
    }

    /** `handleCopyText`: marks the summary copied, even when it is empty. */
    method CopyText()
      modifies this
      ensures isCopied
      ensures paragraph == old(paragraph) && summary == old(summary) && isLoading == old(isLoading)
    {
      isCopied := true;
    }
  }
}
