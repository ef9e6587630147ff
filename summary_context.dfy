/**
 * The shared summary state offered to the components: the input, the request
 * settings, the last summary and the history of generated summaries. The
 * outcome of the `fetch` to the API route is a parameter `reply`; the lemmas
 * below relate it to the route's handler for the body the context sends.
 */
module SummaryContext {
  import opened Wrappers
  import opened Strings
  import opened Reexarizer

  /** The settings recorded with each history entry. */
  datatype Metadata = Metadata(
    style: string,
    summaryLength: nat,
    keywords: seq<string>,
    language: string,
    customPrompt: string)

  /** A history entry; `summary` is `None` when the reply had no `summary` property. */
  datatype Entry = Entry(text: string, summary: Option<string>, metadata: Metadata)

  /**
   * The body as sent: the input travels under the key `inputText`, which the
   * route does not read, so the route sees no `text`.
   */
  function SentBody(
    inputText: string, style: string, summaryLength: nat, language: string,
    keywords: seq<string>, customPrompt: string): Body
  {
    Body(None, Options(style, summaryLength, language, keywords, customPrompt))
  }

  /** The body the route expects: the input under the key `text`. */
  function IntendedBody(
    inputText: string, style: string, summaryLength: nat, language: string,
    keywords: seq<string>, customPrompt: string): Body
  {
    Body(Some(inputText), Options(style, summaryLength, language, keywords, customPrompt))
  }

  /**
   * As written, every request fails: the route throws on the missing `text`
   * before any backend is consulted, and the error page is not JSON, so
   * `res.json()` throws and the context records nothing.
   */
  lemma SentRequestFails(
    inputText: string, style: string, summaryLength: nat, language: string,
    keywords: seq<string>, customPrompt: string, generate: string -> Option<seq<string>>)
    ensures var r := Handle("POST", SentBody(inputText, style, summaryLength, language, keywords, customPrompt), generate);
      r == Response(500, Unhandled) && ReplyOf(r) == NoJson
  {
  }

  /**
   * With the text under `text`, the reply is always JSON; it carries a summary
   * exactly when the input is not blank and the backend answers, and that
   * summary is the route's normalisation of the backend's chunks.
   */
  lemma IntendedRequestSucceeds(
    inputText: string, style: string, summaryLength: nat, language: string,
    keywords: seq<string>, customPrompt: string, generate: string -> Option<seq<string>>)
    ensures var o := Options(style, summaryLength, language, keywords, customPrompt);
      var reply := ReplyOf(Handle("POST", IntendedBody(inputText, style, summaryLength, language, keywords, customPrompt), generate));
      && reply.Json?
      && (reply.summary.Some? <==> !AllSpace(inputText) && generate(Prompt(inputText, o)).Some?)
      && (reply.summary.Some? ==>
            reply.summary.value == Normalize(Concat(generate(Prompt(inputText, o)).value), style))
  {
  }

  /** The provider's state. */
  class SummaryProvider {
    var inputText: string
    var language: string
    var style: string
    var summaryLength: nat
    var keywords: seq<string>
    var loading: bool
    var summary: Option<string>
    var customPrompt: string
    var history: seq<Entry>

    constructor ()
      ensures inputText == [] && language == "english" && style == "paragraph" && summaryLength == 50
      ensures keywords == [] && !loading && summary == Some([]) && customPrompt == [] && history == []
    {
      inputText := [];
      language := "english";
      style := "paragraph";
      summaryLength := 50;
      keywords := [];
      loading := false;
      summary := Some([]);
      customPrompt := [];
      history := [];
    }

    /** The settings as they stand, recorded with a new entry. */
    function Settings(): Metadata
      reads this
    {
      Metadata(style, summaryLength, keywords, language, customPrompt)
    }

    /**
     * `generateSummary`: nothing happens for an empty input; otherwise a JSON
     * reply sets the summary and appends an entry at the end of the history,
     * a non-JSON reply is caught and changes nothing, and loading ends.
     */
    method GenerateSummary(reply: Reply)
      modifies this
      ensures inputText == old(inputText) && language == old(language) && style == old(style)
      ensures summaryLength == old(summaryLength) && keywords == old(keywords) && customPrompt == old(customPrompt)
      ensures inputText == [] ==> loading == old(loading)
      ensures inputText != [] ==> !loading
      ensures inputText != [] && reply.Json? ==>
        summary == reply.summary && history == old(history) + [Entry(inputText, reply.summary, Settings())]
      ensures inputText == [] || reply.NoJson? ==> summary == old(summary) && history == old(history)
    {
      if inputText == [] {
        return;
      }
      loading := true;
      match reply {
        case NoJson =>
        case Json(s) =>
          summary := s;
          history := history + [Entry(inputText, s, Settings())];
      }
      loading := false;
    }

    /** `clearHistory`. */
    method ClearHistory()
      modifies this
      ensures history == []
      ensures inputText == old(inputText) && language == old(language) && style == old(style)
      ensures summaryLength == old(summaryLength) && keywords == old(keywords) && customPrompt == old(customPrompt)
      ensures loading == old(loading) && summary == old(summary)
    {
      history := [];
    }
  }
}
