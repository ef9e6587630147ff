/**
 * The summariser page (`Summarize` component): its state, the cleanup of the
 * route's reply, the request body it posts, keyword chips, the bounded
 * history and the word and sentence counters.
 *
 * A request is one atomic step: the body goes to the route of module
 * `Reexarizer`, the outcome comes back as a `Reply`, and the handler's `try`
 * block either completes or is abandoned by an exception. `Date.now()` is
 * read twice per request and arrives as two parameters.
 */
module Summarize {
  import opened Wrappers
  import opened Strings
  import opened Ordering
  import opened Keywords
  import opened Reexarizer

  datatype Mode = Paragraph | Bullet | Custom

  /** One history entry. */
  datatype HistoryItem = HistoryItem(id: string, original: string, summary: string, timestamp: nat)

  // ---- Cleanup of the route's reply ----

  /** `formatSummary`: collapse every whitespace run, normalise line breaks, trim. */
  function FormatSummary(t: string): string {
    Trim(NormalizeLineBreaks(Collapse(t)))
  }

  /**
   * The line-break normalisation inside `formatSummary` never fires: the
   * collapse before it has already turned every `\n` and `\r` into a space,
   * so `formatSummary` is the plain cleanup of the other modes.
   */
  lemma FormatSummaryIsSquash(t: string)
    ensures FormatSummary(t) == Squash(t)
  {
    var c := Collapse(t);
    forall k | 0 <= k < |c| ensures c[k] != '\r' {
      if c[k] == '\r' {
        assert IsSpace(c[k]);
      }
    }
    NormalizeLineBreaksNoReturn(c);
  }

  /** The summary kept after a successful request: `formatSummary` in Bullet mode, `replace(/\s+/g, " ").trim()` otherwise. */
  function CleanReply(s: string, mode: Mode): string {
    if mode == Bullet then FormatSummary(s) else Squash(s)
  }

  /** Both modes keep the same cleanup of the reply. */
  lemma CleanReplyIsSquash(s: string, mode: Mode)
    ensures CleanReply(s, mode) == Squash(s)
  {
    if mode == Bullet {
      FormatSummaryIsSquash(s);
    }
  }

  /** The kept summary is one line with single spaces and no whitespace at either end. */
  lemma CleanReplyShape(s: string, mode: Mode)
    ensures Collapsed(CleanReply(s, mode)) && Trimmed(CleanReply(s, mode))
    ensures forall k :: 0 <= k < |CleanReply(s, mode)| ==> CleanReply(s, mode)[k] != '\n' && CleanReply(s, mode)[k] != '\r'
  {
    CleanReplyIsSquash(s, mode);
  }

  /** Cleaning a kept summary again changes nothing. */
  lemma CleanReplyIdempotent(s: string, mode: Mode)
    ensures CleanReply(CleanReply(s, mode), mode) == CleanReply(s, mode)
  {
    var q := Squash(s);
    CleanReplyIsSquash(s, mode);
    CleanReplyIsSquash(q, mode);
    SquashIdempotent(s);
  }

  /**
   * Bullet mode loses the route's line structure: whatever the backend says,
   * the summary the page keeps has no line break between the bullets.
   */
  lemma BulletLinesJoined(raw: string)
    ensures forall k :: 0 <= k < |CleanReply(Normalize(raw, "bullet"), Bullet)| ==>
      CleanReply(Normalize(raw, "bullet"), Bullet)[k] != '\n'
  {
    CleanReplyShape(Normalize(raw, "bullet"), Bullet);
  }

  // ---- Request body ----

  /** `mode === "Bullet" ? "bullet" : "paragraph"`, as the nested conditional yields. */
  function StyleOf(mode: Mode): (style: string)
    ensures style == "bullet" <==> mode == Bullet
    ensures style == "bullet" || style == "paragraph"
  {
    if mode == Paragraph then "paragraph" else if mode == Bullet then "bullet" else "paragraph"
  }

  /** `keywords.filter((k) => k.active).map((k) => k.word)`. */
  function ActiveWords(ks: seq<Keyword>): (ws: seq<string>)
    ensures |ws| <= |ks|
  {
    if ks == [] then []
    else if ks[0].active then [ks[0].word] + ActiveWords(ks[1..])
    else ActiveWords(ks[1..])
  }

  /** The active words keep the chips' order: the list of a concatenation is the concatenation of the lists. */
  lemma {:induction false} ActiveWordsAppend(a: seq<Keyword>, b: seq<Keyword>)
    ensures ActiveWords(a + b) == ActiveWords(a) + ActiveWords(b)
  {
    if a == [] {
      assert a + b == b;
    } else {
      assert (a + b)[0] == a[0] && (a + b)[1..] == a[1..] + b;
      ActiveWordsAppend(a[1..], b);
    }
  }

  /** A word is sent exactly when some active chip carries it. */
  lemma {:induction false} ActiveWordsMember(ks: seq<Keyword>)
    ensures forall w :: w in ActiveWords(ks) <==> exists k :: 0 <= k < |ks| && ks[k].active && ks[k].word == w
  {
    if ks != [] {
      ActiveWordsMember(ks[1..]);
      forall w | (exists k :: 0 <= k < |ks| && ks[k].active && ks[k].word == w) ensures w in ActiveWords(ks) {
        var k :| 0 <= k < |ks| && ks[k].active && ks[k].word == w;
        if k > 0 {
          assert ks[1..][k - 1] == ks[k];
        }
      }
      forall w | w in ActiveWords(ks) ensures exists k :: 0 <= k < |ks| && ks[k].active && ks[k].word == w {
        if !(ks[0].active && ks[0].word == w) {
          var k :| 0 <= k < |ks[1..]| && ks[1..][k].active && ks[1..][k].word == w;
          assert ks[k + 1] == ks[1..][k];
        }
      }
    }
  }

  /** The JSON body `handleSummarize` posts, as the route reads it. */
  function RequestBody(
    text: string, mode: Mode, length: nat, language: string, keywords: seq<Keyword>, customPrompt: string): Body
  {
    Body(Some(text), Options(StyleOf(mode), length, language, ActiveWords(keywords),
      if mode == Custom then customPrompt else ""))
  }

  /**
   * A `Custom Instructions:` line is in the prompt the page's request builds
   * only in Custom mode with a non-empty custom prompt; otherwise the line
   * after the keyword line is empty.
   */
  lemma {:induction false} RequestCustomLine(
    text: string, mode: Mode, length: nat, language: string, keywords: seq<Keyword>, customPrompt: string)
    ensures var body := RequestBody(text, mode, length, language, keywords, customPrompt);
      mode == Custom && customPrompt != [] ==>
        EndsWith(Prompt(text, body.options), ".\n" + ("Custom Instructions: " + customPrompt) + "\n" + Opening + text + Closing)
    ensures var body := RequestBody(text, mode, length, language, keywords, customPrompt);
      mode != Custom || customPrompt == [] ==>
        EndsWith(Prompt(text, body.options), ".\n" + "\n" + Opening + text + Closing)
  {
    var body := RequestBody(text, mode, length, language, keywords, customPrompt);
    PromptCustomLine(text, body.options);
  }

  /**
   * The reply the page receives carries a summary exactly when the text is not
   * blank and the backend answers; the summary is then the route's
   * normalisation of the backend's chunks.
   */
  lemma PageReply(
    text: string, mode: Mode, length: nat, language: string, keywords: seq<Keyword>, customPrompt: string,
    generate: string -> Option<seq<string>>)
    ensures var body := RequestBody(text, mode, length, language, keywords, customPrompt);
      var reply := ReplyOf(Handle("POST", body, generate));
      && reply.Json?
      && (reply.summary.Some? <==> !AllSpace(text) && generate(Prompt(text, body.options)).Some?)
      && (reply.summary.Some? ==>
            reply.summary.value == Normalize(Concat(generate(Prompt(text, body.options)).value), StyleOf(mode)))
  {
  }

  // ---- Keyword chips ----

  /** `prev.map((k) => (k.word === word ? { ...k, active: !k.active } : k))`. */
  function Toggle(ks: seq<Keyword>, w: string): (r: seq<Keyword>)
    ensures |r| == |ks|
    ensures forall k :: 0 <= k < |r| ==> r[k].word == ks[k].word
    ensures forall k :: 0 <= k < |r| ==> (r[k].active <==> (if ks[k].word == w then !ks[k].active else ks[k].active))
  {
    if ks == [] then []
    else
      var head := if ks[0].word == w then Keyword(ks[0].word, !ks[0].active) else ks[0];
      [head] + Toggle(ks[1..], w)
  }

  /** Toggling the same word twice restores the chips. */
  lemma ToggleTwice(ks: seq<Keyword>, w: string)
    ensures Toggle(Toggle(ks, w), w) == ks
  {
    var r := Toggle(Toggle(ks, w), w);
    assert forall k :: 0 <= k < |ks| ==> r[k] == ks[k];
  }

  // ---- History ----

  const HistoryCap: nat := 10

  /** `[item, ...prev].slice(0, 10)`. */
  function PushHistory(item: HistoryItem, h: seq<HistoryItem>): (r: seq<HistoryItem>)
    ensures |r| == Min(|h| + 1, HistoryCap)
    ensures r != [] && r[0] == item
    ensures r[1..] == h[..|r| - 1]
  {
    ([item] + h)[..Min(|h| + 1, HistoryCap)]
  }

  function Reverse(s: seq<HistoryItem>): (r: seq<HistoryItem>)
    ensures |r| == |s|
    ensures forall k :: 0 <= k < |s| ==> r[k] == s[|s| - 1 - k]
  {
    if s == [] then [] else Reverse(s[1..]) + [s[0]]
  }

  /** The newest ten of the items made so far, newest first. */
  function Newest(made: seq<HistoryItem>): seq<HistoryItem> {
    Reverse(made)[..Min(|made|, HistoryCap)]
  }

  /** Starting from an empty history, pushing item after item keeps exactly the newest ten, newest first. */
  lemma PushHistoryNewest(made: seq<HistoryItem>, item: HistoryItem)
    ensures PushHistory(item, Newest(made)) == Newest(made + [item])
  {
    var all := made + [item];
    assert Reverse(all) == [item] + Reverse(made) by {
      forall k | 0 <= k < |all| ensures Reverse(all)[k] == ([item] + Reverse(made))[k] {
        if k > 0 {
          assert all[|all| - 1 - k] == made[|made| - 1 - (k - 1)];
        }
      }
    }
  }

  /** `prev.filter((item) => item.id !== id)`. */
  function DeleteById(h: seq<HistoryItem>, id: string): seq<HistoryItem> {
    Filter(h, (item: HistoryItem) => item.id != id)
  }

  /**
   * Deleting removes every item with the id, keeps every other item, and
   * splits the history between the kept and the removed items.
   */
  lemma DeleteByIdFacts(h: seq<HistoryItem>, id: string)
    ensures forall x :: x in DeleteById(h, id) <==> x in h && x.id != id
    ensures multiset(DeleteById(h, id)) + multiset(Filter(h, (item: HistoryItem) => item.id == id)) == multiset(h)
  {
    FilterMember(h, (item: HistoryItem) => item.id != id);
    FilterPartition(h, (item: HistoryItem) => item.id != id, (item: HistoryItem) => item.id == id);
  }

  /** Deleting keeps the order of the remaining items. */
  lemma DeleteByIdAppend(a: seq<HistoryItem>, b: seq<HistoryItem>, id: string)
    ensures DeleteById(a + b, id) == DeleteById(a, id) + DeleteById(b, id)
  {
    FilterAppend(a, b, (item: HistoryItem) => item.id != id);
  }

  /** An id that no item carries leaves the history as it was. */
  lemma DeleteAbsentId(h: seq<HistoryItem>, id: string)
    requires forall k :: 0 <= k < |h| ==> h[k].id != id
    ensures DeleteById(h, id) == h
  {
    FilterAll(h, (item: HistoryItem) => item.id != id);
  }

  /** Deleting twice is deleting once. */
  lemma DeleteByIdTwice(h: seq<HistoryItem>, id: string)
    ensures DeleteById(DeleteById(h, id), id) == DeleteById(h, id)
  {
    DeleteAbsentId(DeleteById(h, id), id);
  }

  /** `Date.now().toString()`: two requests share an id exactly when they happen in the same millisecond. */
  lemma ItemIdsCollide(now1: nat, now2: nat)
    ensures NatToString(now1) == NatToString(now2) <==> now1 == now2
  {
    NatToStringRoundTrip(now1);
    NatToStringRoundTrip(now2);
  }

  // ---- Counters ----

  /** `s.split(/\s+/).filter(Boolean).length`: `wordTextCount` of the text and `wordCount` of the summary. */
  function WordCount(s: string): nat {
    |Words(s)|
  }

  /** No word exactly when the string is blank. */
  lemma WordCountZero(s: string)
    ensures WordCount(s) == 0 <==> AllSpace(s)
  {
    WordsOfTrim(s);
    TrimEmpty(s);
  }

  const SentenceEnds: set<char> := {'.', '!', '?'}

  /** `summary.split(/[.!?]/).filter(Boolean).length`. */
  function SentenceCount(s: string): nat {
    |NonEmpty(Split(s, SentenceEnds))|
  }

  /** No sentence exactly when every character is `.`, `!` or `?`. */
  lemma SentenceCountZero(s: string)
    ensures SentenceCount(s) == 0 <==> forall k :: 0 <= k < |s| ==> s[k] in SentenceEnds
  {
    var parts := Split(s, SentenceEnds);
    if forall k :: 0 <= k < |s| ==> s[k] in SentenceEnds {
      SplitAllSeparators(s, SentenceEnds);
      NonEmptyAllEmpty(parts);
    } else {
      var i :| 0 <= i < |s| && s[i] !in SentenceEnds;
      SplitCovers(s, SentenceEnds, i);
      var k, j :| 0 <= k < |parts| && 0 <= j < |parts[k]| && parts[k][j] == s[i];
      assert parts[k] in parts;
    }
  }

  // ---- The page ----

  class SummarizePage {
    var text: string
    var summary: string
    var loading: bool
    var mode: Mode
    var length: nat
    var language: string
    var keywords: seq<Keyword>
    var customPrompt: string
    var history: seq<HistoryItem>

    /** The page's own handlers never let the history grow past ten items. */
    ghost predicate Valid()
      reads this
    {
      |history| <= HistoryCap
    }

    /** The initial `useState` values. */
    constructor ()
      ensures Valid()
      ensures text == "" && summary == "" && !loading && mode == Paragraph && length == 50
      ensures language == "english" && keywords == [] && customPrompt == "" && history == []
    {
      text := "";
      summary := "";
      loading := false;
      mode := Paragraph;
      length := 50;
      language := "english";
      keywords := [];
      customPrompt := "";
      history := [];
    }

    /**
     * `handleTextChange`: store the text; in Paragraph mode re-extract the
     * keywords from it (`Extracted` is what `Keywords.ExtractKeywords` computes).
     */
    method TextChange(value: string)
      modifies this
      ensures text == value
      ensures keywords == if mode == Paragraph then Extracted(value, 10) else old(keywords)
      ensures summary == old(summary) && loading == old(loading) && mode == old(mode) && length == old(length)
      ensures language == old(language) && customPrompt == old(customPrompt) && history == old(history)
    {
      text := value;
      if mode == Paragraph {
        keywords := Extracted(value, 10);
      }
    }

    /** `handlePaste`: append a newline and the clipboard; in Paragraph mode the keywords come from the clipboard alone. */
    method Paste(clipboard: string)
      modifies this
      ensures text == old(text) + "\n" + clipboard
      ensures keywords == if mode == Paragraph then Extracted(clipboard, 10) else old(keywords)
      ensures summary == old(summary) && loading == old(loading) && mode == old(mode) && length == old(length)
      ensures language == old(language) && customPrompt == old(customPrompt) && history == old(history)
    {
      text := text + "\n" + clipboard;
      if mode == Paragraph {
        keywords := Extracted(clipboard, 10);
      }
    }

    /** `handleKeywordToggle`. */
    method KeywordToggle(w: string)
      modifies this
      ensures keywords == Toggle(old(keywords), w)
      ensures text == old(text) && summary == old(summary) && loading == old(loading) && mode == old(mode)
      ensures length == old(length) && language == old(language) && customPrompt == old(customPrompt)
      ensures history == old(history)
    {
      keywords := Toggle(keywords, w);
    }

    /**
     * `handleSummarize`, given the reply its `fetch` received (for the body
     * `RequestBody` of the current state, `ReplyOf` of the route's outcome).
     * A JSON reply carrying a summary: keep its cleaned text and push a
     * history item with id `now1` and timestamp `now2`. Any other reply
     * throws inside the `try` (`res.json()` on a non-JSON page, `.replace` on
     * an absent summary) and changes nothing but `loading`.
     */
    method Summarize(reply: Reply, now1: nat, now2: nat)
      requires Valid()
      modifies this
      ensures Valid()
      ensures reply.Json? && reply.summary.Some? ==>
        && summary == CleanReply(reply.summary.value, mode)
        && history == PushHistory(HistoryItem(NatToString(now1), text, summary, now2), old(history))
      ensures !(reply.Json? && reply.summary.Some?) ==> summary == old(summary) && history == old(history)
      ensures !loading
      ensures text == old(text) && mode == old(mode) && length == old(length) && language == old(language)
      ensures keywords == old(keywords) && customPrompt == old(customPrompt)
    {
      loading := true;
      match reply {
        case Json(Some(s)) =>
          var finalSummary := CleanReply(s, mode);
          summary := finalSummary;
          history := PushHistory(HistoryItem(NatToString(now1), text, finalSummary, now2), history);
        case Json(None) =>
        case NoJson =>
      }
      loading := false;
    }

    /** `handleDeleteHistory`. */
    method DeleteHistory(id: string)
      requires Valid()
      modifies this
      ensures Valid()
      ensures history == DeleteById(old(history), id)
      ensures text == old(text) && summary == old(summary) && loading == old(loading) && mode == old(mode)
      ensures length == old(length) && language == old(language) && keywords == old(keywords)
      ensures customPrompt == old(customPrompt)
    {
      history := DeleteById(history, id);
    }

    /** `handleClearHistory`. */
    method ClearHistory()
      modifies this
      ensures Valid()
      ensures history == []
      ensures text == old(text) && summary == old(summary) && loading == old(loading) && mode == old(mode)
      ensures length == old(length) && language == old(language) && keywords == old(keywords)
      ensures customPrompt == old(customPrompt)
    {
      history := [];
    }

    /** The keyword panel's clear button. */
    method ClearKeywords()
      modifies this
      ensures keywords == []
      ensures text == old(text) && summary == old(summary) && loading == old(loading) && mode == old(mode)
      ensures length == old(length) && language == old(language) && customPrompt == old(customPrompt)
      ensures history == old(history)
    {
      keywords := [];
    }

    /** The result panel's reset button: clears summary, text, keywords and custom prompt. */
    method Reset()
      modifies this
      ensures summary == "" && text == "" && keywords == [] && customPrompt == ""
      ensures loading == old(loading) && mode == old(mode) && length == old(length) && language == old(language)
      ensures history == old(history)
    {
      summary := "";
      text := "";
      keywords := [];
      customPrompt := "";
    }
  }
}
