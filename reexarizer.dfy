/**
 * The summarisation API route: request guards, the instruction prompt sent to
 * the generative backend, and the normalisation of the backend's raw output.
 * The backend is a parameter `generate` mapping the prompt to the chunks it
 * streams back, or to `None` when the call throws.
 */
module Reexarizer {
  import opened Wrappers
  import opened Strings

  /** The fields the handler reads from the JSON body, apart from `text`. */
  datatype Options = Options(
    style: string,
    summaryLength: nat,
    language: string,
    keywords: seq<string>,
    customPrompt: string)

  /** The JSON request body; `text` is `None` when the key is absent. */
  datatype Body = Body(text: Option<string>, options: Options)

  /** What the route writes back: a JSON error, a JSON summary, or Next.js's page for an uncaught exception. */
  datatype Payload = ErrorJson(error: string) | SummaryJson(summary: string) | Unhandled

  datatype Response = Response(status: nat, payload: Payload)

  // ---- Prompt template ----

  const Preamble: string :=
    "\n      You are an AI summarizer.\n      Strictly follow these rules:\n"
    + "- Output ONLY the summary of the given text.\n"
    + "- Do NOT add introductions, conclusions, emojis, or any content outside the summary.\n"
    + "- Do NOT include \"Summary:\" or any extra phrases.\n"

  const BulletRule: string := "Every point MUST start with \"\U{2022} \" and nothing else."
  const ParagraphRule: string := "Use well-structured sentences only."
  const TextMarker: string := "=== TEXT ==="

  /** `keywords.join(", ") || "none"`. */
  function KeywordList(keywords: seq<string>): string {
    var joined := Join(keywords, ", ");
    if joined == [] then "none" else joined
  }

  function LanguageLine(language: string): string {
    "- Do NOT change the language. Use " + language + ".\n"
  }

  /** The two style-dependent rules: the shape of the summary and how each point or sentence starts. */
  function StyleLines(style: string): string {
    if style == "bullet" then "- Summarize into clear bullet points.\n- " + BulletRule + ".\n"
    else "- Summarize into a clean paragraph.\n- " + ParagraphRule + ".\n"
  }

  const FixedRules: string := "- Maintain coherence and logical flow.\n- Avoid redundant spaces and unnecessary words.\n"

  function LengthLine(summaryLength: nat): string {
    "- Target length: around " + NatToString(summaryLength) + " words.\n"
  }

  /** The rules that depend on the language, the style and the target length. */
  function Rules(o: Options): string {
    LanguageLine(o.language) + StyleLines(o.style) + FixedRules + LengthLine(o.summaryLength)
  }

  /** The keyword line without its closing `.\n`. */
  function KeywordHead(keywords: seq<string>): string {
    "- Keywords to emphasize: " + KeywordList(keywords)
  }

  /** The custom-instructions line: empty unless a custom prompt was given. */
  function CustomLine(customPrompt: string): string {
    if customPrompt == [] then [] else "Custom Instructions: " + customPrompt
  }

  const Opening: string := "\n" + TextMarker + "\n"
  const Closing: string := "\n    "

  /** Lines 20-43: the prompt template with every interpolation filled in. */
  function Prompt(text: string, o: Options): string {
    Preamble + Rules(o) + (KeywordHead(o.keywords) + ".\n") + (CustomLine(o.customPrompt) + "\n") + Opening + text + Closing
  }

  /** The fixed rules come first, followed by the language, style and length rules as given. */
  lemma {:induction false} PromptDirectives(text: string, o: Options)
    ensures StartsWith(Prompt(text, o), Preamble)
    ensures StartsWith(Prompt(text, o), Preamble + Rules(o))
  {
    var d := Preamble + Rules(o);
    var k := KeywordHead(o.keywords) + ".\n";
    var c := CustomLine(o.customPrompt) + "\n";
    AppendAssoc(d, k, c);
    AppendAssoc(d, k + c, Opening);
    AppendAssoc(d, k + c + Opening, text);
    AppendAssoc(d, k + c + Opening + text, Closing);
    AppendParts(d, k + c + Opening + text + Closing);
    AppendParts(Preamble, Rules(o));
    PrefixTransitive(Prompt(text, o), d, Preamble);
  }

  /** After the language rule the prompt asks for bullet points exactly when the style is `bullet`, and for a paragraph otherwise. */
  lemma {:induction false} PromptStyle(text: string, o: Options)
    ensures o.style == "bullet" ==> StartsWith(Prompt(text, o),
      Preamble + LanguageLine(o.language) + ("- Summarize into clear bullet points.\n- " + BulletRule + ".\n"))
    ensures o.style != "bullet" ==> StartsWith(Prompt(text, o),
      Preamble + LanguageLine(o.language) + ("- Summarize into a clean paragraph.\n- " + ParagraphRule + ".\n"))
  {
    var l, st := LanguageLine(o.language), StyleLines(o.style);
    var head := Preamble + l + st;
    var rest := FixedRules + LengthLine(o.summaryLength);
    AppendAssoc(l + st, FixedRules, LengthLine(o.summaryLength));
    AppendAssoc(Preamble, l + st, rest);
    AppendAssoc(Preamble, l, st);
    AppendParts(head, rest);
    PromptDirectives(text, o);
    PrefixTransitive(Prompt(text, o), Preamble + Rules(o), head);
  }

  /** The text block closes the prompt: the marker line, the text verbatim, the closing indentation. */
  lemma {:induction false} PromptEndsWithText(text: string, o: Options)
    ensures EndsWith(Prompt(text, o), Opening + text + Closing)
  {
    var h := Preamble + Rules(o) + (KeywordHead(o.keywords) + ".\n") + (CustomLine(o.customPrompt) + "\n");
    AppendAssoc(h, Opening, text);
    AppendAssoc(h, Opening + text, Closing);
    AppendParts(h, Opening + text + Closing);
  }

  /**
   * The source text sits once, verbatim, at the very end: the prompt for `text`
   * is the prompt for the empty text with `text` spliced in before the closing
   * indentation, so nothing before it depends on the text.
   */
  lemma {:induction false} PromptTextIsLast(text: string, o: Options)
    ensures var e := Prompt([], o);
      |e| >= |Closing| && Prompt(text, o) == e[..|e| - |Closing|] + text + e[|e| - |Closing|..]
  {
    var h := Preamble + Rules(o) + (KeywordHead(o.keywords) + ".\n") + (CustomLine(o.customPrompt) + "\n") + Opening;
    SpliceBefore(h, text, Closing);
  }

  /** The line after the keyword line carries the custom instructions exactly when a custom prompt is set. */
  lemma {:induction false} PromptCustomLine(text: string, o: Options)
    ensures o.customPrompt != [] ==>
      EndsWith(Prompt(text, o), ".\n" + ("Custom Instructions: " + o.customPrompt) + "\n" + Opening + text + Closing)
    ensures o.customPrompt == [] ==>
      EndsWith(Prompt(text, o), ".\n" + "\n" + Opening + text + Closing)
  {
    var pr := Preamble + Rules(o);
    var kh := KeywordHead(o.keywords);
    var a := pr + kh;
    var c := CustomLine(o.customPrompt);
    var tail := ".\n" + c + "\n" + Opening + text + Closing;
    assert Prompt(text, o) == a + tail by {
      AppendAssoc(pr, kh, ".\n");
      assert Prompt(text, o) == a + ".\n" + (c + "\n") + Opening + text + Closing;
      AppendAssoc(".\n", c, "\n");
      AppendAssoc(a, ".\n", c + "\n");
      AppendAssoc(a, ".\n" + c + "\n", Opening);
      AppendAssoc(a, ".\n" + c + "\n" + Opening, text);
      AppendAssoc(a, ".\n" + c + "\n" + Opening + text, Closing);
    }
    AppendParts(a, tail);
    if o.customPrompt == [] {
      assert ".\n" + c == ".\n";
    }
  }

  /** The keyword line reads `none` exactly when the join is empty: no keywords, or one empty keyword. */
  lemma {:induction false} KeywordListNone(keywords: seq<string>)
    ensures KeywordList(keywords) == (if keywords == [] || keywords == [[]] then "none" else Join(keywords, ", "))
  {
    JoinEmpty(keywords, ", ");
  }

  // ---- Output normalisation ----

  /** The echoed header `=== SUMMARY ===`, as compared after ASCII lower-casing (the `i` flag). */
  const HeaderLower: string := "=== summary ==="

  predicate HeaderAt(s: string) {
    |s| >= |HeaderLower| && Lower(s[..|HeaderLower|]) == HeaderLower
  }

  /** `replace(/=== SUMMARY ===/gi, "")`: drops every match, scanning left to right. */
  function StripHeaders(s: string): (r: string)
    ensures multiset(r) <= multiset(s)
  {
    if s == [] then []
    else if HeaderAt(s) then
      var r := StripHeaders(s[|HeaderLower|..]);
      DropShrinks(s, |HeaderLower|);
      r
    else
      var r := StripHeaders(s[1..]);
      assert s == [s[0]] + s[1..];
      [s[0]] + r
  }

  lemma {:induction false} DropShrinks(s: string, n: nat)
    requires n <= |s|
    ensures multiset(s[n..]) <= multiset(s)
  {
    assert s == s[..n] + s[n..];
  }

  /** The length of a `summary\s*:` match at the start of `s`, if there is one. */
  function SummaryLabelAt(s: string): (n: Option<nat>)
    ensures n.Some? ==> 8 <= n.value <= |s|
  {
    if |s| >= 7 && Lower(s[..7]) == "summary" then
      var rest := TrimStart(s[7..]);
      if rest != [] && rest[0] == ':' then Some(|s| - |rest| + 1) else None
    else None
  }

  /** `replace(/summary\s*:/gi, "")`: drops every match, scanning left to right. */
  function StripSummaryLabels(s: string): (r: string)
    ensures multiset(r) <= multiset(s)
    decreases |s|
  {
    if s == [] then []
    else match SummaryLabelAt(s)
      case Some(n) =>
        var r := StripSummaryLabels(s[n..]);
        DropShrinks(s, n);
        r
      case None =>
        var r := StripSummaryLabels(s[1..]);
        assert s == [s[0]] + s[1..];
        [s[0]] + r
  }

  /** Lines 61-67 of the route: collapse and trim, strip echoed headers and labels, trim again. */
  function Clean(raw: string): (r: string)
    ensures Trimmed(r) && PlainSpaces(r)
  {
    var squashed := Squash(raw);
    var stripped := StripSummaryLabels(StripHeaders(squashed));
    SubPlainSpaces(squashed, stripped);
    TrimPlainSpaces(stripped);
    Trim(stripped)
  }

  /** ASCII letters and `:` only. */
  predicate LabelChars(s: string) {
    forall k :: 0 <= k < |s| ==> ('a' <= s[k] <= 'z' || 'A' <= s[k] <= 'Z' || s[k] == ':')
  }

  lemma LabelCharsAppend(a: string, b: string)
    requires LabelChars(a) && LabelChars(b)
    ensures LabelChars(a + b)
  {
    forall k | 0 <= k < |a + b| ensures ('a' <= (a + b)[k] <= 'z' || 'A' <= (a + b)[k] <= 'Z' || (a + b)[k] == ':') {
      if k >= |a| {
        assert (a + b)[k] == b[k - |a|];
      }
    }
  }

  /** Such a string passes the collapse, the trim and the header strip unchanged. */
  lemma LabelCharsUnchanged(s: string)
    requires LabelChars(s)
    ensures StripHeaders(Squash(s)) == s
    ensures Trim(s) == s
  {
    LabelCharsShape(s);
    CollapseFixpoint(s);
    TrimFixpoint(s);
    assert Squash(s) == Trim(Collapse(s));
    StripHeadersNoEquals(s);
  }

  /** Letters and colons hold no whitespace and no `=`. */
  lemma LabelCharsShape(s: string)
    requires LabelChars(s)
    ensures Collapsed(s) && Trimmed(s) && NoneIn(s, {'='})
  {
    assert forall k :: 0 <= k < |s| ==> !IsSpace(s[k]) && s[k] != '=';
  }

  /** What the proofs below use of the word `summary`. */
  predicate LabelWord(w: string) {
    && Lower(w) == "summary" && |w| == 7 && LabelChars(w)
    && w[0] == 's' && NoneIn(w[1..], {'s', 'S'})
  }

  lemma SummaryWord(w: string)
    requires w == "summary"
    ensures LabelWord(w)
  {
  }

  /** The label word followed by itself is no label: a letter, not a colon, follows the word. */
  lemma NoLabelBeforeWord(w: string, t: string)
    requires LabelWord(w)
    ensures SummaryLabelAt(w + w + t) == None
  {
    var s := w + w + t;
    assert s[..7] == w;
    assert s[7..] == w + t;
    assert TrimStart(w + t) == w + t by {
      assert (w + t)[0] == w[0];
    }
  }

  /** The ways the two inputs below are regrouped. */
  lemma Regroup(w: string)
    requires w != []
    ensures w + (w + ":") + ":" == w + w + (":" + ":")
    ensures (w + (w + ":") + ":")[1..] == w[1..] + (w + [] + ":") + ":"
    ensures w + ":" == [] + (w + [] + ":") + []
  {
  }

  /** Label removal over `ww::` leaves `w:`. */
  lemma StripLabelWordTwice(w: string)
    requires LabelWord(w)
    ensures StripSummaryLabels(w + (w + ":") + ":") == w + ":"
  {
    var raw := w + (w + ":") + ":";
    Regroup(w);
    NoLabelBeforeWord(w, ":" + ":");
    assert StripSummaryLabels(raw) == [w[0]] + StripSummaryLabels(raw[1..]);
    StripLabelsRemoves(w[1..], w, [], ":");
    StripLabelsNoS(":");
    ConsAppend(w, ":");
  }

  /** Label removal over `w:` leaves nothing. */
  lemma StripLabelWordOnce(w: string)
    requires LabelWord(w)
    ensures StripSummaryLabels(w + ":") == []
  {
    Regroup(w);
    StripLabelsRemoves([], w, [], []);
  }

  /** One pass over `ww::` leaves `w:`, and one pass over `w:` leaves nothing. */
  lemma CleanLabelWord(w: string)
    requires LabelWord(w)
    ensures Clean(w + (w + ":") + ":") == w + ":"
    ensures Clean(w + ":") == []
  {
    var once := w + ":";
    var raw := w + once + ":";
    LabelCharsAppend(w, ":");
    LabelCharsAppend(w, once);
    LabelCharsAppend(w + once, ":");
    LabelCharsUnchanged(raw);
    LabelCharsUnchanged(once);
    StripLabelWordTwice(w);
    StripLabelWordOnce(w);
  }

  /**
   * The cleanup is not idempotent: in `summarysummary::` removing the inner
   * label `summary:` joins its neighbours into the label `summary:`, which
   * only a second pass removes.
   */
  lemma CleanNotIdempotent(w: string)
    requires w == "summary"
    ensures Clean(w + (w + ":") + ":") == w + ":"
    ensures Clean(w + ":") == []
  {
    SummaryWord(w);
    CleanLabelWord(w);
  }

  /** `/[\n\-•]/`: the characters the bullet split breaks on. */
  const BulletSeparators: set<char> := {'\n', '-', '\U{2022}'}

  /** A bullet fragment: non-empty, trimmed, and free of separators. */
  predicate IsFragment(f: string) {
    f != [] && Trimmed(f) && NoneIn(f, BulletSeparators)
  }

  /** `.map((line) => line.trim())`. */
  function TrimAll(parts: seq<string>): (r: seq<string>)
    ensures |r| == |parts|
    ensures forall k :: 0 <= k < |r| ==> r[k] == Trim(parts[k])
  {
    if parts == [] then [] else [Trim(parts[0])] + TrimAll(parts[1..])
  }

  /** `.split(/[\n\-•]/).map(trim).filter((line) => line.length > 0)`. */
  function Fragments(s: string): (r: seq<string>)
    ensures forall k :: 0 <= k < |r| ==> IsFragment(r[k])
  {
    var pieces := Split(s, BulletSeparators);
    var trimmed := TrimAll(pieces);
    forall k | 0 <= k < |trimmed| ensures NoneIn(trimmed[k], BulletSeparators) {
      TrimNoneIn(pieces[k], BulletSeparators);
    }
    NonEmpty(trimmed)
  }

  /** `line.startsWith("•") ? line : "• " + line`. */
  function MarkBullet(line: string): string {
    if line != [] && line[0] == '\U{2022}' then line else "\U{2022} " + line
  }

  function MarkAll(lines: seq<string>): (r: seq<string>)
    ensures |r| == |lines|
    ensures forall k :: 0 <= k < |r| ==> r[k] == MarkBullet(lines[k])
  {
    if lines == [] then [] else [MarkBullet(lines[0])] + MarkAll(lines[1..])
  }

  /** Lines 69-76: one `•`-prefixed line per fragment, joined by newlines. */
  function Bulletize(s: string): string {
    Join(MarkAll(Fragments(s)), "\n")
  }

  /** The route's output for a raw backend reply and the requested style. */
  function Normalize(raw: string, style: string): string {
    var cleaned := Clean(raw);
    if style == "bullet" then Bulletize(cleaned) else cleaned
  }

  /** A non-bullet result is one line: no whitespace at either end and no line break anywhere. */
  lemma {:induction false} NormalizeParagraph(raw: string, style: string)
    requires style != "bullet"
    ensures var r := Normalize(raw, style);
      Trimmed(r) && forall k :: 0 <= k < |r| ==> r[k] != '\n' && r[k] != '\r'
  {
    var r := Normalize(raw, style);
    forall k | 0 <= k < |r| ensures r[k] != '\n' && r[k] != '\r' {
      if r[k] == '\n' || r[k] == '\r' {
        assert IsSpace(r[k]);
      }
    }
  }

  /** Each marked fragment is `"• "` and the fragment: a fragment never starts with a bullet. */
  lemma {:induction false} MarkFragments(fs: seq<string>)
    requires forall k :: 0 <= k < |fs| ==> IsFragment(fs[k])
    ensures forall k :: 0 <= k < |fs| ==> MarkAll(fs)[k] == "\U{2022} " + fs[k]
    ensures forall k :: 0 <= k < |fs| ==> NoneIn(MarkAll(fs)[k], {'\n'})
  {
    forall k | 0 <= k < |fs| ensures MarkAll(fs)[k] == "\U{2022} " + fs[k] && NoneIn(MarkAll(fs)[k], {'\n'}) {
      assert fs[k][0] !in BulletSeparators;
      var m := MarkAll(fs)[k];
      forall j | 0 <= j < |m| ensures m[j] != '\n' {
        if j >= 2 {
          assert m[j] == fs[k][j - 2];
        }
      }
    }
  }

  /** A join whose first part is non-empty is non-empty. */
  lemma JoinStartsWithFirst(parts: seq<string>, sep: string)
    requires |parts| >= 1
    ensures StartsWith(Join(parts, sep), parts[0])
  {
    if |parts| > 1 {
      AppendAssoc(parts[0], sep, Join(parts[1..], sep));
      AppendParts(parts[0], sep + Join(parts[1..], sep));
    }
  }

  /**
   * A bullet result is empty exactly when there are no fragments; otherwise its
   * newline-separated lines are, in order, `"• "` followed by each non-empty
   * trimmed fragment (free of newline, hyphen and bullet): no line is marked twice.
   */
  lemma {:induction false} NormalizeBullets(raw: string)
    ensures var r := Normalize(raw, "bullet");
      var fs := Fragments(Clean(raw));
      && (r == [] <==> fs == [])
      && (fs != [] ==>
            var lines := Split(r, {'\n'});
            && |lines| == |fs|
            && forall k :: 0 <= k < |lines| ==> lines[k] == "\U{2022} " + fs[k] && IsFragment(fs[k]))
  {
    var fs := Fragments(Clean(raw));
    var marked := MarkAll(fs);
    MarkFragments(fs);
    if fs != [] {
      JoinStartsWithFirst(marked, "\n");
      SplitJoin(marked, '\n', {'\n'});
    }
  }

  /** Text without `=` holds no header to strip. */
  lemma {:induction false} StripHeadersNoEquals(s: string)
    requires NoneIn(s, {'='})
    ensures StripHeaders(s) == s
  {
    if s != [] {
      assert s[0] != '=';
      StripHeadersNoEquals(s[1..]);
      assert [s[0]] + s[1..] == s;
    }
  }

  /** Text without an `s` or `S` holds no label to strip. */
  lemma {:induction false} StripLabelsNoS(s: string)
    requires NoneIn(s, {'s', 'S'})
    ensures StripSummaryLabels(s) == s
  {
    if s != [] {
      assert LowerChar(s[0]) != 's';
      assert SummaryLabelAt(s) == None by {
        if |s| >= 7 {
          assert Lower(s[..7])[0] == LowerChar(s[0]);
        }
      }
      StripLabelsNoS(s[1..]);
      assert [s[0]] + s[1..] == s;
    }
  }

  /** Text shorter than `summary` holds no label. */
  lemma {:induction false} StripLabelsShort(s: string)
    requires |s| < 7
    ensures StripSummaryLabels(s) == s
  {
    if s != [] {
      StripLabelsShort(s[1..]);
      assert [s[0]] + s[1..] == s;
    }
  }

  /** A character other than `=` cannot start a header, so it is kept. */
  lemma StripHeadersCons(c: char, t: string)
    requires c != '='
    ensures StripHeaders([c] + t) == [c] + StripHeaders(t)
  {
    var s := [c] + t;
    assert !HeaderAt(s) by {
      if |s| >= |HeaderLower| {
        assert Lower(s[..|HeaderLower|])[0] == LowerChar(c);
      }
    }
    assert s[1..] == t;
  }

  /** One step of StripHeadersPrefix: a first character that cannot start a match is kept. */
  lemma StripHeadersPrefixStep(a: string, b: string)
    requires a != [] && a[0] != '='
    requires StripHeaders(a[1..] + b) == a[1..] + StripHeaders(b)
    ensures StripHeaders(a + b) == a + StripHeaders(b)
  {
    StripHeadersCons(a[0], a[1..] + b);
    ConsAppend(a, b);
    ConsAppend(a, StripHeaders(b));
  }

  /** No header starts inside a prefix without `=`, so the prefix is kept as it is. */
  lemma {:induction false} StripHeadersPrefix(a: string, b: string)
    requires NoneIn(a, {'='})
    ensures StripHeaders(a + b) == a + StripHeaders(b)
  {
    if a != [] {
      assert a[0] !in {'='};
      assert NoneIn(a[1..], {'='}) by {
        forall k | 0 <= k < |a[1..]| ensures a[1..][k] !in {'='} {
          assert a[1..][k] == a[k + 1];
        }
      }
      StripHeadersPrefix(a[1..], b);
      StripHeadersPrefixStep(a, b);
    } else {
      assert a + b == b;
    }
  }

  /** A header at the start, in any letter case, is dropped and the scan resumes after it. */
  lemma StripHeadersMatch(h: string, b: string)
    requires Lower(h) == HeaderLower
    ensures StripHeaders(h + b) == StripHeaders(b)
  {
    var s := h + b;
    assert s[..|HeaderLower|] == h;
    assert HeaderAt(s);
    assert s[|HeaderLower|..] == b;
  }

  /** The first header, in any letter case, is removed and the text around it is kept. */
  lemma StripHeadersRemoves(a: string, h: string, b: string)
    requires NoneIn(a, {'='}) && Lower(h) == HeaderLower
    ensures StripHeaders(a + h + b) == a + StripHeaders(b)
  {
    StripHeadersPrefix(a, h + b);
    StripHeadersMatch(h, b);
    AppendAssoc(a, h, b);
  }

  /** A character other than `s` or `S` cannot start a label, so it is kept. */
  lemma StripLabelsCons(c: char, t: string)
    requires c != 's' && c != 'S'
    ensures StripSummaryLabels([c] + t) == [c] + StripSummaryLabels(t)
  {
    var s := [c] + t;
    assert LowerChar(c) != 's';
    assert SummaryLabelAt(s) == None by {
      if |s| >= 7 {
        assert Lower(s[..7])[0] == LowerChar(c);
      }
    }
    assert s[1..] == t;
  }

  /** One step of StripLabelsPrefix: a first character that cannot start a match is kept. */
  lemma StripLabelsPrefixStep(a: string, b: string)
    requires a != [] && a[0] != 's' && a[0] != 'S'
    requires StripSummaryLabels(a[1..] + b) == a[1..] + StripSummaryLabels(b)
    ensures StripSummaryLabels(a + b) == a + StripSummaryLabels(b)
  {
    StripLabelsCons(a[0], a[1..] + b);
    ConsAppend(a, b);
    ConsAppend(a, StripSummaryLabels(b));
  }

  /** No label starts inside a prefix without `s` or `S`, so the prefix is kept as it is. */
  lemma {:induction false} StripLabelsPrefix(a: string, b: string)
    requires NoneIn(a, {'s', 'S'})
    ensures StripSummaryLabels(a + b) == a + StripSummaryLabels(b)
  {
    if a != [] {
      assert a[0] !in {'s', 'S'};
      assert NoneIn(a[1..], {'s', 'S'}) by {
        forall k | 0 <= k < |a[1..]| ensures a[1..][k] !in {'s', 'S'} {
          assert a[1..][k] == a[k + 1];
        }
      }
      StripLabelsPrefix(a[1..], b);
      StripLabelsPrefixStep(a, b);
    } else {
      assert a + b == b;
    }
  }

  /** A label `summary`, in any letter case, then whitespace, then `:` is dropped and the scan resumes after it. */
  lemma StripLabelsMatch(k: string, ws: string, b: string)
    requires Lower(k) == "summary" && AllSpace(ws)
    ensures StripSummaryLabels((k + ws + ":") + b) == StripSummaryLabels(b)
  {
    var s := (k + ws + ":") + b;
    assert s[..7] == k;
    assert s[7..] == ws + (":" + b);
    TrimStartSpacePrefix(ws, ":" + b);
    assert TrimStart(":" + b) == ":" + b;
    assert SummaryLabelAt(s) == Some(|s| - |b|);
    assert s[|s| - |b|..] == b;
  }

  /** The first label is removed and the text around it is kept. */
  lemma StripLabelsRemoves(a: string, k: string, ws: string, b: string)
    requires NoneIn(a, {'s', 'S'}) && Lower(k) == "summary" && AllSpace(ws)
    ensures StripSummaryLabels(a + (k + ws + ":") + b) == a + StripSummaryLabels(b)
  {
    var l := k + ws + ":";
    StripLabelsPrefix(a, l + b);
    StripLabelsMatch(k, ws, b);
    AppendAssoc(a, l, b);
  }

  // ---- The route ----

  /** `output.join("")`. */
  function Concat(chunks: seq<string>): string {
    Join(chunks, [])
  }

  /**
   * The handler: 405 for any method but POST; an uncaught exception when `text`
   * is absent (`text.trim()` runs outside the `try`); 400 for blank text; 500
   * when the backend throws; otherwise 200 with the normalised summary.
   */
  function Handle(httpMethod: string, body: Body, generate: string -> Option<seq<string>>): (r: Response)
    ensures r.status == 405 <==> httpMethod != "POST"
    ensures r.status == 400 <==> httpMethod == "POST" && body.text.Some? && AllSpace(body.text.value)
    ensures r.status == 200 <==>
      && httpMethod == "POST" && body.text.Some? && !AllSpace(body.text.value)
      && generate(Prompt(body.text.value, body.options)).Some?
    ensures r.payload.SummaryJson? <==> r.status == 200
    ensures r.status == 200 ==>
      r.payload.summary == Normalize(Concat(generate(Prompt(body.text.value, body.options)).value), body.options.style)
    ensures r.status == 500 && r.payload.ErrorJson? <==>
      && httpMethod == "POST" && body.text.Some? && !AllSpace(body.text.value)
      && generate(Prompt(body.text.value, body.options)).None?
    ensures r.payload.Unhandled? <==> httpMethod == "POST" && body.text.None?
    ensures r.payload.Unhandled? ==> r.status == 500
  {
    if httpMethod != "POST" then Response(405, ErrorJson("Method not allowed"))
    else match body.text
      case None => Response(500, Unhandled)
      case Some(text) =>
        TrimEmpty(text);
        if Trim(text) == [] then Response(400, ErrorJson("Text input is required"))
        else match generate(Prompt(text, body.options))
          case None => Response(500, ErrorJson("Failed to generate summary"))
          case Some(chunks) => Response(200, SummaryJson(Normalize(Concat(chunks), body.options.style)))
  }

  /**
   * What a `fetch` caller sees of an outcome: `fetch` resolves for every
   * status, and `res.json()` throws only on the non-JSON error page; an error
   * object has no `summary` property.
   */
  datatype Reply = NoJson | Json(summary: Option<string>)

  function ReplyOf(r: Response): (reply: Reply)
    ensures reply.NoJson? <==> r.payload.Unhandled?
    ensures reply.Json? && reply.summary.Some? <==> r.payload.SummaryJson?
  {
    match r.payload
    case Unhandled => NoJson
    case ErrorJson(_) => Json(None)
    case SummaryJson(s) => Json(Some(s))
  }

  /** The guards decide before the backend is consulted: the outcome is the same for every backend. */
  lemma {:induction false} GuardsPrecedeBackend(
    httpMethod: string, body: Body, g1: string -> Option<seq<string>>, g2: string -> Option<seq<string>>)
    requires httpMethod != "POST" || body.text.None? || AllSpace(body.text.value)
    ensures Handle(httpMethod, body, g1) == Handle(httpMethod, body, g2)
    ensures Handle(httpMethod, body, g1).status in {400, 405, 500}
    ensures !Handle(httpMethod, body, g1).payload.SummaryJson?
  {
    if httpMethod == "POST" && body.text.Some? {
      TrimEmpty(body.text.value);
    }
  }
}
