/**
 * `extractKeywords` of the summariser page: the text is lower-cased, stripped
 * of everything but word characters and whitespace, and split into tokens; a
 * `forEach` loop counts the tokens into a plain object; the object's entries
 * are sorted by descending count (stably) and the first `limit` become active
 * keywords.
 *
 * The object `{}` is modelled as a map from each token to its count, plus
 * the tokens' insertion order. `Object.entries` lists integer-like property
 * names first, in ascending numeric order, and the others in insertion order.
 * The names the object inherits from `Object.prototype` are not modelled:
 * the tokens `constructor` and `__proto__` are counted like any other word.
 */
module Keywords {
  import opened Strings
  import opened Ordering

  /** A keyword chip: the word and whether it is sent with the request. */
  datatype Keyword = Keyword(word: string, active: bool)

  /** One `[word, count]` pair of `Object.entries(freq)`. */
  datatype Entry = Entry(word: string, count: nat)

  predicate IsLowerWordChar(c: char) {
    IsWordChar(c) && !('A' <= c <= 'Z')
  }

  predicate LowerWordChars(w: string) {
    forall j :: 0 <= j < |w| ==> IsLowerWordChar(w[j])
  }

  /** A token: a non-empty run of lower-case ASCII letters, digits and `_`. */
  predicate IsToken(w: string) {
    w != [] && LowerWordChars(w)
  }

  predicate NoWordChar(s: string) {
    forall k :: 0 <= k < |s| ==> !IsWordChar(s[k])
  }

  /** Only lower-case word characters and whitespace. */
  predicate LowerWordsAndSpaces(s: string) {
    forall k :: 0 <= k < |s| ==> IsLowerWordChar(s[k]) || IsSpace(s[k])
  }

  /** `replace(/[^\w\s]/gi, "")`: drops every character that is neither a word character nor whitespace. */
  function KeepWordsAndSpaces(s: string): (r: string)
    ensures |r| <= |s|
    ensures forall k :: 0 <= k < |r| ==> IsWordChar(r[k]) || IsSpace(r[k])
  {
    if s == [] then []
    else if IsWordChar(s[0]) || IsSpace(s[0]) then [s[0]] + KeepWordsAndSpaces(s[1..])
    else KeepWordsAndSpaces(s[1..])
  }

  /** Stripping keeps only characters of its input, so lower-case input stays lower-case. */
  lemma {:induction false} KeepLower(s: string)
    requires forall k :: 0 <= k < |s| ==> !('A' <= s[k] <= 'Z')
    ensures LowerWordsAndSpaces(KeepWordsAndSpaces(s))
  {
    if s != [] {
      KeepLower(s[1..]);
      var rest := KeepWordsAndSpaces(s[1..]);
      if IsWordChar(s[0]) || IsSpace(s[0]) {
        var r := [s[0]] + rest;
        forall k | 0 <= k < |r| ensures IsLowerWordChar(r[k]) || IsSpace(r[k]) {
          if k > 0 {
            assert r[k] == rest[k - 1];
          }
        }
      }
    }
  }

  /** Stripping leaves a blank string exactly when the input has no word character. */
  lemma {:induction false} KeepBlank(s: string)
    ensures AllSpace(KeepWordsAndSpaces(s)) <==> NoWordChar(s)
  {
    if s != [] {
      KeepBlank(s[1..]);
      var rest := KeepWordsAndSpaces(s[1..]);
      assert NoWordChar(s) <==> !IsWordChar(s[0]) && NoWordChar(s[1..]) by {
        assert forall k :: 1 <= k < |s| ==> s[1..][k - 1] == s[k];
      }
      if IsWordChar(s[0]) || IsSpace(s[0]) {
        AllSpaceCons(s[0], rest);
      }
    }
  }

  lemma AllSpaceCons(c: char, t: string)
    ensures AllSpace([c] + t) <==> IsSpace(c) && AllSpace(t)
  {
    var r := [c] + t;
    assert r[0] == c;
    assert forall k :: 0 <= k < |t| ==> r[k + 1] == t[k];
  }

  /** The pieces of `split(/\s+/)` keep only the non-space characters of the string. */
  lemma {:induction false} SplitRunsLowerWords(s: string)
    requires LowerWordsAndSpaces(s)
    ensures forall i :: 0 <= i < |SplitRuns(s)| ==> LowerWordChars(SplitRuns(s)[i])
  {
    if s != [] {
      SplitRunsLowerWords(s[1..]);
      var rest := SplitRuns(s[1..]);
      if !IsSpace(s[0]) {
        var head := [s[0]] + rest[0];
        assert LowerWordChars(head) by {
          forall j | 0 <= j < |head| ensures IsLowerWordChar(head[j]) {
            if j > 0 {
              assert head[j] == rest[0][j - 1];
            }
          }
        }
      }
    }
  }

  /** `text.toLowerCase().replace(/[^\w\s]/gi, "")`. */
  function Stripped(text: string): (s: string)
    ensures LowerWordsAndSpaces(s)
  {
    var l := Lower(text);
    KeepLower(l);
    KeepWordsAndSpaces(l)
  }

  /** `Stripped(text).split(/\s+/).filter(Boolean)`. */
  function Tokens(text: string): (ws: seq<string>)
    ensures forall k :: 0 <= k < |ws| ==> IsToken(ws[k])
  {
    var s := Stripped(text);
    SplitRunsLowerWords(s);
    var ws := Words(s);
    forall k | 0 <= k < |ws| ensures IsToken(ws[k]) {
      var i :| 0 <= i < |SplitRuns(s)| && SplitRuns(s)[i] == ws[k];
    }
    ws
  }

  /** A text yields no token exactly when it holds no word character. */
  lemma {:induction false} TokensEmpty(text: string)
    ensures Tokens(text) == [] <==> NoWordChar(text)
  {
    var l := Lower(text);
    var s := Stripped(text);
    KeepBlank(l);
    assert NoWordChar(l) <==> NoWordChar(text) by {
      assert forall k :: 0 <= k < |text| ==> (IsWordChar(l[k]) <==> IsWordChar(text[k]));
    }
    WordsOfTrim(s);
    TrimEmpty(s);
  }

  /** How often `w` occurs among the tokens of `text`. */
  function Occurrences(text: string, w: string): nat {
    multiset(Tokens(text))[w]
  }

  /** The `freq` object after `words.forEach((w) => (freq[w] = (freq[w] || 0) + 1))`. */
  function Frequencies(ws: seq<string>): (freq: map<string, nat>)
    ensures forall w :: w in freq <==> w in ws
    ensures forall w :: w in freq ==> freq[w] == multiset(ws)[w]
  {
    if ws == [] then map[]
    else
      var prev := Frequencies(ws[..|ws| - 1]);
      var w := ws[|ws| - 1];
      assert ws == ws[..|ws| - 1] + [w];
      prev[w := (if w in prev then prev[w] else 0) + 1]
  }

  predicate Distinct(s: seq<string>) {
    forall i, j :: 0 <= i < j < |s| ==> s[i] != s[j]
  }

  /** The insertion order of `freq`'s properties: each word at its first occurrence. */
  function FirstOccurrences(ws: seq<string>): (keys: seq<string>)
    ensures forall w :: w in keys <==> w in ws
    ensures Distinct(keys)
  {
    if ws == [] then []
    else
      var prev := FirstOccurrences(ws[..|ws| - 1]);
      var w := ws[|ws| - 1];
      assert ws == ws[..|ws| - 1] + [w];
      if w in prev then prev else prev + [w]
  }

  /** A prefix of the words lists its keys as a prefix of the whole list: first-seen order is kept. */
  lemma {:induction false} FirstOccurrencesPrefix(ws: seq<string>, n: nat)
    requires n <= |ws|
    ensures |FirstOccurrences(ws[..n])| <= |FirstOccurrences(ws)|
    ensures FirstOccurrences(ws[..n]) == FirstOccurrences(ws)[..|FirstOccurrences(ws[..n])|]
  {
    if n == |ws| {
      assert ws[..n] == ws;
    } else {
      var init := ws[..|ws| - 1];
      assert ws[..n] == init[..n];
      FirstOccurrencesPrefix(init, n);
    }
  }

  /** 2^32 - 2, the largest array index. */
  const MaxArrayIndex: nat := 4294967294

  /** A property name that is an array index: canonical decimal digits of at most `MaxArrayIndex`. */
  predicate IsArrayIndex(k: string) {
    && k != []
    && (forall j :: 0 <= j < |k| ==> IsDigit(k[j]))
    && (|k| == 1 || k[0] != '0')
    && DecimalValue(k) <= MaxArrayIndex
  }

  predicate IsOtherKey(k: string) {
    !IsArrayIndex(k)
  }

  /** Sort key putting smaller array indices first. */
  function IndexRank(k: string): int {
    if IsArrayIndex(k) then -(DecimalValue(k) as int) else 0
  }

  /** The array-index property names in ascending numeric order. */
  function IndexKeys(keys: seq<string>): seq<string> {
    Sort(Filter(keys, IsArrayIndex), IndexRank)
  }

  /** The other property names in insertion order. */
  function OtherKeys(keys: seq<string>): seq<string> {
    Filter(keys, IsOtherKey)
  }

  /** `Object.entries` order: array indices ascending, then the other names in insertion order. */
  function EntryOrder(keys: seq<string>): (r: seq<string>)
    ensures |r| == |keys|
    ensures multiset(r) == multiset(keys)
  {
    var idx := IndexKeys(keys);
    var others := OtherKeys(keys);
    FilterPartition(keys, IsArrayIndex, IsOtherKey);
    assert multiset(idx + others) == multiset(keys);
    assert |multiset(idx + others)| == |idx + others| && |multiset(keys)| == |keys|;
    idx + others
  }

  lemma {:induction false} IndexKeysAreIndices(keys: seq<string>)
    ensures forall k :: 0 <= k < |IndexKeys(keys)| ==> IsArrayIndex(IndexKeys(keys)[k])
  {
    var idx := Filter(keys, IsArrayIndex);
    var sorted := IndexKeys(keys);
    forall k | 0 <= k < |sorted| ensures IsArrayIndex(sorted[k]) {
      var m := PermutationIndex(sorted, idx, k);
    }
  }

  /** Array indices come first and in ascending numeric order. */
  lemma {:induction false} EntryOrderIndicesFirst(keys: seq<string>)
    ensures forall i, j :: 0 <= i < j < |EntryOrder(keys)| && IsArrayIndex(EntryOrder(keys)[j]) ==>
      IsArrayIndex(EntryOrder(keys)[i]) && DecimalValue(EntryOrder(keys)[i]) <= DecimalValue(EntryOrder(keys)[j])
  {
    var sorted := IndexKeys(keys);
    var others := OtherKeys(keys);
    var r := EntryOrder(keys);
    assert r == sorted + others;
    SortSorted(Filter(keys, IsArrayIndex), IndexRank);
    IndexKeysAreIndices(keys);
    forall i, j | 0 <= i < j < |r| && IsArrayIndex(r[j])
      ensures IsArrayIndex(r[i]) && DecimalValue(r[i]) <= DecimalValue(r[j])
    {
      if j >= |sorted| {
        assert false;
      }
      assert r[i] == sorted[i] && r[j] == sorted[j];
      assert IndexRank(sorted[i]) >= IndexRank(sorted[j]);
    }
  }

  /** The other property names keep their insertion order. */
  lemma {:induction false} EntryOrderOthers(keys: seq<string>)
    ensures Filter(EntryOrder(keys), IsOtherKey) == Filter(keys, IsOtherKey)
  {
    var sorted := IndexKeys(keys);
    var others := OtherKeys(keys);
    IndexKeysAreIndices(keys);
    FilterNone(sorted, IsOtherKey);
    FilterAll(others, IsOtherKey);
    FilterAppend(sorted, others, IsOtherKey);
  }

  /** The pairs `[key, freq[key]]` in the given key order. */
  function EntriesOf(keys: seq<string>, freq: map<string, nat>): (es: seq<Entry>)
    requires forall k :: 0 <= k < |keys| ==> keys[k] in freq
    ensures |es| == |keys|
    ensures forall k :: 0 <= k < |es| ==> es[k] == Entry(keys[k], freq[keys[k]])
  {
    if keys == [] then [] else [Entry(keys[0], freq[keys[0]])] + EntriesOf(keys[1..], freq)
  }

  function CountKey(e: Entry): int {
    e.count
  }

  function EntryWord(e: Entry): string {
    e.word
  }

  /** The property names of `freq` as `Object.entries` lists them. */
  function Keys(ws: seq<string>): seq<string> {
    EntryOrder(FirstOccurrences(ws))
  }

  /** Every property listed by `Object.entries` is a counted word. */
  lemma {:induction false} KeysCounted(ws: seq<string>)
    ensures forall k :: 0 <= k < |Keys(ws)| ==> Keys(ws)[k] in ws && Keys(ws)[k] in Frequencies(ws)
  {
    var first := FirstOccurrences(ws);
    var keys := Keys(ws);
    forall k | 0 <= k < |keys| ensures keys[k] in ws {
      var m := PermutationIndex(keys, first, k);
      assert first[m] in first;
    }
  }

  /** `Object.entries(freq)` after counting the words `ws`. */
  function CountedEntries(ws: seq<string>): seq<Entry> {
    KeysCounted(ws);
    EntriesOf(Keys(ws), Frequencies(ws))
  }

  /** Each entry is a word of `ws` with its number of occurrences. */
  lemma CountedEntriesCounts(ws: seq<string>)
    ensures forall k :: 0 <= k < |CountedEntries(ws)| ==>
      CountedEntries(ws)[k].word in ws && CountedEntries(ws)[k].count == multiset(ws)[CountedEntries(ws)[k].word]
  {
    KeysCounted(ws);
  }

  /** Every word of `ws` has an entry. */
  lemma {:induction false} CountedEntriesCover(ws: seq<string>)
    ensures forall w :: w in ws ==> exists k :: 0 <= k < |CountedEntries(ws)| && CountedEntries(ws)[k].word == w
  {
    var first := FirstOccurrences(ws);
    var keys := Keys(ws);
    var es := CountedEntries(ws);
    forall w | w in ws ensures exists k :: 0 <= k < |es| && es[k].word == w {
      var i :| 0 <= i < |first| && first[i] == w;
      var k := PermutationIndex(first, keys, i);
      assert es[k].word == keys[k];
    }
  }

  /** No word has two entries. */
  lemma {:induction false} CountedEntriesUnique(ws: seq<string>)
    ensures UniqueBy(CountedEntries(ws), EntryWord)
  {
    var keys := Keys(ws);
    var es := CountedEntries(ws);
    DistinctPermutation(FirstOccurrences(ws), keys);
    forall i, j | 0 <= i < j < |es| ensures EntryWord(es[i]) != EntryWord(es[j]) {
      assert es[i].word == keys[i] && es[j].word == keys[j];
    }
  }

  /** A permutation of a list without repeats has none either. */
  lemma {:induction false} DistinctPermutation(a: seq<string>, b: seq<string>)
    requires Distinct(a) && multiset(a) == multiset(b)
    ensures Distinct(b)
  {
    forall i, j | 0 <= i < j < |b| ensures b[i] != b[j] {
      if b[i] == b[j] {
        assert multiset(b)[b[i]] >= 2 by {
          assert b == b[..i] + [b[i]] + b[i + 1..j] + [b[j]] + b[j + 1..];
        }
        DistinctCount(a, b[i]);
        assert false;
      }
    }
  }

  lemma {:induction false} DistinctCount(a: seq<string>, x: string)
    requires Distinct(a)
    ensures multiset(a)[x] <= 1
  {
    if a != [] {
      DistinctCount(a[1..], x);
      assert a == [a[0]] + a[1..];
      if a[0] == x {
        assert x !in a[1..];
      }
    }
  }

  /** The entries sorted by descending count, ties in `Object.entries` order. */
  function RankedEntries(ws: seq<string>): seq<Entry> {
    Sort(CountedEntries(ws), CountKey)
  }

  /** `.slice(0, limit)` of the ranked entries. */
  function TopEntries(ws: seq<string>, limit: nat): seq<Entry> {
    var r := RankedEntries(ws);
    r[..Min(limit, |r|)]
  }

  /** `.map(([word]) => ({ word, active: true }))`. */
  function Activate(es: seq<Entry>): (ks: seq<Keyword>)
    ensures |ks| == |es|
    ensures forall k :: 0 <= k < |ks| ==> ks[k] == Keyword(es[k].word, true)
  {
    if es == [] then [] else [Keyword(es[0].word, true)] + Activate(es[1..])
  }

  /** The keywords chosen from the word list `ws`. */
  function Chosen(ws: seq<string>, limit: nat): seq<Keyword> {
    Activate(TopEntries(ws, limit))
  }

  /** The value `extractKeywords(text, limit)` returns. */
  function Extracted(text: string, limit: nat): seq<Keyword> {
    Chosen(Tokens(text), limit)
  }

  /** Sorting the entries keeps what they pair, sorts by count and loses no word. */
  lemma {:induction false} RankedFacts(ws: seq<string>)
    ensures forall k :: 0 <= k < |RankedEntries(ws)| ==>
      RankedEntries(ws)[k].word in ws && RankedEntries(ws)[k].count == multiset(ws)[RankedEntries(ws)[k].word]
    ensures UniqueBy(RankedEntries(ws), EntryWord)
    ensures SortedDesc(RankedEntries(ws), CountKey)
    ensures forall w :: w in ws ==> exists k :: 0 <= k < |RankedEntries(ws)| && RankedEntries(ws)[k].word == w
  {
    var es := CountedEntries(ws);
    var r := RankedEntries(ws);
    CountedEntriesCounts(ws);
    CountedEntriesCover(ws);
    CountedEntriesUnique(ws);
    forall k | 0 <= k < |r| ensures r[k].word in ws && r[k].count == multiset(ws)[r[k].word] {
      var m := PermutationIndex(r, es, k);
    }
    SortUnique(es, CountKey, EntryWord);
    SortSorted(es, CountKey);
    forall w | w in ws ensures exists k :: 0 <= k < |r| && r[k].word == w {
      var m :| 0 <= m < |es| && es[m].word == w;
      var k := PermutationIndex(es, r, m);
    }
  }

  /** The chosen keywords are the top entries' words, all active. */
  lemma ChosenIsTop(ws: seq<string>, limit: nat)
    ensures |Chosen(ws, limit)| == Min(limit, |RankedEntries(ws)|) <= limit
    ensures forall k :: 0 <= k < |Chosen(ws, limit)| ==> Chosen(ws, limit)[k] == Keyword(RankedEntries(ws)[k].word, true)
  {
  }

  /**
   * At most `limit` keywords, all active, with pairwise distinct words, each a
   * word of `ws`; listed by non-increasing number of occurrences.
   */
  lemma {:induction false} ChosenShape(ws: seq<string>, limit: nat)
    ensures |Chosen(ws, limit)| <= limit
    ensures forall k :: 0 <= k < |Chosen(ws, limit)| ==> Chosen(ws, limit)[k].active && Chosen(ws, limit)[k].word in ws
    ensures forall i, j :: 0 <= i < j < |Chosen(ws, limit)| ==> Chosen(ws, limit)[i].word != Chosen(ws, limit)[j].word
    ensures forall i, j :: 0 <= i < j < |Chosen(ws, limit)| ==>
      multiset(ws)[Chosen(ws, limit)[i].word] >= multiset(ws)[Chosen(ws, limit)[j].word]
  {
    RankedFacts(ws);
    ChosenIsTop(ws, limit);
    var ranked := RankedEntries(ws);
    var r := Chosen(ws, limit);
    forall i, j | 0 <= i < j < |r| ensures r[i].word != r[j].word {
      assert EntryWord(ranked[i]) != EntryWord(ranked[j]);
    }
    forall i, j | 0 <= i < j < |r| ensures multiset(ws)[r[i].word] >= multiset(ws)[r[j].word] {
      assert CountKey(ranked[i]) >= CountKey(ranked[j]);
    }
  }

  /**
   * At most `limit` keywords, all active, with pairwise distinct words, each a
   * lower-case token of the text; listed by non-increasing number of occurrences.
   */
  lemma ExtractedShape(text: string, limit: nat)
    ensures |Extracted(text, limit)| <= limit
    ensures forall k :: 0 <= k < |Extracted(text, limit)| ==>
      Extracted(text, limit)[k].active && IsToken(Extracted(text, limit)[k].word) && Extracted(text, limit)[k].word in Tokens(text)
    ensures forall i, j :: 0 <= i < j < |Extracted(text, limit)| ==> Extracted(text, limit)[i].word != Extracted(text, limit)[j].word
    ensures forall i, j :: 0 <= i < j < |Extracted(text, limit)| ==>
      Occurrences(text, Extracted(text, limit)[i].word) >= Occurrences(text, Extracted(text, limit)[j].word)
  {
    var ws := Tokens(text);
    ChosenShape(ws, limit);
    forall k | 0 <= k < |Chosen(ws, limit)| ensures IsToken(Chosen(ws, limit)[k].word) {
      var i :| 0 <= i < |ws| && ws[i] == Chosen(ws, limit)[k].word;
    }
  }

  /**
   * Nothing better is left out: a word of `ws` missing from the result only
   * happens when `limit` keywords were chosen, each occurring at least as often.
   */
  lemma {:induction false} ChosenComplete(ws: seq<string>, limit: nat, w: string)
    requires w in ws
    requires forall k :: 0 <= k < |Chosen(ws, limit)| ==> Chosen(ws, limit)[k].word != w
    ensures |Chosen(ws, limit)| == limit
    ensures forall k :: 0 <= k < |Chosen(ws, limit)| ==> multiset(ws)[Chosen(ws, limit)[k].word] >= multiset(ws)[w]
  {
    RankedFacts(ws);
    ChosenIsTop(ws, limit);
    var ranked := RankedEntries(ws);
    var r := Chosen(ws, limit);
    var p :| 0 <= p < |ranked| && ranked[p].word == w;
    assert p >= |r|;
    forall k | 0 <= k < |r| ensures multiset(ws)[r[k].word] >= multiset(ws)[w] {
      assert CountKey(ranked[k]) >= CountKey(ranked[p]);
    }
  }

  /**
   * Nothing better is left out: a token missing from the result only happens
   * when `limit` keywords were returned, each occurring at least as often.
   */
  lemma ExtractedComplete(text: string, limit: nat, w: string)
    requires w in Tokens(text)
    requires forall k :: 0 <= k < |Extracted(text, limit)| ==> Extracted(text, limit)[k].word != w
    ensures |Extracted(text, limit)| == limit
    ensures forall k :: 0 <= k < |Extracted(text, limit)| ==>
      Occurrences(text, Extracted(text, limit)[k].word) >= Occurrences(text, w)
  {
    var ws := Tokens(text);
    assert Extracted(text, limit) == Chosen(ws, limit);
    ChosenComplete(ws, limit, w);
  }

  /** Nothing is chosen exactly when `limit` is 0 or there is no word. */
  lemma {:induction false} ChosenEmpty(ws: seq<string>, limit: nat)
    ensures Chosen(ws, limit) == [] <==> limit == 0 || ws == []
  {
    RankedFacts(ws);
    ChosenIsTop(ws, limit);
    var ranked := RankedEntries(ws);
    if ws != [] {
      assert ws[0] in ws;
      assert ranked != [];
    }
    if ranked != [] {
      assert ranked[0].word in ws;
    }
  }

  /** The result is empty exactly when `limit` is 0 or the text holds no word character. */
  lemma ExtractedEmpty(text: string, limit: nat)
    ensures Extracted(text, limit) == [] <==> limit == 0 || NoWordChar(text)
  {
    TokensEmpty(text);
    ChosenEmpty(Tokens(text), limit);
  }

  /**
   * Ties keep `Object.entries` order: for every count, the entries kept with
   * that count are the first ones with that count in `Object.entries(freq)`.
   */
  lemma {:induction false} TopTieOrder(ws: seq<string>, limit: nat, c: int)
    ensures IsPrefix(WithKey(TopEntries(ws, limit), CountKey, c), WithKey(CountedEntries(ws), CountKey, c))
  {
    var es := CountedEntries(ws);
    SortPrefixStable(es, CountKey, Min(limit, |es|), c);
  }

  /** The `forEach` loop of `extractKeywords`: counts the words into `freq`, whose property order is `order`. */
  /** One more token: its count goes up by one, starting from 0. */
  lemma FrequenciesStep(ws: seq<string>, i: nat)
    requires i < |ws|
    ensures var prev := Frequencies(ws[..i]);
      Frequencies(ws[..i + 1]) == prev[ws[i] := (if ws[i] in prev then prev[ws[i]] else 0) + 1]
  {
    assert ws[..i + 1][..i] == ws[..i];
  }

  /** One more token: it is appended to the order on its first occurrence only. */
  lemma FirstOccurrencesStep(ws: seq<string>, i: nat)
    requires i < |ws|
    ensures var prev := FirstOccurrences(ws[..i]);
      FirstOccurrences(ws[..i + 1]) == if ws[i] in Frequencies(ws[..i]) then prev else prev + [ws[i]]
  {
    assert ws[..i + 1][..i] == ws[..i];
  }

  method CountWords(words: seq<string>) returns (freq: map<string, nat>, order: seq<string>)
    ensures freq == Frequencies(words)
    ensures order == FirstOccurrences(words)
  {
    freq := map[];
    order := [];
    var i := 0;
    while i < |words|
      invariant 0 <= i <= |words|
      invariant freq == Frequencies(words[..i])
      invariant order == FirstOccurrences(words[..i])
    {
      var w := words[i];
      FrequenciesStep(words, i);
      FirstOccurrencesStep(words, i);
      if w !in freq {
        order := order + [w];
      }
      freq := freq[w := (if w in freq then freq[w] else 0) + 1];
      i := i + 1;
    }
    assert words[..i] == words;
  }

  /** `extractKeywords(text, limit)`: tokenise, count, then entries, sort, slice and map. */
  method ExtractKeywords(text: string, limit: nat) returns (keywords: seq<Keyword>)
    ensures keywords == Extracted(text, limit)
  {
    var words := Tokens(text);
    var freq, order := CountWords(words);
    var keys := EntryOrder(order);
    assert keys == Keys(words);
    KeysCounted(words);
    var entries := EntriesOf(keys, freq);
    assert entries == CountedEntries(words);
    var sorted := Sort(entries, CountKey);
    keywords := Activate(sorted[..Min(limit, |sorted|)]);
    assert keywords == Chosen(words, limit);
  }
}
