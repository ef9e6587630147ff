/**
 * The JavaScript string operations the summariser relies on, over `seq<char>`:
 * the `\s` and `\w` character classes, `trim`, `replace(/\s+/g, " ")`,
 * `split` on a one-character class, `split(/\s+/)`, `join` and decimal
 * rendering of numbers.
 */
module Strings {

  /**
   * ECMAScript WhiteSpace and LineTerminator code points: what `\s` matches and
   * `trim` drops (tab to carriage return, space, no-break space, ogham space
   * mark, the en quad to hair space block, line and paragraph separators,
   * narrow no-break space, medium mathematical space, ideographic space and the
   * byte order mark).
   */
  predicate IsSpace(c: char) {
    || ('\t' <= c <= '\r') || c == ' ' || c == '\U{A0}' || c == '\U{1680}'
    || ('\U{2000}' <= c <= '\U{200A}') || c == '\U{2028}' || c == '\U{2029}'
    || c == '\U{202F}' || c == '\U{205F}' || c == '\U{3000}' || c == '\U{FEFF}'
  }

  /** `\w` without the `u` flag: ASCII letters, digits and underscore. */
  predicate IsWordChar(c: char) {
    ('a' <= c <= 'z') || ('A' <= c <= 'Z') || ('0' <= c <= '9') || c == '_'
  }

  predicate IsDigit(c: char) {
    '0' <= c <= '9'
  }

  function Min(a: nat, b: nat): nat {
    if a <= b then a else b
  }

  /** True when no character of `s` belongs to `cs`. */
  predicate NoneIn(s: string, cs: set<char>) {
    forall k :: 0 <= k < |s| ==> s[k] !in cs
  }

  predicate NoSpace(s: string) {
    forall k :: 0 <= k < |s| ==> !IsSpace(s[k])
  }

  predicate AllSpace(s: string) {
    forall k :: 0 <= k < |s| ==> IsSpace(s[k])
  }

  /** No whitespace at either end: what `trim` guarantees. */
  predicate Trimmed(s: string) {
    s == [] || (!IsSpace(s[0]) && !IsSpace(s[|s| - 1]))
  }

  /** What `replace(/\s+/g, " ")` guarantees: the only whitespace is a lone ' '. */
  predicate Collapsed(s: string) {
    && (forall k :: 0 <= k < |s| && IsSpace(s[k]) ==> s[k] == ' ')
    && (forall k :: 1 <= k < |s| ==> !(IsSpace(s[k - 1]) && IsSpace(s[k])))
  }

  /** The only whitespace, if any, is the plain space ' '. */
  predicate PlainSpaces(s: string) {
    forall k :: 0 <= k < |s| && IsSpace(s[k]) ==> s[k] == ' '
  }

  predicate StartsWith(s: string, prefix: string) {
    |prefix| <= |s| && s[..|prefix|] == prefix
  }

  predicate EndsWith(s: string, suffix: string) {
    |suffix| <= |s| && s[|s| - |suffix|..] == suffix
  }

  /** A concatenation starts with its left part and ends with its right part. */
  lemma AppendParts(a: string, b: string)
    ensures StartsWith(a + b, a) && EndsWith(a + b, b)
  {
    assert (a + b)[..|a|] == a;
  }

  lemma AppendAssoc(a: string, b: string, c: string)
    ensures a + b + c == a + (b + c)
  {
  }

  /** A non-empty string followed by another is its first character followed by the rest. */
  lemma ConsAppend(a: string, b: string)
    requires a != []
    ensures a + b == [a[0]] + (a[1..] + b)
  {
    assert a == [a[0]] + a[1..];
  }

  lemma {:induction false} PrefixTransitive(s: string, m: string, a: string)
    requires StartsWith(s, m) && StartsWith(m, a)
    ensures StartsWith(s, a)
  {
    assert s[..|a|] == s[..|m|][..|a|];
  }

  /** Inserting `x` before a suffix `t` of `h + t`. */
  lemma SpliceBefore(h: string, x: string, t: string)
    ensures var e := h + [] + t; |e| >= |t| && h + x + t == e[..|e| - |t|] + x + e[|e| - |t|..]
  {
    var e := h + [] + t;
    assert h + [] == h;
    assert e[..|e| - |t|] == h && e[|e| - |t|..] == t;
  }

  /** `toLowerCase` restricted to ASCII letters. */
  function LowerChar(c: char): (r: char)
    ensures IsWordChar(c) <==> IsWordChar(r)
    ensures !('A' <= r <= 'Z')
    ensures IsSpace(c) ==> r == c
  {
    if 'A' <= c <= 'Z' then (c as int + 32) as char else c
  }

  function Lower(s: string): (r: string)
    ensures |r| == |s|
    ensures forall k :: 0 <= k < |s| ==> r[k] == LowerChar(s[k])
  {
    if s == [] then [] else [LowerChar(s[0])] + Lower(s[1..])
  }

  /** `trimStart`: drops the leading run of whitespace. */
  function TrimStart(s: string): (r: string)
    ensures |r| <= |s| && r == s[|s| - |r|..]
    ensures r == [] || !IsSpace(r[0])
  {
    if s != [] && IsSpace(s[0]) then TrimStart(s[1..]) else s
  }

  /** What `trimStart` drops is whitespace. */
  lemma {:induction false} TrimStartDropsSpace(s: string)
    ensures forall k :: 0 <= k < |s| - |TrimStart(s)| ==> IsSpace(s[k])
  {
    if s != [] && IsSpace(s[0]) {
      TrimStartDropsSpace(s[1..]);
      forall k | 1 <= k < |s| - |TrimStart(s)| ensures IsSpace(s[k]) {
        assert s[k] == s[1..][k - 1];
      }
    }
  }

  /** `trimEnd`: drops the trailing run of whitespace. */
  function TrimEnd(s: string): (r: string)
    ensures |r| <= |s| && r == s[..|r|]
    ensures r == [] || !IsSpace(r[|r| - 1])
  {
    if s != [] && IsSpace(s[|s| - 1]) then TrimEnd(s[..|s| - 1]) else s
  }

  /** What `trimEnd` drops is whitespace. */
  lemma {:induction false} TrimEndDropsSpace(s: string)
    ensures forall k :: |TrimEnd(s)| <= k < |s| ==> IsSpace(s[k])
  {
    if s != [] && IsSpace(s[|s| - 1]) {
      TrimEndDropsSpace(s[..|s| - 1]);
    }
  }

  /** `r` occurs in `s` at offset `i`. */
  predicate SliceAt(r: string, s: string, i: nat) {
    i + |r| <= |s| && r == s[i..i + |r|]
  }

  /** `trim`: the slice of `s` left after dropping whitespace at both ends. */
  function Trim(s: string): (r: string)
    ensures Trimmed(r)
    ensures SliceAt(r, s, |s| - |TrimStart(s)|)
  {
    var t := TrimStart(s);
    var r := TrimEnd(t);
    SliceOfSuffix(s, t, r);
    TrimmedEnds(t, r);
    r
  }

  /** A prefix of a suffix is a middle slice. */
  lemma SliceOfSuffix(s: string, t: string, r: string)
    requires |t| <= |s| && t == s[|s| - |t|..]
    requires |r| <= |t| && r == t[..|r|]
    ensures SliceAt(r, s, |s| - |t|)
  {
  }

  /** A prefix of `t` that ends in a non-space, where `t` starts with a non-space, is trimmed. */
  lemma TrimmedEnds(t: string, r: string)
    requires t == [] || !IsSpace(t[0])
    requires |r| <= |t| && r == t[..|r|]
    requires r == [] || !IsSpace(r[|r| - 1])
    ensures Trimmed(r)
  {
    if r != [] {
      assert r[0] == t[0];
    }
  }

  /** Trimming keeps only characters of the string, so it adds none from `cs`. */
  lemma {:induction false} TrimNoneIn(s: string, cs: set<char>)
    requires NoneIn(s, cs)
    ensures NoneIn(Trim(s), cs)
  {
    var a := |s| - |TrimStart(s)|;
    NoneInSlice(s, a, a + |Trim(s)|, cs);
  }

  /** A slice of a string avoiding `cs` avoids it too. */
  lemma NoneInSlice(s: string, i: nat, j: nat, cs: set<char>)
    requires i <= j <= |s| && NoneIn(s, cs)
    ensures NoneIn(s[i..j], cs)
  {
    forall k | 0 <= k < j - i ensures s[i..j][k] !in cs {
      assert s[i..j][k] == s[i + k];
    }
  }

  /** `trim` gives the empty string exactly for blank input. */
  lemma {:induction false} TrimEmpty(s: string)
    ensures Trim(s) == [] <==> AllSpace(s)
  {
    var t := TrimStart(s);
    if Trim(s) == [] {
      TrimStartDropsSpace(s);
      TrimEndDropsSpace(t);
      assert t == [];
    }
    if AllSpace(s) {
      TrimStartAllSpace(s);
    }
  }

  lemma {:induction false} TrimStartOfTrimmed(s: string)
    requires s == [] || !IsSpace(s[0])
    ensures TrimStart(s) == s
  {
  }

  lemma {:induction false} TrimEndOfTrimmed(s: string)
    requires s == [] || !IsSpace(s[|s| - 1])
    ensures TrimEnd(s) == s
  {
  }

  /** `trim` changes exactly the strings with whitespace at an end. */
  lemma {:induction false} TrimFixpoint(s: string)
    ensures Trim(s) == s <==> Trimmed(s)
  {
    if Trimmed(s) {
      TrimStartOfTrimmed(s);
      TrimEndOfTrimmed(s);
      assert Trim(s) == TrimEnd(TrimStart(s));
    }
  }

  lemma {:induction false} TrimIdempotent(s: string)
    ensures Trim(Trim(s)) == Trim(s)
  {
    TrimFixpoint(Trim(s));
  }

  /** `replace(/\s+/g, " ")`: every maximal run of whitespace becomes a single space. */
  function Collapse(s: string): (r: string)
    ensures |r| <= |s|
    ensures Collapsed(r)
    ensures r == [] <==> s == []
    ensures s != [] ==> r[0] == (if IsSpace(s[0]) then ' ' else s[0])
  {
    if s == [] then []
    else if IsSpace(s[0]) && |s| > 1 && IsSpace(s[1]) then Collapse(s[1..])
    else if IsSpace(s[0]) then [' '] + Collapse(s[1..])
    else [s[0]] + Collapse(s[1..])
  }

  /** A string is left unchanged by the collapse exactly when it is already collapsed. */
  lemma {:induction false} CollapseFixpoint(s: string)
    ensures Collapse(s) == s <==> Collapsed(s)
  {
    if s != [] && Collapsed(s) {
      assert Collapsed(s[1..]) by {
        forall k | 1 <= k < |s[1..]| ensures !(IsSpace(s[1..][k - 1]) && IsSpace(s[1..][k])) {
          assert s[1..][k - 1] == s[k] && s[1..][k] == s[k + 1];
        }
      }
      CollapseFixpoint(s[1..]);
      if |s| > 1 {
        assert !(IsSpace(s[0]) && IsSpace(s[1]));
      }
      assert [s[0]] + s[1..] == s;
    }
  }

  /** Every slice of a collapsed string is collapsed. */
  lemma {:induction false} CollapsedSlice(s: string, i: nat, j: nat)
    requires Collapsed(s) && i <= j <= |s|
    ensures Collapsed(s[i..j])
  {
    var t := s[i..j];
    forall k | 1 <= k < |t| ensures !(IsSpace(t[k - 1]) && IsSpace(t[k])) {
      assert t[k - 1] == s[i + k - 1] && t[k] == s[i + k];
    }
  }

  /** `s.replace(/\s+/g, " ").trim()`: the cleanup used on summaries. */
  function Squash(s: string): (r: string)
    ensures Collapsed(r) && Trimmed(r)
    ensures forall k :: 0 <= k < |r| ==> r[k] != '\n' && r[k] != '\r'
  {
    var c := Collapse(s);
    var r := Trim(c);
    SquashShape(c, r, |c| - |TrimStart(c)|);
    r
  }

  /** A slice of collapsed text is collapsed and has no line break. */
  lemma SquashShape(c: string, r: string, a: nat)
    requires Collapsed(c) && SliceAt(r, c, a)
    ensures Collapsed(r)
    ensures forall k :: 0 <= k < |r| ==> r[k] != '\n' && r[k] != '\r'
  {
    CollapsedSlice(c, a, a + |r|);
    CollapsedNoBreak(r);
  }

  /** Collapsed text has no line break: its only whitespace is ' '. */
  lemma CollapsedNoBreak(s: string)
    requires Collapsed(s)
    ensures forall k :: 0 <= k < |s| ==> s[k] != '\n' && s[k] != '\r'
  {
    forall k | 0 <= k < |s| ensures s[k] != '\n' && s[k] != '\r' {
      if s[k] == '\n' || s[k] == '\r' {
        assert IsSpace(s[k]);
      }
    }
  }

  /** Trimming keeps the whitespace plain. */
  lemma {:induction false} TrimPlainSpaces(s: string)
    requires PlainSpaces(s)
    ensures PlainSpaces(Trim(s))
  {
    PlainSpacesSlice(s, Trim(s), |s| - |TrimStart(s)|);
  }

  /** A slice of a string whose only whitespace is ' ' has no other whitespace either. */
  lemma PlainSpacesSlice(s: string, r: string, i: nat)
    requires PlainSpaces(s) && SliceAt(r, s, i)
    ensures PlainSpaces(r)
  {
    forall k | 0 <= k < |r| && IsSpace(r[k]) ensures r[k] == ' ' {
      assert r[k] == s[i + k];
    }
  }

  /** Deleting characters keeps the whitespace plain. */
  lemma {:induction false} SubPlainSpaces(s: string, r: string)
    requires PlainSpaces(s) && multiset(r) <= multiset(s)
    ensures PlainSpaces(r)
  {
    forall k | 0 <= k < |r| && IsSpace(r[k]) ensures r[k] == ' ' {
      assert r[k] in multiset(r);
      var j :| 0 <= j < |s| && s[j] == r[k];
    }
  }

  /** The cleanup is empty exactly for blank input. */
  lemma {:induction false} SquashEmpty(s: string)
    ensures Squash(s) == [] <==> AllSpace(s)
  {
    var c := Collapse(s);
    TrimEmpty(c);
    if !AllSpace(s) {
      var k :| 0 <= k < |s| && !IsSpace(s[k]);
      CollapseKeepsWords(s, k);
    }
    if AllSpace(s) && s != [] {
      CollapseAllSpace(s);
    }
  }

  lemma {:induction false} CollapseAllSpace(ws: string)
    requires ws != [] && AllSpace(ws)
    ensures Collapse(ws) == [' ']
  {
    if |ws| > 1 {
      CollapseAllSpace(ws[1..]);
    }
  }

  /** A non-space character of the input survives the collapse. */
  lemma {:induction false} CollapseKeepsWords(s: string, k: nat)
    requires k < |s| && !IsSpace(s[k])
    ensures !AllSpace(Collapse(s))
  {
    var r := Collapse(s);
    if k == 0 {
      assert !IsSpace(r[0]);
    } else {
      CollapseKeepsWords(s[1..], k - 1);
      var q := Collapse(s[1..]);
      var j :| 0 <= j < |q| && !IsSpace(q[j]);
      if r == q {
        assert !IsSpace(r[j]);
      } else {
        assert r[j + 1] == q[j];
      }
    }
  }

  /** The summary cleanup is idempotent. */
  lemma {:induction false} SquashIdempotent(s: string)
    ensures Squash(Squash(s)) == Squash(s)
  {
    var r := Squash(s);
    CollapseFixpoint(r);
    TrimFixpoint(r);
    assert Squash(r) == Trim(Collapse(r));
  }

  /** `s.split(re)` where `re` matches exactly one character of `seps`. */
  function Split(s: string, seps: set<char>): (r: seq<string>)
    ensures |r| >= 1
    ensures forall k :: 0 <= k < |r| ==> NoneIn(r[k], seps)
  {
    if s == [] then [[]]
    else
      var rest := Split(s[1..], seps);
      if s[0] in seps then [[]] + rest
      else [[s[0]] + rest[0]] + rest[1..]
  }

  /** `parts.join(sep)`. */
  function Join(parts: seq<string>, sep: string): (r: string)
  {
    if |parts| == 0 then []
    else if |parts| == 1 then parts[0]
    else parts[0] + sep + Join(parts[1..], sep)
  }

  /** A join with a non-empty separator is empty only for `[]` and `[""]`. */
  lemma {:induction false} JoinEmpty(parts: seq<string>, sep: string)
    requires sep != []
    ensures Join(parts, sep) == [] <==> |parts| == 0 || parts == [[]]
  {
    if |parts| >= 2 {
      assert |Join(parts, sep)| >= |sep|;
    }
  }

  lemma {:induction false} SplitNoSeparator(s: string, seps: set<char>)
    requires NoneIn(s, seps)
    ensures Split(s, seps) == [s]
  {
    if s != [] {
      SplitNoSeparator(s[1..], seps);
      assert [s[0]] + s[1..] == s;
    }
  }

  lemma {:induction false} SplitAfterSeparator(a: string, c: char, b: string, seps: set<char>)
    requires NoneIn(a, seps) && c in seps
    ensures Split(a + [c] + b, seps) == [a] + Split(b, seps)
  {
    var s := a + [c] + b;
    if a == [] {
      assert s[0] == c && s[1..] == b;
    } else {
      assert s[0] == a[0] && s[1..] == a[1..] + [c] + b;
      SplitAfterSeparator(a[1..], c, b, seps);
      assert [a[0]] + a[1..] == a;
    }
  }

  /** Splitting a join at its separator gives the parts back, when no part holds a separator. */
  lemma {:induction false} SplitJoin(parts: seq<string>, c: char, seps: set<char>)
    requires c in seps && |parts| >= 1
    requires forall k :: 0 <= k < |parts| ==> NoneIn(parts[k], seps)
    ensures Split(Join(parts, [c]), seps) == parts
  {
    if |parts| == 1 {
      SplitNoSeparator(parts[0], seps);
    } else {
      SplitJoin(parts[1..], c, seps);
      SplitAfterSeparator(parts[0], c, Join(parts[1..], [c]), seps);
      assert [parts[0]] + parts[1..] == parts;
    }
  }

  /** The first piece is the longest separator-free prefix: it is followed by a separator or ends the string. */
  lemma {:induction false} SplitFirst(s: string, seps: set<char>)
    ensures StartsWith(s, Split(s, seps)[0])
    ensures |Split(s, seps)[0]| < |s| ==> s[|Split(s, seps)[0]|] in seps
  {
    if s != [] && s[0] !in seps {
      SplitFirst(s[1..], seps);
      var f := Split(s[1..], seps)[0];
      assert Split(s, seps)[0] == [s[0]] + f;
      assert s[..|f| + 1] == [s[0]] + s[1..][..|f|];
    }
  }

  /** A string made only of separators splits into empty pieces only. */
  lemma {:induction false} SplitAllSeparators(s: string, seps: set<char>)
    requires forall k :: 0 <= k < |s| ==> s[k] in seps
    ensures forall k :: 0 <= k < |Split(s, seps)| ==> Split(s, seps)[k] == []
  {
    if s != [] {
      SplitAllSeparators(s[1..], seps);
    }
  }

  /** Every character of a piece is a character of the string. */
  lemma {:induction false} SplitPieceChars(s: string, seps: set<char>)
    ensures forall k, j :: 0 <= k < |Split(s, seps)| && 0 <= j < |Split(s, seps)[k]| ==> Split(s, seps)[k][j] in s
  {
    if s != [] {
      SplitPieceChars(s[1..], seps);
      var rest := Split(s[1..], seps);
      var r := Split(s, seps);
      forall k, j | 0 <= k < |r| && 0 <= j < |r[k]| ensures r[k][j] in s {
        if s[0] in seps {
          assert r[k] == rest[k - 1];
          assert rest[k - 1][j] in s[1..];
        } else if k == 0 {
          if j > 0 {
            assert r[0][j] == rest[0][j - 1];
            assert rest[0][j - 1] in s[1..];
          }
        } else {
          assert r[k] == rest[k];
          assert rest[k][j] in s[1..];
        }
      }
    }
  }

  /** Every character that is not a separator lands in some piece. */
  lemma {:induction false} SplitCovers(s: string, seps: set<char>, i: nat)
    requires i < |s| && s[i] !in seps
    ensures exists k, j :: 0 <= k < |Split(s, seps)| && 0 <= j < |Split(s, seps)[k]| && Split(s, seps)[k][j] == s[i]
  {
    var rest := Split(s[1..], seps);
    var r := Split(s, seps);
    if i == 0 {
      assert r[0][0] == s[0];
    } else {
      SplitCovers(s[1..], seps, i - 1);
      var k, j :| 0 <= k < |rest| && 0 <= j < |rest[k]| && rest[k][j] == s[1..][i - 1];
      if s[0] in seps {
        assert r[k + 1][j] == s[i];
      } else if k == 0 {
        assert r[0][j + 1] == s[i];
      } else {
        assert r[k][j] == s[i];
      }
    }
  }

  /** `s.split(/\s+/)`: the pieces between maximal whitespace runs. */
  function SplitRuns(s: string): (r: seq<string>)
    ensures |r| >= 1
    ensures forall k :: 0 <= k < |r| ==> NoSpace(r[k])
  {
    if s == [] then [[]]
    else
      var rest := SplitRuns(s[1..]);
      if IsSpace(s[0]) && |s| > 1 && IsSpace(s[1]) then rest
      else if IsSpace(s[0]) then [[]] + rest
      else [[s[0]] + rest[0]] + rest[1..]
  }

  /** Dropping empty pieces from empty pieces leaves nothing. */
  lemma {:induction false} NonEmptyAllEmpty(parts: seq<string>)
    requires forall k :: 0 <= k < |parts| ==> parts[k] == []
    ensures NonEmpty(parts) == []
  {
    if parts != [] {
      NonEmptyAllEmpty(parts[1..]);
    }
  }

  /** `.filter(Boolean)` on an array of strings: drops the empty ones. */
  function NonEmpty(parts: seq<string>): (r: seq<string>)
    ensures |r| <= |parts|
    ensures forall k :: 0 <= k < |r| ==> r[k] != []
    ensures forall k :: 0 <= k < |r| ==> r[k] in parts
    ensures forall p :: p in parts && p != [] ==> p in r
  {
    if parts == [] then []
    else if parts[0] == [] then NonEmpty(parts[1..])
    else [parts[0]] + NonEmpty(parts[1..])
  }

  lemma {:induction false} NonEmptyAppend(a: seq<string>, b: seq<string>)
    ensures NonEmpty(a + b) == NonEmpty(a) + NonEmpty(b)
  {
    if a != [] {
      assert (a + b)[0] == a[0] && (a + b)[1..] == a[1..] + b;
      NonEmptyAppend(a[1..], b);
      if a[0] == [] {
        assert NonEmpty(a + b) == NonEmpty(a[1..] + b);
      } else {
        assert NonEmpty(a + b) == [a[0]] + NonEmpty(a[1..] + b);
      }
    } else {
      assert a + b == b;
    }
  }

  /** `text.split(/\s+/).filter(Boolean)`: the whitespace-separated words. */
  function Words(s: string): (r: seq<string>)
    ensures forall k :: 0 <= k < |r| ==> r[k] != [] && NoSpace(r[k])
  {
    NonEmpty(SplitRuns(s))
  }

  lemma {:induction false} TrimStartAllSpace(s: string)
    requires AllSpace(s)
    ensures TrimStart(s) == []
  {
    if s != [] {
      TrimStartAllSpace(s[1..]);
    }
  }

  /** Dropping the first character of a concatenation drops it from the left part. */
  lemma AppendTail(a: string, b: string)
    requires a != []
    ensures (a + b)[0] == a[0] && (a + b)[1..] == a[1..] + b
  {
  }

  lemma AllSpaceTail(s: string)
    requires s != [] && AllSpace(s)
    ensures AllSpace(s[1..])
  {
    forall k | 0 <= k < |s[1..]| ensures IsSpace(s[1..][k]) {
      assert s[1..][k] == s[k + 1];
    }
  }

  /** Dropping the first piece of a list extended at the end drops it from the list. */
  lemma SnocTail(r: seq<string>, e: string)
    requires r != []
    ensures (r + [e])[0] == r[0] && (r + [e])[1..] == r[1..] + [e]
  {
  }

  /** Leading whitespace is dropped whatever follows it. */
  lemma {:induction false} TrimStartSpacePrefix(ws: string, t: string)
    requires AllSpace(ws)
    ensures TrimStart(ws + t) == TrimStart(t)
  {
    if ws != [] {
      AppendTail(ws, t);
      AllSpaceTail(ws);
      assert IsSpace(ws[0]);
      TrimStartSpacePrefix(ws[1..], t);
    } else {
      assert ws + t == t;
    }
  }

  /** `split(/\s+/)` of a blank, non-empty string is two empty pieces. */
  lemma {:induction false} SplitRunsAllSpace(ws: string)
    requires ws != [] && AllSpace(ws)
    ensures SplitRuns(ws) == [[], []]
  {
    if |ws| > 1 {
      SplitRunsAllSpace(ws[1..]);
    }
  }

  /** Trailing whitespace adds exactly one empty piece to `split(/\s+/)`. */
  lemma {:induction false} SplitRunsTrailing(s: string, ws: string)
    requires ws != [] && AllSpace(ws)
    requires s == [] || !IsSpace(s[|s| - 1])
    ensures SplitRuns(s + ws) == SplitRuns(s) + [[]]
  {
    var x := s + ws;
    if s == [] {
      assert x == ws;
      SplitRunsAllSpace(ws);
    } else {
      var rest := SplitRuns(s[1..]);
      AppendTail(s, ws);
      SplitRunsTrailing(s[1..], ws);
      assert SplitRuns(x[1..]) == rest + [[]];
      if IsSpace(s[0]) {
        assert |s| > 1 && x[1] == s[1];
      } else {
        SnocTail(rest, []);
      }
    }
  }

  /** `split(/\s+/)` of a string that does not start with whitespace begins with a non-empty piece unless blank. */
  lemma {:induction false} SplitRunsOfTrimmed(t: string)
    requires Trimmed(t)
    ensures t != [] ==> forall k :: 0 <= k < |SplitRuns(t)| ==> SplitRuns(t)[k] != []
  {
    if t != [] {
      SplitRunsOfTrimmedFrom(t);
    }
  }

  lemma {:induction false} SplitRunsOfTrimmedFrom(t: string)
    requires t != [] && !IsSpace(t[|t| - 1])
    ensures forall k :: 0 <= k < |SplitRuns(t)| ==> (SplitRuns(t)[k] != [] || (k == 0 && IsSpace(t[0])))
  {
    var u := t[1..];
    if u != [] {
      assert u[|u| - 1] == t[|t| - 1];
      SplitRunsOfTrimmedFrom(u);
    }
  }

  lemma {:induction false} NonEmptyAllNonEmpty(parts: seq<string>)
    requires forall k :: 0 <= k < |parts| ==> parts[k] != []
    ensures NonEmpty(parts) == parts
  {
    if parts != [] {
      NonEmptyAllNonEmpty(parts[1..]);
    }
  }

  /**
   * The two word counters of the source agree: `trim().split(/\s+/).length`
   * (0 for a blank string) equals `split(/\s+/).filter(Boolean).length`.
   */
  lemma {:induction false} WordsOfTrim(s: string)
    ensures Words(s) == (if Trim(s) == [] then [] else SplitRuns(Trim(s)))
  {
    var r := Trim(s);
    LeadingSpaceWords(s);
    TrailingSpaceWords(TrimStart(s));
    assert r == TrimEnd(TrimStart(s));
    SplitRunsOfTrimmed(r);
    if r != [] {
      NonEmptyAllNonEmpty(SplitRuns(r));
    } else {
      assert SplitRuns(r) == [[]];
    }
  }

  /** Trailing whitespace only adds an empty piece, which `.filter(Boolean)` drops. */
  lemma {:induction false} TrailingSpaceWords(t: string)
    ensures Words(t) == Words(TrimEnd(t))
  {
    var r := TrimEnd(t);
    if |r| < |t| {
      var ws := t[|r|..];
      assert t == r + ws;
      assert AllSpace(ws) by {
        TrimEndDropsSpace(t);
        forall k | 0 <= k < |ws| ensures IsSpace(ws[k]) {
          assert ws[k] == t[|r| + k];
        }
      }
      SplitRunsTrailing(r, ws);
      NonEmptyAppend(SplitRuns(r), [[]]);
    }
  }

  /** Leading whitespace only adds an empty piece, which `.filter(Boolean)` drops. */
  lemma {:induction false} LeadingSpaceWords(s: string)
    ensures Words(s) == Words(TrimStart(s))
  {
    if s != [] && IsSpace(s[0]) {
      LeadingSpaceWords(s[1..]);
      var rest := SplitRuns(s[1..]);
      if |s| > 1 && IsSpace(s[1]) {
        assert SplitRuns(s) == rest;
      } else {
        assert SplitRuns(s) == [[]] + rest;
        NonEmptyAppend([[]], rest);
        TrimStartOfTrimmed(s[1..]);
      }
    }
  }

  /** `s.replace(/\r?\n|\r/g, "\n")`: every line break becomes a bare newline. */
  function NormalizeLineBreaks(s: string): (r: string)
    decreases |s|
  {
    if s == [] then []
    else if s[0] == '\r' && |s| > 1 && s[1] == '\n' then ['\n'] + NormalizeLineBreaks(s[2..])
    else if s[0] == '\r' || s[0] == '\n' then ['\n'] + NormalizeLineBreaks(s[1..])
    else [s[0]] + NormalizeLineBreaks(s[1..])
  }

  /** On text without carriage returns the line-break normalisation changes nothing. */
  lemma {:induction false} NormalizeLineBreaksNoReturn(s: string)
    requires forall k :: 0 <= k < |s| ==> s[k] != '\r'
    ensures NormalizeLineBreaks(s) == s
  {
    if s != [] {
      NormalizeLineBreaksNoReturn(s[1..]);
    }
  }

  function DigitChar(d: nat): (c: char)
    requires d < 10
    ensures IsDigit(c)
  {
    ['0', '1', '2', '3', '4', '5', '6', '7', '8', '9'][d]
  }

  function DigitValue(c: char): (d: nat)
    requires IsDigit(c)
    ensures d < 10
  {
    c as int - '0' as int
  }

  /** `String(n)` for a non-negative integer: canonical decimal digits. */
  function NatToString(n: nat): (r: string)
    ensures r != [] && forall k :: 0 <= k < |r| ==> IsDigit(r[k])
    ensures |r| > 1 ==> r[0] != '0'
  {
    if n < 10 then [DigitChar(n)] else NatToString(n / 10) + [DigitChar(n % 10)]
  }

  /** The number a string of decimal digits denotes. */
  function DecimalValue(s: string): nat
    requires forall k :: 0 <= k < |s| ==> IsDigit(s[k])
  {
    if s == [] then 0 else DecimalValue(s[..|s| - 1]) * 10 + DigitValue(s[|s| - 1])
  }

  /** Decimal rendering round-trips, so distinct numbers render differently. */
  lemma {:induction false} NatToStringRoundTrip(n: nat)
    ensures DecimalValue(NatToString(n)) == n
  {
    var s := NatToString(n);
    if n >= 10 {
      NatToStringRoundTrip(n / 10);
      assert s[..|s| - 1] == NatToString(n / 10);
    }
    assert DigitValue(DigitChar(n % 10)) == n % 10;
  }
}
