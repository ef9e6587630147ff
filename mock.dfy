/**
 * The prototype summariser shared by the two early components: it keeps the
 * text before the first `.`, cut to 1000 characters, with `...` appended only
 * when something was cut; and the word and sentence counters shown under the
 * result.
 */
module Mock {
  import opened Strings
  import opened Ordering

  const Cap: nat := 1000
  const Ellipsis: string := "..."

  /** `paragraph.split(".")[0]`: the text before the first `.`. */
  function FirstSegment(p: string): (seg: string)
    ensures StartsWith(p, seg)
    ensures '.' !in seg
    ensures |seg| < |p| ==> p[|seg|] == '.'
  {
    SplitFirst(p, {'.'});
    Split(p, {'.'})[0]
  }

  /** `(sentences[0] || "").slice(0, 1000) + (sentences[0].length > 1000 ? "..." : "")`. */
  function MockSummary(p: string): string {
    var seg := FirstSegment(p);
    seg[..Min(|seg|, Cap)] + (if |seg| > Cap then Ellipsis else [])
  }

  /**
   * The mock summary is at most 1003 characters long; it is a prefix of the
   * input exactly when the first segment fits, and otherwise it is the first
   * 1000 characters followed by `...`; it contains a `.` only in that case; a
   * short text with no `.` is its own summary.
   */
  lemma MockSummaryFacts(p: string)
    ensures |MockSummary(p)| <= Cap + |Ellipsis|
    ensures StartsWith(p, MockSummary(p)) <==> |FirstSegment(p)| <= Cap
    ensures |FirstSegment(p)| > Cap ==> MockSummary(p) == p[..Cap] + Ellipsis
    ensures '.' in MockSummary(p) <==> |FirstSegment(p)| > Cap
    ensures EndsWith(MockSummary(p), Ellipsis) <==> |FirstSegment(p)| > Cap
    ensures '.' !in p && |p| <= Cap ==> MockSummary(p) == p
    ensures |FirstSegment(p)| <= Cap ==> MockSummary(p) == FirstSegment(p)
  {
    var seg := FirstSegment(p);
    var r := MockSummary(p);
    if |seg| > Cap {
      assert seg[..Cap] == p[..Cap];
      assert r[Cap] == '.';
      assert p[Cap] == seg[Cap];
      assert p[Cap] != '.';
      assert !StartsWith(p, r);
    } else {
      assert r == seg;
      assert !EndsWith(r, Ellipsis) by {
        if |r| >= 3 {
          assert r[|r| - 1] in r;
        }
      }
    }
  }

  /** `paragraph.trim() ? paragraph.trim().split(/\s+/).length : 0`. */
  function WordsCount(p: string): nat {
    if Trim(p) == [] then 0 else |SplitRuns(Trim(p))|
  }

  /** The count is the number of maximal non-blank runs, and it is 0 exactly for blank text. */
  lemma WordsCountFacts(p: string)
    ensures WordsCount(p) == |Words(p)|
    ensures WordsCount(p) == 0 <==> AllSpace(p)
  {
    WordsOfTrim(p);
    TrimEmpty(p);
    if Trim(p) != [] {
      assert |SplitRuns(Trim(p))| >= 1;
    }
  }

  /** `(s) => s.trim()` as a filter test. */
  predicate HasText(s: string) {
    Trim(s) != []
  }

  /** `paragraph.split(".").filter((s) => s.trim()).length`. */
  function SentencesCount(p: string): nat {
    |Filter(Split(p, {'.'}), HasText)|
  }

  /** Text made only of `.` and whitespace has no piece with text. */
  lemma {:induction false} BlankPieces(p: string)
    requires forall k :: 0 <= k < |p| ==> p[k] == '.' || IsSpace(p[k])
    ensures forall k :: 0 <= k < |Split(p, {'.'})| ==> !HasText(Split(p, {'.'})[k])
  {
    var parts := Split(p, {'.'});
    SplitPieceChars(p, {'.'});
    forall k | 0 <= k < |parts| ensures !HasText(parts[k]) {
      var piece := parts[k];
      assert AllSpace(piece) by {
        forall j | 0 <= j < |piece| ensures IsSpace(piece[j]) {
          assert piece[j] in p && piece[j] !in {'.'};
        }
      }
      TrimEmpty(piece);
    }
  }

  /** A character that is neither `.` nor whitespace lies in a piece with text. */
  lemma {:induction false} TextPiece(p: string, i: nat)
    requires i < |p| && p[i] != '.' && !IsSpace(p[i])
    ensures exists k :: 0 <= k < |Split(p, {'.'})| && HasText(Split(p, {'.'})[k])
  {
    var parts := Split(p, {'.'});
    SplitCovers(p, {'.'}, i);
    var k, j :| 0 <= k < |parts| && 0 <= j < |parts[k]| && parts[k][j] == p[i];
    TrimEmpty(parts[k]);
  }

  /** No sentence is counted exactly when every character is a `.` or whitespace. */
  lemma SentencesCountZero(p: string)
    ensures SentencesCount(p) == 0 <==> forall k :: 0 <= k < |p| ==> p[k] == '.' || IsSpace(p[k])
  {
    var parts := Split(p, {'.'});
    if forall k :: 0 <= k < |p| ==> p[k] == '.' || IsSpace(p[k]) {
      BlankPieces(p);
      FilterNone(parts, HasText);
    } else {
      var i :| 0 <= i < |p| && p[i] != '.' && !IsSpace(p[i]);
      TextPiece(p, i);
      var k :| 0 <= k < |parts| && HasText(parts[k]);
      FilterMember(parts, HasText);
      assert parts[k] in Filter(parts, HasText);
    }
  }
}
