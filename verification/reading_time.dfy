/** ReadingTimeEstimator: words are counted as `text.trim().split(/\s+/).length`,
    scaled by 1.1 when quotation marks are frequent (dialogue) and by 0.9
    otherwise, and divided by 250 words per minute, rounded down. The constants
    are modelled as exact rationals. */
module ReadingTime {
  import opened Wrappers

  /** The characters JavaScript's `\s` and `String.prototype.trim` treat as
      white space: tab, line feed, vertical tab, form feed, carriage return,
      space, no-break space, the Ogham space mark, the spaces U+2000..U+200A,
      the line and paragraph separators, the narrow no-break space, the medium
      mathematical space, the ideographic space and the byte-order mark. */
  predicate IsSpace(c: char) {
    var n := c as int;
    || 0x09 <= n <= 0x0D || n == 0x20 || n == 0xA0 || n == 0x1680
    || 0x2000 <= n <= 0x200A || n == 0x2028 || n == 0x2029 || n == 0x202F
    || n == 0x205F || n == 0x3000 || n == 0xFEFF
  }

  predicate AllSpace(s: string) {
    forall i | 0 <= i < |s| :: IsSpace(s[i])
  }

  predicate NoSpace(s: string) {
    forall i | 0 <= i < |s| :: !IsSpace(s[i])
  }

  // ---------------------------------------------------------------------------
  // Reference count: maximal runs of white space or of other characters
  // ---------------------------------------------------------------------------

  /** The number of maximal runs of characters whose `IsSpace` is `space`,
      counted by their last characters. */
  function Runs(s: string, space: bool): nat
    decreases |s|
  {
    if |s| == 0 then 0
    else
      var endsHere := IsSpace(s[0]) == space && (|s| == 1 || IsSpace(s[1]) != space);
      (if endsHere then 1 else 0) + Runs(s[1..], space)
  }

  /** The words of a text: its maximal runs of non-white-space characters. */
  function Words(s: string): nat {
    Runs(s, false)
  }

  /** Runs of a concatenation: a run that straddles the seam is counted once. */
  lemma {:induction false} RunsAppend(a: string, b: string, space: bool)
    ensures Runs(a + b, space) ==
      Runs(a, space) + Runs(b, space)
      - (if |a| > 0 && |b| > 0 && IsSpace(a[|a| - 1]) == space && IsSpace(b[0]) == space then 1 else 0)
    decreases |a|
  {
    if |a| > 0 {
      var ab := a + b;
      assert ab[0] == a[0];
      assert ab[1..] == a[1..] + b;
      if |a| > 1 {
        assert ab[1] == a[1];
        assert a[1..][|a| - 2] == a[|a| - 1];
      } else {
        assert a[1..] + b == b;
        if |b| > 0 {
          assert ab[1] == b[0];
        }
      }
      RunsAppend(a[1..], b, space);
      var head := if IsSpace(a[0]) == space && (|ab| == 1 || IsSpace(ab[1]) != space) then 1 else 0;
      assert Runs(ab, space) == head + Runs(a[1..] + b, space);
      var headA := if IsSpace(a[0]) == space && (|a| == 1 || IsSpace(a[1]) != space) then 1 else 0;
      assert Runs(a, space) == headA + Runs(a[1..], space);
    } else {
      assert a + b == b;
    }
  }

  lemma {:induction false} RunsOfUniform(s: string, space: bool)
    requires forall i | 0 <= i < |s| :: IsSpace(s[i]) == space
    ensures Runs(s, space) == (if |s| > 0 then 1 else 0)
    ensures Runs(s, !space) == 0
    decreases |s|
  {
    if |s| > 0 {
      RunsOfUniform(s[1..], space);
    }
  }

  /** Runs of the two kinds alternate, so their counts differ by what the text
      starts and ends with. */
  lemma {:induction false} RunsAlternate(s: string)
    requires |s| > 0
    ensures Runs(s, false) + (if IsSpace(s[|s| - 1]) then 1 else 0)
         == Runs(s, true) + (if IsSpace(s[0]) then 0 else 1)
    decreases |s|
  {
    if |s| > 1 {
      RunsAlternate(s[1..]);
    }
  }

  // ---------------------------------------------------------------------------
  // trim and split(/\s+/)
  // ---------------------------------------------------------------------------

  /** The number of white-space characters at the start. */
  function LeadingSpace(s: string): (n: nat)
    ensures n <= |s| && AllSpace(s[..n])
    ensures n < |s| ==> !IsSpace(s[n])
    decreases |s|
  {
    if |s| > 0 && IsSpace(s[0]) then
      var n := 1 + LeadingSpace(s[1..]);
      assert forall i | 1 <= i < n :: s[..n][i] == s[1..][..n - 1][i - 1];
      n
    else 0
  }

  /** The end of the text without its trailing white space. */
  function TrailingStart(s: string): (m: nat)
    ensures m <= |s| && AllSpace(s[m..])
    ensures m > 0 ==> !IsSpace(s[m - 1])
    decreases |s|
  {
    if |s| > 0 && IsSpace(s[|s| - 1]) then
      var m := TrailingStart(s[..|s| - 1]);
      assert forall i | m <= i < |s| - 1 :: s[i] == s[..|s| - 1][i];
      m
    else |s|
  }

  /** `String.prototype.trim`. */
  function Trim(s: string): (t: string)
    ensures t == "" <==> AllSpace(s)
    ensures t != "" ==> !IsSpace(t[0]) && !IsSpace(t[|t| - 1])
    ensures Runs(t, false) == Runs(s, false)
    ensures exists lo, hi | 0 <= lo <= hi <= |s| :: t == s[lo..hi] && AllSpace(s[..lo]) && AllSpace(s[hi..])
  {
    var lo, hi := LeadingSpace(s), TrailingStart(s);
    if lo == |s| then
      RunsOfUniform(s, true);
      assert s == s[..lo];
      assert "" == s[lo..lo] && AllSpace(s[lo..]);
      ""
    else
      assert lo < hi;
      StripSpaceEnds(s, lo, hi);
      assert !AllSpace(s) by { assert !IsSpace(s[lo]); }
      s[lo..hi]
  }

  /** Cutting white space off both ends keeps the words. */
  lemma StripSpaceEnds(s: string, lo: nat, hi: nat)
    requires lo < hi <= |s|
    requires AllSpace(s[..lo]) && AllSpace(s[hi..])
    ensures Runs(s[lo..hi], false) == Runs(s, false)
  {
    var t := s[lo..hi];
    assert s == s[..lo] + (t + s[hi..]);
    RunsOfUniform(s[..lo], true);
    RunsOfUniform(s[hi..], true);
    RunsAppend(t, s[hi..], false);
    RunsAppend(s[..lo], t + s[hi..], false);
  }

  /** The first white-space character at or after `from`. */
  function FirstSpace(s: string, from: nat): (r: Option<nat>)
    requires from <= |s|
    ensures r.Some? ==> from <= r.value < |s| && IsSpace(s[r.value])
    ensures forall i | from <= i < (if r.Some? then r.value else |s|) :: !IsSpace(s[i])
    decreases |s| - from
  {
    if from == |s| then None
    else if IsSpace(s[from]) then Some(from)
    else FirstSpace(s, from + 1)
  }

  /** The end of the white-space run that contains `from`. */
  function RunEnd(s: string, from: nat): (e: nat)
    requires from <= |s|
    ensures from <= e <= |s|
    ensures forall i | from <= i < e :: IsSpace(s[i])
    ensures e < |s| ==> !IsSpace(s[e])
    decreases |s| - from
  {
    if from < |s| && IsSpace(s[from]) then RunEnd(s, from + 1) else from
  }

  /** `s.split(/\s+/)`: the pieces between maximal white-space runs. */
  function SplitWs(s: string): (parts: seq<string>)
    ensures |parts| >= 1
    decreases |s|
  {
    match FirstSpace(s, 0)
    case None => [s]
    case Some(i) => [s[..i]] + SplitWs(s[RunEnd(s, i)..])
  }

  /** A split yields one piece more than there are white-space runs. */
  lemma {:induction false} SplitWsCount(s: string)
    ensures |SplitWs(s)| == 1 + Runs(s, true)
    decreases |s|
  {
    match FirstSpace(s, 0)
    case None =>
      RunsOfUniform(s, false);
    case Some(i) =>
      var j := RunEnd(s, i);
      var head, run, rest := s[..i], s[i..j], s[j..];
      SplitWsCount(rest);
      assert |SplitWs(s)| == 1 + |SplitWs(rest)|;
      assert s == head + (run + rest);
      SpaceRunsAfterWord(head, run, rest);
  }

  /** A word, then a white-space run, then text that does not start with white
      space: one white-space run more than the text has. */
  lemma SpaceRunsAfterWord(head: string, run: string, rest: string)
    requires NoSpace(head) && |run| > 0 && AllSpace(run)
    requires |rest| > 0 ==> !IsSpace(rest[0])
    ensures Runs(head + (run + rest), true) == 1 + Runs(rest, true)
  {
    RunsOfUniform(head, false);
    RunsOfUniform(run, true);
    RunsAppend(run, rest, true);
    RunsAppend(head, run + rest, true);
  }

  /** countWords. */
  function CountWords(text: string): (n: nat)
    ensures n >= 1
  {
    |SplitWs(Trim(text))|
  }

  /** The word count is the number of maximal non-white-space runs, and 1 for a
      blank text. */
  lemma CountWordsIsWords(text: string)
    ensures CountWords(text) == (if Words(text) == 0 then 1 else Words(text))
  {
    var t := Trim(text);
    SplitWsCount(t);
    if t == "" {
      assert Words(text) == 0;
    } else {
      RunsAlternate(t);
    }
  }

  // ---------------------------------------------------------------------------
  // The estimate
  // ---------------------------------------------------------------------------

  const WordsPerMinute: nat := 250
  const DialogueModifier: real := 1.1
  const DescriptionModifier: real := 0.9
  const DialogueShare: real := 0.05

  /** The number of `"` characters (`text.match(/"/g)`). */
  function QuoteCount(s: string): (n: nat)
    ensures n == multiset(s)['"']
    decreases |s|
  {
    if |s| == 0 then 0
    else
      assert s == [s[0]] + s[1..];
      (if s[0] == '"' then 1 else 0) + QuoteCount(s[1..])
  }

  /** The dialogue heuristic: more than one quotation mark per twenty words. */
  predicate IsDialogue(quotes: nat, wordCount: nat)
    requires wordCount >= 1
  {
    quotes as real / wordCount as real > DialogueShare
  }

  lemma DialogueIffQuotesOverTwentieth(quotes: nat, wordCount: nat)
    requires wordCount >= 1
    ensures IsDialogue(quotes, wordCount) <==> 20 * quotes > wordCount
  {
    var q, w := quotes as real, wordCount as real;
    DivideBelow(q, w, DialogueShare);
  }

  lemma DivideBelow(q: real, w: real, c: real)
    requires w > 0.0
    ensures q / w > c <==> q > c * w
  {
  }

  /** adjustForContentType. */
  function AdjustedWords(quotes: nat, wordCount: nat): (a: real)
    requires wordCount >= 1
    ensures IsDialogue(quotes, wordCount) ==> a * 10.0 == 11.0 * wordCount as real
    ensures !IsDialogue(quotes, wordCount) ==> a * 10.0 == 9.0 * wordCount as real
  {
    if IsDialogue(quotes, wordCount) then wordCount as real * DialogueModifier
    else wordCount as real * DescriptionModifier
  }

  /** Rounding down a quotient of naturals is integer division. */
  lemma FloorOfQuotient(a: nat, b: nat)
    requires b > 0
    ensures (a as real / b as real).Floor == a / b
  {
    var q, r := a / b, a % b;
    assert a == q * b + r;
    assert a as real / b as real == q as real + r as real / b as real by {
      assert a as real == q as real * b as real + r as real;
    }
    assert 0.0 <= r as real / b as real < 1.0;
  }

  /** The minutes for a word count and a number of quotation marks. */
  function MinutesFor(quotes: nat, wordCount: nat): (m: int)
    requires wordCount >= 1
    ensures m >= 0
    ensures 20 * quotes > wordCount ==> m == (11 * wordCount) / 2500
    ensures 20 * quotes <= wordCount ==> m == (9 * wordCount) / 2500
  {
    var adjusted := AdjustedWords(quotes, wordCount);
    DialogueIffQuotesOverTwentieth(quotes, wordCount);
    var factor: nat := if IsDialogue(quotes, wordCount) then 11 else 9;
    assert adjusted / WordsPerMinute as real == (factor * wordCount) as real / 2500.0;
    FloorOfQuotient(factor * wordCount, 2500);
    (adjusted / WordsPerMinute as real).Floor
  }

  /** ReadingTimeEstimator.estimate. */
  function Estimate(text: string): (minutes: int)
    ensures minutes >= 0
  {
    MinutesFor(QuoteCount(text), CountWords(text))
  }

  /** Up to 227 words always read in under a minute, whatever the dialogue. */
  lemma ShortTextsTakeNoMinutes(text: string)
    requires CountWords(text) <= 227
    ensures Estimate(text) == 0
  {
  }

  /** At 228 words the dialogue modifier makes the difference: twelve quotation
      marks give one minute, eleven give none. */
  lemma DialogueCrossesFirstMinute()
    ensures MinutesFor(12, 228) == 1
    ensures MinutesFor(11, 228) == 0
  {
  }

  /** More words never read faster under the same modifier. */
  lemma MinutesMonotone(q1: nat, w1: nat, q2: nat, w2: nat)
    requires 1 <= w1 <= w2
    requires (20 * q1 > w1) == (20 * q2 > w2)
    ensures MinutesFor(q1, w1) <= MinutesFor(q2, w2)
  {
  }
}
