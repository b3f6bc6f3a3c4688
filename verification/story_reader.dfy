/** The story reader's pure state: the font size changed by the A- and A+
    buttons, the enablement of the chapter navigation buttons, and the split of
    the chapter content into paragraphs. Scroll progress and dark mode are not
    modelled. */
module StoryReader {
  import opened Strings

  // ---------------------------------------------------------------------------
  // Font size
  // ---------------------------------------------------------------------------

  const InitialFontSize: int := 16
  const MinFontSize: int := 12
  const MaxFontSize: int := 24
  const FontStep: int := 2

  /** A size the reader can show: even and within [12, 24]. */
  predicate ValidFontSize(size: int) {
    MinFontSize <= size <= MaxFontSize && size % 2 == 0
  }

  /** A click on A- or A+. */
  datatype Press = PressSmaller | PressLarger

  /** The A- button: `Math.max(prev - 2, 12)`. */
  function Smaller(size: int): (r: int)
    ensures r >= MinFontSize
    ensures r <= size || r == MinFontSize
    ensures ValidFontSize(size) ==> ValidFontSize(r)
    ensures size == MinFontSize ==> r == size
    ensures size - FontStep >= MinFontSize ==> r == size - FontStep
  {
    if size - FontStep > MinFontSize then size - FontStep else MinFontSize
  }

  /** The A+ button: `Math.min(prev + 2, 24)`. */
  function Larger(size: int): (r: int)
    ensures r <= MaxFontSize
    ensures r >= size || r == MaxFontSize
    ensures ValidFontSize(size) ==> ValidFontSize(r)
    ensures size == MaxFontSize ==> r == size
    ensures size + FontStep <= MaxFontSize ==> r == size + FontStep
  {
    if size + FontStep < MaxFontSize then size + FontStep else MaxFontSize
  }

  function Apply(size: int, p: Press): int {
    match p
    case PressSmaller => Smaller(size)
    case PressLarger => Larger(size)
  }

  /** The font size after a sequence of presses, starting from 16. */
  function FontSizeAfter(presses: seq<Press>): int
    decreases |presses|
  {
    if |presses| == 0 then InitialFontSize
    else Apply(FontSizeAfter(presses[..|presses| - 1]), presses[|presses| - 1])
  }

  /** Whatever buttons are pressed, the size stays even and within [12, 24]. */
  lemma {:induction false} FontSizeStaysValid(presses: seq<Press>)
    ensures ValidFontSize(FontSizeAfter(presses))
    decreases |presses|
  {
    if |presses| > 0 {
      FontSizeStaysValid(presses[..|presses| - 1]);
    }
  }

  /** A+ then A- restores any size up to 22; A- then A+ restores any size from 14. */
  lemma RoundTrips(size: int)
    requires ValidFontSize(size)
    ensures size <= MaxFontSize - FontStep ==> Smaller(Larger(size)) == size
    ensures size >= MinFontSize + FontStep ==> Larger(Smaller(size)) == size
  {
  }

  /** Presses that reach a valid size from the initial 16. */
  function PressesTo(target: int): (presses: seq<Press>)
    requires ValidFontSize(target)
    ensures FontSizeAfter(presses) == target
    decreases if target >= InitialFontSize then target - InitialFontSize else InitialFontSize - target
  {
    if target == InitialFontSize then []
    else if target > InitialFontSize then
      var prefix := PressesTo(target - FontStep);
      assert (prefix + [PressLarger])[..|prefix|] == prefix;
      prefix + [PressLarger]
    else
      var prefix := PressesTo(target + FontStep);
      assert (prefix + [PressSmaller])[..|prefix|] == prefix;
      prefix + [PressSmaller]
  }

  /** The reachable sizes are exactly the valid ones. */
  lemma ReachableIffValid(size: int)
    ensures (exists presses :: FontSizeAfter(presses) == size) <==> ValidFontSize(size)
  {
    if ValidFontSize(size) {
      var presses := PressesTo(size);
      assert FontSizeAfter(presses) == size;
    }
    forall presses | FontSizeAfter(presses) == size
      ensures ValidFontSize(size)
    {
      FontSizeStaysValid(presses);
    }
  }

  // ---------------------------------------------------------------------------
  // Chapter navigation
  // ---------------------------------------------------------------------------

  /** The Previous button is disabled on chapter 1 only. */
  predicate PreviousDisabled(current: int) {
    current == 1
  }

  /** The Next button is disabled only when the chapter number equals the
      number of chapters the story has. */
  predicate NextDisabled(current: int, total: int) {
    current == total
  }

  /** Both buttons are disabled exactly on the only chapter of a one-chapter
      story; a chapter numbered past the total leaves Next enabled. */
  lemma NavigationCases(current: int, total: int)
    ensures PreviousDisabled(current) && NextDisabled(current, total) <==> current == 1 && total == 1
    ensures 1 < current < total ==> !PreviousDisabled(current) && !NextDisabled(current, total)
    ensures current > total ==> !NextDisabled(current, total)
  {
  }

  // ---------------------------------------------------------------------------
  // Paragraphs
  // ---------------------------------------------------------------------------

  const ParagraphBreak: string := "\n\n"

  /** `content.split('\n\n')`: one rendered paragraph per piece. */
  function Paragraphs(content: string): (ps: seq<string>)
    ensures |ps| >= 1
    ensures Join(ps, ParagraphBreak) == content
    ensures forall p | p in ps :: !Contains(p, ParagraphBreak)
  {
    JoinSplit(content, ParagraphBreak);
    SplitPiecesAvoidSeparator(content, ParagraphBreak);
    Split(content, ParagraphBreak)
  }

  /** Rendering paragraphs joined by blank lines gives back those paragraphs,
      provided none of them contains a blank line or ends in a line break that
      would run into the next one. */
  lemma ParagraphsOfJoin(ps: seq<string>)
    requires |ps| >= 1
    requires forall i | 0 <= i < |ps| - 1 :: CleanlySeparated(ps[i], ParagraphBreak)
    requires !Contains(ps[|ps| - 1], ParagraphBreak)
    ensures Paragraphs(Join(ps, ParagraphBreak)) == ps
  {
    SplitJoin(ps, ParagraphBreak);
  }
}
