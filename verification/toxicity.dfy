/** The content filter's analysis of a classifier result: the six toxicity
    scores read from the labelled results, the categories whose score exceeds
    their threshold, and the acceptability verdict. The classifier itself
    (toxic-bert) is an input: its `[{label, score}]` list. */
module Toxicity {
  import opened Wrappers
  import opened Strings

  /** One entry of the classifier output. */
  datatype LabelScore = LabelScore(name: string, score: real)

  /** The six categories, in the declaration order of the scores object. */
  const Categories: seq<string> := ["toxic", "severe_toxic", "obscene", "threat", "insult", "identity_hate"]

  predicate IsCategory(c: string) {
    c in Categories
  }

  /** The position of a category in `Categories`; 6 for any other label. */
  function CategoryIndex(c: string): (i: nat)
    ensures i <= |Categories|
    ensures i < |Categories| <==> IsCategory(c)
    ensures i < |Categories| ==> Categories[i] == c
  {
    if c == "toxic" then 0
    else if c == "severe_toxic" then 1
    else if c == "obscene" then 2
    else if c == "threat" then 3
    else if c == "insult" then 4
    else if c == "identity_hate" then 5
    else 6
  }

  /** Each category sits at its own index. */
  lemma IndexOfCategory(i: nat)
    requires i < |Categories|
    ensures CategoryIndex(Categories[i]) == i
  {
    if i == 0 {
    } else if i == 1 {
    } else if i == 2 {
    } else if i == 3 {
    } else if i == 4 {
    } else {
    }
  }

  /** The flagging threshold of a category: 0.5 for the common categories,
      0.3 for the severe ones; other labels have none (`undefined`). */
  function Threshold(c: string): (t: Option<real>)
    ensures t.Some? <==> IsCategory(c)
  {
    if c == "toxic" || c == "obscene" || c == "insult" then Some(0.5)
    else if c == "severe_toxic" || c == "threat" || c == "identity_hate" then Some(0.3)
    else None
  }

  /** The scores object before any result is read: every category at 0. */
  const InitialScores: map<string, real> := map c | c in Categories :: 0.0

  /** The scores object: every category starts at 0, and each result writes its
      lower-cased label, a later result overwriting an earlier one. */
  function ReadScores(results: seq<LabelScore>): (scores: map<string, real>)
    ensures forall c | IsCategory(c) :: c in scores
    decreases |results|
  {
    if |results| == 0 then
      InitialScores
    else
      var last := results[|results| - 1];
      ReadScores(results[..|results| - 1])[AsciiLowerString(last.name) := last.score]
  }

  /** The score of the last result whose lower-cased label is `c`. */
  function LastScore(results: seq<LabelScore>, c: string): (r: Option<real>)
    ensures r.Some? <==> exists i | 0 <= i < |results| :: AsciiLowerString(results[i].name) == c
    ensures r.Some? ==> exists i | 0 <= i < |results| ::
      && AsciiLowerString(results[i].name) == c
      && r.value == results[i].score
      && forall j | i < j < |results| :: AsciiLowerString(results[j].name) != c
    decreases |results|
  {
    if |results| == 0 then None
    else
      var n := |results| - 1;
      if AsciiLowerString(results[n].name) == c then Some(results[n].score)
      else
        var r := LastScore(results[..n], c);
        assert forall i | 0 <= i < n :: results[..n][i] == results[i];
        r
  }

  /** The scores object holds, for every key, the last score reported under that
      label, or 0 for a category the classifier did not report; its keys are the
      categories and the reported labels. */
  lemma {:induction false} ReadScoresIsLastScore(results: seq<LabelScore>)
    ensures forall c :: c in ReadScores(results) <==> IsCategory(c) || LastScore(results, c).Some?
    ensures forall c | c in ReadScores(results) :: ReadScores(results)[c] == LastScore(results, c).GetOr(0.0)
    decreases |results|
  {
    if |results| > 0 {
      ReadScoresIsLastScore(results[..|results| - 1]);
    }
  }

  /** Whether a category's score is strictly above its threshold. */
  predicate Exceeds(scores: map<string, real>, c: string)
    requires IsCategory(c) && c in scores
  {
    scores[c] > Threshold(c).value
  }

  /** Category names listed in the order of `Categories`. */
  predicate InCategoryOrder(flags: seq<string>) {
    forall i, j | 0 <= i < j < |flags| :: CategoryIndex(flags[i]) < CategoryIndex(flags[j])
  }

  /** The category at `from`, put in front of names from later positions,
      keeps the order. */
  lemma ConsInOrder(from: nat, rest: seq<string>)
    requires from < |Categories|
    requires forall f | f in rest :: from < CategoryIndex(f)
    requires InCategoryOrder(rest)
    ensures InCategoryOrder([Categories[from]] + rest)
  {
    var flags := [Categories[from]] + rest;
    IndexOfCategory(from);
    forall i, j | 0 <= i < j < |flags|
      ensures CategoryIndex(flags[i]) < CategoryIndex(flags[j])
    {
      assert flags[j] == rest[j - 1] && rest[j - 1] in rest;
      if i > 0 {
        assert flags[i] == rest[i - 1];
      }
    }
  }

  /** The flagged categories among `Categories[from..]`, in category order. */
  function FlagsFrom(scores: map<string, real>, from: nat): (flags: seq<string>)
    requires from <= |Categories|
    requires forall c | IsCategory(c) :: c in scores
    ensures forall f | f in flags :: IsCategory(f) && from <= CategoryIndex(f) && Exceeds(scores, f)
    ensures forall i | from <= i < |Categories| :: Exceeds(scores, Categories[i]) ==> Categories[i] in flags
    ensures InCategoryOrder(flags)
    decreases |Categories| - from
  {
    if from == |Categories| then []
    else
      var c := Categories[from];
      var rest := FlagsFrom(scores, from + 1);
      if Exceeds(scores, c) then
        ConsInOrder(from, rest);
        [c] + rest
      else rest
  }

  /** `Object.entries(scores).filter(score > threshold).map(category)`. Labels
      outside the six categories have an undefined threshold, and a comparison
      with `undefined` is false, so only categories can be flagged. */
  function Flags(scores: map<string, real>): (flags: seq<string>)
    requires forall c | IsCategory(c) :: c in scores
    ensures forall c :: c in flags <==> IsCategory(c) && Exceeds(scores, c)
    ensures InCategoryOrder(flags)
  {
    FlagsFrom(scores, 0)
  }

  datatype Analysis = Analysis(scores: map<string, real>, isAcceptable: bool, flags: seq<string>)

  /** analyzeContent on a classifier result. */
  function AnalyzeContent(results: seq<LabelScore>): (a: Analysis)
    ensures a.scores == ReadScores(results)
    ensures forall c :: c in a.flags <==> IsCategory(c) && LastScore(results, c).GetOr(0.0) > Threshold(c).value
    ensures a.isAcceptable <==> forall c | IsCategory(c) :: LastScore(results, c).GetOr(0.0) <= Threshold(c).value
    ensures InCategoryOrder(a.flags)
  {
    var scores := ReadScores(results);
    ReadScoresIsLastScore(results);
    var flags := Flags(scores);
    Analysis(scores, |flags| == 0, flags)
  }

  /** Raising scores can only add flags, so acceptable content with lower scores
      everywhere stays acceptable. */
  lemma FlagsMonotone(lower: map<string, real>, higher: map<string, real>)
    requires forall c | IsCategory(c) :: c in lower && c in higher && lower[c] <= higher[c]
    ensures forall f | f in Flags(lower) :: f in Flags(higher)
    ensures |Flags(higher)| == 0 ==> |Flags(lower)| == 0
  {
    if |Flags(lower)| > 0 {
      assert Flags(lower)[0] in Flags(higher);
    }
  }

  /** A category the classifier did not report keeps its initial 0 and is not flagged. */
  lemma MissingCategoryNeverFlagged(results: seq<LabelScore>, c: string)
    requires IsCategory(c)
    requires forall i | 0 <= i < |results| :: AsciiLowerString(results[i].name) != c
    ensures AnalyzeContent(results).scores[c] == 0.0
    ensures c !in AnalyzeContent(results).flags
  {
    ReadScoresIsLastScore(results);
  }

  /** A label outside the six categories is kept in the scores but never flagged. */
  lemma ExtraLabelNeverFlagged(results: seq<LabelScore>, i: nat)
    requires i < |results| && !IsCategory(AsciiLowerString(results[i].name))
    ensures AsciiLowerString(results[i].name) in AnalyzeContent(results).scores
    ensures AsciiLowerString(results[i].name) !in AnalyzeContent(results).flags
  {
    ReadScoresIsLastScore(results);
  }

  /** The scores read from a TOXIC result of 0.5 and a Threat result of 0.3. */
  lemma ScoresAtThresholds()
    ensures ReadScores([LabelScore("TOXIC", 0.5), LabelScore("Threat", 0.3)])
         == InitialScores["toxic" := 0.5]["threat" := 0.3]
  {
    var a := [LabelScore("TOXIC", 0.5), LabelScore("Threat", 0.3)];
    assert AsciiLowerString("TOXIC") == "toxic";
    assert AsciiLowerString("Threat") == "threat";
    assert a[..1] == [LabelScore("TOXIC", 0.5)];
    assert a[..1][..0] == [];
  }

  /** Scores equal to their thresholds raise no flag. */
  lemma NoFlagsAtThresholds()
    ensures Flags(InitialScores["toxic" := 0.5]["threat" := 0.3]) == []
  {
    var scores := InitialScores["toxic" := 0.5]["threat" := 0.3];
    assert FlagsFrom(scores, 6) == [];
    assert FlagsFrom(scores, 5) == [];
    assert FlagsFrom(scores, 4) == [];
    assert FlagsFrom(scores, 3) == [];
    assert FlagsFrom(scores, 2) == [];
    assert FlagsFrom(scores, 1) == [];
    assert FlagsFrom(scores, 0) == [];
  }

  /** A score equal to its threshold passes; labels are matched case-insensitively. */
  lemma ThresholdIsStrict()
    ensures AnalyzeContent([LabelScore("TOXIC", 0.5), LabelScore("Threat", 0.3)]).isAcceptable
  {
    ScoresAtThresholds();
    NoFlagsAtThresholds();
  }

  /** The scores read from a Threat result of 0.31. */
  lemma ScoresJustAboveThreat()
    ensures ReadScores([LabelScore("Threat", 0.31)]) == InitialScores["threat" := 0.31]
  {
    var b := [LabelScore("Threat", 0.31)];
    assert AsciiLowerString("Threat") == "threat";
    assert b[..0] == [];
  }

  lemma FlagsJustAboveThreat()
    ensures Flags(InitialScores["threat" := 0.31]) == ["threat"]
  {
    var scores := InitialScores["threat" := 0.31];
    assert FlagsFrom(scores, 6) == [];
    assert FlagsFrom(scores, 5) == [];
    assert FlagsFrom(scores, 4) == [];
    assert FlagsFrom(scores, 3) == ["threat"];
    assert FlagsFrom(scores, 2) == ["threat"];
    assert FlagsFrom(scores, 1) == ["threat"];
    assert FlagsFrom(scores, 0) == ["threat"];
  }

  /** A score just above a severe category's threshold flags that category alone. */
  lemma SevereThresholdFlags()
    ensures AnalyzeContent([LabelScore("Threat", 0.31)]).flags == ["threat"]
  {
    ScoresJustAboveThreat();
    FlagsJustAboveThreat();
  }
}
