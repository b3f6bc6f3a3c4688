/** The re-ranking pass `addDiversity` of the story recommender.

    It seeds the result with the first (top-scored) recommendation, then runs
    k - 1 rounds. Each round computes, for every recommendation not yet chosen,
    the minimum similarity to the chosen ones, and adds the first recommendation
    whose minimum is strictly larger than every earlier one and than 0. Despite
    the source's name `minDistance`, the quantity maximised is a similarity, so
    each round adds the candidate most like everything already chosen. */
module Diversity {
  import opened Wrappers
  import opened Profile
  import opened Scoring

  /** The three `invariant` failures of addDiversity, in the order they are checked. */
  datatype DiversityError = EmptyRecommendations | EmptyStories | NonPositiveK

  /** The story the id-keyed `Map` built from the story list holds for `id`:
      the last story with that id. */
  function FindStory(stories: seq<Story>, id: Id): (r: Option<Story>)
    ensures r.Some? ==> r.value in stories && r.value.id == id
    ensures r.None? <==> forall j | 0 <= j < |stories| :: stories[j].id != id
    ensures |stories| > 0 && stories[|stories| - 1].id == id ==> r == Some(stories[|stories| - 1])
    decreases |stories|
  {
    if |stories| == 0 then None
    else if stories[|stories| - 1].id == id then Some(stories[|stories| - 1])
    else
      var prefix := stories[..|stories| - 1];
      assert forall j | 0 <= j < |prefix| :: prefix[j] == stories[j];
      FindStory(prefix, id)
  }

  /** The embedding compared for `id` (`embedding ?? '[]'`): empty when the story has none. */
  function EmbeddingFor(stories: seq<Story>, id: Id): Vector {
    match FindStory(stories, id)
    case Some(s) => s.embedding.GetOr([])
    case None => []
  }

  /** Every recommendation names a story in the list (`storyMap.get(id)!`). */
  predicate StoriesCover(recs: seq<Scored>, stories: seq<Story>) {
    forall i | 0 <= i < |recs| :: exists j | 0 <= j < |stories| :: stories[j].id == recs[i].id
  }

  lemma StoriesNonEmpty(recs: seq<Scored>, stories: seq<Story>)
    requires StoriesCover(recs, stories) && |recs| > 0
    ensures |stories| > 0
  {
    assert recs[0] in recs;
    var j :| 0 <= j < |stories| && stories[j].id == recs[0].id;
  }

  /** Similarity of two recommended stories' embeddings, `null` read as 0. */
  function PairSimilarity(stories: seq<Story>, sim: Similarity, a: Id, b: Id): real {
    SimilarityOrZero(sim, EmbeddingFor(stories, a), EmbeddingFor(stories, b))
  }

  /** `Math.min` of a candidate's similarities to the chosen recommendations. */
  function MinSimilarity(stories: seq<Story>, sim: Similarity, c: Scored, chosen: seq<Scored>): (m: real)
    requires |chosen| > 0
    ensures forall i | 0 <= i < |chosen| :: m <= PairSimilarity(stories, sim, c.id, chosen[i].id)
    ensures exists i | 0 <= i < |chosen| :: m == PairSimilarity(stories, sim, c.id, chosen[i].id)
    decreases |chosen|
  {
    var first := PairSimilarity(stories, sim, c.id, chosen[0].id);
    if |chosen| == 1 then first
    else
      var rest := MinSimilarity(stories, sim, c, chosen[1..]);
      assert forall i | 1 <= i < |chosen| :: chosen[1..][i - 1] == chosen[i];
      if first <= rest then first else rest
  }

  /** What each recommendation offers in a round: `None` for one already chosen,
      otherwise its minimum similarity to the chosen ones. */
  function RoundValues(recs: seq<Scored>, chosen: seq<Scored>, stories: seq<Story>, sim: Similarity): (vals: seq<Option<real>>)
    requires |chosen| > 0
    ensures |vals| == |recs|
    ensures forall l | 0 <= l < |recs| :: vals[l].None? <==> recs[l].id in IdsOf(chosen)
  {
    seq(|recs|, l requires 0 <= l < |recs| =>
      if recs[l].id in IdsOf(chosen) then None else Some(MinSimilarity(stories, sim, recs[l], chosen)))
  }

  /** `j` is the pick of the scan over `vals[..upTo]`: its value is positive,
      strictly above every earlier value and at least every later one. */
  predicate IsFirstMax(vals: seq<Option<real>>, j: nat, upTo: nat) {
    && j < upTo <= |vals|
    && vals[j].Some? && vals[j].value > 0.0
    && (forall l | 0 <= l < j && vals[l].Some? :: vals[l].value < vals[j].value)
    && (forall l | j < l < upTo && vals[l].Some? :: vals[l].value <= vals[j].value)
  }

  /** No value in `vals[..upTo]` is positive. */
  predicate NoneAboveZero(vals: seq<Option<real>>, upTo: nat)
    requires upTo <= |vals|
  {
    forall l | 0 <= l < upTo && vals[l].Some? :: vals[l].value <= 0.0
  }

  /** The inner `for (const rec of recommendations)` loop, from position `i`,
      with the running `nextRec` (`best`) and `maxMinDistance` (`bestValue`). */
  function Scan(vals: seq<Option<real>>, i: nat, best: Option<nat>, bestValue: real): (r: Option<nat>)
    requires i <= |vals|
    requires best.None? ==> bestValue == 0.0 && NoneAboveZero(vals, i)
    requires best.Some? ==> IsFirstMax(vals, best.value, i) && bestValue == vals[best.value].value
    ensures r.Some? ==> IsFirstMax(vals, r.value, |vals|)
    ensures r.None? ==> NoneAboveZero(vals, |vals|)
    decreases |vals| - i
  {
    if i == |vals| then best
    else match vals[i]
      case Some(v) =>
        if v > bestValue then Scan(vals, i + 1, Some(i), v)
        else Scan(vals, i + 1, best, bestValue)
      case None => Scan(vals, i + 1, best, bestValue)
  }

  /** One round's pick, if any. */
  function PickNext(recs: seq<Scored>, chosen: seq<Scored>, stories: seq<Story>, sim: Similarity): (r: Option<nat>)
    requires |chosen| > 0
    ensures r.Some? ==> IsFirstMax(RoundValues(recs, chosen, stories, sim), r.value, |recs|)
    ensures r.Some? ==> recs[r.value].id !in IdsOf(chosen)
    ensures r.None? ==> NoneAboveZero(RoundValues(recs, chosen, stories, sim), |recs|)
  {
    Scan(RoundValues(recs, chosen, stories, sim), 0, None, 0.0)
  }

  /** One iteration of the outer `for (let i = 1; i < k; i++)` loop. */
  function Round(recs: seq<Scored>, chosen: seq<Scored>, stories: seq<Story>, sim: Similarity): (r: seq<Scored>)
    requires |chosen| > 0
    ensures r == chosen || (|r| == |chosen| + 1 && r[..|chosen|] == chosen)
    ensures |r| == |chosen| + 1 ==> exists j | 0 <= j < |recs| ::
      r[|chosen|] == recs[j] && IsFirstMax(RoundValues(recs, chosen, stories, sim), j, |recs|)
    ensures |r| == |chosen| ==> NoneAboveZero(RoundValues(recs, chosen, stories, sim), |recs|)
    ensures NoDuplicateIds(chosen) ==> NoDuplicateIds(r)
  {
    match PickNext(recs, chosen, stories, sim)
    case Some(j) =>
      var r := chosen + [recs[j]];
      assert r[..|chosen|] == chosen;
      assert forall i | 0 <= i < |chosen| :: chosen[i].id in IdsOf(chosen);
      r
    case None => chosen
  }

  /** `n` rounds from `chosen`. */
  function Rounds(recs: seq<Scored>, chosen: seq<Scored>, stories: seq<Story>, sim: Similarity, n: nat): (r: seq<Scored>)
    requires |chosen| > 0
    ensures |chosen| <= |r| <= |chosen| + n
    ensures r[..|chosen|] == chosen
    ensures forall i | |chosen| <= i < |r| :: r[i] in recs
    ensures NoDuplicateIds(chosen) ==> NoDuplicateIds(r)
    decreases n
  {
    if n == 0 then chosen
    else
      var next := Round(recs, chosen, stories, sim);
      var r := Rounds(recs, next, stories, sim, n - 1);
      assert r[..|chosen|] == r[..|next|][..|chosen|];
      assert forall i | |chosen| <= i < |r| :: r[i] in recs by {
        forall i | |chosen| <= i < |r|
          ensures r[i] in recs
        {
          if i < |next| {
            assert r[i] == r[..|next|][i] == next[i];
          }
        }
      }
      r
  }

  /** addDiversity. */
  function AddDiversity(recs: seq<Scored>, stories: seq<Story>, k: int, sim: Similarity): (r: Result<seq<Scored>, DiversityError>)
    requires StoriesCover(recs, stories)
    ensures r == Err(EmptyRecommendations) <==> |recs| == 0
    ensures r == Err(NonPositiveK) <==> |recs| > 0 && k <= 0
    ensures r != Err(EmptyStories)
    ensures r.Ok? ==> 1 <= |r.value| <= k
    ensures r.Ok? ==> r.value[0] == recs[0]
    ensures r.Ok? ==> NoDuplicateIds(r.value)
    ensures r.Ok? ==> forall x | x in r.value :: x in recs
  {
    if |recs| == 0 then Err(EmptyRecommendations)
    else
      // every recommendation names a story, so the story list is not empty
      StoriesNonEmpty(recs, stories);
      if |stories| == 0 then
        assert false;
        Err(EmptyStories)
      else if k <= 0 then Err(NonPositiveK)
      else Ok(Diversify(recs, stories, k, sim))
  }

  /** The loop of addDiversity once its invariants hold: the top candidate, then
      k - 1 rounds. */
  function Diversify(recs: seq<Scored>, stories: seq<Story>, k: int, sim: Similarity): (d: seq<Scored>)
    requires |recs| > 0 && k > 0
    ensures 1 <= |d| <= k
    ensures d[0] == recs[0]
    ensures NoDuplicateIds(d)
    ensures forall x | x in d :: x in recs
  {
    var seed := [recs[0]];
    var d := Rounds(recs, seed, stories, sim, k - 1);
    assert d[..1] == seed;
    assert forall i | 0 <= i < |d| :: d[i] in recs by {
      forall i | 0 <= i < |d| ensures d[i] in recs {
        if i == 0 { assert d[0] == d[..1][0]; }
      }
    }
    d
  }

  /** Once a round adds nothing, no later round adds anything. */
  lemma {:induction false} StuckStaysStuck(recs: seq<Scored>, chosen: seq<Scored>, stories: seq<Story>, sim: Similarity, n: nat)
    requires |chosen| > 0
    requires Round(recs, chosen, stories, sim) == chosen
    ensures Rounds(recs, chosen, stories, sim, n) == chosen
    decreases n
  {
    if n > 0 {
      StuckStaysStuck(recs, chosen, stories, sim, n - 1);
    }
  }

  /** A candidate whose similarity to the seed is not positive is never added. */
  lemma {:induction false} NonPositiveNeverAdded(recs: seq<Scored>, stories: seq<Story>, sim: Similarity, k: int)
    requires StoriesCover(recs, stories) && |recs| > 0 && k > 0
    requires forall l | 0 < l < |recs| :: recs[l].id == recs[0].id || PairSimilarity(stories, sim, recs[l].id, recs[0].id) <= 0.0
    ensures AddDiversity(recs, stories, k, sim) == Ok([recs[0]])
  {
    var seed := [recs[0]];
    assert IdsOf(seed) == {recs[0].id} by { assert seed[0].id == recs[0].id; }
    var vals := RoundValues(recs, seed, stories, sim);
    forall l | 0 <= l < |recs| && vals[l].Some?
      ensures vals[l].value <= 0.0
    {
      assert vals[l].value == MinSimilarity(stories, sim, recs[l], seed);
    }
    assert Round(recs, seed, stories, sim) == seed;
    StuckStaysStuck(recs, seed, stories, sim, k - 1);
  }

  /** A similarity for two-component vectors: their dot product (the cosine for unit vectors). */
  function Dot2(a: Vector, b: Vector): Option<real> {
    if |a| == 2 && |b| == 2 then Some(a[0] * b[0] + a[1] * b[1]) else None
  }

  /** In the first round of the example below, B offers similarity 0.99 to A
      and C offers 0. */
  lemma ExampleRoundValues()
    ensures RoundValues([Scored("A", 0.95), Scored("B", 0.9), Scored("C", 0.6)], [Scored("A", 0.95)],
                        [Story("A", Some([1.0, 0.0])), Story("B", Some([0.99, 0.14])), Story("C", Some([0.0, 1.0]))],
                        Dot2)
         == [None, Some(0.99), Some(0.0)]
  {
    var stories := [Story("A", Some([1.0, 0.0])), Story("B", Some([0.99, 0.14])), Story("C", Some([0.0, 1.0]))];
    var recs := [Scored("A", 0.95), Scored("B", 0.9), Scored("C", 0.6)];
    var seed := [recs[0]];
    assert IdsOf(seed) == {"A"} by { assert seed[0].id == "A"; }
    assert stories[0].id == "A" && stories[1].id == "B" && stories[2].id == "C";
    assert FindStory(stories, "A") == Some(stories[0]);
    assert EmbeddingFor(stories, "A") == [1.0, 0.0];
    assert EmbeddingFor(stories, "B") == [0.99, 0.14];
    assert EmbeddingFor(stories, "C") == [0.0, 1.0];
    var vals := RoundValues(recs, seed, stories, Dot2);
    assert vals[0] == None;
    assert vals[1] == Some(0.99);
    assert vals[2] == Some(0.0);
  }

  /** The first round of the example below picks B. */
  lemma ExampleFirstRound()
    ensures Round([Scored("A", 0.95), Scored("B", 0.9), Scored("C", 0.6)], [Scored("A", 0.95)],
                  [Story("A", Some([1.0, 0.0])), Story("B", Some([0.99, 0.14])), Story("C", Some([0.0, 1.0]))],
                  Dot2)
         == [Scored("A", 0.95), Scored("B", 0.9)]
  {
    var stories := [Story("A", Some([1.0, 0.0])), Story("B", Some([0.99, 0.14])), Story("C", Some([0.0, 1.0]))];
    var recs := [Scored("A", 0.95), Scored("B", 0.9), Scored("C", 0.6)];
    var seed := [Scored("A", 0.95)];
    ExampleRoundValues();
    var vals := RoundValues(recs, seed, stories, Dot2);
    var pick := PickNext(recs, seed, stories, Dot2);
    assert vals[1].Some? && vals[1].value > 0.0;
    assert pick.Some?;
    assert pick.value == 1 by { assert vals[0].None? && vals[2].value <= 0.0; }
  }

  /** With A = [1, 0] ranked first, a near-duplicate B = [0.99, 0.14] and a
      distinct C = [0, 1], and k = 2, the re-ranker adds the near-duplicate B
      (similarity 0.99 to A), not the distinct C (similarity 0). */
  lemma NearDuplicatePreferred()
    ensures var stories := [Story("A", Some([1.0, 0.0])), Story("B", Some([0.99, 0.14])), Story("C", Some([0.0, 1.0]))];
            var recs := [Scored("A", 0.95), Scored("B", 0.9), Scored("C", 0.6)];
            StoriesCover(recs, stories) && AddDiversity(recs, stories, 2, Dot2) == Ok([recs[0], recs[1]])
  {
    var stories := [Story("A", Some([1.0, 0.0])), Story("B", Some([0.99, 0.14])), Story("C", Some([0.0, 1.0]))];
    var recs := [Scored("A", 0.95), Scored("B", 0.9), Scored("C", 0.6)];
    assert StoriesCover(recs, stories) by {
      assert stories[0].id == recs[0].id && stories[1].id == recs[1].id && stories[2].id == recs[2].id;
    }
    var seed := [recs[0]];
    assert seed == [Scored("A", 0.95)];
    ExampleFirstRound();
    var next := Round(recs, seed, stories, Dot2);
    assert next == [recs[0], recs[1]];
    assert Rounds(recs, seed, stories, Dot2, 1) == Rounds(recs, next, stories, Dot2, 0) == next;
  }
}
