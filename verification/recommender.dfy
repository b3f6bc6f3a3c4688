/** getRecommendedStories: profile, candidate scores, top k, re-ranking, and the
    final lookup of the chosen ids. Database reads are inputs: the user's read
    history (joined with each story's embedding), the full story list and the
    per-story read counts. The final `findMany({ where: { id: { in } } })` does
    not keep the re-ranked order, so the result is the set of chosen ids.

    A reader none of whose reads has an embedding (a reader with no history, for
    one) gets no error and no fallback: the profile divides 0 by 0, so every
    component and every combined score is NaN. The comparator `b[1] - a[1]` is
    then NaN for every pair, which the sort reads as a tie, so the stable sort
    keeps the map's insertion order and `slice` takes its first k entries. The
    model gives every candidate the same score instead, which the sort treats
    the same way; addDiversity never reads scores. */
module Recommender {
  import opened Wrappers
  import opened Profile
  import opened Scoring
  import opened Diversity

  datatype RecommendError =
    | UserIdRequired           // `invariant(userId, ...)` on an empty id
    | Diversity(e: DiversityError)

  /** No read in the history has an embedding. */
  predicate NoEmbeddedReads(history: seq<ReadEvent>) {
    forall j | 0 <= j < |history| :: history[j].embedding.None?
  }

  lemma EligibleAreStories(history: seq<ReadEvent>, stories: seq<Story>, recs: seq<Scored>, scored: seq<Scored>)
    requires IdsOf(scored) == EligibleIds(history, stories)
    requires multiset(recs) <= multiset(scored)
    ensures StoriesCover(recs, stories)
    ensures IdsOf(recs) <= EligibleIds(history, stories)
  {
    forall i | 0 <= i < |recs|
      ensures recs[i].id in EligibleIds(history, stories)
      ensures exists j | 0 <= j < |stories| :: stories[j].id == recs[i].id
    {
      assert recs[i] in multiset(recs);
      assert recs[i] in scored;
      var l :| 0 <= l < |scored| && scored[l] == recs[i];
      assert recs[i].id in IdsOf(scored);
      var j :| 0 <= j < |stories| && Eligible(history, stories[j]) && stories[j].id == recs[i].id;
      assert 0 <= j < |stories| && stories[j].id == recs[i].id;
    }
    assert forall i | 0 <= i < |recs| :: exists j | 0 <= j < |stories| :: stories[j].id == recs[i].id;
    assert StoriesCover(recs, stories);
    forall id | id in IdsOf(recs)
      ensures id in EligibleIds(history, stories)
    {
      var i :| 0 <= i < |recs| && recs[i].id == id;
    }
  }

  lemma IdsOfSubset(a: seq<Scored>, b: seq<Scored>)
    requires forall x | x in a :: x in b
    ensures IdsOf(a) <= IdsOf(b)
  {
    forall id | id in IdsOf(a)
      ensures id in IdsOf(b)
    {
      var i :| 0 <= i < |a| && a[i].id == id;
      assert a[i] in b;
      var l :| 0 <= l < |b| && b[l] == a[i];
    }
  }

  /** No reads and no similarity: both put 0 into every combined score. */
  const NoReads: Id -> nat := _ => 0
  const NoSimilarity: Similarity := (a, b) => None

  /** The score map of a reader without a profile: every score is NaN in
      JavaScript, and every one is the tie value 0 here. */
  function TiedCandidates(history: seq<ReadEvent>, stories: seq<Story>): (r: seq<Scored>)
    ensures NoDuplicateIds(r)
    ensures IdsOf(r) == EligibleIds(history, stories)
    ensures forall i | 0 <= i < |r| :: r[i].score == 0.0
  {
    ScoreCandidates(history, stories, [], NoReads, NoSimilarity)
  }

  /** The score map the sort receives: scored against the profile when there
      is one, all tied otherwise. */
  function Candidates(history: seq<ReadEvent>, stories: seq<Story>, now: int,
                      readCount: Id -> nat, decay: real -> real, sim: Similarity): (r: seq<Scored>)
    requires ValidDecay(decay)
    ensures NoDuplicateIds(r)
    ensures IdsOf(r) == EligibleIds(history, stories)
  {
    match UserProfile(history, now, decay)
    case Some(profile) => ScoreCandidates(history, stories, profile, readCount, sim)
    case None => TiedCandidates(history, stories)
  }

  /** The recommended story ids for a user. */
  function GetRecommendedStories(userId: string, k: int, history: seq<ReadEvent>, stories: seq<Story>,
                                 now: int, readCount: Id -> nat, decay: real -> real, sim: Similarity)
    : (r: Result<set<Id>, RecommendError>)
    requires ValidDecay(decay)
    ensures r == Err(UserIdRequired) <==> userId == ""
    ensures r.Ok? <==> userId != "" && k > 0 && EligibleIds(history, stories) != {}
    ensures r != Err(Diversity(EmptyStories))
    ensures r.Ok? ==> r.value <= EligibleIds(history, stories)
    ensures r.Ok? ==> forall id | id in r.value :: !HasRead(history, id)
    ensures r.Ok? ==> 1 <= |r.value| <= k
  {
    if userId == "" then Err(UserIdRequired)
    else
      var scored := Candidates(history, stories, now, readCount, decay, sim);
      var recs := TopK(scored, k);
      EligibleAreStories(history, stories, recs, scored);
      DistinctIdsCount(scored);
      match AddDiversity(recs, stories, k, sim)
      case Err(e) => Err(Diversity(e))
      case Ok(diverse) =>
        IdsOfSubset(diverse, recs);
        DistinctIdsCount(diverse);
        Ok(IdsOf(diverse))
  }

  /** The head of a non-empty top-k list scores at least as high as every candidate. */
  lemma TopKHeadIsMaximal(scored: seq<Scored>, k: int)
    requires k > 0 && |scored| > 0
    ensures |TopK(scored, k)| > 0
    ensures forall y | y in scored :: y.score <= TopK(scored, k)[0].score
  {
    HeadDominates(scored, TopK(scored, k));
  }

  /** A sorted selection that outscores everything left out starts with a
      maximal element. */
  lemma HeadDominates(scored: seq<Scored>, recs: seq<Scored>)
    requires |recs| > 0 && SortedByScore(recs)
    requires multiset(recs) <= multiset(scored)
    requires forall y, x | y in recs && x in multiset(scored) - multiset(recs) :: y.score >= x.score
    ensures forall y | y in scored :: y.score <= recs[0].score
  {
    forall y | y in scored
      ensures y.score <= recs[0].score
    {
      assert y in multiset(scored);
      if y !in multiset(recs) {
        assert y in multiset(scored) - multiset(recs);
      } else {
        var i :| 0 <= i < |recs| && recs[i] == y;
      }
    }
  }

  /** A successful call recommends the ids of the re-ranked top k. */
  lemma RecommendedIds(userId: string, k: int, history: seq<ReadEvent>, stories: seq<Story>,
                       now: int, readCount: Id -> nat, decay: real -> real, sim: Similarity)
    requires ValidDecay(decay)
    requires userId != "" && k > 0 && EligibleIds(history, stories) != {}
    ensures var scored := Candidates(history, stories, now, readCount, decay, sim);
            && |TopK(scored, k)| > 0
            && GetRecommendedStories(userId, k, history, stories, now, readCount, decay, sim).value
               == IdsOf(Diversify(TopK(scored, k), stories, k, sim))
  {
    var scored := Candidates(history, stories, now, readCount, decay, sim);
    EligibleAreStories(history, stories, TopK(scored, k), scored);
  }

  /** The top-scored candidate is always among the recommendations. */
  lemma TopCandidateRecommended(userId: string, k: int, history: seq<ReadEvent>, stories: seq<Story>,
                                now: int, readCount: Id -> nat, decay: real -> real, sim: Similarity)
    requires ValidDecay(decay)
    requires userId != "" && !NoEmbeddedReads(history) && k > 0 && EligibleIds(history, stories) != {}
    ensures var profile := UserProfile(history, now, decay).value;
            var scored := ScoreCandidates(history, stories, profile, readCount, sim);
            exists x | x in scored ::
              && x.id in GetRecommendedStories(userId, k, history, stories, now, readCount, decay, sim).value
              && forall y | y in scored :: y.score <= x.score
  {
    RecommendedIds(userId, k, history, stories, now, readCount, decay, sim);
    var profile := UserProfile(history, now, decay).value;
    assert Candidates(history, stories, now, readCount, decay, sim)
        == ScoreCandidates(history, stories, profile, readCount, sim);
    var scored := ScoreCandidates(history, stories, profile, readCount, sim);
    var recs := TopK(scored, k);
    var diverse := Diversify(recs, stories, k, sim);
    var x := recs[0];
    assert x in multiset(recs);
    assert |scored| > 0 && x in scored;
    TopKHeadIsMaximal(scored, k);
    assert x == diverse[0];
    assert x.id in IdsOf(diverse);
  }

  /** A reader without embedded reads is recommended the first eligible story
      of the story list, and otherwise only stories among the first k eligible
      ones in list order: neither similarity nor popularity plays a part. */
  lemma NoProfileKeepsListOrder(userId: string, k: int, history: seq<ReadEvent>, stories: seq<Story>,
                                now: int, readCount: Id -> nat, decay: real -> real, sim: Similarity, j: nat)
    requires ValidDecay(decay)
    requires userId != "" && NoEmbeddedReads(history) && k > 0
    requires j < |stories| && Eligible(history, stories[j])
    requires forall i | 0 <= i < j :: !Eligible(history, stories[i])
    ensures var r := GetRecommendedStories(userId, k, history, stories, now, readCount, decay, sim);
            var tied := TiedCandidates(history, stories);
            && r.Ok?
            && stories[j].id in r.value
            && r.value <= IdsOf(tied[..if k < |tied| then k else |tied|])
  {
    assert stories[j].id in EligibleIds(history, stories);
    RecommendedIds(userId, k, history, stories, now, readCount, decay, sim);
    var tied := TiedCandidates(history, stories);
    assert Candidates(history, stories, now, readCount, decay, sim) == tied;
    TiesKeepOrder(tied, 0.0);
    var recs := TopK(tied, k);
    assert recs == tied[..if k < |tied| then k else |tied|];
    FirstEligibleLeads(history, stories, [], NoReads, NoSimilarity, j);
    var diverse := Diversify(recs, stories, k, sim);
    assert diverse[0] == recs[0] == tied[0];
    assert stories[j].id in IdsOf(diverse);
    IdsOfSubset(diverse, recs);
  }
}
