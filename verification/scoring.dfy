/** Candidate scoring and top-k selection of the story recommender: every story
    the user has not read and that has an embedding is scored
    0.7 * similarity + 0.3 * popularity, the scores are kept in an
    insertion-ordered map, sorted by score (highest first) and cut to k. */
module Scoring {
  import opened Wrappers
  import opened Profile

  /** A story row: its id and its parsed embedding (`None` when falsy). */
  datatype Story = Story(id: Id, embedding: Option<Vector>)

  /** A `[storyId, combinedScore]` entry of the score map. */
  datatype Scored = Scored(id: Id, score: real)

  /** compute-cosine-similarity, taken as an input: `None` stands for its `null`. */
  type Similarity = (Vector, Vector) -> Option<real>

  /** A similarity with `null` replaced by 0 (`?? 0`). */
  function SimilarityOrZero(sim: Similarity, a: Vector, b: Vector): (r: real)
    ensures sim(a, b).None? ==> r == 0.0
    ensures sim(a, b).Some? ==> r == sim(a, b).value
  {
    sim(a, b).GetOr(0.0)
  }

  /** Read counts are divided by this fixed constant, not by a corpus maximum. */
  const PopularityDivisor: real := 100.0

  /** getStoryPopularity: the story's read count, normalised by 100. */
  function Popularity(readCount: nat): (p: real)
    ensures p * PopularityDivisor == readCount as real
    ensures p >= 0.0
    ensures p <= 1.0 <==> readCount <= 100
  {
    readCount as real / PopularityDivisor
  }

  const SimilarityWeight: real := 0.7
  const PopularityWeight: real := 0.3

  /** The blended score of a candidate. */
  function CombinedScore(similarity: real, popularity: real): (c: real)
    ensures -1.0 <= similarity <= 1.0 && 0.0 <= popularity <= 1.0 ==> -0.7 <= c <= 1.0
    ensures similarity == 0.0 ==> c * 10.0 == 3.0 * popularity
  {
    SimilarityWeight * similarity + PopularityWeight * popularity
  }

  /** The score rises with similarity and with popularity, and a similarity
      advantage of d outweighs a popularity disadvantage of less than 7/3 d. */
  lemma CombinedScoreMonotone(s1: real, p1: real, s2: real, p2: real)
    requires s1 <= s2 && p1 <= p2
    ensures CombinedScore(s1, p1) <= CombinedScore(s2, p2)
    ensures s1 < s2 ==> CombinedScore(s1, p1) < CombinedScore(s2, p2)
  {
  }

  /** The user has read `id`: some history row names it. */
  predicate HasRead(history: seq<ReadEvent>, id: Id) {
    exists j | 0 <= j < |history| :: history[j].storyId == id
  }

  /** A story is a candidate when it is unread and has an embedding. */
  predicate Eligible(history: seq<ReadEvent>, s: Story) {
    !HasRead(history, s.id) && s.embedding.Some?
  }

  /** The ids of the candidate stories. */
  function EligibleIds(history: seq<ReadEvent>, stories: seq<Story>): set<Id> {
    set j | 0 <= j < |stories| && Eligible(history, stories[j]) :: stories[j].id
  }

  /** The combined score of a candidate story against the profile. */
  function ScoreOf(s: Story, profile: Vector, readCount: Id -> nat, sim: Similarity): real
    requires s.embedding.Some?
  {
    CombinedScore(SimilarityOrZero(sim, profile, s.embedding.value), Popularity(readCount(s.id)))
  }

  /** The ids in a list of entries. */
  function IdsOf(entries: seq<Scored>): set<Id> {
    set j | 0 <= j < |entries| :: entries[j].id
  }

  predicate NoDuplicateIds(entries: seq<Scored>) {
    forall i, j | 0 <= i < j < |entries| :: entries[i].id != entries[j].id
  }

  /** A list without duplicate ids has as many entries as ids. */
  lemma {:induction false} DistinctIdsCount(entries: seq<Scored>)
    requires NoDuplicateIds(entries)
    ensures |IdsOf(entries)| == |entries|
    decreases |entries|
  {
    if |entries| > 0 {
      var last := entries[|entries| - 1];
      var prefix := entries[..|entries| - 1];
      DistinctIdsCount(prefix);
      assert IdsOf(entries) == IdsOf(prefix) + {last.id};
      assert last.id !in IdsOf(prefix);
    }
  }

  /** An entry put in front keeps the ids distinct exactly when its id is new. */
  lemma ConsUnique(h: Scored, t: seq<Scored>)
    ensures NoDuplicateIds([h] + t) <==> h.id !in IdsOf(t) && NoDuplicateIds(t)
  {
    var l := [h] + t;
    if NoDuplicateIds(l) {
      forall j | 0 <= j < |t| ensures t[j].id != h.id {
        assert l[0] == h && l[j + 1] == t[j];
      }
      forall i, j | 0 <= i < j < |t| ensures t[i].id != t[j].id {
        assert l[i + 1] == t[i] && l[j + 1] == t[j];
      }
    }
    if h.id !in IdsOf(t) && NoDuplicateIds(t) {
      forall i, j | 0 <= i < j < |l| ensures l[i].id != l[j].id {
        assert l[j] == t[j - 1];
        if i > 0 {
          assert l[i] == t[i - 1];
        }
      }
    }
  }

  lemma IdsOfConcat(a: seq<Scored>, b: seq<Scored>)
    ensures IdsOf(a + b) == IdsOf(a) + IdsOf(b)
  {
    var ab := a + b;
    forall id | id in IdsOf(a + b)
      ensures id in IdsOf(a) + IdsOf(b)
    {
      var j :| 0 <= j < |ab| && ab[j].id == id;
      if j >= |a| {
        assert b[j - |a|].id == id;
      }
    }
    forall id | id in IdsOf(a) + IdsOf(b)
      ensures id in IdsOf(a + b)
    {
      if id in IdsOf(a) {
        var j :| 0 <= j < |a| && a[j].id == id;
        assert ab[j].id == id;
      } else {
        var j :| 0 <= j < |b| && b[j].id == id;
        assert ab[|a| + j].id == id;
      }
    }
  }

  /** `Map.prototype.set` on an insertion-ordered map: an existing key keeps its
      place and takes the new value, a new key goes to the end. */
  function MapSet(m: seq<Scored>, e: Scored): (r: seq<Scored>)
    ensures IdsOf(r) == IdsOf(m) + {e.id}
    ensures NoDuplicateIds(m) ==> NoDuplicateIds(r)
    ensures forall x | x in r :: x == e || x in m
    ensures e in r
    decreases |m|
  {
    if |m| == 0 then
      assert IdsOf([e]) == {e.id} by { assert [e][0].id == e.id; }
      [e]
    else
      assert m == [m[0]] + m[1..];
      ConsUnique(m[0], m[1..]);
      IdsOfConcat([m[0]], m[1..]);
      assert IdsOf([m[0]]) == {m[0].id} by { assert [m[0]][0].id == m[0].id; }
      if m[0].id == e.id then
        ConsUnique(e, m[1..]);
        IdsOfConcat([e], m[1..]);
        assert IdsOf([e]) == {e.id} by { assert [e][0].id == e.id; }
        [e] + m[1..]
      else
        var rest := MapSet(m[1..], e);
        ConsUnique(m[0], rest);
        IdsOfConcat([m[0]], rest);
        assert forall x | x in m[1..] :: x in m;
        [m[0]] + rest
  }

  /** Where `MapSet` puts the entry: in place of the first entry with its id,
      or at the end when the id is new. */
  lemma {:induction false} MapSetPlace(m: seq<Scored>, e: Scored)
    ensures || (exists i | 0 <= i < |m| ::
                 && m[i].id == e.id
                 && (forall l | 0 <= l < i :: m[l].id != e.id)
                 && MapSet(m, e) == m[i := e])
            || (e.id !in IdsOf(m) && MapSet(m, e) == m + [e])
    decreases |m|
  {
    if |m| == 0 {
      assert MapSet(m, e) == m + [e];
    } else if m[0].id == e.id {
      assert MapSet(m, e) == m[0 := e];
    } else {
      var t := m[1..];
      var rest := MapSet(t, e);
      assert MapSet(m, e) == [m[0]] + rest;
      MapSetPlace(t, e);
      if i :| 0 <= i < |t| && t[i].id == e.id && (forall l | 0 <= l < i :: t[l].id != e.id) && rest == t[i := e] {
        ConsUpdate(m, i, e);
        ConsFirst(m, i, e.id);
        assert m[i + 1].id == e.id;
      } else {
        ConsSnoc(m, e);
        IdsOfConcat([m[0]], t);
        assert IdsOf([m[0]]) == {m[0].id} by { assert [m[0]][0].id == m[0].id; }
      }
    }
  }

  lemma ConsUpdate(m: seq<Scored>, i: nat, e: Scored)
    requires i + 1 < |m|
    ensures [m[0]] + m[1..][i := e] == m[i + 1 := e]
    ensures m[i + 1] == m[1..][i]
  {
  }

  lemma ConsFirst(m: seq<Scored>, i: nat, id: Id)
    requires i + 1 < |m| && m[0].id != id
    requires forall l | 0 <= l < i :: m[1..][l].id != id
    ensures forall l | 0 <= l < i + 1 :: m[l].id != id
  {
    forall l | 1 <= l < i + 1
      ensures m[l].id != id
    {
      assert m[l] == m[1..][l - 1];
    }
  }

  lemma ConsSnoc(m: seq<Scored>, e: Scored)
    requires |m| > 0
    ensures [m[0]] + (m[1..] + [e]) == m + [e]
    ensures m == [m[0]] + m[1..]
  {
  }

  /** The score map after the loop over all stories: one entry per candidate id,
      in first-insertion order, valued by the score of the last story with that id. */
  function ScoreCandidates(history: seq<ReadEvent>, stories: seq<Story>, profile: Vector,
                           readCount: Id -> nat, sim: Similarity): (r: seq<Scored>)
    ensures NoDuplicateIds(r)
    ensures IdsOf(r) == EligibleIds(history, stories)
    ensures forall x | x in r :: exists j | 0 <= j < |stories| ::
      stories[j].id == x.id && Eligible(history, stories[j]) && x.score == ScoreOf(stories[j], profile, readCount, sim)
    decreases |stories|
  {
    if |stories| == 0 then []
    else
      var prefix := stories[..|stories| - 1];
      var s := stories[|stories| - 1];
      var m := ScoreCandidates(history, prefix, profile, readCount, sim);
      assert forall j | 0 <= j < |prefix| :: prefix[j] == stories[j];
      if Eligible(history, s) then
        assert EligibleIds(history, stories) == EligibleIds(history, prefix) + {s.id};
        MapSet(m, Scored(s.id, ScoreOf(s, profile, readCount, sim)))
      else
        assert EligibleIds(history, stories) == EligibleIds(history, prefix);
        m
  }

  /** The map's first entry comes from the first eligible story, whatever the scores. */
  lemma {:induction false} FirstEligibleLeads(history: seq<ReadEvent>, stories: seq<Story>, profile: Vector,
                                              readCount: Id -> nat, sim: Similarity, j: nat)
    requires j < |stories| && Eligible(history, stories[j])
    requires forall i | 0 <= i < j :: !Eligible(history, stories[i])
    ensures |ScoreCandidates(history, stories, profile, readCount, sim)| > 0
    ensures ScoreCandidates(history, stories, profile, readCount, sim)[0].id == stories[j].id
    decreases |stories|
  {
    var prefix := stories[..|stories| - 1];
    var s := stories[|stories| - 1];
    var m := ScoreCandidates(history, prefix, profile, readCount, sim);
    if j < |prefix| {
      assert prefix[j] == stories[j];
      assert forall i | 0 <= i < j :: prefix[i] == stories[i];
      FirstEligibleLeads(history, prefix, profile, readCount, sim, j);
      if Eligible(history, s) {
        MapSetPlace(m, Scored(s.id, ScoreOf(s, profile, readCount, sim)));
      }
    } else {
      var e := Scored(s.id, ScoreOf(s, profile, readCount, sim));
      assert s == stories[j];
      forall l | 0 <= l < |prefix| ensures !Eligible(history, prefix[l]) {
        assert prefix[l] == stories[l];
      }
      assert EligibleIds(history, prefix) == {};
      DistinctIdsCount(m);
      assert ScoreCandidates(history, stories, profile, readCount, sim) == MapSet([], e);
    }
  }

  /** Scores never increase along the list. */
  predicate SortedByScore(s: seq<Scored>) {
    forall i, j | 0 <= i < j < |s| :: s[i].score >= s[j].score
  }

  /** Inserts `x` before the first entry whose score is not higher, so that it
      stays ahead of equal-scored entries that came after it (a stable sort). */
  function Insert(x: Scored, s: seq<Scored>): (r: seq<Scored>)
    requires SortedByScore(s)
    ensures SortedByScore(r)
    ensures multiset(r) == multiset(s) + multiset{x}
    decreases |s|
  {
    if |s| == 0 then [x]
    else if s[0].score > x.score then
      var rest := Insert(x, s[1..]);
      InsertAfterHead(x, s, rest);
      [s[0]] + rest
    else [x] + s
  }

  lemma InsertAfterHead(x: Scored, s: seq<Scored>, rest: seq<Scored>)
    requires |s| > 0 && SortedByScore(s) && s[0].score > x.score
    requires SortedByScore(rest) && multiset(rest) == multiset(s[1..]) + multiset{x}
    ensures SortedByScore([s[0]] + rest)
    ensures multiset([s[0]] + rest) == multiset(s) + multiset{x}
  {
    assert s == [s[0]] + s[1..];
    forall j | 0 <= j < |rest|
      ensures s[0].score >= rest[j].score
    {
      assert rest[j] in multiset(rest);
      if rest[j] != x {
        assert rest[j] in multiset(s[1..]);
        var k :| 0 <= k < |s[1..]| && s[1..][k] == rest[j];
        assert s[k + 1] == rest[j];
      }
    }
  }

  /** `.sort((a, b) => b[1] - a[1])`: a stable sort, highest score first. */
  function SortByScore(s: seq<Scored>): (r: seq<Scored>)
    ensures SortedByScore(r)
    ensures multiset(r) == multiset(s)
    decreases |s|
  {
    if |s| == 0 then []
    else
      assert s == [s[0]] + s[1..];
      Insert(s[0], SortByScore(s[1..]))
  }

  /** The entries of `s` with score `v`, in their order. */
  function WithScore(s: seq<Scored>, v: real): seq<Scored>
    decreases |s|
  {
    if |s| == 0 then []
    else (if s[0].score == v then [s[0]] else []) + WithScore(s[1..], v)
  }

  /** Inserting into a sorted list puts `x` ahead of every entry with its score. */
  lemma {:induction false} InsertStable(x: Scored, s: seq<Scored>, v: real)
    requires SortedByScore(s)
    ensures WithScore(Insert(x, s), v) == (if x.score == v then [x] else []) + WithScore(s, v)
    decreases |s|
  {
    if |s| == 0 {
      WithScoreCons(x, [], v);
    } else if s[0].score > x.score {
      var rest := Insert(x, s[1..]);
      assert Insert(x, s) == [s[0]] + rest;
      WithScoreCons(s[0], rest, v);
      InsertStable(x, s[1..], v);
      WithScoreCons(s[0], s[1..], v);
      assert s == [s[0]] + s[1..];
      SwapAroundEmpty(if s[0].score == v then [s[0]] else [], if x.score == v then [x] else [], WithScore(s[1..], v));
    } else {
      assert Insert(x, s) == [x] + s;
      WithScoreCons(x, s, v);
    }
  }

  lemma SwapAroundEmpty(a: seq<Scored>, b: seq<Scored>, c: seq<Scored>)
    requires a == [] || b == []
    ensures a + (b + c) == b + (a + c)
  {
  }

  lemma WithScoreCons(h: Scored, t: seq<Scored>, v: real)
    ensures WithScore([h] + t, v) == (if h.score == v then [h] else []) + WithScore(t, v)
  {
    assert ([h] + t)[0] == h && ([h] + t)[1..] == t;
  }

  /** The sort is stable: entries with equal scores keep their relative order. */
  lemma {:induction false} SortByScoreStable(s: seq<Scored>, v: real)
    ensures WithScore(SortByScore(s), v) == WithScore(s, v)
    decreases |s|
  {
    if |s| > 0 {
      SortByScoreStable(s[1..], v);
      InsertStable(s[0], SortByScore(s[1..]), v);
    }
  }

  /** A list whose entries all score `v` is its own filter by `v`. */
  lemma {:induction false} WithScoreAll(s: seq<Scored>, v: real)
    requires forall i | 0 <= i < |s| :: s[i].score == v
    ensures WithScore(s, v) == s
    decreases |s|
  {
    if |s| > 0 {
      WithScoreAll(s[1..], v);
      assert s == [s[0]] + s[1..];
    }
  }

  /** When every score ties, sorting changes nothing. */
  lemma TiesKeepOrder(s: seq<Scored>, v: real)
    requires forall i | 0 <= i < |s| :: s[i].score == v
    ensures SortByScore(s) == s
  {
    var r := SortByScore(s);
    forall i | 0 <= i < |r|
      ensures r[i].score == v
    {
      assert r[i] in multiset(r);
      var j :| 0 <= j < |s| && s[j] == r[i];
    }
    WithScoreAll(s, v);
    WithScoreAll(r, v);
    SortByScoreStable(s, v);
  }

  /** The end index `Array.prototype.slice(0, k)` uses on a list of length n:
      a negative k counts from the end. */
  function SliceEnd(n: nat, k: int): (e: nat)
    ensures e <= n
    ensures k >= 0 ==> e == (if k < n then k else n)
    ensures k < 0 ==> e == (if n + k > 0 then n + k else 0)
  {
    if k < 0 then (if n + k > 0 then n + k else 0)
    else if k < n then k else n
  }

  /** Everything cut off by a sorted prefix scores no higher than anything kept. */
  lemma PrefixDominates(sorted: seq<Scored>, e: nat)
    requires SortedByScore(sorted) && e <= |sorted|
    ensures forall y, x | y in sorted[..e] && x in multiset(sorted[e..]) :: y.score >= x.score
  {
    forall y, x | y in sorted[..e] && x in multiset(sorted[e..])
      ensures y.score >= x.score
    {
      var i :| 0 <= i < e && sorted[i] == y;
      var tail := sorted[e..];
      assert x in tail;
      var j :| 0 <= j < |tail| && tail[j] == x;
      assert sorted[e + j] == x;
    }
  }

  /** The pre-diversity list: the scored candidates, sorted and cut to k. */
  function TopK(scored: seq<Scored>, k: int): (r: seq<Scored>)
    ensures SortedByScore(r)
    ensures k >= 0 ==> |r| == (if k < |scored| then k else |scored|)
    ensures multiset(r) <= multiset(scored)
    ensures forall y, x | y in r && x in multiset(scored) - multiset(r) :: y.score >= x.score
  {
    var sorted := SortByScore(scored);
    var e := SliceEnd(|sorted|, k);
    PrefixMultiset(sorted, e);
    PrefixDominates(sorted, e);
    sorted[..e]
  }

  /** A prefix takes part of a list's multiset and leaves the suffix's. */
  lemma PrefixMultiset(s: seq<Scored>, e: nat)
    requires e <= |s|
    ensures multiset(s[..e]) <= multiset(s)
    ensures multiset(s) - multiset(s[..e]) == multiset(s[e..])
  {
    assert s == s[..e] + s[e..];
  }
}
