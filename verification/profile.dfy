/** The user-profile fold of the story recommender: every read of a story that
    has an embedding contributes its embedding, weighted by how recently it was
    read, to a 1024-component weighted average.

    `Math.exp` is not modelled numerically: the weight is `decay(ageDays)`,
    standing for exp(-ageDays / 30), where `decay` is any function that is
    positive, equals 1 at age 0 and strictly decreases with age. */
module Profile {
  import opened Wrappers

  type Id = string

  /** A story embedding (the parsed JSON array of numbers). */
  type Vector = seq<real>

  /** Components of a bge-large-en-v1.5 embedding; the profile always has this many. */
  const Dim: nat := 1024

  /** Milliseconds per day, the divisor that turns a time difference into days. */
  const MsPerDay: int := 1000 * 60 * 60 * 24

  /** One row of the user's read history joined with the story's embedding.
      `embedding` is `None` when the stored embedding is falsy (null or empty). */
  datatype ReadEvent = ReadEvent(storyId: Id, readTime: int, embedding: Option<Vector>)

  /** What the model assumes of the time-decay function standing for exp(-days/30). */
  ghost predicate ValidDecay(decay: real -> real) {
    && decay(0.0) == 1.0
    && DecayPositive(decay)
    && (forall s, t :: s < t ==> decay(s) > decay(t))
  }

  /** The part of `ValidDecay` the profile fold relies on: every weight is positive. */
  ghost predicate DecayPositive(decay: real -> real) {
    forall t :: decay(t) > 0.0
  }

  /** Age of a read in days; times are milliseconds since the epoch. */
  function AgeDays(now: int, readTime: int): real {
    (now - readTime) as real / MsPerDay as real
  }

  /** decay(ageDays), with no assumption on `decay`. */
  function DecayedWeight(now: int, readTime: int, decay: real -> real): real {
    decay(AgeDays(now, readTime))
  }

  /** The weight of a read made at `readTime`, seen at `now`. */
  function Weight(now: int, readTime: int, decay: real -> real): (w: real)
    requires ValidDecay(decay)
    ensures w > 0.0
    ensures readTime == now ==> w == 1.0
    ensures readTime < now ==> w < 1.0
  {
    DecayedWeight(now, readTime, decay)
  }

  /** Of two reads, the more recent one weighs strictly more. */
  lemma MoreRecentWeighsMore(now: int, older: int, newer: int, decay: real -> real)
    requires ValidDecay(decay)
    requires older < newer
    ensures Weight(now, older, decay) < Weight(now, newer, decay)
  {
    assert AgeDays(now, newer) < AgeDays(now, older);
  }

  /** Component `i` of `v`, with missing components read as 0 (`embedding[i] ?? 0`). */
  function Component(v: Vector, i: nat): real {
    if i < |v| then v[i] else 0.0
  }

  /** The running sums of the fold: `weightedSum` (Dim components) and `weightSum`. */
  datatype Accumulator = Accumulator(weightedSum: Vector, weightSum: real)

  function Zero(): (acc: Accumulator)
    ensures |acc.weightedSum| == Dim
  {
    Accumulator(seq(Dim, _ => 0.0), 0.0)
  }

  /** One iteration of the history loop. */
  function AddRead(acc: Accumulator, e: ReadEvent, now: int, decay: real -> real): (r: Accumulator)
    requires DecayPositive(decay)
    requires |acc.weightedSum| == Dim
    ensures |r.weightedSum| == Dim
  {
    match e.embedding
    case None => acc
    case Some(v) =>
      var w := DecayedWeight(now, e.readTime, decay);
      Accumulator(seq(Dim, i requires 0 <= i < Dim => acc.weightedSum[i] + w * Component(v, i)),
                  acc.weightSum + w)
  }

  /** The history loop, folding the reads in order. */
  function Accumulate(history: seq<ReadEvent>, now: int, decay: real -> real): (acc: Accumulator)
    requires DecayPositive(decay)
    ensures |acc.weightedSum| == Dim
    ensures acc.weightSum >= 0.0
    ensures acc.weightSum == 0.0 <==> forall j | 0 <= j < |history| :: history[j].embedding.None?
    decreases |history|
  {
    if |history| == 0 then Zero()
    else
      var prefix := history[..|history| - 1];
      var acc := Accumulate(prefix, now, decay);
      assert forall j | 0 <= j < |prefix| :: prefix[j] == history[j];
      AddRead(acc, history[|history| - 1], now, decay)
  }

  /** The weight a read contributes to the denominator: 0 without an embedding. */
  function ContributedWeight(e: ReadEvent, now: int, decay: real -> real): real {
    if e.embedding.Some? then DecayedWeight(now, e.readTime, decay) else 0.0
  }

  /** Reference definition of the denominator: the sum of the contributed weights. */
  function TotalWeight(history: seq<ReadEvent>, now: int, decay: real -> real): real
    decreases |history|
  {
    if |history| == 0 then 0.0
    else ContributedWeight(history[0], now, decay) + TotalWeight(history[1..], now, decay)
  }

  /** Reference definition of numerator component `i`: the sum of weight times component. */
  function WeightedComponent(history: seq<ReadEvent>, i: nat, now: int, decay: real -> real): real
    decreases |history|
  {
    if |history| == 0 then 0.0
    else
      var e := history[0];
      var term := if e.embedding.Some? then DecayedWeight(now, e.readTime, decay) * Component(e.embedding.value, i) else 0.0;
      term + WeightedComponent(history[1..], i, now, decay)
  }

  lemma {:induction false} TotalWeightSnoc(history: seq<ReadEvent>, e: ReadEvent, now: int, decay: real -> real)
    ensures TotalWeight(history + [e], now, decay) == TotalWeight(history, now, decay) + ContributedWeight(e, now, decay)
    decreases |history|
  {
    if |history| == 0 {
      assert (history + [e])[1..] == [];
    } else {
      assert (history + [e])[1..] == history[1..] + [e];
      TotalWeightSnoc(history[1..], e, now, decay);
    }
  }

  lemma {:induction false} WeightedComponentSnoc(history: seq<ReadEvent>, e: ReadEvent, i: nat, now: int, decay: real -> real)
    ensures WeightedComponent(history + [e], i, now, decay)
         == WeightedComponent(history, i, now, decay)
            + (if e.embedding.Some? then DecayedWeight(now, e.readTime, decay) * Component(e.embedding.value, i) else 0.0)
    decreases |history|
  {
    if |history| == 0 {
      assert (history + [e])[1..] == [];
    } else {
      assert (history + [e])[1..] == history[1..] + [e];
      WeightedComponentSnoc(history[1..], e, i, now, decay);
    }
  }

  /** The fold's denominator is the total weight of the reads that have an embedding. */
  lemma {:induction false} AccumulateWeightSum(history: seq<ReadEvent>, now: int, decay: real -> real)
    requires DecayPositive(decay)
    ensures Accumulate(history, now, decay).weightSum == TotalWeight(history, now, decay)
    decreases |history|
  {
    if |history| > 0 {
      var prefix := history[..|history| - 1];
      var e := history[|history| - 1];
      assert history == prefix + [e];
      AccumulateWeightSum(prefix, now, decay);
      TotalWeightSnoc(prefix, e, now, decay);
    }
  }

  /** Numerator component `i` of the fold is the weight-times-component sum. */
  lemma {:induction false} AccumulateComponent(history: seq<ReadEvent>, i: nat, now: int, decay: real -> real)
    requires DecayPositive(decay)
    requires i < Dim
    ensures Accumulate(history, now, decay).weightedSum[i] == WeightedComponent(history, i, now, decay)
    decreases |history|
  {
    if |history| > 0 {
      var prefix := history[..|history| - 1];
      var e := history[|history| - 1];
      assert history == prefix + [e];
      var acc := Accumulate(prefix, now, decay);
      assert Accumulate(history, now, decay) == AddRead(acc, e, now, decay);
      AddReadComponent(acc, e, i, now, decay);
      AccumulateComponent(prefix, i, now, decay);
      WeightedComponentSnoc(prefix, e, i, now, decay);
    }
  }

  /** One loop iteration adds the read's weighted component, if it has an embedding. */
  lemma AddReadComponent(acc: Accumulator, e: ReadEvent, i: nat, now: int, decay: real -> real)
    requires DecayPositive(decay)
    requires |acc.weightedSum| == Dim && i < Dim
    ensures AddRead(acc, e, now, decay).weightedSum[i]
         == acc.weightedSum[i]
            + (if e.embedding.Some? then DecayedWeight(now, e.readTime, decay) * Component(e.embedding.value, i) else 0.0)
  {
  }

  /** The fold computes exactly the weighted sums: the denominator is the total
      weight of the reads that have an embedding, and each numerator component is
      the weight-times-component sum over those reads. */
  lemma AccumulateIsWeightedSum(history: seq<ReadEvent>, now: int, decay: real -> real)
    requires DecayPositive(decay)
    ensures Accumulate(history, now, decay).weightSum == TotalWeight(history, now, decay)
    ensures forall i | 0 <= i < Dim ::
      Accumulate(history, now, decay).weightedSum[i] == WeightedComponent(history, i, now, decay)
  {
    AccumulateWeightSum(history, now, decay);
    forall i | 0 <= i < Dim
      ensures Accumulate(history, now, decay).weightedSum[i] == WeightedComponent(history, i, now, decay)
    {
      AccumulateComponent(history, i, now, decay);
    }
  }

  /** The reads that have an embedding, in order. */
  function Embedded(history: seq<ReadEvent>): (r: seq<ReadEvent>)
    ensures forall e | e in r :: e in history && e.embedding.Some?
    ensures forall e | e in history && e.embedding.Some? :: e in r
    decreases |history|
  {
    if |history| == 0 then []
    else
      var prefix := Embedded(history[..|history| - 1]);
      var e := history[|history| - 1];
      assert forall x | x in history[..|history| - 1] :: x in history;
      assert forall x | x in history :: x in history[..|history| - 1] || x == e;
      if e.embedding.Some? then prefix + [e] else prefix
  }

  /** Reads without an embedding change neither sum: dropping them leaves the fold unchanged. */
  lemma {:induction false} ReadsWithoutEmbeddingIgnored(history: seq<ReadEvent>, now: int, decay: real -> real)
    requires DecayPositive(decay)
    ensures Accumulate(Embedded(history), now, decay) == Accumulate(history, now, decay)
    decreases |history|
  {
    if |history| > 0 {
      var prefix := history[..|history| - 1];
      var e := history[|history| - 1];
      ReadsWithoutEmbeddingIgnored(prefix, now, decay);
      if e.embedding.Some? {
        var p := Embedded(prefix);
        assert (p + [e])[..|p + [e]| - 1] == p;
      }
    }
  }

  /** The user profile: the weighted sums divided componentwise by the total weight.
      `None` when no read has an embedding, where the source divides 0 by 0. */
  function UserProfile(history: seq<ReadEvent>, now: int, decay: real -> real): (p: Option<Vector>)
    requires DecayPositive(decay)
    ensures p.Some? <==> exists j | 0 <= j < |history| :: history[j].embedding.Some?
    ensures p.Some? ==> |p.value| == Dim
  {
    var acc := Accumulate(history, now, decay);
    if acc.weightSum == 0.0 then None
    else Some(seq(Dim, i requires 0 <= i < Dim => acc.weightedSum[i] / acc.weightSum))
  }

  lemma QuotientOfScaled(sum: real, total: real, c: real)
    requires total != 0.0 && sum == total * c
    ensures sum / total == c
  {
  }

  lemma DistributeRight(a: real, b: real, c: real)
    ensures a * c + b * c == (a + b) * c
  {
  }

  /** When every read that has an embedding has the same embedding `v`, each
      reference numerator component is that component of `v` scaled by the total weight. */
  lemma {:induction false} UniformSum(history: seq<ReadEvent>, v: Vector, i: nat, now: int, decay: real -> real)
    requires forall j | 0 <= j < |history| && history[j].embedding.Some? :: history[j].embedding.value == v
    ensures WeightedComponent(history, i, now, decay) == TotalWeight(history, now, decay) * Component(v, i)
    decreases |history|
  {
    if |history| > 0 {
      var tail := history[1..];
      assert forall j | 0 <= j < |tail| :: tail[j] == history[j + 1];
      UniformSum(tail, v, i, now, decay);
      var c := Component(v, i);
      var w := ContributedWeight(history[0], now, decay);
      var s := TotalWeight(tail, now, decay);
      calc {
        WeightedComponent(history, i, now, decay);
        == { if history[0].embedding.Some? { assert history[0].embedding.value == v; } }
        w * c + WeightedComponent(tail, i, now, decay);
        == { DistributeRight(w, s, c); }
        (w + s) * c;
      }
    }
  }

  /** Each profile component is the reference numerator over the reference denominator. */
  lemma ProfileComponentIsRatio(history: seq<ReadEvent>, i: nat, now: int, decay: real -> real)
    requires DecayPositive(decay)
    requires i < Dim
    requires exists j | 0 <= j < |history| :: history[j].embedding.Some?
    ensures TotalWeight(history, now, decay) != 0.0
    ensures UserProfile(history, now, decay).Some?
    ensures UserProfile(history, now, decay).value[i]
         == WeightedComponent(history, i, now, decay) / TotalWeight(history, now, decay)
  {
    AccumulateWeightSum(history, now, decay);
    AccumulateComponent(history, i, now, decay);
  }

  /** With a uniform embedding `v`, the reference ratio is the component of `v`. */
  lemma UniformRatio(history: seq<ReadEvent>, v: Vector, i: nat, now: int, decay: real -> real)
    requires TotalWeight(history, now, decay) != 0.0
    requires forall j | 0 <= j < |history| && history[j].embedding.Some? :: history[j].embedding.value == v
    ensures WeightedComponent(history, i, now, decay) / TotalWeight(history, now, decay) == Component(v, i)
  {
    UniformSum(history, v, i, now, decay);
    QuotientOfScaled(WeightedComponent(history, i, now, decay), TotalWeight(history, now, decay), Component(v, i));
  }

  lemma UniformProfileComponent(history: seq<ReadEvent>, v: Vector, i: nat, now: int, decay: real -> real)
    requires DecayPositive(decay)
    requires i < Dim
    requires exists j | 0 <= j < |history| :: history[j].embedding.Some?
    requires forall j | 0 <= j < |history| && history[j].embedding.Some? :: history[j].embedding.value == v
    ensures UserProfile(history, now, decay).Some?
    ensures UserProfile(history, now, decay).value[i] == Component(v, i)
  {
    ProfileComponentIsRatio(history, i, now, decay);
    UniformRatio(history, v, i, now, decay);
  }

  /** The profile is an average: if all embedded reads share the embedding `v`,
      the profile is `v` (padded or cut to Dim components), however the reads are weighted. */
  lemma UniformHistoryProfile(history: seq<ReadEvent>, v: Vector, now: int, decay: real -> real)
    requires DecayPositive(decay)
    requires exists j | 0 <= j < |history| :: history[j].embedding.Some?
    requires forall j | 0 <= j < |history| && history[j].embedding.Some? :: history[j].embedding.value == v
    ensures UserProfile(history, now, decay) == Some(seq(Dim, i requires 0 <= i < Dim => Component(v, i)))
  {
    var p := UserProfile(history, now, decay).value;
    var q := seq(Dim, i requires 0 <= i < Dim => Component(v, i));
    forall i | 0 <= i < Dim
      ensures p[i] == q[i]
    {
      UniformProfileComponent(history, v, i, now, decay);
    }
    assert p == q;
  }
}
