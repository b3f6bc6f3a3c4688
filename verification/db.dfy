/** The pure parts of the database client module: the colour a slow query is
    logged in, and the likes total a story is given from its chapters. The
    Prisma client, its event wiring and the query hooks are not modelled. */
module Db {
  import opened Wrappers

  /** Queries faster than this many milliseconds are not logged. */
  const LogThreshold: real := 20.0

  datatype Color = Green | Blue | Yellow | RedBright | Red

  /** The band order, fastest first. */
  function Rank(c: Color): nat {
    match c
    case Green => 0
    case Blue => 1
    case Yellow => 2
    case RedBright => 3
    case Red => 4
  }

  /** The colour of a query of `duration` milliseconds, or nothing when it is
      not logged. The band limits 20 * 1.1, 20 * 1.2, 20 * 1.3 and 20 * 1.4 are
      exactly 22, 24, 26 and 28 in double precision too. */
  function LogColor(duration: real): (c: Option<Color>)
    ensures c.None? <==> duration < 20.0
    ensures c == Some(Green) <==> 20.0 <= duration < 22.0
    ensures c == Some(Blue) <==> 22.0 <= duration < 24.0
    ensures c == Some(Yellow) <==> 24.0 <= duration < 26.0
    ensures c == Some(RedBright) <==> 26.0 <= duration < 28.0
    ensures c == Some(Red) <==> 28.0 <= duration
  {
    if duration < LogThreshold then None
    else if duration < LogThreshold * 1.1 then Some(Green)
    else if duration < LogThreshold * 1.2 then Some(Blue)
    else if duration < LogThreshold * 1.3 then Some(Yellow)
    else if duration < LogThreshold * 1.4 then Some(RedBright)
    else Some(Red)
  }

  /** The band limits a logged duration has reached, counted one by one. */
  function LimitsReached(duration: real, limits: seq<real>): nat
    decreases |limits|
  {
    if |limits| == 0 then 0
    else (if limits[0] <= duration then 1 else 0) + LimitsReached(duration, limits[1..])
  }

  const BandLimits: seq<real> := [22.0, 24.0, 26.0, 28.0]

  /** The colour's rank is the number of band limits the duration has reached. */
  lemma RankCountsLimits(duration: real)
    requires duration >= LogThreshold
    ensures LogColor(duration).Some?
    ensures Rank(LogColor(duration).value) == LimitsReached(duration, BandLimits)
  {
    var l := BandLimits;
    assert l[1..] == [24.0, 26.0, 28.0];
    assert l[1..][1..] == [26.0, 28.0];
    assert l[1..][1..][1..] == [28.0];
    assert l[1..][1..][1..][1..] == [];
  }

  /** A slower query is logged whenever a faster one is, never in an earlier band. */
  lemma ColorMonotone(d1: real, d2: real)
    requires d1 <= d2
    ensures LogColor(d1).Some? ==> LogColor(d2).Some?
    ensures LogColor(d1).Some? ==> Rank(LogColor(d1).value) <= Rank(LogColor(d2).value)
  {
  }

  // ---------------------------------------------------------------------------
  // Likes
  // ---------------------------------------------------------------------------

  datatype Like = Like(userId: string)
  datatype ChapterLikes = ChapterLikes(likes: seq<Like>)

  /** `chapters.reduce((sum, chapter) => sum + chapter.likes.length, 0)`:
      a left fold over the chapters. */
  function LikesCount(chapters: seq<ChapterLikes>): nat
    decreases |chapters|
  {
    if |chapters| == 0 then 0
    else LikesCount(chapters[..|chapters| - 1]) + |chapters[|chapters| - 1].likes|
  }

  /** The likes of all chapters, laid end to end. */
  function AllLikes(chapters: seq<ChapterLikes>): seq<Like>
    decreases |chapters|
  {
    if |chapters| == 0 then [] else chapters[0].likes + AllLikes(chapters[1..])
  }

  /** The fold adds up chapter by chapter: over two runs of chapters it is the
      sum of the two counts. */
  lemma {:induction false} LikesCountAppend(a: seq<ChapterLikes>, b: seq<ChapterLikes>)
    ensures LikesCount(a + b) == LikesCount(a) + LikesCount(b)
    decreases |b|
  {
    if |b| == 0 {
      assert a + b == a;
    } else {
      var b' := b[..|b| - 1];
      assert (a + b)[..|a + b| - 1] == a + b';
      LikesCountAppend(a, b');
    }
  }

  /** The total is the number of likes over all chapters, and 0 for a story
      without chapters. */
  lemma {:induction false} LikesCountIsAllLikes(chapters: seq<ChapterLikes>)
    ensures LikesCount(chapters) == |AllLikes(chapters)|
    decreases |chapters|
  {
    if |chapters| > 0 {
      LikesCountIsAllLikes(chapters[1..]);
      assert chapters == [chapters[0]] + chapters[1..];
      LikesCountAppend([chapters[0]], chapters[1..]);
      assert [chapters[0]][..0] == [];
    }
  }
}
