# stellar-spire core, modelled in Dafny

This project models the pure logic of the stellar-spire story platform and
proves properties about it.

- **Story recommender.** The core is `getRecommendedStories`. It folds a
  reader's history into a time-decayed profile vector. It then scores every
  unread story that has an embedding by similarity and popularity. It sorts
  the scores and cuts them to `k`. Finally the greedy `addDiversity` re-ranker
  runs, and the result is returned as a set of story ids.
- **Smaller pure pieces:**
  - the toxicity verdict computed from a classifier's labelled scores;
  - the reading-time estimate;
  - the reader's font-size buttons, chapter navigation and paragraph split;
  - the story generator's file-name sanitiser, unique-name loop and file text;
  - the test fixtures' username, name, e-mail and image content type;
  - the database seed's permission matrix, roles, user images and story counts;
  - the database client's query-log colours and likes total.

Modules follow the source files:

| module | file |
|---|---|
| `Profile` | `profile.dfy` |
| `Scoring` | `scoring.dfy` |
| `Diversity` | `diversity.dfy` |
| `Recommender` | `recommender.dfy` |
| `Toxicity` | `toxicity.dfy` |
| `ReadingTime` | `reading_time.dfy` |
| `StoryReader` | `story_reader.dfy` |
| `StoryGenerator` | `story_generator.dfy` |
| `Fixtures` | `fixtures.dfy` |
| `Seed` | `seed.dfy` |
| `Db` | `db.dfy` |

`Wrappers` (`Option`, `Result`) and `Strings` (join, split, search, decimal
printing) are shared helpers.

## Modelling decisions

- **Database reads become inputs.** The recommender receives these as values:
  - the read history;
  - the list of stories;
  - the clock (`now`, in milliseconds);
  - a read-count function standing for `getStoryPopularity`'s count query.
- **Floating point is modelled as exact `real` arithmetic.** Two functions are
  parameters rather than implementations:
  - `exp(-days/30)` is a `decay` parameter. It must be positive, equal to 1 at
    age 0, and strictly decreasing (`Profile.ValidDecay`).
  - Cosine similarity is a `Similarity` parameter that may return nothing
    (`null` in the source).
- **Constants that are exact as doubles.** These constants compare the same
  way over doubles as over rationals, so the exact model keeps the source's
  branches:
  - the reading-time constants (250, 1.1, 0.9, 0.05);
  - the log bands (20 × 1.1 … 20 × 1.4 = 22, 24, 26, 28);
  - the toxicity thresholds (0.3, 0.5).
- **Strings are `seq<char>`.**
  - Lower-casing is ASCII lower-casing.
  - JavaScript's `\s` and `trim` are modelled by the JavaScript whitespace set,
    tested by code point.

## Behaviour of the code worth knowing

- **The re-ranker maximises similarity.** Despite the name `maxMinDistance`,
  `addDiversity` keeps the candidate most similar to those already chosen:
  each round it adds the first unselected candidate whose minimum similarity
  to the chosen ones is strictly largest and strictly above 0.
  `Diversity.NearDuplicatePreferred` proves that with a top story A, a
  near-duplicate B and an unrelated C, it picks B, not C.
- **No fallback for readers without embedded reads.** With no read that has
  an embedding (an empty history included), `weightSum` is 0 and every profile
  component is 0 / 0, that is NaN. Every combined score is then NaN, the
  comparator `b[1] - a[1]` returns NaN for every pair, and the sort reads that
  as a tie. The stable sort therefore keeps the map's insertion order, `slice`
  keeps the first k entries, and `addDiversity`, which never reads scores,
  runs as usual. The model gives every candidate the same score 0 in this
  case (`Recommender.TiedCandidates`). `Recommender.NoProfileKeepsListOrder`
  proves that such a reader gets the first eligible story of the list.
- **No empty result for zero candidates.** With no eligible candidate, or
  `k <= 0`, `addDiversity`'s invariant throws, rather than returning an empty
  list. This is `Err(Diversity(...))`.
- **The re-ranked order is lost.** The final `findMany … in` does not keep it,
  so the result is a set of ids.
- **Fewer than `k` results.** The re-ranker can return fewer than `k` even when
  more candidates exist (`Diversity.NonPositiveNeverAdded`).
- **Seeding can lose users.** A failed user create is caught and skipped, so the
  five generated users own between 0 and 15 stories, and 5 to 15 only when
  every create succeeds.

## Model

| member | source | states |
|---|---|---|
| Profile.Weight | app/utils/story-recommender.server.ts:64-67 | a read's decay weight is positive, 1 for a read at the current instant and below 1 for an older read |
| Profile.MoreRecentWeighsMore | app/utils/story-recommender.server.ts:64-67 | a more recent read weighs strictly more than an older one |
| Profile.Accumulate | app/utils/story-recommender.server.ts:60-77 | the fold keeps 1024 components; its weight total is non-negative and is 0 exactly when no read has an embedding |
| Profile.AccumulateIsWeightedSum | app/utils/story-recommender.server.ts:60-77 | the fold's totals are the sums of the decay weights, and of weight times embedding component (0 for a missing component), over the reads with an embedding |
| Profile.ReadsWithoutEmbeddingIgnored | app/utils/story-recommender.server.ts:68-76 | dropping the reads without an embedding leaves the fold unchanged |
| Profile.UserProfile | app/utils/story-recommender.server.ts:79 | a profile exists exactly when some read has an embedding, and then has 1024 components |
| Profile.ProfileComponentIsRatio | app/utils/story-recommender.server.ts:59-79 | when some read has an embedding, the weight total is not 0 and each profile component is the weighted component sum divided by it |
| Profile.UniformHistoryProfile | app/utils/story-recommender.server.ts:59-79 | if every embedded read has the same embedding, the profile is that embedding, whatever the weights |
| Scoring.Popularity | app/utils/story-recommender.server.ts:41-46 | popularity is the read count over 100, non-negative, and at most 1 exactly up to 100 reads |
| Scoring.CombinedScore | app/utils/story-recommender.server.ts:92 | with similarity in [-1,1] and popularity in [0,1] the score is in [-0.7,1]; with similarity 0 it is 0.3 times the popularity |
| Scoring.CombinedScoreMonotone | app/utils/story-recommender.server.ts:92 | the score never decreases when similarity or popularity grows, and grows strictly with similarity |
| Scoring.MapSet | app/utils/story-recommender.server.ts:93 | `Map.set` adds the key, keeps keys unique, and keeps every other entry |
| Scoring.MapSetPlace | app/utils/story-recommender.server.ts:93 | `Map.set` replaces the first entry with the key in place, or appends the entry when the key is new |
| Scoring.ScoreCandidates | app/utils/story-recommender.server.ts:83-95 | exactly the ids of unread stories with an embedding get one entry each, scored from one such story |
| Scoring.FirstEligibleLeads | app/utils/story-recommender.server.ts:83-95 | the map's first entry is the first eligible story of the list, whatever the scores |
| Scoring.SortByScore | app/utils/story-recommender.server.ts:97-98 | the result is sorted by non-increasing score and is a permutation of its input |
| Scoring.SortByScoreStable | app/utils/story-recommender.server.ts:97-98 | the sort is stable: the entries with any one score keep their relative order |
| Scoring.TiesKeepOrder | app/utils/story-recommender.server.ts:97-98 | when every score ties, the sort leaves the list unchanged |
| Scoring.TopK | app/utils/story-recommender.server.ts:97-99 | the top list is sorted, has min(k, n) entries, is a sub-multiset of the candidates, and no dropped candidate outscores a kept one |
| Diversity.FindStory | app/utils/story-recommender.server.ts:135 | the story lookup finds a story with the id exactly when one exists |
| Diversity.MinSimilarity | app/utils/story-recommender.server.ts:142-149 | the value is the least similarity between the candidate and any chosen story |
| Diversity.RoundValues | app/utils/story-recommender.server.ts:140-149 | a candidate gets a value exactly when its id is not yet chosen |
| Diversity.Scan | app/utils/story-recommender.server.ts:138-155 | the scan returns the first strictly largest value above 0, or nothing when no value is above 0 |
| Diversity.PickNext | app/utils/story-recommender.server.ts:137-155 | a pick is a not-yet-chosen candidate with the first strictly largest minimum similarity above 0 |
| Diversity.Round | app/utils/story-recommender.server.ts:137-158 | a round appends one not-yet-chosen candidate, or nothing exactly when no candidate's value is above 0, and keeps ids unique |
| Diversity.Rounds | app/utils/story-recommender.server.ts:137-159 | n rounds add at most n candidates, keep the chosen prefix, take only candidates, and keep ids unique |
| Diversity.AddDiversity | app/utils/story-recommender.server.ts:117-161 | errors are exactly the empty list and k <= 0; otherwise the result starts with the top candidate and has 1..k distinct candidates |
| Diversity.Diversify | app/utils/story-recommender.server.ts:132-160 | the loop starts from the top candidate and ends with 1..k distinct candidates, all taken from the recommendations |
| Diversity.StuckStaysStuck | app/utils/story-recommender.server.ts:137-159 | once a round adds nothing, every later round adds nothing |
| Diversity.NonPositiveNeverAdded | app/utils/story-recommender.server.ts:150-153 | if no candidate is positively similar to the top one, the result is the top candidate alone, whatever k is |
| Diversity.NearDuplicatePreferred | app/utils/story-recommender.server.ts:142-158 | on a three-story example the re-ranker adds the near-duplicate, not the unrelated story |
| Recommender.GetRecommendedStories | app/utils/story-recommender.server.ts:48-115 | fails exactly for an empty user id, k <= 0 or no eligible story, and a reader without embedded reads does not fail; success gives 1..k ids of eligible, unread stories |
| Recommender.TiedCandidates | app/utils/story-recommender.server.ts:79-95 | without a profile every candidate gets the same score, one entry per eligible id |
| Recommender.Candidates | app/utils/story-recommender.server.ts:79-95 | with or without a profile, the score map has one entry per eligible id |
| Recommender.TopKHeadIsMaximal | app/utils/story-recommender.server.ts:97-99 | the first entry of a non-empty top-k list scores at least as high as every candidate |
| Recommender.TopCandidateRecommended | app/utils/story-recommender.server.ts:97-114 | a best-scored candidate is always among the recommended ids |
| Recommender.NoProfileKeepsListOrder | app/utils/story-recommender.server.ts:59-114 | a reader without embedded reads gets the first eligible story of the list, and otherwise only stories among the first k eligible ones |
| Toxicity.Threshold | app/utils/toxicity-filter.server.ts:20-27 | exactly the six categories have a threshold |
| Toxicity.ReadScoresIsLastScore | app/utils/toxicity-filter.server.ts:53-66 | the score map holds the six categories and the reported labels; each value is the last score reported under that lower-cased label, or 0 |
| Toxicity.Flags | app/utils/toxicity-filter.server.ts:69-71 | a label is flagged exactly when it is a category whose score is strictly above its threshold; flags come in category order |
| Toxicity.AnalyzeContent | app/utils/toxicity-filter.server.ts:53-74 | flags are the categories whose last reported score is strictly above the threshold, and the content is acceptable exactly when every category is at or below its threshold |
| Toxicity.FlagsMonotone | app/utils/toxicity-filter.server.ts:69-74 | raising scores only adds flags, so it never turns unacceptable content acceptable |
| Toxicity.MissingCategoryNeverFlagged | app/utils/toxicity-filter.server.ts:53-60 | an unreported category keeps score 0 and is not flagged |
| Toxicity.ExtraLabelNeverFlagged | app/utils/toxicity-filter.server.ts:65-71 | a label outside the categories is stored but never flagged |
| Toxicity.ThresholdIsStrict | app/utils/toxicity-filter.server.ts:70-74 | scores equal to their thresholds are acceptable, and labels match regardless of case |
| Toxicity.SevereThresholdFlags | app/utils/toxicity-filter.server.ts:20-27 | a threat score of 0.31 flags exactly "threat" |
| ReadingTime.Trim | app/utils/readingTimeEstimate.ts:28 | the trimmed text is the text with white space cut off both ends: it is empty exactly for all-whitespace text, otherwise starts and ends with a non-space, and has the same words |
| ReadingTime.SplitWsCount | app/utils/readingTimeEstimate.ts:28 | splitting on whitespace runs gives one more piece than there are whitespace runs |
| ReadingTime.CountWords | app/utils/readingTimeEstimate.ts:27-29 | the word count is at least 1, so the dialogue ratio never divides by zero |
| ReadingTime.CountWordsIsWords | app/utils/readingTimeEstimate.ts:27-29 | the word count is the number of maximal non-whitespace runs, or 1 for blank text |
| ReadingTime.QuoteCount | app/utils/readingTimeEstimate.ts:33 | only straight double quotes are counted, all of them |
| ReadingTime.DialogueIffQuotesOverTwentieth | app/utils/readingTimeEstimate.ts:33-35 | text counts as dialogue exactly when more than one in twenty words is a quote |
| ReadingTime.MinutesFor | app/utils/readingTimeEstimate.ts:15-24 | the minutes are the integer floor of 11w/2500 for dialogue and 9w/2500 otherwise |
| ReadingTime.Estimate | app/utils/readingTimeEstimate.ts:15-24 | the estimate is never negative |
| ReadingTime.ShortTextsTakeNoMinutes | app/utils/readingTimeEstimate.ts:15-24 | text of at most 227 words takes 0 minutes |
| ReadingTime.DialogueCrossesFirstMinute | app/utils/readingTimeEstimate.ts:31-40 | at 228 words, one quote more or less decides between 1 and 0 minutes |
| ReadingTime.MinutesMonotone | app/utils/readingTimeEstimate.ts:15-24 | with the same dialogue verdict, more words never take fewer minutes |
| StoryReader.Smaller | app/components/story-reader.tsx:50 | A- goes down by 2 and stops at 12, so a valid size stays valid |
| StoryReader.Larger | app/components/story-reader.tsx:53 | A+ goes up by 2 and stops at 24, so a valid size stays valid |
| StoryReader.FontSizeStaysValid | app/components/story-reader.tsx:17 | from 16, any sequence of presses leaves an even size in [12, 24] |
| StoryReader.RoundTrips | app/components/story-reader.tsx:50-53 | A+ then A- restores sizes up to 22, and A- then A+ restores sizes from 14 |
| StoryReader.ReachableIffValid | app/components/story-reader.tsx:17-53 | a size is reachable by some presses exactly when it is even and in [12, 24] |
| StoryReader.Paragraphs | app/components/story-reader.tsx:69 | there is at least one paragraph, none contains a blank line, and rejoining them gives the content back |
| StoryReader.ParagraphsOfJoin | app/components/story-reader.tsx:69 | splitting paragraphs joined by blank lines gives the paragraphs back |
| Strings.JoinSplit | app/components/story-reader.tsx:69 | joining the pieces of a split with the separator gives the string back |
| Strings.SplitJoin | app/components/story-reader.tsx:69 | splitting a join gives the parts back when no part creates a separator |
| StoryGenerator.CleanAppend | prisma/stories/ollama-story-generator.py:8-10 | deleting characters and replacing spaces works character by character |
| StoryGenerator.Sanitize | prisma/stories/ollama-story-generator.py:6-12 | the name has at most 255 characters, no forbidden character and no space, and is the first 255 characters of the cleaned name |
| StoryGenerator.SanitizeIdempotent | prisma/stories/ollama-story-generator.py:6-12 | sanitising twice is sanitising once |
| StoryGenerator.LineBreaksKept | prisma/stories/ollama-story-generator.py:8-10 | a newline survives, a space becomes `_` and `?` is dropped |
| StoryGenerator.CandidateInjective | prisma/stories/ollama-story-generator.py:71-76 | different attempts try different names |
| StoryGenerator.TriedCount | prisma/stories/ollama-story-generator.py:70-77 | the first n attempts try n different names, so the loop ends |
| StoryGenerator.UniqueFilename | prisma/stories/ollama-story-generator.py:70-77 | the chosen name is not taken, and every earlier candidate was |
| StoryGenerator.FilenameCanExceedLimit | prisma/stories/ollama-story-generator.py:11-12 | for a long title the full file name is longer than 255 characters |
| StoryGenerator.ChapterTextInjective | prisma/stories/ollama-story-generator.py:56 | a chapter's text determines its number and its content |
| StoryGenerator.ChaptersInjective | prisma/stories/ollama-story-generator.py:49-56 | the numbered chapter texts give the chapter contents back |
| StoryGenerator.FileText | prisma/stories/ollama-story-generator.py:81-82 | the file starts with the title and a blank line |
| StoryGenerator.FileTextGrows | prisma/stories/ollama-story-generator.py:81-82 | one more chapter appends a blank line and that chapter's text |
| Fixtures.NormalizeChar | tests/db-utils.ts:25-26 | username characters are kept, upper-case letters are lowered, and anything else becomes `_` |
| Fixtures.Username | tests/db-utils.ts:13-26 | the username has at most 20 characters from `[a-z0-9_]`, each the normalised character of the raw name |
| Fixtures.UsernameFixedIff | tests/db-utils.ts:24-26 | normalisation changes nothing exactly when the raw name is already a valid username |
| Fixtures.UsernameIdempotent | tests/db-utils.ts:24-26 | normalising twice is normalising once |
| Fixtures.UsernameNotInjective | tests/db-utils.ts:13-26 | distinct raw names can give the same username |
| Fixtures.FullNameRecoverable | tests/db-utils.ts:29 | a first name without spaces, and the last name, can be read back from the full name |
| Fixtures.EmailLocalPart | tests/db-utils.ts:30 | the e-mail's first `@` follows the username |
| Fixtures.CreateUser | tests/db-utils.ts:9-32 | the created user has a valid username, an e-mail whose local part is the username, and a name whose first space ends the first name |
| Fixtures.PngExactlyForPngNames | tests/db-utils.ts:113 | a path is typed PNG exactly when it is a name followed by `.png`, and JPEG otherwise |
| Fixtures.FixtureContentTypes | tests/db-utils.ts:113 | fixture PNG paths are PNG, JPEG paths JPEG, and `.PNG` counts as JPEG |
| Seed.PermissionsInOrder | prisma/seed.ts:23-34 | there are 32 permissions, in entity, then action, then access order |
| Seed.EachTripleOnce | prisma/seed.ts:27-34 | every (entity, action, access) triple occurs exactly once |
| Seed.RolesPartitionPermissions | prisma/seed.ts:39-60 | admin gets exactly the `any` permissions and user exactly the `own` ones, for every permission there is |
| Seed.RoleSizes | prisma/seed.ts:39-60 | each role has 16 permissions |
| Seed.ImageIndex | prisma/seed.ts:75 | an image index exists exactly when there are images, and is in bounds |
| Seed.UserStories | prisma/seed.ts:77-89 | a generated user gets exactly the drawn number of stories, of one chapter each |
| Seed.StoryTotals | prisma/seed.ts:67-97 | the seeded stories number the sum of the drawn counts of the created users, between 1 and 3 per created user, none for a failed create, of one chapter each |
| Seed.SeededStoryCount | prisma/seed.ts:63-97 | the five generated users own at most 15 stories, and at least 5 when every create succeeds |
| Db.LogColor | app/utils/db.server.ts:10-30 | queries under 20 ms are not logged; the others are coloured by the bands 22, 24, 26 and 28 |
| Db.RankCountsLimits | app/utils/db.server.ts:21-30 | a colour's rank is the number of band limits reached |
| Db.ColorMonotone | app/utils/db.server.ts:20-30 | a slower query is logged whenever a faster one is, never in an earlier band |
| Db.LikesCountAppend | app/utils/db.server.ts:77 | the likes fold adds up over two runs of chapters |
| Db.LikesCountIsAllLikes | app/utils/db.server.ts:71-82 | the likes total is the number of likes over all chapters, 0 without chapters |

## Left out

- Database access, in every module: Prisma queries, writes, `createMany`, the final `findMany` hydration, `recordUserRead` and `updateStoryEmbedding`. Their data is passed in as values.
- The embedding model and the toxic-bert classifier, with its lazy initialisation and error re-wrapping. Their outputs are inputs.
- Real `exp` and cosine similarity: these are floating-point functions, so they are parameters with the stated sign and monotonicity facts.
- Floating-point rounding elsewhere: values are exact reals. The constants used compare the same way as doubles.
- Profile.UserProfile: returns `None` where JavaScript computes a profile of NaN, because NaN arithmetic is not modelled. The recommender gives every candidate the same score in that case, which the sort treats as JavaScript treats NaN.
- Recommender.GetRecommendedStories: returns a set of ids, not `Story` rows in database order, because the order of the hydration query is not specified.
- Recommender.GetRecommendedStories: `k` is a required integer. The source's default of 10 is left to the caller, and a non-integer `k` (which `slice` would truncate) is not modelled.
- Recommender.TiedCandidates: assumes that cosine similarity against the all-NaN profile is NaN for every story, as the library's dot product over norms gives, rather than `null`.
- Toxicity: a label named like an object prototype key (`__proto__`), and the property order JavaScript gives integer-like keys, are not modelled. Labels are plain map keys and flags are listed in category order.
- Fixtures.Username: lower-casing is ASCII only. Non-ASCII letters (whose lower-case form JavaScript computes, sometimes changing the length) become `_` in the model, and the text is taken as code points rather than UTF-16 units.
- The faker random draws and `UniqueEnforcer`: the raw name, first and last names, the story counts and which user creates fail are inputs.
- `createPassword`, `cleanupDb`, the `kody` admin user and the image file reads of the seed and fixtures.
- Scroll progress and dark mode in the reader: DOM events and float division.
- The `$extends` query hooks of the database client: they only call the likes recount, which is modelled as `Db.LikesCount`.
- `generate_text` and the interactive `main` of the story generator: HTTP calls and console input. The chapter contents and title are inputs, and a `None` content (printed as `None`) is not modelled.
- StoryGenerator.UniqueFilename: the set of existing files is a parameter standing for `os.path.exists`.
