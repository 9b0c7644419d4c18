# map_my_world: exploration recommendations, modelled in Dafny

map_my_world is a FastAPI service over MongoDB. It stores locations, categories and
reviews of (location, category) pairs. It recommends pairs that nobody has looked at
in the last 30 days. This project models the two pieces that make those
recommendations and proves what they promise.

- **The combination selector** (`get_unreviewed_combinations`, module `Recommender`,
  `recommender.dfy`). It walks every location (outer loop) and every category (inner
  loop) and looks up the review of each pair. It collects the pair when there is no
  review, or when the review is dated strictly before "now minus 30 days". It returns
  as soon as it holds ten pairs.
  - The method `GetUnreviewedCombinations` keeps the two nested loops.
  - It is proved equal to the specification function `Unreviewed`. That function is a
    left-to-right scan (`Scan`) over the enumeration L×C (`Pairs`).
  - `Unreviewed` is in turn related to an uncapped reference filter (`Emitted`).
- **The exploration router** (module `ExplorationRouter`, `exploration_router.dfy`).
  - GET `exploration_recommendations` returns the never-reviewed reviews, then the
    stale ones, at most ten.
  - PATCH `update_review` parses a review id, finds the review, stamps
    `last_reviewed` with the current time and writes the review back.
  - The review collection is a class, `ReviewCollection`, whose `records` the PATCH
    handler updates. A null reference stands for "no database connection".
  - Each handler is proved against a pure function: `Recommend` for GET and
    `Refresh` for PATCH. Lemmas state what those functions promise.
- **Support modules.**
  - `Wrappers` (`wrappers.dfy`) holds `Option`, `Min`, and `Prefix` (Python's `s[:n]`).
  - `Freshness` (`freshness.dfy`) holds timestamps as integer microseconds and the
    30-day window. "Stale" means strictly before `now - 30 days`.
  - `ObjectIds` (`object_ids.dfy`) models BSON ids: 12 bytes, parsed from a text of
    24 hex digits of either case, printed as lower-case hex. The source also accepts
    24-character texts with whitespace between digit pairs; see "Left out".

The clock (`datetime.now`) is an integer parameter `now`. Contents of the database
are parameters or fields. A failure that a handler catches and turns into a 500 is
an `Option<string>` parameter carrying the exception's text.

In the selector, a review that exists but has a null or missing `last_reviewed` makes
the comparison on `app/utils/recommender.py:16` raise. The whole call then fails. The
model returns `Undated(pair)` in that case, and only when the loop reaches that pair
before it has ten results.

The selector's reviews are a map from pair to review, so each lookup returns at most
one review. `app/models.py:49-60` describes a review as holding `location_id` and
`category_id`, and the map is keyed on those two ids.

## Model

| member | source | states |
|---|---|---|
| Freshness.IsStale | app/utils/recommender.py:8-16 | a date is stale exactly when more than 30 days lie between it and now |
| Freshness.StaleLater | app/utils/recommender.py:8-16 | an older date or a later clock keeps a stale review stale |
| Recommender.Judge | app/utils/recommender.py:16 | a pair is skipped exactly when its review has a date that is not stale |
| Recommender.JudgeEmits | app/utils/recommender.py:15-17 | a pair is collected exactly when it has no review or its review is dated strictly before now minus 30 days; the call aborts exactly when its review exists with no date |
| Recommender.Pairs | app/utils/recommender.py:13-14 | the enumeration of L×C has \|L\|·\|C\| pairs |
| Recommender.PairsAt | app/utils/recommender.py:13-15 | iteration (i, j) of the nested loops looks up pair (locations[i], categories[j]), at position i·\|C\|+j of the enumeration |
| Recommender.PairsMember | app/utils/recommender.py:13-15 | every enumerated pair is made of an input location and an input category |
| Recommender.Scan | app/utils/recommender.py:13-22 | a successful scan never holds more than ten pairs |
| Recommender.Emitted | app/utils/recommender.py:16-17 | the reference filter keeps at most as many pairs as it scans |
| Recommender.EmittedMembers | app/utils/recommender.py:16-17 | a pair is in the reference filter exactly when it was scanned and qualifies |
| Recommender.EmittedPrefix | app/utils/recommender.py:17 | appending keeps the earlier qualifying pairs as a prefix of later ones |
| Recommender.ScanSelected | app/utils/recommender.py:13-22 | when the call does not abort, it returns the first min(10, n) of the n qualifying pairs, in loop order |
| Recommender.ScanSelectedNoRaise | app/utils/recommender.py:16 | when the call does not abort, no pair it reached had an undated review |
| Recommender.ScanUndated | app/utils/recommender.py:16 | when the call aborts, the reported pair is the first undated one and the loop reached it |
| Recommender.ScanUndatedIff | app/utils/recommender.py:16-20 | the call aborts exactly when some pair the loop reaches has an undated review |
| Recommender.ScanAfterStop | app/utils/recommender.py:19-20 | once the call has returned, the remaining pairs change nothing |
| Recommender.NotStoppedBefore | app/utils/recommender.py:19-20 | if the loop is still running after m pairs, it was running after every earlier count |
| Recommender.StopsHere | app/utils/recommender.py:19-20 | the early return at pair m yields the overall result |
| Recommender.SubsequenceExtend | app/utils/recommender.py:17 | appending to the scanned sequence keeps a selection a subsequence |
| Recommender.SubsequencePrefix | app/utils/recommender.py:17 | a prefix of a subsequence is a subsequence |
| Recommender.EmittedSubsequence | app/utils/recommender.py:13-17 | the qualifying pairs keep the loop's order |
| Recommender.SelectedIsSubsequence | app/utils/recommender.py:13-22 | the result is an order-preserving selection from L×C |
| Recommender.SelectedPairsQualify | app/utils/recommender.py:15-17 | every returned pair has an input location and category, and no review or a review older than the threshold |
| Recommender.FreshReviewSuppresses | app/utils/recommender.py:16 | a pair reviewed at or after the threshold is never returned |
| Recommender.QualifyingPairSelected | app/utils/recommender.py:16-20 | a qualifying pair that the loop reaches is always returned |
| Recommender.EmittedWithoutReviews | app/utils/recommender.py:16 | with no reviews every scanned pair qualifies |
| Recommender.NoReviewsSelectsLeadingPairs | app/utils/recommender.py:13-22 | with no reviews the result is the first min(10, \|L\|·\|C\|) pairs of L×C |
| Recommender.EmptyInputsSelectNothing | app/utils/recommender.py:7-22 | no locations or no categories give an empty result |
| Recommender.TwoByTwoWithoutReviews | app/utils/recommender.py:13-22 | 2 locations × 2 categories with no reviews give all 4 pairs |
| Recommender.ThreeByFiveWithoutReviews | app/utils/recommender.py:19-20 | 3 × 5 with no reviews stop after the first ten pairs: all pairs of the first two locations |
| Recommender.Unreviewed | app/utils/recommender.py:6-22 | the call's result: the first ten qualifying pairs of L×C when it does not abort, and it aborts exactly when a pair the loop reaches has a review without a date |
| Recommender.GetUnreviewedCombinations | app/utils/recommender.py:6-22 | the nested loops return what the scan specifies; they stop right after the lookup that completes the result and never look further |
| ObjectIds.DigitValue | app/routes/exploration_recommender_router.py:53 | a hex digit of either case has a value below 16 |
| ObjectIds.LowerDigit | app/routes/exploration_recommender_router.py:53 | the lower-case digit of a value decodes back to that value |
| ObjectIds.DecodeHex | app/routes/exploration_recommender_router.py:53 | 2n hex digits decode to n bytes |
| ObjectIds.EncodeHex | app/routes/exploration_recommender_router.py:53 | n bytes print as 2n lower-case hex digits |
| ObjectIds.DecodeEncode | app/routes/exploration_recommender_router.py:53 | decoding the hex text of some bytes gives those bytes |
| ObjectIds.EncodeDecode | app/routes/exploration_recommender_router.py:53 | printing the bytes of a lower-case hex text gives that text |
| ObjectIds.DecodeLower | app/routes/exploration_recommender_router.py:53 | upper- and lower-case hex decode to the same bytes |
| ObjectIds.Parse | app/routes/exploration_recommender_router.py:52-55 | a text is a valid id exactly when it is 24 hex digits |
| ObjectIds.InvalidIdMessage | app/routes/exploration_recommender_router.py:53-55 | the 422 detail starts with the rejected text in single quotes |
| ObjectIds.Text | app/routes/exploration_recommender_router.py:53 | the text of an id is 24 characters |
| ObjectIds.ParseText | app/routes/exploration_recommender_router.py:52-55 | the text of every id parses back to that id |
| ObjectIds.TextOfParse | app/routes/exploration_recommender_router.py:52-55 | a valid id text names the id whose text is its lower-case form |
| Wrappers.Prefix | app/routes/exploration_recommender_router.py:32 | `s[:n]` keeps the first min(n, \|s\|) elements unchanged, and all of `s` when it has at most n |
| ExplorationRouter.Recommendable | app/routes/exploration_recommender_router.py:21-24 | a review is recommendable exactly when one of the two queries returns it |
| ExplorationRouter.NeverReviewed | app/routes/exploration_recommender_router.py:23 | the first query returns exactly the reviews with no date |
| ExplorationRouter.ReviewedBefore | app/routes/exploration_recommender_router.py:21-24 | the second query returns exactly the reviews dated strictly before the threshold |
| ExplorationRouter.NeverReviewedAppend | app/routes/exploration_recommender_router.py:23 | the first query keeps the collection's order |
| ExplorationRouter.ReviewedBeforeAppend | app/routes/exploration_recommender_router.py:24 | the second query keeps the collection's order |
| ExplorationRouter.Recommend | app/routes/exploration_recommender_router.py:21-40 | GET answers the first ten of never-reviewed then stale reviews, with the "none available" message exactly when that is empty |
| ExplorationRouter.RecommendSound | app/routes/exploration_recommender_router.py:21-32 | at most ten reviews, each a recommendable review of the collection |
| ExplorationRouter.RecommendNullsFirst | app/routes/exploration_recommender_router.py:31 | every never-reviewed review precedes every dated one |
| ExplorationRouter.RecommendComplete | app/routes/exploration_recommender_router.py:31-32 | the answer has min(10, found) reviews, and all recommendable ones when at most ten are found |
| ExplorationRouter.RecommendNoneMessage | app/routes/exploration_recommender_router.py:26-29 | "No exploration recommendations available." exactly when no review is recommendable |
| ExplorationRouter.ExplorationRecommendations | app/routes/exploration_recommender_router.py:14-43 | 503 without a collection, 500 with the text of a failing query, otherwise the `Recommend` answer |
| ExplorationRouter.Lookup | app/routes/exploration_recommender_router.py:56 | `find_one` by id finds the first review with that id, or reports that none has it |
| ExplorationRouter.Replace | app/routes/exploration_recommender_router.py:62 | the write keeps the number of reviews, adds nothing but the new document and leaves reviews with other ids as they were |
| ExplorationRouter.ReplaceKeepsOthers | app/routes/exploration_recommender_router.py:62 | writing back a review under its own id keeps ids unique, replaces only that review and keeps it findable |
| ExplorationRouter.Refresh | app/routes/exploration_recommender_router.py:52-72 | the effect of PATCH on an available collection: the number of reviews is kept, an error changes nothing, and a success answers one review, stored in the collection and dated now |
| ExplorationRouter.RefreshErrors | app/routes/exploration_recommender_router.py:52-72 | 422 exactly for a malformed id, 404 exactly for a well-formed unknown id; a failing write on a found review answers 500 with the failure's text; none of these errors changes the collection |
| ExplorationRouter.RefreshStamps | app/routes/exploration_recommender_router.py:59-70 | a successful refresh answers the review stamped with now, stores it there and leaves every other review alone; a failed write changes nothing |
| ExplorationRouter.RefreshNeverUndates | app/routes/exploration_recommender_router.py:61-62 | after a refresh the review is dated now, and a second refresh succeeds and dates it with the later time |
| ExplorationRouter.ReviewCollection.constructor | app/routes/exploration_recommender_router.py:47 | a collection holds the given reviews, with unique ids |
| ExplorationRouter.ReviewCollection.UpdateOne | app/routes/exploration_recommender_router.py:62 | `update_one` replaces the review with that id by the new document, or on failure leaves the collection as it was |
| ExplorationRouter.UpdateReview | app/routes/exploration_recommender_router.py:46-72 | 503 without a collection; otherwise the new collection and the answer are those of `Refresh`, and ids stay unique |

## Left out

- The FastAPI routing and dependency injection are not modelled. Neither is the
  `ResponseGeneral` envelope: an answer is an `Outcome` value. Status codes and
  details appear in the constructors' documentation.
- The `async`/`await` scheduling is not modelled. Each handler runs as one step.
- `ExplorationRecommendations`: the `LocationCategoryReview(**review).to_json()`
  conversion on `app/routes/exploration_recommender_router.py:34` is not modelled.
  The answer holds the review records themselves, so a pydantic validation failure
  there (a 500) is not captured.
- `ExplorationRecommendations`: a failure of either query is one `queryFault`
  parameter. The model does not say which of the two queries failed.
- `UpdateReview`: `LocationCategoryReview(**review)` on
  `app/routes/exploration_recommender_router.py:68` runs inside the `try` but after
  the write on line 62. If it fails, the source answers 500 with the review already
  stamped and stored. The model has no failure there: its only 500 is a failing write,
  which changes nothing.
- `UpdateReview`: MongoDB stores dates to the millisecond, so the source stores `now`
  truncated to milliseconds while the answer carries the full microseconds. The model
  stores and answers the same `now`.
- `UpdateReview`: `find_one` on `app/routes/exploration_recommender_router.py:56`
  sits outside the `try`, so a failure there propagates unhandled. The model has no
  failing lookup.
- `ObjectIds.InvalidIdMessage`: the 422 detail quotes the input as written. Python's
  `repr` escaping of quotes and control characters is not modelled.
- `ObjectIds.Parse`: accepts exactly 24 ASCII hex digits. The source decodes a
  24-character text with `bytes.fromhex`, which skips ASCII whitespace between digit
  pairs. A text such as `"  0123456789abcdef012345"` therefore raises no `InvalidId`
  in the source: it becomes an id shorter than twelve bytes and goes on to the lookup.
  The model rejects such texts with 422. The 12-byte `bytes` input form of `ObjectId`
  is not reachable from a query-string parameter and is not modelled.
- Time zones are not modelled. The selector compares against the naive
  `datetime.now()` and the router against an aware UTC time, and both are one
  integer clock here.
- `Recommender.GetUnreviewedCombinations`: a store failure of `find_one` on
  `app/utils/recommender.py:15` aborts the whole call. The model's lookup is a map
  access and cannot fail.
- `Recommender.GetUnreviewedCombinations`: reading the locations and categories
  collections (`app/utils/recommender.py:10-11`) is not modelled. They are passed in
  as sequences of ids. The reviews collection is a map from pair to review, which
  assumes at most one review per pair. Mongo's `find_one` would pick the first of
  several.
- `ReviewCollection.UpdateOne`: `$set` with the full document fetched by
  `find_one` is modelled as replacing the document. The two coincide because every
  field is set.
- The other routes and modules of the repository are not part of this model:
  location and category creation, the review-locations router, the pydantic models
  and the database connection.
