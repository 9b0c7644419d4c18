/**
 * The two handlers of app/routes/exploration_recommender_router.py, over an
 * in-memory review collection.
 *
 * GET (`exploration_recommendations`) runs two queries on the collection,
 * reviews whose `last_reviewed` is null or missing and reviews dated before
 * "now minus 30 days", puts the first before the second and keeps ten.
 *
 * PATCH (`update_review`) parses a review id, finds that review, sets its
 * `last_reviewed` to now and writes it back.
 *
 * A collection that is not available is a `null` reference. The clock is the
 * parameter `now`; a failure of the store that the handler catches is a
 * parameter carrying the exception's text.
 */
module ExplorationRouter {
  import opened Wrappers
  import opened Freshness
  import opened ObjectIds

  /** A review document. `lastReviewed` is `None` when the field is null or missing. */
  datatype Review = Review(id: ObjectId, locationId: string, categoryId: string, lastReviewed: Option<Timestamp>)

  /**
   * What a handler answers. `Unavailable` is the 503 "Database connection not
   * available.", `Invalid` the 422 with the `InvalidId` text, `NotFound` the
   * 404 "Review not found.", `Internal` the 500 with the exception's text.
   */
  datatype Outcome =
    | Ok(message: string, data: seq<Review>)
    | Unavailable
    | Invalid(detail: string)
    | NotFound
    | Internal(detail: string)

  /** GET answers at most this many reviews. */
  const Cap: nat := 10

  const NoRecommendations := "No exploration recommendations available."
  const Retrieved := "Exploration recommendations retrieved successfully."
  const Updated := "Review updated successfully."

  /** No two documents of the collection share an `_id`. */
  ghost predicate UniqueIds(records: seq<Review>)
  {
    forall i, j :: 0 <= i < |records| && 0 <= j < |records| && records[i].id == records[j].id ==> i == j
  }

  /**
   * A review GET may recommend: never reviewed, or reviewed strictly before
   * the threshold; exactly the reviews one of its two queries returns.
   */
  predicate Recommendable(x: Review, now: Timestamp)
    ensures Recommendable(x, now) <==> x in NeverReviewed([x]) || x in ReviewedBefore([x], Threshold(now))
  {
    x.lastReviewed.None? || IsStale(x.lastReviewed.value, now)
  }

  /** `find({"last_reviewed": None})`: the null-dated reviews, in collection order. */
  function NeverReviewed(records: seq<Review>): (r: seq<Review>)
    ensures |r| <= |records|
    ensures forall x :: x in r <==> x in records && x.lastReviewed.None?
  {
    if records == [] then []
    else
      var rest := NeverReviewed(records[1..]);
      assert forall x :: x in records <==> x == records[0] || x in records[1..];
      if records[0].lastReviewed.None? then [records[0]] + rest else rest
  }

  /** `find({"last_reviewed": {"$lt": t}})`: the reviews dated strictly before `t`, in collection order. */
  function ReviewedBefore(records: seq<Review>, t: Timestamp): (r: seq<Review>)
    ensures |r| <= |records|
    ensures forall x :: x in r <==> x in records && x.lastReviewed.Some? && x.lastReviewed.value < t
  {
    if records == [] then []
    else
      var rest := ReviewedBefore(records[1..], t);
      assert forall x :: x in records <==> x == records[0] || x in records[1..];
      if records[0].lastReviewed.Some? && records[0].lastReviewed.value < t then [records[0]] + rest else rest
  }

  /** The first query keeps the collection's order: it distributes over concatenation. */
  lemma {:induction false} NeverReviewedAppend(a: seq<Review>, b: seq<Review>)
    ensures NeverReviewed(a + b) == NeverReviewed(a) + NeverReviewed(b)
  {
    if a != [] {
      NeverReviewedAppend(a[1..], b);
      assert (a + b)[1..] == a[1..] + b;
    } else {
      assert a + b == b;
    }
  }

  /** The second query keeps the collection's order: it distributes over concatenation. */
  lemma {:induction false} ReviewedBeforeAppend(a: seq<Review>, b: seq<Review>, t: Timestamp)
    ensures ReviewedBefore(a + b, t) == ReviewedBefore(a, t) + ReviewedBefore(b, t)
  {
    if a != [] {
      ReviewedBeforeAppend(a[1..], b, t);
      assert (a + b)[1..] == a[1..] + b;
    } else {
      assert a + b == b;
    }
  }

  /** The successful body of `exploration_recommendations`: null-dated first, then stale, at most ten. */
  function Recommend(records: seq<Review>, now: Timestamp): (r: Outcome)
    ensures r.Ok?
    ensures r.data == Prefix(NeverReviewed(records) + ReviewedBefore(records, Threshold(now)), Cap)
    ensures r.message == (if r.data == [] then NoRecommendations else Retrieved)
  {
    var never := NeverReviewed(records);
    var older := ReviewedBefore(records, Threshold(now));
    if never == [] && older == [] then Ok(NoRecommendations, [])
    else Ok(Retrieved, Prefix(never + older, Cap))
  }

  /** GET answers at most ten reviews, each a recommendable review of the collection. */
  lemma RecommendSound(records: seq<Review>, now: Timestamp)
    ensures |Recommend(records, now).data| <= Cap
    ensures forall x :: x in Recommend(records, now).data ==> x in records && Recommendable(x, now)
  {
    var all := NeverReviewed(records) + ReviewedBefore(records, Threshold(now));
    var data := Recommend(records, now).data;
    forall x | x in data
      ensures x in records && Recommendable(x, now)
    {
      var k :| 0 <= k < |data| && data[k] == x;
      assert x == all[k];
    }
  }

  /** In GET's answer every never-reviewed review comes before every dated one. */
  lemma RecommendNullsFirst(records: seq<Review>, now: Timestamp)
    ensures var data := Recommend(records, now).data;
            forall i, j :: 0 <= i < j < |data| && data[j].lastReviewed.None? ==> data[i].lastReviewed.None?
  {
    var never := NeverReviewed(records);
    var older := ReviewedBefore(records, Threshold(now));
    var all := never + older;
    var data := Recommend(records, now).data;
    forall k | |never| <= k < |all|
      ensures all[k].lastReviewed.Some?
    {
      assert all[k] == older[k - |never|];
      assert older[k - |never|] in older;
    }
    forall i, j | 0 <= i < j < |data| && data[j].lastReviewed.None?
      ensures data[i].lastReviewed.None?
    {
      assert data[j] == all[j];
      assert data[i] == all[i] == never[i];
      assert never[i] in never;
    }
  }

  /**
   * GET answers as many reviews as the two queries find, up to ten; when
   * they find ten or fewer, every recommendable review is in the answer.
   */
  lemma RecommendComplete(records: seq<Review>, now: Timestamp)
    ensures |Recommend(records, now).data| == Min(Cap, |NeverReviewed(records)| + |ReviewedBefore(records, Threshold(now))|)
    ensures |NeverReviewed(records)| + |ReviewedBefore(records, Threshold(now))| <= Cap ==>
              forall x :: x in records && Recommendable(x, now) ==> x in Recommend(records, now).data
  {
    var all := NeverReviewed(records) + ReviewedBefore(records, Threshold(now));
    if |all| <= Cap {
      assert Recommend(records, now).data == all;
    }
  }

  /** GET says "No exploration recommendations available." exactly when no review is recommendable. */
  lemma RecommendNoneMessage(records: seq<Review>, now: Timestamp)
    ensures Recommend(records, now).message == NoRecommendations <==> forall x :: x in records ==> !Recommendable(x, now)
  {
    var all := NeverReviewed(records) + ReviewedBefore(records, Threshold(now));
    var r := Recommend(records, now);
    assert forall x :: x in records && Recommendable(x, now) ==> x in all;
    if r.message != NoRecommendations {
      assert all[0] in all;
    }
  }

  /** The first review of `records` with `_id == id`: `find_one({"_id": id})`. */
  function Lookup(records: seq<Review>, id: ObjectId): (r: Option<nat>)
    ensures r.Some? ==> r.value < |records| && records[r.value].id == id &&
                        forall i :: 0 <= i < r.value ==> records[i].id != id
    ensures r.None? ==> forall i :: 0 <= i < |records| ==> records[i].id != id
  {
    if records == [] then None
    else if records[0].id == id then Some(0)
    else match Lookup(records[1..], id)
      case None => None
      case Some(k) => Some(k + 1)
  }

  /** `update_one({"_id": id}, {"$set": doc})` for a `doc` with every field: the matching document becomes `doc`. */
  function Replace(records: seq<Review>, id: ObjectId, doc: Review): (r: seq<Review>)
    ensures |r| == |records|
    ensures forall x :: x in r ==> x == doc || x in records
    ensures forall i :: 0 <= i < |records| && records[i].id != id ==> r[i] == records[i]
  {
    seq(|records|, i requires 0 <= i < |records| => if records[i].id == id then doc else records[i])
  }

  /** Replacing a document by one with the same `_id` keeps the ids unique and changes nothing else. */
  lemma ReplaceKeepsOthers(records: seq<Review>, id: ObjectId, doc: Review)
    requires UniqueIds(records) && doc.id == id
    ensures |Replace(records, id, doc)| == |records|
    ensures UniqueIds(Replace(records, id, doc))
    ensures forall i :: 0 <= i < |records| && records[i].id != id ==> Replace(records, id, doc)[i] == records[i]
    ensures Lookup(records, id).Some? ==> Lookup(Replace(records, id, doc), id) == Lookup(records, id) &&
                                          Replace(records, id, doc)[Lookup(records, id).value] == doc
  {
    var r := Replace(records, id, doc);
    forall i, j | 0 <= i < |r| && 0 <= j < |r| && r[i].id == r[j].id
      ensures i == j
    {
      assert r[i].id == records[i].id && r[j].id == records[j].id;
    }
    match Lookup(records, id)
    case None =>
    case Some(k) =>
      var l := Lookup(r, id);
      assert r[k].id == id;
      assert l.Some?;
      assert forall i :: 0 <= i < |r| ==> r[i].id == records[i].id;
  }

  /**
   * The effect of `update_review` on an available collection: the new
   * documents and the answer. `writeFault` is the text of the exception
   * `update_one` raises, if it does. `locationId` keeps the name of the
   * query parameter, but it is the `_id` of a review, not of a location.
   */
  function Refresh(records: seq<Review>, locationId: string, now: Timestamp, writeFault: Option<string>): (r: (seq<Review>, Outcome))
    ensures |r.0| == |records|
    ensures !r.1.Ok? ==> r.0 == records
    ensures r.1.Ok? ==> |r.1.data| == 1 && r.1.data[0] in r.0 && r.1.data[0].lastReviewed == Some(now)
  {
    match Parse(locationId)
    case None => (records, Invalid(InvalidIdMessage(locationId)))
    case Some(id) =>
      match Lookup(records, id)
      case None => (records, NotFound)
      case Some(k) =>
        var stamped := records[k].(lastReviewed := Some(now));
        if writeFault.Some? then (records, Internal(writeFault.value))
        else
          assert Replace(records, id, stamped)[k] == stamped;
          (Replace(records, id, stamped), Ok(Updated, [stamped]))
  }

  /**
   * The error answers of a refresh and when each happens: a malformed id is
   * rejected with the `InvalidId` text, a well-formed id naming no review is
   * not found, a failed write answers its text; in all three nothing changes.
   */
  lemma RefreshErrors(records: seq<Review>, locationId: string, now: Timestamp, writeFault: Option<string>)
    ensures var (after, out) := Refresh(records, locationId, now, writeFault);
            !out.Ok? ==> after == records
    ensures var out := Refresh(records, locationId, now, writeFault).1;
            out.Invalid? <==> |locationId| != 24 || !AllHex(locationId)
    ensures var out := Refresh(records, locationId, now, writeFault).1;
            out.Invalid? ==> out.detail == InvalidIdMessage(locationId)
    ensures var out := Refresh(records, locationId, now, writeFault).1;
            out.NotFound? <==> Parse(locationId).Some? && forall x :: x in records ==> x.id != Parse(locationId).value
    ensures var out := Refresh(records, locationId, now, writeFault).1;
            out.Internal? <==> writeFault.Some? && Parse(locationId).Some? && exists x :: x in records && x.id == Parse(locationId).value
    ensures var out := Refresh(records, locationId, now, writeFault).1;
            out.Internal? ==> out.detail == writeFault.value
  {
    match Parse(locationId)
    case None =>
    case Some(id) =>
      match Lookup(records, id)
      case None =>
        forall x | x in records
          ensures x.id != id
        {
          var i :| 0 <= i < |records| && records[i] == x;
        }
      case Some(k) =>
        assert records[k] in records;
  }

  /**
   * A successful refresh stamps the named review with `now`, keeps its other
   * fields, answers it, and leaves every other review as it was; when the
   * write fails, the answer carries the failure's text and nothing changes.
   */
  lemma RefreshStamps(records: seq<Review>, locationId: string, now: Timestamp, writeFault: Option<string>, k: nat)
    requires UniqueIds(records)
    requires Parse(locationId).Some? && k < |records| && records[k].id == Parse(locationId).value
    ensures var (after, out) := Refresh(records, locationId, now, writeFault);
            var stamped := Review(records[k].id, records[k].locationId, records[k].categoryId, Some(now));
            if writeFault.Some? then after == records && out == Internal(writeFault.value)
            else out == Ok(Updated, [stamped]) && |after| == |records| && UniqueIds(after) &&
                 after[k] == stamped &&
                 forall i :: 0 <= i < |records| && i != k ==> after[i] == records[i]
  {
    var id := Parse(locationId).value;
    var l := Lookup(records, id);
    assert l == Some(k);
    var stamped := records[k].(lastReviewed := Some(now));
    ReplaceKeepsOthers(records, id, stamped);
  }

  /** Refreshing never clears a date: afterwards the named review is dated `now`, however it was dated before. */
  lemma RefreshNeverUndates(records: seq<Review>, locationId: string, now: Timestamp, later: Timestamp)
    requires UniqueIds(records)
    requires Refresh(records, locationId, now, None).1.Ok?
    ensures var after := Refresh(records, locationId, now, None).0;
            var id := Parse(locationId).value;
            Lookup(after, id).Some? && after[Lookup(after, id).value].lastReviewed == Some(now) &&
            var again := Refresh(after, locationId, later, None);
            again.1.Ok? && again.0[Lookup(after, id).value].lastReviewed == Some(later)
  {
    var id := Parse(locationId).value;
    var k := Lookup(records, id).value;
    var stamped := records[k].(lastReviewed := Some(now));
    ReplaceKeepsOthers(records, id, stamped);
    var after := Replace(records, id, stamped);
    var restamped := after[k].(lastReviewed := Some(later));
    ReplaceKeepsOthers(after, id, restamped);
  }

  /** The review collection; `records` is in the collection's natural order. */
  class ReviewCollection {
    var records: seq<Review>

    ghost predicate Valid()
      reads this
    {
      UniqueIds(records)
    }

    constructor (initial: seq<Review>)
      requires UniqueIds(initial)
      ensures Valid() && records == initial
    {
      records := initial;
    }

    /**
     * `update_one({"_id": id}, {"$set": doc})`. When it raises, `fault` is the
     * exception's text, and the single-document write has not happened.
     */
    method UpdateOne(id: ObjectId, doc: Review, fault: Option<string>) returns (error: Option<string>)
      requires Valid() && doc.id == id
      modifies this
      ensures Valid() && error == fault
      ensures records == if fault.None? then Replace(old(records), id, doc) else old(records)
    {
      error := fault;
      if fault.None? {
        ReplaceKeepsOthers(records, id, doc);
        records := Replace(records, id, doc);
      }
    }
  }

  /**
   * `exploration_recommendations`. A missing collection is reported before
   * any query; a failing query becomes an internal error with its text.
   */
  method ExplorationRecommendations(store: ReviewCollection?, now: Timestamp, queryFault: Option<string>)
    returns (r: Outcome)
    ensures store == null ==> r == Unavailable
    ensures store != null && queryFault.Some? ==> r == Internal(queryFault.value)
    ensures store != null && queryFault.None? ==> r == Recommend(store.records, now)
  {
    if store == null {
      return Unavailable;
    }
    if queryFault.Some? {
      return Internal(queryFault.value);
    }
    var neverReviewed := NeverReviewed(store.records);
    var olderReviews := ReviewedBefore(store.records, Threshold(now));
    if neverReviewed == [] && olderReviews == [] {
      return Ok(NoRecommendations, []);
    }
    var recommendations := neverReviewed + olderReviews;
    recommendations := Prefix(recommendations, Cap);
    return Ok(Retrieved, recommendations);
  }

  /**
   * `update_review`. A missing collection is reported first, then a
   * malformed id, then an unknown one; otherwise the review is stamped with
   * `now` and written back. `locationId` is the `_id` of a review.
   */
  method UpdateReview(store: ReviewCollection?, locationId: string, now: Timestamp, writeFault: Option<string>)
    returns (r: Outcome)
    requires store != null ==> store.Valid()
    modifies store
    ensures store == null ==> r == Unavailable
    ensures store != null ==> store.Valid() && (store.records, r) == Refresh(old(store.records), locationId, now, writeFault)
  {
    if store == null {
      return Unavailable;
    }
    var id := Parse(locationId);
    if id.None? {
      return Invalid(InvalidIdMessage(locationId));
    }
    var found := Lookup(store.records, id.value);
    if found.None? {
      return NotFound;
    }
    var review := store.records[found.value];
    review := review.(lastReviewed := Some(now));
    var error := store.UpdateOne(id.value, review, writeFault);
    if error.Some? {
      return Internal(error.value);
    }
    return Ok(Updated, [review]);
  }
}
