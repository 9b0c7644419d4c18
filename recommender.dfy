/**
 * The combination selector of app/utils/recommender.py: walk every location
 * (outer loop) and every category (inner loop), look up the review of that
 * (location, category) pair, and collect the pair when it has no review or
 * its review is stale; stop as soon as ten pairs have been collected.
 *
 * The three collections are passed in: `locations` and `categories` are the
 * `_id`s in the order the store returned them, and `reviews` is the point
 * lookup `find_one({"location_id": .., "category_id": ..})` as a map.
 */
module Recommender {
  import opened Wrappers
  import opened Freshness

  type Id = string

  /** One emitted entry `{"location_id": .., "category_id": ..}`. */
  datatype Combination = Combination(locationId: Id, categoryId: Id)

  /** A review document as the selector sees it; `None` stands for a `last_reviewed` that is null or missing. */
  datatype PairReview = PairReview(lastReviewed: Option<Timestamp>)

  type ReviewIndex = map<Combination, PairReview>

  /** The selector returns once it holds this many pairs. */
  const Cap: nat := 10

  /**
   * What the selector ends with: the collected pairs, or the pair whose
   * review had no date, where `review["last_reviewed"] < threshold` raises
   * and aborts the whole call.
   */
  datatype Selection = Selected(pairs: seq<Combination>) | Undated(at: Combination)

  /** What the loop body does with one pair. */
  datatype Verdict = Emit | Skip | Raise

  /** The test on line 16: no review or a stale one emits; a review without a date raises. */
  function Judge(reviews: ReviewIndex, c: Combination, now: Timestamp): (v: Verdict)
    ensures v == Skip <==> c in reviews && reviews[c].lastReviewed.Some? && !IsStale(reviews[c].lastReviewed.value, now)
  {
    if c !in reviews then Emit
    else match reviews[c].lastReviewed
      case None => Raise
      case Some(t) => if IsStale(t, now) then Emit else Skip
  }

  lemma JudgeEmits(reviews: ReviewIndex, c: Combination, now: Timestamp)
    ensures Judge(reviews, c, now) == Emit <==>
              c !in reviews || (reviews[c].lastReviewed.Some? && reviews[c].lastReviewed.value < now - StaleWindow)
    ensures Judge(reviews, c, now) == Raise <==> c in reviews && reviews[c].lastReviewed.None?
  {
  }

  /** The pairs of one location, in category order. */
  function Row(l: Id, categories: seq<Id>): seq<Combination>
  {
    seq(|categories|, j requires 0 <= j < |categories| => Combination(l, categories[j]))
  }

  /** L x C in the order the two nested loops visit it: locations outer, categories inner. */
  function Pairs(locations: seq<Id>, categories: seq<Id>): (r: seq<Combination>)
    ensures |r| == |locations| * |categories|
  {
    if locations == [] then []
    else Row(locations[0], categories) + Pairs(locations[1..], categories)
  }

  /** The pair visited by iteration (i, j) sits at position i * |C| + j of the enumeration. */
  lemma {:induction false} PairsAt(locations: seq<Id>, categories: seq<Id>, i: nat, j: nat)
    requires i < |locations| && j < |categories|
    ensures i * |categories| + j < |Pairs(locations, categories)|
    ensures Pairs(locations, categories)[i * |categories| + j] == Combination(locations[i], categories[j])
  {
    if i > 0 {
      PairsAt(locations[1..], categories, i - 1, j);
      assert i * |categories| == (i - 1) * |categories| + |categories|;
    }
  }

  /** Every position of the enumeration holds some (location, category) of the inputs. */
  lemma {:induction false} PairsMember(locations: seq<Id>, categories: seq<Id>, k: nat)
    requires k < |Pairs(locations, categories)|
    ensures Pairs(locations, categories)[k].locationId in locations
    ensures Pairs(locations, categories)[k].categoryId in categories
  {
    if k >= |categories| {
      PairsMember(locations[1..], categories, k - |categories|);
    }
  }

  /**
   * The loop's decision, stated over the enumeration: the outcome after
   * visiting the first `k` pairs of `ps` in order, with the early return at
   * `Cap` and the abort on an undated review.
   */
  function Scan(ps: seq<Combination>, k: nat, reviews: ReviewIndex, now: Timestamp): (r: Selection)
    requires k <= |ps|
    ensures r.Selected? ==> |r.pairs| <= Cap
  {
    if k == 0 then Selected([])
    else Step(Scan(ps, k - 1, reviews, now), ps[k - 1], reviews, now)
  }

  /** One pass of the inner loop body on pair `c`, after the pairs that gave `prev`. */
  function Step(prev: Selection, c: Combination, reviews: ReviewIndex, now: Timestamp): Selection
  {
    if Stopped(prev) then prev
    else match Judge(reviews, c, now)
      case Emit => Selected(prev.pairs + [c])
      case Skip => prev
      case Raise => Undated(c)
  }

  /** The selector has returned: it aborted, or it holds `Cap` pairs. */
  predicate Stopped(s: Selection)
  {
    s.Undated? || |s.pairs| >= Cap
  }

  /**
   * What `get_unreviewed_combinations` returns for these inputs: the first
   * ten qualifying pairs of L x C, unless a pair the loop reaches has a
   * review without a date.
   */
  function Unreviewed(locations: seq<Id>, categories: seq<Id>, reviews: ReviewIndex, now: Timestamp): (r: Selection)
    ensures var ps := Pairs(locations, categories);
            r.Selected? ==> r.pairs == Prefix(Emitted(ps, |ps|, reviews, now), Cap)
    ensures var ps := Pairs(locations, categories);
            r.Undated? <==> exists i :: 0 <= i < |ps| && Reached(ps, i, reviews, now) && Judge(reviews, ps[i], now) == Raise
  {
    var ps := Pairs(locations, categories);
    ScanUndatedIff(ps, reviews, now);
    if Scan(ps, |ps|, reviews, now).Selected? then
      ScanSelected(ps, |ps|, reviews, now);
      Scan(ps, |ps|, reviews, now)
    else
      Scan(ps, |ps|, reviews, now)
  }

  /** Reference definition: every qualifying pair among the first `k` of `ps`, in order, with no cap. */
  function Emitted(ps: seq<Combination>, k: nat, reviews: ReviewIndex, now: Timestamp): (r: seq<Combination>)
    requires k <= |ps|
    ensures |r| <= k
  {
    if k == 0 then []
    else Emitted(ps, k - 1, reviews, now) + (if Judge(reviews, ps[k - 1], now) == Emit then [ps[k - 1]] else [])
  }

  /** A pair is among the qualifying pairs exactly when it is among the first `k` and qualifies. */
  lemma {:induction false} EmittedMembers(ps: seq<Combination>, k: nat, reviews: ReviewIndex, now: Timestamp)
    requires k <= |ps|
    ensures forall c :: c in Emitted(ps, k, reviews, now) <==> c in ps[..k] && Judge(reviews, c, now) == Emit
  {
    if k > 0 {
      EmittedMembers(ps, k - 1, reviews, now);
      assert ps[..k] == ps[..k - 1] + [ps[k - 1]];
    }
  }

  /** The qualifying pairs among the first `i` are a prefix of those among the first `k`. */
  lemma {:induction false} EmittedPrefix(ps: seq<Combination>, i: nat, k: nat, reviews: ReviewIndex, now: Timestamp)
    requires i <= k <= |ps|
    ensures |Emitted(ps, i, reviews, now)| <= |Emitted(ps, k, reviews, now)|
    ensures Emitted(ps, i, reviews, now) == Emitted(ps, k, reviews, now)[..|Emitted(ps, i, reviews, now)|]
  {
    if i < k {
      EmittedPrefix(ps, i, k - 1, reviews, now);
    }
  }

  /** Pair `i` of `ps` is looked up: fewer than `Cap` pairs qualified before it. */
  predicate Reached(ps: seq<Combination>, i: nat, reviews: ReviewIndex, now: Timestamp)
    requires i <= |ps|
  {
    |Emitted(ps, i, reviews, now)| < Cap
  }

  /** When the selector does not abort, it returns the first min(Cap, n) of the n qualifying pairs, in order. */
  lemma {:induction false} ScanSelected(ps: seq<Combination>, k: nat, reviews: ReviewIndex, now: Timestamp)
    requires k <= |ps| && Scan(ps, k, reviews, now).Selected?
    ensures Scan(ps, k, reviews, now).pairs == Prefix(Emitted(ps, k, reviews, now), Cap)
  {
    if k > 0 {
      ScanSelected(ps, k - 1, reviews, now);
    }
  }

  /** When the selector does not abort, no pair it reached had an undated review. */
  lemma {:induction false} ScanSelectedNoRaise(ps: seq<Combination>, k: nat, reviews: ReviewIndex, now: Timestamp)
    requires k <= |ps| && Scan(ps, k, reviews, now).Selected?
    ensures forall i :: 0 <= i < k && Reached(ps, i, reviews, now) ==> Judge(reviews, ps[i], now) != Raise
  {
    if k > 0 {
      ScanSelectedNoRaise(ps, k - 1, reviews, now);
      ScanSelected(ps, k - 1, reviews, now);
    }
  }

  /** When the selector aborts, it reports the first undated pair, and it had reached that pair. */
  lemma {:induction false} ScanUndated(ps: seq<Combination>, k: nat, reviews: ReviewIndex, now: Timestamp)
    requires k <= |ps| && Scan(ps, k, reviews, now).Undated?
    ensures exists i :: 0 <= i < k && ps[i] == Scan(ps, k, reviews, now).at && Reached(ps, i, reviews, now) &&
                        Judge(reviews, ps[i], now) == Raise &&
                        forall i' :: 0 <= i' < i ==> Judge(reviews, ps[i'], now) != Raise
  {
    var prev := Scan(ps, k - 1, reviews, now);
    if prev.Undated? {
      ScanUndated(ps, k - 1, reviews, now);
    } else {
      ScanSelected(ps, k - 1, reviews, now);
      ScanSelectedNoRaise(ps, k - 1, reviews, now);
      forall i' | 0 <= i' < k - 1
        ensures Judge(reviews, ps[i'], now) != Raise
      {
        EmittedPrefix(ps, i', k - 1, reviews, now);
      }
      assert Reached(ps, k - 1, reviews, now);
    }
  }

  /** The selector aborts exactly when some pair that it reaches has an undated review. */
  lemma ScanUndatedIff(ps: seq<Combination>, reviews: ReviewIndex, now: Timestamp)
    ensures Scan(ps, |ps|, reviews, now).Undated? <==>
              exists i :: 0 <= i < |ps| && Reached(ps, i, reviews, now) && Judge(reviews, ps[i], now) == Raise
  {
    if Scan(ps, |ps|, reviews, now).Undated? {
      ScanUndated(ps, |ps|, reviews, now);
    } else {
      ScanSelectedNoRaise(ps, |ps|, reviews, now);
    }
  }

  /** Once the selector has stopped, the pairs after that point change nothing. */
  lemma {:induction false} ScanAfterStop(ps: seq<Combination>, m: nat, k: nat, reviews: ReviewIndex, now: Timestamp)
    requires m <= k <= |ps|
    requires Stopped(Scan(ps, m, reviews, now))
    ensures Scan(ps, k, reviews, now) == Scan(ps, m, reviews, now)
  {
    if m < k {
      ScanAfterStop(ps, m, k - 1, reviews, now);
    }
  }

  /** If the selector has not stopped after `m` pairs, it had not stopped after any fewer. */
  lemma NotStoppedBefore(ps: seq<Combination>, m: nat, reviews: ReviewIndex, now: Timestamp)
    requires m <= |ps|
    requires !Stopped(Scan(ps, m, reviews, now))
    ensures forall k :: 0 <= k <= m ==> !Stopped(Scan(ps, k, reviews, now))
  {
    forall k | 0 <= k <= m
      ensures !Stopped(Scan(ps, k, reviews, now))
    {
      if Stopped(Scan(ps, k, reviews, now)) {
        ScanAfterStop(ps, k, m, reviews, now);
      }
    }
  }

  /** `a` is `b` with some elements left out, the rest kept in their order. */
  predicate IsSubsequence<T(==)>(a: seq<T>, b: seq<T>)
    decreases |b|
  {
    if a == [] then true
    else if b == [] then false
    else (a[|a| - 1] == b[|b| - 1] && IsSubsequence(a[..|a| - 1], b[..|b| - 1])) || IsSubsequence(a, b[..|b| - 1])
  }

  lemma {:induction false} SubsequenceExtend<T>(a: seq<T>, b: seq<T>, x: T)
    requires IsSubsequence(a, b)
    ensures IsSubsequence(a, b + [x])
  {
    assert (b + [x])[..|b|] == b;
  }

  lemma {:induction false} SubsequencePrefix<T>(a: seq<T>, b: seq<T>, k: nat)
    requires IsSubsequence(a, b) && k <= |a|
    ensures IsSubsequence(a[..k], b)
    decreases |b|
  {
    if k == |a| {
      assert a[..k] == a;
    } else if a[|a| - 1] == b[|b| - 1] && IsSubsequence(a[..|a| - 1], b[..|b| - 1]) {
      SubsequencePrefix(a[..|a| - 1], b[..|b| - 1], k);
      assert a[..|a| - 1][..k] == a[..k];
      SubsequenceExtend(a[..k], b[..|b| - 1], b[|b| - 1]);
      assert b[..|b| - 1] + [b[|b| - 1]] == b;
    } else {
      SubsequencePrefix(a, b[..|b| - 1], k);
      SubsequenceExtend(a[..k], b[..|b| - 1], b[|b| - 1]);
      assert b[..|b| - 1] + [b[|b| - 1]] == b;
    }
  }

  /** The qualifying pairs keep the enumeration's order. */
  lemma {:induction false} EmittedSubsequence(ps: seq<Combination>, k: nat, reviews: ReviewIndex, now: Timestamp)
    requires k <= |ps|
    ensures IsSubsequence(Emitted(ps, k, reviews, now), ps[..k])
  {
    if k > 0 {
      var c := ps[k - 1];
      EmittedSubsequence(ps, k - 1, reviews, now);
      var e := Emitted(ps, k, reviews, now);
      assert ps[..k] == ps[..k - 1] + [c];
      assert ps[..k][..k - 1] == ps[..k - 1];
      if Judge(reviews, c, now) == Emit {
        assert e[..|e| - 1] == Emitted(ps, k - 1, reviews, now);
      } else {
        assert e == Emitted(ps, k - 1, reviews, now);
        SubsequenceExtend(e, ps[..k - 1], c);
      }
    }
  }

  /** The result is an order-preserving selection from L x C. */
  lemma SelectedIsSubsequence(locations: seq<Id>, categories: seq<Id>, reviews: ReviewIndex, now: Timestamp)
    requires Unreviewed(locations, categories, reviews, now).Selected?
    ensures IsSubsequence(Unreviewed(locations, categories, reviews, now).pairs, Pairs(locations, categories))
  {
    var ps := Pairs(locations, categories);
    var e := Emitted(ps, |ps|, reviews, now);
    ScanSelected(ps, |ps|, reviews, now);
    EmittedSubsequence(ps, |ps|, reviews, now);
    assert ps[..|ps|] == ps;
    SubsequencePrefix(e, ps, |Prefix(e, Cap)|);
    assert Prefix(e, Cap) == e[..|Prefix(e, Cap)|];
  }

  /**
   * Every emitted entry is a (location, category) of the inputs whose pair
   * has no review or a review strictly older than the threshold.
   */
  lemma SelectedPairsQualify(locations: seq<Id>, categories: seq<Id>, reviews: ReviewIndex, now: Timestamp)
    requires Unreviewed(locations, categories, reviews, now).Selected?
    ensures forall c :: c in Unreviewed(locations, categories, reviews, now).pairs ==>
              c.locationId in locations && c.categoryId in categories &&
              (c !in reviews || (reviews[c].lastReviewed.Some? && reviews[c].lastReviewed.value < Threshold(now)))
  {
    var ps := Pairs(locations, categories);
    var r := Unreviewed(locations, categories, reviews, now).pairs;
    ScanSelected(ps, |ps|, reviews, now);
    EmittedMembers(ps, |ps|, reviews, now);
    assert ps[..|ps|] == ps;
    forall c | c in r
      ensures c.locationId in locations && c.categoryId in categories
      ensures c !in reviews || (reviews[c].lastReviewed.Some? && reviews[c].lastReviewed.value < Threshold(now))
    {
      assert c in Emitted(ps, |ps|, reviews, now);
      var k :| 0 <= k < |ps| && ps[k] == c;
      PairsMember(locations, categories, k);
      JudgeEmits(reviews, c, now);
    }
  }

  /** A review dated at or after the threshold keeps its pair out of the result. */
  lemma FreshReviewSuppresses(locations: seq<Id>, categories: seq<Id>, reviews: ReviewIndex, now: Timestamp, c: Combination)
    requires c in reviews && reviews[c].lastReviewed.Some? && reviews[c].lastReviewed.value >= Threshold(now)
    requires Unreviewed(locations, categories, reviews, now).Selected?
    ensures c !in Unreviewed(locations, categories, reviews, now).pairs
  {
    var ps := Pairs(locations, categories);
    var e := Emitted(ps, |ps|, reviews, now);
    ScanSelected(ps, |ps|, reviews, now);
    EmittedMembers(ps, |ps|, reviews, now);
    assert Judge(reviews, c, now) == Skip;
    assert c !in e;
    assert forall x :: x in Prefix(e, Cap) ==> x in e;
  }

  /** A pair with no review or a stale one is in the result whenever the selector gets to it. */
  lemma QualifyingPairSelected(ps: seq<Combination>, i: nat, reviews: ReviewIndex, now: Timestamp)
    requires i < |ps| && Judge(reviews, ps[i], now) == Emit && Reached(ps, i, reviews, now)
    requires Scan(ps, |ps|, reviews, now).Selected?
    ensures ps[i] in Scan(ps, |ps|, reviews, now).pairs
  {
    var e := Emitted(ps, |ps|, reviews, now);
    var before := Emitted(ps, i, reviews, now);
    ScanSelected(ps, |ps|, reviews, now);
    EmittedPrefix(ps, i + 1, |ps|, reviews, now);
    assert e[|before|] == ps[i];
    assert Scan(ps, |ps|, reviews, now).pairs[|before|] == ps[i];
  }

  /** With no reviews at all every pair qualifies. */
  lemma {:induction false} EmittedWithoutReviews(ps: seq<Combination>, k: nat, now: Timestamp)
    requires k <= |ps|
    ensures Emitted(ps, k, map[], now) == ps[..k]
  {
    if k > 0 {
      EmittedWithoutReviews(ps, k - 1, now);
      assert ps[..k] == ps[..k - 1] + [ps[k - 1]];
    }
  }

  /** With no reviews the result is the first min(10, |L| * |C|) pairs of the enumeration. */
  lemma NoReviewsSelectsLeadingPairs(locations: seq<Id>, categories: seq<Id>, now: Timestamp)
    ensures Unreviewed(locations, categories, map[], now) == Selected(Prefix(Pairs(locations, categories), Cap))
    ensures |Unreviewed(locations, categories, map[], now).pairs| == Min(Cap, |locations| * |categories|)
  {
    var ps := Pairs(locations, categories);
    if Scan(ps, |ps|, map[], now).Undated? {
      ScanUndated(ps, |ps|, map[], now);
    }
    ScanSelected(ps, |ps|, map[], now);
    EmittedWithoutReviews(ps, |ps|, now);
    assert ps[..|ps|] == ps;
  }

  /** Empty locations or empty categories give an empty result. */
  lemma EmptyInputsSelectNothing(locations: seq<Id>, categories: seq<Id>, reviews: ReviewIndex, now: Timestamp)
    requires |locations| == 0 || |categories| == 0
    ensures Unreviewed(locations, categories, reviews, now) == Selected([])
  {
    assert |Pairs(locations, categories)| == 0;
  }

  /** Two locations and two categories with no reviews give all four pairs. */
  lemma TwoByTwoWithoutReviews(now: Timestamp)
    ensures var r := Unreviewed(["location0", "location1"], ["category0", "category1"], map[], now);
            r.Selected? && |r.pairs| == 4
  {
    NoReviewsSelectsLeadingPairs(["location0", "location1"], ["category0", "category1"], now);
  }

  /** Three locations and five categories with no reviews give exactly the first ten pairs. */
  lemma ThreeByFiveWithoutReviews(now: Timestamp)
    ensures Unreviewed(["l0", "l1", "l2"], ["c0", "c1", "c2", "c3", "c4"], map[], now) ==
              Selected(Pairs(["l0", "l1"], ["c0", "c1", "c2", "c3", "c4"]))
  {
    var locations := ["l0", "l1", "l2"];
    var categories := ["c0", "c1", "c2", "c3", "c4"];
    NoReviewsSelectsLeadingPairs(locations, categories, now);
    assert locations[1..][1..] == ["l2"];
    assert Pairs(["l0", "l1"], categories) == Row("l0", categories) + Row("l1", categories);
  }

  /** The selector stops after pair `m` if it had not stopped before it and has stopped with it. */
  lemma StopsHere(ps: seq<Combination>, m: nat, reviews: ReviewIndex, now: Timestamp)
    requires 0 < m <= |ps|
    requires !Stopped(Scan(ps, m - 1, reviews, now)) && Stopped(Scan(ps, m, reviews, now))
    ensures Scan(ps, |ps|, reviews, now) == Scan(ps, m, reviews, now)
    ensures forall k :: 0 <= k < m ==> !Stopped(Scan(ps, k, reviews, now))
  {
    ScanAfterStop(ps, m, |ps|, reviews, now);
    NotStoppedBefore(ps, m - 1, reviews, now);
  }

  /**
   * `get_unreviewed_combinations`: the nested loops with the early return.
   * `looked` counts the `find_one` lookups made: the selector stops right
   * after the lookup that completes its result and never looks further.
   */
  method GetUnreviewedCombinations(locations: seq<Id>, categories: seq<Id>, reviews: ReviewIndex, now: Timestamp)
    returns (r: Selection, ghost looked: nat)
    ensures r == Unreviewed(locations, categories, reviews, now)
    ensures looked <= |Pairs(locations, categories)|
    ensures looked < |Pairs(locations, categories)| ==> Stopped(Scan(Pairs(locations, categories), looked, reviews, now))
    ensures forall k :: 0 <= k < looked ==> !Stopped(Scan(Pairs(locations, categories), k, reviews, now))
  {
    ghost var ps := Pairs(locations, categories);
    var unreviewed: seq<Combination> := [];
    looked := 0;
    var i := 0;
    while i < |locations|
      invariant 0 <= i <= |locations|
      invariant looked == i * |categories| <= |ps|
      invariant Scan(ps, looked, reviews, now) == Selected(unreviewed)
      invariant |unreviewed| < Cap
    {
      var j := 0;
      while j < |categories|
        invariant 0 <= j <= |categories|
        invariant looked == i * |categories| + j <= |ps|
        invariant Scan(ps, looked, reviews, now) == Selected(unreviewed)
        invariant |unreviewed| < Cap
      {
        var c := Combination(locations[i], categories[j]);
        PairsAt(locations, categories, i, j);
        looked := looked + 1;
        if c !in reviews {
          unreviewed := unreviewed + [c];
        } else {
          var lastReviewed := reviews[c].lastReviewed;
          if lastReviewed.None? {
            r := Undated(c);
            StopsHere(ps, looked, reviews, now);
            return;
          }
          if lastReviewed.value < Threshold(now) {
            unreviewed := unreviewed + [c];
          }
        }
        if |unreviewed| >= Cap {
          r := Selected(unreviewed);
          StopsHere(ps, looked, reviews, now);
          return;
        }
        j := j + 1;
      }
      assert (i + 1) * |categories| == i * |categories| + |categories|;
      i := i + 1;
    }
    NotStoppedBefore(ps, looked, reviews, now);
    r := Selected(unreviewed);
  }
}
