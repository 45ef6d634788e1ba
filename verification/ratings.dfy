/** A point's rating list: the per-user upsert shared by the store and the
    optimistic update of the screen, and the per-user lookups. */
module Ratings {
  import opened Wrappers
  import opened Types

  /** `ratings.findIndex(r => r.userId === userId)`. */
  function RatingIndex(rs: seq<Rating>, userId: string): (r: Option<nat>)
    ensures r.Some? ==> r.value < |rs| && rs[r.value].userId == userId
    ensures r.Some? ==> forall k :: 0 <= k < r.value ==> rs[k].userId != userId
    ensures r.None? <==> forall k :: 0 <= k < |rs| ==> rs[k].userId != userId
  {
    if |rs| == 0 then None
    else if rs[0].userId == userId then Some(0)
    else match RatingIndex(rs[1..], userId)
      case None =>
        assert forall k :: 1 <= k < |rs| ==> rs[k] == rs[1..][k - 1];
        None
      case Some(i) => Some(i + 1)
  }

  /** The value of the first rating `userId` gave (`find(...)?.value`). */
  function RatingOf(rs: seq<Rating>, userId: string): (r: Option<int>)
    ensures r.Some? <==> exists k :: 0 <= k < |rs| && rs[k].userId == userId
    ensures r.Some? ==> Rating(userId, r.value) in rs
    ensures r.Some? ==>
      exists k :: 0 <= k < |rs| && rs[k] == Rating(userId, r.value) && forall j :: 0 <= j < k ==> rs[j].userId != userId
  {
    match RatingIndex(rs, userId)
    case Some(i) => Some(rs[i].value)
    case None => None
  }

  /** How many entries of `rs` belong to `userId`. */
  function CountFor(rs: seq<Rating>, userId: string): nat {
    if |rs| == 0 then 0
    else CountFor(rs[..|rs| - 1], userId) + (if rs[|rs| - 1].userId == userId then 1 else 0)
  }

  /** Records `userId`'s rating: an absent list starts empty, the user's first
      entry takes the new value in place, and otherwise a new entry goes to
      the end. */
  function UpsertRating(rs: Option<seq<Rating>>, userId: string, value: int): (r: seq<Rating>)
    ensures RatingOf(r, userId) == Some(value)
    ensures forall u :: u != userId ==> RatingOf(r, u) == RatingOf(rs.GetOr([]), u)
    ensures |r| == |rs.GetOr([])| + (if RatingOf(rs.GetOr([]), userId).Some? then 0 else 1)
    ensures forall k :: 0 <= k < |rs.GetOr([])| && rs.GetOr([])[k].userId != userId ==>
              r[k] == rs.GetOr([])[k]
    ensures RatingIndex(rs.GetOr([]), userId).Some? ==>
      var i := RatingIndex(rs.GetOr([]), userId).value;
      && r[i] == Rating(userId, value)
      && forall k :: 0 <= k < |rs.GetOr([])| && k != i ==> r[k] == rs.GetOr([])[k]
  {
    var prior := rs.GetOr([]);
    match RatingIndex(prior, userId)
    case Some(i) =>
      var r := prior[i := Rating(userId, value)];
      RatingIndexIs(r, userId, i);
      assert forall u :: u != userId ==> RatingIndex(r, u) == RatingIndex(prior, u) by {
        forall u | u != userId ensures RatingIndex(r, u) == RatingIndex(prior, u) {
          SameUsersSameIndex(prior, r, u);
        }
      }
      r
    case None =>
      var r := prior + [Rating(userId, value)];
      RatingIndexIs(r, userId, |prior|);
      assert forall u :: u != userId ==> RatingIndex(r, u) == RatingIndex(prior, u) by {
        forall u | u != userId ensures RatingIndex(r, u) == RatingIndex(prior, u) {
          SameUsersSameIndex(prior, r, u);
        }
      }
      r
  }

  /** `after` is `before` with `userId`'s rating recorded as `value`: the
      user's first entry replaced in place, or one entry appended when the
      user had none; every entry but that first one stays where it was,
      other users' entries and the user's later ones alike; and a user who
      had at most one entry has exactly one. */
  ghost predicate Rerated(before: seq<Rating>, after: seq<Rating>, userId: string, value: int) {
    && RatingOf(after, userId) == Some(value)
    && (forall u :: u != userId ==> RatingOf(after, u) == RatingOf(before, u))
    && |after| == |before| + (if RatingOf(before, userId).Some? then 0 else 1)
    && (forall k :: 0 <= k < |before| && before[k].userId != userId ==> after[k] == before[k])
    && (RatingIndex(before, userId).Some? ==>
          var i := RatingIndex(before, userId).value;
          && after[i] == Rating(userId, value)
          && forall k :: 0 <= k < |before| && k != i ==> after[k] == before[k])
    && (CountFor(before, userId) <= 1 ==> CountFor(after, userId) == 1)
  }

  /** Recording a rating with `UpsertRating` is a re-rating. */
  lemma UpsertRatingRerates(rs: Option<seq<Rating>>, userId: string, value: int)
    ensures Rerated(rs.GetOr([]), UpsertRating(rs, userId, value), userId, value)
  {
    UpsertRatingCount(rs, userId, value);
  }

  /** Pins the first entry of `u`. */
  lemma RatingIndexIs(rs: seq<Rating>, u: string, i: nat)
    requires i < |rs| && rs[i].userId == u
    requires forall k :: 0 <= k < i ==> rs[k].userId != u
    ensures RatingIndex(rs, u) == Some(i)
  {
  }

  /** Lists that agree on where `u`'s entries sit give the same first index. */
  lemma {:induction false} SameUsersSameIndex(a: seq<Rating>, b: seq<Rating>, u: string)
    requires |a| <= |b|
    requires forall k :: 0 <= k < |a| ==> (a[k].userId == u <==> b[k].userId == u)
    requires forall k :: |a| <= k < |b| ==> b[k].userId != u
    ensures RatingIndex(b, u) == RatingIndex(a, u)
    decreases |a|
  {
    if |a| == 0 {
      assert RatingIndex(b, u).None?;
    } else if a[0].userId != u {
      SameUsersSameIndex(a[1..], b[1..], u);
    }
  }

  /** Overwriting one entry with another entry of the same user keeps every
      user's count. */
  lemma {:induction false} CountAfterReplace(rs: seq<Rating>, i: nat, x: Rating, u: string)
    requires i < |rs| && rs[i].userId == x.userId
    ensures CountFor(rs[i := x], u) == CountFor(rs, u)
    decreases |rs|
  {
    var r := rs[i := x];
    if i < |rs| - 1 {
      assert r[..|r| - 1] == rs[..|rs| - 1][i := x];
      CountAfterReplace(rs[..|rs| - 1], i, x, u);
    } else {
      assert r[..|r| - 1] == rs[..|rs| - 1];
    }
  }

  /** After a rating, the user has exactly one entry if they had none, and as
      many as before otherwise; so a user who never had two entries ends with
      exactly one. */
  lemma UpsertRatingCount(rs: Option<seq<Rating>>, userId: string, value: int)
    ensures var before := CountFor(rs.GetOr([]), userId);
      CountFor(UpsertRating(rs, userId, value), userId) == if before == 0 then 1 else before
  {
    var prior := rs.GetOr([]);
    match RatingIndex(prior, userId)
    case Some(i) =>
      CountAfterReplace(prior, i, Rating(userId, value), userId);
      CountPositive(prior, i, userId);
    case None =>
      var r := prior + [Rating(userId, value)];
      assert r[..|r| - 1] == prior;
      CountZero(prior, userId);
  }

  /** A user with an entry has a positive count. */
  lemma {:induction false} CountPositive(rs: seq<Rating>, i: nat, u: string)
    requires i < |rs| && rs[i].userId == u
    ensures CountFor(rs, u) > 0
    decreases |rs|
  {
    if i < |rs| - 1 {
      CountPositive(rs[..|rs| - 1], i, u);
    }
  }

  /** A user without entries has count zero. */
  lemma {:induction false} CountZero(rs: seq<Rating>, u: string)
    requires forall k :: 0 <= k < |rs| ==> rs[k].userId != u
    ensures CountFor(rs, u) == 0
    decreases |rs|
  {
    if |rs| > 0 {
      CountZero(rs[..|rs| - 1], u);
    }
  }

  /** Rating again with the same value changes nothing. */
  lemma UpsertRatingIdempotent(rs: Option<seq<Rating>>, userId: string, value: int)
    ensures UpsertRating(Some(UpsertRating(rs, userId, value)), userId, value)
         == UpsertRating(rs, userId, value)
  {
    var r := UpsertRating(rs, userId, value);
    var i := RatingIndex(r, userId).value;
    assert r[i] == Rating(userId, value);
    assert r[i := Rating(userId, value)] == r;
  }
}
