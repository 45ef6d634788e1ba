/** The point store (services/geminiService.ts): the merged views handed to
    the screen and the create, update and rate mutations, as pure functions
    of the decoded overlay. The discovery reply and the freshly generated id
    are inputs. */
module Repository {
  import opened Wrappers
  import opened Types
  import opened PointLists
  import opened Ratings
  import opened Seed
  import opened OverlayStore

  /** The errors the store raises. */
  datatype Error =
    | DiscoveryUnavailable  // discovery failed and the location has no overlay points
    | NotFound              // the point to rate is neither in the overlay nor in the seed

  /** What the discovery request produced, as seen by the store. */
  datatype Discovery =
    | RequestFailed                // the request itself was rejected
    | EmptyText                    // the reply text was blank once trimmed
    | Unparsable                   // the reply text was not a JSON array of points
    | Parsed(points: seq<Point>)   // the decoded points

  /** The fields of a new point the form supplies. */
  datatype Draft = Draft(
    name: string,
    kind: PointType,
    description: string,
    customIcon: Option<string>,
    ratings: Option<seq<Rating>>)

  /** The address every user-created point gets. */
  const UserAddedAddress: string := "Adicionado pelo usuário"

  /** `getInitialPoints`: the seed, then every overlay partition in key order,
      written into one id-keyed map. */
  function InitialPoints(o: Overlay): (r: seq<Point>)
    ensures Distinct(r)
    ensures forall q :: q in r ==> q in DefaultPoints() || q in Flatten(o)
  {
    var r := Collect(DefaultPoints() + Flatten(o));
    assert forall q :: q in DefaultPoints() + Flatten(o) ==> q in DefaultPoints() || q in Flatten(o);
    r
  }

  /** Overlay beats seed: for each id the initial list holds the last overlay
      point with that id, and the seed point only when no partition has it. */
  lemma InitialPrecedence(o: Overlay, id: string)
    ensures FindById(InitialPoints(o), id) ==
      if HasId(Flatten(o), id) then LastWithId(Flatten(o), id) else FindById(DefaultPoints(), id)
  {
    LastWithIdAppend(DefaultPoints(), Flatten(o), id);
    SeedIsWellFormed();
    LastIsFirstWhenDistinct(DefaultPoints(), id);
  }

  /** On a well-formed overlay every overlay point appears unchanged in the
      initial list, and a seed point appears unchanged when no partition
      shares its id. */
  lemma InitialKeepsOverlayPoints(o: Overlay, q: Point)
    requires WellFormed(o)
    requires q in Flatten(o) || (q in DefaultPoints() && !InOverlay(o, q.id))
    ensures FindById(InitialPoints(o), q.id) == Some(q)
  {
    InitialPrecedence(o, q.id);
    var f := Flatten(o);
    FlattenDistinct(o);
    FindInOverlayIsInFlatten(o, q.id);
    if q in f {
      var x :| 0 <= x < |f| && f[x] == q;
      FindInDistinct(f, x);
      LastIsFirstWhenDistinct(f, q.id);
    } else {
      SeedIsWellFormed();
      var s := DefaultPoints();
      var x :| 0 <= x < |s| && s[x] == q;
      FindInDistinct(s, x);
    }
  }

  /** Discovered points lose any creator. */
  function ClearCreators(ps: seq<Point>): (r: seq<Point>)
    ensures |r| == |ps|
    ensures forall k :: 0 <= k < |ps| ==> r[k] == ps[k].(creatorId := None)
  {
    seq(|ps|, k requires 0 <= k < |ps| => ps[k].(creatorId := None))
  }

  /** `fetchAccessibilityPoints`: on a reply, the discovered points (creator
      cleared) then the location's overlay, written into one id-keyed map; on
      any failure, the location's overlay as stored when it is non-empty, and
      otherwise an error. The overlay itself is only read. */
  function FetchPoints(o: Overlay, loc: string, d: Discovery): (r: Result<seq<Point>, Error>)
    ensures r.Err? <==> (d.RequestFailed? || d.Unparsable?) && Get(o, loc) == []
    ensures r.Err? ==> r.error == DiscoveryUnavailable
    ensures (d.RequestFailed? || d.Unparsable?) && r.Ok? ==> r.value == Get(o, loc)
    ensures (d.EmptyText? || d.Parsed?) ==> r.Ok? && Distinct(r.value)
    ensures r.Ok? ==> forall q :: q in r.value ==>
      q in Get(o, loc) || (d.Parsed? && q in ClearCreators(d.points))
  {
    match d
    case RequestFailed => Fallback(o, loc)
    case Unparsable => Fallback(o, loc)
    case EmptyText => Ok(Collect(Get(o, loc)))
    case Parsed(ps) =>
      var api := ClearCreators(ps);
      var all := api + Get(o, loc);
      assert forall q :: q in all ==> q in api || q in Get(o, loc);
      Ok(Collect(all))
  }

  /** The `catch` branch of the fetch. */
  function Fallback(o: Overlay, loc: string): (r: Result<seq<Point>, Error>)
    ensures r.Ok? <==> Get(o, loc) != []
    ensures r.Ok? ==> r.value == Get(o, loc)
    ensures r.Err? ==> r.error == DiscoveryUnavailable
  {
    var stored := Get(o, loc);
    if |stored| > 0 then Ok(stored) else Err(DiscoveryUnavailable)
  }

  /** The location overlay beats the discovered points, and nothing else is
      merged in: for each id the fetched list holds the last overlay point of
      the location with that id, otherwise the last discovered one. */
  lemma FetchPrecedence(o: Overlay, loc: string, ps: seq<Point>, id: string)
    ensures FetchPoints(o, loc, Parsed(ps)).Ok?
    ensures FindById(FetchPoints(o, loc, Parsed(ps)).value, id) ==
      if HasId(Get(o, loc), id) then LastWithId(Get(o, loc), id)
      else LastWithId(ClearCreators(ps), id)
  {
    LastWithIdAppend(ClearCreators(ps), Get(o, loc), id);
  }

  /** A blank reply is an empty discovery result, and on a well-formed
      overlay it yields the location's overlay exactly as stored. */
  lemma EmptyTextIsOverlayOnly(o: Overlay, loc: string)
    requires WellFormed(o)
    ensures FetchPoints(o, loc, EmptyText) == FetchPoints(o, loc, Parsed([]))
    ensures FetchPoints(o, loc, EmptyText) == Ok(Get(o, loc))
  {
    assert ClearCreators([]) + Get(o, loc) == Get(o, loc);
    PartitionDistinct(o, loc);
    CollectDistinctIsIdentity(Get(o, loc));
  }

  /** In a well-formed overlay no partition repeats an id. */
  lemma PartitionDistinct(o: Overlay, loc: string)
    requires WellFormed(o)
    ensures Distinct(Get(o, loc))
  {
    match KeyIndex(o, loc)
    case Some(k) =>
      var ps := o[k].points;
      forall a, b | 0 <= a < b < |ps| ensures ps[a].id != ps[b].id {
        assert o[k].points[a].id != o[k].points[b].id;
      }
    case None =>
  }

  /** `saveNewAccessibilityPoint`: the new point gets the fresh id, the given
      position, the fixed address and the caller as creator, and is appended
      to the end of the location's partition. */
  function CreatePoint(o: Overlay, draft: Draft, position: Position, loc: string,
                       creatorId: string, freshId: string): (r: (Overlay, Point))
    ensures r.1.id == freshId && r.1.position == position
    ensures r.1.address == UserAddedAddress && r.1.creatorId == Some(creatorId)
    ensures r.1.name == draft.name && r.1.kind == draft.kind && r.1.description == draft.description
    ensures r.1.customIcon == draft.customIcon && r.1.ratings == draft.ratings
    ensures AppendedUnder(o, r.0, loc, r.1)
    ensures DistinctKeys(o) ==> DistinctKeys(r.0)
  {
    var p := Point(freshId, draft.name, UserAddedAddress, draft.kind, draft.description,
                   position, Some(creatorId), draft.customIcon, draft.ratings);
    (Assign(o, loc, Get(o, loc) + [p]), p)
  }

  /** With an id no partition uses, creating is the store's upsert under the
      caller's location, so the overlay stays well formed and the new point
      is then found there. */
  lemma CreateIsUpsert(o: Overlay, draft: Draft, position: Position, loc: string,
                       creatorId: string, freshId: string)
    requires !InOverlay(o, freshId)
    ensures var (o', p) := CreatePoint(o, draft, position, loc, creatorId, freshId);
      o' == Upsert(o, loc, p) && FindInOverlay(o', freshId) == Some(p)
      && (WellFormed(o) ==> WellFormed(o'))
  {
    var (o', p) := CreatePoint(o, draft, position, loc, creatorId, freshId);
    if WellFormed(o) {
      UpsertKeepsWellFormed(o, loc, p);
    }
  }

  /** Ownership merge: an existing creator is kept, and the updater becomes
      the creator only when there is none. */
  function WithOwner(p: Point, updaterId: string): (r: Point)
    ensures p.creatorId.Some? ==> r == p
    ensures p.creatorId.None? ==> r == p.(creatorId := Some(updaterId))
  {
    p.(creatorId := Some(p.creatorId.GetOr(updaterId)))
  }

  /** `updateAccessibilityPoint`: stores the point (creator kept, or set to
      the updater when absent) in the first partition holding its id, and
      only when none does, at the end of the caller's location. No ownership
      check is made here. */
  function UpdatePoint(o: Overlay, p: Point, loc: string, updaterId: string): (r: (Overlay, Point))
    ensures r.1.creatorId == if p.creatorId.Some? then p.creatorId else Some(updaterId)
    ensures r.1 == p.(creatorId := r.1.creatorId)
    ensures FindInOverlay(r.0, p.id) == Some(r.1)
    ensures InOverlay(o, p.id) ==> ReplacedInPlace(o, r.0, r.1) && PartitionOf(r.0, p.id) == PartitionOf(o, p.id)
    ensures !InOverlay(o, p.id) ==> AppendedUnder(o, r.0, loc, r.1)
    ensures DistinctKeys(o) ==> DistinctKeys(r.0)
  {
    var q := WithOwner(p, updaterId);
    (Upsert(o, loc, q), q)
  }

  /** The update keeps the overlay well formed: a point is never filed twice. */
  lemma UpdateKeepsWellFormed(o: Overlay, p: Point, loc: string, updaterId: string)
    requires WellFormed(o)
    ensures WellFormed(UpdatePoint(o, p, loc, updaterId).0)
  {
    UpsertKeepsWellFormed(o, loc, WithOwner(p, updaterId));
  }

  /** The point a rating applies to: the overlay copy first, then the seed. */
  function RatingTarget(o: Overlay, id: string): (r: Option<Point>)
    ensures r.None? <==> !InOverlay(o, id) && !HasId(DefaultPoints(), id)
    ensures InOverlay(o, id) ==> r == FindInOverlay(o, id)
    ensures !InOverlay(o, id) ==> r == FindById(DefaultPoints(), id)
  {
    match FindInOverlay(o, id)
    case Some(p) => Some(p)
    case None => FindById(DefaultPoints(), id)
  }

  /** `saveRatingForPoint`: finds the point in the overlay, else in the seed,
      else fails; records the user's rating and writes the point back where
      it was found, or for a seed point at the end of the caller's location.
      Only `ratings` changes. No range check is made on the value. */
  function RatePoint(o: Overlay, id: string, userId: string, value: int, loc: string)
    : (r: Result<(Overlay, Point), Error>)
    ensures r.Err? <==> !InOverlay(o, id) && !HasId(DefaultPoints(), id)
    ensures r.Err? ==> r.error == NotFound
    ensures r.Ok? ==>
      var p := RatingTarget(o, id).value;
      && r.value.1 == p.(ratings := r.value.1.ratings)
      && r.value.1.ratings.Some?
      && Rerated(p.ratings.GetOr([]), r.value.1.ratings.value, userId, value)
      && FindInOverlay(r.value.0, id) == Some(r.value.1)
    ensures r.Ok? && InOverlay(o, id) ==>
      ReplacedInPlace(o, r.value.0, r.value.1) && PartitionOf(r.value.0, id) == PartitionOf(o, id)
    ensures r.Ok? && !InOverlay(o, id) ==> AppendedUnder(o, r.value.0, loc, r.value.1)
  {
    match RatingTarget(o, id)
    case None => Err(NotFound)
    case Some(p) =>
      var q := p.(ratings := Some(UpsertRating(p.ratings, userId, value)));
      UpsertRatingRerates(p.ratings, userId, value);
      Ok((Upsert(o, loc, q), q))
  }

  /** Rating keeps the overlay well formed. */
  lemma RateKeepsWellFormed(o: Overlay, id: string, userId: string, value: int, loc: string)
    requires WellFormed(o) && (InOverlay(o, id) || HasId(DefaultPoints(), id))
    ensures WellFormed(RatePoint(o, id, userId, value, loc).value.0)
  {
    var p := RatingTarget(o, id).value;
    UpsertKeepsWellFormed(o, loc, p.(ratings := Some(UpsertRating(p.ratings, userId, value))));
  }

  /** Rating a second time with the same value changes neither the overlay
      nor the returned point, so the user keeps a single entry. */
  lemma RateIsIdempotent(o: Overlay, id: string, userId: string, value: int, loc: string, loc2: string)
    requires InOverlay(o, id) || HasId(DefaultPoints(), id)
    ensures var (o1, p1) := RatePoint(o, id, userId, value, loc).value;
      RatePoint(o1, id, userId, value, loc2) == Ok((o1, p1))
  {
    var (o1, p1) := RatePoint(o, id, userId, value, loc).value;
    var p := RatingTarget(o, id).value;
    assert InOverlay(o1, id);
    assert RatingTarget(o1, id) == Some(p1);
    UpsertRatingIdempotent(p.ratings, userId, value);
    UpsertStoredIsIdentity(o1, loc2, p1);
  }

  /** Once a point is in the overlay, rating it from any location writes to
      the partition that holds it, never to the caller's location. */
  lemma RateIgnoresLocationOfStoredPoint(o: Overlay, id: string, userId: string, value: int,
                                          loc1: string, loc2: string)
    requires InOverlay(o, id)
    ensures RatePoint(o, id, userId, value, loc1) == RatePoint(o, id, userId, value, loc2)
  {
  }

  /** A point known only from discovery cannot be rated. */
  lemma DiscoveredOnlyCannotBeRated(o: Overlay, p: Point, userId: string, value: int, loc: string)
    requires !InOverlay(o, p.id) && !HasId(DefaultPoints(), p.id)
    ensures RatePoint(o, p.id, userId, value, loc) == Err(NotFound)
  {
  }
}
