/** The screen's list of points (App.tsx): what each handler does to the
    shown list and the selected point, including the optimistic apply,
    confirm and roll back around the store's mutations. The awaited store
    call is an input: `reply` is what it resolved or rejected with. */
module App {
  import opened Wrappers
  import opened Types
  import opened PointLists
  import opened Ratings
  import opened OverlayStore
  import opened Repository
  import opened Details

  /** The part of the screen state the handlers change. */
  datatype Screen = Screen(
    points: seq<Point>,
    selected: Option<Point>,
    user: Option<User>,
    query: string,
    newPointCoords: Option<Position>)

  /** `loadInitialData`: the initial points, or an empty list on failure. */
  function LoadInitial<E>(st: Screen, reply: Result<seq<Point>, E>): (r: Screen)
    ensures reply.Ok? ==> r.points == reply.value
    ensures reply.Err? ==> r.points == []
    ensures r == st.(points := r.points)
  {
    st.(points := if reply.Ok? then reply.value else [])
  }

  /** On a first run, with nothing stored yet, the screen opens on the five
      seed points in their order. */
  lemma FirstLoadShowsSeed(st: Screen)
    ensures LoadInitial<Error>(st, Ok(InitialPoints([]))).points == Seed.DefaultPoints()
  {
    Seed.SeedIsWellFormed();
    assert Seed.DefaultPoints() + Flatten([]) == Seed.DefaultPoints();
    CollectDistinctIsIdentity(Seed.DefaultPoints());
  }

  /** `handleSearch`: remembers the query, clears the selection and shows
      exactly the fetched points, or nothing when the fetch failed. */
  function Search<E>(st: Screen, query: string, reply: Result<seq<Point>, E>): (r: Screen)
    ensures r.query == query && r.selected.None?
    ensures reply.Ok? ==> r.points == reply.value
    ensures reply.Err? ==> r.points == []
    ensures r.user == st.user && r.newPointCoords == st.newPointCoords
  {
    st.(query := query, selected := None, points := if reply.Ok? then reply.value else [])
  }

  /** Searching a location whose discovery fails shows its stored overlay
      points when there are any and an empty list otherwise; a successful
      discovery never shows the same id twice. */
  lemma SearchShowsOverlayOnFailure(st: Screen, o: Overlay, query: string, d: Discovery)
    ensures var r := Search(st, query, FetchPoints(o, query, d));
      && ((d.RequestFailed? || d.Unparsable?) ==> r.points == Get(o, query))
      && ((d.EmptyText? || d.Parsed?) ==> Distinct(r.points))
  {
  }

  /** `handleSaveNewPoint`: without chosen coordinates or a user nothing
      happens; a stored point is appended to the list and selected; a failed
      save leaves the list alone. */
  function SaveNewPoint<E>(st: Screen, reply: Result<Point, E>): (r: Screen)
    ensures st.newPointCoords.None? || st.user.None? || reply.Err? ==> r == st
    ensures st.newPointCoords.Some? && st.user.Some? && reply.Ok? ==>
      && r.points == st.points + [reply.value]
      && r.selected == Some(reply.value)
      && r.newPointCoords.None?
    ensures r == st.(points := r.points, selected := r.selected, newPointCoords := r.newPointCoords)
  {
    if st.newPointCoords.None? || st.user.None? then st
    else match reply
      case Ok(p) => st.(points := st.points + [p], selected := Some(p), newPointCoords := None)
      case Err(_) => st
  }

  /** With the store's own answer, the appended point sits at the chosen
      coordinates and belongs to the user. */
  lemma SavedPointBelongsToUser(st: Screen, o: Overlay, draft: Draft, freshId: string)
    requires st.newPointCoords.Some? && st.user.Some?
    ensures var p := CreatePoint(o, draft, st.newPointCoords.value, st.query, st.user.value.id, freshId).1;
      var r := SaveNewPoint<Error>(st, Ok(p));
      && r.points[|r.points| - 1].creatorId == Some(st.user.value.id)
      && r.points[|r.points| - 1].position == st.newPointCoords.value
      && r.points[..|st.points|] == st.points
  {
  }

  /** Shows `tentative` in place of the point with `id` and selects it. */
  function ApplyOptimistic(st: Screen, id: string, tentative: Point): (r: Screen)
    ensures |r.points| == |st.points|
    ensures forall k :: 0 <= k < |st.points| ==>
      r.points[k] == if st.points[k].id == id then tentative else st.points[k]
    ensures r.selected == Some(tentative)
    ensures r == st.(points := r.points, selected := r.selected)
  {
    st.(points := ReplaceById(st.points, id, tentative), selected := Some(tentative))
  }

  /** After an edit resolves: the confirmed point, or on failure the point as
      it was before the edit, replaces the tentative one and is selected. */
  function SettleEdit<E>(st: Screen, id: string, original: Point, reply: Result<Point, E>): (r: Screen)
    ensures |r.points| == |st.points|
    ensures reply.Ok? ==> r.selected == Some(reply.value)
    ensures reply.Err? ==> r.selected == Some(original)
    ensures forall k :: 0 <= k < |st.points| ==>
      r.points[k] == if st.points[k].id == id then r.selected.value else st.points[k]
    ensures r == st.(points := r.points, selected := r.selected)
  {
    var shown := if reply.Ok? then reply.value else original;
    st.(points := ReplaceById(st.points, id, shown), selected := Some(shown))
  }

  /** `handleUpdateIcon`: nothing without the point or a user; otherwise the
      new icon is shown at once and then confirmed or rolled back. */
  function UpdateIcon<E>(st: Screen, id: string, icon: string, reply: Result<Point, E>): (r: Screen)
    ensures FindById(st.points, id).None? || st.user.None? ==> r == st
    ensures |r.points| == |st.points|
    ensures forall k :: 0 <= k < |st.points| && st.points[k].id != id ==> r.points[k] == st.points[k]
    ensures FindById(st.points, id).Some? && st.user.Some? ==>
      var shown := if reply.Ok? then reply.value else FindById(st.points, id).value;
      && r.selected == Some(shown)
      && forall k :: 0 <= k < |st.points| && st.points[k].id == id ==> r.points[k] == shown
    ensures r == st.(points := r.points, selected := r.selected)
  {
    match FindById(st.points, id)
    case None => st
    case Some(p) =>
      if st.user.None? then st
      else SettleEdit(ApplyOptimistic(st, id, p.(customIcon := Some(icon))), id, p, reply)
  }

  /** `handleRenamePoint`: nothing without the point, when the name is the
      same, or without a user; otherwise the new name is shown at once and
      then confirmed or rolled back. */
  function Rename<E>(st: Screen, id: string, newName: string, reply: Result<Point, E>): (r: Screen)
    ensures (FindById(st.points, id).None? || st.user.None?
             || FindById(st.points, id).value.name == newName) ==> r == st
    ensures |r.points| == |st.points|
    ensures forall k :: 0 <= k < |st.points| && st.points[k].id != id ==> r.points[k] == st.points[k]
    ensures FindById(st.points, id).Some? && st.user.Some?
            && FindById(st.points, id).value.name != newName ==>
      var shown := if reply.Ok? then reply.value else FindById(st.points, id).value;
      && r.selected == Some(shown)
      && forall k :: 0 <= k < |st.points| && st.points[k].id == id ==> r.points[k] == shown
    ensures r == st.(points := r.points, selected := r.selected)
  {
    match FindById(st.points, id)
    case None => st
    case Some(p) =>
      if p.name == newName || st.user.None? then st
      else SettleEdit(ApplyOptimistic(st, id, p.(name := newName)), id, p, reply)
  }

  /** A failed icon update or rename on a list without repeated ids gives
      back exactly the list shown before the call. */
  lemma FailedEditRestoresList<E>(st: Screen, id: string, icon: string, newName: string, e: E)
    requires Distinct(st.points)
    ensures UpdateIcon(st, id, icon, Err(e)).points == st.points
    ensures Rename(st, id, newName, Err(e)).points == st.points
  {
    var f := FindById(st.points, id);
    if f.Some? {
      forall k | 0 <= k < |st.points| && st.points[k].id == id ensures st.points[k] == f.value {
        FindInDistinct(st.points, k);
      }
    }
  }

  /** The rating list shown at once: the user's entry replaced where it is,
      or appended, an absent list becoming a single entry. */
  function OptimisticRating(p: Point, userId: string, value: int): (q: Point)
    ensures q == p.(ratings := q.ratings) && q.ratings.Some?
    ensures p.ratings.None? ==> q.ratings.value == [Rating(userId, value)]
    ensures Rerated(p.ratings.GetOr([]), q.ratings.value, userId, value)
  {
    UpsertRatingRerates(p.ratings, userId, value);
    p.(ratings := Some(UpsertRating(p.ratings, userId, value)))
  }

  /** `handleRatePoint`: nothing without a user or the point; otherwise the
      rating is shown at once; on success the stored point replaces it, on
      failure the whole list returns to the snapshot taken before the call.
      The selection follows only when it was this point. */
  function Rate<E>(st: Screen, id: string, value: int, reply: Result<Point, E>): (r: Screen)
    ensures st.user.None? || FindById(st.points, id).None? ==> r == st
    ensures reply.Err? ==> r.points == st.points
    ensures |r.points| == |st.points|
    ensures forall k :: 0 <= k < |st.points| && st.points[k].id != id ==> r.points[k] == st.points[k]
    ensures st.user.Some? && FindById(st.points, id).Some? && reply.Ok? ==>
      forall k :: 0 <= k < |st.points| && st.points[k].id == id ==> r.points[k] == reply.value
    ensures st.selected.None? || st.selected.value.id != id ==> r.selected == st.selected
    ensures (reply.Ok? && st.selected.Some? && st.selected.value.id == id && st.user.Some?
             && FindById(st.points, id).Some?) ==> r.selected == Some(reply.value)
    ensures (reply.Err? && st.selected.Some? && st.selected.value.id == id && st.user.Some?
             && FindById(st.points, id).Some?) ==> r.selected == FindById(st.points, id)
    ensures r == st.(points := r.points, selected := r.selected)
  {
    if st.user.None? then st
    else match FindById(st.points, id)
      case None => st
      case Some(p) =>
        var tentative := OptimisticRating(p, st.user.value.id, value);
        var shown := ReplaceById(st.points, id, tentative);
        var isSelected := st.selected.Some? && st.selected.value.id == id;
        match reply
        case Ok(f) =>
          st.(points := ReplaceById(shown, id, f), selected := if isSelected then Some(f) else st.selected)
        case Err(_) =>
          st.(selected := if isSelected then FindById(st.points, id) else st.selected)
  }

  /** The store's answer to a rating, as the screen receives it. */
  function RatedPoint(r: Result<(Overlay, Point), Error>): Result<Point, Error> {
    match r
    case Ok((_, p)) => Ok(p)
    case Err(e) => Err(e)
  }

  /** When the screen shows the same copy the store holds, the optimistic
      rating is exactly the point the store then confirms. */
  lemma OptimisticMatchesStore(o: Overlay, p: Point, userId: string, value: int, loc: string)
    requires RatingTarget(o, p.id) == Some(p)
    ensures RatedPoint(RatePoint(o, p.id, userId, value, loc)) == Ok(OptimisticRating(p, userId, value))
  {
  }

  /** Rating a point known only from discovery is shown for a moment and then
      rolled back: the store cannot find it, so the list is the snapshot
      again. */
  lemma RatingDiscoveredPointRollsBack(st: Screen, o: Overlay, id: string, value: int)
    requires st.user.Some?
    requires !InOverlay(o, id) && !HasId(Seed.DefaultPoints(), id)
    ensures RatePoint(o, id, st.user.value.id, value, st.query) == Err(NotFound)
    ensures Rate(st, id, value, RatedPoint(RatePoint(o, id, st.user.value.id, value, st.query))).points
            == st.points
  {
  }

  /** A name edited only by surrounding white space sends a rename request
      whose name equals the current one, which the screen ignores. */
  lemma PaddedNameIsNoOp<E>(st: Screen, ed: NameEditor, p: Point, reply: Result<Point, E>)
    requires Distinct(st.points) && p in st.points
    requires ed.buffer != p.name && Trim(ed.buffer) == p.name && p.name != []
    ensures SaveName(ed, Some(p)).1 == Some(RenameRequest(p.id, p.name))
    ensures Rename(st, p.id, p.name, reply) == st
  {
    var k :| 0 <= k < |st.points| && st.points[k] == p;
    FindInDistinct(st.points, k);
  }
}
