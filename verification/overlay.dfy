/** The persisted overlay of user points: an object mapping a location (the
    search text) to the list of points created or edited under it
    (services/geminiService.ts). JavaScript object keys are distinct and keep
    their insertion order, so the overlay is an ordered list of partitions
    with distinct locations; assigning an existing key keeps its position and
    a new key goes to the end. */
module OverlayStore {
  import opened Wrappers
  import opened Types
  import opened PointLists

  /** The points filed under one location. */
  datatype Partition = Partition(location: string, points: seq<Point>)

  /** The decoded overlay, in key order. */
  type Overlay = seq<Partition>

  /** No location is stored twice (object keys are unique). */
  predicate DistinctKeys(o: Overlay) {
    forall i, j :: 0 <= i < j < |o| ==> o[i].location != o[j].location
  }

  /** No id occurs at two places of the overlay, within a partition or
      across partitions. */
  predicate UniqueIds(o: Overlay) {
    forall i, a, j, b ::
      (0 <= i < |o| && 0 <= j < |o| && 0 <= a < |o[i].points| && 0 <= b < |o[j].points|
       && (i != j || a != b)) ==> o[i].points[a].id != o[j].points[b].id
  }

  /** The state every store operation keeps. */
  predicate WellFormed(o: Overlay) {
    DistinctKeys(o) && UniqueIds(o)
  }

  /** Some partition holds a point with `id`. */
  predicate InOverlay(o: Overlay, id: string) {
    exists k :: 0 <= k < |o| && HasId(o[k].points, id)
  }

  /** The position of the partition stored under `loc`, if any. */
  function KeyIndex(o: Overlay, loc: string): (r: Option<nat>)
    ensures r.Some? ==> r.value < |o| && o[r.value].location == loc
    ensures r.Some? ==> forall k :: 0 <= k < r.value ==> o[k].location != loc
    ensures r.None? <==> forall k :: 0 <= k < |o| ==> o[k].location != loc
  {
    if |o| == 0 then None
    else if o[0].location == loc then Some(0)
    else match KeyIndex(o[1..], loc)
      case None => None
      case Some(k) => Some(k + 1)
  }

  /** `allUserPoints[location] || []`: the points filed under `loc`, or none. */
  function Get(o: Overlay, loc: string): (r: seq<Point>)
    ensures DistinctKeys(o) ==>
      forall k :: 0 <= k < |o| && o[k].location == loc ==> r == o[k].points
    ensures (forall k :: 0 <= k < |o| ==> o[k].location != loc) ==> r == []
  {
    match KeyIndex(o, loc)
    case Some(k) => o[k].points
    case None => []
  }

  /** `allUserPoints[location] = pts`: replaces the partition in place, or
      adds a new one at the end. */
  function Assign(o: Overlay, loc: string, pts: seq<Point>): (r: Overlay)
    ensures Get(r, loc) == pts
    ensures forall l :: l != loc ==> Get(r, l) == Get(o, l)
    ensures DistinctKeys(o) ==> DistinctKeys(r)
    ensures |o| <= |r| <= |o| + 1
    ensures forall k :: 0 <= k < |o| && o[k].location != loc ==> r[k] == o[k]
    ensures forall k :: 0 <= k < |r| ==> r[k].location != loc ==> k < |o| && r[k] == o[k]
  {
    match KeyIndex(o, loc)
    case Some(k) => ReplaceAt(o, k, loc, pts)
    case None => AddKey(o, loc, pts)
  }

  /** Assignment to a key already stored at position `k`. */
  function ReplaceAt(o: Overlay, k: nat, loc: string, pts: seq<Point>): (r: Overlay)
    requires KeyIndex(o, loc) == Some(k)
    ensures |r| == |o| && r[k] == Partition(loc, pts)
    ensures forall j :: 0 <= j < |o| && j != k ==> r[j] == o[j]
    ensures Get(r, loc) == pts
    ensures forall l :: l != loc ==> Get(r, l) == Get(o, l)
  {
    var r := o[k := Partition(loc, pts)];
    KeyIndexIs(r, loc, k);
    assert forall l :: l != loc ==> KeyIndex(r, l) == KeyIndex(o, l) by {
      forall l | l != loc ensures KeyIndex(r, l) == KeyIndex(o, l) {
        KeyIndexUnchanged(o, r, l);
      }
    }
    r
  }

  /** Assignment to a key not stored yet: a new partition at the end. */
  function AddKey(o: Overlay, loc: string, pts: seq<Point>): (r: Overlay)
    requires KeyIndex(o, loc).None?
    ensures r == o + [Partition(loc, pts)]
    ensures Get(r, loc) == pts
    ensures forall l :: l != loc ==> Get(r, l) == Get(o, l)
  {
    var r := o + [Partition(loc, pts)];
    KeyIndexIs(r, loc, |o|);
    assert forall l :: l != loc ==> KeyIndex(r, l) == KeyIndex(o, l) by {
      forall l | l != loc ensures KeyIndex(r, l) == KeyIndex(o, l) {
        KeyIndexUnchanged(o, r, l);
      }
    }
    r
  }

  /** Partitions that agree on where `l` is stored give the same key index. */
  lemma KeyIndexUnchanged(o: Overlay, r: Overlay, l: string)
    requires |o| <= |r|
    requires forall k :: 0 <= k < |o| ==> (r[k].location == l <==> o[k].location == l)
    requires forall k :: |o| <= k < |r| ==> r[k].location != l
    ensures KeyIndex(r, l) == KeyIndex(o, l)
  {
    var a := KeyIndex(o, l);
    if a.Some? {
      KeyIndexIs(r, l, a.value);
    }
  }

  /** Pins the position of the partition stored under `loc`. */
  lemma KeyIndexIs(o: Overlay, loc: string, k: nat)
    requires k < |o| && o[k].location == loc
    requires forall j :: 0 <= j < k ==> o[j].location != loc
    ensures KeyIndex(o, loc) == Some(k)
  {
  }

  /** `Object.values(allUserPoints).flat()`: every overlay point, partition by
      partition. */
  function Flatten(o: Overlay): seq<Point> {
    if |o| == 0 then [] else Flatten(o[..|o| - 1]) + o[|o| - 1].points
  }

  /** The `for (const loc in allUserPoints)` search: the first partition, in
      key order, that holds `id`. */
  function PartitionOf(o: Overlay, id: string): (r: Option<nat>)
    ensures r.Some? ==> r.value < |o| && HasId(o[r.value].points, id)
    ensures r.Some? ==> forall k :: 0 <= k < r.value ==> !HasId(o[k].points, id)
    ensures r.None? <==> !InOverlay(o, id)
  {
    if |o| == 0 then None
    else if HasId(o[0].points, id) then Some(0)
    else match PartitionOf(o[1..], id)
      case None =>
        assert forall k :: 1 <= k < |o| ==> o[k] == o[1..][k - 1];
        None
      case Some(k) => Some(k + 1)
  }

  /** The overlay copy of point `id`, found by scanning every partition. */
  function FindInOverlay(o: Overlay, id: string): (r: Option<Point>)
    ensures r.Some? ==> r.value.id == id && exists k :: 0 <= k < |o| && r.value in o[k].points
    ensures r.None? <==> !InOverlay(o, id)
    ensures r.Some? ==> PartitionOf(o, id).Some?
    ensures r.Some? ==>
      var ps := o[PartitionOf(o, id).value].points;
      exists a :: 0 <= a < |ps| && ps[a] == r.value && forall b :: 0 <= b < a ==> ps[b].id != id
  {
    match PartitionOf(o, id)
    case Some(k) => FindById(o[k].points, id)
    case None => None
  }

  /** `allUserPoints[loc][index] = q` at the first partition holding `q.id`,
      at the first index there: that one slot changes, the partition keeps its
      location and every other point, and every other partition is kept. */
  predicate ReplacedInPlace(o: Overlay, r: Overlay, q: Point) {
    && PartitionOf(o, q.id).Some?
    && var k := PartitionOf(o, q.id).value;
    && IndexOfId(o[k].points, q.id).Some?
    && |r| == |o|
    && r[k].location == o[k].location
    && r[k].points == o[k].points[IndexOfId(o[k].points, q.id).value := q]
    && forall j :: 0 <= j < |o| && j != k ==> r[j] == o[j]
  }

  /** `allUserPoints[loc] = (allUserPoints[loc] || []).concat([q])`: `q` goes
      to the end of the partition of `loc`, which keeps its place in key order
      or is added as the last key; every other partition is kept in place. */
  ghost predicate AppendedUnder(o: Overlay, r: Overlay, loc: string, q: Point) {
    && Get(r, loc) == Get(o, loc) + [q]
    && (forall l :: l != loc ==> Get(r, l) == Get(o, l))
    && |o| <= |r| <= |o| + 1
    && (forall k :: 0 <= k < |o| && o[k].location != loc ==> r[k] == o[k])
    && (forall k :: 0 <= k < |r| && r[k].location != loc ==> k < |o| && r[k] == o[k])
  }

  /** The write both the update and the rating perform: replace the point in
      the first partition that holds its id, and only when no partition does,
      append it to the partition of `loc`. */
  function Upsert(o: Overlay, loc: string, q: Point): (r: Overlay)
    ensures DistinctKeys(o) ==> DistinctKeys(r)
    ensures FindInOverlay(r, q.id) == Some(q)
    ensures InOverlay(o, q.id) ==> ReplacedInPlace(o, r, q) && PartitionOf(r, q.id) == PartitionOf(o, q.id)
    ensures !InOverlay(o, q.id) ==> AppendedUnder(o, r, loc, q)
  {
    match PartitionOf(o, q.id)
    case Some(k) =>
      var r := o[k := Partition(o[k].location, Put(o[k].points, q))];
      ReplaceKeepsIds(o, k, q);
      ReplaceFindsPoint(o, k, q);
      r
    case None =>
      var r := Assign(o, loc, Get(o, loc) + [q]);
      AppendFindsNewPoint(o, loc, q);
      r
  }

  /** Replacing the point with `q.id` inside its first partition leaves the id
      at every position of the overlay unchanged. */
  lemma ReplaceKeepsIds(o: Overlay, k: nat, q: Point)
    requires PartitionOf(o, q.id) == Some(k)
    ensures var r := o[k := Partition(o[k].location, Put(o[k].points, q))];
      && |r| == |o|
      && (forall i :: 0 <= i < |o| ==> |r[i].points| == |o[i].points|)
      && (forall i, a :: 0 <= i < |o| && 0 <= a < |o[i].points| ==> r[i].points[a].id == o[i].points[a].id)
      && ReplacedInPlace(o, r, q)
  {
    var ps := o[k].points;
    var i := IndexOfId(ps, q.id).value;
    assert Put(ps, q) == ps[i := q];
  }

  /** After that replacement the search finds `q` in the same partition. */
  lemma ReplaceFindsPoint(o: Overlay, k: nat, q: Point)
    requires PartitionOf(o, q.id) == Some(k)
    ensures var r := o[k := Partition(o[k].location, Put(o[k].points, q))];
      && PartitionOf(r, q.id) == Some(k)
      && FindInOverlay(r, q.id) == Some(q)
  {
    var ps := o[k].points;
    var i := IndexOfId(ps, q.id).value;
    assert Put(ps, q) == ps[i := q];
    var r := o[k := Partition(o[k].location, Put(ps, q))];
    assert forall j :: 0 <= j < k ==> r[j] == o[j];
    assert HasId(r[k].points, q.id) by { assert r[k].points[i].id == q.id; }
    PartitionOfIs(r, q.id, k);
  }

  /** Two overlays of the same shape with the same id at every position are
      equally free of repeated ids. */
  lemma SameIdsKeepUnique(o: Overlay, r: Overlay)
    requires UniqueIds(o) && |r| == |o|
    requires forall i :: 0 <= i < |o| ==> |r[i].points| == |o[i].points|
    requires forall i, a :: 0 <= i < |o| && 0 <= a < |o[i].points| ==> r[i].points[a].id == o[i].points[a].id
    ensures UniqueIds(r)
  {
  }

  /** Pins the first partition holding `id`. */
  lemma PartitionOfIs(o: Overlay, id: string, k: nat)
    requires k < |o| && HasId(o[k].points, id)
    requires forall j :: 0 <= j < k ==> !HasId(o[j].points, id)
    ensures PartitionOf(o, id) == Some(k)
  {
  }

  /** Appending a point whose id is nowhere in the overlay files it under
      `loc`, where the search then finds it. */
  lemma AppendFindsNewPoint(o: Overlay, loc: string, q: Point)
    requires !InOverlay(o, q.id)
    ensures FindInOverlay(Assign(o, loc, Get(o, loc) + [q]), q.id) == Some(q)
  {
    var r := Assign(o, loc, Get(o, loc) + [q]);
    match KeyIndex(o, loc)
    case Some(i) =>
      assert !HasId(o[i].points, q.id);
      assert r == o[i := Partition(loc, o[i].points + [q])];
      OnlyHolderFinds(r, i, q);
    case None =>
      assert Get(o, loc) + [q] == [q];
      assert r == o + [Partition(loc, [q])];
      OnlyHolderFinds(r, |o|, q);
  }

  /** When exactly one partition holds `q.id`, and there only as `q` itself,
      the search finds `q`. */
  lemma OnlyHolderFinds(r: Overlay, j: nat, q: Point)
    requires j < |r| && |r[j].points| > 0 && r[j].points[|r[j].points| - 1] == q
    requires !HasId(r[j].points[..|r[j].points| - 1], q.id)
    requires forall k :: 0 <= k < |r| && k != j ==> !HasId(r[k].points, q.id)
    ensures FindInOverlay(r, q.id) == Some(q)
  {
    var ps := r[j].points;
    assert HasId(ps, q.id);
    PartitionOfIs(r, q.id, j);
  }

  /** An id outside the overlay is carried by none of its points. */
  lemma NotInOverlayIsAbsent(o: Overlay, id: string)
    requires !InOverlay(o, id)
    ensures forall i, a :: 0 <= i < |o| && 0 <= a < |o[i].points| ==> o[i].points[a].id != id
  {
    forall i, a | 0 <= i < |o| && 0 <= a < |o[i].points| ensures o[i].points[a].id != id {
      assert !HasId(o[i].points, id);
    }
  }

  /** Appending a point with a new id to an existing partition keeps ids unique. */
  lemma AppendToPartitionKeepsUnique(o: Overlay, j: nat, q: Point)
    requires UniqueIds(o) && !InOverlay(o, q.id) && j < |o|
    ensures UniqueIds(o[j := Partition(o[j].location, o[j].points + [q])])
  {
    NotInOverlayIsAbsent(o, q.id);
    var r := o[j := Partition(o[j].location, o[j].points + [q])];
    forall i, a, i', b | 0 <= i < |r| && 0 <= i' < |r| && 0 <= a < |r[i].points|
        && 0 <= b < |r[i'].points| && (i != i' || a != b)
      ensures r[i].points[a].id != r[i'].points[b].id
    {
      var new1 := i == j && a == |o[j].points|;
      var new2 := i' == j && b == |o[j].points|;
      if !new1 { assert r[i].points[a] == o[i].points[a]; }
      if !new2 { assert r[i'].points[b] == o[i'].points[b]; }
    }
  }

  /** Adding a new partition holding only a point with a new id keeps ids unique. */
  lemma AppendPartitionKeepsUnique(o: Overlay, loc: string, q: Point)
    requires UniqueIds(o) && !InOverlay(o, q.id)
    ensures UniqueIds(o + [Partition(loc, [q])])
  {
    NotInOverlayIsAbsent(o, q.id);
    var r := o + [Partition(loc, [q])];
    forall i, a, i', b | 0 <= i < |r| && 0 <= i' < |r| && 0 <= a < |r[i].points|
        && 0 <= b < |r[i'].points| && (i != i' || a != b)
      ensures r[i].points[a].id != r[i'].points[b].id
    {
      if i < |o| { assert r[i] == o[i]; }
      if i' < |o| { assert r[i'] == o[i']; }
    }
  }

  /** The upsert keeps the overlay well formed: it never files an id twice,
      within a partition or across partitions. */
  lemma UpsertKeepsWellFormed(o: Overlay, loc: string, q: Point)
    requires WellFormed(o)
    ensures WellFormed(Upsert(o, loc, q))
  {
    var r := Upsert(o, loc, q);
    match PartitionOf(o, q.id)
    case Some(k) =>
      ReplaceKeepsIds(o, k, q);
      SameIdsKeepUnique(o, r);
    case None =>
      match KeyIndex(o, loc)
      case Some(j) =>
        assert r == o[j := Partition(o[j].location, o[j].points + [q])];
        AppendToPartitionKeepsUnique(o, j, q);
      case None =>
        assert Get(o, loc) + [q] == [q];
        assert r == o + [Partition(loc, [q])];
        AppendPartitionKeepsUnique(o, loc, q);
  }

  /** A point is in the flattened overlay exactly when some partition holds it. */
  lemma {:induction false} FlattenMembers(o: Overlay, q: Point)
    ensures q in Flatten(o) <==> exists k :: 0 <= k < |o| && q in o[k].points
    decreases |o|
  {
    if |o| > 0 {
      var prefix := o[..|o| - 1];
      FlattenMembers(prefix, q);
      assert forall k :: 0 <= k < |prefix| ==> prefix[k] == o[k];
      if q in Flatten(o) && q !in o[|o| - 1].points {
        var k :| 0 <= k < |prefix| && q in prefix[k].points;
        assert q in o[k].points;
      }
    }
  }

  /** With unique ids, the flattened overlay has no repeated id. */
  lemma {:induction false} FlattenDistinct(o: Overlay)
    requires UniqueIds(o)
    ensures Distinct(Flatten(o))
    decreases |o|
  {
    if |o| > 0 {
      var prefix := o[..|o| - 1];
      var last := o[|o| - 1].points;
      assert UniqueIds(prefix) by {
        assert forall k :: 0 <= k < |prefix| ==> prefix[k] == o[k];
      }
      FlattenDistinct(prefix);
      var f := Flatten(prefix);
      var all: seq<Point> := f + last;
      assert Flatten(o) == all;
      forall x: int, y: int | 0 <= x < y < |all| ensures all[x].id != all[y].id {
        if y < |f| {
        } else if x >= |f| {
          assert all[x] == last[x - |f|] && all[y] == last[y - |f|];
        } else {
          var q := f[x];
          assert q in f;
          FlattenMembers(prefix, q);
          var k :| 0 <= k < |prefix| && q in prefix[k].points;
          var a :| 0 <= a < |o[k].points| && o[k].points[a] == q;
          assert all[x] == q;
          assert all[y] == o[|o| - 1].points[y - |f|];
        }
      }
    }
  }

  /** Finding an id inside the overlay agrees with finding it in the
      flattened list when ids are unique. */
  lemma FindInOverlayIsInFlatten(o: Overlay, id: string)
    requires UniqueIds(o)
    ensures InOverlay(o, id) <==> HasId(Flatten(o), id)
    ensures InOverlay(o, id) ==> FindInOverlay(o, id) == FindById(Flatten(o), id)
  {
    var f := Flatten(o);
    FlattenDistinct(o);
    if InOverlay(o, id) {
      var q := FindInOverlay(o, id).value;
      var k :| 0 <= k < |o| && q in o[k].points;
      FlattenMembers(o, q);
      var x :| 0 <= x < |f| && f[x] == q;
      FindInDistinct(f, x);
    }
    if HasId(f, id) {
      var x :| 0 <= x < |f| && f[x].id == id;
      FlattenMembers(o, f[x]);
      var k :| 0 <= k < |o| && f[x] in o[k].points;
      var a :| 0 <= a < |o[k].points| && o[k].points[a] == f[x];
      assert HasId(o[k].points, id);
    }
  }

  /** Upserting the very point already stored under its id changes nothing. */
  lemma UpsertStoredIsIdentity(o: Overlay, loc: string, q: Point)
    requires FindInOverlay(o, q.id) == Some(q)
    ensures Upsert(o, loc, q) == o
  {
    var k := PartitionOf(o, q.id).value;
    var ps := o[k].points;
    var i := IndexOfId(ps, q.id).value;
    assert ps[i] == q;
    assert Put(ps, q) == ps;
    assert o[k := Partition(o[k].location, ps)] == o;
  }
}
