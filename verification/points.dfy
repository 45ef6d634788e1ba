/** Lists of points keyed by id: the array searches (`findIndex`, `find`)
    and the id-keyed `Map` that the store builds its merged views with. */
module PointLists {
  import opened Wrappers
  import opened Types

  /** Some element of `xs` carries `id`. */
  predicate HasId(xs: seq<Point>, id: string) {
    exists j :: 0 <= j < |xs| && xs[j].id == id
  }

  /** No two elements of `xs` share an id. */
  predicate Distinct(xs: seq<Point>) {
    forall i, j :: 0 <= i < j < |xs| ==> xs[i].id != xs[j].id
  }

  /** `findIndex(p => p.id === id)`: the first index holding `id`, or none. */
  function IndexOfId(xs: seq<Point>, id: string): (r: Option<nat>)
    ensures r.Some? ==> r.value < |xs| && xs[r.value].id == id
    ensures r.Some? ==> forall j :: 0 <= j < r.value ==> xs[j].id != id
    ensures r.None? <==> !HasId(xs, id)
  {
    if |xs| == 0 then None
    else if xs[0].id == id then Some(0)
    else match IndexOfId(xs[1..], id)
      case None => None
      case Some(i) => Some(i + 1)
  }

  /** `find(p => p.id === id)`: the first point holding `id`, or none. */
  function FindById(xs: seq<Point>, id: string): (r: Option<Point>)
    ensures r.Some? ==> r.value in xs && r.value.id == id
    ensures r.Some? ==> exists k :: 0 <= k < |xs| && xs[k] == r.value && forall j :: 0 <= j < k ==> xs[j].id != id
    ensures r.None? <==> !HasId(xs, id)
  {
    match IndexOfId(xs, id)
    case Some(i) => Some(xs[i])
    case None => None
  }

  /** In a list without repeated ids, the point found for an id is the only
      element with that id. */
  lemma FindInDistinct(xs: seq<Point>, k: nat)
    requires Distinct(xs) && k < |xs|
    ensures FindById(xs, xs[k].id) == Some(xs[k])
    ensures IndexOfId(xs, xs[k].id) == Some(k)
  {
  }

  /** `map.set(p.id, p)` on a `Map` whose values, in insertion order, are
      `acc`: an existing entry keeps its position and takes the new value,
      a new id goes to the end. */
  function Put(acc: seq<Point>, p: Point): (r: seq<Point>)
    ensures Distinct(acc) ==> Distinct(r)
    ensures HasId(acc, p.id) ==> |r| == |acc|
    ensures !HasId(acc, p.id) ==> r == acc + [p]
    ensures forall id :: FindById(r, id) == if id == p.id then Some(p) else FindById(acc, id)
    ensures forall k :: 0 <= k < |acc| && acc[k].id != p.id ==> r[k] == acc[k]
    ensures forall q :: q in r ==> q in acc || q == p
  {
    match IndexOfId(acc, p.id)
    case Some(i) =>
      var r := acc[i := p];
      assert forall id :: FindById(r, id) == if id == p.id then Some(p) else FindById(acc, id) by {
        forall id ensures FindById(r, id) == if id == p.id then Some(p) else FindById(acc, id) {
          IndexAfterReplace(acc, i, p, id);
        }
      }
      r
    case None =>
      var r := acc + [p];
      assert forall id :: FindById(r, id) == if id == p.id then Some(p) else FindById(acc, id) by {
        forall id ensures FindById(r, id) == if id == p.id then Some(p) else FindById(acc, id) {
          IndexAfterAppend(acc, p, id);
        }
      }
      r
  }

  /** Overwriting the first occurrence of an id leaves every first-occurrence
      index unchanged. */
  lemma IndexAfterReplace(acc: seq<Point>, i: nat, p: Point, id: string)
    requires IndexOfId(acc, p.id) == Some(i)
    ensures IndexOfId(acc[i := p], id) == IndexOfId(acc, id)
  {
    var r := acc[i := p];
    var a := IndexOfId(acc, id);
    var b := IndexOfId(r, id);
    if id == p.id {
      assert r[i].id == id;
      assert b.Some? && b.value == i;
    } else {
      assert forall j :: 0 <= j < |acc| ==> (r[j].id == id <==> acc[j].id == id);
      if a.Some? {
        assert b.Some? && b.value == a.value;
      } else {
        assert b.None?;
      }
    }
  }

  /** Appending a point with a new id leaves every old first-occurrence index
      unchanged and puts the new id at the end. */
  lemma IndexAfterAppend(acc: seq<Point>, p: Point, id: string)
    requires !HasId(acc, p.id)
    ensures IndexOfId(acc + [p], id) == if id == p.id then Some(|acc|) else IndexOfId(acc, id)
  {
    var r := acc + [p];
    var a := IndexOfId(acc, id);
    var b := IndexOfId(r, id);
    assert forall j :: 0 <= j < |acc| ==> r[j] == acc[j];
    if id == p.id {
      assert r[|acc|].id == id;
    } else if a.Some? {
      assert b.Some? && b.value == a.value;
    } else {
      assert b.None?;
    }
  }

  /** The value the id-keyed `Map` ends up holding for `id` after setting every
      element of `xs` in order: the last element with that id. */
  function LastWithId(xs: seq<Point>, id: string): (r: Option<Point>)
    ensures r.Some? ==> r.value in xs && r.value.id == id
    ensures r.None? <==> !HasId(xs, id)
  {
    if |xs| == 0 then None
    else if xs[|xs| - 1].id == id then Some(xs[|xs| - 1])
    else LastWithId(xs[..|xs| - 1], id)
  }

  /** `Array.from(map.values())` for a fresh `Map` on which `set(p.id, p)` was
      called for every `p` of `xs` in order: one point per id, each the last
      written for its id. */
  function Collect(xs: seq<Point>): (r: seq<Point>)
    ensures Distinct(r)
    ensures forall id :: FindById(r, id) == LastWithId(xs, id)
    ensures forall q :: q in r ==> q in xs
  {
    if |xs| == 0 then []
    else
      var prefix := xs[..|xs| - 1];
      var r := Put(Collect(prefix), xs[|xs| - 1]);
      assert forall q :: q in prefix ==> q in xs;
      r
  }

  /** Splitting the writes: the last write in `b` wins, otherwise `a`'s. */
  lemma {:induction false} LastWithIdAppend(a: seq<Point>, b: seq<Point>, id: string)
    ensures LastWithId(a + b, id) ==
      if LastWithId(b, id).Some? then LastWithId(b, id) else LastWithId(a, id)
    decreases |b|
  {
    if |b| == 0 {
      assert a + b == a;
    } else {
      var b' := b[..|b| - 1];
      assert (a + b)[..|a + b| - 1] == a + b';
      assert (a + b)[|a + b| - 1] == b[|b| - 1];
      LastWithIdAppend(a, b', id);
    }
  }

  /** In a list without repeated ids, the last and the first point with an id
      coincide. */
  lemma {:induction false} LastIsFirstWhenDistinct(xs: seq<Point>, id: string)
    requires Distinct(xs)
    ensures LastWithId(xs, id) == FindById(xs, id)
    decreases |xs|
  {
    if |xs| > 0 {
      var prefix := xs[..|xs| - 1];
      assert Distinct(prefix);
      if xs[|xs| - 1].id == id {
        FindInDistinct(xs, |xs| - 1);
      } else {
        LastIsFirstWhenDistinct(prefix, id);
        var f := FindById(prefix, id);
        var i := IndexOfId(xs, id);
        if i.Some? {
          assert i.value < |xs| - 1;
          assert prefix[i.value].id == id;
          assert IndexOfId(prefix, id) == i;
        } else {
          assert !HasId(prefix, id);
        }
      }
    }
  }

  /** Collecting a list that already has no repeated ids keeps it as it is. */
  lemma {:induction false} CollectDistinctIsIdentity(xs: seq<Point>)
    requires Distinct(xs)
    ensures Collect(xs) == xs
    decreases |xs|
  {
    if |xs| > 0 {
      var prefix := xs[..|xs| - 1];
      var p := xs[|xs| - 1];
      DistinctSplit(xs);
      CollectDistinctIsIdentity(prefix);
      assert Collect(xs) == Put(prefix, p);
      assert prefix + [p] == xs;
    }
  }

  /** Dropping the last element of a list without repeated ids leaves such a
      list, which does not hold the dropped element's id. */
  lemma DistinctSplit(xs: seq<Point>)
    requires Distinct(xs) && |xs| > 0
    ensures Distinct(xs[..|xs| - 1])
    ensures !HasId(xs[..|xs| - 1], xs[|xs| - 1].id)
  {
    var prefix := xs[..|xs| - 1];
    assert forall j :: 0 <= j < |prefix| ==> prefix[j] == xs[j];
  }

  /** The merged list keeps the order in which ids were first written: it is
      ordered by each id's first occurrence in `xs`. */
  lemma {:induction false} CollectKeepsFirstSeenOrder(xs: seq<Point>, i: nat, j: nat)
    requires i < j < |Collect(xs)|
    ensures IndexOfId(xs, Collect(xs)[i].id).Some?
    ensures IndexOfId(xs, Collect(xs)[j].id).Some?
    ensures IndexOfId(xs, Collect(xs)[i].id).value < IndexOfId(xs, Collect(xs)[j].id).value
    decreases |xs|
  {
    var r := Collect(xs);
    var prefix := xs[..|xs| - 1];
    var p := xs[|xs| - 1];
    var c := Collect(prefix);
    assert r == Put(c, p);
    assert xs == prefix + [p];
    PutKeepsIdAt(c, p, i);
    FirstSeenInCollect(prefix, c[i]);
    PrefixIndex(prefix, p, c[i].id);
    if j < |c| {
      PutKeepsIdAt(c, p, j);
      FirstSeenInCollect(prefix, c[j]);
      PrefixIndex(prefix, p, c[j].id);
      CollectKeepsFirstSeenOrder(prefix, i, j);
    } else {
      // `r[j]` is the newly appended id, first seen at the last position.
      assert !HasId(c, p.id);
      assert r[j] == p;
      NewIdFirstSeenLast(prefix, p);
    }
  }

  /** An id the merge of `prefix` lacks is first seen at the appended point. */
  lemma NewIdFirstSeenLast(prefix: seq<Point>, p: Point)
    requires !HasId(Collect(prefix), p.id)
    ensures IndexOfId(prefix + [p], p.id) == Some(|prefix|)
  {
    assert LastWithId(prefix, p.id) == FindById(Collect(prefix), p.id);
    IndexAfterAppend(prefix, p, p.id);
  }

  /** `Put` keeps the id found at every position it already had. */
  lemma PutKeepsIdAt(c: seq<Point>, p: Point, k: nat)
    requires Distinct(c) && k < |c|
    ensures k < |Put(c, p)| && Put(c, p)[k].id == c[k].id
  {
    if c[k].id == p.id {
      PutOverwrites(c, p, k);
    }
  }

  /** Every id of the merged list occurs in the input. */
  lemma FirstSeenInCollect(xs: seq<Point>, q: Point)
    requires q in Collect(xs)
    ensures IndexOfId(xs, q.id).Some?
  {
    assert q in xs;
    var k :| 0 <= k < |xs| && xs[k] == q;
  }

  /** An id already present in `prefix` has the same first index once more
      points are appended. */
  lemma PrefixIndex(prefix: seq<Point>, p: Point, id: string)
    requires HasId(prefix, id)
    ensures IndexOfId(prefix + [p], id) == IndexOfId(prefix, id)
  {
    var xs := prefix + [p];
    var a := IndexOfId(prefix, id).value;
    assert forall k :: 0 <= k <= a ==> xs[k] == prefix[k];
    IndexOfIdIs(xs, id, a);
  }

  /** Pins the first index holding `id`. */
  lemma IndexOfIdIs(xs: seq<Point>, id: string, i: nat)
    requires i < |xs| && xs[i].id == id
    requires forall j :: 0 <= j < i ==> xs[j].id != id
    ensures IndexOfId(xs, id) == Some(i)
  {
  }

  /** When `Put` overwrites in place, the overwritten slot holds the new id. */
  lemma PutOverwrites(c: seq<Point>, p: Point, k: nat)
    requires Distinct(c) && k < |c| && c[k].id == p.id
    ensures k < |Put(c, p)| && Put(c, p)[k].id == p.id
  {
    FindInDistinct(c, k);
  }

  /** `points.map(p => p.id === id ? q : p)`: every element with `id` becomes
      `q`, all others stay where they are. */
  function ReplaceById(xs: seq<Point>, id: string, q: Point): (r: seq<Point>)
    ensures |r| == |xs|
    ensures forall k :: 0 <= k < |xs| && xs[k].id != id ==> r[k] == xs[k]
    ensures forall k :: 0 <= k < |xs| && xs[k].id == id ==> r[k] == q
  {
    seq(|xs|, k requires 0 <= k < |xs| => if xs[k].id == id then q else xs[k])
  }
}
